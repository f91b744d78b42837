/** strconv.AppendInt / FormatInt and strconv.ParseInt, base 10, 64 bits. */
module Decimals {
  import opened ByteStrings

  predicate IsDigit(c: char) { '0' <= c <= '9' }

  function DigitValue(c: char): (d: nat)
    requires IsDigit(c)
    ensures d < 10
  {
    c as int - '0' as int
  }

  function DigitOf(d: nat): (c: char)
    requires d < 10
    ensures IsDigit(c) && DigitValue(c) == d
  {
    ('0' as int + d) as char
  }

  function FormatNat(n: nat): (s: Bytes)
    ensures s != []
  {
    (if n < 10 then [] else FormatNat(n / 10)) + [DigitOf(n % 10)]
  }

  lemma {:induction false} FormatNatDigits(n: nat, k: nat)
    requires k < |FormatNat(n)|
    ensures IsDigit(FormatNat(n)[k])
  {
    if n >= 10 && k < |FormatNat(n / 10)| {
      FormatNatDigits(n / 10, k);
    }
  }

  function FormatInt(n: int): Bytes {
    if n < 0 then ['-'] + FormatNat(-n) else FormatNat(n)
  }

  function ParseDigits(s: Bytes): Option<nat> {
    if s == [] then Some(0)
    else if !IsDigit(s[|s| - 1]) then None
    else match ParseDigits(s[..|s| - 1])
      case None => None
      case Some(n) => Some(10 * n + DigitValue(s[|s| - 1]))
  }

  /** None is any of ParseInt's errors: no digits, a foreign byte, out of range. */
  function ParseInt(s: Bytes): Option<int> {
    var digits := if s != [] && (s[0] == '-' || s[0] == '+') then s[1..] else s;
    if digits == [] then None
    else match ParseDigits(digits)
      case None => None
      case Some(n) =>
        var v := if s[0] == '-' then 0 - (n as int) else n as int;
        if MIN_INT64 <= v <= MAX_INT64 then Some(v) else None
  }

  lemma {:induction false} ParseFormatNat(n: nat)
    ensures ParseDigits(FormatNat(n)) == Some(n)
  {
    var s := FormatNat(n);
    if n < 10 {
      assert s[..|s| - 1] == [];
    } else {
      ParseFormatNat(n / 10);
      assert s[..|s| - 1] == FormatNat(n / 10);
    }
  }

  lemma {:induction false} ParseFormatInt(n: int)
    requires MIN_INT64 <= n <= MAX_INT64
    ensures ParseInt(FormatInt(n)) == Some(n)
  {
    var m: nat := if n < 0 then -n else n;
    var s, digits := FormatInt(n), FormatNat(m);
    ParseFormatNat(m);
    FormatNatDigits(m, 0);
    assert n < 0 ==> s[0] == '-' && s[1..] == digits;
  }

  predicate NumberStart(c: char) {
    c == '-' || IsDigit(c)
  }

  lemma {:induction false} FormatIntShape(n: int)
    ensures FormatInt(n) != [] && NumberStart(FormatInt(n)[0])
    ensures FormatInt(n)[0] == '-' <==> n < 0
    ensures n < 0 ==> |FormatInt(n)| >= 2
  {
    FormatNatDigits(if n < 0 then -n else n, 0);
  }

  lemma {:induction false} FormatIntDigit(n: int, k: nat)
    requires (if n < 0 then 1 else 0) <= k < |FormatInt(n)|
    ensures IsDigit(FormatInt(n)[k])
  {
    FormatNatDigits(if n < 0 then -n else n, if n < 0 then k - 1 else k);
  }

  lemma {:induction false} FormatIntWithout(n: int, c: char)
    requires !NumberStart(c)
    ensures c !in FormatInt(n)
  {
    forall k | 0 <= k < |FormatInt(n)|
      ensures FormatInt(n)[k] != c
    {
      if n < 0 && k == 0 {
        FormatIntShape(n);
      } else {
        FormatIntDigit(n, k);
      }
    }
  }
}
