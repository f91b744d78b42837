/** Exactly which numbers and booleans the scanners of report/metric/parse.go accept behind an '='. */
module ScalarGrammar {
  import opened ByteStrings
  import opened Decimals
  import opened Escaping
  import opened Lines
  import opened FieldLookup
  import opened LineGrammar

  // ---------- the accepted texts ----------

  /** A minus at the start; digits, points, and behind the first byte exponent letters and an i; a sign right
      behind an exponent letter. */
  predicate NumberChar(t: Bytes, i: nat)
    requires i < |t|
  {
    || IsDigit(t[i]) || t[i] == '.'
    || (i == 0 && t[i] == '-')
    || (i > 0 && t[i] in {'e', 'E', 'i'})
    || (i > 0 && t[i] in {'+', '-'} && t[i - 1] in {'e', 'E'})
  }

  predicate HasExponent(t: Bytes) {
    'e' in t || 'E' in t
  }

  /** An int64 with an i behind it. */
  predicate IsInteger(t: Bytes) {
    |t| > 1 && t[|t| - 1] == 'i' && t[0] != '+' && ParseInt(t[..|t| - 1]).Some?
  }

  /** The bytes of a float, at most one point, and more than a minus and a point; with an exponent, or from 25
      bytes on, ParseFloat has the last word. */
  predicate IsDecimal(t: Bytes, floatOk: FloatTest) {
    && 'i' !in t && (forall i :: 0 <= i < |t| ==> NumberChar(t, i)) && multiset(t)['.'] <= 1
    && t !in ["", "-", ".", "-."]
    && (HasExponent(t) || |t| >= 25 ==> floatOk(t))
  }

  // ---------- the scan ----------

  predicate CharAt(buf: Bytes, start: nat, i: nat)
    requires start <= i < |buf| && 1 <= start
  {
    || IsDigit(buf[i]) || buf[i] == '.'
    || (i > start && buf[i] in {'e', 'E', 'i'})
    || (i > start && buf[i] in {'+', '-'} && buf[i - 1] in {'e', 'E'})
  }

  function Bit(b: bool): nat {
    if b then 1 else 0
  }

  predicate RestOk(buf: Bytes, start: nat, i: nat, end: nat, seen: Seen)
    requires 1 <= start <= i <= end <= |buf|
  {
    && (forall j :: i <= j < end ==> CharAt(buf, start, j))
    && multiset(buf[i..end])['.'] + Bit(seen.decimal) <= 1 && multiset(buf[i..end])['i'] + Bit(seen.isInt) <= 1
  }

  function SeenIn(t: Bytes, seen: Seen): Seen {
    Seen(seen.isInt || 'i' in t, seen.decimal || '.' in t, seen.scientific || HasExponent(t))
  }

  lemma {:induction false} SeenCons(c: char, t: Bytes, seen: Seen)
    ensures SeenIn([c] + t, seen) ==
            SeenIn(t, Seen(seen.isInt || c == 'i', seen.decimal || c == '.', seen.scientific || c in {'e', 'E'}))
    ensures multiset([c] + t)['.'] == multiset(t)['.'] + Bit(c == '.')
    ensures multiset([c] + t)['i'] == multiset(t)['i'] + Bit(c == 'i')
  {
    assert forall x :: x in [c] + t <==> x == c || x in t;
  }

  /** What one byte does to the flags. */
  function Flagged(seen: Seen, c: char): Seen {
    Seen(seen.isInt || c == 'i', seen.decimal || c == '.', seen.scientific || c in {'e', 'E'})
  }

  lemma {:induction false} ScanStep(buf: Bytes, start: nat, i: nat, seen: Seen)
    requires 1 <= start <= i < |buf| && buf[i] !in {',', ' '} && buf[start - 1] == '='
    ensures
      NumberScan(buf, start, i, seen) ==
      if CharAt(buf, start, i) && !(seen.decimal && buf[i] == '.') && !(seen.isInt && buf[i] == 'i')
      then NumberScan(buf, start, i + 1, Flagged(seen, buf[i])) else Err(InvalidNumber)
  {
  }

  lemma {:induction false} RestStep(buf: Bytes, start: nat, i: nat, end: nat, seen: Seen)
    requires 1 <= start <= i < end <= |buf|
    ensures
      RestOk(buf, start, i, end, seen) <==>
      && CharAt(buf, start, i) && !(seen.decimal && buf[i] == '.') && !(seen.isInt && buf[i] == 'i')
      && RestOk(buf, start, i + 1, end, Flagged(seen, buf[i]))
    ensures SeenIn(buf[i..end], seen) == SeenIn(buf[i + 1..end], Flagged(seen, buf[i]))
  {
    assert buf[i..end] == [buf[i]] + buf[i + 1..end];
    SeenCons(buf[i], buf[i + 1..end], seen);
  }

  lemma {:induction false} ScanRest(buf: Bytes, start: nat, i: nat, end: nat, seen: Seen)
    requires 1 <= start <= i <= |buf| && end == TokenEnd(buf, i) && buf[start - 1] == '='
    ensures
      NumberScan(buf, start, i, seen) ==
      if RestOk(buf, start, i, end, seen) then Ok((end, SeenIn(buf[i..end], seen))) else Err(InvalidNumber)
    decreases end - i
  {
    if i == end {
      assert buf[i..end] == [];
    } else {
      hide NumberScan, SeenIn, Flagged, CharAt, RestOk;
      ScanStep(buf, start, i, seen);
      RestStep(buf, start, i, end, seen);
      ScanRest(buf, start, i + 1, end, Flagged(seen, buf[i]));
    }
  }

  // ---------- the whole number ----------

  /** What the loop lets through. */
  predicate Scanned(t: Bytes) {
    (forall i :: 0 <= i < |t| ==> NumberChar(t, i)) && multiset(t)['.'] <= 1 && multiset(t)['i'] <= 1
  }

  /** Where the loop starts: behind a minus. */
  function LoopStart(buf: Bytes, start: nat): (i: nat)
    requires start < |buf|
    ensures start <= i <= start + 1
  {
    if buf[start] == '-' then start + 1 else start
  }

  lemma {:induction false} CharsShift(buf: Bytes, start: nat, end: nat)
    requires 1 <= start < end <= |buf| && buf[start - 1] == '='
    ensures
      var t := buf[start..end];
      (forall i :: 0 <= i < |t| ==> NumberChar(t, i)) <==>
      (forall j :: LoopStart(buf, start) <= j < end ==> CharAt(buf, start, j))
  {
    var t := buf[start..end];
    if forall i :: 0 <= i < |t| ==> NumberChar(t, i) {
      forall j | LoopStart(buf, start) <= j < end
        ensures CharAt(buf, start, j)
      {
        assert NumberChar(t, j - start);
      }
    }
    if forall j :: LoopStart(buf, start) <= j < end ==> CharAt(buf, start, j) {
      forall i | 0 <= i < |t|
        ensures NumberChar(t, i)
      {
        if start + i >= LoopStart(buf, start) {
          assert CharAt(buf, start, start + i);
        }
      }
    }
  }

  lemma {:induction false} CharsAt(buf: Bytes, start: nat, end: nat)
    requires 1 <= start < end <= |buf| && buf[start - 1] == '='
    ensures Scanned(buf[start..end]) <==> RestOk(buf, start, LoopStart(buf, start), end, NOTHING)
    ensures SeenIn(buf[LoopStart(buf, start)..end], NOTHING) == SeenIn(buf[start..end], NOTHING)
  {
    hide NumberChar, CharAt;
    CharsShift(buf, start, end);
    if buf[start] == '-' {
      assert buf[start..end] == ['-'] + buf[start + 1..end];
      SeenCons('-', buf[start + 1..end], NOTHING);
    }
  }

  lemma {:induction false} TokenEndFrom(buf: Bytes, start: nat)
    requires start < |buf| && buf[start] !in {',', ' '}
    ensures TokenEnd(buf, start) == TokenEnd(buf, start + 1)
  {
  }

  /** scanNumber in terms of the text up to the next comma or space. */
  lemma {:induction false} NumberEndIs(buf: Bytes, start: nat, floatOk: FloatTest)
    requires 1 <= start < |buf| && buf[start] !in {',', ' '} && buf[start - 1] == '='
    ensures
      var end := TokenEnd(buf, start);
      var t := buf[start..end];
      && start < end
      && (NumberEnd(buf, start, floatOk).Ok? <==> Scanned(t) && CheckNumber(t, SeenIn(t, NOTHING), floatOk).None?)
      && (NumberEnd(buf, start, floatOk).Ok? ==> NumberEnd(buf, start, floatOk).value == end)
  {
    hide NumberScan, TokenEnd, RestOk, SeenIn, Scanned, CheckNumber;
    var end := TokenEnd(buf, start);
    TokenEndFrom(buf, start);
    CharsAt(buf, start, end);
    var i := LoopStart(buf, start);
    if i < |buf| {
      ScanRest(buf, start, i, end, NOTHING);
    } else {
      MinusOnly(buf[start..end], floatOk);
    }
  }

  lemma {:induction false} MinusOnly(t: Bytes, floatOk: FloatTest)
    requires t == ['-']
    ensures CheckNumber(t, SeenIn(t, NOTHING), floatOk) == Some(InvalidNumber)
  {
  }

  // ---------- integers ----------

  predicate AllDigits(s: Bytes) {
    forall i :: 0 <= i < |s| ==> IsDigit(s[i])
  }

  lemma {:induction false} ParseDigitsExactly(s: Bytes)
    ensures ParseDigits(s).Some? <==> AllDigits(s)
    ensures ParseDigits(s).Some? ==> ParseDigits(s).value < Power10(|s|)
  {
    if s != [] {
      var init := s[..|s| - 1];
      ParseDigitsExactly(init);
      assert s == init + [s[|s| - 1]];
    }
  }

  function Power10(n: nat): nat {
    if n == 0 then 1 else 10 * Power10(n - 1)
  }

  lemma {:induction false} Power10Small(n: nat)
    requires n <= 18
    ensures Power10(n) <= MAX_INT64
    decreases 18 - n
  {
    if n < 18 {
      Power10Small(n + 1);
    } else {
      assert Power10(3) == 1000;
      assert Power10(6) == 1000 * Power10(3);
      assert Power10(9) == 1000 * Power10(6);
      assert Power10(12) == 1000 * Power10(9);
      assert Power10(15) == 1000 * Power10(12);
      assert Power10(18) == 1000 * Power10(15);
    }
  }

  /** Behind an optional minus, nothing but digits, and at least one. */
  predicate Signed(s: Bytes) {
    AllDigits(Unsigned(s)) && Unsigned(s) != []
  }

  function Unsigned(s: Bytes): Bytes {
    if s != [] && s[0] == '-' then s[1..] else s
  }

  /** Up to 18 bytes every such text is in range. */
  lemma {:induction false} ParseIntExactly(s: Bytes)
    requires s != [] ==> s[0] != '+'
    ensures ParseInt(s).Some? ==> Signed(s)
    ensures |s| <= 18 && Signed(s) ==> ParseInt(s).Some?
  {
    hide AllDigits;
    ParseDigitsExactly(Unsigned(s));
    if |s| <= 18 {
      Power10Small(|Unsigned(s)|);
    }
  }

  lemma {:induction false} CountOnce(t: Bytes, c: char)
    ensures c in t <==> multiset(t)[c] >= 1
    ensures t != [] && t[|t| - 1] == c ==> (multiset(t)[c] <= 1 <==> c !in t[..|t| - 1])
  {
    if t != [] {
      assert t == t[..|t| - 1] + [t[|t| - 1]];
      assert multiset(t) == multiset(t[..|t| - 1]) + multiset{t[|t| - 1]};
      assert c in t[..|t| - 1] <==> c in multiset(t[..|t| - 1]);
    }
    assert c in t <==> c in multiset(t);
  }

  /** A scanned text that ends in its only i and has neither point nor exponent is a signed number and an i. */
  lemma {:induction false} IntegerShape(t: Bytes)
    requires |t| > 1 && t[|t| - 1] == 'i'
    ensures
      Signed(t[..|t| - 1]) <==>
      Scanned(t) && '.' !in t && !HasExponent(t) && |t| - 1 > (if t[0] == '-' then 1 else 0)
  {
    var s := t[..|t| - 1];
    assert t == s + ['i'];
    CountOnce(t, 'i');
    CountOnce(t, '.');
    if Signed(s) {
      DigitsOnly(s);
      forall i | 0 <= i < |t|
        ensures NumberChar(t, i)
      {
        assert i < |s| ==> t[i] == s[i];
      }
    } else if Scanned(t) && '.' !in t && !HasExponent(t) && |t| - 1 > (if t[0] == '-' then 1 else 0) {
      forall i | 0 <= i < |Unsigned(s)|
        ensures IsDigit(Unsigned(s)[i])
      {
        var j := i + |s| - |Unsigned(s)|;
        assert NumberChar(t, j) && t[j] == s[j];
        assert j > 0 ==> t[j - 1] in t;
        assert t[j] in t && s[j] in s;
      }
      assert false;
    }
  }

  lemma {:induction false} DigitsOnly(s: Bytes)
    requires Signed(s)
    ensures forall i :: 0 <= i < |s| ==> IsDigit(s[i]) || (i == 0 && s[i] == '-')
  {
    forall i | 0 <= i < |s|
      ensures IsDigit(s[i]) || (i == 0 && s[i] == '-')
    {
      if s[0] != '-' {
        assert IsDigit(Unsigned(s)[i]);
      } else if i > 0 {
        assert IsDigit(Unsigned(s)[i - 1]);
      }
    }
  }

  /** The checks behind the loop leave exactly the int64 values. */
  lemma {:induction false} IntegersPass(t: Bytes, floatOk: FloatTest)
    requires t != [] && 'i' in t
    ensures Scanned(t) && CheckNumber(t, SeenIn(t, NOTHING), floatOk).None? <==> IsInteger(t)
  {
    hide Scanned, HasExponent, Signed, ParseInt;
    if |t| > 1 && t[|t| - 1] == 'i' && t[0] != '+' {
      IntegerShape(t);
      ParseIntExactly(t[..|t| - 1]);
      MinusThenI(t);
    } else if Scanned(t) {
      NoPlus(t);
    }
  }

  lemma {:induction false} MinusThenI(t: Bytes)
    requires |t| > 1
    ensures t[..|t| - 1] != [] && t[..|t| - 1][0] == t[0]
  {
  }

  lemma {:induction false} NoPlus(t: Bytes)
    requires Scanned(t) && t != []
    ensures t[0] != '+' && t[0] != 'i'
  {
    assert NumberChar(t, 0);
  }

  // ---------- decimals ----------

  /** No byte but a minus and a point: the text has no digit. */
  lemma {:induction false} NoDigits(t: Bytes)
    requires t != []
    ensures |t| == Bit('.' in t) + Bit(t[0] == '-') <==> t in ["-", ".", "-."]
  {
    if |t| == 1 {
      assert t == [t[0]];
    } else if |t| == 2 {
      assert t == [t[0], t[1]];
    }
  }

  lemma {:induction false} DecimalsPass(t: Bytes, floatOk: FloatTest)
    requires t != [] && 'i' !in t
    ensures Scanned(t) && CheckNumber(t, SeenIn(t, NOTHING), floatOk).None? <==> IsDecimal(t, floatOk)
  {
    hide NumberChar, HasExponent;
    NoDigits(t);
    CountOnce(t, 'i');
  }

  // ---------- scanNumber and scanBoolean ----------

  /** A number is accepted if and only if the text up to the next comma or space is an int64 with an i, or a
      decimal, and all of that text is taken. */
  lemma {:induction false} NumbersExactly(buf: Bytes, start: nat, floatOk: FloatTest, k: nat)
    requires 1 <= start < |buf| && buf[start] !in {',', ' '} && buf[start - 1] == '='
    ensures
      NumberEnd(buf, start, floatOk) == Ok(k) <==>
      k == TokenEnd(buf, start) && (IsInteger(buf[start..k]) || IsDecimal(buf[start..k], floatOk))
  {
    hide NumberEnd, TokenEnd, IsInteger, IsDecimal, Scanned, CheckNumber, SeenIn;
    NumberEndIs(buf, start, floatOk);
    var t := buf[start..TokenEnd(buf, start)];
    if 'i' in t {
      IntegersPass(t, floatOk);
      NotBoth(t, floatOk);
    } else {
      DecimalsPass(t, floatOk);
      NotBoth(t, floatOk);
    }
  }

  lemma {:induction false} NotBoth(t: Bytes, floatOk: FloatTest)
    ensures IsInteger(t) ==> 'i' in t
    ensures IsDecimal(t, floatOk) ==> 'i' !in t
  {
  }

  /** A boolean is accepted if and only if the text up to the next comma or space is one of ten words. */
  lemma {:induction false} BooleansExactly(buf: Bytes, start: nat, k: nat)
    requires start < |buf|
    ensures
      BooleanEnd(buf, start) == Ok(k) <==>
      && k == TokenEnd(buf, start + 1)
      && buf[start..k] in ["t", "T", "true", "True", "TRUE", "f", "F", "false", "False", "FALSE"]
  {
    hide TokenEnd;
    var end := TokenEnd(buf, start + 1);
    var word := buf[start..end];
    assert word[0] == buf[start];
    assert |word| == 1 ==> word == [buf[start]];
  }

  // ---------- what Fields makes of them ----------

  /** Fields reads an accepted number back as what it says, unless it starts with a point: such a number is
      accepted by the parser and passed over by Fields. */
  lemma {:induction false} AcceptedNumbersRead(t: Bytes, floatOk: FloatTest)
    requires IsInteger(t) || IsDecimal(t, floatOk)
    ensures t != []
    ensures
      ReadToken(t, floatOk) ==
      if t[0] == '.' then Skipped
      else if IsInteger(t) then Got(Int(ParseInt(t[..|t| - 1]).value))
      else if floatOk(t) then Got(Float(t))
      else Skipped
  {
    if IsInteger(t) {
      var s := t[..|t| - 1];
      ParseIntExactly(s);
      DigitsOnly(s);
      assert s[0] == t[0];
    } else {
      assert NumberChar(t, 0);
      assert t[|t| - 1] in t;
    }
  }

  lemma {:induction false} AcceptedBooleansRead(word: Bytes, floatOk: FloatTest)
    requires word in ["t", "T", "true", "True", "TRUE", "f", "F", "false", "False", "FALSE"]
    ensures ReadToken(word, floatOk) == Got(Bool(word in ["t", "T", "true", "True", "TRUE"]))
  {
    assert word[0] in {'t', 'T'} <==> word in ["t", "T", "true", "True", "TRUE"];
  }

  /** No number, boolean or string. */
  predicate Unreadable(t: Bytes, floatOk: FloatTest)
    requires t != []
  {
    if NumberStart(t[0]) then if t[|t| - 1] == 'i' then ParseInt(t[..|t| - 1]).None? else !floatOk(t)
    else t[0] !in {'"', 't', 'T', 'f', 'F'}
  }

  /** A value that cannot be read is passed over, and Fields goes on with the next field. */
  lemma {:induction false} PassedOver(key: Bytes, t: Bytes, rest: Bytes, acc: FieldMap, floatOk: FloatTest)
    requires Shut(key, {'='}) && Shut(key, {','}) && t != [] && '\\' !in t && ',' !in t && (rest != [] ==> rest[0] == ',')
    requires Unreadable(t, floatOk)
    ensures FieldsFrom(Escape(InKey, key) + ['='] + t + rest, acc, floatOk) == FieldsFrom(Tail(rest, 1), acc, floatOk)
  {
    hide Escape, Shut, CutField;
    CutPlainField(key, t, rest, floatOk);
    assert Escape(InKey, key) + ['='] + t + rest != [];
  }

  /** ".5" is accepted and passed over. */
  lemma {:induction false} PointFirst(floatOk: FloatTest)
    ensures IsDecimal(".5", floatOk) && ReadToken(".5", floatOk) == Skipped
  {
    var t := ".5";
    assert t == ['.', '5'];
    assert multiset(t)['.'] == 1;
    assert NumberChar(t, 0) && NumberChar(t, 1);
    AcceptedNumbersRead(t, floatOk);
  }
}
