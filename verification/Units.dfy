/** Resource units (types/resource.go): resUnit.String and ParseResoureValue. Quotients are exact: below
    2^52 the floating-point arithmetic of the original does not round. */
module Units {
  import opened ByteStrings
  import opened Decimals

  // ---------- printing ----------

  /** 0 for plain numbers, 1 for K, 2 for M, 3 for G. */
  type Level = k: nat | k <= 3

  function Factor(k: Level): nat {
    match k
    case 0 => 1
    case 1 => 1024
    case 2 => 1048576
    case 3 => 1073741824
  }

  function Letter(k: Level): Bytes {
    match k
    case 0 => ""
    case 1 => "K"
    case 2 => "M"
    case 3 => "G"
  }

  /** The largest unit that is not above x. */
  function LevelOf(x: nat): Level {
    if x >= 1073741824 then 3 else if x >= 1048576 then 2 else if x >= 1024 then 1 else 0
  }

  /** x / f + 1/2, cut off. */
  function Rounded(x: nat, k: Level): nat {
    (2 * x + Factor(k)) / (2 * Factor(k))
  }

  function StringOf(x: nat): Bytes {
    FormatNat(Rounded(x, LevelOf(x))) + Letter(LevelOf(x))
  }

  method String(x: nat) returns (s: Bytes)
    ensures s == StringOf(x)
  {
    var unit, tmp := 0, x;
    while unit < 3 && tmp / 1024 > 0
      invariant 0 <= unit <= 3 && tmp == x / Factor(unit) && (unit > 0 ==> tmp > 0)
      decreases 3 - unit
    {
      tmp := tmp / 1024;
      unit := unit + 1;
    }
    assert unit == LevelOf(x);
    s := FormatNat(Rounded(x, unit)) + Letter(unit);
  }

  // ---------- parsing ----------

  function DigitsEnd(s: Bytes, i: nat): (k: nat)
    requires i <= |s|
    ensures i <= k <= |s|
    decreases |s| - i
  {
    if i == |s| || !IsDigit(s[i]) then i else DigitsEnd(s, i + 1)
  }

  /** The factor of a suffix: nothing, or a letter with an optional b or B behind it. */
  function SuffixFactor(suffix: Bytes): Option<nat> {
    if suffix == [] then Some(1)
    else if |suffix| > 2 || (|suffix| == 2 && suffix[1] != 'b' && suffix[1] != 'B') then None
    else match suffix[0]
      case 'k' => Some(1000)
      case 'K' => Some(1024)
      case 'm' => Some(1000000)
      case 'M' => Some(1048576)
      case 'g' => Some(1000000000)
      case 'G' => Some(1073741824)
      case _ => None
  }

  function Pow10(n: nat): (p: nat)
    ensures p >= 1
  {
    if n == 0 then 1 else 10 * Pow10(n - 1)
  }

  /** uint64(n * f / p) */
  function Scaled(n: nat, f: nat, p: nat): nat
    requires p >= 1
  {
    n * f / p
  }

  function ParseOf(s: Bytes): Option<nat> {
    var i := DigitsEnd(s, 0);
    var j := if i < |s| && s[i] == '.' then DigitsEnd(s, i + 1) else i;
    var fraction := if i < j then s[i + 1..j] else [];
    if i == 0 then None
    else match (SuffixFactor(s[j..]), ParseDigits(s[..i] + fraction))
      case (Some(f), Some(n)) => Some(Scaled(n, f, Pow10(|fraction|)))
      case _ => None
  }

  // ---------- there and back ----------

  function Reread(x: nat): nat {
    Rounded(x, LevelOf(x)) * Factor(LevelOf(x))
  }

  lemma {:induction false} DigitsEndAt(s: Bytes, i: nat, k: nat)
    requires i <= k <= |s| && (forall j :: i <= j < k ==> IsDigit(s[j])) && (k < |s| ==> !IsDigit(s[k]))
    ensures DigitsEnd(s, i) == k
    decreases k - i
  {
    if i < k {
      DigitsEndAt(s, i + 1, k);
    }
  }

  /** ParseResoureValue of the printed text is the rounded value. */
  lemma {:induction false} ParseString(x: nat)
    ensures ParseOf(StringOf(x)) == Some(Reread(x))
  {
    hide Rounded, FormatNat, ParseDigits;
    var n, u := Rounded(x, LevelOf(x)), Letter(LevelOf(x));
    var digits := FormatNat(n);
    var s := digits + u;
    forall j | 0 <= j < |digits|
      ensures IsDigit(s[j])
    {
      FormatNatDigits(n, j);
    }
    DigitsEndAt(s, 0, |digits|);
    ParseFormatNat(n);
    assert s[..|digits|] == digits && s[|digits|..] == u;
    assert digits + [] == digits;
    NotEmpty(n);
  }

  predicate AllDigits(s: Bytes) {
    forall j :: 0 <= j < |s| ==> IsDigit(s[j])
  }

  /** `whole` with its unit: digits, perhaps a point with digits behind it, and a suffix. */
  function Amount(whole: Bytes, point: Bytes, fraction: Bytes, suffix: Bytes): Bytes {
    whole + point + fraction + suffix
  }

  lemma {:induction false} AmountPieces(whole: Bytes, point: Bytes, fraction: Bytes, suffix: Bytes)
    requires AllDigits(whole) && AllDigits(fraction) && SuffixFactor(suffix).Some?
    requires point == "." || (point == "" && fraction == "")
    ensures
      var s := Amount(whole, point, fraction, suffix);
      var i, j := |whole|, |whole| + |point| + |fraction|;
      && DigitsEnd(s, 0) == i && s[..i] == whole && s[j..] == suffix
      && (point == "." ==> s[i] == '.' && DigitsEnd(s, i + 1) == j && s[i + 1..j] == fraction)
      && (point == "" && i < |s| ==> s[i] != '.')
  {
    var s := Amount(whole, point, fraction, suffix);
    var i, j := |whole|, |whole| + |point| + |fraction|;
    assert forall k :: 0 <= k < i ==> s[k] == whole[k];
    assert forall k :: 0 <= k < |suffix| ==> s[j + k] == suffix[k];
    assert point == "." ==> s[i] == '.';
    assert forall k :: 0 <= k < |fraction| ==> s[i + |point| + k] == fraction[k];
    DigitsEndAt(s, 0, i);
    if point == "." {
      forall k | i + 1 <= k < j
        ensures IsDigit(s[k])
      {
        assert s[k] == fraction[k - i - 1];
      }
      DigitsEndAt(s, i + 1, j);
    }
  }

  /** The number in front, times the unit, with what is left of a unit cut off. */
  lemma {:induction false} ParseAmount(whole: Bytes, point: Bytes, fraction: Bytes, suffix: Bytes)
    requires whole != [] && AllDigits(whole) && AllDigits(fraction) && SuffixFactor(suffix).Some?
    requires point == "." || (point == "" && fraction == "")
    requires ParseDigits(whole + fraction).Some?
    ensures ParseOf(Amount(whole, point, fraction, suffix)) ==
            Some(ParseDigits(whole + fraction).value * SuffixFactor(suffix).value / Pow10(|fraction|))
  {
    hide ParseDigits, DigitsEnd, SuffixFactor;
    AmountPieces(whole, point, fraction, suffix);
  }

  lemma {:induction false} ParseWhole(n: nat, suffix: Bytes)
    requires SuffixFactor(suffix).Some?
    ensures ParseOf(FormatNat(n) + suffix) == Some(n * SuffixFactor(suffix).value)
  {
    hide ParseDigits, FormatNat, SuffixFactor, ParseOf;
    var whole := FormatNat(n);
    forall j | 0 <= j < |whole|
      ensures IsDigit(whole[j])
    {
      FormatNatDigits(n, j);
    }
    ParseFormatNat(n);
    NotEmpty(n);
    assert whole + [] == whole && Amount(whole, "", "", suffix) == whole + suffix;
    ParseAmount(whole, "", "", suffix);
  }

  /** k, m and g go up by 1000, K, M and G by 1024; a b or B behind the letter changes nothing. */
  lemma {:induction false} UnitLadder(n: nat)
    ensures ParseOf(FormatNat(n)) == Some(n)
    ensures ParseOf(FormatNat(n) + "k") == Some(1000 * n) && ParseOf(FormatNat(n) + "K") == Some(1024 * n)
    ensures ParseOf(FormatNat(n) + "m") == ParseOf(FormatNat(1000 * n) + "k")
    ensures ParseOf(FormatNat(n) + "g") == ParseOf(FormatNat(1000 * n) + "m")
    ensures ParseOf(FormatNat(n) + "M") == ParseOf(FormatNat(1024 * n) + "K")
    ensures ParseOf(FormatNat(n) + "G") == ParseOf(FormatNat(1024 * n) + "M")
  {
    hide FormatNat, ParseOf;
    assert FormatNat(n) + "" == FormatNat(n);
    ParseWhole(n, "");
    ParseWhole(n, "k");
    ParseWhole(n, "K");
    ParseWhole(n, "m");
    ParseWhole(n, "g");
    ParseWhole(n, "M");
    ParseWhole(n, "G");
    ParseWhole(1000 * n, "k");
    ParseWhole(1000 * n, "m");
    ParseWhole(1024 * n, "K");
    ParseWhole(1024 * n, "M");
  }

  lemma {:induction false} BytesSuffix(n: nat, letter: char, b: char)
    requires letter in {'k', 'K', 'm', 'M', 'g', 'G'} && b in {'b', 'B'}
    ensures ParseOf(FormatNat(n) + [letter, b]) == ParseOf(FormatNat(n) + [letter])
  {
    hide FormatNat, ParseOf;
    ParseWhole(n, [letter, b]);
    ParseWhole(n, [letter]);
  }

  /** Nothing else is accepted. */
  lemma {:induction false} ParseAccepts(s: Bytes) returns (whole: Bytes, point: Bytes, fraction: Bytes, suffix: Bytes)
    requires ParseOf(s).Some?
    ensures s == Amount(whole, point, fraction, suffix) && whole != [] && AllDigits(whole) && AllDigits(fraction)
    ensures (point == "." || (point == "" && fraction == "")) && SuffixFactor(suffix).Some?
  {
    hide ParseDigits, SuffixFactor;
    var i := DigitsEnd(s, 0);
    var j := if i < |s| && s[i] == '.' then DigitsEnd(s, i + 1) else i;
    DigitsBefore(s, 0);
    whole, suffix := s[..i], s[j..];
    if i < j {
      DigitsBefore(s, i + 1);
      point, fraction := ".", s[i + 1..j];
    } else {
      point, fraction := "", "";
    }
  }

  lemma {:induction false} DigitsBefore(s: Bytes, i: nat)
    requires i <= |s|
    ensures forall k :: i <= k < DigitsEnd(s, i) ==> IsDigit(s[k])
    decreases |s| - i
  {
    if i < |s| && IsDigit(s[i]) {
      DigitsBefore(s, i + 1);
    }
  }

  lemma {:induction false} NotEmpty(n: nat)
    ensures FormatNat(n) != []
  {
  }

  /** The result is at most half a unit away. */
  lemma {:induction false} HalfUnit(x: nat)
    ensures
      var f: int := Factor(LevelOf(x));
      -f <= 2 * (Reread(x) - x) <= f
  {
    var f := Factor(LevelOf(x));
    RoundedBounds(2 * x + f, f, Rounded(x, LevelOf(x)));
  }

  lemma {:induction false} RoundedBounds(a: nat, f: nat, q: nat)
    requires f > 0 && q == a / (2 * f)
    ensures q * (2 * f) <= a < q * (2 * f) + 2 * f
  {
  }

  /** A number of a unit never exceeds 1024 unless the unit is the largest. */
  lemma {:induction false} RoundedRange(x: nat)
    ensures LevelOf(x) < 3 ==> Rounded(x, LevelOf(x)) <= 1024
    ensures LevelOf(x) > 0 ==> Rounded(x, LevelOf(x)) >= 1
  {
  }

  lemma {:induction false} Multiples(n: nat, k: Level)
    ensures Rounded(n * Factor(k), k) == n
  {
    var f := Factor(k);
    assert 2 * (n * f) + f == n * (2 * f) + f;
    RoundedBounds(2 * (n * f) + f, f, Rounded(n * f, k));
    QuotientUnique(n, Rounded(n * f, k), f);
  }

  lemma {:induction false} QuotientUnique(n: nat, q: nat, f: nat)
    requires f > 0 && q * (2 * f) <= n * (2 * f) + f < q * (2 * f) + 2 * f
    ensures n == q
  {
    assert (n + 1) * (2 * f) == n * (2 * f) + 2 * f;
    assert (q + 1) * (2 * f) == q * (2 * f) + 2 * f;
    if n < q {
      Monotone(n + 1, q, 2 * f);
    } else if q < n {
      Monotone(q + 1, n, 2 * f);
    }
  }

  lemma {:induction false} Monotone(a: nat, b: nat, c: nat)
    requires a <= b
    ensures a * c <= b * c
  {
  }

  /** Printing and parsing again changes nothing more, not even where 1024 of one unit are carried into
      the next. */
  lemma {:induction false} Idempotent(x: nat)
    ensures Reread(Reread(x)) == Reread(x)
  {
    var k := LevelOf(x);
    var n := Rounded(x, k);
    RoundedRange(x);
    LevelOfMultiple(n, k);
    if n == 1024 && k < 3 {
      Multiples(1, k + 1);
    } else {
      Multiples(n, k);
    }
  }

  lemma {:induction false} LevelOfMultiple(n: nat, k: Level)
    requires (k < 3 ==> n <= 1024) && (k > 0 ==> n >= 1)
    ensures LevelOf(n * Factor(k)) == if n == 1024 && k < 3 then k + 1 else k
  {
  }

  lemma {:induction false} MonotoneReread(x: nat, y: nat)
    requires x <= y
    ensures Reread(x) <= Reread(y)
  {
    var k, l := LevelOf(x), LevelOf(y);
    RoundedRange(x);
    RoundedRange(y);
    if k == l {
      SameLevel(x, y, k);
      Monotone(Rounded(x, k), Rounded(y, k), Factor(k));
    } else {
      Monotone(Rounded(x, k), 1024, Factor(k));
      Monotone(1, Rounded(y, l), Factor(l));
      assert 1024 * Factor(k) <= Factor(l);
    }
  }

  lemma {:induction false} SameLevel(x: nat, y: nat, k: Level)
    requires x <= y
    ensures Rounded(x, k) <= Rounded(y, k)
  {
  }
}
