/** The escape rules of the line protocol (report/metric/escape.go) and the two ways the
    package later decides whether a byte is escaped: by the parity of the backslashes before
    it (indexUnescapedByte, and the two-byte skips of scanFields), and by looking at the one
    byte before it (scanMeasurement, scanTagsKey, scanTagsValue). */
module Escaping {
  import opened ByteStrings

  /** Which table a string is escaped with: "name"; "tagkey", "tagval" and "fieldkey"; or "fieldval". */
  datatype Kind = InName | InKey | InString

  function Specials(kind: Kind): set<char> {
    match kind
    case InName => {',', ' '}
    case InKey => {',', '"', ' ', '='}
    case InString => {'"'}
  }

  function EscapeByte(kind: Kind, c: char): Bytes {
    if c in Specials(kind) then ['\\', c] else [c]
  }

  function Escape(kind: Kind, s: Bytes): Bytes {
    if s == [] then [] else EscapeByte(kind, s[0]) + Escape(kind, s[1..])
  }

  function Unescape(kind: Kind, s: Bytes): Bytes {
    if s == [] then []
    else if |s| >= 2 && s[0] == '\\' && s[1] in Specials(kind) then [s[1]] + Unescape(kind, s[2..])
    else [s[0]] + Unescape(kind, s[1..])
  }

  lemma {:induction false} UnescapeEscape(kind: Kind, s: Bytes)
    ensures Unescape(kind, Escape(kind, s)) == s
  {
    if s != [] {
      var e, rest := Escape(kind, s), Escape(kind, s[1..]);
      UnescapeEscape(kind, s[1..]);
      if s[0] in Specials(kind) {
        assert e[2..] == rest;
      } else {
        assert e[1..] == rest;
        assert s[0] == '\\' && rest != [] ==> rest[0] == '\\' || rest[0] == s[1];
      }
    }
  }

  lemma {:induction false} EscapeSnoc(kind: Kind, s: Bytes, c: char)
    ensures Escape(kind, s + [c]) == Escape(kind, s) + EscapeByte(kind, c)
  {
    if s == [] {
      assert (s + [c])[1..] == [];
    } else {
      assert (s + [c])[1..] == s[1..] + [c];
      EscapeSnoc(kind, s[1..], c);
    }
  }

  // ---------- the left-to-right automaton ----------

  /** Reading s from the left, is the byte at k under the escape of the byte before it? */
  predicate Escaped(s: Bytes, k: nat)
    requires k <= |s|
  {
    k > 0 && s[k - 1] == '\\' && !Escaped(s, k - 1)
  }

  /** A member of `stops` outside an escape. */
  predicate BareAt(s: Bytes, k: nat, stops: set<char>)
    requires k < |s|
  {
    s[k] in stops && !Escaped(s, k)
  }

  /** s carries no member of `stops` outside an escape and leaves no escape open. */
  ghost predicate Sealed(s: Bytes, stops: set<char>) {
    !Escaped(s, |s|) && forall k :: 0 <= k < |s| ==> !BareAt(s, k, stops)
  }

  lemma {:induction false} EscapedPrefix(a: Bytes, b: Bytes, k: nat)
    requires k <= |a|
    ensures Escaped(a + b, k) == Escaped(a, k)
  {
    if k > 0 {
      EscapedPrefix(a, b, k - 1);
    }
  }

  lemma {:induction false} EscapedSuffix(a: Bytes, b: Bytes, k: nat)
    requires k <= |b| && !Escaped(a, |a|)
    ensures Escaped(a + b, |a| + k) == Escaped(b, k)
  {
    if k == 0 {
      EscapedPrefix(a, b, |a|);
    } else {
      EscapedSuffix(a, b, k - 1);
    }
  }

  /** After a prefix that leaves no escape open, each part can be read on its own. */
  lemma {:induction false} BareInConcat(a: Bytes, b: Bytes, k: nat, stops: set<char>)
    requires !Escaped(a, |a|) && k < |a + b|
    ensures BareAt(a + b, k, stops) <==>
            if k < |a| then BareAt(a, k, stops) else BareAt(b, k - |a|, stops)
  {
    if k < |a| {
      EscapedPrefix(a, b, k);
    } else {
      EscapedSuffix(a, b, k - |a|);
    }
  }

  lemma {:induction false} SealedConcat(a: Bytes, b: Bytes, stops: set<char>)
    requires Sealed(a, stops) && Sealed(b, stops)
    ensures Sealed(a + b, stops)
  {
    EscapedSuffix(a, b, |b|);
    forall k | 0 <= k < |a + b|
      ensures !BareAt(a + b, k, stops)
    {
      BareInConcat(a, b, k, stops);
    }
  }

  lemma {:induction false} PlainSealedText(s: Bytes, stops: set<char>)
    requires '\\' !in s && forall k :: 0 <= k < |s| ==> s[k] !in stops
    ensures Sealed(s, stops)
  {
  }

  /** What is left of a sealed string after one plain byte or one escape pair is sealed. */
  lemma {:induction false} SealedTail(s: Bytes, stops: set<char>)
    requires Sealed(s, stops) && s != []
    ensures s[0] == '\\' ==> |s| >= 2 && Sealed(s[2..], stops)
    ensures s[0] != '\\' ==> s[0] !in stops && Sealed(s[1..], stops)
  {
    assert !Escaped(s, 0) && !BareAt(s, 0, stops);
    if s[0] == '\\' {
      assert Escaped(s, 1);
    }
    var n := if s[0] == '\\' then 2 else 1;
    var a, b := s[..n], s[n..];
    assert s == a + b;
    EscapedPrefix(a, b, n);
    assert !Escaped(s, n);
    EscapedSuffix(a, b, |b|);
    forall k | 0 <= k < |b|
      ensures !BareAt(b, k, stops)
    {
      BareInConcat(a, b, n + k, stops);
    }
  }

  /** Text whose members of `stops` are under no escape, and which leaves none open. */
  predicate ShutAt(s: Bytes, i: nat, stops: set<char>)
    requires i < |s|
  {
    s[i] in stops ==> !Escaped(s, i)
  }

  predicate Shut(s: Bytes, stops: set<char>) {
    !Escaped(s, |s|) && forall i :: 0 <= i < |s| ==> ShutAt(s, i, stops)
  }

  lemma {:induction false} ShutSnoc(s: Bytes, c: char, stops: set<char>)
    ensures (forall i :: 0 <= i < |s + [c]| ==> ShutAt(s + [c], i, stops)) <==>
            (forall i :: 0 <= i < |s| ==> ShutAt(s, i, stops)) && (c in stops ==> !Escaped(s, |s|))
  {
    var t := s + [c];
    forall i | 0 <= i < |s|
      ensures ShutAt(t, i, stops) <==> ShutAt(s, i, stops)
    {
      EscapedPrefix(s, [c], i);
    }
    EscapedPrefix(s, [c], |s|);
    assert ShutAt(t, |s|, stops) <==> (c in stops ==> !Escaped(s, |s|));
  }

  /** Escaping leaves an escape open exactly where the text does. */
  lemma {:induction false} EscapedEnd(kind: Kind, s: Bytes)
    ensures Escaped(Escape(kind, s), |Escape(kind, s)|) <==> Escaped(s, |s|)
  {
    if s != [] {
      var t, c := s[..|s| - 1], s[|s| - 1];
      var e, b := Escape(kind, t), EscapeByte(kind, c);
      assert s == t + [c];
      EscapedEnd(kind, t);
      EscapeSnoc(kind, t, c);
      EscapedPrefix(t, [c], |t|);
      EscapedPrefix(e, b, |e|);
      assert (e + b)[|e + b| - 1] == c;
    }
  }

  ghost predicate NoneBare(s: Bytes, stops: set<char>) {
    forall k :: 0 <= k < |s| ==> !BareAt(s, k, stops)
  }

  lemma {:induction false} NoneBarePrefix(e: Bytes, n: nat, stops: set<char>)
    requires NoneBare(e, stops) && n <= |e|
    ensures NoneBare(e[..n], stops)
  {
    forall k | 0 <= k < n
      ensures !BareAt(e[..n], k, stops)
    {
      assert e == e[..n] + e[n..];
      EscapedPrefix(e[..n], e[n..], k);
      assert !BareAt(e, k, stops);
    }
  }

  lemma {:induction false} NoneBareAppend(e: Bytes, b: Bytes, stops: set<char>)
    requires |b| == 1 || (|b| == 2 && b[0] == '\\')
    requires '\\' !in stops
    ensures NoneBare(e + b, stops) <==>
            NoneBare(e, stops) && (b[|b| - 1] in stops ==> Escaped(e + b, |e + b| - 1))
  {
    forall k | 0 <= k < |e|
      ensures BareAt(e + b, k, stops) <==> BareAt(e, k, stops)
    {
      EscapedPrefix(e, b, k);
    }
    var last := |e + b| - 1;
    assert BareAt(e + b, last, stops) <==> b[|b| - 1] in stops && !Escaped(e + b, last);
    assert |b| == 2 ==> !BareAt(e + b, |e|, stops);
  }

  /** No bare byte after escaping means no byte under an escape before it. */
  lemma {:induction false} EscapeBare(kind: Kind, s: Bytes, stops: set<char>)
    requires stops <= Specials(kind)
    ensures NoneBare(Escape(kind, s), stops) <==> forall i :: 0 <= i < |s| ==> ShutAt(s, i, stops)
  {
    if s != [] {
      var t, c := s[..|s| - 1], s[|s| - 1];
      var e, b := Escape(kind, t), EscapeByte(kind, c);
      assert s == t + [c];
      assert '\\' !in Specials(kind);
      EscapeBare(kind, t, stops);
      EscapeSnoc(kind, t, c);
      ShutSnoc(t, c, stops);
      NoneBareAppend(e, b, stops);
      EscapedEnd(kind, t);
      EscapedPrefix(e, b, |e|);
    }
  }

  /** Escaped text is sealed exactly where the text is shut. */
  lemma {:induction false} EscapeSealed(kind: Kind, s: Bytes, stops: set<char>)
    requires stops <= Specials(kind)
    ensures Sealed(Escape(kind, s), stops) <==> Shut(s, stops)
  {
    EscapeBare(kind, s, stops);
    EscapedEnd(kind, s);
  }

  /** Escaping neither bares nor covers a byte that it does not escape itself. */
  lemma {:induction false} EscapeKeepsBare(kind: Kind, s: Bytes, stops: set<char>)
    requires stops !! Specials(kind) && '\\' !in stops
    ensures NoneBare(Escape(kind, s), stops) <==> NoneBare(s, stops)
  {
    if s != [] {
      var t, c := s[..|s| - 1], s[|s| - 1];
      assert s == t + [c];
      EscapeKeepsBare(kind, t, stops);
      EscapeSnoc(kind, t, c);
      EscapedEnd(kind, t);
      NoneBareAppend(t, [c], stops);
      NoneBareAppend(Escape(kind, t), EscapeByte(kind, c), stops);
      EscapedPrefix(t, [c], |t|);
      EscapedPrefix(Escape(kind, t), EscapeByte(kind, c), |Escape(kind, t)|);
    }
  }

  // ---------- indexUnescapedByte ----------

  /** The least position of `b` that the left-to-right automaton calls unescaped, or -1. */
  function IndexBare(s: Bytes, b: char): (r: int)
    ensures -1 <= r < |s| && (r >= 0 ==> s[r] == b)
  {
    IndexBareFrom(s, b, 0)
  }

  function IndexBareFrom(s: Bytes, b: char, from: nat): (r: int)
    requires from <= |s|
    ensures r == -1 || (from <= r < |s| && s[r] == b)
    decreases |s| - from
  {
    if from == |s| then -1
    else if BareAt(s, from, {b}) then from
    else IndexBareFrom(s, b, from + 1)
  }

  /** r is the least unescaped position of b in s, or -1 when there is none. */
  ghost predicate LeastBare(s: Bytes, b: char, r: int) {
    && -1 <= r < |s|
    && (r >= 0 ==> BareAt(s, r, {b}))
    && forall k :: 0 <= k < (if r == -1 then |s| else r) ==> !BareAt(s, k, {b})
  }

  lemma {:induction false} IndexBareFromLeast(s: Bytes, b: char, from: nat, r: int)
    requires from <= |s| && forall k :: 0 <= k < from ==> !BareAt(s, k, {b})
    ensures LeastBare(s, b, r) <==> r == IndexBareFrom(s, b, from)
    decreases |s| - from
  {
    if from < |s| && !BareAt(s, from, {b}) {
      IndexBareFromLeast(s, b, from + 1, r);
    }
  }

  lemma {:induction false} IndexBareLeast(s: Bytes, b: char, r: int)
    ensures LeastBare(s, b, r) <==> r == IndexBare(s, b)
  {
    IndexBareFromLeast(s, b, 0, r);
  }

  /** An odd number of backslashes before a byte puts it under an escape, an even number does not. */
  method CountBackslashes(s: Bytes, index: int) returns (count: nat)
    requires -1 <= index < |s|
    ensures count <= index + 1
    ensures forall k :: index - count < k <= index ==> s[k] == '\\'
    ensures index - count >= 0 ==> s[index - count] != '\\'
    ensures Escaped(s, index + 1) <==> count % 2 == 1
  {
    count := 0;
    var i := index;
    while i >= 0 && s[i] == '\\'
      invariant -1 <= i <= index && count == index - i
      invariant forall k :: i < k <= index ==> s[k] == '\\'
      invariant Escaped(s, index + 1) <==> (Escaped(s, i + 1) <==> count % 2 == 0)
    {
      count := count + 1;
      i := i - 1;
    }
  }

  /** indexUnescapedByte, for every buffer and every byte, the backslash included. */
  method IndexUnescapedByte(s: Bytes, b: char) returns (r: int)
    ensures r == IndexBare(s, b)
  {
    var keyi := 0;
    while true
      invariant 0 <= keyi <= |s|
      invariant keyi < |s| && s[keyi] == b ==> !Escaped(s, keyi)
      invariant forall k :: 0 <= k < keyi ==> !BareAt(s, k, {b})
      decreases |s| - keyi
    {
      var found := IndexByte(s, b, keyi);
      forall k | keyi <= k < found
        ensures !BareAt(s, k, {b})
      {
        IndexByteLeast(s, b, keyi, k);
      }
      if found == |s| {
        IndexBareLeast(s, b, -1);
        return -1;
      } else if found == keyi {
        IndexBareLeast(s, b, keyi);
        return keyi;
      }
      keyi := found;
      var slashes := CountBackslashes(s, keyi - 1);
      if slashes % 2 == 0 {
        IndexBareLeast(s, b, keyi);
        return keyi;
      }
      keyi := keyi + 1;
    }
  }

  /** A sealed prefix is invisible to the search. */
  lemma {:induction false} IndexBareSkips(a: Bytes, b: Bytes, c: char)
    requires Sealed(a, {c})
    ensures IndexBare(a + b, c) == if IndexBare(b, c) == -1 then -1 else |a| + IndexBare(b, c)
  {
    var i := IndexBare(b, c);
    var r := if i == -1 then -1 else |a| + i;
    IndexBareLeast(b, c, i);
    forall k | 0 <= k < if r == -1 then |a + b| else r
      ensures !BareAt(a + b, k, {c})
    {
      BareInConcat(a, b, k, {c});
    }
    if i >= 0 {
      BareInConcat(a, b, r, {c});
    }
    IndexBareLeast(a + b, c, r);
  }

  /** The search stops at the first byte after a sealed prefix. */
  lemma {:induction false} IndexBareAt(s: Bytes, a: Bytes, c: char, rest: Bytes)
    requires Sealed(a, {c}) && s == a + [c] + rest
    ensures IndexBare(s, c) == |a|
    ensures s[..|a|] == a && s[|a| + 1..] == rest
  {
    assert s == a + ([c] + rest);
    assert BareAt([c] + rest, 0, {c});
    IndexBareSkips(a, [c] + rest, c);
  }

  // ---------- the previous-byte rule ----------

  /** A member of `stops` with a byte before it that is not a backslash. */
  predicate StopAt(s: Bytes, k: nat, stops: set<char>)
    requires 1 <= k < |s|
  {
    s[k] in stops && s[k - 1] != '\\'
  }

  /** The least position from `from` on that holds a member of `stops` whose previous byte is
      not a backslash, or |s|: the one search that all three tag scanners perform. */
  function NextPlain(s: Bytes, from: nat, stops: set<char>): (k: nat)
    requires 1 <= from <= |s|
    ensures from <= k <= |s|
    ensures k < |s| ==> StopAt(s, k, stops)
    ensures forall j :: from <= j < k ==> !StopAt(s, j, stops)
    decreases |s| - from
  {
    if from == |s| || StopAt(s, from, stops) then from else NextPlain(s, from + 1, stops)
  }

  predicate PlainAt(s: Bytes, k: nat, stops: set<char>)
    requires k < |s|
  {
    s[k] in stops ==> k > 0 && s[k - 1] == '\\'
  }

  /** s carries a member of `stops` only right after a backslash, and does not end in one. */
  predicate PlainSealed(s: Bytes, stops: set<char>) {
    (s != [] ==> s[|s| - 1] != '\\') && forall k :: 0 <= k < |s| ==> PlainAt(s, k, stops)
  }

  /** Text that does not end in a backslash. */
  predicate Closed(s: Bytes) {
    s != [] ==> s[|s| - 1] != '\\'
  }

  /** In escaped text every special byte follows a backslash, whatever the text. */
  lemma {:induction false} EscapePlainAt(kind: Kind, s: Bytes, k: nat)
    requires k < |Escape(kind, s)|
    ensures PlainAt(Escape(kind, s), k, Specials(kind))
  {
    if s != [] {
      var head, rest := EscapeByte(kind, s[0]), Escape(kind, s[1..]);
      if k >= |head| {
        EscapePlainAt(kind, s[1..], k - |head|);
      }
    }
  }

  lemma {:induction false} EscapeLastByte(kind: Kind, s: Bytes)
    requires s != []
    ensures Escape(kind, s) != [] && Escape(kind, s)[|Escape(kind, s)| - 1] == s[|s| - 1]
  {
    assert s == s[..|s| - 1] + [s[|s| - 1]];
    EscapeSnoc(kind, s[..|s| - 1], s[|s| - 1]);
  }

  lemma {:induction false} EscapePlainSealed(kind: Kind, s: Bytes, stops: set<char>)
    requires Closed(s) && stops <= Specials(kind)
    ensures PlainSealed(Escape(kind, s), stops)
  {
    forall k | 0 <= k < |Escape(kind, s)|
      ensures PlainAt(Escape(kind, s), k, stops)
    {
      EscapePlainAt(kind, s, k);
    }
    if s != [] {
      EscapeLastByte(kind, s);
    }
  }

  /** On an escaped segment followed by a stop, the previous-byte search ends at that stop. */
  lemma {:induction false} NextPlainAt(s: Bytes, from: nat, seg: Bytes, stops: set<char>)
    requires At(s, from, seg) && seg != [] && from + |seg| < |s|
    requires PlainSealed(seg, stops) && s[from + |seg|] in stops
    ensures NextPlain(s, from + 1, stops) == from + |seg|
  {
    var last := from + |seg|;
    assert s[last - 1] == seg[|seg| - 1];
    assert StopAt(s, last, stops);
    forall k | from < k < last
      ensures !StopAt(s, k, stops)
    {
      assert PlainAt(seg, k - from, stops);
      assert s[k] == seg[k - from] && s[k - 1] == seg[k - from - 1];
    }
  }

  // ---------- where the rules agree ----------

  /** Text that the rules read alike once it is escaped. */
  predicate Clean(kind: Kind, s: Bytes) {
    Closed(s) && Shut(s, Specials(kind))
  }

  lemma {:induction false} ShutLess(s: Bytes, stops: set<char>, less: set<char>)
    requires Shut(s, stops) && less <= stops
    ensures Shut(s, less)
  {
    forall i | 0 <= i < |s|
      ensures ShutAt(s, i, less)
    {
      assert ShutAt(s, i, stops);
    }
  }

  /** Both rules call the special byte at k escaped if it belongs to the text, and unescaped if it is the
      delimiter behind it. The skips over two bytes are the parity rule read from the left. */
  ghost predicate Judged(text: Bytes, k: nat, length: nat)
    requires k < |text|
  {
    && (Escaped(text, k) <==> k < length)
    && (k > 0 && text[k - 1] == '\\' <==> k < length)
  }

  ghost predicate AllJudged(kind: Kind, s: Bytes, delimiter: char) {
    var text := Escape(kind, s) + [delimiter];
    forall k :: 0 <= k < |text| && text[k] in Specials(kind) ==> Judged(text, k, |Escape(kind, s)|)
  }

  /** For every text, kind and delimiter: the rules class all special bytes of the escaped text and the
      delimiter behind it as intended if and only if the text is clean. */
  lemma {:induction false} RulesAgree(kind: Kind, s: Bytes, delimiter: char)
    requires delimiter in Specials(kind)
    ensures AllJudged(kind, s, delimiter) <==> Clean(kind, s)
  {
    var e := Escape(kind, s);
    var text := e + [delimiter];
    EscapeSealed(kind, s, Specials(kind));
    EscapedPrefix(e, [delimiter], |e|);
    if s != [] {
      EscapeLastByte(kind, s);
    }
    assert text[|e|] == delimiter;
    forall k | 0 <= k < |e| && e[k] in Specials(kind)
      ensures Judged(text, k, |e|) <==> !BareAt(e, k, Specials(kind))
    {
      EscapePlainAt(kind, s, k);
      EscapedPrefix(e, [delimiter], k);
    }
    assert Judged(text, |e|, |e|) <==> Closed(s);
    if AllJudged(kind, s, delimiter) {
      forall k | 0 <= k < |e|
        ensures !BareAt(e, k, Specials(kind))
      {
        if e[k] in Specials(kind) {
          assert text[k] == e[k];
        }
      }
    } else {
      var k :| 0 <= k < |text| && text[k] in Specials(kind) && !Judged(text, k, |e|);
      if k < |e| {
        assert text[k] == e[k];
      }
    }
  }

  const UNDER: Bytes := ['a', '\\', ',', 'b']
  const OPEN: Bytes := ['a', '\\']
  const TWICE: Bytes := ['a', '\\', '\\', ',', 'b']

  /** A special byte behind one backslash, and a backslash at the end: texts on which the rules differ;
      and a special byte behind two, on which they do not. */
  lemma {:induction false} RulesDiffer(delimiter: char)
    requires delimiter in Specials(InKey)
    ensures !AllJudged(InKey, UNDER, delimiter) && !AllJudged(InKey, OPEN, delimiter)
    ensures AllJudged(InKey, TWICE, delimiter)
  {
    RulesAgree(InKey, UNDER, delimiter);
    RulesAgree(InKey, OPEN, delimiter);
    RulesAgree(InKey, TWICE, delimiter);
    assert Escaped(UNDER, 2) && !ShutAt(UNDER, 2, Specials(InKey));
    assert Escaped(TWICE, 2) && !Escaped(TWICE, 3) && !Escaped(TWICE, 4) && !Escaped(TWICE, 5);
  }

  lemma {:induction false} EscapeKeepsOut(kind: Kind, s: Bytes, c: char)
    requires c !in s && c != '\\'
    ensures c !in Escape(kind, s)
  {
    if s != [] {
      EscapeKeepsOut(kind, s[1..], c);
    }
  }
}
