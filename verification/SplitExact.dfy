/** Exactly when Split keeps the fields, for every size: no comma of the field block but those between the
    fields may be bare, whether it stands in a key or inside a string. */
module SplitExact {
  import opened ByteStrings
  import opened Escaping
  import opened Lines
  import opened Building
  import opened TagLookup
  import opened FieldLookup
  import opened Splitting
  import opened SplitLaws

  // ---------- the keys that Fields reports ----------

  /** No comma of k is under an escape. */
  predicate OpenCommas(k: Bytes) {
    forall i :: 0 <= i < |k| ==> ShutAt(k, i, {','})
  }

  /** Unescaping a text without a bare comma, byte by byte behind what has been read and written so far. */
  lemma {:induction false} UnescapeOpens(read: Bytes, written: Bytes, k: Bytes)
    requires Escaped(read, |read|) == Escaped(written, |written|)
    requires !Closed(read) && k != [] ==> k[0] !in Specials(InKey)
    requires forall j :: |read| <= j < |read + k| ==> !BareAt(read + k, j, {','})
    requires OpenCommas(written)
    ensures OpenCommas(written + Unescape(InKey, k))
    decreases |k|
  {
    if k == [] {
      assert written + [] == written;
    } else {
      var n := if |k| >= 2 && k[0] == '\\' && k[1] in Specials(InKey) then 2 else 1;
      UnescapeHead(k, n);
      OpensStep(read, written, k, n);
      hide Unescape, OpenCommas, Escaped, Closed, BareAt;
      UnescapeOpens(read + k[..n], written + [k[n - 1]], k[n..]);
      assert written + [k[n - 1]] + Unescape(InKey, k[n..]) == written + ([k[n - 1]] + Unescape(InKey, k[n..]));
    }
  }

  lemma {:induction false} UnescapeHead(k: Bytes, n: nat)
    requires k != [] && n == if |k| >= 2 && k[0] == '\\' && k[1] in Specials(InKey) then 2 else 1
    ensures Unescape(InKey, k) == [k[n - 1]] + Unescape(InKey, k[n..])
  {
  }

  lemma {:induction false} OpensStep(read: Bytes, written: Bytes, k: Bytes, n: nat)
    requires Escaped(read, |read|) == Escaped(written, |written|)
    requires !Closed(read) && k != [] ==> k[0] !in Specials(InKey)
    requires forall j :: |read| <= j < |read + k| ==> !BareAt(read + k, j, {','})
    requires OpenCommas(written)
    requires k != [] && n == if |k| >= 2 && k[0] == '\\' && k[1] in Specials(InKey) then 2 else 1
    ensures
      var r, w := read + k[..n], written + [k[n - 1]];
      && Escaped(r, |r|) == Escaped(w, |w|) && OpenCommas(w)
      && (!Closed(r) && k[n..] != [] ==> k[n..][0] !in Specials(InKey))
      && forall j :: |r| <= j < |r + k[n..]| ==> !BareAt(r + k[n..], j, {','})
  {
    hide Unescape;
    var c := k[n - 1];
    var r := read + k[..n];
    assert r + k[n..] == read + k;
    EscapedPrefix(read, k[..n], |read|);
    EscapedPrefix(read, k, |read|);
    EscapedPrefix(written, [c], |written|);
    assert !BareAt(read + k, |read| + n - 1, {','});
    assert n == 2 ==> r[|read|] == '\\' && r[|read| + 1] == c;
    ShutSnoc(written, c, {','});
  }

  lemma {:induction false} KeyOpens(k: Bytes)
    requires NoneBare(k, {','})
    ensures OpenCommas(Unescape(InKey, k))
  {
    assert [] + k == k && [] + Unescape(InKey, k) == Unescape(InKey, k);
    UnescapeOpens([], [], k);
  }

  // ---------- what Fields makes of the pieces of one field ----------

  predicate OpenKeys(m: FieldMap) {
    forall k :: k in m ==> OpenCommas(k)
  }

  predicate Fine(piece: Bytes, floatOk: FloatTest) {
    FieldsOf(piece, floatOk).Some? && OpenKeys(FieldsOf(piece, floatOk).value)
  }

  /** Fields indexes out of range on some piece of s. */
  ghost predicate Torn(s: Bytes, floatOk: FloatTest) {
    exists p :: p in Segments(s) && FieldsOf(p, floatOk).None?
  }

  ghost predicate AllFine(s: Bytes, floatOk: FloatTest) {
    forall p :: p in Segments(s) ==> Fine(p, floatOk)
  }

  /** A piece of a key: Fields finds no '=' in it. */
  lemma {:induction false} KeyPiece(k: Bytes, floatOk: FloatTest)
    requires NoneBare(k, {'='})
    ensures FieldsOf(k, floatOk) == Some(map[])
  {
    IndexBareLeast(k, '=', -1);
  }

  lemma {:induction false} OpenQuote(k: Bytes, e: Bytes, s: Bytes)
    requires Sealed(k, {'='}) && s == k + ['=', '"'] + e
    ensures IndexBare(s, '=') == |k| && |k| + 1 < |s| && s[|k| + 1] == '"'
    ensures s[..|k|] == k && s[|k| + 2..] == e
  {
    assert s == k + ['='] + (['"'] + e);
    IndexBareAt(s, k, '=', ['"'] + e);
  }

  /** A string that is cut before its closing quote cannot be read. */
  lemma {:induction false} TornString(k: Bytes, e: Bytes, floatOk: FloatTest)
    requires Sealed(k, {'='}) && NoneBare(e, {'"'})
    ensures FieldsOf(k + ['=', '"'] + e, floatOk) == None
  {
    hide Sealed;
    OpenQuote(k, e, k + ['=', '"'] + e);
    IndexBareLeast(e, '"', -1);
  }

  /** The text of a string field whose key is written as k and whose string as e. */
  function Quoted(k: Bytes, e: Bytes): Bytes {
    k + ['=', '"'] + e + ['"']
  }

  lemma {:induction false} WholeString(k: Bytes, e: Bytes, floatOk: FloatTest)
    requires Sealed(k, {'='}) && Sealed(e, {'"'})
    ensures FieldsOf(Quoted(k, e), floatOk) ==
            Some(map[Unescape(InKey, k) := Text(Unescape(InString, e))])
  {
    hide Sealed, IndexBare, Unescape;
    var s, after := Quoted(k, e), e + ['"'];
    assert s == k + ['=', '"'] + after;
    OpenQuote(k, after, s);
    assert after == e + ['"'] + [];
    IndexBareAt(after, e, '"', []);
    OneField(s, k, Text(Unescape(InString, e)), floatOk);
  }

  lemma {:induction false} OneField(s: Bytes, k: Bytes, v: Value, floatOk: FloatTest)
    requires s != [] && CutField(s, floatOk) == FieldAt(k, Got(v), [])
    ensures FieldsOf(s, floatOk) == Some(map[Unescape(InKey, k) := v])
  {
    hide CutField, Unescape;
    var next := FieldLookup.Enter(map[], k, Got(v));
    assert FieldsFrom([], next, floatOk) == Some(next);
  }

  /** The first bare comma of a text stays where it is when something is put behind the text. */
  lemma {:induction false} FirstComma(a: Bytes, b: Bytes)
    requires IndexBare(a, ',') != -1
    ensures IndexBare(a + b, ',') == IndexBare(a, ',')
  {
    var c := IndexBare(a, ',');
    IndexBareLeast(a, ',', c);
    forall i | 0 <= i <= c
      ensures BareAt(a + b, i, {','}) <==> BareAt(a, i, {','})
    {
      EscapedPrefix(a, b, i);
    }
    IndexBareLeast(a + b, ',', c);
  }

  lemma {:induction false} CutFirst(a: Bytes, b: Bytes)
    requires IndexBare(a, ',') != -1
    ensures
      var c := IndexBare(a, ',');
      Segments(a + b) == [a[..c]] + Segments(a[c + 1..] + b)
  {
    FirstComma(a, b);
    hide IndexBare;
    var c := IndexBare(a, ',');
    assert (a + b)[..c] == a[..c] && (a + b)[c + 1..] == a[c + 1..] + b;
  }

  /** What is left behind a bare comma. */
  lemma {:induction false} BehindComma(a: Bytes, c: nat, stops: set<char>)
    requires NoneBare(a, stops) && !Escaped(a, |a|) && c < |a| && BareAt(a, c, {','})
    ensures NoneBare(a[..c], stops) && NoneBare(a[c + 1..], stops) && !Escaped(a[c + 1..], |a| - c - 1)
  {
    var head, rest := a[..c + 1], a[c + 1..];
    assert a == head + rest;
    NoneBarePrefix(a, c, stops);
    EscapedPrefix(head, rest, c + 1);
    EscapedSuffix(head, rest, |rest|);
    forall i | 0 <= i < |rest|
      ensures !BareAt(rest, i, stops)
    {
      BareInConcat(head, rest, c + 1 + i, stops);
      assert !BareAt(a, c + 1 + i, stops);
    }
  }

  lemma {:induction false} TornAt(k: Bytes, e: Bytes, floatOk: FloatTest)
    requires Sealed(k, {'='}) && Sealed(k, {','}) && Sealed(e, {'"'}) && IndexBare(e, ',') != -1
    ensures Torn(Quoted(k, e), floatOk)
  {
    hide Sealed, FieldsOf;
    var c, head := IndexBare(e, ','), k + ['=', '"'];
    var s := head + (e + ['"']);
    PlainSealedText(['=', '"'], {','});
    SealedConcat(k, ['=', '"'], {','});
    FirstComma(e, ['"']);
    IndexBareSkips(head, e + ['"'], ',');
    assert s == Quoted(k, e);
    assert s[..|head| + c] == head + e[..c];
    SealedMeans(e);
    NoneBarePrefix(e, c, {'"'});
    TornString(k, e[..c], floatOk);
    assert Segments(s)[0] == head + e[..c];
  }

  lemma {:induction false} SealedMeans(e: Bytes)
    requires Sealed(e, {'"'})
    ensures NoneBare(e, {'"'}) && !Escaped(e, |e|)
  {
  }

  lemma {:induction false} QuotedTail(k: Bytes, e: Bytes)
    ensures Quoted(k, e) == k + (['=', '"'] + e + ['"'])
  {
  }

  lemma {:induction false} NotCut(k: Bytes, e: Bytes, floatOk: FloatTest)
    requires Sealed(k, {'='}) && Sealed(k, {','}) && Sealed(e, {'"'}) && Sealed(e, {','})
    ensures AllFine(Quoted(k, e), floatOk)
  {
    hide FieldsOf, IndexBare, Unescape;
    var s := Quoted(k, e);
    QuotedSealed(k, e);
    assert s == k + ['='] + (['"'] + e + ['"']);
    SegmentsHead(s, []);
    WholeString(k, e, floatOk);
    KeyOpens(k);
  }

  /** Whatever commas cut a written string field, either some piece cannot be read, or the string is whole
      and every key that is read has open commas. */
  lemma {:induction false} StringPieces(k: Bytes, e: Bytes, floatOk: FloatTest)
    requires NoneBare(k, {'='}) && !Escaped(k, |k|) && Sealed(e, {'"'})
    ensures Torn(Quoted(k, e), floatOk) || (NoneBare(e, {','}) && AllFine(Quoted(k, e), floatOk))
    decreases |k|
  {
    hide FieldsOf, Segments, Quoted;
    var c, d := IndexBare(k, ','), IndexBare(e, ',');
    IndexBareLeast(k, ',', c);
    IndexBareLeast(e, ',', d);
    if c != -1 {
      hide IndexBare;
      BehindComma(k, c, {'='});
      StringPieces(k[c + 1..], e, floatOk);
      CutFirst(k, ['=', '"'] + e + ['"']);
      QuotedTail(k, e);
      QuotedTail(k[c + 1..], e);
      KeyPiece(k[..c], floatOk);
    } else if d != -1 {
      TornAt(k, e, floatOk);
    } else {
      NotCut(k, e, floatOk);
    }
  }

  lemma {:induction false} FieldPieces(field: Field, floatOk: FloatTest)
    requires GoodField(field, floatOk)
    ensures
      var s := FieldText(field);
      || Torn(s, floatOk)
      || (AllFine(s, floatOk) && (field.1.Text? ==> NoneBare(field.1.s, {','})))
  {
    hide FieldsOf, Escape, Sealed, NoneBare, Torn;
    var (key, v) := field;
    var k := Escape(InKey, key);
    EscapeSealed(InKey, key, {'='});
    if v.Text? {
      var e := Escape(InString, v.s);
      EscapeSealed(InString, v.s, {'"'});
      EscapeKeepsBare(InString, v.s, {','});
      KeyParts(k);
      assert FieldText(field) == Quoted(k, e);
      StringPieces(k, e, floatOk);
    } else {
      FieldTextSealed(field, floatOk);
      SegmentsHead(FieldText(field), []);
      ScalarWhole(field, floatOk);
    }
  }

  lemma {:induction false} KeyParts(k: Bytes)
    requires Sealed(k, {'='})
    ensures NoneBare(k, {'='}) && !Escaped(k, |k|)
  {
  }

  lemma {:induction false} ScalarWhole(field: Field, floatOk: FloatTest)
    requires GoodField(field, floatOk) && !field.1.Text?
    ensures Fine(FieldText(field), floatOk)
  {
    hide FieldText, GoodValue;
    FieldsFromFieldBytes([field], map[], floatOk);
    assert FieldBytes([field]) == FieldText(field);
    assert StoredFields([field]) == [(field.0, Stored(field.1))];
  }

  // ---------- the pieces of a field block ----------

  lemma {:induction false} LastPiece(a: Bytes, more: Bytes)
    requires a != [] && !Escaped(a, |a|) && IndexBare(a, ',') == -1 && more != [] && more[0] == ','
    ensures Segments(a) == [a] && Segments(a + more) == [a] + Segments(more[1..])
  {
    IndexBareLeast(a, ',', -1);
    assert Sealed(a, {','});
    hide Segments, IndexBare, Sealed, BareAt, Escaped;
    assert a + more == a + [','] + more[1..];
    SegmentsHead(a, more[1..]);
  }

  lemma {:induction false} SegmentsAppend(a: Bytes, more: Bytes)
    requires a != [] && Ended(a) && !Escaped(a, |a|) && more != [] && more[0] == ','
    ensures Segments(a + more) == Segments(a) + Segments(more[1..])
    decreases |a|
  {
    hide IndexBare, Segments, Ended, BareAt, Escaped;
    var j := IndexBare(a, ',');
    if j == -1 {
      LastPiece(a, more);
    } else {
      var rest := a[j + 1..];
      BehindFirst(a);
      SegmentsAppend(rest, more);
      CutFirst(a, more);
      assert Segments(a + more) == [a[..j]] + (Segments(rest) + Segments(more[1..]));
    }
  }

  lemma {:induction false} BehindFirst(a: Bytes)
    requires Ended(a) && !Escaped(a, |a|) && IndexBare(a, ',') != -1
    ensures
      var c := IndexBare(a, ',');
      var rest := a[c + 1..];
      rest != [] && Ended(rest) && !Escaped(rest, |rest|) && Segments(a) == [a[..c]] + Segments(rest)
  {
    var c := IndexBare(a, ',');
    IndexBareLeast(a, ',', c);
    BehindComma(a, c, {});
    hide IndexBare;
    EndedTail(a, c);
  }

  lemma {:induction false} FieldTextEnds(field: Field, floatOk: FloatTest)
    requires GoodField(field, floatOk)
    ensures var s := FieldText(field); s != [] && Ended(s) && !Escaped(s, |s|)
  {
    hide Escape;
    if !field.1.Text? {
      ScalarText(field.1, floatOk);
      var t := ValueText(field.1);
      assert FieldText(field)[|FieldText(field)| - 1] == t[|t| - 1];
    }
  }

  lemma {:induction false} SegmentsOfFields(fields: seq<Field>, p: Bytes, floatOk: FloatTest)
    requires GoodFields(fields, floatOk)
    ensures p in Segments(FieldBytes(fields)) <==> exists i :: 0 <= i < |fields| && p in Segments(FieldText(fields[i]))
  {
    hide Segments, FieldText, GoodField;
    if fields == [] {
      NoSegments();
    } else {
      var first, rest := FieldText(fields[0]), FieldBytes(fields[1..]);
      assert GoodField(fields[0], floatOk);
      FieldTextEnds(fields[0], floatOk);
      SegmentsOfFields(fields[1..], p, floatOk);
      if |fields| == 1 {
        assert FieldBytes(fields) == first && fields[1..] == [];
        NoSegments();
      } else {
        SegmentsAppend(first, [','] + rest);
        assert FieldBytes(fields) == first + ([','] + rest) && ([','] + rest)[1..] == rest;
      }
      assert forall i :: 0 <= i < |fields[1..]| ==> fields[1..][i] == fields[i + 1];
      if i :| 0 <= i < |fields| && p in Segments(FieldText(fields[i])) {
        assert i > 0 ==> fields[1..][i - 1] == fields[i];
      }
    }
  }

  lemma {:induction false} NoSegments()
    ensures Segments(FieldBytes([])) == []
  {
  }

  /** With no room at all every segment becomes a part of its own. */
  lemma {:induction false} PackZero(segs: seq<Bytes>, cur: Bytes, constant: nat, p: Bytes)
    ensures p in Pack(segs, cur, constant, 0) <==> p != [] && (p == cur || p in segs)
  {
    if segs != [] {
      PackZero(segs[1..], segs[0], constant, p);
      assert p in segs <==> p == segs[0] || p in segs[1..];
    }
  }

  // ---------- the union over the parts ----------

  lemma {:induction false} UnionTorn(blocks: seq<Bytes>, p: Bytes, floatOk: FloatTest)
    requires p in blocks && FieldsOf(p, floatOk).None?
    ensures UnionOfFields(blocks, floatOk) == None
  {
    hide FieldsOf;
    if p != blocks[0] {
      UnionTorn(blocks[1..], p, floatOk);
    }
  }

  lemma {:induction false} UnionFine(blocks: seq<Bytes>, floatOk: FloatTest)
    requires forall p :: p in blocks ==> Fine(p, floatOk)
    ensures UnionOfFields(blocks, floatOk).Some? && OpenKeys(UnionOfFields(blocks, floatOk).value)
  {
    hide FieldsOf, OpenCommas;
    if blocks != [] {
      assert Fine(blocks[0], floatOk);
      UnionFine(blocks[1..], floatOk);
    }
  }

  lemma {:induction false} KeyInMap(fields: seq<Field>, acc: FieldMap, i: nat)
    requires i < |fields|
    ensures fields[i].0 in MapFrom(StoredFields(fields), acc)
  {
    var next := acc[fields[0].0 := Stored(fields[0].1)];
    assert StoredFields(fields)[1..] == StoredFields(fields[1..]);
    if i == 0 {
      KeyStays(StoredFields(fields[1..]), next, fields[0].0);
    } else {
      KeyInMap(fields[1..], next, i - 1);
    }
  }

  lemma {:induction false} KeyStays(fields: seq<Field>, acc: FieldMap, k: Bytes)
    requires k in acc
    ensures k in MapFrom(fields, acc)
  {
    if fields != [] {
      KeyStays(fields[1..], acc[fields[0].0 := fields[0].1], k);
    }
  }

  /** The blocks at size 0 are the non-empty pieces of the fields' texts. */
  lemma {:induction false} ZeroBlocks(m: Metric, fields: seq<Field>, p: Bytes, floatOk: FloatTest)
    requires m.fields == FieldBytes(fields) && GoodFields(fields, floatOk)
    ensures p in Blocks(SplitOf(m, 0)) <==>
            p != [] && exists i :: 0 <= i < |fields| && p in Segments(FieldText(fields[i]))
  {
    hide Segments, FieldText, FieldBytes;
    var blocks := Pack(Segments(m.fields), [], Constant(m), 0);
    assert Blocks(SplitOf(m, 0)) == blocks;
    PackZero(Segments(m.fields), [], Constant(m), p);
    SegmentsOfFields(fields, p, floatOk);
  }

  lemma {:induction false} NoneTorn(m: Metric, fields: seq<Field>, i: nat, floatOk: FloatTest)
    requires m.fields == FieldBytes(fields) && GoodFields(fields, floatOk) && i < |fields|
    requires UnionOfFields(Blocks(SplitOf(m, 0)), floatOk).Some?
    ensures !Torn(FieldText(fields[i]), floatOk)
  {
    hide Segments, FieldText, FieldBytes, SplitOf, UnionOfFields;
    if Torn(FieldText(fields[i]), floatOk) {
      var p :| p in Segments(FieldText(fields[i])) && FieldsOf(p, floatOk).None?;
      ZeroBlocks(m, fields, p, floatOk);
      UnionTorn(Blocks(SplitOf(m, 0)), p, floatOk);
    }
  }

  /** What is kept at size 0 was not cut. */
  lemma {:induction false} KeptIsUncut(m: Metric, fields: seq<Field>, floatOk: FloatTest)
    requires m.fields == FieldBytes(fields) && GoodFields(fields, floatOk)
    requires UnionOfFields(Blocks(SplitOf(m, 0)), floatOk) == FieldsOf(m.fields, floatOk)
    ensures forall i :: 0 <= i < |fields| ==> Uncut(fields[i])
  {
    hide Segments, FieldText, FieldBytes, SplitOf, UnionOfFields, FieldsFrom, MapFrom, Fine, Torn, NoneBare, GoodValue;
    FieldsFromFieldBytes(fields, map[], floatOk);
    var blocks := Blocks(SplitOf(m, 0));
    forall i | 0 <= i < |fields|
      ensures AllFine(FieldText(fields[i]), floatOk) && (fields[i].1.Text? ==> NoneBare(fields[i].1.s, {','}))
    {
      assert GoodField(fields[i], floatOk);
      NoneTorn(m, fields, i, floatOk);
      FieldPieces(fields[i], floatOk);
    }
    forall p | p in blocks
      ensures Fine(p, floatOk)
    {
      ZeroBlocks(m, fields, p, floatOk);
      var i :| 0 <= i < |fields| && p in Segments(FieldText(fields[i]));
      assert AllFine(FieldText(fields[i]), floatOk);
    }
    UnionFine(blocks, floatOk);
    forall i | 0 <= i < |fields|
      ensures Shut(fields[i].0, {','})
    {
      assert GoodField(fields[i], floatOk);
      KeyInMap(fields, map[], i);
    }
  }

  /** For every list of good fields: the parts' Fields make up the original Fields at every size if and only
      if no key has a comma under an escape and no string has one outside an escape. */
  lemma {:induction false} SplitExactly(m: Metric, fields: seq<Field>, floatOk: FloatTest)
    requires m.fields == FieldBytes(fields) && GoodFields(fields, floatOk)
    ensures (forall size: nat :: UnionOfFields(Blocks(SplitOf(m, size)), floatOk) == FieldsOf(m.fields, floatOk)) <==>
            forall i :: 0 <= i < |fields| ==> Uncut(fields[i])
  {
    hide SplitOf, UnionOfFields, FieldsOf, Uncut, FieldBytes, GoodFields;
    if forall i :: 0 <= i < |fields| ==> Uncut(fields[i]) {
      forall size: nat
        ensures UnionOfFields(Blocks(SplitOf(m, size)), floatOk) == FieldsOf(m.fields, floatOk)
      {
        SplitKeepsFields(m, fields, size, floatOk);
      }
    } else if UnionOfFields(Blocks(SplitOf(m, 0)), floatOk) == FieldsOf(m.fields, floatOk) {
      KeptIsUncut(m, fields, floatOk);
    }
  }

  /** One string field k="a,b" and no room: the parts hold k="a and b", and Fields fails on the first. */
  lemma {:induction false} QuotedComma(m: Metric, floatOk: FloatTest)
    requires m.fields == FieldBytes([("k", Text("a,b"))])
    ensures m.fields == "k=\"a,b\"" && FieldsOf(m.fields, floatOk) == Some(map["k" := Text("a,b")])
    ensures UnionOfFields(Blocks(SplitOf(m, 0)), floatOk) == None
  {
    var field: Field := ("k", Text("a,b"));
    QuotedCommaText();
    assert Sealed("k", {'='}) && Sealed("k", {','}) && Sealed("a,b", {'"'});
    hide Escape, FieldText, FieldBytes, SplitOf, UnionOfFields, FieldsOf, Sealed;
    WholeString("k", "a,b", floatOk);
    TornAt("k", "a,b", floatOk);
    assert GoodField(field, floatOk);
    if UnionOfFields(Blocks(SplitOf(m, 0)), floatOk).Some? {
      NoneTorn(m, [field], 0, floatOk);
    }
  }

  lemma {:induction false} QuotedCommaText()
    ensures FieldBytes([("k", Text("a,b"))]) == FieldText(("k", Text("a,b"))) == Quoted("k", "a,b") == "k=\"a,b\""
    ensures Unescape(InKey, "k") == "k" && Unescape(InString, "a,b") == "a,b" && IndexBare("a,b", ',') != -1
  {
    assert Escape(InKey, "k") == "k" && Escape(InString, "a,b") == "a,b";
    UnescapeEscape(InString, "a,b");
    assert "a,b" == "a" + [','] + "b";
    IndexBareAt("a,b", "a", ',', "b");
  }
}
