/** What Split keeps: the fields, in order, and the size bound. */
module SplitLaws {
  import opened ByteStrings
  import opened Escaping
  import opened Lines
  import opened Building
  import opened TagLookup
  import opened FieldLookup
  import opened Splitting

  /** s does not end in an unescaped comma. */
  predicate Ended(s: Bytes) {
    s != [] && s[|s| - 1] == ',' ==> Escaped(s, |s| - 1)
  }

  /** No empty piece between two unescaped commas, at the start, or at the end. */
  predicate Gapless(s: Bytes) {
    [] !in Segments(s) && Ended(s)
  }

  lemma {:induction false} JoinSegments(s: Bytes)
    requires Ended(s)
    ensures Join(Segments(s)) == s
    decreases |s|
  {
    var j := IndexBare(s, ',');
    if s != [] && j != -1 {
      EndedTail(s, j);
      JoinSegments(s[j + 1..]);
      JoinCons(s[..j], Segments(s[j + 1..]));
    }
  }

  lemma {:induction false} JoinCons(seg: Bytes, more: seq<Bytes>)
    requires more != []
    ensures Join([seg] + more) == seg + [','] + Join(more)
  {
    assert ([seg] + more)[1..] == more;
  }

  lemma {:induction false} EndedTail(s: Bytes, j: nat)
    requires j < |s| && IndexBare(s, ',') == j && Ended(s)
    ensures s[j + 1..] != [] && Ended(s[j + 1..]) && s == s[..j] + [','] + s[j + 1..]
  {
    var head, rest := s[..j + 1], s[j + 1..];
    assert s == head + rest;
    IndexBareLeast(s, ',', j);
    EscapedPrefix(head, rest, j + 1);
    assert rest != [];
    EscapedSuffix(head, rest, |rest| - 1);
  }

  lemma {:induction false} PackSizes(segs: seq<Bytes>, cur: Bytes, constant: nat, maxSize: nat, p: Bytes)
    requires p in Pack(segs, cur, constant, maxSize)
    ensures p != [] && (|p| + constant <= maxSize || p in segs || p == cur)
  {
    if segs != [] {
      var seg := segs[0];
      if Overfull(cur, seg, constant, maxSize) {
        if p !in One(cur) {
          PackSizes(segs[1..], seg, constant, maxSize, p);
        }
      } else {
        PackSizes(segs[1..], With(cur, seg), constant, maxSize, p);
      }
    }
  }

  lemma {:induction false} JoinTogether(cur: Bytes, seg: Bytes, rest: seq<Bytes>)
    requires seg != []
    ensures Join(One(With(cur, seg)) + rest) == Join(One(cur) + [seg] + rest)
  {
    assert ([With(cur, seg)] + rest)[1..] == rest && ([seg] + rest)[1..] == rest;
    if cur == [] {
      assert One(cur) + [seg] + rest == [seg] + rest;
    } else {
      JoinCons(cur, [seg] + rest);
      assert One(cur) + [seg] + rest == [cur] + ([seg] + rest);
      if rest != [] {
        JoinCons(seg, rest);
        JoinCons(With(cur, seg), rest);
      }
    }
  }

  lemma {:induction false} WithNotEmpty(cur: Bytes, seg: Bytes)
    requires seg != []
    ensures With(cur, seg) != []
  {
  }

  /** Packing only closes parts; joined with commas the segments come back in order. */
  lemma {:induction false} JoinPack(segs: seq<Bytes>, cur: Bytes, constant: nat, maxSize: nat)
    requires [] !in segs
    ensures Join(Pack(segs, cur, constant, maxSize)) == Join(One(cur) + segs)
    ensures segs != [] ==> Pack(segs, cur, constant, maxSize) != []
  {
    hide Join, Overfull, With;
    if segs == [] {
      assert One(cur) + segs == One(cur);
    } else {
      var seg, rest := segs[0], segs[1..];
      assert segs == [seg] + rest;
      if Overfull(cur, seg, constant, maxSize) {
        var more := Pack(rest, seg, constant, maxSize);
        JoinPack(rest, seg, constant, maxSize);
        assert rest == [] ==> more == One(seg);
        assert One(seg) + rest == segs;
        if cur == [] {
          assert One(cur) + more == more && One(cur) + segs == segs;
        } else {
          JoinCons(cur, more);
          JoinCons(cur, segs);
        }
      } else {
        assert With(cur, seg) != [] by { WithNotEmpty(cur, seg); }
        JoinPack(rest, With(cur, seg), constant, maxSize);
        JoinTogether(cur, seg, rest);
        assert One(cur) + [seg] + rest == One(cur) + segs;
        assert rest == [] ==> Pack(rest, With(cur, seg), constant, maxSize) == [With(cur, seg)];
      }
    }
  }

  function Blocks(parts: seq<Metric>): seq<Bytes> {
    seq(|parts|, i requires 0 <= i < |parts| => parts[i].fields)
  }

  /** Split loses nothing and invents nothing: the parts differ from m in their fields only, joined
      with commas those are m's fields, and a part that is longer than maxSize is one segment. */
  lemma {:induction false} SplitConserves(m: Metric, maxSize: nat)
    requires m.fields != [] && Gapless(m.fields)
    ensures
      var parts := SplitOf(m, maxSize);
      && parts != [] && Join(Blocks(parts)) == m.fields
      && forall i :: 0 <= i < |parts| ==>
           && parts[i] == m.(fields := parts[i].fields) && parts[i].fields != []
           && (Len(parts[i]) <= maxSize || parts[i].fields in Segments(m.fields))
  {
    var parts := SplitOf(m, maxSize);
    if Len(m) <= maxSize {
      assert Blocks(parts) == [m.fields];
    } else {
      var segs := Segments(m.fields);
      var blocks := Pack(segs, [], Constant(m), maxSize);
      JoinSegments(m.fields);
      JoinPack(segs, [], Constant(m), maxSize);
      assert One([]) + segs == segs;
      assert Blocks(parts) == blocks;
      forall i | 0 <= i < |parts|
        ensures parts[i].fields != [] && (Len(parts[i]) <= maxSize || parts[i].fields in segs)
      {
        assert blocks[i] in blocks;
        PackSizes(segs, [], Constant(m), maxSize, blocks[i]);
      }
    }
  }

  // ---------- Split and Fields ----------

  /** A field that Split does not cut: no comma of the key is under an escape, since New's own escape would
      bare it, and each comma of a string is, since New does not escape it and Split does not look for quotes. */
  ghost predicate Uncut(field: Field) {
    Shut(field.0, {','}) && (field.1.Text? ==> NoneBare(field.1.s, {','}))
  }

  function FieldTexts(fields: seq<Field>): (texts: seq<Bytes>)
    ensures |texts| == |fields|
  {
    seq(|fields|, i requires 0 <= i < |fields| => FieldText(fields[i]))
  }

  lemma {:induction false} EscapedTextSealed(text: Bytes)
    requires Shut(text, {'"'})
    ensures Sealed(Escape(InString, text), {','}) <==> NoneBare(text, {','})
  {
    EscapedEnd(InString, text);
    EscapeKeepsBare(InString, text, {','});
  }

  lemma {:induction false} QuotedSealed(k: Bytes, e: Bytes)
    requires Sealed(k, {','}) && Sealed(e, {','})
    ensures Sealed(k + ['='] + (['"'] + e + ['"']), {','})
  {
    PlainSealedText(['=', '"'], {','});
    PlainSealedText(['"'], {','});
    hide Sealed;
    SealedConcat(k, ['=', '"'], {','});
    SealedConcat(k + ['=', '"'], e, {','});
    SealedConcat(k + ['=', '"'] + e, ['"'], {','});
    assert k + ['='] + (['"'] + e + ['"']) == k + ['=', '"'] + e + ['"'];
  }

  lemma {:induction false} ScalarSealed(k: Bytes, t: Bytes)
    requires Sealed(k, {','}) && '\\' !in t && ',' !in t
    ensures Sealed(k + ['='] + t, {','})
  {
    PlainSealedText(['='] + t, {','});
    hide Sealed;
    SealedConcat(k, ['='] + t, {','});
    assert k + ['='] + t == k + (['='] + t);
  }

  lemma {:induction false} FieldTextSealed(field: Field, floatOk: FloatTest)
    requires GoodValue(field.1, floatOk) && Uncut(field)
    ensures Sealed(FieldText(field), {','})
  {
    hide Escape, Shut, Sealed;
    var (key, v) := field;
    EscapeSealed(InKey, key, {','});
    if v.Text? {
      EscapedTextSealed(v.s);
      QuotedSealed(Escape(InKey, key), Escape(InString, v.s));
    } else {
      ScalarText(v, floatOk);
      ScalarSealed(Escape(InKey, key), ValueText(v));
    }
  }

  lemma {:induction false} FieldBytesIsJoin(fields: seq<Field>)
    ensures FieldBytes(fields) == Join(FieldTexts(fields))
  {
    if fields != [] {
      FieldBytesIsJoin(fields[1..]);
      assert FieldTexts(fields)[1..] == FieldTexts(fields[1..]);
    }
  }

  lemma {:induction false} SegmentsOfJoin(texts: seq<Bytes>)
    requires forall i :: 0 <= i < |texts| ==> texts[i] != [] && Sealed(texts[i], {','})
    ensures Segments(Join(texts)) == texts
  {
    if texts != [] {
      SegmentsOfJoin(texts[1..]);
      SegmentsHead(texts[0], Join(texts[1..]));
    }
  }

  lemma {:induction false} SegmentsHead(text: Bytes, rest: Bytes)
    requires text != [] && Sealed(text, {','})
    ensures Segments(text) == [text] && Segments(text + [','] + rest) == [text] + Segments(rest)
  {
    IndexBareSkips(text, [], ',');
    assert text + [] == text;
    IndexBareAt(text + [','] + rest, text, ',', rest);
  }

  ghost function Flatten<T>(runs: seq<seq<T>>): seq<T> {
    if runs == [] then [] else runs[0] + Flatten(runs[1..])
  }

  function Run<T>(cur: seq<T>): seq<seq<T>> {
    if cur == [] then [] else [cur]
  }

  function Joins(runs: seq<seq<Bytes>>): (blocks: seq<Bytes>)
    ensures |blocks| == |runs|
  {
    seq(|runs|, i requires 0 <= i < |runs| => Join(runs[i]))
  }

  lemma {:induction false} JoinSnoc(cur: seq<Bytes>, text: Bytes)
    requires [] !in cur && text != []
    ensures Join(cur + [text]) == With(Join(cur), text) && (cur != [] ==> Join(cur) != [])
  {
    if |cur| == 0 {
      assert cur + [text] == [text];
    } else {
      assert (cur + [text])[1..] == cur[1..] + [text];
      JoinSnoc(cur[1..], text);
    }
  }

  lemma {:induction false} RunsAppend(cur: seq<Bytes>, more: seq<seq<Bytes>>)
    requires cur != [] ==> Join(cur) != []
    ensures Joins(Run(cur) + more) == One(Join(cur)) + Joins(more)
    ensures Flatten(Run(cur) + more) == cur + Flatten(more)
  {
    if cur == [] {
      assert Run(cur) + more == more;
    } else {
      assert (Run(cur) + more)[1..] == more;
    }
  }

  /** Packing joins consecutive runs of the segments. */
  lemma {:induction false} PackRuns(texts: seq<Bytes>, cur: seq<Bytes>, constant: nat, maxSize: nat)
    returns (runs: seq<seq<Bytes>>)
    requires [] !in texts && [] !in cur
    ensures Pack(texts, Join(cur), constant, maxSize) == Joins(runs)
    ensures Flatten(runs) == cur + texts
    decreases |texts|
  {
    JoinSnoc(cur, if texts == [] then [' '] else texts[0]);
    if texts == [] {
      runs := Run(cur) + [];
      RunsAppend(cur, []);
      assert cur + texts == cur + [];
    } else {
      var text, rest := texts[0], texts[1..];
      assert texts == [text] + rest;
      if Overfull(Join(cur), text, constant, maxSize) {
        assert Join([text]) == text;
        var more := PackRuns(rest, [text], constant, maxSize);
        runs := Run(cur) + more;
        RunsAppend(cur, more);
      } else {
        runs := PackRuns(rest, cur + [text], constant, maxSize);
        assert cur + [text] + rest == cur + texts;
      }
    }
  }

  lemma {:induction false} MapFromAppend<T>(a: seq<(Bytes, T)>, b: seq<(Bytes, T)>, acc: map<Bytes, T>)
    ensures MapFrom(a + b, acc) == MapFrom(a, acc) + MapFrom(b, map[])
  {
    if a == [] {
      assert a + b == b;
      MapFromOver(b, acc, map[]);
      assert acc + map[] == acc;
    } else {
      assert (a + b)[1..] == a[1..] + b;
      MapFromAppend(a[1..], b, acc[a[0].0 := a[0].1]);
    }
  }

  lemma {:induction false} MapFromOver<T>(b: seq<(Bytes, T)>, under: map<Bytes, T>, acc: map<Bytes, T>)
    ensures MapFrom(b, under + acc) == under + MapFrom(b, acc)
  {
    if b != [] {
      assert (under + acc)[b[0].0 := b[0].1] == under + acc[b[0].0 := b[0].1];
      MapFromOver(b[1..], under, acc[b[0].0 := b[0].1]);
    }
  }

  /** The union of what Fields reports for the parts; a later part would win over an earlier one. */
  function UnionOfFields(blocks: seq<Bytes>, floatOk: FloatTest): Option<FieldMap> {
    if blocks == [] then Some(map[])
    else match (FieldsOf(blocks[0], floatOk), UnionOfFields(blocks[1..], floatOk))
      case (Some(a), Some(b)) => Some(a + b)
      case _ => None
  }

  lemma {:induction false} FieldTextsSplit(fields: seq<Field>, x: seq<Bytes>, y: seq<Bytes>)
    requires FieldTexts(fields) == x + y
    ensures |x| <= |fields| && FieldTexts(fields[..|x|]) == x && FieldTexts(fields[|x|..]) == y
  {
    assert |FieldTexts(fields)| == |x| + |y|;
    assert forall i :: 0 <= i < |x| ==> x[i] == FieldTexts(fields)[i];
    assert forall i :: 0 <= i < |y| ==> y[i] == FieldTexts(fields)[|x| + i];
  }

  lemma {:induction false} RunIsFields(run: seq<Bytes>, fields: seq<Field>, floatOk: FloatTest)
    requires GoodFields(fields, floatOk) && FieldTexts(fields) == run
    ensures FieldsOf(Join(run), floatOk) == Some(MapFrom(StoredFields(fields), map[]))
  {
    hide FieldText, Join, MapFrom, GoodFields, FieldBytes, FieldsFrom, StoredFields;
    FieldBytesIsJoin(fields);
    FieldsFromFieldBytes(fields, map[], floatOk);
  }

  lemma {:induction false} JoinsCons(runs: seq<seq<Bytes>>)
    requires runs != []
    ensures Joins(runs) == [Join(runs[0])] + Joins(runs[1..])
  {
    hide Join;
  }

  lemma {:induction false} NoRuns(floatOk: FloatTest)
    ensures UnionOfFields(Joins([]), floatOk) == Some(MapFrom(StoredFields([]), map[]))
  {
    assert Joins([]) == [] && StoredFields([]) == [];
  }

  /** Blocks that are the joins of consecutive runs of a field list's texts give, in union, the fields. */
  lemma {:induction false} UnionOfRuns(runs: seq<seq<Bytes>>, fields: seq<Field>, floatOk: FloatTest)
    requires GoodFields(fields, floatOk) && Flatten(runs) == FieldTexts(fields)
    ensures UnionOfFields(Joins(runs), floatOk) == Some(MapFrom(StoredFields(fields), map[]))
  {
    hide FieldText, Join, Joins, MapFrom, GoodFields, FieldsOf, StoredFields, UnionOfFields;
    if runs == [] {
      assert |FieldTexts(fields)| == 0;
      assert fields == [];
      NoRuns(floatOk);
    } else {
      var n := |runs[0]|;
      FieldTextsSplit(fields, runs[0], Flatten(runs[1..]));
      GoodSplit(fields, n, floatOk);
      RunIsFields(runs[0], fields[..n], floatOk);
      UnionOfRuns(runs[1..], fields[n..], floatOk);
      JoinsCons(runs);
      UnionCons(Join(runs[0]), Joins(runs[1..]), floatOk);
      StoredMapSplit(fields, n);
    }
  }

  lemma {:induction false} GoodSplit(fields: seq<Field>, n: nat, floatOk: FloatTest)
    requires GoodFields(fields, floatOk) && n <= |fields|
    ensures GoodFields(fields[..n], floatOk) && GoodFields(fields[n..], floatOk)
  {
  }

  lemma {:induction false} UnionCons(block: Bytes, rest: seq<Bytes>, floatOk: FloatTest)
    requires FieldsOf(block, floatOk).Some? && UnionOfFields(rest, floatOk).Some?
    ensures UnionOfFields([block] + rest, floatOk) ==
            Some(FieldsOf(block, floatOk).value + UnionOfFields(rest, floatOk).value)
  {
    assert ([block] + rest)[1..] == rest;
  }

  lemma {:induction false} StoredMapSplit(fields: seq<Field>, n: nat)
    requires n <= |fields|
    ensures MapFrom(StoredFields(fields), map[]) ==
            MapFrom(StoredFields(fields[..n]), map[]) + MapFrom(StoredFields(fields[n..]), map[])
  {
    assert StoredFields(fields) == StoredFields(fields[..n]) + StoredFields(fields[n..]);
    MapFromAppend(StoredFields(fields[..n]), StoredFields(fields[n..]), map[]);
  }

  lemma {:induction false} UnionOfOne(block: Bytes, floatOk: FloatTest)
    requires FieldsOf(block, floatOk).Some?
    ensures UnionOfFields([block], floatOk) == FieldsOf(block, floatOk)
  {
    var all := FieldsOf(block, floatOk).value;
    assert [block][1..] == [];
    assert all + map[] == all;
  }

  /** Splitting does not change what Fields reports: the union over the parts is the original. */
  lemma {:induction false} SplitKeepsFields(m: Metric, fields: seq<Field>, maxSize: nat, floatOk: FloatTest)
    requires m.fields == FieldBytes(fields) && GoodFields(fields, floatOk)
    requires forall i :: 0 <= i < |fields| ==> Uncut(fields[i])
    ensures UnionOfFields(Blocks(SplitOf(m, maxSize)), floatOk) == FieldsOf(m.fields, floatOk)
    ensures FieldsOf(m.fields, floatOk) == Some(MapFrom(StoredFields(fields), map[]))
  {
    FieldsFromFieldBytes(fields, map[], floatOk);
    if Len(m) <= maxSize {
      UnionOfOne(m.fields, floatOk);
      assert Blocks(SplitOf(m, maxSize)) == [m.fields];
    } else {
      var texts := FieldTexts(fields);
      forall i | 0 <= i < |fields|
        ensures texts[i] != [] && Sealed(texts[i], {','})
      {
        FieldTextSealed(fields[i], floatOk);
      }
      FieldBytesIsJoin(fields);
      SegmentsOfJoin(texts);
      var runs := PackRuns(texts, [], Constant(m), maxSize);
      assert [] + texts == texts;
      UnionOfRuns(runs, fields, floatOk);
      assert Blocks(SplitOf(m, maxSize)) == Joins(runs);
    }
  }
}
