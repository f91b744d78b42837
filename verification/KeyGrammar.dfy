/** Exactly which key blocks, name and tags, the scanners of report/metric/parse.go accept. */
module KeyGrammar {
  import opened ByteStrings
  import opened Escaping
  import opened LineGrammar

  // ---------- pieces ----------

  /** Not empty, no byte of `first` at the start, no stop behind a byte that is not a backslash, and no backslash
      at the end, where it would hide the delimiter. */
  ghost predicate Piece(s: Bytes, first: set<char>, stops: set<char>) {
    && s != [] && s[0] !in first && s[|s| - 1] != '\\'
    && forall k :: 1 <= k < |s| ==> !StopAt(s, k, stops)
  }

  /** The search for the next delimiter finds the one end that makes a piece. */
  lemma {:induction false} PieceEnds(buf: Bytes, i: nat, stops: set<char>)
    requires i < |buf| && NextPlain(buf, i + 1, stops) < |buf|
    ensures Piece(buf[i..NextPlain(buf, i + 1, stops)], {}, stops)
  {
    var k := NextPlain(buf, i + 1, stops);
    var s := buf[i..k];
    forall j | 1 <= j < |s|
      ensures !StopAt(s, j, stops)
    {
      assert !StopAt(buf, i + j, stops);
    }
  }

  lemma {:induction false} PieceRead(buf: Bytes, i: nat, s: Bytes, d: char, stops: set<char>)
    requires Piece(s, {}, stops) && d in stops && At(buf, i, s + [d])
    ensures i + |s| < |buf| && buf[i] == s[0] && buf[i + |s|] == d
    ensures NextPlain(buf, i + 1, stops) == i + |s|
  {
    AtSnoc(buf, i, s, d);
    var e := i + |s|;
    assert s[|s| - 1] == buf[e - 1];
    assert StopAt(buf, e, stops);
    forall k | i < k < e
      ensures !StopAt(buf, k, stops)
    {
      assert !StopAt(s, k - i, stops);
      assert s[k - i] == buf[k] && s[k - i - 1] == buf[k - 1];
    }
  }

  lemma {:induction false} PieceFirst(s: Bytes, first: set<char>, stops: set<char>)
    ensures Piece(s, first, stops) <==> Piece(s, {}, stops) && s[0] !in first
  {
  }

  // ---------- tags ----------

  /** A key and a value as they stand in the buffer. A value may start with '=', a key may not. */
  ghost predicate RawTag(tag: (Bytes, Bytes)) {
    Piece(tag.0, TAG_STOPS, TAG_STOPS) && Piece(tag.1, NAME_STOPS, TAG_STOPS)
  }

  function TagOf(tag: (Bytes, Bytes)): Bytes {
    [','] + tag.0 + ['='] + tag.1
  }

  function TagsOf(tags: seq<(Bytes, Bytes)>): Bytes {
    if tags == [] then [] else TagOf(tags[0]) + TagsOf(tags[1..])
  }

  ghost predicate RawTags(tags: seq<(Bytes, Bytes)>) {
    forall j :: 0 <= j < |tags| ==> RawTag(tags[j])
  }

  lemma {:induction false} TagsCons(tag: (Bytes, Bytes), more: seq<(Bytes, Bytes)>)
    ensures TagsOf([tag] + more) == TagOf(tag) + TagsOf(more)
    ensures RawTag(tag) && RawTags(more) ==> RawTags([tag] + more)
  {
    assert ([tag] + more)[1..] == more;
  }

  lemma {:induction false} KeySpan(buf: Bytes, i: nat)
    requires i <= |buf| && TagKeyEnd(buf, i).Ok?
    ensures
      var v := TagKeyEnd(buf, i).value;
      i < v - 1 < |buf| && buf[v - 1] == '=' && Piece(buf[i..v - 1], TAG_STOPS, TAG_STOPS)
  {
    PieceEnds(buf, i, TAG_STOPS);
    PieceFirst(buf[i..NextPlain(buf, i + 1, TAG_STOPS)], TAG_STOPS, TAG_STOPS);
    hide Piece;
  }

  lemma {:induction false} ValueSpan(buf: Bytes, v: nat)
    requires v <= |buf| && TagValueEnd(buf, v).Ok?
    ensures
      var (more, k) := TagValueEnd(buf, v).value;
      var e := if more then k - 1 else k;
      v < e < |buf| && buf[e] == (if more then ',' else ' ') && Piece(buf[v..e], NAME_STOPS, TAG_STOPS)
  {
    PieceEnds(buf, v, TAG_STOPS);
    PieceFirst(buf[v..NextPlain(buf, v + 1, TAG_STOPS)], NAME_STOPS, TAG_STOPS);
    hide Piece;
  }

  lemma {:induction false} TagText(buf: Bytes, i: nat, v: nat, e: nat)
    requires i < v <= e <= |buf| && buf[v - 1] == '='
    ensures TagOf((buf[i..v - 1], buf[v..e])) == [','] + buf[i..e]
  {
    assert buf[i..e] == buf[i..v - 1] + ['='] + buf[v..e];
  }

  /** Where one tag lies when its key and its value have been scanned. */
  lemma {:induction false} TagSpan(buf: Bytes, i: nat)
    requires i <= |buf| && TagKeyEnd(buf, i).Ok? && TagValueEnd(buf, TagKeyEnd(buf, i).value).Ok?
    ensures
      var v := TagKeyEnd(buf, i).value;
      var (more, k) := TagValueEnd(buf, v).value;
      var e := if more then k - 1 else k;
      && i < v - 1 && v < e < |buf| && buf[e] == (if more then ',' else ' ')
      && RawTag((buf[i..v - 1], buf[v..e])) && TagOf((buf[i..v - 1], buf[v..e])) == [','] + buf[i..e]
  {
    hide Piece, TagKeyEnd, TagValueEnd, TagOf;
    var v := TagKeyEnd(buf, i).value;
    KeySpan(buf, i);
    ValueSpan(buf, v);
    var (more, k) := TagValueEnd(buf, v).value;
    TagText(buf, i, v, if more then k - 1 else k);
  }

  lemma {:induction false} TagsSpan(buf: Bytes, i: nat) returns (tags: seq<(Bytes, Bytes)>)
    requires i <= |buf| && TagsEnd(buf, i).Ok?
    ensures tags != [] && RawTags(tags) && TagsOf(tags) == [','] + buf[i..TagsEnd(buf, i).value]
    decreases |buf| - i
  {
    hide TagKeyEnd, TagValueEnd, RawTag, TagOf;
    TagSpan(buf, i);
    var v := TagKeyEnd(buf, i).value;
    var (more, k) := TagValueEnd(buf, v).value;
    var e := if more then k - 1 else k;
    var tag := (buf[i..v - 1], buf[v..e]);
    var rest := [];
    if more {
      rest := TagsSpan(buf, k);
      assert buf[i..TagsEnd(buf, k).value] == buf[i..e] + ([','] + buf[k..TagsEnd(buf, k).value]);
      assert [','] + buf[i..TagsEnd(buf, k).value] == [','] + buf[i..e] + ([','] + buf[k..TagsEnd(buf, k).value]);
    }
    tags := [tag] + rest;
    TagsCons(tag, rest);
  }

  lemma {:induction false} TagLayout(buf: Bytes, p: nat, k: Bytes, v: Bytes, d: char)
    requires At(buf, p, TagOf((k, v)) + [d])
    ensures At(buf, p + 1, k + ['=']) && At(buf, p + 2 + |k|, v + [d])
  {
    assert TagOf((k, v)) + [d] == [','] + ((k + ['=']) + (v + [d]));
    AtConcat(buf, p, [','], (k + ['=']) + (v + [d]));
    AtConcat(buf, p + 1, k + ['='], v + [d]);
  }

  lemma {:induction false} KeyRead(buf: Bytes, i: nat, k: Bytes)
    requires Piece(k, TAG_STOPS, TAG_STOPS) && At(buf, i, k + ['='])
    ensures i + |k| < |buf| && TagKeyEnd(buf, i) == Ok(i + |k| + 1)
  {
    PieceFirst(k, TAG_STOPS, TAG_STOPS);
    hide Piece, At;
    PieceRead(buf, i, k, '=', TAG_STOPS);
    PieceSome(k, TAG_STOPS);
  }

  lemma {:induction false} ValueRead(buf: Bytes, i: nat, v: Bytes, d: char)
    requires Piece(v, NAME_STOPS, TAG_STOPS) && d in NAME_STOPS && At(buf, i, v + [d])
    ensures i < i + |v| < |buf|
    ensures TagValueEnd(buf, i) == Ok(if d == ',' then (true, i + |v| + 1) else (false, i + |v|))
  {
    PieceFirst(v, NAME_STOPS, TAG_STOPS);
    hide Piece, At;
    PieceRead(buf, i, v, d, TAG_STOPS);
    PieceSome(v, TAG_STOPS);
  }

  /** One tag with a delimiter behind it is scanned as one tag. */
  lemma {:induction false} TagRead(buf: Bytes, p: nat, tag: (Bytes, Bytes), d: char)
    requires RawTag(tag) && d in NAME_STOPS && At(buf, p, TagOf(tag) + [d])
    ensures
      var e := p + |TagOf(tag)|;
      p < e < |buf| && TagsEnd(buf, p + 1) == if d == ',' then TagsEnd(buf, e + 1) else Ok(e)
  {
    hide Piece, At, TagKeyEnd, TagValueEnd;
    TagLayout(buf, p, tag.0, tag.1, d);
    KeyRead(buf, p + 1, tag.0);
    ValueRead(buf, p + 2 + |tag.0|, tag.1, d);
  }

  lemma {:induction false} PieceSome(s: Bytes, stops: set<char>)
    requires Piece(s, {}, stops)
    ensures s != []
  {
  }

  /** A text, the first byte of what follows it, and the rest. */
  lemma {:induction false} Seam(buf: Bytes, p: nat, text: Bytes, rest: Bytes, last: char)
    requires At(buf, p, text + rest + [last])
    ensures At(buf, p, text + [if rest == [] then last else rest[0]]) && At(buf, p + |text|, rest + [last])
  {
    assert text + rest + [last] == text + (rest + [last]);
    AtConcat(buf, p, text, rest + [last]);
    assert (rest + [last])[0] == if rest == [] then last else rest[0];
    AtSnoc(buf, p, text, if rest == [] then last else rest[0]);
  }

  lemma {:induction false} TagsFirst(tags: seq<(Bytes, Bytes)>)
    ensures tags != [] <==> TagsOf(tags) != []
    ensures tags != [] ==> TagsOf(tags)[0] == ','
  {
  }

  lemma {:induction false} TagsRead(buf: Bytes, p: nat, tags: seq<(Bytes, Bytes)>)
    requires tags != [] && RawTags(tags) && At(buf, p, TagsOf(tags) + [' '])
    ensures p + |TagsOf(tags)| < |buf| && TagsEnd(buf, p + 1) == Ok(p + |TagsOf(tags)|)
    decreases |tags|
  {
    hide TagOf, At, TagsEnd, RawTag;
    var rest := TagsOf(tags[1..]);
    Seam(buf, p, TagOf(tags[0]), rest, ' ');
    TagsFirst(tags[1..]);
    TagRead(buf, p, tags[0], if rest == [] then ' ' else rest[0]);
    if tags[1..] != [] {
      TagsRead(buf, p + |TagOf(tags[0])|, tags[1..]);
    }
  }

  // ---------- the key block ----------

  /** Blanks, then from s to e a name and tags, then a space. */
  ghost predicate KeyBlockOf(buf: Bytes, s: nat, e: nat, name: Bytes, tags: seq<(Bytes, Bytes)>) {
    && s <= e < |buf| && buf[e] == ' ' && (forall k :: 0 <= k < s ==> IsSpace(buf[k]))
    && Piece(name, {','}, NAME_STOPS) && !IsSpace(name[0]) && RawTags(tags) && buf[s..e] == name + TagsOf(tags)
  }

  lemma {:induction false} NameSpan(buf: Bytes, s: nat)
    requires s <= |buf| && MeasurementEnd(buf, s).Ok?
    ensures
      var (more, i) := MeasurementEnd(buf, s).value;
      var e := if more then i - 1 else i;
      s < e < |buf| && buf[e] == (if more then ',' else ' ') && Piece(buf[s..e], {','}, NAME_STOPS) && buf[s..e][0] == buf[s]
  {
    var (more, i) := MeasurementEnd(buf, s).value;
    var e := if more then i - 1 else i;
    PieceEnds(buf, s, NAME_STOPS);
    PieceFirst(buf[s..e], {','}, NAME_STOPS);
  }

  /** An accepted key block is a name and tags. */
  lemma {:induction false} KeyBlockSpan(buf: Bytes) returns (name: Bytes, tags: seq<(Bytes, Bytes)>)
    requires KeyBlock(buf).Ok?
    ensures KeyBlockOf(buf, KeyBlock(buf).value.0, KeyBlock(buf).value.1, name, tags)
  {
    hide MeasurementEnd, TagsEnd, Piece, RawTags, TagsOf;
    var s := SkipSpace(buf, 0);
    NameSpan(buf, s);
    var (more, i) := MeasurementEnd(buf, s).value;
    if more {
      name := buf[s..i - 1];
      tags := TagsSpan(buf, i);
      var e := TagsEnd(buf, i).value;
      assert buf[s..e] == buf[s..i - 1] + ([','] + buf[i..e]);
    } else {
      name, tags := buf[s..i], [];
      NoTags();
      assert name + [] == name;
    }
  }

  lemma {:induction false} NoTags()
    ensures TagsOf([]) == [] && RawTags([])
  {
  }

  lemma {:induction false} SkipTo(buf: Bytes, i: nat, s: nat)
    requires i <= s < |buf| && !IsSpace(buf[s]) && forall k :: i <= k < s ==> IsSpace(buf[k])
    ensures SkipSpace(buf, i) == s
    decreases s - i
  {
    if i < s {
      SkipTo(buf, i + 1, s);
    }
  }

  lemma {:induction false} NameRead(buf: Bytes, s: nat, name: Bytes, d: char)
    requires Piece(name, {','}, NAME_STOPS) && d in NAME_STOPS && At(buf, s, name + [d])
    ensures s < s + |name| < |buf| && buf[s] == name[0]
    ensures MeasurementEnd(buf, s) == Ok(if d == ',' then (true, s + |name| + 1) else (false, s + |name|))
  {
    PieceFirst(name, {','}, NAME_STOPS);
    hide Piece, At;
    PieceRead(buf, s, name, d, NAME_STOPS);
    PieceSome(name, NAME_STOPS);
  }

  lemma {:induction false} BlockAt(buf: Bytes, s: nat, e: nat, text: Bytes)
    requires s <= e < |buf| && buf[e] == ' ' && buf[s..e] == text
    ensures At(buf, s, text + [' '])
  {
    AtSnoc(buf, s, text, ' ');
  }

  /** A name and tags are accepted as the key block. */
  lemma {:induction false} KeyBlockRead(buf: Bytes, s: nat, e: nat, name: Bytes, tags: seq<(Bytes, Bytes)>)
    requires KeyBlockOf(buf, s, e, name, tags)
    ensures KeyBlock(buf) == Ok((s, e))
  {
    hide Piece, At, TagsEnd, TagsOf, RawTags, MeasurementEnd, SkipSpace;
    var t := TagsOf(tags);
    BlockAt(buf, s, e, name + t);
    Seam(buf, s, name, t, ' ');
    TagsFirst(tags);
    NameRead(buf, s, name, if t == [] then ' ' else t[0]);
    SkipTo(buf, 0, s);
    if tags != [] {
      TagsRead(buf, s + |name|, tags);
    }
  }

  /** A line has a key block from s to e if and only if a name and tags lie there. */
  lemma {:induction false} KeyBlocksExactly(buf: Bytes, s: nat, e: nat)
    ensures KeyBlock(buf) == Ok((s, e)) <==> exists name, tags :: KeyBlockOf(buf, s, e, name, tags)
  {
    hide KeyBlock, KeyBlockOf;
    if KeyBlock(buf) == Ok((s, e)) {
      var name, tags := KeyBlockSpan(buf);
    }
    if name, tags :| KeyBlockOf(buf, s, e, name, tags) {
      KeyBlockRead(buf, s, e, name, tags);
    }
  }
}
