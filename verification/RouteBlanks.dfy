/** What Parse lets through besides the text that String prints (controllers/java/router/types.go): blanks around
    the parts of a line, comments and empty lines; and which characters keys and values are made of. */
module RouteBlanks {
  import opened ByteStrings
  import opened Separators
  import opened Routes

  predicate Blank(b: Bytes) {
    forall i :: 0 <= i < |b| ==> IsSpace(b[i])
  }

  lemma {:induction false} BlankRun(s: Bytes, i: nat, b: Bytes)
    requires Blank(b) && At(s, i, b) && (i + |b| < |s| ==> !IsSpace(s[i + |b|]))
    ensures RunEnd(s, i, SPACES) == i + |b|
  {
    hide IsSpace, At;
    RunAt(s, i, b, SPACES);
  }

  /** A match with blanks around its operator. */
  function SpacedMatch(m: Match, left: Bytes, right: Bytes, v: Version): Bytes {
    m.key + left + m.op + right + JoinWith(m.value, FieldSep(v))
  }

  lemma {:induction false} SpacedPieces(s: Bytes, i: nat, key: Bytes, left: Bytes, op: Bytes, right: Bytes, j: Bytes)
    requires At(s, i, key + left + op + right + j)
    ensures
      var o := i + |key| + |left|;
      && At(s, i, key) && At(s, i + |key|, left) && At(s, o, op) && At(s, o + |op|, right)
      && At(s, o + |op| + |right|, j)
  {
    AtConcat(s, i, key + left + op + right, j);
    AtConcat(s, i, key + left + op, right);
    AtConcat(s, i, key + left, op);
    AtConcat(s, i, key, left);
  }

  lemma {:induction false} SpacedKey(s: Bytes, i: nat, key: Bytes, left: Bytes, v: Version)
    requires AllKey(v, key) && Blank(left) && At(s, i, key) && At(s, i + |key|, left)
    requires var o := i + |key| + |left|; o < |s| && (s[o] == '=' || s[o] == '!')
    ensures RunEnd(s, i, Keys(v)) == i + |key| && RunEnd(s, i + |key|, SPACES) == i + |key| + |left|
  {
    hide RunEnd, At;
    OpIsNeither(v, s[i + |key| + |left|]);
    BlankRun(s, i + |key|, left);
    BlankHead(s, i + |key|, left, v);
    hide IsKey, IsSpace;
    RunAt(s, i, key, Keys(v));
  }

  lemma {:induction false} BlankHead(s: Bytes, i: nat, b: Bytes, v: Version)
    requires Blank(b) && At(s, i, b)
    ensures b != [] ==> i < |s| && IsSpace(s[i]) && !IsKey(v, s[i]) && !IsValue(v, s[i])
  {
    if b != [] {
      assert s[i] == b[0];
    }
  }

  lemma {:induction false} SpacedValue(s: Bytes, i: nat, right: Bytes, j: Bytes, v: Version)
    requires Blank(right) && At(s, i, right) && At(s, i + |right|, j) && AllValue(v, j) && j != []
    requires var end := i + |right| + |j|; end < |s| ==> !IsValue(v, s[end])
    ensures RunEnd(s, i, SPACES) == i + |right| && RunEnd(s, i + |right|, Values(v)) == i + |right| + |j|
  {
    hide IsValue, IsSpace, RunEnd;
    AtStart(s, i + |right|, j);
    ValueIsNotSpace(v, j[0]);
    hide At;
    BlankRun(s, i, right);
    RunAt(s, i + |right|, j, Values(v));
  }

  lemma {:induction false} ReadAt(s: Bytes, i: nat, k: nat, o: nat, op: Bytes, a: nat, b: nat, v: Version)
    requires i < k <= o <= |s| && k == RunEnd(s, i, Keys(v)) && o == RunEnd(s, k, SPACES) && op == ReadOp(s, o, v)
    requires op != [] && a == RunEnd(s, o + |op|, SPACES) && a < b && b == RunEnd(s, a, Values(v))
    ensures ReadMatch(s, i, v) == Some((Match(s[i..k], op, SplitOn(s[a..b], FieldSep(v))), b))
  {
    hide SplitOn, RunEnd, ReadOp;
  }

  lemma {:induction false} OpAt(s: Bytes, o: nat, op: Bytes, v: Version)
    requires At(s, o, op) && (op == "=" || (op == "!=" && v == V4))
    ensures o + |op| <= |s| && o < |s| && (s[o] == '=' || s[o] == '!') && ReadOp(s, o, v) == op
  {
    AtStart(s, o, op);
  }

  lemma {:induction false} SpacedParts(s: Bytes, i: nat, key: Bytes, left: Bytes, op: Bytes, right: Bytes, j: Bytes,
      v: Version)
    requires key != [] && AllKey(v, key) && (op == "=" || (op == "!=" && v == V4)) && j != [] && AllValue(v, j)
    requires Blank(left) && Blank(right) && At(s, i, key) && At(s, i + |key|, left)
    requires
      var o := i + |key| + |left|;
      var end := o + |op| + |right| + |j|;
      && At(s, o, op) && At(s, o + |op|, right) && At(s, o + |op| + |right|, j)
      && (end < |s| ==> !IsValue(v, s[end]))
    ensures
      var end := i + |key| + |left| + |op| + |right| + |j|;
      ReadMatch(s, i, v) == Some((Match(key, op, SplitOn(j, FieldSep(v))), end))
  {
    hide SplitOn, RunEnd, IsKey, IsValue, IsSpace, FieldSep, At, Keys, Values, AllKey, AllValue, Blank, ReadOp, ReadMatch;
    var o := i + |key| + |left|;
    var a := o + |op| + |right|;
    OpAt(s, o, op, v);
    SpacedKey(s, i, key, left, v);
    SpacedValue(s, o + |op|, right, j, v);
    AtSlice(s, i, key);
    AtSlice(s, a, j);
    ReadAt(s, i, i + |key|, o, op, a, a + |j|, v);
  }

  /** A match is read whatever blanks stand around its operator. */
  lemma {:induction false} SpacedMatchAt(s: Bytes, i: nat, m: Match, left: Bytes, right: Bytes, v: Version)
    requires GoodMatch(m, v) && Blank(left) && Blank(right) && At(s, i, SpacedMatch(m, left, right, v))
    requires var end := i + |SpacedMatch(m, left, right, v)|; end < |s| ==> !IsValue(v, s[end])
    ensures ReadMatch(s, i, v) == Some((m, i + |SpacedMatch(m, left, right, v)|))
  {
    hide ReadMatch, SplitOn, JoinWith, IsValue, IsKey, At, Blank;
    SplitJoin(m.value, FieldSep(v));
    SpacedPieces(s, i, m.key, left, m.op, right, JoinWith(m.value, FieldSep(v)));
    SpacedParts(s, i, m.key, left, m.op, right, JoinWith(m.value, FieldSep(v)), v);
  }

  lemma {:induction false} SpacedStart(m: Match, left: Bytes, right: Bytes, v: Version)
    requires GoodMatch(m, v)
    ensures SpacedMatch(m, left, right, v) != [] && IsKey(v, SpacedMatch(m, left, right, v)[0])
  {
  }

  // ---------- lines ----------

  /** The blanks of a line: at its start, around the source's operator, before and behind the arrow, around the
      destination's operator, and at its end. */
  datatype Blanks = Blanks(start: Bytes, src: (Bytes, Bytes), before: Bytes, behind: Bytes, dst: (Bytes, Bytes), end: Bytes)

  predicate AllBlank(b: Blanks) {
    && Blank(b.start) && Blank(b.src.0) && Blank(b.src.1) && Blank(b.before) && Blank(b.behind)
    && Blank(b.dst.0) && Blank(b.dst.1) && Blank(b.end)
  }

  /** A line of version 4 from the arrow on. */
  function Tail(item: RouteItem, b: Blanks): Bytes {
    "=>" + b.behind + SpacedMatch(item.dst, b.dst.0, b.dst.1, V4) + b.end
  }

  function SourceText(item: RouteItem, b: Blanks): Bytes {
    if item.src == NOTHING then [] else SpacedMatch(item.src, b.src.0, b.src.1, V4) + b.before
  }

  /** A line that says what String's line says, with other blanks. */
  function SpacedLine(item: RouteItem, b: Blanks, v: Version): Bytes {
    if v == V2 then b.start + SpacedMatch(item.dst, b.dst.0, b.dst.1, V2) + b.end
    else b.start + SourceText(item, b) + Tail(item, b)
  }

  /** A destination between blanks, up to the end of the line. */
  lemma {:induction false} SpacedDest(s: Bytes, i: nat, src: Match, dst: Match, start: Bytes, left: Bytes,
      right: Bytes, end: Bytes, v: Version)
    requires GoodMatch(dst, v) && Blank(start) && Blank(left) && Blank(right) && Blank(end)
    requires i <= |s| && s[i..] == start + SpacedMatch(dst, left, right, v) + end
    ensures ReadDest(s, i, src, v) == Item(RouteItem(src, dst))
  {
    var d := SpacedMatch(dst, left, right, v);
    AtEndOf(s, i, start, d, end);
    hide GoodMatch, At, Blank, SpacedMatch, ReadDest;
    SpacedDestAt(s, i, i + |start|, src, dst, start, left, right, d, end, v);
  }

  /** Blanks, then a text that starts like a key. */
  lemma {:induction false} BlanksThenKey(s: Bytes, i: nat, b: Bytes, d: Bytes, v: Version)
    requires Blank(b) && At(s, i, b) && At(s, i + |b|, d) && d != [] && IsKey(v, d[0])
    ensures RunEnd(s, i, SPACES) == i + |b| < |s| && s[i + |b|] == d[0]
  {
    AtStart(s, i + |b|, d);
    KeyIsNotSpace(v, d[0]);
    hide IsKey, IsSpace, At, RunEnd, Blank;
    BlankRun(s, i, b);
  }

  lemma {:induction false} BlanksToEnd(s: Bytes, e: nat, end: Bytes, v: Version)
    requires Blank(end) && At(s, e, end) && |s| == e + |end|
    ensures RunEnd(s, e, SPACES) == |s| && (e < |s| ==> !IsValue(v, s[e]))
  {
    hide RunEnd, IsValue, IsSpace, IsKey, Blank, At;
    BlankHead(s, e, end, v);
    BlankRun(s, e, end);
  }

  /** Blanks, then the '=' of an arrow. */
  lemma {:induction false} BlanksThenArrow(s: Bytes, k: nat, before: Bytes)
    requires Blank(before) && At(s, k, before) && k + |before| < |s| && s[k + |before|] == '='
    ensures RunEnd(s, k, SPACES) == k + |before| && !IsValue(V4, s[k])
  {
    OpIsNeither(V4, '=');
    hide RunEnd, IsValue, IsSpace, IsKey, Blank, At;
    BlankHead(s, k, before, V4);
    BlankRun(s, k, before);
  }

  lemma {:induction false} DestRead(s: Bytes, i: nat, k: nat, e: nat, src: Match, dst: Match, v: Version)
    requires i <= k <= |s| && RunEnd(s, i, SPACES) == k && ReadMatch(s, k, v) == Some((dst, e))
    requires e <= |s| && RunEnd(s, e, SPACES) == |s|
    ensures ReadDest(s, i, src, v) == Item(RouteItem(src, dst))
  {
    hide ReadMatch, RunEnd;
  }

  lemma {:induction false} SpacedDestAt(s: Bytes, i: nat, k: nat, src: Match, dst: Match, start: Bytes, left: Bytes,
      right: Bytes,
      d: Bytes, end: Bytes, v: Version)
    requires GoodMatch(dst, v) && Blank(start) && Blank(left) && Blank(right) && Blank(end)
    requires d == SpacedMatch(dst, left, right, v) && k == i + |start|
    requires At(s, i, start) && At(s, k, d) && At(s, k + |d|, end) && |s| == k + |d| + |end|
    ensures ReadDest(s, i, src, v) == Item(RouteItem(src, dst))
  {
    hide *;
    SpacedStart(dst, left, right, v);
    BlanksThenKey(s, i, start, d, v);
    BlanksToEnd(s, k + |d|, end, v);
    SpacedMatchAt(s, k, dst, left, right, v);
    DestRead(s, i, k, k + |d|, src, dst, v);
  }

  lemma {:induction false} AtEndOf(s: Bytes, i: nat, a: Bytes, b: Bytes, c: Bytes)
    requires i <= |s| && s[i..] == a + b + c
    ensures At(s, i, a) && At(s, i + |a|, b) && At(s, i + |a| + |b|, c) && |s| == i + |a| + |b| + |c|
  {
    assert At(s, i, a + b + c);
    AtConcat(s, i, a + b, c);
    AtConcat(s, i, a, b);
  }

  lemma {:induction false} SpacedArrow(s: Bytes, i: nat, src: Match, item: RouteItem, b: Blanks)
    requires GoodMatch(item.dst, V4) && AllBlank(b) && i <= |s|
    requires s[RunEnd(s, i, SPACES)..] == Tail(item, b)
    ensures ReadArrow(s, i, src) == Item(RouteItem(src, item.dst))
  {
    hide SpacedMatch, GoodMatch, ReadDest, RunEnd, Blank;
    var d := SpacedMatch(item.dst, b.dst.0, b.dst.1, V4);
    var a := RunEnd(s, i, SPACES);
    var rest := s[a..];
    assert rest == "=>" + (b.behind + d + b.end);
    assert rest[0] == '=' && rest[1] == '>' && s[a] == rest[0] && s[a + 1] == rest[1];
    assert s[a + 2..] == rest[2..] == b.behind + d + b.end;
    SpacedDest(s, a + 2, src, item.dst, b.behind, b.dst.0, b.dst.1, b.end, V4);
  }

  lemma {:induction false} SourceLayout(s: Bytes, start: Bytes, m: Bytes, before: Bytes, tail: Bytes)
    requires s == start + m + (before + tail)
    ensures
      var k := |start| + |m|;
      && At(s, 0, start) && At(s, |start|, m) && At(s, k, before) && At(s, k + |before|, tail)
      && k + |before| <= |s| && s[k + |before|..] == tail
  {
    assert s[0..] == s;
    AtEndOf(s, 0, start, m, before + tail);
    AtConcat(s, |start| + |m|, before, tail);
  }

  /** A source between blanks, and a tail that starts with the arrow. */
  lemma {:induction false} SpacedSourceAt(s: Bytes, i: nat, k: nat, a: nat, src: Match, start: Bytes, left: Bytes,
      right: Bytes,
      m: Bytes, before: Bytes)
    requires GoodMatch(src, V4) && Blank(start) && Blank(left) && Blank(right) && Blank(before)
    requires m == SpacedMatch(src, left, right, V4) && i == |start| && k == i + |m| && a == k + |before|
    requires At(s, 0, start) && At(s, i, m) && At(s, k, before) && a < |s| && s[a] == '='
    ensures RunEnd(s, 0, SPACES) == i < |s| && IsKey(V4, s[i]) && ReadMatch(s, i, V4) == Some((src, k))
    ensures k <= |s| && RunEnd(s, k, SPACES) == a
  {
    hide *;
    SpacedStart(src, left, right, V4);
    BlanksThenKey(s, 0, start, m, V4);
    BlanksThenArrow(s, k, before);
    SpacedMatchAt(s, i, src, left, right, V4);
  }

  lemma {:induction false} SourceRead(s: Bytes, i: nat, k: nat, src: Match, item: RouteItem)
    requires RunEnd(s, 0, SPACES) == i < |s| && IsKey(V4, s[i]) && ReadMatch(s, i, V4) == Some((src, k))
    requires k <= |s| && ReadArrow(s, k, src) == Item(item)
    ensures ParseItem(s, V4) == Item(item)
  {
    hide RunEnd, IsKey, ReadMatch, ReadArrow;
  }

  lemma {:induction false} SourceLine(item: RouteItem, b: Blanks)
    requires item.src != NOTHING
    ensures SpacedLine(item, b, V4) == b.start + SpacedMatch(item.src, b.src.0, b.src.1, V4) + (b.before + Tail(item, b))
  {
    hide SpacedMatch, Tail;
  }

  lemma {:induction false} SourceArrow(s: Bytes, a: nat, item: RouteItem, b: Blanks)
    requires a <= |s| && s[a..] == Tail(item, b)
    ensures a < |s| && s[a] == '='
  {
    TailIsArrow(item, b);
    hide Tail;
    assert s[a] == s[a..][0];
  }

  lemma {:induction false} AllBlankMeans(b: Blanks)
    requires AllBlank(b)
    ensures Blank(b.start) && Blank(b.src.0) && Blank(b.src.1) && Blank(b.before)
  {
  }

  lemma {:induction false} SpacedSource(s: Bytes, item: RouteItem, b: Blanks)
    requires GoodMatch(item.src, V4) && GoodMatch(item.dst, V4) && AllBlank(b) && item.src != NOTHING
    requires s == SpacedLine(item, b, V4)
    ensures ParseItem(s, V4) == Item(item)
  {
    hide *;
    AllBlankMeans(b);
    SourceLine(item, b);
    var m := SpacedMatch(item.src, b.src.0, b.src.1, V4);
    var i := |b.start|;
    var k := i + |m|;
    var a := k + |b.before|;
    SourceLayout(s, b.start, m, b.before, Tail(item, b));
    SourceArrow(s, a, item, b);
    SpacedSourceAt(s, i, k, a, item.src, b.start, b.src.0, b.src.1, m, b.before);
    SpacedArrow(s, k, item.src, item, b);
    SourceRead(s, i, k, item.src, item);
  }

  lemma {:induction false} TailIsArrow(item: RouteItem, b: Blanks)
    ensures Tail(item, b) != [] && Tail(item, b)[0] == '='
  {
  }

  lemma {:induction false} TailStart(s: Bytes, k: nat, before: Bytes, tail: Bytes)
    requires At(s, k, before + tail) && tail != [] && tail[0] == '='
    ensures k + |before| < |s| && s[k + |before|] == '=' && (before == [] ==> s[k] == '=')
  {
    AtConcat(s, k, before, tail);
  }

  lemma {:induction false} BareAt(s: Bytes, start: Bytes)
    requires Blank(start) && At(s, 0, start) && |start| < |s| && s[|start|] == '='
    ensures RunEnd(s, 0, SPACES) == |start| && RunEnd(s, |start|, SPACES) == |start| && !IsKey(V4, '=')
  {
    OpIsNeither(V4, '=');
    hide RunEnd, At, Blank;
    BlankRun(s, 0, start);
    RunEndAt(s, |start|, |start|, SPACES);
  }

  lemma {:induction false} SpacedBare(s: Bytes, item: RouteItem, b: Blanks)
    requires GoodMatch(item.dst, V4) && AllBlank(b) && item.src == NOTHING && s == SpacedLine(item, b, V4)
    ensures ParseItem(s, V4) == Item(item)
  {
    var tail := Tail(item, b);
    assert s == b.start + tail + [] && s[0..] == s;
    hide SpacedMatch, GoodMatch, ReadArrow, IsKey, IsValue, IsSpace, RunEnd, Blank;
    TailIsArrow(item, b);
    AtEndOf(s, 0, b.start, tail, []);
    TailStart(s, 0, b.start, tail);
    BareAt(s, b.start);
    assert s[|b.start|..] == tail;
    SpacedArrow(s, |b.start|, NOTHING, item, b);
  }

  lemma {:induction false} SpacedOld(s: Bytes, item: RouteItem, b: Blanks)
    requires GoodMatch(item.dst, V2) && AllBlank(b) && item.src == NOTHING && s == SpacedLine(item, b, V2)
    ensures ParseItem(s, V2) == Item(item)
  {
    var d := SpacedMatch(item.dst, b.dst.0, b.dst.1, V2);
    SpacedStart(item.dst, b.dst.0, b.dst.1, V2);
    hide SpacedMatch, GoodMatch, ReadDest, IsKey, IsValue, IsSpace, RunEnd, Blank;
    assert s[0..] == s;
    AtEndOf(s, 0, b.start, d, b.end);
    AtStart(s, |b.start|, d);
    KeyIsNotSpace(V2, d[0]);
    KeysAreNotBlank(V2);
    BlankRun(s, 0, b.start);
    SpacedDest(s, 0, NOTHING, item.dst, b.start, b.dst.0, b.dst.1, b.end, V2);
  }

  /** Blanks do not matter: a line that differs from the printed one in its blanks only is the same item. */
  lemma {:induction false} BlanksDoNotMatter(item: RouteItem, b: Blanks, v: Version)
    requires GoodItem(item, v) && AllBlank(b)
    ensures ParseItem(SpacedLine(item, b, v), v) == Item(item)
  {
    hide GoodMatch, ParseItem, SpacedLine, AllBlank;
    if v == V2 {
      SpacedOld(SpacedLine(item, b, v), item, b);
    } else if item.src == NOTHING {
      SpacedBare(SpacedLine(item, b, v), item, b);
    } else {
      SpacedSource(SpacedLine(item, b, v), item, b);
    }
  }

  lemma {:induction false} CommentAt(s: Bytes, b: Bytes, text: Bytes)
    requires s == b + ['#'] + text
    ensures At(s, 0, b) && |b| < |s| && s[|b|] == '#' && !IsSpace('#') && !IsKey(V4, '#')
  {
    assert s[0..] == s;
    AtEndOf(s, 0, b, ['#'], text);
  }

  lemma {:induction false} NoArrow(s: Bytes, i: nat)
    requires i < |s| && s[i] == '#'
    ensures ReadArrow(s, i, NOTHING) == Bad
  {
    RunEndAt(s, i, i, SPACES);
  }

  /** Empty lines are skipped. A comment is skipped in version 2 and is an error in version 4. */
  lemma {:induction false} SkippedLines(b: Bytes, text: Bytes, v: Version)
    requires Blank(b)
    ensures ParseItem(b, v) == Skip
    ensures ParseItem(b + ['#'] + text, v) == if v == V2 then Skip else Bad
  {
    hide RunEnd, Blank, IsKey, IsSpace, At, ReadArrow;
    var s := b + ['#'] + text;
    CommentAt(s, b, text);
    BlankRun(s, 0, b);
    NoArrow(s, |b|);
    assert b[0..] == b + [] + [];
    AtEndOf(b, 0, b, [], []);
    BlankRun(b, 0, b);
  }

  /** The characters of keys and values. */
  lemma {:induction false} Characters(c: char)
    ensures
      if 'a' <= c <= 'z' || 'A' <= c <= 'Z' || '0' <= c <= '9' then
        IsKey(V2, c) && IsKey(V4, c) && IsValue(V2, c) && IsValue(V4, c)
      else
        && (IsKey(V2, c) <==> c in "_-") && (IsKey(V4, c) <==> c in "_-*")
        && (IsValue(V2, c) <==> c in "_-/.:;,") && (IsValue(V4, c) <==> c in "_-/.:,*")
  {
  }
}
