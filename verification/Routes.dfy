/** The route configuration of a java service (controllers/java/router/types.go): RouteCfg.String and
    Parse. The two regular expressions are unambiguous, so each is a left-to-right scan. */
module Routes {
  import opened ByteStrings
  import opened Separators

  datatype Match = Match(key: Bytes, op: Bytes, value: seq<Bytes>)

  datatype RouteItem = RouteItem(src: Match, dst: Match)

  /** API versions other than these two are refused by Parse whatever the text. */
  datatype Version = V2 | V4

  const NOTHING := Match([], [], [])

  // ---------- the character classes ----------

  predicate IsSpace(c: char) {
    c in {' ', '\t', '\n', '\r', 12 as char}
  }

  predicate IsWord(c: char) {
    'a' <= c <= 'z' || 'A' <= c <= 'Z' || '0' <= c <= '9' || c == '_'
  }

  predicate IsKey(v: Version, c: char) {
    IsWord(c) || c == '-' || (v == V4 && c == '*')
  }

  predicate IsValue(v: Version, c: char) {
    IsWord(c) || c in {'-', '/', '.', ':', ','} || c == (if v == V2 then ';' else '*')
  }

  function Keys(v: Version): char -> bool {
    c => IsKey(v, c)
  }

  function Values(v: Version): char -> bool {
    c => IsValue(v, c)
  }

  const SPACES: char -> bool := c => IsSpace(c)

  function FieldSep(v: Version): char {
    if v == V2 then ';' else ','
  }

  // ---------- printing ----------

  /** strings.Trim(s, " \t") */
  function Trim(s: Bytes): Bytes {
    TrimRight(TrimLeft(s))
  }

  function TrimLeft(s: Bytes): Bytes {
    if s != [] && s[0] in {' ', '\t'} then TrimLeft(s[1..]) else s
  }

  function TrimRight(s: Bytes): Bytes {
    if s != [] && s[|s| - 1] in {' ', '\t'} then TrimRight(s[..|s| - 1]) else s
  }

  function MatchText(m: Match, sep: char): Bytes {
    Trim(m.key + m.op + JoinWith(m.value, sep))
  }

  function ItemText(item: RouteItem, v: Version): Bytes {
    Trim(MatchText(item.src, FieldSep(v)) + [' '] + (if v == V2 then [] else "=>") + [' ']
         + MatchText(item.dst, FieldSep(v)) + ['\n'])
  }

  const HEADER := "# auto generated, please donnot  modify"

  function Header(v: Version): Bytes {
    if v == V2 then HEADER + ['\n'] else []
  }

  function ItemsText(items: seq<RouteItem>, v: Version): Bytes {
    if items == [] then [] else ItemsText(items[..|items| - 1], v) + ItemText(items[|items| - 1], v)
  }

  method String(items: seq<RouteItem>, v: Version) returns (ret: Bytes)
    ensures ret == Header(v) + ItemsText(items, v)
  {
    hide ItemText, Header;
    ret := Header(v);
    for i := 0 to |items|
      invariant ret == Header(v) + ItemsText(items[..i], v)
    {
      ret := ret + ItemText(items[i], v);
      assert items[..i + 1][..i] == items[..i];
    }
    assert items[..|items|] == items;
  }

  // ---------- parsing ----------

  /** Where the longest run of characters of a class that starts at i ends. */
  function RunEnd(s: Bytes, i: nat, cls: char -> bool): (k: nat)
    requires i <= |s|
    ensures i <= k <= |s| && (k < |s| ==> !cls(s[k]))
    ensures forall j :: i <= j < k ==> cls(s[j])
    decreases |s| - i
  {
    if i == |s| || !cls(s[i]) then i else RunEnd(s, i + 1, cls)
  }

  lemma {:induction false} RunEndAt(s: Bytes, i: nat, k: nat, cls: char -> bool)
    requires i <= k <= |s| && (forall j :: i <= j < k ==> cls(s[j])) && (k < |s| ==> !cls(s[k]))
    ensures RunEnd(s, i, cls) == k
  {
  }

  /** The operator at i: "=", and in version 4 also "!=". */
  function ReadOp(s: Bytes, i: nat, v: Version): (op: Bytes)
    requires i <= |s|
    ensures op == [] || op == "=" || (op == "!=" && v == V4)
    ensures i + |op| <= |s|
  {
    if i < |s| && s[i] == '=' then "="
    else if v == V4 && i + 1 < |s| && s[i] == '!' && s[i + 1] == '=' then "!="
    else []
  }

  /** A key, an operator and a value from i on, with blanks around the operator, and where they end. */
  function ReadMatch(s: Bytes, i: nat, v: Version): (r: Option<(Match, nat)>)
    requires i <= |s|
    ensures r.Some? ==> i < r.value.1 <= |s|
  {
    var k := RunEnd(s, i, Keys(v));
    var o := RunEnd(s, k, SPACES);
    var op := ReadOp(s, o, v);
    var a := RunEnd(s, o + |op|, SPACES);
    var b := RunEnd(s, a, Values(v));
    if i < k && op != [] && a < b then Some((Match(s[i..k], op, SplitOn(s[a..b], FieldSep(v))), b)) else None
  }

  datatype LineResult = Skip | Bad | Item(item: RouteItem)

  predicate AtEnd(s: Bytes, i: nat)
    requires i <= |s|
  {
    RunEnd(s, i, SPACES) == |s|
  }

  function ReadDest(s: Bytes, i: nat, src: Match, v: Version): LineResult
    requires i <= |s|
  {
    match ReadMatch(s, RunEnd(s, i, SPACES), v)
    case None => Bad
    case Some((dst, end)) => if AtEnd(s, end) then Item(RouteItem(src, dst)) else Bad
  }

  function ReadArrow(s: Bytes, i: nat, src: Match): LineResult
    requires i <= |s|
  {
    var a := RunEnd(s, i, SPACES);
    if a + 2 <= |s| && s[a] == '=' && s[a + 1] == '>' then ReadDest(s, a + 2, src, V4) else Bad
  }

  function ParseItem(s: Bytes, v: Version): LineResult {
    var i := RunEnd(s, 0, SPACES);
    if i == |s| then Skip
    else if v == V2 then
      if s[i] == '#' then Skip else ReadDest(s, 0, NOTHING, V2)
    else if !IsKey(V4, s[i]) then ReadArrow(s, i, NOTHING)
    else match ReadMatch(s, i, V4)
      case None => Bad
      case Some((src, end)) => ReadArrow(s, end, src)
  }

  /** The items of the lines that parse, in order, and how many lines do not. */
  datatype Parsed = Parsed(items: seq<RouteItem>, errors: nat)

  function With(p: Parsed, line: LineResult): Parsed {
    match line
    case Skip => p
    case Bad => p.(errors := p.errors + 1)
    case Item(item) => p.(items := p.items + [item])
  }

  function ParseParts(parts: seq<Bytes>, v: Version): Parsed {
    if parts == [] then Parsed([], 0)
    else With(ParseParts(parts[..|parts| - 1], v), ParseItem(parts[|parts| - 1], v))
  }

  function ParseOf(content: Bytes, v: Version): Parsed {
    ParseParts(SplitOn(content, '\n'), v)
  }

  method Parse(content: Bytes, v: Version) returns (p: Parsed)
    ensures p == ParseOf(content, v)
  {
    hide ParseItem, SplitOn;
    var parts := SplitOn(content, '\n');
    p := Parsed([], 0);
    for i := 0 to |parts|
      invariant p == ParseParts(parts[..i], v)
    {
      p := With(p, ParseItem(parts[i], v));
      assert parts[..i + 1][..i] == parts[..i];
    }
    assert parts[..|parts|] == parts;
  }

  // ---------- well-formed configurations ----------

  predicate AllKey(v: Version, s: Bytes) {
    forall i :: 0 <= i < |s| ==> IsKey(v, s[i])
  }

  predicate AllValue(v: Version, s: Bytes) {
    forall i :: 0 <= i < |s| ==> IsValue(v, s[i])
  }

  ghost predicate GoodMatch(m: Match, v: Version) {
    && m.key != [] && AllKey(v, m.key)
    && (m.op == "=" || (m.op == "!=" && v == V4))
    && m.value != [] && (forall p :: p in m.value ==> FieldSep(v) !in p)
    && JoinWith(m.value, FieldSep(v)) != [] && AllValue(v, JoinWith(m.value, FieldSep(v)))
  }

  /** A source only in version 4, and there it may be missing. */
  ghost predicate GoodItem(item: RouteItem, v: Version) {
    GoodMatch(item.dst, v) && (item.src == NOTHING || (v == V4 && GoodMatch(item.src, v)))
  }

  ghost predicate GoodItems(items: seq<RouteItem>, v: Version) {
    forall i :: 0 <= i < |items| ==> GoodItem(items[i], v)
  }

  // ---------- what Parse returns is well-formed ----------

  lemma {:induction false} ReadMatchGood(s: Bytes, i: nat, v: Version)
    requires i <= |s| && ReadMatch(s, i, v).Some?
    ensures GoodMatch(ReadMatch(s, i, v).value.0, v)
  {
    var k := RunEnd(s, i, Keys(v));
    var o := RunEnd(s, k, SPACES);
    var a := RunEnd(s, o + |ReadOp(s, o, v)|, SPACES);
    var b := RunEnd(s, a, Values(v));
    JoinSplit(s[a..b], FieldSep(v));
  }

  lemma {:induction false} ParseItemGood(s: Bytes, v: Version)
    requires ParseItem(s, v).Item?
    ensures GoodItem(ParseItem(s, v).item, v)
  {
    hide GoodMatch, ReadMatch;
    var i := RunEnd(s, 0, SPACES);
    if v == V4 && IsKey(V4, s[i]) {
      ReadMatchGood(s, i, V4);
      ReadArrowGood(s, ReadMatch(s, i, V4).value.1, ReadMatch(s, i, V4).value.0);
    } else if v == V4 {
      ReadArrowGood(s, i, NOTHING);
    } else {
      ReadDestGood(s, 0, NOTHING, V2);
    }
  }

  lemma {:induction false} ReadDestGood(s: Bytes, i: nat, src: Match, v: Version)
    requires i <= |s| && ReadDest(s, i, src, v).Item?
    ensures GoodMatch(ReadDest(s, i, src, v).item.dst, v) && ReadDest(s, i, src, v).item.src == src
  {
    hide GoodMatch;
    ReadMatchGood(s, RunEnd(s, i, SPACES), v);
  }

  lemma {:induction false} ReadArrowGood(s: Bytes, i: nat, src: Match)
    requires i <= |s| && ReadArrow(s, i, src).Item?
    ensures GoodMatch(ReadArrow(s, i, src).item.dst, V4) && ReadArrow(s, i, src).item.src == src
  {
    hide GoodMatch, ReadDest;
    ReadDestGood(s, RunEnd(s, i, SPACES) + 2, src, V4);
  }

  lemma {:induction false} ParsePartsGood(parts: seq<Bytes>, v: Version)
    ensures GoodItems(ParseParts(parts, v).items, v)
  {
    hide GoodItem, ParseItem;
    if parts != [] {
      var last := |parts| - 1;
      ParsePartsGood(parts[..last], v);
      if ParseItem(parts[last], v).Item? {
        ParseItemGood(parts[last], v);
      }
    }
  }

  // ---------- reading back what is printed ----------

  function MatchBody(m: Match, sep: char): Bytes {
    m.key + m.op + JoinWith(m.value, sep)
  }

  lemma {:induction false} TrimNothing(s: Bytes)
    requires s != [] ==> s[0] !in {' ', '\t'} && s[|s| - 1] !in {' ', '\t'}
    ensures Trim(s) == s
  {
  }

  lemma {:induction false} GoodMatchText(m: Match, v: Version)
    requires GoodMatch(m, v)
    ensures
      var text := MatchText(m, FieldSep(v));
      && text == MatchBody(m, FieldSep(v)) && text != []
      && IsKey(v, text[0]) && IsValue(v, text[|text| - 1])
  {
    var b := MatchBody(m, FieldSep(v));
    var j := JoinWith(m.value, FieldSep(v));
    assert b[0] == m.key[0] && b[|b| - 1] == j[|j| - 1];
    TrimNothing(b);
  }

  lemma {:induction false} OpIsNeither(v: Version, c: char)
    requires c == '=' || c == '!'
    ensures !IsKey(v, c) && !IsSpace(c) && !IsValue(v, c)
  {
  }

  lemma {:induction false} ValueIsNotSpace(v: Version, c: char)
    requires IsValue(v, c)
    ensures !IsSpace(c)
  {
  }

  lemma {:induction false} RunAt(s: Bytes, i: nat, t: Bytes, cls: char -> bool)
    requires At(s, i, t) && (forall x :: 0 <= x < |t| ==> cls(t[x])) && (i + |t| < |s| ==> !cls(s[i + |t|]))
    ensures RunEnd(s, i, cls) == i + |t|
  {
    forall x | i <= x < i + |t|
      ensures cls(s[x])
    {
      assert t[x - i] == s[x];
    }
    RunEndAt(s, i, i + |t|, cls);
  }

  lemma {:induction false} KeyRun(s: Bytes, i: nat, key: Bytes, v: Version)
    requires At(s, i, key) && AllKey(v, key) && i + |key| < |s| && (s[i + |key|] == '=' || s[i + |key|] == '!')
    ensures RunEnd(s, i, Keys(v)) == i + |key| && RunEnd(s, i + |key|, SPACES) == i + |key|
  {
    hide IsKey, IsSpace, RunEnd;
    OpIsNeither(v, s[i + |key|]);
    RunAt(s, i, key, Keys(v));
    RunEndAt(s, i + |key|, i + |key|, SPACES);
  }

  lemma {:induction false} ValueRun(s: Bytes, i: nat, j: Bytes, v: Version)
    requires At(s, i, j) && AllValue(v, j) && j != [] && (i + |j| < |s| ==> !IsValue(v, s[i + |j|]))
    ensures RunEnd(s, i, SPACES) == i && RunEnd(s, i, Values(v)) == i + |j|
  {
    hide IsValue, IsSpace, RunEnd;
    ValueIsNotSpace(v, j[0]);
    assert s[i] == j[0];
    RunAt(s, i, j, Values(v));
    RunEndAt(s, i, i, SPACES);
  }

  lemma {:induction false} AtStart(s: Bytes, i: nat, t: Bytes)
    requires At(s, i, t) && t != []
    ensures i + |t| <= |s| && s[i] == t[0] && (|t| >= 2 ==> s[i + 1] == t[1])
  {
  }

  lemma {:induction false} ReadPieces(s: Bytes, i: nat, key: Bytes, op: Bytes, j: Bytes, v: Version)
    requires key != [] && AllKey(v, key) && (op == "=" || (op == "!=" && v == V4)) && j != [] && AllValue(v, j)
    requires At(s, i, key) && At(s, i + |key|, op) && At(s, i + |key| + |op|, j)
    requires var end := i + |key| + |op| + |j|; end < |s| ==> !IsValue(v, s[end])
    ensures ReadMatch(s, i, v) == Some((Match(key, op, SplitOn(j, FieldSep(v))), i + |key| + |op| + |j|))
  {
    hide SplitOn, RunEnd, IsKey, IsValue, IsSpace, FieldSep, At, Keys, Values, AllKey, AllValue;
    var k, o := i + |key|, i + |key| + |op|;
    AtStart(s, k, op);
    AtStart(s, o, j);
    KeyRun(s, i, key, v);
    ValueRun(s, o, j, v);
    AtSlice(s, i, key);
    AtSlice(s, o, j);
  }

  /** A match that stands in a line is read back whole. */
  lemma {:induction false} ReadMatchAt(s: Bytes, i: nat, m: Match, v: Version)
    requires GoodMatch(m, v) && At(s, i, MatchBody(m, FieldSep(v)))
    requires var end := i + |MatchBody(m, FieldSep(v))|; end < |s| ==> !IsValue(v, s[end])
    ensures ReadMatch(s, i, v) == Some((m, i + |MatchBody(m, FieldSep(v))|))
  {
    hide ReadMatch, SplitOn, JoinWith, IsValue, IsKey, At;
    var j := JoinWith(m.value, FieldSep(v));
    AtConcat(s, i, m.key + m.op, j);
    AtConcat(s, i, m.key, m.op);
    SplitJoin(m.value, FieldSep(v));
    ReadPieces(s, i, m.key, m.op, j, v);
  }

  /** The printed line of an item, without its line feed. */
  function LineOf(item: RouteItem, v: Version): Bytes {
    var d := MatchBody(item.dst, FieldSep(v));
    if v == V2 then d
    else if item.src == NOTHING then "=> " + d
    else MatchBody(item.src, FieldSep(v)) + " => " + d
  }

  lemma {:induction false} TrimSpaces(d: Bytes)
    requires d != [] && d[0] !in {' ', '\t'}
    ensures Trim([' ', ' '] + d + ['\n']) == d + ['\n'] && Trim([' '] + d + ['\n']) == d + ['\n']
    ensures Trim(d + ['\n']) == d + ['\n']
  {
    var one, two := [' '] + d + ['\n'], [' ', ' '] + d + ['\n'];
    TrimNothing(d + ['\n']);
    assert one[1..] == d + ['\n'];
    assert two[1..] == one;
    assert TrimLeft(one) == TrimLeft(d + ['\n']);
  }

  lemma {:induction false} ItemTextIsLine(item: RouteItem, v: Version)
    requires GoodItem(item, v)
    ensures ItemText(item, v) == LineOf(item, v) + ['\n']
  {
    hide GoodMatch, Trim, IsKey, MatchBody, FieldSep, JoinWith;
    var d := MatchBody(item.dst, FieldSep(v));
    KeysAreNotBlank(v);
    GoodMatchText(item.dst, v);
    if v == V2 {
      NothingText(FieldSep(v));
      TrimSpaces(d);
      assert [] + [' '] + [] + [' '] + d + ['\n'] == [' ', ' '] + d + ['\n'];
    } else if item.src == NOTHING {
      NothingText(FieldSep(v));
      TrimSpaces("=> " + d);
      assert [] + [' '] + "=>" + [' '] + d + ['\n'] == [' '] + ("=> " + d) + ['\n'];
    } else {
      var b := MatchBody(item.src, FieldSep(v));
      GoodMatchText(item.src, v);
      TrimSpaces(b + " => " + d);
      assert b + [' '] + "=>" + [' '] + d + ['\n'] == b + " => " + d + ['\n'];
    }
  }

  lemma {:induction false} KeysAreNotBlank(v: Version)
    ensures !IsKey(v, ' ') && !IsKey(v, '\t') && !IsKey(v, '=') && !IsKey(v, '#') && !IsKey(v, '\n')
  {
  }

  lemma {:induction false} NothingText(sep: char)
    ensures MatchText(NOTHING, sep) == []
  {
  }

  lemma {:induction false} KeyIsNotSpace(v: Version, c: char)
    requires IsKey(v, c)
    ensures !IsSpace(c)
  {
  }

  /** A destination that ends the line, with or without a blank before it. */
  lemma {:induction false} ReadDestAt(s: Bytes, from: nat, i: nat, src: Match, dst: Match, v: Version)
    requires GoodMatch(dst, v) && from <= i <= |s| && s[i..] == MatchBody(dst, FieldSep(v))
    requires from == i || (from + 1 == i && s[from] == ' ')
    ensures ReadDest(s, from, src, v) == Item(RouteItem(src, dst))
  {
    hide MatchBody, GoodMatch, ReadMatch, RunEnd, IsKey, IsValue;
    var d := MatchBody(dst, FieldSep(v));
    assert At(s, i, d);
    GoodMatchText(dst, v);
    assert s[i] == d[0];
    KeyIsNotSpace(v, d[0]);
    RunEndAt(s, from, i, SPACES);
    ReadMatchAt(s, i, dst, v);
    RunEndAt(s, |s|, |s|, SPACES);
  }

  lemma {:induction false} ParseSourced(item: RouteItem, s: Bytes)
    requires GoodMatch(item.src, V4) && GoodMatch(item.dst, V4)
    requires s == MatchBody(item.src, ',') + " => " + MatchBody(item.dst, ',')
    ensures ParseItem(s, V4) == Item(item)
  {
    hide GoodMatch, MatchBody, ReadMatch, ReadDest, IsKey, IsSpace, RunEnd;
    var b, d := MatchBody(item.src, ','), MatchBody(item.dst, ',');
    var n := |b|;
    GoodMatchText(item.src, V4);
    KeyIsNotSpace(V4, b[0]);
    OpIsNeither(V4, '=');
    assert s[0] == b[0];
    RunEndAt(s, 0, 0, SPACES);
    assert s[n] == ' ' && s[n + 1] == '=' && s[n + 2] == '>' && s[n + 3] == ' ' && s[n + 4..] == d;
    assert At(s, 0, b);
    BlankIsSpace(V4);
    ReadMatchAt(s, 0, item.src, V4);
    RunEndAt(s, n, n + 1, SPACES);
    ReadDestAt(s, n + 3, n + 4, item.src, item.dst, V4);
  }

  lemma {:induction false} BlankIsSpace(v: Version)
    ensures IsSpace(' ') && !IsValue(v, ' ')
  {
  }

  lemma {:induction false} ParseLineOf(item: RouteItem, v: Version)
    requires GoodItem(item, v)
    ensures ParseItem(LineOf(item, v), v) == Item(item)
  {
    hide GoodMatch, MatchBody, ReadMatch, ReadDest, IsKey, IsSpace, RunEnd;
    var s := LineOf(item, v);
    var d := MatchBody(item.dst, FieldSep(v));
    KeysAreNotBlank(v);
    OpIsNeither(v, '=');
    if v == V2 {
      GoodMatchText(item.dst, v);
      KeyIsNotSpace(v, d[0]);
      RunEndAt(s, 0, 0, SPACES);
      ReadDestAt(s, 0, 0, NOTHING, item.dst, v);
    } else if item.src == NOTHING {
      RunEndAt(s, 0, 0, SPACES);
      assert s[2] == ' ' && s[3..] == d;
      ReadDestAt(s, 2, 3, NOTHING, item.dst, v);
    } else {
      ParseSourced(item, s);
    }
  }

  lemma {:induction false} MatchOneLine(m: Match, v: Version)
    requires GoodMatch(m, v)
    ensures '\n' !in MatchBody(m, FieldSep(v))
  {
    forall i | 0 <= i < |m.key|
      ensures m.key[i] != '\n'
    {
      assert IsKey(v, m.key[i]);
    }
    var j := JoinWith(m.value, FieldSep(v));
    forall i | 0 <= i < |j|
      ensures j[i] != '\n'
    {
      assert IsValue(v, j[i]);
    }
  }

  lemma {:induction false} LineOfOneLine(item: RouteItem, v: Version)
    requires GoodItem(item, v)
    ensures '\n' !in LineOf(item, v)
  {
    hide GoodMatch, MatchBody;
    MatchOneLine(item.dst, v);
    if item.src != NOTHING {
      MatchOneLine(item.src, v);
    }
  }

  // ---------- whole files ----------

  function LinesOf(items: seq<RouteItem>, v: Version): (lines: seq<Bytes>)
    ensures |lines| == |items|
  {
    seq(|items|, i requires 0 <= i < |items| => LineOf(items[i], v))
  }

  lemma {:induction false} ItemsTextCons(item: RouteItem, rest: seq<RouteItem>, v: Version)
    ensures ItemsText([item] + rest, v) == ItemText(item, v) + ItemsText(rest, v)
  {
    hide ItemText;
    var all := [item] + rest;
    if rest == [] {
      assert all[..0] == [];
    } else {
      var last := |rest| - 1;
      assert all[..|all| - 1] == [item] + rest[..last];
      ItemsTextCons(item, rest[..last], v);
    }
  }

  lemma {:induction false} GoodItemsCons(items: seq<RouteItem>, v: Version)
    requires GoodItems(items, v) && items != []
    ensures GoodItem(items[0], v) && GoodItems(items[1..], v)
  {
  }

  lemma {:induction false} LinesOfCons(items: seq<RouteItem>, v: Version)
    requires items != []
    ensures LinesOf(items, v) == [LineOf(items[0], v)] + LinesOf(items[1..], v)
  {
  }

  lemma {:induction false} SplitItems(items: seq<RouteItem>, v: Version)
    requires GoodItems(items, v)
    ensures SplitOn(ItemsText(items, v), '\n') == LinesOf(items, v) + [[]]
  {
    assert ItemsText([], v) == [] && SplitOn([], '\n') == [[]] && LinesOf([], v) == [];
    hide ItemText, LineOf, GoodItem, GoodItems, ItemsText, SplitOn, LinesOf;
    if items != [] {
      var item, rest := items[0], items[1..];
      assert items == [item] + rest;
      GoodItemsCons(items, v);
      ItemsTextCons(item, rest, v);
      ItemTextIsLine(item, v);
      LineOfOneLine(item, v);
      SplitItems(rest, v);
      SplitHead(LineOf(item, v), '\n', ItemsText(rest, v));
      LinesOfCons(items, v);
    }
  }

  lemma {:induction false} ParseLines(items: seq<RouteItem>, v: Version)
    requires GoodItems(items, v)
    ensures ParseParts(LinesOf(items, v), v) == Parsed(items, 0)
  {
    hide ParseItem, LineOf, GoodItem;
    if items != [] {
      var last := |items| - 1;
      assert GoodItem(items[last], v);
      ParseLines(items[..last], v);
      ParseLineOf(items[last], v);
      assert LinesOf(items, v)[..last] == LinesOf(items[..last], v);
    }
  }

  lemma {:induction false} SkipFirst(first: Bytes, parts: seq<Bytes>, v: Version)
    requires ParseItem(first, v) == Skip
    ensures ParseParts([first] + parts, v) == ParseParts(parts, v)
  {
    hide ParseItem;
    var all := [first] + parts;
    if parts == [] {
      assert all[..0] == [];
    } else {
      var last := |parts| - 1;
      assert all[..|all| - 1] == [first] + parts[..last];
      SkipFirst(first, parts[..last], v);
    }
  }

  lemma {:induction false} SkipLast(parts: seq<Bytes>, v: Version)
    ensures ParseParts(parts + [[]], v) == ParseParts(parts, v)
  {
    var all := parts + [[]];
    assert all[..|all| - 1] == parts;
  }

  lemma {:induction false} HeaderLine()
    ensures '\n' !in HEADER && ParseItem(HEADER, V2) == Skip
  {
    RunEndAt(HEADER, 0, 0, SPACES);
  }

  /** What String prints of a well-formed configuration Parse reads back, and conversely only those come
      back: Parse returns nothing that is not well-formed. */
  lemma {:induction false} ParseString(items: seq<RouteItem>, v: Version)
    ensures ParseOf(Header(v) + ItemsText(items, v), v) == Parsed(items, 0) <==> GoodItems(items, v)
  {
    hide ParseParts, ItemsText, GoodItems, SplitOn;
    var text := ItemsText(items, v);
    ParsePartsGood(SplitOn(Header(v) + text, '\n'), v);
    if GoodItems(items, v) {
      SplitItems(items, v);
      ParseLines(items, v);
      SkipLast(LinesOf(items, v), v);
      if v == V2 {
        HeaderLine();
        SplitHead(HEADER, '\n', text);
        SkipFirst(HEADER, SplitOn(text, '\n'), v);
      } else {
        assert [] + text == text;
      }
    }
  }
}
