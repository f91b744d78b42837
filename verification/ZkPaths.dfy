/** The mapping between ZooKeeper paths and etcd paths (controllers/java/zk): parseZKPathv4 and
    getZKPath0. */
module ZkPaths {
  import opened ByteStrings
  import opened Separators

  // ---------- path.Clean and path.Join ----------

  const DOT := "."

  const DOTDOT := ".."

  /** The elements that are left when the segments are walked from the left. */
  function Walk(segs: seq<Bytes>, stack: seq<Bytes>, rooted: bool): seq<Bytes>
    decreases |segs|
  {
    if segs == [] then stack
    else if segs[0] == [] || segs[0] == DOT then Walk(segs[1..], stack, rooted)
    else if segs[0] == DOTDOT then
      if stack != [] && stack[|stack| - 1] != DOTDOT then Walk(segs[1..], stack[..|stack| - 1], rooted)
      else if rooted then Walk(segs[1..], stack, rooted)
      else Walk(segs[1..], stack + [DOTDOT], rooted)
    else Walk(segs[1..], stack + [segs[0]], rooted)
  }

  predicate Rooted(s: Bytes) {
    s != [] && s[0] == '/'
  }

  function CleanPath(s: Bytes): Bytes {
    var out := Walk(SplitOn(s, '/'), [], Rooted(s));
    if out == [] then if Rooted(s) then "/" else DOT
    else (if Rooted(s) then "/" else []) + JoinWith(out, '/')
  }

  function NonEmpty(elems: seq<Bytes>): seq<Bytes> {
    if elems == [] then [] else (if elems[0] == [] then [] else [elems[0]]) + NonEmpty(elems[1..])
  }

  function PathJoin(elems: seq<Bytes>): Bytes {
    if NonEmpty(elems) == [] then [] else CleanPath(JoinWith(NonEmpty(elems), '/'))
  }

  // ---------- parseZKPathv4 ----------

  datatype ZkTyp = Config | Route | Instance

  const BIZ := "/biz/"

  function HasPrefix(s: Bytes, p: Bytes): bool {
    |p| <= |s| && s[..|p|] == p
  }

  function TypOf(typStr: Bytes): Option<ZkTyp> {
    if typStr == "daemon" || typStr == "instance" then Some(Instance)
    else if typStr == "policy" then Some(Route)
    else if typStr == "config" then Some(Config)
    else None
  }

  function TypName(typ: ZkTyp): Bytes {
    match typ
    case Instance => "instances"
    case Route => "route"
    case Config => "config"
  }

  /** java/zk/route/, java/zk/config/ and java/zk/instances/ */
  function PrefixOf(typ: ZkTyp): Bytes {
    "java/zk/" + TypName(typ) + "/"
  }

  /** None is any of the errors. */
  function ParseZKPathV4(zkPath: Bytes): Option<(ZkTyp, Bytes)> {
    if !HasPrefix(zkPath, BIZ) then None
    else
      var parts := SplitOn(zkPath[|BIZ|..], '/');
      if |parts| < 3 then None
      else match TypOf(parts[2])
        case None => None
        case Some(typ) =>
          var service := JoinWith(parts[0..2], '.');
          Some((typ, PathJoin([PrefixOf(typ), "4", service] + parts[3..])))
  }

  // ---------- getZKPath0 ----------

  /** strings.LastIndex of a dot. */
  function LastDot(s: Bytes): (r: int)
    ensures -1 <= r < |s| && (r >= 0 ==> s[r] == '.')
  {
    if s == [] then -1 else if s[|s| - 1] == '.' then |s| - 1 else LastDot(s[..|s| - 1])
  }

  function GetZKPath0(path: Bytes): Option<Bytes> {
    var parts := SplitOn(path, '/');
    if |parts| < 3 then None
    else
      var (typ, version, cluster) := (parts[0], parts[1], parts[2]);
      var other := JoinWith(parts[3..], '/');
      if typ != "config" && typ != "route" then None
      else if version == "2" then
        if typ == "route" then if other != [] then None else Some(PathJoin(["/", "service", cluster]))
        else Some(PathJoin(["/", typ, cluster, other]))
      else if version == "4" then
        var idx := LastDot(cluster);
        if idx < 0 || idx + 1 == |cluster| then None
        else Some(PathJoin(["/biz", cluster[..idx], cluster[idx + 1..], if typ == "route" then "policy/" else "config/", other]))
      else None
  }

  const REL := "java/zk/"

  /** The etcd path without the part that all mapped paths share. */
  function Strip(path: Bytes): Bytes {
    if HasPrefix(path, REL) then path[|REL|..] else path
  }

  // ---------- clean segments ----------

  predicate CleanSegment(s: Bytes) {
    s != [] && s != DOT && s != DOTDOT && '/' !in s
  }

  ghost predicate CleanSegments(segs: seq<Bytes>) {
    forall i :: 0 <= i < |segs| ==> CleanSegment(segs[i])
  }

  /** Segments of which some may be empty. */
  ghost predicate Tame(segs: seq<Bytes>) {
    forall i :: 0 <= i < |segs| ==> segs[i] == [] || CleanSegment(segs[i])
  }

  lemma {:induction false} TameCons(segs: seq<Bytes>)
    requires Tame(segs) && segs != []
    ensures (segs[0] == [] || CleanSegment(segs[0])) && Tame(segs[1..])
    ensures NonEmpty(segs) == if segs[0] == [] then NonEmpty(segs[1..]) else [segs[0]] + NonEmpty(segs[1..])
  {
  }

  lemma {:induction false} WalkClean(segs: seq<Bytes>, stack: seq<Bytes>, rooted: bool)
    requires Tame(segs)
    ensures Walk(segs, stack, rooted) == stack + NonEmpty(segs)
    decreases |segs|
  {
    if segs == [] {
      assert stack + [] == stack;
    } else {
      hide Tame, NonEmpty;
      TameCons(segs);
      if segs[0] == [] {
        WalkClean(segs[1..], stack, rooted);
      } else {
        WalkClean(segs[1..], stack + [segs[0]], rooted);
        assert stack + [segs[0]] + NonEmpty(segs[1..]) == stack + ([segs[0]] + NonEmpty(segs[1..]));
      }
    }
  }

  lemma {:induction false} NonEmptyAll(segs: seq<Bytes>)
    requires forall i :: 0 <= i < |segs| ==> segs[i] != []
    ensures NonEmpty(segs) == segs
  {
    if segs != [] {
      NonEmptyAll(segs[1..]);
    }
  }

  lemma {:induction false} NonEmptyAppend(a: seq<Bytes>, b: seq<Bytes>)
    ensures NonEmpty(a + b) == NonEmpty(a) + NonEmpty(b)
  {
    if a == [] {
      assert a + b == b;
    } else {
      assert (a + b)[1..] == a[1..] + b;
      NonEmptyAppend(a[1..], b);
    }
  }

  lemma {:induction false} JoinAppend(a: seq<Bytes>, b: seq<Bytes>, sep: char)
    requires a != [] && b != []
    ensures JoinWith(a + b, sep) == JoinWith(a, sep) + [sep] + JoinWith(b, sep)
  {
    if |a| == 1 {
      assert (a + b)[1..] == b;
    } else {
      assert (a + b)[1..] == a[1..] + b;
      JoinAppend(a[1..], b, sep);
    }
  }

  // ---------- joining clean pieces ----------

  lemma {:induction false} CleanTame(s: Bytes)
    requires Tame(SplitOn(s, '/')) && NonEmpty(SplitOn(s, '/')) != []
    ensures CleanPath(s) == (if Rooted(s) then "/" else []) + JoinWith(NonEmpty(SplitOn(s, '/')), '/')
  {
    hide SplitOn, JoinWith;
    WalkClean(SplitOn(s, '/'), [], Rooted(s));
    assert [] + NonEmpty(SplitOn(s, '/')) == NonEmpty(SplitOn(s, '/'));
  }

  lemma {:induction false} SplitSegments(segs: seq<Bytes>)
    requires CleanSegments(segs) && segs != []
    ensures SplitOn(JoinWith(segs, '/'), '/') == segs && JoinWith(segs, '/') != [] && NonEmpty(segs) == segs
  {
    forall p | p in segs
      ensures '/' !in p
    {
      var i :| 0 <= i < |segs| && segs[i] == p;
      assert CleanSegment(segs[i]);
    }
    SplitJoin(segs, '/');
    assert CleanSegment(segs[0]);
    forall i | 0 <= i < |segs|
      ensures segs[i] != []
    {
      assert CleanSegment(segs[i]);
    }
    NonEmptyAll(segs);
  }

  /** The segments of all elements of a path, without the empty ones. */
  function Pieces(elems: seq<Bytes>): seq<Bytes> {
    if elems == [] then [] else NonEmpty(SplitOn(elems[0], '/')) + Pieces(elems[1..])
  }

  ghost predicate TameElems(elems: seq<Bytes>) {
    forall i :: 0 <= i < |elems| ==> Tame(SplitOn(elems[i], '/'))
  }

  lemma {:induction false} SplitElems(elems: seq<Bytes>)
    requires elems != [] && TameElems(elems)
    ensures NonEmpty(SplitOn(JoinWith(elems, '/'), '/')) == Pieces(elems) && Tame(SplitOn(JoinWith(elems, '/'), '/'))
  {
    hide SplitOn, NonEmpty;
    if |elems| == 1 {
      assert Pieces(elems) == NonEmpty(SplitOn(elems[0], '/')) + [];
    } else {
      SplitElems(elems[1..]);
      var tail := JoinWith(elems[1..], '/');
      SplitTwo(elems[0], '/', tail);
      NonEmptyAppend(SplitOn(elems[0], '/'), SplitOn(tail, '/'));
    }
  }

  lemma {:induction false} PiecesOfNonEmpty(elems: seq<Bytes>)
    requires TameElems(elems)
    ensures Pieces(NonEmpty(elems)) == Pieces(elems) && TameElems(NonEmpty(elems))
  {
    if elems != [] {
      PiecesOfNonEmpty(elems[1..]);
      if elems[0] == [] {
        assert SplitOn(elems[0], '/') == [[]];
        assert NonEmpty([[]]) == [];
        assert NonEmpty(elems) == NonEmpty(elems[1..]) && Pieces(elems) == Pieces(elems[1..]);
      } else {
        assert NonEmpty(elems) == [elems[0]] + NonEmpty(elems[1..]);
      }
    }
  }

  /** path.Join gives the segments of its elements, one slash between any two. */
  lemma {:induction false} PathJoinPieces(elems: seq<Bytes>)
    requires elems != [] && elems[0] != [] && TameElems(elems) && Pieces(elems) != []
    ensures PathJoin(elems) == (if Rooted(elems[0]) then "/" else []) + JoinWith(Pieces(elems), '/')
  {
    var kept := NonEmpty(elems);
    assert kept[0] == elems[0];
    hide SplitOn, CleanPath, NonEmpty, Pieces, Tame;
    PiecesOfNonEmpty(elems);
    SplitElems(kept);
    var s := JoinWith(kept, '/');
    assert s[0] == elems[0][0];
    CleanTame(s);
  }

  lemma {:induction false} PiecesAppend(a: seq<Bytes>, b: seq<Bytes>)
    ensures Pieces(a + b) == Pieces(a) + Pieces(b)
  {
    hide NonEmpty, SplitOn;
    if a == [] {
      assert a + b == b;
    } else {
      assert (a + b)[1..] == a[1..] + b;
      PiecesAppend(a[1..], b);
    }
  }

  /** Clean segments are their own pieces, one by one or joined. */
  lemma {:induction false} PiecesOfClean(segs: seq<Bytes>)
    requires CleanSegments(segs)
    ensures Pieces(segs) == segs && TameElems(segs)
    ensures Pieces([JoinWith(segs, '/')]) == segs && Tame(SplitOn(JoinWith(segs, '/'), '/'))
  {
    if segs == [] {
      assert SplitOn([], '/') == [[]];
      assert NonEmpty([[]]) == [];
    } else {
      SplitSegments(segs);
      assert Pieces([JoinWith(segs, '/')]) == NonEmpty(segs) + [];
      OneByOne(segs);
    }
  }

  lemma {:induction false} OneByOne(segs: seq<Bytes>)
    requires CleanSegments(segs)
    ensures Pieces(segs) == segs && TameElems(segs)
  {
    if segs != [] {
      assert CleanSegment(segs[0]);
      SplitHead(segs[0], '/', []);
      NonEmptyAll([segs[0]]);
      hide NonEmpty, SplitOn;
      OneByOne(segs[1..]);
    }
  }

  // ---------- the round trip ----------

  lemma {:induction false} PrefixSplit(t: Bytes, prefix: Bytes)
    requires '/' !in t && prefix == "java" + ['/'] + ("zk" + ['/'] + (t + ['/'] + []))
    ensures SplitOn(prefix, '/') == ["java", "zk", t] + [[]]
  {
    SplitHead([], '/', []);
    hide SplitOn;
    SplitHead("java", '/', "zk" + ['/'] + (t + ['/'] + []));
    SplitHead("zk", '/', t + ['/'] + []);
    SplitHead(t, '/', []);
  }

  lemma {:induction false} PrefixText(typ: ZkTyp)
    ensures PrefixOf(typ) == "java" + ['/'] + ("zk" + ['/'] + (TypName(typ) + ['/'] + []))
    ensures TypName(typ) != [] && TypName(typ)[0] != '.' && '/' !in TypName(typ)
  {
    assert "java/zk/" == "java" + ['/'] + "zk" + ['/'];
  }

  lemma {:induction false} PrefixPieces(typ: ZkTyp)
    ensures Pieces([PrefixOf(typ)]) == ["java", "zk", TypName(typ)] && Tame(SplitOn(PrefixOf(typ), '/'))
  {
    hide SplitOn, PrefixOf, TypName;
    var t := TypName(typ);
    PrefixText(typ);
    PrefixSplit(t, PrefixOf(typ));
    NonEmptyAppend(["java", "zk", t], [[]]);
    NonEmptyAll(["java", "zk", t]);
    assert NonEmpty([[]]) == [];
  }

  lemma {:induction false} ServiceClean(b: Bytes, a: Bytes)
    requires CleanSegment(b) && CleanSegment(a)
    ensures CleanSegment(b + ['.'] + a)
  {
    assert b != [] && a != [] ==> |b + ['.'] + a| >= 3;
  }

  lemma {:induction false} RelJoin(segs: seq<Bytes>)
    requires segs != []
    ensures JoinWith(["java", "zk"] + segs, '/') == REL + JoinWith(segs, '/')
  {
    assert ["java", "zk"][1..] == ["zk"];
    assert JoinWith(["java", "zk"], '/') + ['/'] == REL;
    JoinAppend(["java", "zk"], segs, '/');
  }

  lemma {:induction false} EtcdJoin(typ: ZkTyp, tail: seq<Bytes>)
    requires CleanSegments(tail) && tail != []
    ensures PathJoin([PrefixOf(typ)] + tail) == REL + JoinWith([TypName(typ)] + tail, '/')
  {
    hide SplitOn, PathJoin, Pieces, Tame, JoinWith, TypName;
    var elems := [PrefixOf(typ)] + tail;
    PrefixPieces(typ);
    PiecesOfClean(tail);
    PiecesAppend([PrefixOf(typ)], tail);
    PathJoinPieces(elems);
    assert Pieces(elems) == ["java", "zk"] + ([TypName(typ)] + tail);
    RelJoin([TypName(typ)] + tail);
    assert !Rooted(PrefixOf(typ));
  }

  /** What parseZKPathv4 makes of a path with clean segments. */
  lemma {:induction false} EtcdPath(zkPath: Bytes, parts: seq<Bytes>, typ: ZkTyp)
    requires HasPrefix(zkPath, BIZ) && parts == SplitOn(zkPath[|BIZ|..], '/')
    requires CleanSegments(parts) && |parts| >= 3 && TypOf(parts[2]) == Some(typ)
    ensures
      var segs := [TypName(typ), "4", parts[0] + ['.'] + parts[1]] + parts[3..];
      && CleanSegments(segs)
      && ParseZKPathV4(zkPath) == Some((typ, REL + JoinWith(segs, '/')))
  {
    hide SplitOn, PathJoin, TypOf;
    var service := parts[0] + ['.'] + parts[1];
    assert parts[0..2] == [parts[0], parts[1]] && [parts[0], parts[1]][1..] == [parts[1]];
    assert JoinWith(parts[0..2], '.') == service;
    assert CleanSegment(parts[0]) && CleanSegment(parts[1]);
    ServiceClean(parts[0], parts[1]);
    var tail := ["4", service] + parts[3..];
    assert CleanSegments(tail);
    EtcdJoin(typ, tail);
    assert [PrefixOf(typ)] + tail == [PrefixOf(typ), "4", service] + parts[3..];
    assert [TypName(typ)] + tail == [TypName(typ), "4", service] + parts[3..];
  }

  lemma {:induction false} LastDotBehind(x: Bytes, a: Bytes)
    ensures LastDot(x + a) == if LastDot(a) >= 0 then |x| + LastDot(a) else LastDot(x)
  {
    if a == [] {
      assert x + a == x;
    } else {
      var n := |a| - 1;
      assert (x + a)[..|x + a| - 1] == x + a[..n];
      LastDotBehind(x, a[..n]);
    }
  }

  lemma {:induction false} LastDotLast(a: Bytes, k: nat)
    requires LastDot(a) < k < |a|
    ensures a[k] != '.'
  {
    if k < |a| - 1 {
      LastDotLast(a[..|a| - 1], k);
    }
  }

  lemma {:induction false} LastDotAt(b: Bytes, a: Bytes)
    ensures LastDot(b + ['.'] + a) == |b| + 1 + LastDot(a)
    ensures LastDot(a) == -1 <==> '.' !in a
  {
    LastDotBehind(b + ['.'], a);
    forall k | LastDot(a) < k < |a|
      ensures a[k] != '.'
    {
      LastDotLast(a, k);
    }
  }

  /** The ZooKeeper path that getZKPath0 builds. */
  lemma {:induction false} ZkJoin(biz: Bytes, app: Bytes, route: bool, rest: seq<Bytes>)
    requires CleanSegment(biz) && CleanSegment(app) && CleanSegments(rest)
    ensures
      PathJoin(["/biz", biz, app, if route then "policy/" else "config/", JoinWith(rest, '/')]) ==
        BIZ + JoinWith([biz, app, if route then "policy" else "config"] + rest, '/')
  {
    hide SplitOn, PathJoin, Pieces, Tame;
    var kind := if route then "policy" else "config";
    var text := JoinWith(rest, '/');
    var mid, last := [biz, app], [text];
    var elems := ["/biz"] + mid + [kind + ['/']] + last;
    KindPieces(kind);
    BizPieces();
    PiecesOfClean(mid);
    PiecesOfClean(rest);
    PiecesAppend(["/biz"], mid);
    PiecesAppend(["/biz"] + mid, [kind + ['/']]);
    PiecesAppend(["/biz"] + mid + [kind + ['/']], last);
    PathJoinPieces(elems);
    var segs := [biz, app, kind] + rest;
    assert Pieces(elems) == ["biz"] + segs;
    JoinAppend(["biz"], segs, '/');
    assert elems == ["/biz", biz, app, kind + ['/'], text];
    assert "/" + ("biz" + ['/'] + JoinWith(segs, '/')) == BIZ + JoinWith(segs, '/');
    assert kind + ['/'] == if route then "policy/" else "config/";
    assert Rooted("/biz");
  }

  lemma {:induction false} KindPieces(kind: Bytes)
    requires CleanSegment(kind)
    ensures Pieces([kind + ['/']]) == [kind] && Tame(SplitOn(kind + ['/'], '/'))
  {
    SplitHead(kind, '/', []);
    assert kind + ['/'] + [] == kind + ['/'];
    SplitHead([], '/', []);
    assert NonEmpty([[]]) == [];
    NonEmptyAppend([kind], [[]]);
    NonEmptyAll([kind]);
  }

  lemma {:induction false} BizPieces()
    ensures Pieces(["/biz"]) == ["biz"] && Tame(SplitOn("/biz", '/'))
  {
    SplitHead([], '/', "biz");
    assert [] + ['/'] + "biz" == "/biz";
    SplitHead("biz", '/', []);
    NonEmptyAll(["biz"]);
    assert NonEmpty([[], "biz"]) == NonEmpty(["biz"]);
  }

  /** The version 4 branch of getZKPath0. */
  function Returned(cluster: Bytes, route: bool, rest: seq<Bytes>): Option<Bytes> {
    var idx := LastDot(cluster);
    if idx < 0 || idx + 1 == |cluster| then None
    else Some(PathJoin(["/biz", cluster[..idx], cluster[idx + 1..], if route then "policy/" else "config/",
                        JoinWith(rest, '/')]))
  }

  /** What getZKPath0 makes of a stripped path of version 4 with clean segments. */
  lemma {:induction false} ZkPath(segs: seq<Bytes>, route: bool)
    requires CleanSegments(segs) && |segs| >= 3 && segs[1] == "4"
    requires segs[0] == if route then "route" else "config"
    ensures
      GetZKPath0(JoinWith(segs, '/')) == Returned(segs[2], route, segs[3..])
  {
    hide SplitOn, PathJoin, JoinWith, LastDot;
    SplitSegments(segs);
  }

  predicate KindIs(kind: Bytes, route: bool) {
    kind == if route then "policy" else "config"
  }

  /** parseZKPathv4 on a policy or config path, and getZKPath0 on its stripped result. */
  lemma {:induction false} BackAndForth(zkPath: Bytes, parts: seq<Bytes>, route: bool)
    requires HasPrefix(zkPath, BIZ) && parts == SplitOn(zkPath[|BIZ|..], '/')
    requires CleanSegments(parts) && |parts| >= 3 && KindIs(parts[2], route)
    ensures ParseZKPathV4(zkPath).Some?
    ensures
      GetZKPath0(Strip(ParseZKPathV4(zkPath).value.1)) == Returned(parts[0] + ['.'] + parts[1], route, parts[3..])
  {
    hide SplitOn, JoinWith, Returned, ParseZKPathV4, GetZKPath0;
    var typ := if route then Route else Config;
    EtcdPath(zkPath, parts, typ);
    var segs := [TypName(typ), "4", parts[0] + ['.'] + parts[1]] + parts[3..];
    assert segs[3..] == parts[3..];
    var text := REL + JoinWith(segs, '/');
    assert text[..|REL|] == REL && text[|REL|..] == JoinWith(segs, '/');
    ZkPath(segs, route);
  }

  lemma {:induction false} DotFreeClean(s: Bytes)
    requires s != [] && '.' !in s && '/' !in s
    ensures CleanSegment(s)
  {
    assert DOT[0] == '.' && DOTDOT[0] == '.';
  }

  lemma {:induction false} PathFromParts(zkPath: Bytes)
    requires HasPrefix(zkPath, BIZ)
    ensures zkPath == BIZ + JoinWith(SplitOn(zkPath[|BIZ|..], '/'), '/')
  {
    JoinSplit(zkPath[|BIZ|..], '/');
  }

  lemma {:induction false} NotEmpty(s: Bytes)
    requires CleanSegment(s)
    ensures s != [] && '/' !in s
  {
  }

  lemma {:induction false} LongSegment(b: Bytes, x: Bytes)
    requires CleanSegment(b) && '/' !in x
    ensures CleanSegment(b + ['.'] + x)
  {
    var s := b + ['.'] + x;
    if |s| == 2 {
      assert s[0] == b[0];
      assert b == [b[0]];
    }
  }

  /** With a dot in the application's name the path that comes back is a different one. */
  lemma {:induction false} OtherPath(b: Bytes, a: Bytes, route: bool, rest: seq<Bytes>)
    requires CleanSegment(b) && CleanSegment(a) && CleanSegments(rest) && 0 <= LastDot(a) < |a| - 1
    ensures
      var (biz, app) := (b + ['.'] + a[..LastDot(a)], a[LastDot(a) + 1..]);
      var kind := if route then "policy" else "config";
      PathJoin(["/biz", biz, app, if route then "policy/" else "config/", JoinWith(rest, '/')]) !=
        BIZ + JoinWith([b, a, kind] + rest, '/')
  {
    hide SplitOn, PathJoin, JoinWith, LastDot, CleanSegment;
    var i := LastDot(a);
    var biz, app := b + ['.'] + a[..i], a[i + 1..];
    var kind := if route then "policy" else "config";
    NotEmpty(a);
    forall k | i < k < |a|
      ensures a[k] != '.'
    {
      LastDotLast(a, k);
    }
    DotFreeClean(app);
    LongSegment(b, a[..i]);
    ZkJoin(biz, app, route, rest);
    var x, y := [biz, app, kind] + rest, [b, a, kind] + rest;
    assert CleanSegment(kind) by { DotFreeClean(kind); }
    SplitSegments(x);
    SplitSegments(y);
    assert x[1] == app && y[1] == a && |app| < |a|;
    assert (BIZ + JoinWith(x, '/'))[|BIZ|..] == JoinWith(x, '/');
    assert (BIZ + JoinWith(y, '/'))[|BIZ|..] == JoinWith(y, '/');
  }

  function Kind(route: bool): Bytes {
    if route then "policy" else "config"
  }

  lemma {:induction false} DotFreeReturns(b: Bytes, a: Bytes, route: bool, rest: seq<Bytes>)
    requires CleanSegment(b) && CleanSegment(a) && CleanSegments(rest) && '.' !in a
    ensures Returned(b + ['.'] + a, route, rest) == Some(BIZ + JoinWith([b, a, Kind(route)] + rest, '/'))
  {
    hide SplitOn, PathJoin, JoinWith, LastDot, CleanSegment;
    var cluster := b + ['.'] + a;
    LastDotAt(b, a);
    NotEmpty(a);
    assert cluster[..|b|] == b && cluster[|b| + 1..] == a;
    ZkJoin(b, a, route, rest);
  }

  lemma {:induction false} DottedReturns(b: Bytes, a: Bytes, route: bool, rest: seq<Bytes>)
    requires CleanSegment(b) && CleanSegment(a) && CleanSegments(rest) && '.' in a
    ensures Returned(b + ['.'] + a, route, rest) != Some(BIZ + JoinWith([b, a, Kind(route)] + rest, '/'))
  {
    hide SplitOn, PathJoin, JoinWith, LastDot, CleanSegment;
    var cluster := b + ['.'] + a;
    LastDotAt(b, a);
    var i := LastDot(a);
    if i + 1 < |a| {
      assert cluster[..|b| + 1 + i] == b + ['.'] + a[..i] && cluster[|b| + 2 + i..] == a[i + 1..];
      OtherPath(b, a, route, rest);
    }
  }

  /** For every policy or config path of version 4 with clean segments, going to etcd and back gives the
      path itself if and only if there is no dot in the name of the application. */
  lemma {:induction false} RoundTrip(zkPath: Bytes, parts: seq<Bytes>, route: bool)
    requires HasPrefix(zkPath, BIZ) && parts == SplitOn(zkPath[|BIZ|..], '/')
    requires CleanSegments(parts) && |parts| >= 3 && KindIs(parts[2], route)
    ensures ParseZKPathV4(zkPath).Some?
    ensures GetZKPath0(Strip(ParseZKPathV4(zkPath).value.1)) == Some(zkPath) <==> '.' !in parts[1]
  {
    hide SplitOn, JoinWith, Returned, ParseZKPathV4, GetZKPath0, CleanSegment;
    BackAndForth(zkPath, parts, route);
    PathFromParts(zkPath);
    assert parts == [parts[0], parts[1], Kind(route)] + parts[3..];
    if '.' in parts[1] {
      DottedReturns(parts[0], parts[1], route, parts[3..]);
    } else {
      DotFreeReturns(parts[0], parts[1], route, parts[3..]);
    }
  }

  /** What comes back instead: the name of the application loses all but what is behind its last dot to the
      business. */
  lemma {:induction false} DottedComesBack(zkPath: Bytes, parts: seq<Bytes>, route: bool, front: Bytes, last: Bytes)
    requires HasPrefix(zkPath, BIZ) && parts == SplitOn(zkPath[|BIZ|..], '/')
    requires CleanSegments(parts) && |parts| >= 3 && KindIs(parts[2], route)
    requires parts[1] == front + ['.'] + last && last != [] && '.' !in last
    ensures ParseZKPathV4(zkPath).Some?
    ensures GetZKPath0(Strip(ParseZKPathV4(zkPath).value.1)) ==
            Some(BIZ + JoinWith([parts[0] + ['.'] + front, last, Kind(route)] + parts[3..], '/'))
  {
    hide SplitOn, JoinWith, ParseZKPathV4, GetZKPath0, PathJoin, LastDot;
    BackAndForth(zkPath, parts, route);
    assert CleanSegment(parts[0]) && CleanSegment(parts[1]);
    var biz := parts[0] + ['.'] + front;
    var cluster := parts[0] + ['.'] + parts[1];
    assert cluster == biz + ['.'] + last;
    assert cluster[..|biz|] == biz && cluster[|biz| + 1..] == last;
    LastDotAt(biz, last);
    LongSegment(parts[0], front);
    assert '/' !in last by { assert forall c :: c in last ==> c in parts[1]; }
    DotFreeClean(last);
    ZkJoin(biz, last, route, parts[3..]);
  }

  /** For example: the business x and the application a.b come back as x.a and b. */
  lemma {:induction false} DottedExample(zkPath: Bytes)
    requires zkPath == "/biz/x/a.b/config"
    ensures ParseZKPathV4(zkPath).Some?
    ensures GetZKPath0(Strip(ParseZKPathV4(zkPath).value.1)) == Some("/biz/x.a/b/config")
  {
    var parts: seq<Bytes> := ["x", "a.b", "config"];
    ExampleParts(zkPath);
    ExampleStrings(parts);
    ExampleText("x.a", "b");
    hide SplitOn, JoinWith, ParseZKPathV4, GetZKPath0, HasPrefix, CleanSegments, Strip;
    assert Kind(false) == "config";
    DottedComesBack(zkPath, parts, false, "a", "b");
  }

  lemma {:induction false} ExampleStrings(parts: seq<Bytes>)
    requires parts == ["x", "a.b", "config"]
    ensures parts[1] == "a" + ['.'] + "b" && '.' !in "b" && KindIs(parts[2], false)
    ensures [parts[0] + ['.'] + "a", "b", "config"] + parts[3..] == ["x.a", "b", "config"]
    ensures BIZ + "x.a" + ['/'] + "b" + "/config" == "/biz/x.a/b/config"
  {
    assert "x" + ['.'] + "a" == "x.a";
  }

  lemma {:induction false} ExampleText(biz: Bytes, app: Bytes)
    ensures BIZ + JoinWith([biz, app, "config"], '/') == BIZ + biz + ['/'] + app + "/config"
  {
    assert [biz, app, "config"][1..] == [app, "config"] && [app, "config"][1..] == ["config"];
    assert JoinWith([app, "config"], '/') == app + ['/'] + "config";
    assert "/config" == ['/'] + "config";
  }

  lemma {:induction false} ExampleParts(zkPath: Bytes)
    requires zkPath == "/biz/x/a.b/config"
    ensures
      var parts: seq<Bytes> := ["x", "a.b", "config"];
      HasPrefix(zkPath, BIZ) && parts == SplitOn(zkPath[|BIZ|..], '/') && CleanSegments(parts)
  {
    var parts: seq<Bytes> := ["x", "a.b", "config"];
    assert |"a.b"| == 3 && CleanSegments(parts);
    hide SplitOn, JoinWith, CleanSegment;
    SplitSegments(parts);
    ExampleText("x", "a.b");
    BehindPrefix(JoinWith(parts, '/'));
    assert zkPath == BIZ + JoinWith(parts, '/') by { ExamplePath(zkPath); }
  }

  lemma {:induction false} BehindPrefix(text: Bytes)
    ensures HasPrefix(BIZ + text, BIZ) && (BIZ + text)[|BIZ|..] == text
  {
  }

  lemma {:induction false} ExamplePath(zkPath: Bytes)
    requires zkPath == "/biz/x/a.b/config"
    ensures zkPath == BIZ + "x" + ['/'] + "a.b" + "/config"
  {
  }

  /** So the mapping to etcd is injective on those paths. */
  lemma {:induction false} Injective(p: Bytes, q: Bytes, ps: seq<Bytes>, qs: seq<Bytes>, x: bool, y: bool)
    requires HasPrefix(p, BIZ) && ps == SplitOn(p[|BIZ|..], '/') && CleanSegments(ps) && |ps| >= 3 && KindIs(ps[2], x)
    requires HasPrefix(q, BIZ) && qs == SplitOn(q[|BIZ|..], '/') && CleanSegments(qs) && |qs| >= 3 && KindIs(qs[2], y)
    requires '.' !in ps[1] && '.' !in qs[1] && ParseZKPathV4(p) == ParseZKPathV4(q)
    ensures p == q
  {
    hide SplitOn, ParseZKPathV4, GetZKPath0;
    RoundTrip(p, ps, x);
    RoundTrip(q, qs, y);
  }

  /** Instance paths are mapped to etcd and refused on the way back: the written paths say "instances", and
      getZKPath0 knows neither that nor, had it said "instance", any way to sync it. */
  lemma {:induction false} InstanceRefused(zkPath: Bytes, parts: seq<Bytes>)
    requires HasPrefix(zkPath, BIZ) && parts == SplitOn(zkPath[|BIZ|..], '/')
    requires CleanSegments(parts) && |parts| >= 3 && (parts[2] == "daemon" || parts[2] == "instance")
    ensures ParseZKPathV4(zkPath).Some? && ParseZKPathV4(zkPath).value.0 == Instance
    ensures GetZKPath0(Strip(ParseZKPathV4(zkPath).value.1)) == None
  {
    hide SplitOn, PathJoin, JoinWith, LastDot, ParseZKPathV4;
    EtcdPath(zkPath, parts, Instance);
    var segs := [TypName(Instance), "4", parts[0] + ['.'] + parts[1]] + parts[3..];
    var text := REL + JoinWith(segs, '/');
    assert text[..|REL|] == REL && text[|REL|..] == JoinWith(segs, '/');
    SplitSegments(segs);
    assert "instances"[0] == 'i' && "config"[0] == 'c' && "route"[0] == 'r';
  }
}
