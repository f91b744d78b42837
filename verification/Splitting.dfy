/** Split (report/metric/metric.go): cutting a metric's fields into metrics of bounded length. */
module Splitting {
  import opened ByteStrings
  import opened Escaping
  import opened Lines
  import opened Separators

  /** The field block cut at its unescaped commas; a comma at the very end cuts nothing off. */
  function Segments(s: Bytes): (segs: seq<Bytes>)
    decreases |s|
  {
    if s == [] then []
    else
      var j := IndexBare(s, ',');
      if j == -1 then [s] else [s[..j]] + Segments(s[j + 1..])
  }

  function Join(segs: seq<Bytes>): Bytes {
    JoinWith(segs, ',')
  }

  /** `cur` with one more segment. */
  function With(cur: Bytes, seg: Bytes): Bytes {
    if cur == [] then seg else cur + [','] + seg
  }

  function One(cur: Bytes): seq<Bytes> {
    if cur == [] then [] else [cur]
  }

  /** Does `seg` not go into the part that holds `cur`? */
  predicate Overfull(cur: Bytes, seg: Bytes, constant: nat, maxSize: nat) {
    |seg| + |cur| + constant >= maxSize
  }

  /** Filling parts from the left: a part is closed when the next segment would reach maxSize. */
  function Pack(segs: seq<Bytes>, cur: Bytes, constant: nat, maxSize: nat): seq<Bytes> {
    if segs == [] then One(cur)
    else if Overfull(cur, segs[0], constant, maxSize) then
      One(cur) + Pack(segs[1..], segs[0], constant, maxSize)
    else Pack(segs[1..], With(cur, segs[0]), constant, maxSize)
  }

  function Constant(m: Metric): nat {
    |m.name| + |m.tags| + |m.t| + 3
  }

  function Parts(m: Metric, blocks: seq<Bytes>): (parts: seq<Metric>)
    ensures |parts| == |blocks|
    ensures forall i :: 0 <= i < |parts| ==> parts[i] == m.(fields := blocks[i])
  {
    seq(|blocks|, i requires 0 <= i < |blocks| => m.(fields := blocks[i]))
  }

  function SplitOf(m: Metric, maxSize: nat): seq<Metric> {
    if Len(m) <= maxSize then [m]
    else Parts(m, Pack(Segments(m.fields), [], Constant(m), maxSize))
  }

  lemma {:induction false} PartsAppend(m: Metric, a: seq<Bytes>, b: seq<Bytes>)
    ensures Parts(m, a + b) == Parts(m, a) + Parts(m, b)
  {
  }

  /** Where the segment that starts at i ends: the next unescaped comma, or the end of the block. */
  method SegmentEnd(s: Bytes, i: nat) returns (j: nat)
    requires i < |s|
    ensures j == if IndexBare(s[i..], ',') == -1 then |s| else IndexBare(s[i..], ',') + i
  {
    var k := IndexUnescapedByte(s[i..], ',');
    if k == -1 {
      j := |s|;
    } else {
      j := k + i;
    }
  }

  /** The body of Split's loop once the next segment is known: close the current part if the segment
      does not go into it, then take the segment. */
  method Place(m: Metric, out: seq<Metric>, fields: Bytes, seg: Bytes, constant: nat, maxSize: nat)
    returns (out': seq<Metric>, fields': Bytes)
    ensures out' == out + Parts(m, if Overfull(fields, seg, constant, maxSize) then One(fields) else [])
    ensures fields' == if Overfull(fields, seg, constant, maxSize) then seg else With(fields, seg)
  {
    out', fields' := out, fields;
    if |seg| + |fields'| + constant >= maxSize {
      if |fields'| > 0 {
        out' := out' + [m.(fields := fields')];
      }
      fields' := [];
    }
    if |fields'| > 0 {
      fields' := fields' + [','];
    }
    fields' := fields' + seg;
  }

  method Split(m: Metric, maxSize: nat) returns (out: seq<Metric>)
    ensures out == SplitOf(m, maxSize)
  {
    hide Foreseen, Segments, Pack, Overfull;
    if Len(m) <= maxSize {
      return [m];
    }
    out := [];
    var constant := |m.name| + |m.tags| + |m.t| + 3;
    var fields: Bytes := [];
    ghost var closed: seq<Bytes> := [];
    ghost var goal := Foreseen(m.fields, 0, closed, fields, constant, maxSize);
    ForeseenEnds(m.fields, 0, closed, fields, constant, maxSize);
    var i := 0;
    while i < |m.fields|
      invariant 0 <= i && out == Parts(m, closed)
      invariant Foreseen(m.fields, i, closed, fields, constant, maxSize) == goal
      decreases |m.fields| - i
    {
      var j := SegmentEnd(m.fields, i);
      var seg := m.fields[i..j];
      ghost var flushed := if Overfull(fields, seg, constant, maxSize) then One(fields) else [];
      ForeseenStep(m.fields, i, j, closed, fields, constant, maxSize);
      PartsAppend(m, closed, flushed);
      out, fields := Place(m, out, fields, seg, constant, maxSize);
      closed := closed + flushed;
      i := j + 1;
    }
    ForeseenEnds(m.fields, i, closed, fields, constant, maxSize);
    PartsAppend(m, closed, One(fields));
    if |fields| > 0 {
      out := out + [m.(fields := fields)];
    }
  }

  /** The blocks that will have been closed in the end, given the state of Split's loop. */
  ghost function Foreseen(s: Bytes, i: nat, closed: seq<Bytes>, cur: Bytes, constant: nat, maxSize: nat): seq<Bytes> {
    closed + Pack(Segments(Tail(s, i)), cur, constant, maxSize)
  }

  lemma {:induction false} ForeseenEnds(s: Bytes, i: nat, closed: seq<Bytes>, cur: Bytes, constant: nat, maxSize: nat)
    ensures i == 0 && closed == [] ==>
              Foreseen(s, i, closed, cur, constant, maxSize) == Pack(Segments(s), cur, constant, maxSize)
    ensures i >= |s| ==> Foreseen(s, i, closed, cur, constant, maxSize) == closed + One(cur)
  {
    assert Tail(s, 0) == s;
    assert [] + Pack(Segments(s), cur, constant, maxSize) == Pack(Segments(s), cur, constant, maxSize);
  }

  lemma {:induction false} ForeseenStep(s: Bytes, i: nat, j: nat, closed: seq<Bytes>, cur: Bytes, constant: nat,
      maxSize: nat)
    requires i < |s|
    requires var k := IndexBare(s[i..], ','); j == if k == -1 then |s| else k + i
    ensures i <= j <= |s|
    ensures
      var over := Overfull(cur, s[i..j], constant, maxSize);
      Foreseen(s, i, closed, cur, constant, maxSize) ==
      Foreseen(s, j + 1, closed + (if over then One(cur) else []), if over then s[i..j] else With(cur, s[i..j]),
               constant, maxSize)
  {
    SegmentsStep(s, i, j);
    var segs := Segments(s[i..]);
    assert segs[1..] == Segments(Tail(s, j + 1));
    assert forall a: seq<Bytes>, b: seq<Bytes> :: closed + (a + b) == closed + a + b;
    assert closed + [] == closed;
  }

  lemma {:induction false} SegmentsStep(s: Bytes, i: nat, j: nat)
    requires i < |s|
    requires var k := IndexBare(s[i..], ','); j == if k == -1 then |s| else k + i
    ensures i <= j <= |s| && Segments(s[i..]) == [s[i..j]] + Segments(Tail(s, j + 1))
  {
    hide IndexBare;
    var t := s[i..];
    var k := IndexBare(t, ',');
    if k == -1 {
      assert s[i..j] == t;
      assert Tail(s, j + 1) == [] && [t] + [] == [t];
    } else {
      assert t[..k] == s[i..j];
      assert t[k + 1..] == Tail(s, j + 1);
    }
  }
}
