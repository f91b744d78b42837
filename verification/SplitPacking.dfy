/** How Split packs: for every metric, whatever its field block looks like, the pieces between unescaped commas
    go into the parts in order, and no part could have taken the next piece. */
module SplitPacking {
  import opened ByteStrings
  import opened Escaping
  import opened Lines
  import opened Splitting
  import opened SplitLaws

  function NonEmpty(segs: seq<Bytes>): seq<Bytes> {
    if segs == [] then []
    else if segs[0] == [] then NonEmpty(segs[1..])
    else [segs[0]] + NonEmpty(segs[1..])
  }

  /** The pieces of a block that hold anything. */
  function Held(s: Bytes): seq<Bytes> {
    NonEmpty(Segments(s))
  }

  function HeldIn(blocks: seq<Bytes>): seq<Bytes> {
    if blocks == [] then [] else Held(blocks[0]) + HeldIn(blocks[1..])
  }

  lemma {:induction false} NonEmptyAppend(a: seq<Bytes>, b: seq<Bytes>)
    ensures NonEmpty(a + b) == NonEmpty(a) + NonEmpty(b)
  {
    if a == [] {
      assert a + b == b;
    } else {
      assert (a + b)[1..] == a[1..] + b;
      NonEmptyAppend(a[1..], b);
    }
  }

  // ---------- segments that can be joined and cut again ----------

  /** No segment has an unescaped comma, and none but the last leaves an escape open. */
  ghost predicate Chain(segs: seq<Bytes>) {
    forall i :: 0 <= i < |segs| ==> if i < |segs| - 1 then Sealed(segs[i], {','}) else NoneBare(segs[i], {','})
  }

  lemma {:induction false} ChainCons(seg: Bytes, more: seq<Bytes>)
    requires Chain(more) && if more == [] then NoneBare(seg, {','}) else Sealed(seg, {','})
    ensures Chain([seg] + more)
  {
  }

  lemma {:induction false} ChainPart(segs: seq<Bytes>, lo: nat, hi: nat)
    requires Chain(segs) && lo <= hi <= |segs|
    ensures Chain(segs[lo..hi])
  {
    forall i | lo <= i < hi
      ensures if i < |segs| - 1 then Sealed(segs[i], {','}) else NoneBare(segs[i], {','})
      ensures NoneBare(segs[i], {','})
    {
    }
  }

  lemma {:induction false} SegmentsChain(s: Bytes)
    ensures Chain(Segments(s))
    decreases |s|
  {
    hide Chain;
    if s == [] {
      ChainOf([]);
    } else {
      var j := IndexBare(s, ',');
      IndexBareLeast(s, ',', j);
      ChainOf([]);
      if j == -1 {
        ChainCons(s, []);
        assert [s] + [] == [s];
      } else {
        SegmentsChain(s[j + 1..]);
        HeadSealed(s, j);
        ChainCons(s[..j], Segments(s[j + 1..]));
      }
    }
  }

  lemma {:induction false} ChainOf(none: seq<Bytes>)
    requires none == []
    ensures Chain(none)
  {
  }

  lemma {:induction false} HeadSealed(s: Bytes, j: nat)
    requires j < |s| && IndexBare(s, ',') == j
    ensures Sealed(s[..j], {','}) && NoneBare(s[..j], {','})
  {
    IndexBareLeast(s, ',', j);
    assert s == s[..j] + s[j..];
    forall k | 0 <= k <= j
      ensures Escaped(s[..j], k) == Escaped(s, k)
    {
      EscapedPrefix(s[..j], s[j..], k);
    }
    forall k | 0 <= k < j
      ensures !BareAt(s[..j], k, {','})
    {
      assert !BareAt(s, k, {','});
    }
  }

  /** Cutting the joined segments gives them back, up to an empty one at the end. */
  lemma {:induction false} CutJoined(run: seq<Bytes>)
    requires Chain(run)
    ensures Segments(Join(run)) == Trimmed(run)
  {
    hide Segments, Join;
    if |run| == 0 {
      EmptyJoin();
      CutWhole([]);
    } else if |run| == 1 {
      EmptyJoin();
      assert run == [run[0]];
      CutWhole(run[0]);
    } else {
      ChainPart(run, 1, |run|);
      assert run[1..|run|] == run[1..];
      hide Chain;
      CutJoined(run[1..]);
      CutAtFirst(run);
    }
  }

  /** `run` without an empty segment at its end. */
  function Trimmed(run: seq<Bytes>): seq<Bytes> {
    if run != [] && run[|run| - 1] == [] then run[..|run| - 1] else run
  }

  lemma {:induction false} CutAtFirst(run: seq<Bytes>)
    requires |run| > 1 && Sealed(run[0], {','}) && Segments(Join(run[1..])) == Trimmed(run[1..])
    ensures Segments(Join(run)) == Trimmed(run)
  {
    hide Segments, Join, Sealed;
    assert run == [run[0]] + run[1..];
    JoinCons(run[0], run[1..]);
    CutHead(run[0], Join(run[1..]));
    assert [run[0]] + Trimmed(run[1..]) == Trimmed(run);
  }

  lemma {:induction false} CutWhole(s: Bytes)
    requires NoneBare(s, {','})
    ensures Segments(s) == if s == [] then [] else [s]
  {
    IndexBareLeast(s, ',', -1);
  }

  lemma {:induction false} CutHead(seg: Bytes, rest: Bytes)
    requires Sealed(seg, {','})
    ensures Segments(seg + [','] + rest) == [seg] + Segments(rest)
  {
    hide Sealed;
    IndexBareAt(seg + [','] + rest, seg, ',', rest);
  }

  lemma {:induction false} HeldOfRun(run: seq<Bytes>)
    requires Chain(run)
    ensures Held(Join(run)) == NonEmpty(run)
    ensures run != [] && run[0] != [] ==> Segments(Join(run)) != [] && Segments(Join(run))[0] == run[0]
  {
    hide Chain, Segments, Join;
    CutJoined(run);
    if run != [] && run[|run| - 1] == [] {
      assert run == run[..|run| - 1] + [[]];
      NonEmptyAppend(run[..|run| - 1], [[]]);
    }
  }

  // ---------- packing ----------

  /** A run that can be a part: it starts with a piece that holds something. */
  ghost predicate Startable(run: seq<Bytes>) {
    Chain(run) && (run == [] || run[0] != [])
  }

  /** `next` starts where the part `run` could not go on. */
  predicate Full(run: seq<Bytes>, next: seq<Bytes>, constant: nat, maxSize: nat) {
    next != [] && |Join(run)| + |next[0]| + constant >= maxSize
  }

  ghost predicate GreedyRuns(runs: seq<seq<Bytes>>, constant: nat, maxSize: nat) {
    && (forall i :: 0 <= i < |runs| ==> runs[i] != [] && Startable(runs[i]))
    && forall i :: 0 <= i < |runs| - 1 ==> Full(runs[i], runs[i + 1], constant, maxSize)
  }

  /** Taking one more segment into a run: With drops empty segments at the start only. */
  function Longer(run: seq<Bytes>, seg: Bytes): seq<Bytes> {
    if run == [] && seg == [] then [] else run + [seg]
  }

  lemma {:induction false} LongerJoin(run: seq<Bytes>, seg: Bytes)
    requires run == [] || run[0] != []
    ensures Join(Longer(run, seg)) == With(Join(run), seg)
    ensures Longer(run, seg) == [] || Longer(run, seg)[0] != []
    ensures NonEmpty(Longer(run, seg)) == NonEmpty(run + [seg])
    ensures run != [] ==> Join(run) != []
  {
    if run != [] {
      JoinMore(run, seg);
    }
  }

  lemma {:induction false} JoinMore(run: seq<Bytes>, seg: Bytes)
    requires run != []
    ensures Join(run + [seg]) == Join(run) + [','] + seg
    ensures run[0] != [] ==> Join(run) != []
  {
    hide Join;
    EmptyJoin();
    var more := run[1..];
    assert run == [run[0]] + more;
    if more == [] {
      JoinCons(run[0], [seg]);
      assert run == [run[0]] && run + [seg] == [run[0]] + [seg];
    } else {
      JoinMore(more, seg);
      JoinCons(run[0], more);
      JoinCons(run[0], more + [seg]);
      assert run + [seg] == [run[0]] + (more + [seg]);
      assert run[0] + [','] + (Join(more) + [','] + seg) == run[0] + [','] + Join(more) + [','] + seg;
    }
  }

  /** The state between two turns of the loop: the run so far, with the segments still to come. */
  lemma {:induction false} LongerChain(run: seq<Bytes>, segs: seq<Bytes>)
    requires segs != [] && Chain(run + segs)
    ensures Chain(run) && Chain([segs[0]]) && Chain(segs[1..]) && Chain(Longer([], segs[0]) + segs[1..])
    ensures Chain(Longer(run, segs[0]) + segs[1..])
  {
    var all := run + segs;
    ChainPart(all, 0, |run|);
    ChainPart(all, |run|, |run| + 1);
    ChainPart(all, |run| + 1, |all|);
    ChainPart(all, |run|, |all|);
    assert all[..|run|] == run && all[|run|..|run| + 1] == [segs[0]];
    assert all[|run| + 1..|all|] == segs[1..] && all[|run|..|all|] == segs;
    assert [segs[0]] + segs[1..] == segs && run + [segs[0]] + segs[1..] == all;
    hide Chain;
    assert [] + segs[1..] == segs[1..];
  }

  lemma {:induction false} PackStart(cur: Bytes, seg: Bytes, constant: nat, maxSize: nat)
    requires Overfull(cur, seg, constant, maxSize)
    ensures forall next: seq<Bytes> :: next != [] && (seg == [] || next[0] == seg) ==> |cur| + |next[0]| + constant >= maxSize
  {
  }

  lemma {:induction false} GreedyCons(run: seq<Bytes>, more: seq<seq<Bytes>>, constant: nat, maxSize: nat)
    requires GreedyRuns(more, constant, maxSize) && run != [] && Startable(run)
    requires more != [] ==> Full(run, more[0], constant, maxSize)
    ensures GreedyRuns([run] + more, constant, maxSize)
  {
    hide Startable, Full;
  }

  lemma {:induction false} OneOf(run: seq<Bytes>)
    requires run == [] || run[0] != []
    ensures One(Join(run)) == if run == [] then [] else [Join(run)]
  {
    LongerJoin(run, []);
  }

  /** Packing makes runs of the segments that are as long as they can be, and drops empty segments only. */
  lemma {:induction false} PackGreedily(segs: seq<Bytes>, run: seq<Bytes>, constant: nat, maxSize: nat)
    returns (runs: seq<seq<Bytes>>)
    requires Chain(run + segs) && (run == [] || run[0] != [])
    ensures Pack(segs, Join(run), constant, maxSize) == Joins(runs)
    ensures GreedyRuns(runs, constant, maxSize)
    ensures run != [] ==> runs != [] && runs[0][0] == run[0]
    ensures NonEmpty(Flatten(runs)) == NonEmpty(run + segs)
    decreases |segs|
  {
    hide Chain, Join, Flatten, Joins, Overfull, With;
    if segs == [] {
      runs := Run(run);
      assert run + segs == run;
      OneOf(run);
      RunsOf(run, [], constant, maxSize);
      assert Run(run) + [] == Run(run);
      NothingLeft();
    } else {
      var seg, rest := segs[0], segs[1..];
      LongerChain(run, segs);
      LongerJoin(run, seg);
      LongerJoin([], seg);
      assert run + segs == run + [seg] + rest;
      if Overfull(Join(run), seg, constant, maxSize) {
        EmptyJoin();
        assert Join(Longer([], seg)) == seg;
        var more := PackGreedily(rest, Longer([], seg), constant, maxSize);
        runs := Run(run) + more;
        OneOf(run);
        PackStart(Join(run), seg, constant, maxSize);
        RunsOf(run, more, constant, maxSize);
        RestHeld(run, seg, rest);
      } else {
        runs := PackGreedily(rest, Longer(run, seg), constant, maxSize);
        NonEmptyAppend(Longer(run, seg), rest);
        NonEmptyAppend(run + [seg], rest);
      }
    }
  }

  lemma {:induction false} EmptyJoin()
    ensures Join([]) == []
    ensures forall seg: Bytes :: With([], seg) == seg && Join([seg]) == seg
  {
  }

  lemma {:induction false} NothingLeft()
    ensures NonEmpty(Flatten([])) == [] && Joins([]) == []
  {
  }

  lemma {:induction false} RestHeld(run: seq<Bytes>, seg: Bytes, rest: seq<Bytes>)
    ensures NonEmpty(run) + NonEmpty(Longer([], seg) + rest) == NonEmpty(run + [seg] + rest)
  {
    NonEmptyAppend(Longer([], seg), rest);
    NonEmptyAppend(run + [seg], rest);
    NonEmptyAppend(run, [seg]);
  }

  lemma {:induction false} RunsOf(run: seq<Bytes>, more: seq<seq<Bytes>>, constant: nat, maxSize: nat)
    requires GreedyRuns(more, constant, maxSize) && Startable(run)
    requires run != [] && more != [] ==> Full(run, more[0], constant, maxSize)
    ensures GreedyRuns(Run(run) + more, constant, maxSize)
    ensures Joins(Run(run) + more) == (if run == [] then [] else [Join(run)]) + Joins(more)
    ensures NonEmpty(Flatten(Run(run) + more)) == NonEmpty(run) + NonEmpty(Flatten(more))
  {
    hide GreedyRuns, Full, Startable, Join;
    if run == [] {
      assert Run(run) + more == more;
    } else {
      GreedyCons(run, more, constant, maxSize);
      assert (Run(run) + more)[1..] == more;
      NonEmptyAppend(run, Flatten(more));
      JoinsCons(Run(run) + more);
    }
  }

  // ---------- Split ----------

  lemma {:induction false} HeldInRuns(runs: seq<seq<Bytes>>)
    requires forall i :: 0 <= i < |runs| ==> Chain(runs[i])
    ensures HeldIn(Joins(runs)) == NonEmpty(Flatten(runs))
  {
    hide Chain, Held;
    if runs != [] {
      JoinsCons(runs);
      assert ([Join(runs[0])] + Joins(runs[1..]))[1..] == Joins(runs[1..]);
      HeldOfRun(runs[0]);
      HeldInRuns(runs[1..]);
      NonEmptyAppend(runs[0], Flatten(runs[1..]));
    }
  }

  /** The runs that the parts of a metric that is too long are made of. */
  lemma {:induction false} PartsAreRuns(m: Metric, maxSize: nat) returns (runs: seq<seq<Bytes>>)
    requires Len(m) > maxSize
    ensures SplitOf(m, maxSize) == Parts(m, Joins(runs)) && GreedyRuns(runs, Constant(m), maxSize)
    ensures NonEmpty(Flatten(runs)) == Held(m.fields)
  {
    hide Chain, GreedyRuns, Flatten, Joins;
    var segs := Segments(m.fields);
    SegmentsChain(m.fields);
    assert [] + segs == segs;
    runs := PackGreedily(segs, [], Constant(m), maxSize);
    EmptyJoin();
  }

  /** Whatever the fields look like: the pieces that hold anything come out in order, each once. */
  lemma {:induction false} SplitKeepsPieces(m: Metric, maxSize: nat)
    ensures HeldIn(Blocks(SplitOf(m, maxSize))) == Held(m.fields)
  {
    hide Held;
    if Len(m) <= maxSize {
      assert Blocks(SplitOf(m, maxSize)) == [m.fields];
      assert [m.fields][1..] == [];
    } else {
      var runs := PartsAreRuns(m, maxSize);
      HeldInRuns(runs);
      assert Blocks(SplitOf(m, maxSize)) == Joins(runs);
    }
  }

  /** No part could have taken one piece more: with the first piece of the next part, and the comma, it would
      be longer than maxSize. */
  lemma {:induction false} SplitIsGreedy(m: Metric, maxSize: nat, i: nat)
    requires i + 1 < |SplitOf(m, maxSize)|
    ensures
      var parts := SplitOf(m, maxSize);
      && Segments(parts[i + 1].fields) != []
      && Len(parts[i]) + |Segments(parts[i + 1].fields)[0]| >= maxSize
  {
    hide Segments;
    var runs := PartsAreRuns(m, maxSize);
    var parts := SplitOf(m, maxSize);
    assert parts[i].fields == Join(runs[i]) && parts[i + 1].fields == Join(runs[i + 1]);
    assert Startable(runs[i + 1]) && Full(runs[i], runs[i + 1], Constant(m), maxSize);
    HeldOfRun(runs[i + 1]);
  }

  /** Whatever the fields look like: a part fits, or is one piece. */
  lemma {:induction false} PartsFit(m: Metric, maxSize: nat, i: nat)
    requires i < |SplitOf(m, maxSize)|
    ensures
      var part := SplitOf(m, maxSize)[i];
      && part == m.(fields := part.fields)
      && (Len(part) <= maxSize || (part.fields != [] && part.fields in Segments(m.fields)))
  {
    hide Segments;
    if Len(m) > maxSize {
      var blocks := Pack(Segments(m.fields), [], Constant(m), maxSize);
      assert blocks[i] in blocks;
      PackSizes(Segments(m.fields), [], Constant(m), maxSize, blocks[i]);
    }
  }
}
