/** reader (report/metric/reader.go): streaming metrics through buffers of any length. */
module LineReader {
  import opened ByteStrings
  import opened Lines
  import opened Splitting

  datatype State = Normal | Split | Overflow | SplitOverflow | Done

  // ---------- what is delivered ----------

  /** How a metric is delivered, with the room that the buffer had when its turn came: in one go, as the
      parts of one Split, or as one line that runs over into the next buffers. */
  datatype Cut = Whole(room: nat) | InParts(room: nat) | Overflows(room: nat)

  /** Does splitting help where m does not fit: are there several parts, and does the first one fit? */
  predicate SplitHelps(m: Metric, room: nat) {
    |SplitOf(m, room)| > 1 && Len(SplitOf(m, room)[0]) <= room
  }

  /** The one way in which a metric is to be delivered into this room. */
  function Choice(m: Metric, room: nat): Cut {
    if Len(m) <= room then Whole(room) else if SplitHelps(m, room) then InParts(room) else Overflows(room)
  }

  function Pieces(m: Metric, cut: Cut): seq<Metric> {
    if cut.InParts? then SplitOf(m, cut.room) else [m]
  }

  function LinesOf(ms: seq<Metric>): Bytes {
    if ms == [] then [] else LinesOf(ms[..|ms| - 1]) + Line(ms[|ms| - 1])
  }

  /** The stream: metric by metric, in order, the lines of its pieces. */
  function Output(metrics: seq<Metric>, cuts: seq<Cut>): Bytes
    requires |cuts| <= |metrics|
  {
    if cuts == [] then []
    else Output(metrics, cuts[..|cuts| - 1]) + LinesOf(Pieces(metrics[|cuts| - 1], cuts[|cuts| - 1]))
  }

  /** Each metric is delivered as it has to be: whole if and only if it fits, and cut if and only if it does
      not fit and splitting helps. */
  ghost predicate Proper(metrics: seq<Metric>, cuts: seq<Cut>) {
    |cuts| <= |metrics| && forall i :: 0 <= i < |cuts| ==> cuts[i] == Choice(metrics[i], cuts[i].room)
  }

  /** The room was that of a buffer of length n: all of it, unless the metric went in behind others. */
  predicate RoomOf(cut: Cut, n: nat) {
    if cut.Whole? then cut.room <= n else cut.room == n
  }

  lemma {:induction false} LinesSnoc(ms: seq<Metric>, k: nat)
    requires k < |ms|
    ensures LinesOf(ms[..k + 1]) == LinesOf(ms[..k]) + Line(ms[k])
  {
    assert ms[..k + 1][..k] == ms[..k];
  }

  lemma {:induction false} OutputSnoc(metrics: seq<Metric>, cuts: seq<Cut>, cut: Cut)
    requires |cuts| < |metrics|
    ensures Output(metrics, cuts + [cut]) == Output(metrics, cuts) + LinesOf(Pieces(metrics[|cuts|], cut))
    ensures !cut.InParts? ==> Output(metrics, cuts + [cut]) == Output(metrics, cuts) + Line(metrics[|cuts|])
  {
    assert (cuts + [cut])[..|cuts|] == cuts;
    assert [metrics[|cuts|]][..0] == [];
  }

  lemma {:induction false} ProperSnoc(metrics: seq<Metric>, cuts: seq<Cut>, cut: Cut)
    requires |cuts| < |metrics| && Proper(metrics, cuts) && cut == Choice(metrics[|cuts|], cut.room)
    ensures Proper(metrics, cuts + [cut])
  {
    hide Choice;
  }

  // ---------- the reader ----------

  class Reader {
    const metrics: seq<Metric>
    var splitMetrics: seq<Metric>
    var buf: Bytes
    var state: State
    var iM: nat
    var iSM: nat
    var iB: nat
    ghost var cuts: seq<Cut>
    ghost var delivered: Bytes

    /** The metric that is being delivered in parts was cut at this size. */
    ghost predicate Cutting()
      reads this
    {
      && iM < |metrics| && |cuts| == iM + 1 && Proper(metrics, cuts)
      && cuts[iM].InParts? && splitMetrics == Pieces(metrics[iM], cuts[iM])
      && iSM < |splitMetrics|
    }

    ghost function Before(): Bytes
      requires Cutting()
      reads this
    {
      Output(metrics, cuts[..iM]) + LinesOf(splitMetrics[..iSM])
    }

    ghost predicate Valid()
      reads this
    {
      && Proper(metrics, cuts)
      && match state
         case Normal =>
           iM < |metrics| && |cuts| == iM && iB == 0 && delivered == Output(metrics, cuts)
         case Overflow =>
           && iM < |metrics| && |cuts| == iM + 1 && cuts[iM].Overflows?
           && buf == Line(metrics[iM]) && iB < |buf|
           && delivered == Output(metrics, cuts[..iM]) + buf[..iB]
         case Split =>
           Cutting() && iB == 0 && delivered == Before()
         case SplitOverflow =>
           Cutting() && buf == Line(splitMetrics[iSM]) && iB < |buf| && delivered == Before() + buf[..iB]
         case Done =>
           iM == |metrics| && |cuts| == |metrics| && delivered == Output(metrics, cuts)
    }

    /** What is left to do; every Read with room for a byte makes this smaller. */
    ghost function Left(): (nat, nat, nat, nat)
      requires Valid()
      reads this
    {
      match state
      case Normal => (|metrics| - iM, 1, 0, 0)
      case Overflow => (|metrics| - iM, 0, 0, |buf| - iB)
      case Split => (|metrics| - iM, 0, |splitMetrics| - iSM, Len(splitMetrics[iSM]))
      case SplitOverflow => (|metrics| - iM, 0, |splitMetrics| - iSM, |buf| - iB)
      case Done => (0, 0, 0, 0)
    }

    constructor (metrics: seq<Metric>)
      requires metrics != []
      ensures Valid() && this.metrics == metrics && state == Normal && delivered == []
    {
      this.metrics := metrics;
      splitMetrics, buf, state, iM, iSM, iB := [], [], Normal, 0, 0, 0;
      cuts, delivered := [], [];
    }

    /** The last line of the metric at iM is out. */
    method NextMetric() returns (eof: bool)
      requires iM < |metrics| && iB == 0 && |cuts| == iM + 1 && Proper(metrics, cuts)
      requires delivered == Output(metrics, cuts)
      modifies this`iM, this`state
      ensures Valid() && eof == state.Done? && (state.Done? || state.Normal?) && iM == old(iM) + 1
    {
      iM := iM + 1;
      eof := iM == |metrics|;
      state := if eof then Done else Normal;
    }

    method Read(p: array<char>) returns (n: nat, eof: bool)
      requires Valid()
      modifies this, p
      ensures Valid() && n <= p.Length
      ensures delivered == old(delivered) + p[..n] && p[n..] == old(p[n..])
      ensures old(cuts) <= cuts && eof == state.Done?
      ensures forall j :: |old(cuts)| <= j < |cuts| ==> RoomOf(cuts[j], p.Length)
      ensures
        match old(state)
        case Done => n == 0
        case Split => n == Least(Len(old(splitMetrics[iSM])), p.Length)
        case Normal => Filled(old(iM), n, p.Length)
        case _ => n == Least(old(|buf| - iB), p.Length)
      ensures p.Length > 0 && !old(state.Done?) ==> n > 0 && Below(Left(), old(Left()))
    {
      match state {
        case Done => n, eof := 0, true;
        case Normal => n, eof := ReadNormal(p);
        case Split => n, eof := ReadSplit(p);
        case SplitOverflow => n, eof := ReadSplitOverflow(p);
        case Overflow => n, eof := ReadOverflow(p);
      }
    }

    /** What a Read in the normal state leaves: it wrote as many whole metrics as fit, or, where not even the
        metric at `from` fits, its first part or as much of its line as there is room for. */
    ghost predicate Filled(from: nat, n: nat, length: nat)
      requires Valid()
      reads this
    {
      match state
      case Done => from < iM
      case Normal => from < iM && Len(metrics[iM]) > length - n
      case Split => iM == from && iSM == 1 && n == Len(splitMetrics[0]) && cuts[from] == InParts(length)
      case Overflow => iM == from && n == length && cuts[from] == Overflows(length)
      case SplitOverflow => false
    }

    /** One turn of the sunny-day loop: a metric that fits is written whole. */
    method WriteOne(p: array<char>, i: nat) returns (n: nat, eof: bool)
      requires Valid() && state.Normal? && i + Len(metrics[iM]) <= p.Length
      modifies p, this`iM, this`state, this`cuts, this`delivered
      ensures Valid() && eof == state.Done? && (state.Normal? || state.Done?)
      ensures iM == old(iM) + 1 && 0 < n && i + n <= p.Length
      ensures cuts == old(cuts) + [Whole(p.Length - i)] && delivered == old(delivered) + p[i..i + n]
      ensures p[..i] == old(p[..i]) && p[i + n..] == old(p[i + n..])
    {
      hide Output, Proper, SplitHelps, Line;
      ghost var cut := Whole(p.Length - i);
      ProperSnoc(metrics, cuts, cut);
      OutputSnoc(metrics, cuts, cut);
      n := WriteLine(metrics[iM], p, i);
      delivered := delivered + Line(metrics[iM]);
      cuts := cuts + [cut];
      eof := NextMetric();
    }

    /** The sunny-day loop. */
    method WriteWhole(p: array<char>) returns (i: nat, eof: bool)
      requires Valid() && state.Normal?
      modifies p, this`iM, this`state, this`cuts, this`delivered
      ensures Valid() && i <= p.Length && eof == state.Done? && (state.Normal? || state.Done?)
      ensures delivered == old(delivered) + p[..i] && p[i..] == old(p[i..])
      ensures old(cuts) <= cuts && iM >= old(iM)
      ensures forall j :: |old(cuts)| <= j < |cuts| ==> RoomOf(cuts[j], p.Length)
      ensures i > 0 <==> iM > old(iM)
      ensures i == 0 ==> cuts == old(cuts) && state.Normal?
      ensures state.Normal? ==> Len(metrics[iM]) > p.Length - i
    {
      hide Output, Proper;
      i, eof := 0, false;
      while Len(metrics[iM]) <= p.Length - i
        invariant Valid() && state.Normal? && i <= p.Length && iM >= old(iM)
        invariant delivered == old(delivered) + p[..i] && p[i..] == old(p[i..])
        invariant old(cuts) <= cuts
        invariant forall j :: |old(cuts)| <= j < |cuts| ==> RoomOf(cuts[j], p.Length)
        invariant i == 0 ==> cuts == old(cuts)
        invariant i > 0 <==> iM > old(iM)
        decreases |metrics| - iM
      {
        var n;
        ghost var written := p[..i];
        ghost var tail := p[i..];
        n, eof := WriteOne(p, i);
        assert p[..i + n] == written + p[i..i + n];
        assert p[i + n..] == tail[n..];
        i := i + n;
        if eof {
          return;
        }
      }
    }

    method ReadNormal(p: array<char>) returns (n: nat, eof: bool)
      requires Valid() && state.Normal?
      modifies this, p
      ensures Valid() && n <= p.Length
      ensures delivered == old(delivered) + p[..n] && p[n..] == old(p[n..])
      ensures old(cuts) <= cuts && eof == state.Done?
      ensures forall j :: |old(cuts)| <= j < |cuts| ==> RoomOf(cuts[j], p.Length)
      ensures Filled(old(iM), n, p.Length)
      ensures p.Length > 0 ==> n > 0 && Below(Left(), old(Left()))
    {
      hide Output, LinesOf, Proper, Pieces, SplitHelps;
      n, eof := WriteWhole(p);
      if n == 0 {
        n := TrySplit(p);
        if n == 0 {
          n := StartOverflow(p);
        }
      }
    }

    /** Nothing fits: the metric is cut into parts for this buffer if and only if that gives several and the
        first one fits; that part is written. */
    method TrySplit(p: array<char>) returns (n: nat)
      requires Valid() && state.Normal? && Len(metrics[iM]) > p.Length
      modifies this, p
      ensures Valid() && n <= p.Length && iM == old(iM)
      ensures n > 0 <==> SplitHelps(metrics[iM], p.Length)
      ensures n == 0 ==> state.Normal? && delivered == old(delivered) && cuts == old(cuts) && p[..] == old(p[..])
      ensures n > 0 ==> state.Split? && splitMetrics == SplitOf(metrics[iM], p.Length) && iSM == 1
      ensures n > 0 ==> cuts == old(cuts) + [InParts(p.Length)]
      ensures n > 0 ==> p[..n] == Line(splitMetrics[0]) && p[n..] == old(p[n..])
      ensures n > 0 ==> n == Len(splitMetrics[0]) && delivered == old(delivered) + p[..n]
    {
      hide Output, Line, SplitOf, Proper;
      n := 0;
      var tmp := Splitting.Split(metrics[iM], p.Length);
      if |tmp| > 1 {
        splitMetrics := tmp;
        if Len(splitMetrics[0]) <= p.Length {
          n := WriteLine(splitMetrics[0], p, 0);
          iSM := 1;
          state := Split;
          LinesSnoc(splitMetrics, 0);
          ghost var before := cuts;
          ProperSnoc(metrics, cuts, InParts(p.Length));
          cuts := cuts + [InParts(p.Length)];
          assert cuts[..iM] == before && splitMetrics[..0] == [];
          delivered := delivered + Line(splitMetrics[0]);
        } else {
          state := Normal;
          iSM := 0;
        }
      }
    }

    /** A single metric that is larger than the buffer. */
    method StartOverflow(p: array<char>) returns (n: nat)
      requires Valid() && state.Normal? && Len(metrics[iM]) > p.Length && !SplitHelps(metrics[iM], p.Length)
      modifies this, p
      ensures Valid() && state.Overflow? && n == p.Length && iM == old(iM)
      ensures cuts == old(cuts) + [Overflows(p.Length)]
      ensures delivered == old(delivered) + p[..n]
    {
      hide Output, LinesOf, Line, SplitHelps, Proper;
      ProperSnoc(metrics, cuts, Overflows(p.Length));
      buf := Serialize(metrics[iM]);
      n := CopyRest(p, buf, iB);
      iB := iB + n;
      state := Overflow;
      ghost var before := cuts;
      cuts := cuts + [Overflows(p.Length)];
      assert cuts[..iM] == before;
      delivered := delivered + p[..n];
    }

    method ReadSplit(p: array<char>) returns (n: nat, eof: bool)
      requires Valid() && state.Split?
      modifies this, p
      ensures Valid() && n <= p.Length
      ensures delivered == old(delivered) + p[..n] && p[n..] == old(p[n..])
      ensures cuts == old(cuts) && eof == state.Done?
      ensures n == Least(Len(old(splitMetrics[iSM])), p.Length)
      ensures p.Length > 0 ==> n > 0 && Below(Left(), old(Left()))
    {
      hide Output, LinesOf, Proper, Pieces, Line, SplitOf;
      eof := false;
      if Len(splitMetrics[iSM]) <= p.Length {
        n := WriteLine(splitMetrics[iSM], p, 0);
        delivered := delivered + Line(splitMetrics[iSM]);
        eof := NextPart();
      } else {
        // This buffer is smaller than the one the metric was cut for.
        buf := Serialize(splitMetrics[iSM]);
        n := CopyRest(p, buf, iB);
        iB := iB + n;
        delivered := delivered + p[..n];
        state := SplitOverflow;
      }
    }

    /** The line of the part at iSM is out. */
    method NextPart() returns (eof: bool)
      requires Cutting() && iB == 0 && delivered == Before() + Line(splitMetrics[iSM])
      modifies this`iM, this`iSM, this`state
      ensures Valid() && eof == state.Done?
      ensures if old(iSM) + 1 == |splitMetrics| then iM == old(iM) + 1 && (state.Done? || state.Normal?)
              else iM == old(iM) && iSM == old(iSM) + 1 && state.Split?
    {
      hide Output, LinesOf, Proper, Pieces, Line, SplitOf;
      LinesSnoc(splitMetrics, iSM);
      iSM := iSM + 1;
      if iSM == |splitMetrics| {
        assert cuts[..iM] + [cuts[iM]] == cuts;
        assert splitMetrics[..iSM] == splitMetrics;
        OutputSnoc(metrics, cuts[..iM], cuts[iM]);
        iSM := 0;
        eof := NextMetric();
      } else {
        state := Split;
        eof := false;
      }
    }

    method ReadSplitOverflow(p: array<char>) returns (n: nat, eof: bool)
      requires Valid() && state.SplitOverflow?
      modifies this, p
      ensures Valid() && n <= p.Length
      ensures delivered == old(delivered) + p[..n] && p[n..] == old(p[n..])
      ensures cuts == old(cuts) && eof == state.Done?
      ensures n == Least(old(|buf| - iB), p.Length)
      ensures p.Length > 0 ==> n > 0 && Below(Left(), old(Left()))
    {
      hide Output, LinesOf, Proper, Pieces, Line, SplitOf;
      eof := false;
      n := CopyRest(p, buf, iB);
      delivered := delivered + p[..n];
      iB := iB + n;
      if iB >= |buf| {
        iB := 0;
        eof := NextPart();
      }
    }

    method ReadOverflow(p: array<char>) returns (n: nat, eof: bool)
      requires Valid() && state.Overflow?
      modifies this, p
      ensures Valid() && n <= p.Length
      ensures delivered == old(delivered) + p[..n] && p[n..] == old(p[n..])
      ensures cuts == old(cuts) && eof == state.Done?
      ensures n == Least(old(|buf| - iB), p.Length)
      ensures p.Length > 0 ==> n > 0 && Below(Left(), old(Left()))
    {
      hide Output, LinesOf, Proper, Pieces, Line, SplitOf;
      eof := false;
      n := CopyRest(p, buf, iB);
      delivered := delivered + p[..n];
      iB := iB + n;
      if iB >= |buf| {
        iB := 0;
        OutputSnoc(metrics, cuts[..iM], cuts[iM]);
        assert cuts[..iM] + [cuts[iM]] == cuts;
        eof := NextMetric();
      }
    }
  }

  /** SerializeTo where the whole line fits. */
  method WriteLine(m: Metric, p: array<char>, i: nat) returns (n: nat)
    requires i + Len(m) <= p.Length
    modifies p
    ensures n == Len(m) && p[i..i + n] == Line(m)
    ensures p[..i] == old(p[..i]) && p[i + n..] == old(p[i + n..])
  {
    n := SerializeTo(m, p, i);
  }

  /** copy(p, buf[from:]) */
  method CopyRest(p: array<char>, buf: Bytes, from: nat) returns (n: nat)
    requires from <= |buf|
    modifies p
    ensures n == Least(|buf| - from, p.Length)
    ensures buf[..from + n] == buf[..from] + p[..n] && p[n..] == old(p[n..])
  {
    n := Copy(p, 0, buf[from..]);
  }

  ghost predicate Below(a: (nat, nat, nat, nat), b: (nat, nat, nat, nat)) {
    || a.0 < b.0
    || (a.0 == b.0 && (a.1 < b.1 || (a.1 == b.1 && (a.2 < b.2 || (a.2 == b.2 && a.3 < b.3)))))
  }

  ghost predicate FromSize(cut: Cut, sizes: nat -> nat) {
    exists k :: RoomOf(cut, sizes(k))
  }

  /** The rooms are those of the buffers that were used. */
  ghost predicate FromSizes(cuts: seq<Cut>, sizes: nat -> nat) {
    forall i :: 0 <= i < |cuts| ==> FromSize(cuts[i], sizes)
  }

  /** A consumer that reads until io.EOF with buffers of any positive lengths: it ends, and what it has then
      is the whole stream. A metric comes uncut only if it fitted into the room that was left, or if splitting
      did not help at the buffer it met. */
  method ReadAll(metrics: seq<Metric>, sizes: nat -> nat) returns (text: Bytes, ghost cuts: seq<Cut>)
    requires metrics != [] && forall k :: sizes(k) > 0
    ensures |cuts| == |metrics| && Proper(metrics, cuts) && FromSizes(cuts, sizes)
    ensures text == Output(metrics, cuts)
  {
    var r := new Reader(metrics);
    var eof, k := false, 0;
    text := [];
    while !eof
      invariant r.Valid() && r.metrics == metrics && text == r.delivered && eof == r.state.Done?
      invariant FromSizes(r.cuts, sizes)
      decreases r.Left().0, r.Left().1, r.Left().2, r.Left().3
    {
      hide Output, LinesOf, Pieces, Proper, Line, RoomOf;
      var p := new char[sizes(k)];
      var n;
      ghost var before := r.cuts;
      n, eof := r.Read(p);
      FromSizesMore(before, r.cuts, sizes, k);
      text := text + p[..n];
      k := k + 1;
    }
    cuts := r.cuts;
  }

  lemma {:induction false} FromSizesMore(before: seq<Cut>, cuts: seq<Cut>, sizes: nat -> nat, k: nat)
    requires FromSizes(before, sizes) && before <= cuts
    requires forall j :: |before| <= j < |cuts| ==> RoomOf(cuts[j], sizes(k))
    ensures FromSizes(cuts, sizes)
  {
    forall i | 0 <= i < |cuts|
      ensures FromSize(cuts[i], sizes)
    {
      if i < |before| {
        assert cuts[i] == before[i];
      } else {
        assert RoomOf(cuts[i], sizes(k));
      }
    }
  }

  /** Buffers that take every metric whole never cut one. */
  lemma {:induction false} RoomForAll(metrics: seq<Metric>, cuts: seq<Cut>, sizes: nat -> nat)
    requires |cuts| == |metrics| && Proper(metrics, cuts) && FromSizes(cuts, sizes)
    requires forall i, k :: 0 <= i < |metrics| ==> Len(metrics[i]) <= sizes(k)
    ensures forall i :: 0 <= i < |cuts| ==> cuts[i].Whole?
    ensures Output(metrics, cuts) == LinesOf(metrics)
  {
    hide SplitHelps, Len;
    forall i | 0 <= i < |cuts|
      ensures cuts[i].Whole?
    {
      assert FromSize(cuts[i], sizes);
      var k :| RoomOf(cuts[i], sizes(k));
      assert Len(metrics[i]) <= sizes(k);
    }
    WholeOutput(metrics, cuts);
  }

  lemma {:induction false} WholeOutput(metrics: seq<Metric>, cuts: seq<Cut>)
    requires |cuts| == |metrics| && forall i :: 0 <= i < |cuts| ==> cuts[i].Whole?
    ensures Output(metrics, cuts) == LinesOf(metrics)
  {
    hide Line;
    if cuts != [] {
      var n := |cuts| - 1;
      WholeOutput(metrics[..n], cuts[..n]);
      OutputPrefix(metrics, cuts[..n], n);
      LinesSnoc([metrics[n]], 0);
      assert [metrics[n]][..0] == [] && [metrics[n]][..1] == [metrics[n]];
    }
  }

  lemma {:induction false} OutputPrefix(metrics: seq<Metric>, cuts: seq<Cut>, n: nat)
    requires |cuts| <= n <= |metrics|
    ensures Output(metrics[..n], cuts) == Output(metrics, cuts)
  {
    hide LinesOf, Pieces;
    if cuts != [] {
      OutputPrefix(metrics, cuts[..|cuts| - 1], n);
    }
  }
}
