/** From New through the reader to Parse: whatever buffers the stream went through, and whether or not
    metrics were split on the way, the consumer parses the same data back. */
module Pipeline {
  import opened ByteStrings
  import opened Escaping
  import opened Lines
  import opened Building
  import opened FieldLookup
  import opened Splitting
  import opened SplitLaws
  import opened LineReader
  import opened LineGrammar
  import opened FieldScanning
  import opened RoundTrip

  /** m is what New makes from some input that can be read back. */
  ghost predicate Genuine(m: Metric, floatOk: FloatTest) {
    exists x :: Readable(x, floatOk) && Rendered(x) == m
  }

  ghost predicate AllGenuine(ms: seq<Metric>, floatOk: FloatTest) {
    forall i :: 0 <= i < |ms| ==> Genuine(ms[i], floatOk)
  }

  lemma {:induction false} TextsSnoc(xs: seq<Source>, x: Source, precision: string)
    ensures Texts(xs + [x]) == Texts(xs) + Line(Rendered(x))
    ensures ReadBack(xs + [x], precision) == ReadBack(xs, precision) + [Rendered(Rescaled(x, precision))]
  {
    hide Rendered, Line;
    if xs == [] {
      assert (xs + [x])[1..] == [];
    } else {
      assert (xs + [x])[1..] == xs[1..] + [x];
      TextsSnoc(xs[1..], x, precision);
    }
  }

  lemma {:induction false} SourcesOf(ms: seq<Metric>, precision: string, floatOk: FloatTest) returns (xs: seq<Source>)
    requires AllGenuine(ms, floatOk) && PrecisionMultiplier(precision) == 1
    ensures AllReadable(xs, floatOk) && Texts(xs) == LinesOf(ms) && ReadBack(xs, precision) == ms
  {
    hide Rendered, Line, Readable, Rescaled, PrecisionMultiplier;
    if ms == [] {
      xs := [];
    } else {
      var n := |ms| - 1;
      var front := SourcesOf(ms[..n], precision, floatOk);
      assert Genuine(ms[n], floatOk);
      var x :| Readable(x, floatOk) && Rendered(x) == ms[n];
      xs := front + [x];
      TextsSnoc(front, x, precision);
      SameTime(x, precision, floatOk);
    }
  }

  lemma {:induction false} SameTime(x: Source, precision: string, floatOk: FloatTest)
    requires Readable(x, floatOk) && PrecisionMultiplier(precision) == 1
    ensures Rescaled(x, precision) == x
  {
    hide PrecisionMultiplier;
  }

  /** Parse inverts the concatenation of Serialize's outputs, in every precision that leaves times alone. */
  lemma {:induction false} LinesParse(ms: seq<Metric>, defaultTime: int, precision: string, floatOk: FloatTest)
    requires AllGenuine(ms, floatOk) && PrecisionMultiplier(precision) == 1
    ensures ParseOf(LinesOf(ms), defaultTime, precision, floatOk) == Parsed(ms, [])
  {
    hide ParseOf, LinesOf, Texts, Readable, PrecisionMultiplier;
    var xs := SourcesOf(ms, precision, floatOk);
    ParseSerialized(xs, defaultTime, precision, floatOk);
  }

  // ---------- the parts of a split metric ----------

  /** Readable whichever field comes first, and without commas that Split would cut at. */
  ghost predicate Splittable(x: Source, floatOk: FloatTest) {
    Readable(x, floatOk) && forall i :: 0 <= i < |x.fields| ==> GoodStart(x.fields[i].0) && Uncut(x.fields[i])
  }

  lemma {:induction false} FlattenMember<T>(runs: seq<seq<T>>, i: nat, j: nat)
    requires i < |runs| && j < |runs[i]|
    ensures runs[i][j] in Flatten(runs)
  {
    if i > 0 {
      FlattenMember(runs[1..], i - 1, j);
    }
  }

  /** Runs of field texts are the texts of runs of fields. */
  lemma {:induction false} FieldRuns(runs: seq<seq<Bytes>>, fields: seq<Field>) returns (groups: seq<seq<Field>>)
    requires Flatten(runs) == FieldTexts(fields)
    ensures |groups| == |runs| && Flatten(groups) == fields
    ensures forall i :: 0 <= i < |runs| ==> FieldTexts(groups[i]) == runs[i]
  {
    if runs == [] {
      groups := [];
      assert |FieldTexts(fields)| == 0;
    } else {
      hide FieldText;
      var n := |runs[0]|;
      FieldTextsSplit(fields, runs[0], Flatten(runs[1..]));
      var more := FieldRuns(runs[1..], fields[n..]);
      groups := [fields[..n]] + more;
      assert groups[1..] == more;
      assert fields[..n] + fields[n..] == fields;
    }
  }

  lemma {:induction false} PartGenuine(x: Source, groups: seq<seq<Field>>, i: nat, floatOk: FloatTest)
    requires Splittable(x, floatOk) && Flatten(groups) == x.fields && i < |groups| && groups[i] != []
    ensures Genuine(Rendered(x).(fields := FieldBytes(groups[i])), floatOk)
  {
    hide Escape, Shut, Closed, TagBytes, FieldBytes, GoodField, FieldText;
    var y := x.(fields := groups[i]);
    forall j | 0 <= j < |groups[i]|
      ensures FullField(groups[i][j], floatOk) && GoodStart(groups[i][j].0) && OneLineField(groups[i][j])
    {
      FlattenMember(groups, i, j);
    }
    assert Readable(y, floatOk);
  }

  lemma {:induction false} PartsGenuine(x: Source, size: nat, floatOk: FloatTest)
    requires Splittable(x, floatOk)
    ensures AllGenuine(SplitOf(Rendered(x), size), floatOk)
  {
    hide Readable, FieldText, Pack, Segments, FieldBytes, Splittable;
    var m := Rendered(x);
    if Len(m) > size {
      var blocks := Pack(Segments(m.fields), [], Constant(m), size);
      var groups := GroupsOf(x, size, floatOk);
      forall i | 0 <= i < |blocks|
        ensures Genuine(m.(fields := blocks[i]), floatOk)
      {
        PartGenuine(x, groups, i, floatOk);
      }
    } else {
      assert Readable(x, floatOk) by { SplittableIsReadable(x, floatOk); }
      assert Genuine(m, floatOk);
    }
  }

  lemma {:induction false} SplittableIsReadable(x: Source, floatOk: FloatTest)
    requires Splittable(x, floatOk)
    ensures Readable(x, floatOk)
  {
  }

  lemma {:induction false} GroupsOf(x: Source, size: nat, floatOk: FloatTest) returns (groups: seq<seq<Field>>)
    requires Splittable(x, floatOk)
    ensures Flatten(groups) == x.fields
    ensures
      var m := Rendered(x);
      var blocks := Pack(Segments(m.fields), [], Constant(m), size);
      && |groups| == |blocks|
      && forall i :: 0 <= i < |blocks| ==> groups[i] != [] && blocks[i] == FieldBytes(groups[i])
  {
    hide Escape, Segments;
    var texts := FieldTexts(x.fields);
    var m := Rendered(x);
    forall i | 0 <= i < |x.fields|
      ensures texts[i] != [] && Sealed(texts[i], {','})
    {
      FieldTextSealed(x.fields[i], floatOk);
    }
    FieldBytesIsJoin(x.fields);
    SegmentsOfJoin(texts);
    var blocks := Pack(texts, [], Constant(m), size);
    var runs := PackRuns(texts, [], Constant(m), size);
    assert [] + texts == texts;
    groups := FieldRuns(runs, x.fields);
    forall i | 0 <= i < |blocks|
      ensures groups[i] != [] && blocks[i] == FieldBytes(groups[i])
    {
      PackSizes(texts, [], Constant(m), size, blocks[i]);
      FieldBytesIsJoin(groups[i]);
    }
  }

  // ---------- the stream ----------

  /** The metrics the stream carries. */
  function AllPieces(metrics: seq<Metric>, cuts: seq<Cut>): seq<Metric>
    requires |cuts| <= |metrics|
  {
    if cuts == [] then []
    else AllPieces(metrics, cuts[..|cuts| - 1]) + Pieces(metrics[|cuts| - 1], cuts[|cuts| - 1])
  }

  lemma {:induction false} LinesAppend(a: seq<Metric>, b: seq<Metric>)
    ensures LinesOf(a + b) == LinesOf(a) + LinesOf(b)
  {
    hide Line;
    if b == [] {
      assert a + b == a;
    } else {
      var n := |b| - 1;
      assert (a + b)[..|a + b| - 1] == a + b[..n];
      LinesAppend(a, b[..n]);
    }
  }

  lemma {:induction false} OutputIsLines(metrics: seq<Metric>, cuts: seq<Cut>)
    requires |cuts| <= |metrics|
    ensures Output(metrics, cuts) == LinesOf(AllPieces(metrics, cuts))
  {
    if cuts != [] {
      hide Pieces, LinesOf;
      var n := |cuts| - 1;
      OutputIsLines(metrics, cuts[..n]);
      LinesAppend(AllPieces(metrics, cuts[..n]), Pieces(metrics[n], cuts[n]));
    }
  }

  function RenderedAll(xs: seq<Source>): (ms: seq<Metric>)
    ensures |ms| == |xs|
  {
    seq(|xs|, i requires 0 <= i < |xs| => Rendered(xs[i]))
  }

  lemma {:induction false} PiecesGenuine(xs: seq<Source>, cuts: seq<Cut>, floatOk: FloatTest)
    requires |cuts| <= |xs| && forall i :: 0 <= i < |xs| ==> Splittable(xs[i], floatOk)
    ensures AllGenuine(AllPieces(RenderedAll(xs), cuts), floatOk)
  {
    if cuts != [] {
      hide Rendered, SplitOf, Splittable, Genuine;
      var n := |cuts| - 1;
      PiecesGenuine(xs, cuts[..n], floatOk);
      if cuts[n].InParts? {
        PartsGenuine(xs[n], cuts[n].room, floatOk);
      } else {
        WholeGenuine(xs[n], floatOk);
      }
    }
  }

  lemma {:induction false} WholeGenuine(x: Source, floatOk: FloatTest)
    requires Splittable(x, floatOk)
    ensures Genuine(Rendered(x), floatOk)
  {
    hide Rendered, Readable;
    assert Readable(x, floatOk);
  }

  /** The stream of a reader, whatever buffers it was read through, parses to exactly the metrics it was
      made from, in order, each whole or as the parts of one Split; nothing is rejected. */
  lemma {:induction false} StreamParses(xs: seq<Source>, cuts: seq<Cut>, defaultTime: int, precision: string,
      floatOk: FloatTest)
    requires PrecisionMultiplier(precision) == 1
    requires |cuts| == |xs| && forall i :: 0 <= i < |xs| ==> Splittable(xs[i], floatOk)
    ensures ParseOf(Output(RenderedAll(xs), cuts), defaultTime, precision, floatOk) ==
            Parsed(AllPieces(RenderedAll(xs), cuts), [])
  {
    hide ParseOf, Output, AllPieces, Genuine, Splittable, Rendered, PrecisionMultiplier;
    PiecesGenuine(xs, cuts, floatOk);
    OutputIsLines(RenderedAll(xs), cuts);
    LinesParse(AllPieces(RenderedAll(xs), cuts), defaultTime, precision, floatOk);
  }
}
