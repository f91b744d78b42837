/** A metric as its four byte blocks, how New fills them and how a line is written out
    (report/metric/metric.go). */
module Lines {
  import opened ByteStrings

  /** The value type, the aggregate flag and the cached time of the original are not kept. */
  datatype Metric = Metric(name: Bytes, tags: Bytes, fields: Bytes, t: Bytes)

  /** A field value. Every signed Go integer widens to Int, every unsigned one to Uint; a float is
      known by the text that strconv.AppendFloat gives it. */
  datatype Value = Int(i: int) | Uint(u: nat) | Bool(b: bool) | Text(s: Bytes) | Float(text: Bytes)

  type Tag = (Bytes, Bytes)
  type Field = (Bytes, Value)

  // ---------- the line ----------

  function Line(m: Metric): Bytes {
    m.name + m.tags + [' '] + m.fields + [' '] + m.t + ['\n']
  }

  function Len(m: Metric): (n: nat)
    ensures n == |Line(m)|
  {
    |m.name| + |m.tags| + |m.fields| + |m.t| + 3
  }

  /** Go's copy(dst[at:], src). */
  method Copy(dst: array<char>, at: nat, src: Bytes) returns (n: nat)
    requires at <= dst.Length
    modifies dst
    ensures n == Least(|src|, dst.Length - at)
    ensures dst[..] == old(dst[..])[..at] + src[..n] + old(dst[..])[at + n..]
    ensures dst[..at + n] == old(dst[..at]) + src[..n]
  {
    n := Least(|src|, dst.Length - at);
    forall k | 0 <= k < n {
      dst[at + k] := src[k];
    }
  }

  /** dst[at] = c. */
  method Put(dst: array<char>, at: nat, c: char) returns (next: nat)
    requires at < dst.Length
    modifies dst
    ensures next == at + 1 && dst[..next] == old(dst[..at]) + [c]
  {
    dst[at] := c;
    next := at + 1;
  }

  method Serialize(m: Metric) returns (line: Bytes)
    ensures line == Line(m)
  {
    var tmp := new char[Len(m)];
    var i := 0;
    var n := Copy(tmp, i, m.name);
    i := i + n;
    assert tmp[..i] == m.name;
    n := Copy(tmp, i, m.tags);
    i := i + n;
    assert tmp[..i] == m.name + m.tags;
    i := Put(tmp, i, ' ');
    assert tmp[..i] == m.name + m.tags + [' '];
    n := Copy(tmp, i, m.fields);
    i := i + n;
    assert tmp[..i] == m.name + m.tags + [' '] + m.fields;
    i := Put(tmp, i, ' ');
    assert tmp[..i] == m.name + m.tags + [' '] + m.fields + [' '];
    n := Copy(tmp, i, m.t);
    i := i + n;
    assert tmp[..i] == m.name + m.tags + [' '] + m.fields + [' '] + m.t;
    i := Put(tmp, i, '\n');
    line := tmp[..];
  }

  /** `now` is `before` with the first n bytes of `line` written from `at` on. */
  ghost predicate Written(before: Bytes, now: Bytes, at: nat, line: Bytes, n: nat) {
    at + n <= |before| && n <= |line| && now == before[..at] + line[..n] + before[at + n..]
  }

  lemma {:induction false} WriteMore(before: Bytes, now: Bytes, next: Bytes, at: nat, line: Bytes, n: nat, part: Bytes)
    requires Written(before, now, at, line, n)
    requires n + |part| <= |line| && part == line[n..n + |part|] && at + n + |part| <= |before|
    requires next == now[..at + n] + part + now[at + n + |part|..]
    ensures Written(before, next, at, line, n + |part|)
  {
    assert line[..n] + part == line[..n + |part|];
  }

  lemma {:induction false} WrittenNothing(now: Bytes, at: nat, line: Bytes)
    requires at <= |now|
    ensures Written(now, now, at, line, 0)
  {
  }

  lemma {:induction false} ConcatThree(a: Bytes, b: Bytes, c: Bytes)
    ensures Concat([a, b, c]) == a + b + c
  {
    assert [a, b, c] == [] + [a] + [b] + [c];
    ConcatSnoc([], a);
    ConcatSnoc([] + [a], b);
    ConcatSnoc([] + [a] + [b], c);
  }

  lemma {:induction false} LineIsConcat(m: Metric)
    ensures Concat([m.name, m.tags, [' '], m.fields, [' '], m.t, ['\n']]) == Line(m)
  {
    var front, back := [m.name, m.tags, [' ']], [m.fields, [' '], m.t];
    ConcatThree(m.name, m.tags, [' ']);
    ConcatThree(m.fields, [' '], m.t);
    ConcatAppend(front, back);
    ConcatSnoc(front + back, ['\n']);
    assert front + back + [['\n']] == [m.name, m.tags, [' '], m.fields, [' '], m.t, ['\n']];
  }

  lemma {:induction false} NoPieces(pieces: seq<Bytes>)
    ensures Concat(pieces[..0]) == [] && pieces[..|pieces|] == pieces
  {
  }

  lemma {:induction false} PieceOf(pieces: seq<Bytes>, k: nat)
    requires k < |pieces|
    ensures
      var n := |Concat(pieces[..k])|;
      && |Concat(pieces[..k + 1])| == n + |pieces[k]| <= |Concat(pieces)|
      && Concat(pieces)[n..n + |pieces[k]|] == pieces[k]
  {
    ConcatStep(pieces, k);
  }

  lemma {:induction false} PieceFits(before: Bytes, now: Bytes, at: nat, line: Bytes, n: nat, piece: Bytes)
    requires Written(before, now, at, line, n) && n + |piece| <= |line| && line[n..n + |piece|] == piece
    ensures |now| == |before|
    ensures forall c :: 0 <= c <= |piece| ==> piece[..c] == line[n..n + c]
  {
  }

  /** One guarded copy: the next piece of the line, as far as it fits. */
  method CopyPiece(ghost before: Bytes, ghost line: Bytes, dst: array<char>, at: nat, n: nat, piece: Bytes)
    returns (c: nat)
    requires Written(before, dst[..], at, line, n) && at + n < dst.Length
    requires n + |piece| <= |line| && line[n..n + |piece|] == piece
    modifies dst
    ensures c == Least(|piece|, dst.Length - at - n)
    ensures Written(before, dst[..], at, line, n + c)
  {
    ghost var now := dst[..];
    PieceFits(before, now, at, line, n, piece);
    hide Written;
    c := Copy(dst, at + n, piece);
    WriteMore(before, now, dst[..], at, line, n, piece[..c]);
  }

  /** Copies the pieces one after another, each behind the same end-of-buffer test. */
  method CopyPieces(pieces: seq<Bytes>, dst: array<char>, at: nat) returns (n: nat)
    requires at <= dst.Length
    modifies dst
    ensures n == Least(|Concat(pieces)|, dst.Length - at)
    ensures Written(old(dst[..]), dst[..], at, Concat(pieces), n)
  {
    ghost var before, line := dst[..], Concat(pieces);
    NoPieces(pieces);
    WrittenNothing(before, at, line);
    hide Concat, Written;
    n := 0;
    for k := 0 to |pieces|
      invariant n == Least(|Concat(pieces[..k])|, dst.Length - at)
      invariant n <= |line| && Written(before, dst[..], at, line, n)
    {
      PieceOf(pieces, k);
      if at + n >= dst.Length {
        return;
      }
      var c := CopyPiece(before, line, dst, at, n, pieces[k]);
      n := n + c;
    }
  }

  /** SerializeTo(dst[at:]): as much of the line as fits, and nothing else is touched. The seven
      guarded copies of the original are the turns of CopyPieces' loop. */
  method SerializeTo(m: Metric, dst: array<char>, at: nat) returns (n: nat)
    requires at <= dst.Length
    modifies dst
    ensures n == Least(Len(m), dst.Length - at)
    ensures Written(old(dst[..]), dst[..], at, Line(m), n)
  {
    LineIsConcat(m);
    n := CopyPieces([m.name, m.tags, [' '], m.fields, [' '], m.t, ['\n']], dst, at);
  }
}
