/** Byte strings and the two wrappers that stand for Go's "value, error" returns.
    A byte is a `char`; nothing below depends on the width of a byte, and every statement
    holds for all strings, hence for those whose characters are all below 256. */
module ByteStrings {

  type Bytes = seq<char>

  datatype Option<+T> = None | Some(value: T)

  datatype Result<+T, +E> = Ok(value: T) | Err(error: E)

  const MAX_INT64 := 0x7FFF_FFFF_FFFF_FFFF
  const MIN_INT64 := -0x8000_0000_0000_0000

  /** Two's complement wrap-around of a 64-bit signed product. */
  function WrapInt64(n: int): (r: int)
    ensures MIN_INT64 <= r <= MAX_INT64
    ensures MIN_INT64 <= n <= MAX_INT64 ==> r == n
  {
    (n - MIN_INT64) % 0x1_0000_0000_0000_0000 + MIN_INT64
  }

  /** Go's bytes.IndexByte from position `from` on: the least index of `b`, or |s|. */
  function IndexByte(s: Bytes, b: char, from: nat): (k: nat)
    requires from <= |s|
    ensures from <= k <= |s| && (k < |s| ==> s[k] == b)
    decreases |s| - from
  {
    if from == |s| || s[from] == b then from else IndexByte(s, b, from + 1)
  }

  lemma {:induction false} IndexByteLeast(s: Bytes, b: char, from: nat, k: nat)
    requires from <= |s| && from <= k < IndexByte(s, b, from)
    ensures s[k] != b
    decreases k - from
  {
    if from < k {
      IndexByteLeast(s, b, from + 1, k);
    }
  }

  lemma {:induction false} IndexByteAt(s: Bytes, b: char, from: nat, k: nat)
    requires from <= k < |s| && s[k] == b && forall j :: from <= j < k ==> s[j] != b
    ensures IndexByte(s, b, from) == k
    decreases k - from
  {
    if from < k {
      IndexByteAt(s, b, from + 1, k);
    }
  }

  function Least(a: int, b: int): int {
    if a <= b then a else b
  }

  /** s[at..], or nothing when `at` lies past the end. */
  function Tail(s: Bytes, at: nat): Bytes {
    if at <= |s| then s[at..] else []
  }

  function Concat(parts: seq<Bytes>): Bytes {
    if parts == [] then [] else parts[0] + Concat(parts[1..])
  }

  lemma {:induction false} ConcatAppend(a: seq<Bytes>, b: seq<Bytes>)
    ensures Concat(a + b) == Concat(a) + Concat(b)
  {
    if a == [] {
      assert a + b == b;
    } else {
      assert (a + b)[1..] == a[1..] + b;
      ConcatAppend(a[1..], b);
    }
  }

  lemma {:induction false} ConcatSnoc(a: seq<Bytes>, x: Bytes)
    ensures Concat(a + [x]) == Concat(a) + x
  {
    ConcatAppend(a, [x]);
    assert [x][1..] == [];
  }

  lemma {:induction false} ConcatStep(parts: seq<Bytes>, k: nat)
    requires k < |parts|
    ensures Concat(parts[..k + 1]) == Concat(parts[..k]) + parts[k]
    ensures Concat(parts[..k + 1]) <= Concat(parts)
  {
    assert parts == parts[..k + 1] + parts[k + 1..];
    assert parts[..k + 1] == parts[..k] + [parts[k]];
    ConcatSnoc(parts[..k], parts[k]);
    ConcatAppend(parts[..k + 1], parts[k + 1..]);
  }

  /** s stands in buf at position i. */
  ghost predicate At(buf: Bytes, i: nat, s: Bytes) {
    i + |s| <= |buf| && forall k :: 0 <= k < |s| ==> s[k] == buf[i + k]
  }

  lemma {:induction false} AtConcat(buf: Bytes, i: nat, x: Bytes, y: Bytes)
    ensures At(buf, i, x + y) <==> At(buf, i, x) && At(buf, i + |x|, y)
  {
    if At(buf, i, x + y) {
      assert forall k :: 0 <= k < |x| ==> x[k] == (x + y)[k];
      assert forall k :: 0 <= k < |y| ==> y[k] == (x + y)[|x| + k];
    }
  }

  lemma {:induction false} AtSlice(buf: Bytes, i: nat, s: Bytes)
    requires At(buf, i, s)
    ensures buf[i..i + |s|] == s
  {
  }

  lemma {:induction false} AtSnoc(buf: Bytes, i: nat, x: Bytes, c: char)
    ensures At(buf, i, x + [c]) <==> At(buf, i, x) && i + |x| < |buf| && buf[i + |x|] == c
  {
    AtConcat(buf, i, x, [c]);
    assert [c][0] == c;
  }
}
