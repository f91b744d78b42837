/** sort.Strings: lexicographic order on byte strings, and the fact that sorting forgets the order. */
module Sorting {
  import opened ByteStrings

  predicate Leq(a: Bytes, b: Bytes) {
    a == [] || (b != [] && (a[0] < b[0] || (a[0] == b[0] && Leq(a[1..], b[1..]))))
  }

  lemma {:induction false} LeqTotal(a: Bytes, b: Bytes)
    ensures Leq(a, b) || Leq(b, a)
  {
    if a != [] && b != [] {
      LeqTotal(a[1..], b[1..]);
    }
  }

  lemma {:induction false} LeqAntisymmetric(a: Bytes, b: Bytes)
    requires Leq(a, b) && Leq(b, a)
    ensures a == b
  {
    if a != [] && b != [] {
      LeqAntisymmetric(a[1..], b[1..]);
      assert a == [a[0]] + a[1..] && b == [b[0]] + b[1..];
    }
  }

  lemma {:induction false} LeqTransitive(a: Bytes, b: Bytes, c: Bytes)
    requires Leq(a, b) && Leq(b, c)
    ensures Leq(a, c)
  {
    if a != [] && a[0] == b[0] == c[0] {
      LeqTransitive(a[1..], b[1..], c[1..]);
    }
  }

  predicate Lowest(x: Bytes, s: seq<Bytes>) {
    forall y :: y in s ==> Leq(x, y)
  }

  predicate Sorted(s: seq<Bytes>) {
    s == [] || (Lowest(s[0], s[1..]) && Sorted(s[1..]))
  }

  function Insert(x: Bytes, s: seq<Bytes>): seq<Bytes> {
    if s == [] || Leq(x, s[0]) then [x] + s else [s[0]] + Insert(x, s[1..])
  }

  function Sort(s: seq<Bytes>): seq<Bytes> {
    if s == [] then [] else Insert(s[0], Sort(s[1..]))
  }

  lemma {:induction false} InsertMembers(x: Bytes, s: seq<Bytes>)
    ensures multiset(Insert(x, s)) == multiset{x} + multiset(s)
  {
    if s != [] {
      assert s == [s[0]] + s[1..];
      InsertMembers(x, s[1..]);
    }
  }

  lemma {:induction false} InsertSorted(x: Bytes, s: seq<Bytes>)
    requires Sorted(s)
    ensures Sorted(Insert(x, s))
  {
    if s != [] {
      if Leq(x, s[0]) {
        forall y | y in s
          ensures Leq(x, y)
        {
          if y != s[0] {
            LeqTransitive(x, s[0], y);
          }
        }
      } else {
        LeqTotal(x, s[0]);
        InsertSorted(x, s[1..]);
        InsertMembers(x, s[1..]);
        forall y | y in Insert(x, s[1..])
          ensures Leq(s[0], y)
        {
          assert y in multiset(Insert(x, s[1..]));
          assert y == x || y in s[1..];
        }
      }
    }
  }

  lemma {:induction false} SortSorts(s: seq<Bytes>)
    ensures Sorted(Sort(s)) && multiset(Sort(s)) == multiset(s)
  {
    if s != [] {
      assert s == [s[0]] + s[1..];
      SortSorts(s[1..]);
      InsertSorted(s[0], Sort(s[1..]));
      InsertMembers(s[0], Sort(s[1..]));
    }
  }

  /** A sorted list is determined by what is in it. */
  lemma {:induction false} SortedUnique(a: seq<Bytes>, b: seq<Bytes>)
    requires Sorted(a) && Sorted(b) && multiset(a) == multiset(b)
    ensures a == b
  {
    hide Leq;
    assert |a| == |multiset(a)| == |multiset(b)| == |b|;
    if a != [] {
      assert a == [a[0]] + a[1..] && b == [b[0]] + b[1..];
      assert a[0] in multiset(b) && b[0] in multiset(a);
      if a[0] != b[0] {
        assert a[0] in b[1..] && b[0] in a[1..];
        LeqAntisymmetric(a[0], b[0]);
      }
      assert multiset(a[1..]) == multiset(a) - multiset{a[0]};
      SortedUnique(a[1..], b[1..]);
    }
  }

  method SortStrings(a: seq<Bytes>) returns (s: seq<Bytes>)
    ensures Sorted(s) && multiset(s) == multiset(a)
  {
    SortSorts(a);
    s := Sort(a);
  }
}
