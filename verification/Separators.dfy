/** strings.Split and strings.Join for a separator of one byte. */
module Separators {
  import opened ByteStrings

  function SplitOn(s: Bytes, sep: char): (parts: seq<Bytes>)
    ensures parts != []
    decreases |s|
  {
    var i := IndexByte(s, sep, 0);
    if i == |s| then [s] else [s[..i]] + SplitOn(s[i + 1..], sep)
  }

  function JoinWith(parts: seq<Bytes>, sep: char): Bytes {
    if parts == [] then []
    else if |parts| == 1 then parts[0]
    else parts[0] + [sep] + JoinWith(parts[1..], sep)
  }

  lemma {:induction false} NoSepIndex(s: Bytes, sep: char)
    requires sep !in s
    ensures IndexByte(s, sep, 0) == |s|
  {
  }

  lemma {:induction false} SplitHead(line: Bytes, sep: char, rest: Bytes)
    requires sep !in line
    ensures SplitOn(line + [sep] + rest, sep) == [line] + SplitOn(rest, sep)
    ensures SplitOn(line, sep) == [line]
  {
    var s := line + [sep] + rest;
    forall j | 0 <= j < |line|
      ensures s[j] != sep
    {
      assert s[j] == line[j];
    }
    IndexByteAt(s, sep, 0, |line|);
    assert s[..|line|] == line && s[|line| + 1..] == rest;
    NoSepIndex(line, sep);
  }

  lemma {:induction false} SplitJoin(parts: seq<Bytes>, sep: char)
    requires parts != [] && forall p :: p in parts ==> sep !in p
    ensures SplitOn(JoinWith(parts, sep), sep) == parts
  {
    if |parts| == 1 {
      SplitHead(parts[0], sep, []);
    } else {
      SplitJoin(parts[1..], sep);
      SplitHead(parts[0], sep, JoinWith(parts[1..], sep));
    }
  }

  lemma {:induction false} JoinSplit(s: Bytes, sep: char)
    ensures JoinWith(SplitOn(s, sep), sep) == s
    ensures forall p :: p in SplitOn(s, sep) ==> sep !in p
    decreases |s|
  {
    var i := IndexByte(s, sep, 0);
    forall j | 0 <= j < i
      ensures s[j] != sep
    {
      IndexByteLeast(s, sep, 0, j);
    }
    if i < |s| {
      JoinSplit(s[i + 1..], sep);
      assert s == s[..i] + [sep] + s[i + 1..];
      assert SplitOn(s, sep)[1..] == SplitOn(s[i + 1..], sep);
    }
  }

  lemma {:induction false} FirstSep(a: Bytes, sep: char) returns (head: Bytes, rest: Bytes)
    requires sep in a
    ensures a == head + [sep] + rest && sep !in head
  {
    var i := IndexByte(a, sep, 0);
    forall j | 0 <= j < i
      ensures a[j] != sep
    {
      IndexByteLeast(a, sep, 0, j);
    }
    head, rest := a[..i], if i < |a| then a[i + 1..] else [];
  }

  /** Splitting at a separator splits the two sides on their own. */
  lemma {:induction false} SplitTwo(a: Bytes, sep: char, b: Bytes)
    ensures SplitOn(a + [sep] + b, sep) == SplitOn(a, sep) + SplitOn(b, sep)
    decreases |a|
  {
    hide SplitOn;
    if sep in a {
      var head, rest := FirstSep(a, sep);
      SplitTwo(rest, sep, b);
      SplitHead(head, sep, rest);
      SplitHead(head, sep, rest + [sep] + b);
      assert a + [sep] + b == head + [sep] + (rest + [sep] + b);
    } else {
      SplitHead(a, sep, b);
    }
  }
}
