/** AddTag, RemoveTag and HasTag (report/metric/metric.go) as edits of the escaped bytes, and what they
    do to the map that Tags reports. */
module TagEditing {
  import opened ByteStrings
  import opened Escaping
  import opened Lines
  import opened Building
  import opened TagLookup

  // ---------- bytes.Index ----------

  /** The least position at which pat stands in s, or -1. */
  function IndexOf(s: Bytes, pat: Bytes): (r: int)
    ensures r == -1 || (0 <= r && r + |pat| <= |s|)
  {
    IndexOfFrom(s, pat, 0)
  }

  function IndexOfFrom(s: Bytes, pat: Bytes, from: nat): (r: int)
    ensures r == -1 || (from <= r && r + |pat| <= |s|)
    decreases |s| - from
  {
    if from + |pat| > |s| then -1
    else if s[from..from + |pat|] == pat then from
    else IndexOfFrom(s, pat, from + 1)
  }

  ghost predicate Leftmost(s: Bytes, pat: Bytes, r: int) {
    && -1 <= r
    && (r >= 0 ==> At(s, r, pat))
    && forall p :: 0 <= p && (r == -1 || p < r) ==> !At(s, p, pat)
  }

  lemma {:induction false} IndexOfFromLeftmost(s: Bytes, pat: Bytes, from: nat, r: int)
    requires from <= |s| + 1 && forall p :: 0 <= p < from ==> !At(s, p, pat)
    ensures Leftmost(s, pat, r) <==> r == IndexOfFrom(s, pat, from)
    decreases |s| - from
  {
    if from + |pat| <= |s| {
      assert s[from..from + |pat|] == pat <==> At(s, from, pat) by {
        if At(s, from, pat) {
          AtSlice(s, from, pat);
        }
      }
      if s[from..from + |pat|] != pat {
        IndexOfFromLeftmost(s, pat, from + 1, r);
      }
    }
  }

  lemma {:induction false} IndexOfLeftmost(s: Bytes, pat: Bytes, r: int)
    ensures Leftmost(s, pat, r) <==> r == IndexOf(s, pat)
  {
    IndexOfFromLeftmost(s, pat, 0, r);
  }

  // ---------- the edits ----------

  function Pattern(key: Bytes): Bytes {
    Escape(InKey, key) + ['=']
  }

  /** A tag block is empty or starts with a comma. */
  predicate Started(tags: Bytes) {
    tags != [] ==> tags[0] == ','
  }

  lemma {:induction false} PatternNotFirst(tags: Bytes, key: Bytes)
    requires Started(tags)
    ensures IndexOf(tags, Pattern(key)) != 0
  {
    var pat := Pattern(key);
    var first := pat[0];
    assert first != ',';
    IndexOfLeftmost(tags, pat, 0);
  }

  /** The tag block after RemoveTag: from the byte before the leftmost match up to the next bare comma
      everything goes. */
  function Removed(tags: Bytes, key: Bytes): Bytes {
    var i := IndexOf(tags, Pattern(key));
    if i <= 0 then tags
    else
      var j := IndexBare(tags[i..], ',');
      if j == -1 then tags[..i - 1] else tags[..i - 1] + tags[i + j..]
  }

  function Added(tags: Bytes, key: Bytes, val: Bytes): Bytes {
    Removed(tags, key) + TagText((key, val))
  }

  predicate Has(tags: Bytes, key: Bytes) {
    IndexOf(tags, Pattern(key)) != -1
  }

  lemma {:induction false} RemovedStarted(tags: Bytes, key: Bytes)
    requires Started(tags)
    ensures Started(Removed(tags, key))
  {
  }

  // ---------- where the pattern matches ----------

  predicate EndsWith(s: Bytes, t: Bytes) {
    |t| <= |s| && s[|s| - |t|..] == t
  }

  lemma {:induction false} EscapeAppend(kind: Kind, a: Bytes, b: Bytes)
    ensures Escape(kind, a + b) == Escape(kind, a) + Escape(kind, b)
  {
    if a == [] {
      assert a + b == b;
    } else {
      assert (a + b)[1..] == a[1..] + b;
      EscapeAppend(kind, a[1..], b);
    }
  }

  lemma {:induction false} EscapeNotEmpty(kind: Kind, s: Bytes)
    requires s != []
    ensures Escape(kind, s) != [] && Escape(kind, s)[0] !in Specials(kind)
  {
  }

  /** Escaping keeps suffixes and makes no new ones. */
  lemma {:induction false} EscapeEndsWith(k: Bytes, key: Bytes)
    requires key != []
    ensures EndsWith(Escape(InKey, k), Escape(InKey, key)) <==> EndsWith(k, key)
  {
    var e := Escape(InKey, key);
    if EndsWith(k, key) {
      var q := k[..|k| - |key|];
      assert k == q + key;
      EscapeAppend(InKey, q, key);
    } else if EndsWith(Escape(InKey, k), e) {
      EscapeNotEmpty(InKey, key);
      SuffixBack(k, key);
    }
  }

  lemma {:induction false} SuffixBack(k: Bytes, key: Bytes)
    requires key != [] && EndsWith(Escape(InKey, k), Escape(InKey, key))
    ensures EndsWith(k, key)
  {
    hide Unescape;
    var e, f := Escape(InKey, k), Escape(InKey, key);
    EscapeNotEmpty(InKey, key);
    assert f[0] == EscapeByte(InKey, key[0])[0];
    if |e| == |f| {
      assert e == f;
      UnescapeEscape(InKey, k);
      UnescapeEscape(InKey, key);
    } else {
      var rest := Escape(InKey, k[1..]);
      assert e == EscapeByte(InKey, k[0]) + rest;
      assert e[|e| - |f|] == f[0];
      if |f| <= |rest| {
        assert e[|e| - |f|..] == rest[|rest| - |f|..];
        SuffixBack(k[1..], key);
        assert k[1..][|k[1..]| - |key|..] == k[|k| - |key|..];
      }
    }
  }

  // ---------- a block of tags that the byte search can tell apart ----------

  /** A tag that Tags reads back and whose value does not hide the comma behind it. */
  predicate EditableTag(tag: Tag) {
    SoundTag(tag) && Closed(tag.1)
  }

  ghost predicate EditableTags(tags: seq<Tag>) {
    forall i :: 0 <= i < |tags| ==> EditableTag(tags[i])
  }

  /** A key whose pattern does not end under an escape and in which no comma and no '=' is bared. */
  predicate EditableKey(key: Bytes) {
    key != [] && Closed(key) && Shut(key, {',', '='})
  }

  lemma {:induction false} EditableIsSound(tags: seq<Tag>)
    requires EditableTags(tags)
    ensures SoundTags(tags)
  {
    forall i | 0 <= i < |tags|
      ensures SoundTag(tags[i])
    {
      assert EditableTag(tags[i]);
    }
  }

  /** An '=' after a byte other than a backslash is not part of escaped text. */
  lemma {:induction false} EqualsEscaped(s: Bytes, k: nat)
    requires k < |Escape(InKey, s)| && Escape(InKey, s)[k] in {',', '='}
    ensures k > 0 && Escape(InKey, s)[k - 1] == '\\'
  {
    EscapePlainAt(InKey, s, k);
  }

  lemma {:induction false} EscapeLast(s: Bytes)
    requires Closed(s) && s != []
    ensures var e := Escape(InKey, s); e != [] && e[|e| - 1] != '\\'
  {
    EscapeLastByte(InKey, s);
  }

  /** Where the pattern of a key can stand when one tag comes first: on the end of that
      tag's key, or behind the tag. */
  lemma {:induction false} MatchPlace(tag: Tag, rest: Bytes, key: Bytes, p: nat)
    requires EditableTag(tag) && Closed(key) && key != [] && (rest != [] ==> rest[0] == ',')
    requires At(TagText(tag) + rest, p, Pattern(key))
    ensures p + |Escape(InKey, key)| == 1 + |Escape(InKey, tag.0)| || p >= |TagText(tag)|
    ensures p > 0
  {
    hide Escape, Closed;
    var f, k, v := Escape(InKey, key), Escape(InKey, tag.0), Escape(InKey, tag.1);
    var s := TagText(tag) + rest;
    var e := p + |f|;
    AtSnoc(s, p, f, '=');
    EscapeLast(key);
    EscapeNotEmpty(InKey, key);
    assert f[|f| - 1] == s[e - 1] && f[0] == s[p];
    assert s[0] == ',';
    if e <= |k| {
      assert s[e] == k[e - 1] && (e >= 2 ==> s[e - 1] == k[e - 2]);
      EqualsEscaped(tag.0, e - 1);
    } else if 1 + |k| < e < |TagText(tag)| {
      assert s[e] == v[e - 2 - |k|] && (e - 3 - |k| >= 0 ==> s[e - 1] == v[e - 3 - |k|]);
      EqualsEscaped(tag.1, e - 2 - |k|);
    } else if e >= |TagText(tag)| && p < |TagText(tag)| {
      MatchAcross(tag, rest, key, p);
    }
  }

  lemma {:induction false} MatchAcross(tag: Tag, rest: Bytes, key: Bytes, p: nat)
    requires EditableTag(tag) && Closed(key) && key != [] && (rest != [] ==> rest[0] == ',')
    requires At(TagText(tag) + rest, p, Pattern(key))
    ensures p >= |TagText(tag)| || p + |Escape(InKey, key)| < |TagText(tag)|
  {
    assert Escape(InKey, []) == [];
    hide Escape, Closed;
    var f, v := Escape(InKey, key), Escape(InKey, tag.1);
    var t := TagText(tag);
    var s := t + rest;
    AtSnoc(s, p, f, '=');
    if p < |t| <= p + |f| {
      assert s[|t|] == rest[0];
      EscapeNotEmpty(InKey, key);
      assert |t| < p + |f|;
      assert f[|t| - p] == s[|t|] && f[|t| - p - 1] == s[|t| - 1];
      if tag.1 != [] {
        EscapeLast(tag.1);
        assert s[|t| - 1] == v[|v| - 1];
      }
      EqualsEscaped(key, |t| - p);
      assert false;
    }
  }

  lemma {:induction false} AtBehind(t: Bytes, rest: Bytes, p: nat, pat: Bytes)
    requires p >= |t|
    ensures At(t + rest, p, pat) <==> At(rest, p - |t|, pat)
  {
    if p + |pat| <= |t + rest| {
      forall k | 0 <= k < |pat|
        ensures pat[k] == (t + rest)[p + k] <==> pat[k] == rest[p - |t| + k]
      {
      }
    }
  }

  /** A match that ends with the tag's key is a match inside the key. */
  lemma {:induction false} MatchInKey(tag: Tag, rest: Bytes, key: Bytes, p: nat)
    requires 0 < p && p + |Escape(InKey, key)| == 1 + |Escape(InKey, tag.0)|
    ensures At(TagText(tag) + rest, p, Pattern(key)) <==> EndsWith(Escape(InKey, tag.0), Escape(InKey, key))
  {
    hide Escape;
    var f, k := Escape(InKey, key), Escape(InKey, tag.0);
    var s := TagText(tag) + rest;
    assert s[1 + |k|] == '=';
    AtSnoc(s, p, f, '=');
    assert k[p - 1..] == s[p..p + |f|];
    if At(s, p, f) {
      AtSlice(s, p, f);
    }
  }

  lemma {:induction false} HeadHit(tag: Tag, rest: Bytes, key: Bytes)
    requires EditableTag(tag) && Closed(key) && key != [] && (rest != [] ==> rest[0] == ',')
    requires EndsWith(tag.0, key)
    ensures |Escape(InKey, key)| <= |Escape(InKey, tag.0)|
    ensures IndexOf(TagText(tag) + rest, Pattern(key)) == 1 + |Escape(InKey, tag.0)| - |Escape(InKey, key)|
  {
    hide Escape, Closed;
    var s, pat := TagText(tag) + rest, Pattern(key);
    EscapeEndsWith(tag.0, key);
    var p0 := 1 + |Escape(InKey, tag.0)| - |Escape(InKey, key)|;
    MatchInKey(tag, rest, key, p0);
    forall p | 0 <= p < p0
      ensures !At(s, p, pat)
    {
      if At(s, p, pat) {
        MatchPlace(tag, rest, key, p);
      }
    }
    IndexOfLeftmost(s, pat, p0);
  }

  lemma {:induction false} HeadMiss(tag: Tag, rest: Bytes, key: Bytes)
    requires EditableTag(tag) && Closed(key) && key != [] && (rest != [] ==> rest[0] == ',')
    requires !EndsWith(tag.0, key)
    ensures
      var r := IndexOf(rest, Pattern(key));
      IndexOf(TagText(tag) + rest, Pattern(key)) == if r == -1 then -1 else |TagText(tag)| + r
  {
    hide Escape, Closed, TagText;
    var t, pat := TagText(tag), Pattern(key);
    var s := t + rest;
    var r := IndexOf(rest, pat);
    IndexOfLeftmost(rest, pat, r);
    EscapeEndsWith(tag.0, key);
    forall p | 0 <= p
      ensures At(s, p, pat) <==> p >= |t| && At(rest, p - |t|, pat)
    {
      if p >= |t| {
        AtBehind(t, rest, p, pat);
      } else if At(s, p, pat) {
        MatchPlace(tag, rest, key, p);
        MatchInKey(tag, rest, key, p);
      }
    }
    IndexOfLeftmost(s, pat, if r == -1 then -1 else |t| + r);
  }

  /** The first tag whose key ends with `key`, or |tags|. */
  function FirstEnding(tags: seq<Tag>, key: Bytes): (i: nat)
    ensures i <= |tags| && (i < |tags| ==> EndsWith(tags[i].0, key))
    ensures forall j :: 0 <= j < i ==> !EndsWith(tags[j].0, key)
  {
    if tags == [] || EndsWith(tags[0].0, key) then 0 else 1 + FirstEnding(tags[1..], key)
  }

  /** The byte search finds the first tag whose key ends with the one that is looked for. */
  lemma {:induction false} IndexInTags(tags: seq<Tag>, key: Bytes)
    requires EditableTags(tags) && Closed(key) && key != []
    ensures
      var (i, r) := (FirstEnding(tags, key), IndexOf(TagBytes(tags), Pattern(key)));
      if i == |tags| then r == -1
      else |Escape(InKey, key)| <= |Escape(InKey, tags[i].0)| &&
           r == |TagBytes(tags[..i])| + 1 + |Escape(InKey, tags[i].0)| - |Escape(InKey, key)|
  {
    hide Escape, Closed, TagText, IndexOf;
    if tags == [] {
      IndexOfLeftmost([], Pattern(key), -1);
    } else {
      var rest := TagBytes(tags[1..]);
      assert EditableTag(tags[0]);
      TagBytesStart(tags[1..]);
      var i := FirstEnding(tags, key);
      if EndsWith(tags[0].0, key) {
        HeadHit(tags[0], rest, key);
        assert tags[..0] == [];
      } else {
        HeadMiss(tags[0], rest, key);
        IndexInTags(tags[1..], key);
        assert tags[..i] == [tags[0]] + tags[1..][..i - 1];
        assert TagBytes(tags[..i]) == TagText(tags[0]) + TagBytes(tags[1..][..i - 1]);
      }
    }
  }

  // ---------- RemoveTag and AddTag on such a block ----------

  /** What RemoveTag leaves of a key that ends with `key`: nothing if it is that key, else a comma and all
      but the last byte of what comes before. */
  function Stump(tag: Tag, key: Bytes): Bytes {
    var k, n := Escape(InKey, tag.0), |Escape(InKey, key)|;
    if |k| <= n then [] else ([','] + k)[..|k| - n]
  }

  lemma {:induction false} CutOut(s: Bytes, head: Bytes, f: Bytes, v: Bytes, rest: Bytes)
    requires s == head + (f + ['='] + v + rest) && head != []
    requires Sealed(f, {','}) && Sealed(v, {','}) && (rest != [] ==> rest[0] == ',')
    ensures
      var (i, j) := (|head|, IndexBare(s[|head|..], ','));
      (if j == -1 then s[..i - 1] else s[..i - 1] + s[i + j..]) == head[..|head| - 1] + rest
  {
    var t := f + ['='] + v;
    PlainSealedText(['='], {','});
    SealedConcat(f, ['='], {','});
    SealedConcat(f + ['='], v, {','});
    assert s[|head|..] == t + rest;
    assert rest != [] ==> BareAt(rest, 0, {','}) && IndexBare(rest, ',') == 0;
    IndexBareSkips(t, rest, ',');
    assert s[..|head| - 1] == head[..|head| - 1];
    assert s[|head| + |t|..] == rest;
  }

  lemma {:induction false} TagBytesAround(tags: seq<Tag>, i: nat)
    requires i < |tags|
    ensures TagBytes(tags) == TagBytes(tags[..i]) + TagText(tags[i]) + TagBytes(tags[i + 1..])
    ensures TagBytes(tags[..i] + tags[i + 1..]) == TagBytes(tags[..i]) + TagBytes(tags[i + 1..])
  {
    hide TagBytes, TagText;
    TagBytesAppend(tags[..i], tags[i + 1..]);
    TagBytesSnoc(tags[..i], tags[i]);
    assert tags[..i] + [tags[i]] == tags[..i + 1];
    TagBytesAppend(tags[..i + 1], tags[i + 1..]);
    assert tags[..i + 1] + tags[i + 1..] == tags;
  }

  lemma {:induction false} RemovedAt(s: Bytes, key: Bytes, i: nat)
    requires IndexOf(s, Pattern(key)) == i > 0
    ensures
      var j := IndexBare(s[i..], ',');
      Removed(s, key) == if j == -1 then s[..i - 1] else s[..i - 1] + s[i + j..]
  {
    hide IndexOf, IndexBare, Pattern;
  }

  lemma {:induction false} RemovedCut(s: Bytes, key: Bytes, head: Bytes, f: Bytes, v: Bytes, rest: Bytes)
    requires s == head + (f + ['='] + v + rest) && head != [] && IndexOf(s, Pattern(key)) == |head|
    requires Sealed(f, {','}) && Sealed(v, {','}) && (rest != [] ==> rest[0] == ',')
    ensures Removed(s, key) == head[..|head| - 1] + rest
  {
    hide IndexOf, IndexBare, Sealed, Pattern, Removed;
    RemovedAt(s, key, |head|);
    CutOut(s, head, f, v, rest);
  }

  /** A tag whose key ends with `key`, taken apart where the pattern of `key` begins. */
  lemma {:induction false} TagApart(tag: Tag, key: Bytes, pre: Bytes) returns (head: Bytes)
    requires key != [] && EndsWith(tag.0, key)
    ensures pre + TagText(tag) == head + (Escape(InKey, key) + ['='] + Escape(InKey, tag.1))
    ensures head != [] && head[..|head| - 1] == pre + Stump(tag, key)
    ensures |head| == |pre| + 1 + |Escape(InKey, tag.0)| - |Escape(InKey, key)|
  {
    hide Escape;
    var f, k := Escape(InKey, key), Escape(InKey, tag.0);
    EscapeEndsWith(tag.0, key);
    var q := k[..|k| - |f|];
    head := pre + [','] + q;
    assert k == q + f;
  }

  /** RemoveTag, byte for byte, on every block of editable tags and for every editable key. */
  lemma {:induction false} RemovedBytes(tags: seq<Tag>, key: Bytes)
    requires EditableTags(tags) && EditableKey(key)
    ensures
      var i := FirstEnding(tags, key);
      Removed(TagBytes(tags), key) ==
        if i == |tags| then TagBytes(tags)
        else TagBytes(tags[..i]) + Stump(tags[i], key) + TagBytes(tags[i + 1..])
  {
    hide Escape, Closed, Shut, TagText, TagBytes, IndexOf, FirstEnding, Sealed, Stump;
    var i := FirstEnding(tags, key);
    IndexInTags(tags, key);
    if i < |tags| {
      hide Removed;
      assert EditableTag(tags[i]);
      var f, v := Escape(InKey, key), Escape(InKey, tags[i].1);
      var s, pre, post := TagBytes(tags), TagBytes(tags[..i]), TagBytes(tags[i + 1..]);
      TagBytesAround(tags, i);
      TagBytesStart(tags[i + 1..]);
      ShutLess(key, {',', '='}, {','});
      EscapeSealed(InKey, key, {','});
      EscapeSealed(InKey, tags[i].1, {','});
      FirstEndingEnds(tags, key);
      var head := TagApart(tags[i], key, pre);
      assert head + (f + ['='] + v) + post == head + (f + ['='] + v + post);
      RemovedCut(s, key, head, f, v, post);
    }
  }

  lemma {:induction false} FirstEndingEnds(tags: seq<Tag>, key: Bytes)
    requires FirstEnding(tags, key) < |tags|
    ensures EndsWith(tags[FirstEnding(tags, key)].0, key)
  {
  }

  ghost predicate Distinct(tags: seq<Tag>) {
    forall i, j :: 0 <= i < j < |tags| ==> tags[i].0 != tags[j].0
  }

  /** The case in which the byte search is right: the first tag whose key ends with `key` has that key,
      or there is none. */
  predicate Unshadowed(tags: seq<Tag>, key: Bytes) {
    var i := FirstEnding(tags, key);
    i == |tags| || tags[i].0 == key
  }

  function Without(tags: seq<Tag>, key: Bytes): seq<Tag> {
    if tags == [] then []
    else (if tags[0].0 == key then [] else [tags[0]]) + Without(tags[1..], key)
  }

  lemma {:induction false} WithoutAbsent(tags: seq<Tag>, key: Bytes)
    requires forall j :: 0 <= j < |tags| ==> tags[j].0 != key
    ensures Without(tags, key) == tags
  {
    if tags != [] {
      WithoutAbsent(tags[1..], key);
    }
  }

  lemma {:induction false} WithoutOne(tags: seq<Tag>, key: Bytes, i: nat)
    requires Distinct(tags) && i < |tags| && tags[i].0 == key
    ensures Without(tags, key) == tags[..i] + tags[i + 1..]
  {
    if i == 0 {
      WithoutAbsent(tags[1..], key);
    } else {
      WithoutOne(tags[1..], key, i - 1);
      assert tags[..i] == [tags[0]] + tags[1..][..i - 1];
      assert tags[i + 1..] == tags[1..][i..];
    }
  }

  /** RemoveTag takes the tag out of the block, and nothing else, unless another key that ends with
      `key` comes first. */
  lemma {:induction false} RemovedWithout(tags: seq<Tag>, key: Bytes)
    requires EditableTags(tags) && Distinct(tags) && EditableKey(key) && Unshadowed(tags, key)
    ensures Removed(TagBytes(tags), key) == TagBytes(Without(tags, key))
  {
    hide Escape, Closed, Shut, TagBytes, Removed, Without;
    var i := FirstEnding(tags, key);
    RemovedBytes(tags, key);
    if i == |tags| {
      forall j | 0 <= j < |tags|
        ensures tags[j].0 != key
      {
        assert !EndsWith(tags[j].0, key);
      }
      WithoutAbsent(tags, key);
    } else {
      WithoutOne(tags, key, i);
      TagBytesAround(tags, i);
      assert TagBytes(tags[..i]) + [] == TagBytes(tags[..i]);
    }
  }

  // ---------- as seen through Tags ----------

  const NO_TAGS: TagMap := map[]

  lemma {:induction false} MapFromWithout(tags: seq<Tag>, key: Bytes, acc: TagMap)
    ensures MapFrom(Without(tags, key), acc - {key}) == MapFrom(tags, acc) - {key}
  {
    if tags != [] {
      var (k, v) := tags[0];
      MapFromWithout(tags[1..], key, acc[k := v]);
      if k == key {
        assert acc[k := v] - {key} == acc - {key};
        assert Without(tags, key) == Without(tags[1..], key);
      } else {
        assert acc[k := v] - {key} == (acc - {key})[k := v];
        assert Without(tags, key) == [tags[0]] + Without(tags[1..], key);
      }
    }
  }

  lemma {:induction false} MapFromSnoc(tags: seq<Tag>, tag: Tag, acc: TagMap)
    ensures MapFrom(tags + [tag], acc) == MapFrom(tags, acc)[tag.0 := tag.1]
  {
    if tags == [] {
      assert (tags + [tag])[1..] == [];
    } else {
      assert (tags + [tag])[1..] == tags[1..] + [tag];
      MapFromSnoc(tags[1..], tag, acc[tags[0].0 := tags[0].1]);
    }
  }

  lemma {:induction false} MapFromMembers(tags: seq<Tag>, acc: TagMap, k: Bytes)
    requires Distinct(tags)
    ensures (forall t :: t in tags ==> t.0 != k) ==> (k in MapFrom(tags, acc) <==> k in acc)
    ensures (forall t :: t in tags ==> t.0 != k) && k in acc ==> MapFrom(tags, acc)[k] == acc[k]
    ensures forall t :: t in tags && t.0 == k ==> k in MapFrom(tags, acc) && MapFrom(tags, acc)[k] == t.1
  {
    if tags != [] {
      var next := acc[tags[0].0 := tags[0].1];
      MapFromMembers(tags[1..], next, k);
      assert forall t :: t in tags <==> t == tags[0] || t in tags[1..];
      assert forall t :: t in tags[1..] ==> t.0 != tags[0].0;
    }
  }

  lemma {:induction false} WithoutKeeps(tags: seq<Tag>, key: Bytes)
    requires EditableTags(tags) && Distinct(tags)
    ensures EditableTags(Without(tags, key)) && Distinct(Without(tags, key))
    ensures forall t :: t in Without(tags, key) <==> t in tags && t.0 != key
  {
    hide EditableTag;
    if tags != [] {
      assert forall t :: t in tags <==> t == tags[0] || t in tags[1..];
      WithoutKeeps(tags[1..], key);
      assert forall t :: t in tags[1..] ==> t.0 != tags[0].0;
    }
  }

  /** Where no longer key comes first, RemoveTag is deletion from the tag map. */
  lemma {:induction false} RemoveUnshadowed(tags: seq<Tag>, key: Bytes)
    requires EditableTags(tags) && Distinct(tags) && EditableKey(key) && Unshadowed(tags, key)
    ensures TagsOf(TagBytes(tags)).Some?
    ensures TagsOf(Removed(TagBytes(tags), key)) == Some(TagsOf(TagBytes(tags)).value - {key})
  {
    hide Closed, Shut, TagBytes, Removed, Without, MapFrom, Unshadowed, Distinct;
    RemovedWithout(tags, key);
    WithoutKeeps(tags, key);
    EditableIsSound(tags);
    TagsFromTagBytes(tags, map[]);
    EditableIsSound(Without(tags, key));
    TagsFromTagBytes(Without(tags, key), map[]);
    MapFromWithout(tags, key, map[]);
    assert (NO_TAGS - {key}) == NO_TAGS;
  }

  /** AddTag keeps the block one of editable tags with distinct keys. */
  lemma {:induction false} AddedBytes(tags: seq<Tag>, key: Bytes, val: Bytes)
    requires EditableTags(tags) && Distinct(tags) && EditableKey(key) && Unshadowed(tags, key)
    ensures
      var after := Without(tags, key) + [(key, val)];
      && Added(TagBytes(tags), key, val) == TagBytes(after) && Distinct(after)
      && (Closed(val) && Shut(val, {','}) ==> EditableTags(after))
      && (Shut(val, {','}) ==> SoundTags(after))
  {
    hide Closed, Shut, TagBytes, TagText, Removed, Without, Unshadowed;
    var kept := Without(tags, key);
    RemovedWithout(tags, key);
    WithoutKeeps(tags, key);
    EditableIsSound(kept);
    ShutLess(key, {',', '='}, {'='});
    assert forall i :: 0 <= i < |kept| ==> kept[i] in kept;
    TagBytesSnoc(kept, (key, val));
  }

  /** Likewise AddTag is update of the tag map. */
  lemma {:induction false} AddUnshadowed(tags: seq<Tag>, key: Bytes, val: Bytes)
    requires EditableTags(tags) && Distinct(tags) && EditableKey(key) && Unshadowed(tags, key)
    requires Shut(val, {','})
    ensures TagsOf(TagBytes(tags)).Some?
    ensures TagsOf(Added(TagBytes(tags), key, val)) == Some(TagsOf(TagBytes(tags)).value[key := val])
  {
    hide Closed, Shut, TagBytes, Added, Without, MapFrom, Unshadowed, EditableTags, SoundTags, Distinct, TagsFrom;
    var kept := Without(tags, key);
    AddedBytes(tags, key, val);
    EditableIsSound(tags);
    TagsFromTagBytes(tags, map[]);
    TagsFromTagBytes(kept + [(key, val)], map[]);
    MapFromSnoc(kept, (key, val), map[]);
    MapFromWithout(tags, key, map[]);
    assert (NO_TAGS - {key}) == NO_TAGS;
    var was := MapFrom(tags, map[]);
    assert (was - {key})[key := val] == was[key := val];
  }

  /** HasTag says yes exactly when some tag's key ends with the one asked for. */
  lemma {:induction false} HasEnding(tags: seq<Tag>, key: Bytes)
    requires EditableTags(tags) && Closed(key) && key != []
    ensures Has(TagBytes(tags), key) <==> exists i :: 0 <= i < |tags| && EndsWith(tags[i].0, key)
  {
    IndexInTags(tags, key);
  }

  lemma {:induction false} MapFromKeys(tags: seq<Tag>, acc: TagMap, key: Bytes)
    ensures key in MapFrom(tags, acc) <==> key in acc || exists i :: 0 <= i < |tags| && tags[i].0 == key
  {
    if tags != [] {
      MapFromKeys(tags[1..], acc[tags[0].0 := tags[0].1], key);
      if i :| 0 <= i < |tags| && tags[i].0 == key {
        assert i > 0 ==> tags[1..][i - 1].0 == key;
      }
      if i :| 0 <= i < |tags[1..]| && tags[1..][i].0 == key {
        assert tags[i + 1].0 == key;
      }
    }
  }

  /** So HasTag is right about the tag map unless the key is absent and another key ends with it. */
  lemma {:induction false} HasRefines(tags: seq<Tag>, key: Bytes)
    requires EditableTags(tags) && Closed(key) && key != []
    ensures TagsOf(TagBytes(tags)).Some?
    ensures
      var known := key in TagsOf(TagBytes(tags)).value;
      (Has(TagBytes(tags), key) == known) <==> (known || forall i :: 0 <= i < |tags| ==> !EndsWith(tags[i].0, key))
  {
    hide TagBytes, Closed, Shut, MapFrom, TagsFrom, Has;
    HasEnding(tags, key);
    EditableIsSound(tags);
    TagsFromTagBytes(tags, map[]);
    MapFromKeys(tags, map[], key);
    if i :| 0 <= i < |tags| && tags[i].0 == key {
      assert EndsWith(tags[i].0, key);
    }
  }

  /** For example on the block ,xa=v it finds the key a. */
  lemma {:induction false} HasWrongExample()
    ensures TagBytes([("xa", "v")]) == ",xa=v" && Has(",xa=v", "a") && TagsOf(",xa=v") == Some(map["xa" := "v"])
  {
    var tags: seq<Tag> := [("xa", "v")];
    assert Escape(InKey, "xa") == "xa" && Escape(InKey, "v") == "v";
    assert TagBytes(tags) == TagText(tags[0]) + [] == ",xa=v";
    PlainEditable("xa", "v");
    PlainEditable("a", "v");
    assert EndsWith(tags[0].0, "a");
    hide TagBytes, EditableTag, Escape, TagsFrom, Has;
    HasEnding(tags, "a");
    EditableIsSound(tags);
    TagsFromTagBytes(tags, NO_TAGS);
    assert tags[1..] == [];
  }

  /** For a key that is absent RemoveTag should change nothing; it does so exactly when no other key ends
      with that key. */
  lemma {:induction false} RemoveAbsent(tags: seq<Tag>, key: Bytes)
    requires EditableTags(tags) && EditableKey(key)
    requires forall i :: 0 <= i < |tags| ==> tags[i].0 != key
    ensures Removed(TagBytes(tags), key) == TagBytes(tags) <==>
            forall i :: 0 <= i < |tags| ==> !EndsWith(tags[i].0, key)
  {
    hide TagBytes, TagText, Stump, EditableKey, EditableTags, Removed, EndsWith;
    var i := FirstEnding(tags, key);
    RemovedBytes(tags, key);
    if i < |tags| {
      FirstEndingEnds(tags, key);
      TagBytesAround(tags, i);
      StumpShorter(tags[i], key);
      assert |Removed(TagBytes(tags), key)| < |TagBytes(tags)|;
    }
  }

  lemma {:induction false} StumpShorter(tag: Tag, key: Bytes)
    ensures |Stump(tag, key)| < |TagText(tag)|
  {
    hide Escape;
  }

  lemma {:induction false} StumpUnreadable(k: Bytes, n: nat)
    requires Shut(k, {'='}) && 0 < n <= |Escape(InKey, k)|
    ensures TagsOf(([','] + Escape(InKey, k))[..n]) == None
  {
    hide Escape, Closed, Shut, Unescape;
    var whole := [','] + Escape(InKey, k);
    var s := whole[..n];
    assert whole == s + whole[n..];
    EscapeSealed(InKey, k, {'='});
    PlainSealedText([','], {'='});
    SealedConcat([','], Escape(InKey, k), {'='});
    forall i | 0 <= i < n
      ensures !BareAt(s, i, {'='})
    {
      EscapedPrefix(s, whole[n..], i);
      assert !BareAt(whole, i, {'='});
    }
    IndexBareLeast(s, '=', -1);
    assert BareAt(s, 0, {','});
  }

  /** Removing a key where only a longer key that ends with it is set leaves a block that Tags cannot
      read at all: its index is out of range. */
  lemma {:induction false} RemoveShadowedFails(tag: Tag, key: Bytes)
    requires EditableTag(tag) && EditableKey(key) && EndsWith(tag.0, key) && tag.0 != key
    ensures TagsOf(TagBytes([tag])) == Some(map[tag.0 := tag.1])
    ensures TagsOf(Removed(TagBytes([tag]), key)) == None
  {
    hide TagBytes, Removed, TagsOf, Stump, Shut;
    OneTagRead(tag);
    OneTagLeft(tag, key);
    LongerKey(tag.0, key);
    StumpUnreadable(tag.0, |Escape(InKey, tag.0)| - |Escape(InKey, key)|);
    LeftIsStump(tag, key);
  }

  lemma {:induction false} LeftIsStump(tag: Tag, key: Bytes)
    requires |Escape(InKey, tag.0)| > |Escape(InKey, key)|
    ensures Stump(tag, key) == ([','] + Escape(InKey, tag.0))[..|Escape(InKey, tag.0)| - |Escape(InKey, key)|]
  {
  }

  lemma {:induction false} OneTagRead(tag: Tag)
    requires SoundTag(tag)
    ensures TagsOf(TagBytes([tag])) == Some(map[tag.0 := tag.1])
  {
    hide SoundTag, TagBytes, TagsFrom;
    TagsFromTagBytes([tag], NO_TAGS);
    assert [tag] == [] + [tag];
    MapFromSnoc([], tag, NO_TAGS);
  }

  lemma {:induction false} OneTagLeft(tag: Tag, key: Bytes)
    requires EditableTag(tag) && EditableKey(key) && EndsWith(tag.0, key)
    ensures Removed(TagBytes([tag]), key) == Stump(tag, key)
  {
    var tags := [tag];
    OnlyTag(tags, key);
    OneTag(tag);
    hide EditableTags, EditableKey, TagBytes, FirstEnding, Removed, Stump;
    RemovedBytes(tags, key);
  }

  lemma {:induction false} OnlyTag(tags: seq<Tag>, key: Bytes)
    requires |tags| == 1 && EditableTag(tags[0]) && EndsWith(tags[0].0, key)
    ensures EditableTags(tags) && FirstEnding(tags, key) == 0 && tags[..0] == [] && tags[1..] == []
  {
  }

  lemma {:induction false} LongerKey(k: Bytes, key: Bytes)
    requires EndsWith(k, key) && k != key
    ensures |Escape(InKey, k)| > |Escape(InKey, key)|
  {
    hide Escape;
    var q := k[..|k| - |key|];
    assert k == q + key && (q == [] ==> k == key);
    EscapeAppend(InKey, q, key);
    EscapeNotEmpty(InKey, q);
  }

  lemma {:induction false} OneTag(tag: Tag)
    ensures TagBytes([]) == [] && TagBytes([tag]) == TagText(tag)
  {
  }

  /** For example "a" where "xa" is set. */
  lemma {:induction false} RemoveShadowedExample()
    ensures EditableTag(("xa", "v")) && EditableKey("a") && EndsWith("xa", "a")
    ensures TagsOf(Removed(TagBytes([("xa", "v")]), "a")) == None
  {
    hide TagsOf, Removed, TagBytes;
    PlainEditable("xa", "v");
    PlainEditable("a", "v");
    RemoveShadowedFails(("xa", "v"), "a");
  }

  lemma {:induction false} TagsOfIs(s: Bytes)
    ensures TagsOf(s) == TagsFrom(s, map[])
  {
  }

  lemma {:induction false} PlainEditable(key: Bytes, val: Bytes)
    requires '\\' !in key && '\\' !in val && key != []
    ensures EditableTag((key, val)) && EditableKey(key)
  {
  }
}
