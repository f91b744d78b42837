/** RemoveTag and AddTag as seen through Tags, exactly: when a longer key that ends with the given one
    comes first, what is left of it fuses with the next tag. */
module TagShadowing {
  import opened ByteStrings
  import opened Escaping
  import opened Lines
  import opened Building
  import opened TagLookup
  import opened TagEditing

  // ---------- unescaping across a seam ----------

  lemma {:induction false} UnescapeStep(c: char, rest: Bytes)
    requires c == '\\' && rest != [] ==> rest[0] !in Specials(InKey)
    ensures Unescape(InKey, EscapeByte(InKey, c) + rest) == [c] + Unescape(InKey, rest)
  {
    var s := EscapeByte(InKey, c) + rest;
    if c in Specials(InKey) {
      assert s[2..] == rest;
    } else {
      assert s[1..] == rest;
    }
  }

  /** Escaped text is read on its own unless its last backslash meets a special byte behind it. */
  lemma {:induction false} UnescapeSeam(a: Bytes, b: Bytes)
    requires Closed(a) || b == [] || b[0] !in Specials(InKey)
    ensures Unescape(InKey, Escape(InKey, a) + b) == a + Unescape(InKey, b)
  {
    hide Unescape;
    if a == [] {
      assert Escape(InKey, a) + b == b;
    } else {
      var rest := Escape(InKey, a[1..]) + b;
      UnescapeSeam(a[1..], b);
      assert Escape(InKey, a) + b == EscapeByte(InKey, a[0]) + rest;
      if |a| > 1 {
        EscapeNotEmpty(InKey, a[1..]);
      } else {
        assert rest == b;
      }
      UnescapeStep(a[0], rest);
      assert a == [a[0]] + a[1..];
    }
  }

  /** The key that is read where the stump of q + key meets the next tag, whose key is `next`. */
  function Fused(q: Bytes, next: Bytes): Bytes
    requires q != []
  {
    Unescape(InKey, Escape(InKey, q)[..|Escape(InKey, q)| - 1] + [','] + Escape(InKey, next))
  }

  lemma {:induction false} CommaFirst(next: Bytes)
    ensures Unescape(InKey, [','] + Escape(InKey, next)) == [','] + next
    ensures Unescape(InKey, ['\\', ','] + Escape(InKey, next)) == [','] + next
  {
    UnescapeEscape(InKey, next);
    assert ([','] + Escape(InKey, next))[1..] == Escape(InKey, next);
    assert (['\\', ','] + Escape(InKey, next))[2..] == Escape(InKey, next);
  }

  lemma {:induction false} FusedText(q: Bytes, e: Bytes, tail: Bytes, next: Bytes)
    requires q != [] && tail != [] && Escape(InKey, q) == e + tail
    ensures Fused(q, next) == Unescape(InKey, e + (tail[..|tail| - 1] + [','] + Escape(InKey, next)))
  {
    hide Unescape, Escape;
    var whole, n := Escape(InKey, q), Escape(InKey, next);
    assert whole[..|whole| - 1] == e + tail[..|tail| - 1];
    assert whole[..|whole| - 1] + [','] + n == e + (tail[..|tail| - 1] + [','] + n);
  }

  /** The last byte of q is lost and a comma takes its place; a backslash before it is lost as well. */
  lemma {:induction false} FusedIs(q: Bytes, next: Bytes)
    requires q != []
    ensures
      var (front, last) := (q[..|q| - 1], q[|q| - 1]);
      Fused(q, next) ==
        if last in Specials(InKey) || Closed(front) then front + [','] + next
        else front[..|front| - 1] + [','] + next
  {
    hide Unescape, Escape, Fused;
    var front, last := q[..|q| - 1], q[|q| - 1];
    var n := Escape(InKey, next);
    assert q == front + [last];
    EscapeSnoc(InKey, front, last);
    CommaFirst(next);
    if last in Specials(InKey) {
      FusedText(q, Escape(InKey, front), ['\\', last], next);
      assert ['\\', last][..1] + [','] + n == ['\\', ','] + n;
      UnescapeSeam(front, ['\\', ','] + n);
    } else if Closed(front) {
      FusedText(q, Escape(InKey, front), [last], next);
      assert [last][..0] + [','] + n == [','] + n;
      UnescapeSeam(front, [','] + n);
    } else {
      var less := front[..|front| - 1];
      assert front == less + ['\\'];
      EscapeSnoc(InKey, less, '\\');
      assert Escape(InKey, q) == Escape(InKey, less) + ['\\', last];
      FusedText(q, Escape(InKey, less), ['\\', last], next);
      assert ['\\', last][..1] + [','] + n == ['\\', ','] + n;
      UnescapeSeam(less, ['\\', ','] + n);
    }
  }

  /** So the old key is read again only if its lost byte was the comma. */
  lemma {:induction false} FusedBack(q: Bytes, key: Bytes)
    requires q != []
    ensures Fused(q, key) == q + key <==> q[|q| - 1] == ','
  {
    hide Fused;
    FusedIs(q, key);
    var front, last := q[..|q| - 1], q[|q| - 1];
    assert q + key == front + [last] + key;
    var f := Fused(q, key);
    if f == front + [','] + key {
      assert f[|front|] == ',' && (q + key)[|front|] == last;
    }
  }

  // ---------- reading on ----------

  /** Tags reads a block of sound tags and then what follows it. */
  lemma {:induction false} TagsFromPrefix(tags: seq<Tag>, rest: Bytes, acc: TagMap)
    requires SoundTags(tags) && (rest != [] ==> rest[0] == ',')
    ensures TagsFrom(TagBytes(tags) + rest, acc) == TagsFrom(rest, MapFrom(tags, acc))
  {
    hide TagsFrom, SoundTag, TagText;
    if tags == [] {
      assert TagBytes(tags) + rest == rest;
    } else {
      assert SoundTag(tags[0]);
      var more := TagBytes(tags[1..]) + rest;
      TagBytesStart(tags[1..]);
      assert TagBytes(tags) + rest == TagText(tags[0]) + more;
      TagsFromOne(tags[0], more, acc);
      TagsFromPrefix(tags[1..], rest, acc[tags[0].0 := tags[0].1]);
    }
  }

  // ---------- the stump and the next tag ----------

  /** What is left of the key q + key. */
  function StumpOf(q: Bytes): Bytes
    requires q != []
  {
    [','] + Escape(InKey, q)[..|Escape(InKey, q)| - 1]
  }

  lemma {:induction false} StumpIs(tag: Tag, q: Bytes, key: Bytes)
    requires tag.0 == q + key && q != []
    ensures Stump(tag, key) == StumpOf(q)
  {
    EscapeNotEmpty(InKey, q);
    hide Escape;
    EscapeAppend(InKey, q, key);
    var e, f := Escape(InKey, q), Escape(InKey, key);
    assert ([','] + (e + f))[..|e|] == [','] + e[..|e| - 1];
  }

  lemma {:induction false} SealWithComma(e: Bytes)
    requires NoneBare(e, {'='})
    ensures Sealed([','] + e + [','], {'='})
  {
    var s := [','] + e + [','];
    assert !Escaped(s, |s|);
    forall k | 0 <= k < |s|
      ensures !BareAt(s, k, {'='})
    {
      if 0 < k <= |e| {
        assert s == [','] + (e + [',']);
        BareInConcat([','], e + [','], k, {'='});
        EscapedPrefix(e, [','], k - 1);
        assert !BareAt(e, k - 1, {'='});
      }
    }
  }

  lemma {:induction false} FusedHead(q: Bytes, k: Bytes)
    requires q != [] && NoneBare(Escape(InKey, q), {'='}) && Sealed(k, {'='})
    ensures Sealed(StumpOf(q) + [','] + k, {'='})
  {
    EscapeNotEmpty(InKey, q);
    hide Escape, Shut, Sealed, NoneBare;
    var e := Escape(InKey, q);
    NoneBarePrefix(e, |e| - 1, {'='});
    SealWithComma(e[..|e| - 1]);
    SealedConcat([','] + e[..|e| - 1] + [','], k, {'='});
  }

  lemma {:induction false} StumpStart(q: Bytes)
    requires q != []
    ensures StumpOf(q) != [] && StumpOf(q)[0] == ','
  {
  }

  lemma {:induction false} Regroup(tag: Tag, a: Bytes, rest: Bytes)
    ensures a + TagText(tag) + rest ==
            (a + [','] + Escape(InKey, tag.0)) + ['='] + (Escape(InKey, tag.1) + rest)
  {
  }

  lemma {:induction false} CommaAt(s: Bytes)
    requires s != [] && s[0] == ','
    ensures IndexBare(s, ',') == 0
  {
    assert BareAt(s, 0, {','});
  }

  /** The stump and the tag behind it are cut out as one tag. */
  lemma {:induction false} CutFused(q: Bytes, next: Tag, rest: Bytes)
    requires q != [] && NoneBare(Escape(InKey, q), {'='}) && SoundTag(next) && (rest != [] ==> rest[0] == ',')
    ensures
      var key := StumpOf(q)[1..] + [','] + Escape(InKey, next.0);
      CutTag(StumpOf(q) + TagText(next) + rest) ==
        if rest == [] then Last(key, Escape(InKey, next.1)) else More(key, Escape(InKey, next.1), rest)
  {
    hide Escape, Shut, CutValue, Unescape, Sealed, StumpOf, TagText, IndexBare;
    var a := StumpOf(q);
    StumpStart(q);
    var k, v := Escape(InKey, next.0), Escape(InKey, next.1);
    EscapeSealed(InKey, next.0, {'='});
    FusedHead(q, k);
    var head := a + [','] + k;
    var s := a + TagText(next) + rest;
    assert s == head + ['='] + (v + rest) by { Regroup(next, a, rest); }
    IndexBareAt(s, head, '=', v + rest);
    CommaAt(s);
    assert s[1..|head|] == head[1..] == a[1..] + [','] + k by {
      assert s[..|head|] == head;
    }
    CutValueText(head[1..], next.1, rest);
  }

  lemma {:induction false} ReadFused(q: Bytes, next: Tag, rest: Bytes, acc: TagMap)
    requires q != [] && NoneBare(Escape(InKey, q), {'='}) && SoundTag(next) && (rest != [] ==> rest[0] == ',')
    ensures TagsFrom(StumpOf(q) + TagText(next) + rest, acc) == TagsFrom(rest, acc[Fused(q, next.0) := next.1])
  {
    CutFused(q, next, rest);
    hide CutTag, Escape, Shut, TagText, Unescape;
    assert StumpOf(q)[1..] == Escape(InKey, q)[..|Escape(InKey, q)| - 1];
    UnescapeEscape(InKey, next.1);
    NothingLeft(acc[Fused(q, next.0) := next.1]);
  }

  /** The tags that are read where the stump of q stands between `pre` and `behind`. */
  function FusedTags(pre: seq<Tag>, q: Bytes, behind: seq<Tag>): seq<Tag>
    requires q != [] && behind != []
  {
    pre + [(Fused(q, behind[0].0), behind[0].1)] + behind[1..]
  }

  lemma {:induction false} MapFromTwo(a: seq<Tag>, b: seq<Tag>, acc: TagMap)
    ensures MapFrom(a + b, acc) == MapFrom(b, MapFrom(a, acc))
  {
    if a == [] {
      assert a + b == b;
    } else {
      assert (a + b)[1..] == a[1..] + b;
      MapFromTwo(a[1..], b, acc[a[0].0 := a[0].1]);
    }
  }

  lemma {:induction false} ReadBlock(pre: seq<Tag>, q: Bytes, behind: seq<Tag>)
    requires q != [] && NoneBare(Escape(InKey, q), {'='}) && SoundTags(pre) && SoundTags(behind)
    ensures
      TagsOf(TagBytes(pre) + StumpOf(q) + TagBytes(behind)) ==
        if behind == [] then None else Some(MapFrom(FusedTags(pre, q, behind), NO_TAGS))
  {
    hide TagsFrom, SoundTag, TagText, Fused, Shut, MapFrom, TagBytes;
    var s := StumpOf(q) + TagBytes(behind);
    var acc := MapFrom(pre, NO_TAGS);
    assert TagBytes(pre) + StumpOf(q) + TagBytes(behind) == TagBytes(pre) + s;
    TagsFromPrefix(pre, s, NO_TAGS);
    if behind == [] {
      ReadStump(q, acc);
    } else {
      var next, rest := behind[0], behind[1..];
      assert SoundTag(next);
      ConsBytes(behind);
      TagBytesStart(rest);
      assert s == StumpOf(q) + TagText(next) + TagBytes(rest);
      ReadFused(q, next, TagBytes(rest), acc);
      TagsFromTagBytes(rest, acc[Fused(q, next.0) := next.1]);
      MapFromSnoc(pre, (Fused(q, next.0), next.1), NO_TAGS);
      MapFromTwo(pre + [(Fused(q, next.0), next.1)], rest, NO_TAGS);
    }
  }

  lemma {:induction false} ConsBytes(tags: seq<Tag>)
    ensures tags == [] ==> TagBytes(tags) == []
    ensures tags != [] ==> TagBytes(tags) == TagText(tags[0]) + TagBytes(tags[1..])
  {
  }

  lemma {:induction false} ReadStump(q: Bytes, acc: TagMap)
    requires q != [] && NoneBare(Escape(InKey, q), {'='})
    ensures TagsFrom(StumpOf(q) + TagBytes([]), acc) == None
  {
    EscapeNotEmpty(InKey, q);
    hide Escape, Shut, Unescape;
    var e := Escape(InKey, q);
    var s := StumpOf(q);
    assert s + TagBytes([]) == s;
    NoneBarePrefix(e, |e| - 1, {'='});
    SealWithComma(e[..|e| - 1]);
    assert s + [','] == [','] + e[..|e| - 1] + [','];
    NoneBarePrefix(s + [','], |s|, {'='});
    assert (s + [','])[..|s|] == s;
    IndexBareLeast(s, '=', -1);
    assert BareAt(s, 0, {','});
  }

  // ---------- when the map is right ----------

  lemma {:induction false} MapFromSkips(tags: seq<Tag>, acc: TagMap, k: Bytes)
    requires forall t :: t in tags ==> t.0 != k
    ensures (k in MapFrom(tags, acc) <==> k in acc) && (k in acc ==> MapFrom(tags, acc)[k] == acc[k])
  {
    if tags != [] {
      MapFromSkips(tags[1..], acc[tags[0].0 := tags[0].1], k);
    }
  }

  /** A key that only the middle tag can have. */
  lemma {:induction false} MiddleKey(pre: seq<Tag>, mid: Tag, rest: seq<Tag>, k: Bytes)
    requires (forall t :: t in pre ==> t.0 != k) && forall t :: t in rest ==> t.0 != k
    ensures
      var m := MapFrom(pre + [mid] + rest, NO_TAGS);
      (k in m <==> mid.0 == k) && (mid.0 == k ==> m[k] == mid.1)
  {
    hide MapFrom;
    MapFromTwo(pre + [mid], rest, NO_TAGS);
    MapFromSnoc(pre, mid, NO_TAGS);
    MapFromSkips(pre, NO_TAGS, k);
    MapFromSkips(rest, MapFrom(pre + [mid], NO_TAGS), k);
  }

  /** The fused reading agrees with a map that has the old tag, and the next one unless it is `key`, only
      if it restored the old tag at the cost of `key`. */
  lemma {:induction false} FusedAgrees(pre: seq<Tag>, past: Tag, next: Tag, rest: seq<Tag>, f: Bytes, key: Bytes,
      want: TagMap)
    requires Distinct(pre + [past] + [next] + rest) && past.0 != key
    requires past.0 in want && want[past.0] == past.1 && (next.0 != key ==> next.0 in want)
    requires MapFrom(pre + [(f, next.1)] + rest, NO_TAGS) == want
    ensures f == past.0 && next == (key, past.1)
  {
    hide MapFrom;
    var all := pre + [past] + [next] + rest;
    var n := |pre|;
    forall t | t in pre
      ensures t.0 != past.0 && t.0 != next.0
    {
      var i :| 0 <= i < n && pre[i] == t;
      assert all[i] == t && all[n] == past && all[n + 1] == next;
    }
    forall t | t in rest
      ensures t.0 != past.0 && t.0 != next.0
    {
      var i :| 0 <= i < |rest| && rest[i] == t;
      assert all[n + 2 + i] == t && all[n] == past && all[n + 1] == next;
    }
    assert all[n] == past && all[n + 1] == next;
    MiddleKey(pre, (f, next.1), rest, past.0);
    MiddleKey(pre, (f, next.1), rest, next.0);
  }

  // ---------- RemoveTag and AddTag, exactly ----------

  /** The one way in which a shadowed removal is right: what is cut off the longer key ends in a comma,
      and the tag that follows at once is the one to be removed, with the same value. */
  predicate Restored(tags: seq<Tag>, key: Bytes) {
    var i := FirstEnding(tags, key);
    i + 1 < |tags| && EndsWith(tags[i].0, [','] + key) && tags[i + 1] == (key, tags[i].1)
  }

  lemma {:induction false} PrefixBare(q: Bytes, key: Bytes)
    requires Shut(q + key, {'='})
    ensures NoneBare(Escape(InKey, q), {'='})
  {
    EscapeAppend(InKey, q, key);
    EscapeSealed(InKey, q + key, {'='});
    hide Escape, Shut;
    var e := Escape(InKey, q);
    NoneBarePrefix(Escape(InKey, q + key), |e|, {'='});
    assert Escape(InKey, q + key)[..|e|] == e;
  }

  lemma {:induction false} EndsWithComma(q: Bytes, key: Bytes)
    requires q != []
    ensures EndsWith(q + key, [','] + key) <==> q[|q| - 1] == ','
  {
    var s, t := q + key, [','] + key;
    assert s[|s| - |t|..][0] == q[|q| - 1];
    assert s[|s| - |t|..] == [q[|q| - 1]] + key;
  }

  /** The block around the first tag whose key is longer than `key` and ends with it. */
  lemma {:induction false} Shadow(tags: seq<Tag>, key: Bytes) returns (q: Bytes)
    requires EditableTags(tags) && EditableKey(key) && !Unshadowed(tags, key)
    ensures FirstEnding(tags, key) < |tags|
    ensures
      var i := FirstEnding(tags, key);
      && q != [] && tags[i].0 == q + key && NoneBare(Escape(InKey, q), {'='})
      && tags == tags[..i] + [tags[i]] + tags[i + 1..]
      && Removed(TagBytes(tags), key) == TagBytes(tags[..i]) + StumpOf(q) + TagBytes(tags[i + 1..])
  {
    hide Escape, TagBytes, Removed, NoneBare, FirstEnding;
    var i := FirstEnding(tags, key);
    FirstEndingEnds(tags, key);
    var k := tags[i].0;
    q := k[..|k| - |key|];
    assert k == q + key;
    assert q == [] ==> k == key;
    assert EditableTag(tags[i]);
    PrefixBare(q, key);
    StumpIs(tags[i], q, key);
    RemovedBytes(tags, key);
  }

  lemma {:induction false} SoundParts(tags: seq<Tag>, i: nat)
    requires EditableTags(tags) && i < |tags|
    ensures SoundTags(tags[..i]) && SoundTags(tags[i + 1..])
  {
    EditableIsSound(tags);
  }

  lemma {:induction false} MiddleIn(pre: seq<Tag>, mid: Tag, rest: seq<Tag>)
    requires Distinct(pre + [mid] + rest)
    ensures
      var m := MapFrom(pre + [mid] + rest, NO_TAGS);
      mid.0 in m && m[mid.0] == mid.1
  {
    hide MapFrom;
    assert (pre + [mid] + rest)[|pre|] == mid;
    MapFromMembers(pre + [mid] + rest, NO_TAGS, mid.0);
  }

  lemma {:induction false} RemoveFused(pre: seq<Tag>, mid: Tag, next: Tag, rest: seq<Tag>, q: Bytes, key: Bytes)
    requires q != [] && key != [] && mid.0 == q + key && Distinct(pre + [mid] + [next] + rest)
    ensures
      var tags := pre + [mid] + [next] + rest;
      MapFrom(FusedTags(pre, q, [next] + rest), NO_TAGS) == MapFrom(tags, NO_TAGS) - {key} <==>
      EndsWith(mid.0, [','] + key) && next == (key, mid.1)
  {
    hide MapFrom, Fused, EndsWith;
    var tags := pre + [mid] + [next] + rest;
    var f := Fused(q, next.0);
    assert FusedTags(pre, q, [next] + rest) == pre + [(f, next.1)] + rest;
    assert tags == pre + [mid] + ([next] + rest) && tags == (pre + [mid]) + [next] + rest;
    MiddleIn(pre, mid, [next] + rest);
    MiddleIn(pre + [mid], next, rest);
    FusedBack(q, key);
    EndsWithComma(q, key);
    var want := MapFrom(tags, NO_TAGS) - {key};
    assert NO_TAGS - {key} == NO_TAGS;
    if MapFrom(pre + [(f, next.1)] + rest, NO_TAGS) == want {
      FusedAgrees(pre, mid, next, rest, f, key, want);
    } else if f == mid.0 && next == (key, mid.1) {
      WithoutOne(tags, key, |pre| + 1);
      assert tags[..|pre| + 1] + tags[|pre| + 2..] == pre + [mid] + rest;
      MapFromWithout(tags, key, NO_TAGS);
    }
  }

  /** RemoveTag is deletion from the tag map if and only if no longer key that ends with `key` comes first,
      or the one that does is restored by the tag behind it. */
  lemma {:induction false} RemoveRefines(tags: seq<Tag>, key: Bytes)
    requires EditableTags(tags) && Distinct(tags) && EditableKey(key)
    ensures TagsOf(TagBytes(tags)).Some?
    ensures TagsOf(Removed(TagBytes(tags), key)) == Some(TagsOf(TagBytes(tags)).value - {key}) <==>
            Unshadowed(tags, key) || Restored(tags, key)
  {
    hide Escape, Closed, Shut, TagBytes, Removed, MapFrom, TagsFrom, Fused, FirstEnding, NoneBare, EditableTags, SoundTags, Unshadowed,
      StumpOf;
    EditableIsSound(tags);
    TagsFromTagBytes(tags, NO_TAGS);
    if Unshadowed(tags, key) {
      RemoveUnshadowed(tags, key);
    } else {
      var q := Shadow(tags, key);
      var i := FirstEnding(tags, key);
      var pre, post := tags[..i], tags[i + 1..];
      SoundParts(tags, i);
      ReadBlock(pre, q, post);
      if post != [] {
        RemoveFused(pre, tags[i], post[0], post[1..], q, key);
        assert tags == pre + [tags[i]] + [post[0]] + post[1..];
      }
    }
  }

  /** Nothing follows the longer key: it is lost, since the new tag fuses with what is left of it. */
  lemma {:induction false} AddBehind(pre: seq<Tag>, mid: Tag, q: Bytes, key: Bytes, val: Bytes)
    requires q != [] && mid.0 == q + key && Distinct(pre + [mid])
    requires forall t :: t in pre ==> t.0 != key
    ensures MapFrom(FusedTags(pre, q, [(key, val)]), NO_TAGS) != MapFrom(pre + [mid], NO_TAGS)[key := val]
  {
    hide MapFrom, Fused;
    var f := Fused(q, key);
    assert FusedTags(pre, q, [(key, val)]) == pre + [(f, val)] + [];
    assert pre + [mid] + [] == pre + [mid];
    forall t | t in pre
      ensures t.0 != mid.0
    {
      var i :| 0 <= i < |pre| && pre[i] == t;
      assert (pre + [mid])[i] == t && (pre + [mid])[|pre|] == mid;
    }
    MiddleIn(pre, mid, []);
    MiddleKey(pre, (f, val), [], mid.0);
    MiddleKey(pre, (f, val), [], key);
  }

  lemma {:induction false} AddFused(pre: seq<Tag>, mid: Tag, next: Tag, rest: seq<Tag>, q: Bytes, key: Bytes,
      val: Bytes)
    requires q != [] && key != [] && mid.0 == q + key && Distinct(pre + [mid] + [next] + rest)
    ensures
      var tags := pre + [mid] + [next] + rest;
      MapFrom(FusedTags(pre, q, [next] + rest + [(key, val)]), NO_TAGS) == MapFrom(tags, NO_TAGS)[key := val] <==>
      EndsWith(mid.0, [','] + key) && next == (key, mid.1)
  {
    hide MapFrom, Fused, EndsWith;
    var tags := pre + [mid] + [next] + rest;
    var f := Fused(q, next.0);
    var read := pre + [(f, next.1)] + rest;
    assert FusedTags(pre, q, [next] + rest) == read;
    assert FusedTags(pre, q, [next] + rest + [(key, val)]) == read + [(key, val)];
    MapFromSnoc(read, (key, val), NO_TAGS);
    RemoveFused(pre, mid, next, rest, q, key);
    assert tags == pre + [mid] + ([next] + rest) && tags == (pre + [mid]) + [next] + rest;
    MiddleIn(pre, mid, [next] + rest);
    MiddleIn(pre + [mid], next, rest);
    var r, o := MapFrom(read, NO_TAGS), MapFrom(tags, NO_TAGS);
    assert (o - {key})[key := val] == o[key := val];
    if r[key := val] == o[key := val] {
      AddAgrees(pre, mid, next, rest, f, q, key, val);
    }
  }

  lemma {:induction false} AddAgrees(pre: seq<Tag>, mid: Tag, next: Tag, rest: seq<Tag>, f: Bytes,
      q: Bytes, key: Bytes, val: Bytes)
    requires q != [] && mid.0 == q + key && Distinct(pre + [mid] + [next] + rest) && f == Fused(q, next.0)
    requires MapFrom(pre + [(f, next.1)] + rest, NO_TAGS)[key := val] ==
             MapFrom(pre + [mid] + [next] + rest, NO_TAGS)[key := val]
    ensures EndsWith(mid.0, [','] + key) && next == (key, mid.1)
  {
    hide MapFrom, Fused, EndsWith;
    var tags := pre + [mid] + [next] + rest;
    assert tags == pre + [mid] + ([next] + rest) && tags == (pre + [mid]) + [next] + rest;
    MiddleIn(pre, mid, [next] + rest);
    MiddleIn(pre + [mid], next, rest);
    var r := MapFrom(pre + [(f, next.1)] + rest, NO_TAGS);
    assert mid.0 != key;
    assert mid.0 in r[key := val] && next.0 in r[key := val];
    assert mid.0 in r && r[mid.0] == mid.1 && (next.0 != key ==> next.0 in r);
    FusedAgrees(pre, mid, next, rest, f, key, r);
    FusedBack(q, key);
    EndsWithComma(q, key);
  }

  /** AddTag is update of the tag map under exactly the same condition. */
  lemma {:induction false} AddRefines(tags: seq<Tag>, key: Bytes, val: Bytes)
    requires EditableTags(tags) && Distinct(tags) && EditableKey(key) && Shut(val, {','})
    ensures TagsOf(TagBytes(tags)).Some?
    ensures TagsOf(Added(TagBytes(tags), key, val)) == Some(TagsOf(TagBytes(tags)).value[key := val]) <==>
            Unshadowed(tags, key) || Restored(tags, key)
  {
    hide Escape, Closed, Shut, TagText, TagBytes, Removed, MapFrom, TagsFrom, Fused, FirstEnding, NoneBare, EditableTags,
      Unshadowed, StumpOf;
    EditableIsSound(tags);
    TagsFromTagBytes(tags, NO_TAGS);
    if Unshadowed(tags, key) {
      AddUnshadowed(tags, key, val);
    } else {
      var q := Shadow(tags, key);
      var i := FirstEnding(tags, key);
      var pre, post := tags[..i], tags[i + 1..];
      SoundParts(tags, i);
      ShutLess(key, {',', '='}, {'='});
      TagBytesSnoc(post, (key, val));
      assert Added(TagBytes(tags), key, val) == TagBytes(pre) + StumpOf(q) + TagBytes(post + [(key, val)]);
      ReadBlock(pre, q, post + [(key, val)]);
      if post == [] {
        assert tags == pre + [tags[i]] && post + [(key, val)] == [(key, val)];
        AddBehind(pre, tags[i], q, key, val);
      } else {
        AddFused(pre, tags[i], post[0], post[1..], q, key, val);
        assert post + [(key, val)] == [post[0]] + post[1..] + [(key, val)];
        assert tags == pre + [tags[i]] + [post[0]] + post[1..];
      }
    }
  }

  lemma {:induction false} ExampleEditable(tags: seq<Tag>)
    requires tags == [("xa", "1"), ("a", "2")]
    ensures EditableTags(tags) && EditableKey("a")
  {
    PlainEditable("xa", "1");
    PlainEditable("a", "2");
    hide EditableTag;
  }

  lemma {:induction false} ExampleBefore(tags: seq<Tag>)
    requires tags == [("xa", "1"), ("a", "2")] && EditableTags(tags)
    ensures TagBytes(tags) == ",xa=1,a=2" && TagsOf(",xa=1,a=2") == Some(map["xa" := "1", "a" := "2"])
  {
    ExampleText(tags);
    hide Closed, Shut, EditableTags, Distinct, TagBytes, TagsOf;
    EditableIsSound(tags);
    TagsFromTagBytes(tags, NO_TAGS);
    TagsOfIs(TagBytes(tags));
    assert tags == [] + [("xa", "1")] + [("a", "2")];
    MapFromSnoc([], ("xa", "1"), NO_TAGS);
    MapFromSnoc([] + [("xa", "1")], ("a", "2"), NO_TAGS);
  }

  lemma {:induction false} ExampleText(tags: seq<Tag>)
    requires tags == [("xa", "1"), ("a", "2")]
    ensures TagBytes(tags) == ",xa=1,a=2" && TagBytes(tags[1..]) == ",a=2" && StumpOf("x") == ","
  {
    assert Escape(InKey, "xa") == "xa" && Escape(InKey, "a") == "a";
    assert Escape(InKey, "1") == "1" && Escape(InKey, "2") == "2" && Escape(InKey, "x") == "x";
    hide Escape;
    assert TagText(("a", "2")) == ",a=2" && TagText(("xa", "1")) == ",xa=1";
    hide TagText;
    assert TagBytes(tags[1..]) == ",a=2" + TagBytes(tags[2..]);
    assert TagBytes(tags) == ",xa=1" + TagBytes(tags[1..]);
  }

  /** A key that is set, but behind a longer one: from xa=1,a=2 removing a leaves ,,a=2, which Tags reads as
      one tag with the key ,a. */
  lemma {:induction false} RemovePresentExample(tags: seq<Tag>)
    requires tags == [("xa", "1"), ("a", "2")]
    ensures EditableTags(tags) && Distinct(tags) && EditableKey("a") && !Unshadowed(tags, "a") && !Restored(tags, "a")
    ensures TagBytes(tags) == ",xa=1,a=2" && TagsOf(",xa=1,a=2") == Some(map["xa" := "1", "a" := "2"])
    ensures Removed(TagBytes(tags), "a") == ",,a=2" && TagsOf(",,a=2") == Some(map[",a" := "2"])
  {
    hide Shut, EditableKey, EditableTags, Distinct, Escape, TagBytes, Removed, TagsOf, FirstEnding, Fused, NoneBare, EndsWith, Unshadowed,
      Restored, StumpOf;
    ExampleEditable(tags);
    ExampleShadow(tags);
    ExampleBefore(tags);
    ExampleText(tags);
    var q := Shadow(tags, "a");
    ExampleStump(q);
    SoundParts(tags, 0);
    assert tags[..0] == [] && tags[1..] == [("a", "2")];
    assert TagBytes([]) == [] by { OneTag(("a", "2")); }
    ReadBlock(tags[..0], q, tags[1..]);
    FusedIs("x", "a");
    assert Fused(q, "a") == ",a";
    assert FusedTags([], q, tags[1..]) == [] + [(",a", "2")];
    MapFromSnoc([], (",a", "2"), NO_TAGS);
  }

  lemma {:induction false} ExampleStump(q: Bytes)
    requires q + "a" == "xa"
    ensures q == "x"
  {
    assert |q + "a"| == |"xa"|;
    assert q[0] == (q + "a")[0];
  }

  lemma {:induction false} ExampleShadow(tags: seq<Tag>)
    requires tags == [("xa", "1"), ("a", "2")]
    ensures FirstEnding(tags, "a") == 0 && !Unshadowed(tags, "a") && !Restored(tags, "a") && Distinct(tags)
  {
    assert EndsWith("xa", "a");
    assert "xa"[..] == ['x', 'a'] && [','] + "a" == [',', 'a'];
  }

  // ---------- the restored blocks ----------

  lemma {:induction false} ChanceEscape(q: Bytes, key: Bytes)
    ensures Escape(InKey, q + [','] + key) == Escape(InKey, q) + ['\\', ','] + Escape(InKey, key)
  {
    assert Escape(InKey, [',']) == ['\\', ','] + [];
    hide Escape;
    EscapeAppend(InKey, q + [','], key);
    EscapeAppend(InKey, q, [',']);
  }

  lemma {:induction false} ChanceOrder(first: Tag, second: Tag)
    requires second.0 != [] && EndsWith(first.0, second.0) && first.0 != second.0
    ensures FirstEnding([first, second], second.0) == 0 && !Unshadowed([first, second], second.0)
    ensures Without([first, second], second.0) == [first]
  {
    assert [first, second][1..] == [second] && [second][1..] == [];
    assert Without([second], second.0) == [] + Without([], second.0) == [];
    assert Without([first, second], second.0) == [first] + Without([second], second.0);
  }

  /** A restored block, byte for byte: where a tag q,key comes before a tag key with the same value, the
      bytes that are cut out of the first and the bytes of the second make up the first again. */
  lemma {:induction false} RemoveShadowedByChance(q: Bytes, key: Bytes, val: Bytes, tags: seq<Tag>)
    requires tags == [(q + [','] + key, val), (key, val)] && EditableTags(tags) && EditableKey(key)
    ensures !Unshadowed(tags, key)
    ensures Removed(TagBytes(tags), key) == TagBytes([tags[0]]) && Without(tags, key) == [tags[0]]
  {
    hide Closed, Shut, Removed, TagText, TagBytes, Escape, FirstEnding, Without, Unshadowed, Stump;
    assert EditableTag(tags[0]) && EditableTag(tags[1]);
    ChanceOrder(tags[0], tags[1]);
    RemovedBytes(tags, key);
    assert tags[..0] == [] && tags[1..] == [tags[1]];
    ChanceStump(q, key, val);
    OneTag(tags[0]);
    OneTag(tags[1]);
  }

  lemma {:induction false} ChanceStump(q: Bytes, key: Bytes, val: Bytes)
    ensures Stump((q + [','] + key, val), key) + TagText((key, val)) == TagText((q + [','] + key, val))
  {
    hide Escape;
    ChanceEscape(q, key);
    ChanceText(Escape(InKey, q), Escape(InKey, key), Escape(InKey, val), Escape(InKey, q + [','] + key));
  }

  lemma {:induction false} ChanceText(q: Bytes, f: Bytes, v: Bytes, k: Bytes)
    requires k == q + ['\\', ','] + f
    ensures ([','] + k)[..|k| - |f|] + ([','] + f + ['='] + v) == [','] + k + ['='] + v
  {
    assert ([','] + k)[..|k| - |f|] == [','] + q + ['\\'];
  }
}
