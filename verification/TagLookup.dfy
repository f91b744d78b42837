/** Tags (report/metric/metric.go): reading the tag pairs back from the escaped bytes. */
module TagLookup {
  import opened ByteStrings
  import opened Escaping
  import opened Lines
  import opened Building

  type TagMap = map<Bytes, Bytes>

  /** The first pair at the start of a block: none, one that cannot be cut out because an index is
      out of range, the last one, or one with a rest still to be read. */
  datatype Cut = Nothing | Broken | Last(key: Bytes, val: Bytes) | More(key: Bytes, val: Bytes, rest: Bytes)

  function CutTag(s: Bytes): (c: Cut)
    ensures c.More? ==> |c.rest| < |s|
  {
    var i0 := IndexBare(s, ',') + 1;
    var i1 := IndexBare(s, '=');
    if i0 == 0 then Nothing
    else if i1 < i0 then Broken
    else CutValue(s[i0..i1], s[i1 + 1..])
  }

  function CutValue(key: Bytes, after: Bytes): (c: Cut)
    ensures !c.Nothing? && !c.Broken?
    ensures c.More? ==> |c.rest| <= |after|
  {
    var i3 := IndexBare(after, ',');
    if i3 == -1 then Last(key, after) else More(key, after[..i3], after[i3..])
  }

  function Enter(acc: TagMap, key: Bytes, val: Bytes): TagMap {
    acc[Unescape(InKey, key) := Unescape(InKey, val)]
  }

  /** The tags found from the start of s on, added to `acc`; None where the original indexes out
      of range. */
  function TagsFrom(s: Bytes, acc: TagMap): Option<TagMap>
    decreases |s|
  {
    match CutTag(s)
    case Nothing => Some(acc)
    case Broken => None
    case Last(key, val) => Some(Enter(acc, key, val))
    case More(key, val, rest) => TagsFrom(rest, Enter(acc, key, val))
  }

  function TagsOf(tags: Bytes): Option<TagMap> {
    TagsFrom(tags, map[])
  }

  /** One turn of Tags' loop on s = tags[i:]; `next` is how far the loop then moves on. */
  method ReadTag(s: Bytes) returns (c: Cut, next: nat)
    ensures c == CutTag(s)
    ensures c.More? ==> 0 < next <= |s| && c.rest == s[next..]
  {
    next := 0;
    var i0 := IndexUnescapedByte(s, ',');
    i0 := i0 + 1;
    if i0 == 0 {
      return Nothing, next;
    }
    var i1 := IndexUnescapedByte(s, '=');
    var i2 := i1 + 1;
    if i1 < i0 {
      return Broken, next;
    }
    var i3 := IndexUnescapedByte(s[i2..], ',');
    if i3 == -1 {
      return Last(s[i0..i1], s[i2..]), next;
    }
    next := i2 + i3;
    c := More(s[i0..i1], s[i2..i2 + i3], s[next..]);
    assert s[i2..][..i3] == s[i2..i2 + i3] && s[i2..][i3..] == s[next..];
  }

  method Tags(tags: Bytes) returns (r: Option<TagMap>)
    ensures r == TagsOf(tags)
  {
    hide CutTag, Unescape;
    var tagMap: TagMap := map[];
    if |tags| == 0 {
      NothingLeft(tagMap);
      return Some(tagMap);
    }
    var i := 0;
    while true
      invariant 0 <= i <= |tags| && TagsFrom(tags[i..], tagMap) == TagsOf(tags)
      decreases |tags| - i
    {
      var c, next := ReadTag(tags[i..]);
      match c {
        case Nothing => return Some(tagMap);
        case Broken => return None;
        case Last(key, val) => return Some(Enter(tagMap, key, val));
        case More(key, val, _) =>
          tagMap := Enter(tagMap, key, val);
          assert tags[i..][next..] == tags[i + next..];
          i := i + next;
      }
    }
  }

  lemma {:induction false} NothingLeft(acc: TagMap)
    ensures TagsFrom([], acc) == Some(acc)
  {
  }

  /** What the search by parity needs: no '=' under an escape in the key and no comma under one in the value. */
  predicate SoundTag(tag: Tag) {
    Shut(tag.0, {'='}) && Shut(tag.1, {','})
  }

  ghost predicate SoundTags(tags: seq<Tag>) {
    forall i :: 0 <= i < |tags| ==> SoundTag(tags[i])
  }

  function MapFrom<T>(pairs: seq<(Bytes, T)>, acc: map<Bytes, T>): map<Bytes, T> {
    if pairs == [] then acc else MapFrom(pairs[1..], acc[pairs[0].0 := pairs[0].1])
  }

  lemma {:induction false} CutTagText(key: Bytes, val: Bytes, rest: Bytes)
    requires Shut(key, {'='}) && Shut(val, {','}) && (rest != [] ==> rest[0] == ',')
    ensures CutTag(TagText((key, val)) + rest) ==
            if rest == [] then Last(Escape(InKey, key), Escape(InKey, val))
            else More(Escape(InKey, key), Escape(InKey, val), rest)
  {
    hide Escape, Shut, CutValue;
    var k, after := Escape(InKey, key), Escape(InKey, val) + rest;
    var s := TagText((key, val)) + rest;
    EscapeSealed(InKey, key, {'='});
    assert !Escaped([','], 0) && !Escaped([], 0);
    IndexBareAt(s, [], ',', s[1..]);
    SealedConcat([','], k, {'='});
    IndexBareAt(s, [','] + k, '=', after);
    assert s[1..1 + |k|] == k by {
      assert s[..1 + |k|][1..] == k;
    }
    CutValueText(k, val, rest);
  }

  lemma {:induction false} CutValueText(key: Bytes, val: Bytes, rest: Bytes)
    requires Shut(val, {','}) && (rest != [] ==> rest[0] == ',')
    ensures CutValue(key, Escape(InKey, val) + rest) ==
            if rest == [] then Last(key, Escape(InKey, val)) else More(key, Escape(InKey, val), rest)
  {
    var v := Escape(InKey, val);
    EscapeSealed(InKey, val, {','});
    assert rest != [] ==> IndexBare(rest, ',') == 0;
    IndexBareSkips(v, rest, ',');
    assert rest == [] ==> v + rest == v;
    assert (v + rest)[..|v|] == v && (v + rest)[|v|..] == rest;
  }

  /** One written tag is read as that tag. */
  lemma {:induction false} TagsFromOne(tag: Tag, rest: Bytes, acc: TagMap)
    requires SoundTag(tag) && (rest != [] ==> rest[0] == ',')
    ensures TagsFrom(TagText(tag) + rest, acc) == TagsFrom(rest, acc[tag.0 := tag.1])
  {
    hide CutTag, Escape, Unescape, Shut, TagText;
    CutTagText(tag.0, tag.1, rest);
    UnescapeEscape(InKey, tag.0);
    UnescapeEscape(InKey, tag.1);
    NothingLeft(acc[tag.0 := tag.1]);
  }

  lemma {:induction false} TagBytesStart(tags: seq<Tag>)
    ensures TagBytes(tags) != [] ==> TagBytes(tags)[0] == ','
    ensures TagBytes(tags) == [] <==> tags == []
  {
  }

  /** Tags inverts the tag block that New writes, for any list of sound tags. */
  lemma {:induction false} TagsFromTagBytes(tags: seq<Tag>, acc: TagMap)
    requires SoundTags(tags)
    ensures TagsFrom(TagBytes(tags), acc) == Some(MapFrom(tags, acc))
  {
    hide TagsFrom, TagText, SoundTag;
    if tags == [] {
      NothingLeft(acc);
    } else {
      TagBytesStart(tags[1..]);
      TagsFromOne(tags[0], TagBytes(tags[1..]), acc);
      TagsFromTagBytes(tags[1..], acc[tags[0].0 := tags[0].1]);
    }
  }

  /** What Tags reports for a metric that New made from the map: every pair with a non-empty key and
      value, whatever the order the map was walked in. */
  function KeptTags(tags: map<Bytes, Bytes>): TagMap {
    map k | k in tags && k != [] && tags[k] != [] :: tags[k]
  }

  function KeptAmong(order: seq<Bytes>, tags: map<Bytes, Bytes>): TagMap
    requires forall k :: k in order ==> k in tags
  {
    map k | k in order && Kept(tags, k) :: tags[k]
  }

  lemma {:induction false} MapFromTagsIn(order: seq<Bytes>, tags: map<Bytes, Bytes>, acc: TagMap)
    requires forall k :: k in order ==> k in tags
    ensures MapFrom(TagsIn(order, tags), acc) == acc + KeptAmong(order, tags)
  {
    if order != [] {
      var k := order[0];
      var next := if Kept(tags, k) then acc[k := tags[k]] else acc;
      MapFromTagsIn(order[1..], tags, next);
      KeptStep(order, tags, acc);
      assert TagsIn(order, tags) == TagIfKept(k, tags) + TagsIn(order[1..], tags);
      assert Kept(tags, k) ==> TagsIn(order, tags)[1..] == TagsIn(order[1..], tags);
      assert !Kept(tags, k) ==> TagsIn(order, tags) == TagsIn(order[1..], tags);
    }
  }

  lemma {:induction false} KeptStep(order: seq<Bytes>, tags: map<Bytes, Bytes>, acc: TagMap)
    requires order != [] && forall k :: k in order ==> k in tags
    ensures
      var k := order[0];
      (if Kept(tags, k) then acc[k := tags[k]] else acc) + KeptAmong(order[1..], tags) == acc + KeptAmong(order, tags)
  {
    assert forall x :: x in order <==> x == order[0] || x in order[1..];
  }

  lemma {:induction false} TagsInSound(order: seq<Bytes>, tags: map<Bytes, Bytes>)
    requires forall k :: k in order ==> k in tags && (Kept(tags, k) ==> SoundTag((k, tags[k])))
    ensures SoundTags(TagsIn(order, tags))
  {
    if order != [] {
      TagsInSound(order[1..], tags);
    }
  }

  lemma {:induction false} TagsOfNew(order: seq<Bytes>, tags: map<Bytes, Bytes>)
    requires Enumerates(order, tags.Keys)
    requires forall k :: k in tags && k != [] && tags[k] != [] ==> SoundTag((k, tags[k]))
    ensures TagsOf(TagBytes(TagsIn(order, tags))) == Some(KeptTags(tags))
  {
    hide TagsFrom, TagBytes, TagsIn, MapFrom, SoundTag, SoundTags;
    TagsInSound(order, tags);
    TagsFromTagBytes(TagsIn(order, tags), map[]);
    MapFromTagsIn(order, tags, map[]);
    assert map[] + KeptAmong(order, tags) == KeptTags(tags);
  }
}
