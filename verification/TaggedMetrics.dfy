/** The metric object whose methods overwrite name, tags and the cached hash (report/metric/metric.go). */
module TaggedMetrics {
  import opened ByteStrings
  import opened Escaping
  import opened Lines
  import opened Building
  import opened TagLookup
  import opened TagEditing
  import opened Sorting

  // ---------- the hash ----------

  /** One byte of the hash; FNV's multiplication is not part of the model. */
  type HashStep = (nat, char) -> nat

  const OFFSET := 14695981039346656037

  /** h.Write(s) */
  function Feed(step: HashStep, h: nat, s: Bytes): nat
    decreases |s|
  {
    if s == [] then h else Feed(step, step(h, s[0]), s[1..])
  }

  lemma {:induction false} FeedAppend(step: HashStep, h: nat, a: Bytes, b: Bytes)
    ensures Feed(step, h, a + b) == Feed(step, Feed(step, h, a), b)
    ensures |a| == 1 ==> Feed(step, h, a) == step(h, a[0])
    decreases |a|
  {
    if a == [] {
      assert a + b == b;
    } else {
      assert (a + b)[1..] == a[1..] + b;
      FeedAppend(step, step(h, a[0]), a[1..], b);
    }
  }

  /** The texts key+value of a tag map, in some order. */
  ghost function PairTexts(keys: set<Bytes>, tags: TagMap): seq<Bytes>
    requires keys <= tags.Keys
    decreases keys
  {
    if keys == {} then []
    else var k :| k in keys; [k + tags[k]] + PairTexts(keys - {k}, tags)
  }

  /** No walk of the map gives other texts than any other. */
  lemma {:induction false} PairTextsWithout(keys: set<Bytes>, tags: TagMap, k: Bytes)
    requires keys <= tags.Keys && k in keys
    ensures multiset(PairTexts(keys, tags)) == multiset{k + tags[k]} + multiset(PairTexts(keys - {k}, tags))
    decreases keys
  {
    var x :| x in keys && PairTexts(keys, tags) == [x + tags[x]] + PairTexts(keys - {x}, tags);
    if x != k {
      PairTextsWithout(keys - {x}, tags, k);
      PairTextsWithout(keys - {k}, tags, x);
      assert keys - {x} - {k} == keys - {k} - {x};
    }
  }

  /** The hash as a function of the name and of the tag map alone. */
  ghost function HashOf(step: HashStep, name: Bytes, tags: TagMap): nat {
    Feed(step, Feed(step, OFFSET, name), Concat(Sort(PairTexts(tags.Keys, tags))))
  }

  /** Two walks of the same map are sorted into the same list. */
  lemma {:induction false} SortedTextsUnique(tags: TagMap, sorted: seq<Bytes>)
    requires Sorted(sorted) && multiset(sorted) == multiset(PairTexts(tags.Keys, tags))
    ensures sorted == Sort(PairTexts(tags.Keys, tags))
  {
    SortSorts(PairTexts(tags.Keys, tags));
    SortedUnique(sorted, Sort(PairTexts(tags.Keys, tags)));
  }

  /** The texts key+value in the order of `order`. */
  function TextsIn(order: seq<Bytes>, tags: TagMap): (texts: seq<Bytes>)
    requires forall k :: k in order ==> k in tags
    ensures |texts| == |order|
  {
    seq(|order|, i requires 0 <= i < |order| => order[i] + tags[order[i]])
  }

  lemma {:induction false} TextsInAny(order: seq<Bytes>, keys: set<Bytes>, tags: TagMap)
    requires keys <= tags.Keys && forall k :: k in order <==> k in keys
    requires forall i, j :: 0 <= i < j < |order| ==> order[i] != order[j]
    ensures multiset(TextsIn(order, tags)) == multiset(PairTexts(keys, tags))
  {
    if order == [] {
      assert keys == {};
    } else {
      hide PairTexts;
      var k := order[0];
      ListedRest(order, keys);
      TextsInAny(order[1..], keys - {k}, tags);
      PairTextsWithout(keys, tags, k);
      TextsInCons(order, tags);
    }
  }

  lemma {:induction false} ListedRest(order: seq<Bytes>, keys: set<Bytes>)
    requires order != [] && forall k :: k in order <==> k in keys
    requires forall i, j :: 0 <= i < j < |order| ==> order[i] != order[j]
    ensures order[0] in keys && forall k :: k in order[1..] <==> k in keys - {order[0]}
  {
    forall k
      ensures k in order[1..] <==> k in keys - {order[0]}
    {
      if k in keys - {order[0]} {
        var i :| 0 <= i < |order| && order[i] == k;
        assert order[1..][i - 1] == k;
      }
    }
  }

  lemma {:induction false} TextsInCons(order: seq<Bytes>, tags: TagMap)
    requires order != [] && forall k :: k in order ==> k in tags
    ensures multiset(TextsIn(order, tags)) == multiset{order[0] + tags[order[0]]} + multiset(TextsIn(order[1..], tags))
  {
    assert TextsIn(order, tags) == [order[0] + tags[order[0]]] + TextsIn(order[1..], tags);
  }

  /** The hash takes in the name and then, in lexicographic order, each key with its value behind it. */
  lemma {:induction false} HashMeans(step: HashStep, name: Bytes, tags: TagMap, order: seq<Bytes>)
    requires forall k :: k in order <==> k in tags
    requires forall i, j :: 0 <= i < j < |order| ==> order[i] != order[j]
    ensures HashOf(step, name, tags) == Feed(step, OFFSET, name + Concat(Sort(TextsIn(order, tags))))
  {
    var texts := TextsIn(order, tags);
    TextsInAny(order, tags.Keys, tags);
    SortSorts(texts);
    SortedTextsUnique(tags, Sort(texts));
    FeedAppend(step, OFFSET, name, Concat(Sort(texts)));
  }

  class TaggedMetric {
    var name: Bytes
    var tags: Bytes
    var hashID: nat
    const step: HashStep

    /** The cached hash, if there is one, is the hash of what the metric now holds. */
    ghost predicate Valid()
      reads this
    {
      && Started(tags)
      && (hashID != 0 ==> TagsOf(tags).Some? && hashID == HashOf(step, name, TagsOf(tags).value))
    }

    constructor (name: Bytes, tags: Bytes, step: HashStep)
      requires Started(tags)
      ensures Valid() && this.name == name && this.tags == tags && this.step == step && hashID == 0
    {
      this.name, this.tags, this.step, hashID := name, tags, step, 0;
    }

    method SetName(text: Bytes)
      requires Valid()
      modifies this
      ensures Valid() && name == Escape(InName, text) && tags == old(tags)
    {
      hashID := 0;
      name := Escape(InName, text);
    }

    method SetPrefix(prefix: Bytes)
      requires Valid()
      modifies this
      ensures Valid() && name == Escape(InName, prefix) + old(name) && tags == old(tags)
    {
      hashID := 0;
      name := Escape(InName, prefix) + name;
    }

    method SetSuffix(suffix: Bytes)
      requires Valid()
      modifies this
      ensures Valid() && name == old(name) + Escape(InName, suffix) && tags == old(tags)
    {
      hashID := 0;
      name := name + Escape(InName, suffix);
    }

    method HasTag(key: Bytes) returns (has: bool)
      ensures has == Has(tags, key)
    {
      var i := IndexOf(tags, Escape(InKey, key) + ['=']);
      if i == -1 {
        return false;
      }
      return true;
    }

    method RemoveTag(key: Bytes)
      requires Valid()
      modifies this
      ensures Valid() && name == old(name) && tags == Removed(old(tags), key) && hashID == 0
    {
      hashID := 0;
      RemovedStarted(tags, key);
      PatternNotFirst(tags, key);
      var i := IndexOf(tags, Escape(InKey, key) + ['=']);
      if i == -1 {
        return;
      }
      var tmp := tags[0..i - 1];
      var j := IndexUnescapedByte(tags[i..], ',');
      if j != -1 {
        tmp := tmp + tags[i + j..];
      }
      tags := tmp;
    }

    method AddTag(key: Bytes, val: Bytes)
      requires Valid()
      modifies this
      ensures Valid() && name == old(name) && tags == Added(old(tags), key, val) && hashID == 0
    {
      RemoveTag(key);
      tags := tags + (([','] + Escape(InKey, key)) + ['='] + Escape(InKey, val));
    }

    /** None where Tags indexes out of range. */
    method HashID() returns (id: Option<nat>)
      requires Valid()
      modifies this`hashID
      ensures Valid()
      ensures TagsOf(tags).None? ==> id == None && hashID == 0
      ensures TagsOf(tags).Some? ==> id == Some(HashOf(step, name, TagsOf(tags).value)) && hashID == id.value
    {
      if hashID == 0 {
        var h := Feed(step, OFFSET, name);
        var found := Tags(tags);
        if found.None? {
          return None;
        }
        h := FeedTags(h, found.value);
        hashID := h;
      }
      return Some(hashID);
    }

    method FeedTags(start: nat, found: TagMap) returns (h: nat)
      ensures h == Feed(step, start, Concat(Sort(PairTexts(found.Keys, found))))
    {
      var tmp: seq<Bytes> := [];
      var left := found.Keys;
      while left != {}
        invariant left <= found.Keys
        invariant multiset(tmp) + multiset(PairTexts(left, found)) == multiset(PairTexts(found.Keys, found))
        decreases left
      {
        var k :| k in left;
        PairTextsWithout(left, found, k);
        tmp := tmp + [k + found[k]];
        left := left - {k};
      }
      tmp := SortStrings(tmp);
      SortedTextsUnique(found, tmp);
      h := FeedAll(start, tmp);
    }

    method FeedAll(start: nat, texts: seq<Bytes>) returns (h: nat)
      ensures h == Feed(step, start, Concat(texts))
    {
      h := start;
      for i := 0 to |texts|
        invariant h == Feed(step, start, Concat(texts[..i]))
      {
        ConcatStep(texts, i);
        FeedAppend(step, start, Concat(texts[..i]), texts[i]);
        h := Feed(step, h, texts[i]);
      }
      assert texts[..|texts|] == texts;
    }
  }

  // ---------- the order of the tags ----------

  /** Metrics whose tags are the same up to order have the same tag map, hence the same hash. */
  lemma {:induction false} OrderDoesNotMatter(step: HashStep, name: Bytes, a: seq<Tag>, b: seq<Tag>)
    requires SoundTags(a) && Distinct(a) && SoundTags(b) && Distinct(b) && multiset(a) == multiset(b)
    ensures TagsOf(TagBytes(a)).Some? && TagsOf(TagBytes(a)) == TagsOf(TagBytes(b))
    ensures HashOf(step, name, TagsOf(TagBytes(a)).value) == HashOf(step, name, TagsOf(TagBytes(b)).value)
  {
    hide TagBytes, MapFrom, Shut, HashOf;
    TagsFromTagBytes(a, map[]);
    TagsFromTagBytes(b, map[]);
    assert forall t :: t in a <==> t in multiset(a);
    assert forall t :: t in b <==> t in multiset(b);
    var x, y := MapFrom(a, NO_TAGS), MapFrom(b, NO_TAGS);
    forall k
      ensures (k in x <==> k in y) && (k in x ==> x[k] == y[k])
    {
      MapFromMembers(a, NO_TAGS, k);
      MapFromMembers(b, NO_TAGS, k);
      if t :| t in a && t.0 == k {
        assert t in b;
      }
    }
    assert x == y;
  }
}
