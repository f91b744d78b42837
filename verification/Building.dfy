/** New (report/metric/metric.go): escaping a name, a tag map and a field map into a metric. */
module Building {
  import opened ByteStrings
  import opened Escaping
  import opened Decimals
  import opened Lines

  // ---------- what is written ----------

  function TagText(tag: Tag): Bytes {
    [','] + Escape(InKey, tag.0) + ['='] + Escape(InKey, tag.1)
  }

  function TagBytes(tags: seq<Tag>): Bytes {
    if tags == [] then [] else TagText(tags[0]) + TagBytes(tags[1..])
  }

  /** What becomes of a value: unsigned integers are capped at the largest int64. */
  function Stored(v: Value): Value {
    match v
    case Uint(u) => Int(Least(u, MAX_INT64))
    case _ => v
  }

  function ValueText(v: Value): Bytes {
    match v
    case Int(i) => FormatInt(i) + ['i']
    case Uint(u) => FormatInt(Least(u, MAX_INT64)) + ['i']
    case Bool(b) => if b then "true" else "false"
    case Text(s) => ['"'] + Escape(InString, s) + ['"']
    case Float(text) => text
  }

  function FieldText(field: Field): Bytes {
    Escape(InKey, field.0) + ['='] + ValueText(field.1)
  }

  function FieldBytes(fields: seq<Field>): Bytes {
    if fields == [] then []
    else FieldText(fields[0]) + (if |fields| == 1 then [] else [','] + FieldBytes(fields[1..]))
  }

  lemma {:induction false} TagBytesSnoc(tags: seq<Tag>, tag: Tag)
    ensures TagBytes(tags + [tag]) == TagBytes(tags) + TagText(tag)
  {
    if tags == [] {
      assert (tags + [tag])[1..] == [];
    } else {
      assert (tags + [tag])[1..] == tags[1..] + [tag];
      TagBytesSnoc(tags[1..], tag);
    }
  }

  lemma {:induction false} TagBytesAppend(a: seq<Tag>, b: seq<Tag>)
    ensures TagBytes(a + b) == TagBytes(a) + TagBytes(b)
  {
    if a == [] {
      assert a + b == b;
    } else {
      assert (a + b)[1..] == a[1..] + b;
      TagBytesAppend(a[1..], b);
    }
  }

  lemma {:induction false} FieldBytesSnoc(fields: seq<Field>, field: Field)
    ensures FieldBytes(fields + [field]) ==
            FieldBytes(fields) + (if fields == [] then [] else [',']) + FieldText(field)
  {
    hide FieldText;
    if fields == [] {
      assert (fields + [field])[1..] == [];
    } else {
      assert (fields + [field])[1..] == fields[1..] + [field];
      FieldBytesSnoc(fields[1..], field);
    }
  }

  // ---------- the order in which a Go map is walked ----------

  /** `order` visits every member of `keys` exactly once. */
  ghost predicate Enumerates(order: seq<Bytes>, keys: set<Bytes>) {
    (forall k :: k in order <==> k in keys)
    && forall i, j :: 0 <= i < j < |order| ==> order[i] != order[j]
  }

  lemma {:induction false} EnumeratesSnoc(order: seq<Bytes>, keys: set<Bytes>, left: set<Bytes>, k: Bytes)
    requires left <= keys && k in left && Enumerates(order, keys - left)
    ensures Enumerates(order + [k], keys - (left - {k}))
  {
  }

  predicate Kept(tags: map<Bytes, Bytes>, k: Bytes)
    requires k in tags
  {
    k != [] && tags[k] != []
  }

  function TagIfKept(k: Bytes, tags: map<Bytes, Bytes>): seq<Tag>
    requires k in tags
  {
    if Kept(tags, k) then [(k, tags[k])] else []
  }

  /** The tags that New writes when it walks the map in `order`: none with an empty key or value. */
  function TagsIn(order: seq<Bytes>, tags: map<Bytes, Bytes>): seq<Tag>
    requires forall k :: k in order ==> k in tags
  {
    if order == [] then []
    else TagIfKept(order[0], tags) + TagsIn(order[1..], tags)
  }

  function FieldsIn(order: seq<Bytes>, fields: map<Bytes, Value>): (fs: seq<Field>)
    requires forall k :: k in order ==> k in fields
    ensures |fs| == |order|
    ensures forall i :: 0 <= i < |fs| ==> fs[i] == (order[i], fields[order[i]])
  {
    seq(|order|, i requires 0 <= i < |order| => (order[i], fields[order[i]]))
  }

  lemma {:induction false} TagsInSnoc(order: seq<Bytes>, tags: map<Bytes, Bytes>, k: Bytes)
    requires k in tags && forall x :: x in order ==> x in tags
    ensures TagsIn(order + [k], tags) == TagsIn(order, tags) + TagIfKept(k, tags)
  {
    hide TagIfKept;
    if order == [] {
      assert (order + [k])[1..] == [];
    } else {
      assert (order + [k])[1..] == order[1..] + [k];
      TagsInSnoc(order[1..], tags, k);
    }
  }

  /** The bytes one pass over `keys` needs, whatever the order: the sum does not depend on it. */
  ghost function TagRoom(keys: set<Bytes>, tags: map<Bytes, Bytes>): nat
    requires keys <= tags.Keys
    decreases keys
  {
    if keys == {} then 0
    else var k :| k in keys; TagSize(tags, k) + TagRoom(keys - {k}, tags)
  }

  function TagSize(tags: map<Bytes, Bytes>, k: Bytes): nat
    requires k in tags
  {
    if Kept(tags, k) then 2 + |Escape(InKey, k)| + |Escape(InKey, tags[k])| else 0
  }

  lemma {:induction false} TagRoomWithout(keys: set<Bytes>, tags: map<Bytes, Bytes>, k: Bytes)
    requires keys <= tags.Keys && k in keys
    ensures TagRoom(keys, tags) == TagSize(tags, k) + TagRoom(keys - {k}, tags)
    decreases keys
  {
    var x :| x in keys && TagRoom(keys, tags) == TagSize(tags, x) + TagRoom(keys - {x}, tags);
    if x != k {
      TagRoomWithout(keys - {x}, tags, k);
      TagRoomWithout(keys - {k}, tags, x);
      assert keys - {x} - {k} == keys - {k} - {x};
    }
  }

  // ---------- New ----------

  datatype NewError = NoFields | NoName

  /** The two passes over the tag map. The passes may walk the map in different orders; the second
      one ends exactly at the end of the slice that the first one sized. */
  method FillTags(tags: map<Bytes, Bytes>) returns (text: Bytes, ghost order: seq<Bytes>)
    ensures Enumerates(order, tags.Keys) && text == TagBytes(TagsIn(order, tags))
    ensures |text| == TagRoom(tags.Keys, tags)
  {
    var taglen := 0;
    var left := tags.Keys;
    while left != {}
      invariant left <= tags.Keys && taglen + TagRoom(left, tags) == TagRoom(tags.Keys, tags)
      decreases left
    {
      var k :| k in left;
      TagRoomWithout(left, tags, k);
      left := left - {k};
      if Kept(tags, k) {
        taglen := taglen + 2 + |Escape(InKey, k)| + |Escape(InKey, tags[k])|;
      }
    }
    var buf := new char[taglen];
    var i := 0;
    left := tags.Keys;
    order := [];
    while left != {}
      invariant left <= tags.Keys && i + TagRoom(left, tags) == buf.Length && 0 <= i <= buf.Length
      invariant Enumerates(order, tags.Keys - left)
      invariant buf[..i] == TagBytes(TagsIn(order, tags))
      decreases left
    {
      var k :| k in left;
      TagRoomWithout(left, tags, k);
      TagsInSnoc(order, tags, k);
      assert !Kept(tags, k) ==> TagsIn(order + [k], tags) == TagsIn(order, tags);
      EnumeratesSnoc(order, tags.Keys, left, k);
      if Kept(tags, k) {
        TagBytesSnoc(TagsIn(order, tags), (k, tags[k]));
        i := PutTag(buf, i, k, tags[k]);
      }
      left, order := left - {k}, order + [k];
    }
    assert tags.Keys - left == tags.Keys;
    text := buf[..];
  }

  method PutTag(buf: array<char>, at: nat, key: Bytes, val: Bytes) returns (i: nat)
    requires at + 2 + |Escape(InKey, key)| + |Escape(InKey, val)| <= buf.Length
    modifies buf
    ensures i == at + |TagText((key, val))| && i <= buf.Length
    ensures buf[..i] == old(buf[..at]) + TagText((key, val))
  {
    hide Escape;
    i := Put(buf, at, ',');
    var n := Copy(buf, i, Escape(InKey, key));
    i := i + n;
    i := Put(buf, i, '=');
    n := Copy(buf, i, Escape(InKey, val));
    i := i + n;
  }

  /** appendField; a nil value, which writes nothing at all, is not modelled. */
  method AppendField(b: Bytes, field: Field) returns (r: Bytes)
    ensures r == b + FieldText(field)
  {
    r := b + (Escape(InKey, field.0) + ['=']);
    r := AppendValue(r, field.1);
  }

  method AppendValue(b: Bytes, v: Value) returns (r: Bytes)
    ensures r == b + ValueText(v)
  {
    hide FormatInt, Escape;
    r := b;
    match v {
      case Float(text) =>
        r := r + text;
      case Int(i) =>
        r := r + FormatInt(i);
        r := r + ['i'];
      case Text(s) =>
        r := r + ['"'];
        r := r + Escape(InString, s);
        r := r + ['"'];
      case Bool(on) =>
        r := r + if on then "true" else "false";
      case Uint(u) =>
        var capped := MAX_INT64;
        if u <= MAX_INT64 {
          capped := u;
        }
        r := r + FormatInt(capped);
        r := r + ['i'];
    }
  }

  method FillFields(fields: map<Bytes, Value>) returns (text: Bytes, ghost order: seq<Bytes>)
    ensures Enumerates(order, fields.Keys) && text == FieldBytes(FieldsIn(order, fields))
  {
    text, order := [], [];
    var i, left := 0, fields.Keys;
    while left != {}
      invariant i == |order|
      invariant left <= fields.Keys && Enumerates(order, fields.Keys - left)
      invariant text == FieldBytes(FieldsIn(order, fields))
      decreases left
    {
      var k :| k in left;
      if i != 0 {
        text := text + [','];
      }
      text := AppendField(text, (k, fields[k]));
      FieldBytesSnoc(FieldsIn(order, fields), (k, fields[k]));
      assert FieldsIn(order + [k], fields) == FieldsIn(order, fields) + [(k, fields[k])];
      EnumeratesSnoc(order, fields.Keys, left, k);
      i, left, order := i + 1, left - {k}, order + [k];
    }
  }

  method New(name: Bytes, tags: map<Bytes, Bytes>, fields: map<Bytes, Value>, nanos: int)
    returns (r: Result<Metric, NewError>, ghost tagOrder: seq<Bytes>, ghost fieldOrder: seq<Bytes>)
    requires MIN_INT64 <= nanos <= MAX_INT64
    ensures fields == map[] ==> r == Err(NoFields)
    ensures fields != map[] && name == [] ==> r == Err(NoName)
    ensures fields != map[] && name != [] ==>
              && Enumerates(tagOrder, tags.Keys) && Enumerates(fieldOrder, fields.Keys)
              && r == Ok(Metric(Escape(InName, name), TagBytes(TagsIn(tagOrder, tags)),
                                FieldBytes(FieldsIn(fieldOrder, fields)), FormatInt(nanos)))
  {
    tagOrder, fieldOrder := [], [];
    if fields == map[] {
      return Err(NoFields), tagOrder, fieldOrder;
    }
    if name == [] {
      return Err(NoName), tagOrder, fieldOrder;
    }
    var tagText, fieldText;
    tagText, tagOrder := FillTags(tags);
    fieldText, fieldOrder := FillFields(fields);
    r := Ok(Metric(Escape(InName, name), tagText, fieldText, FormatInt(nanos)));
  }
}
