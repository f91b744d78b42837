/** How far the condition of the round trip is also needed: for well-formed values, field keys without a comma
    under an escape, and tag texts that do not end in a backslash, one metric comes back if and only if it
    meets the condition. */
module RoundTripExact {
  import opened ByteStrings
  import opened Escaping
  import opened Decimals
  import opened Lines
  import opened Building
  import opened TagLookup
  import opened FieldLookup
  import opened LineGrammar
  import opened FieldScanning
  import opened RoundTrip

  // ---------- what a successful parse says of the blocks ----------

  lemma {:induction false} BlocksStart(buf: Bytes, b: Blocks, floatOk: FloatTest)
    requires FindBlocks(buf, floatOk) == Ok(b)
    ensures KeyBlock(buf) == Ok((b.key, b.keyEnd)) && b.keyEnd - b.key <= MAX_KEY_LENGTH
    ensures b.key < b.keyEnd < |buf| && !IsSpace(buf[b.key]) && (b.key > 0 ==> IsSpace(buf[0]))
    ensures b.fields < b.fieldsEnd <= |buf| && !IsSpace(buf[b.fields]) && b.fields >= b.keyEnd
    ensures FieldsEnd(buf, b.fields, FRESH, floatOk) == Ok(b.fieldsEnd)
    ensures forall k :: b.keyEnd <= k < b.fields ==> IsSpace(buf[k])
  {
    hide MeasurementEnd, TagsEnd, FieldsEnd, TimeEnd, IsSpace;
  }

  lemma {:induction false} AssembleJoins(key: Bytes, fields: Bytes, t: Bytes)
    ensures
      var m := Assemble(key, fields, t);
      m.name + m.tags == key && m.fields == fields && m.t == t
  {
  }

  /** If a printed metric is parsed to what was printed, its key block is found where it was written, and its
      fields do not start with a blank. */
  lemma {:induction false} BlocksFound(x: Source, defaultTime: int, precision: string, floatOk: FloatTest)
    requires x.fields != []
    requires MetricOf(Body(Rendered(x)), defaultTime, precision, floatOk) == Ok(Rendered(Rescaled(x, precision)))
    ensures
      var m := Rendered(x);
      var key := m.name + m.tags;
      && KeyBlock(Body(m)) == Ok((0, |key|)) && 0 < |key| <= MAX_KEY_LENGTH && !IsSpace(key[0])
      && m.fields != [] && !IsSpace(m.fields[0])
      && FieldsEnd(Body(m), |key| + 1, FRESH, floatOk) == Ok(|key| + 1 + |m.fields|)
      && exists t :: Assemble(key, m.fields, t) == Metric(m.name, m.tags, m.fields, t)
  {
    hide FindBlocks, KeyBlock, FieldsEnd, Assemble, TimeText, Escape, TagBytes, FieldBytes, FormatInt, IsSpace;
    var m, again := Rendered(x), Rendered(Rescaled(x, precision));
    var buf, key := Body(m), m.name + m.tags;
    var b := FindBlocks(buf, floatOk).value;
    BlocksStart(buf, b, floatOk);
    var found, fields := buf[b.key..b.keyEnd], buf[b.fields..b.fieldsEnd];
    var t := TimeText(buf[b.time..b.timeEnd], defaultTime, precision).value;
    AssembleJoins(found, fields, t);
    assert found == key && fields == m.fields;
    assert buf[b.key] == found[0] && buf[0] == key[0];
    assert fields[0] == buf[b.fields];
    FieldsPlace(buf, |key|, b.fields, m.fields);
    assert Assemble(key, m.fields, t) == again;
    assert again == Metric(m.name, m.tags, m.fields, again.t);
  }

  /** Only the one space that was written lies between the key block and the fields. */
  lemma {:induction false} FieldsPlace(buf: Bytes, k: nat, f: nat, fields: Bytes)
    requires fields != [] && At(buf, k, [' '] + fields) && k < f < |buf|
    requires buf[f] == fields[0] && !IsSpace(buf[f]) && forall j :: k <= j < f ==> IsSpace(buf[j])
    ensures f == k + 1
  {
    assert ([' '] + fields)[1] == buf[k + 1];
  }

  /** The scan of a key block ends behind a byte other than a backslash. */
  lemma {:induction false} KeyBlockLast(buf: Bytes)
    requires KeyBlock(buf).Ok?
    ensures var k := KeyBlock(buf).value.1; k > 0 && buf[k - 1] != '\\'
  {
    var start := SkipSpace(buf, 0);
    var m := MeasurementEnd(buf, start).value;
    if m.0 {
      TagsLast(buf, m.1);
    }
  }

  lemma {:induction false} TagsLast(buf: Bytes, i: nat)
    requires i <= |buf| && TagsEnd(buf, i).Ok?
    ensures var k := TagsEnd(buf, i).value; k > 0 && buf[k - 1] != '\\'
    decreases |buf| - i
  {
    var v := TagKeyEnd(buf, i).value;
    var t := TagValueEnd(buf, v).value;
    if t.0 {
      TagsLast(buf, t.1);
    }
  }

  // ---------- what that says of the texts ----------

  lemma {:induction false} StartNeeded(kind: Kind, s: Bytes)
    requires s != [] && !IsSpace(Escape(kind, s)[0])
    ensures GoodStart(s)
  {
    assert s[0] !in Specials(kind) ==> Escape(kind, s)[0] == s[0];
  }

  /** A name that ends in a backslash hides the space behind it. */
  lemma {:induction false} NameEndNeeded(buf: Bytes, name: Bytes)
    requires name != [] && At(buf, 0, Escape(InName, name) + [' '])
    requires KeyBlock(buf) == Ok((0, |Escape(InName, name)|))
    ensures Closed(name)
  {
    hide Escape, TagsEnd;
    var e := Escape(InName, name);
    EscapeLastByte(InName, name);
    AtSnoc(buf, 0, e, ' ');
    assert SkipSpace(buf, 0) == 0;
    var k := NextPlain(buf, 1, NAME_STOPS);
    if k < |e| {
      EscapePlainAt(InName, name, k);
      assert false;
    }
    assert e[|e| - 1] == buf[|e| - 1];
  }

  lemma {:induction false} NameNeeded(buf: Bytes, name: Bytes, tags: seq<Tag>)
    requires var key := Escape(InName, name) + TagBytes(tags);
             && At(buf, 0, key + [' ']) && KeyBlock(buf) == Ok((0, |key|))
             && key != [] && !IsSpace(key[0])
    requires tags != [] ==> Closed(name)
    ensures GoodStart(name) && Closed(name)
  {
    hide IsSpace, Closed, At;
    var e, t := Escape(InName, name), TagBytes(tags);
    TagBytesStart(tags);
    if name == [] {
      assert t[0] == ',' && e + t == t;
      AtSnoc(buf, 0, t, ' ');
      FirstByte(buf, t);
      assert false;
    }
    assert e + t != [] && (e + t)[0] == e[0] by { EscapeStart(InName, name); }
    StartNeeded(InName, name);
    if tags == [] {
      assert e + t == e;
      NameEndNeeded(buf, name);
    }
  }

  lemma {:induction false} FirstByte(buf: Bytes, t: Bytes)
    requires At(buf, 0, t) && t != []
    ensures buf != [] && buf[0] == t[0]
  {
    assert t[0] == buf[0 + 0];
  }

  lemma {:induction false} ShutNeeded(name: Bytes, rest: Bytes, fields: Bytes, t: Bytes)
    requires var e := Escape(InName, name); Assemble(e + rest, fields, t) == Metric(e, rest, fields, t)
    requires name != [] && Closed(name)
    ensures Shut(name, {','})
  {
    hide Escape;
    var e := Escape(InName, name);
    var namei := IndexBare(e + rest, ',');
    IndexBareLeast(e + rest, ',', namei);
    EscapeStart(InName, name);
    assert namei >= 1 ==> |(e + rest)[..namei]| == |e|;
    forall k | 0 <= k < |e|
      ensures !BareAt(e, k, {','})
    {
      EscapedPrefix(e, rest, k);
      assert !BareAt(e + rest, k, {','});
    }
    EscapeBare(InName, name, {','});
  }

  /** A tag without a key or without a value is refused. */
  lemma {:induction false} TagNeeded(buf: Bytes, p: nat, tag: Tag, d: char)
    requires Closed(tag.0) && Closed(tag.1) && d in NAME_STOPS && At(buf, p, TagText(tag) + [d])
    requires TagsEnd(buf, p + 1).Ok?
    ensures FullTag(tag)
  {
    hide Escape, Word, Closed, At;
    var k, v := Escape(InKey, tag.0), Escape(InKey, tag.1);
    assert p + 1 <= |buf|;
    TagPieces(buf, p, k, v, d);
    if tag.0 == [] {
      NothingEscaped();
      AtSnoc(buf, p + 1, [], '=');
      assert false;
    }
    if tag.1 == [] {
      EscapeWord(InKey, tag.0, TAG_STOPS);
      TagKeyAt(buf, p + 1, k);
      NothingEscaped();
      AtSnoc(buf, p + 2 + |k|, [], d);
      assert false;
    }
  }

  lemma {:induction false} NothingEscaped()
    ensures Escape(InKey, []) == []
  {
  }

  lemma {:induction false} TagsNeeded(buf: Bytes, p: nat, tags: seq<Tag>)
    requires forall j :: 0 <= j < |tags| ==> Closed(tags[j].0) && Closed(tags[j].1)
    requires tags != [] && At(buf, p, TagBytes(tags) + [' '])
    requires p + 1 <= |buf| && TagsEnd(buf, p + 1).Ok?
    ensures forall j :: 0 <= j < |tags| ==> FullTag(tags[j])
    decreases |tags|
  {
    hide TagText, At, TagsEnd, FullTag, Closed;
    var rest := TagBytes(tags[1..]);
    var d := if rest == [] then ' ' else rest[0];
    AtSeam(buf, p, TagText(tags[0]), rest, ' ');
    TagBytesStart(tags[1..]);
    TagNeeded(buf, p, tags[0], d);
    FullTagAt(buf, p, tags[0], d);
    if tags[1..] != [] {
      TagsNeeded(buf, p + |TagText(tags[0])|, tags[1..]);
    }
    assert forall j :: 0 < j < |tags| ==> tags[j] == tags[1..][j - 1];
  }

  // ---------- the round trip of one metric, exactly ----------

  /** Well-formed values and time, no comma of a field key under an escape, and no backslash at the end of a
      tag's texts or in front of the tags. */
  ghost predicate Framed(x: Source, floatOk: FloatTest) {
    && x.fields != [] && (forall j :: 0 <= j < |x.fields| ==> HalfField(x.fields[j], floatOk))
    && MIN_INT64 <= x.nanos <= MAX_INT64
    && (forall j :: 0 <= j < |x.tags| ==> Closed(x.tags[j].0) && Closed(x.tags[j].1))
    && (x.tags != [] ==> Closed(x.name))
  }

  lemma {:induction false} ScannableNeeded(x: Source, defaultTime: int, precision: string, floatOk: FloatTest)
    requires Framed(x, floatOk)
    requires MetricOf(Body(Rendered(x)), defaultTime, precision, floatOk) == Ok(Rendered(Rescaled(x, precision)))
    ensures Scannable(x, floatOk)
  {
    hide Escape, TagBytes, FieldBytes, FormatInt, MetricOf, Rescaled, KeyBlock, Assemble, Closed, Shut, At, GoodStart,
      IsSpace, FullTag, FieldsEnd, HalfField, FullFields;
    var m := Rendered(x);
    var buf := Body(m);
    BlocksFound(x, defaultTime, precision, floatOk);
    BodyPieces(m);
    NameNeeded(buf, x.name, x.tags);
    var t :| Assemble(m.name + m.tags, m.fields, t) == Metric(m.name, m.tags, m.fields, t);
    assert x.name != [] by { NotEmpty(x.name); }
    ShutNeeded(x.name, m.tags, m.fields, t);
    if x.tags != [] {
      TagsFound(buf, x.name, x.tags);
    }
    KeyBlockLast(buf);
    AtSnoc(buf, 0, m.name + m.tags, ' ');
    FieldsNeeded(buf, |m.name + m.tags| + 1, x.fields, 0, floatOk);
    FirstFieldNeeded(x.fields, floatOk);
  }

  lemma {:induction false} NotEmpty(s: Bytes)
    requires GoodStart(s)
    ensures s != []
  {
  }

  lemma {:induction false} TagsFound(buf: Bytes, name: Bytes, tags: seq<Tag>)
    requires Closed(name) && GoodStart(name) && tags != []
    requires forall j :: 0 <= j < |tags| ==> Closed(tags[j].0) && Closed(tags[j].1)
    requires At(buf, 0, Escape(InName, name) + TagBytes(tags) + [' ']) && KeyBlock(buf).Ok?
    ensures forall j :: 0 <= j < |tags| ==> FullTag(tags[j])
  {
    hide Escape, TagBytes, At, Closed, GoodStart, FullTag, TagsEnd, MeasurementEnd, SkipSpace;
    var e := Escape(InName, name);
    TagBytesStart(tags);
    AtSeam(buf, 0, e, TagBytes(tags), ' ');
    NameAt(buf, name, ',');
    TagsNeeded(buf, |e|, tags);
  }

  lemma {:induction false} FirstFieldNeeded(fields: seq<Field>, floatOk: FloatTest)
    requires FullFields(fields, floatOk) && FieldBytes(fields) != [] && !IsSpace(FieldBytes(fields)[0])
    ensures GoodStart(fields[0].0)
  {
    hide Escape, GoodStart, IsSpace, ValueText;
    assert FullField(fields[0], floatOk);
    EscapeStart(InKey, fields[0].0);
    assert FieldBytes(fields)[0] == Escape(InKey, fields[0].0)[0];
    StartNeeded(InKey, fields[0].0);
  }

  /** parseMetric inverts the printing of a metric if and only if the name has no comma under an escape, does
      not end in a backslash and does not start with a tab or NUL (nor the first field key), no field key is
      empty or has an '=' or a space under an escape, no tag has an empty key or value, and the key block is
      not too long. */
  lemma {:induction false} MetricExactly(x: Source, defaultTime: int, precision: string, floatOk: FloatTest)
    requires Framed(x, floatOk)
    ensures MetricOf(Body(Rendered(x)), defaultTime, precision, floatOk) == Ok(Rendered(Rescaled(x, precision))) <==>
            Scannable(x, floatOk)
  {
    hide MetricOf, Rendered, Rescaled, Scannable, Framed;
    if Scannable(x, floatOk) {
      MetricOfRendered(x, defaultTime, precision, floatOk);
    } else if MetricOf(Body(Rendered(x)), defaultTime, precision, floatOk) == Ok(Rendered(Rescaled(x, precision))) {
      ScannableNeeded(x, defaultTime, precision, floatOk);
    }
  }

  /** A backslash at the end of the name is harmless where the parity rule sees through it: with one tag the
      scan takes that tag for a part of the name, and the cut by parity puts it right. */
  lemma {:induction false} BackslashByChance(x: Source, tag: Tag, defaultTime: int, precision: string,
      floatOk: FloatTest)
    requires Formed(x, floatOk) && GoodStart(x.name) && !Closed(x.name) && x.tags == [tag] && FullTag(tag)
    ensures !Scannable(x, floatOk)
    ensures MetricOf(Body(Rendered(x)), defaultTime, precision, floatOk) == Ok(Rendered(Rescaled(x, precision)))
  {
    hide MetricOf, KeyBlockFound;
    BackslashBlock(x, tag);
    hide Formed;
    MetricOfFound(x, defaultTime, precision, floatOk);
  }

  lemma {:induction false} BackslashBlock(x: Source, tag: Tag)
    requires GoodStart(x.name) && !Closed(x.name) && x.tags == [tag] && FullTag(tag)
    ensures KeyBlockFound(x)
  {
    hide Escape, TagBytes, TagText, FieldBytes, FormatInt, At, FullTag, GoodStart, Closed, KeyBlock, PlainSealed, Body;
    NotEmpty(x.name);
    BodyPieces(Rendered(x));
    OneTagText(tag);
    NameAndTag(x.name, tag);
    KeyBlockPlain(Body(Rendered(x)), x.name, TagText(tag));
  }

  lemma {:induction false} OneTagText(tag: Tag)
    ensures TagBytes([tag]) == TagText(tag)
  {
  }

  lemma {:induction false} NameAndTag(name: Bytes, tag: Tag)
    requires name != [] && !Closed(name) && FullTag(tag)
    ensures PlainSealed(Escape(InName, name) + TagText(tag), NAME_STOPS)
  {
    hide Escape;
    var e, k, v := Escape(InName, name), Escape(InKey, tag.0), Escape(InKey, tag.1);
    EscapeLastByte(InName, name);
    EscapeWord(InKey, tag.0, NAME_STOPS);
    EscapeWord(InKey, tag.1, NAME_STOPS);
    var text := e + TagText(tag);
    assert text == e + [','] + k + ['='] + v;
    forall i | 0 <= i < |text|
      ensures PlainAt(text, i, NAME_STOPS)
    {
      if i < |e| {
        EscapePlainAt(InName, name, i);
      } else if |e| < i < |e| + 1 + |k| {
        assert PlainAt(k, i - |e| - 1, NAME_STOPS);
      } else if i > |e| + 1 + |k| {
        assert PlainAt(v, i - |e| - |k| - 2, NAME_STOPS);
      }
    }
  }

  lemma {:induction false} KeyBlockPlain(buf: Bytes, name: Bytes, rest: Bytes)
    requires name != [] && GoodStart(name) && PlainSealed(Escape(InName, name) + rest, NAME_STOPS)
    requires At(buf, 0, Escape(InName, name) + rest + [' '])
    ensures KeyBlock(buf) == Ok((0, |Escape(InName, name)| + |rest|))
  {
    hide Escape;
    var key := Escape(InName, name) + rest;
    EscapeStart(InName, name);
    AtSnoc(buf, 0, key, ' ');
    assert key[0] == buf[0 + 0];
    NextPlainAt(buf, 0, key, NAME_STOPS);
  }
}
