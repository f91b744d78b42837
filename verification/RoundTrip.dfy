/** Parse inverts Serialize on metrics that New made from text it can print. */
module RoundTrip {
  import opened ByteStrings
  import opened Escaping
  import opened Decimals
  import opened Lines
  import opened Building
  import opened TagLookup
  import opened FieldLookup
  import opened LineGrammar
  import opened FieldScanning

  // ---------- the key block ----------

  /** Blanks at the start of a line and of the field block are skipped, so a text that stands there
      must not start with one; a space is no problem, since it is escaped. */
  predicate GoodStart(s: Bytes) {
    s != [] && s[0] != '\t' && s[0] != '\0'
  }

  lemma {:induction false} EscapeStart(kind: Kind, s: Bytes)
    requires s != []
    ensures Escape(kind, s) != [] && Escape(kind, s)[0] !in Specials(kind) - {'\\'}
    ensures Escape(kind, s)[0] == '\\' || Escape(kind, s)[0] == s[0]
  {
  }

  /** A non-empty piece of a key block in which the previous-byte rule finds no delimiter. */
  predicate Word(s: Bytes, stops: set<char>) {
    s != [] && s[0] !in stops && PlainSealed(s, stops)
  }

  lemma {:induction false} EscapeWord(kind: Kind, s: Bytes, stops: set<char>)
    requires Closed(s) && s != [] && stops <= Specials(kind)
    ensures Word(Escape(kind, s), stops)
  {
    EscapePlainSealed(kind, s, stops);
    EscapeStart(kind, s);
    assert '\\' !in Specials(kind);
  }

  lemma {:induction false} WordEnd(buf: Bytes, i: nat, w: Bytes, d: char, stops: set<char>)
    requires Word(w, stops) && d in stops && At(buf, i, w + [d])
    ensures NextPlain(buf, i + 1, stops) == i + |w| < |buf| && buf[i] == w[0] && buf[i + |w|] == d
  {
    AtSnoc(buf, i, w, d);
    NextPlainAt(buf, i, w, stops);
  }

  lemma {:induction false} TagKeyAt(buf: Bytes, i: nat, k: Bytes)
    requires Word(k, TAG_STOPS) && At(buf, i, k + ['='])
    ensures TagKeyEnd(buf, i) == Ok(i + |k| + 1)
  {
    WordEnd(buf, i, k, '=', TAG_STOPS);
  }

  lemma {:induction false} TagValueAt(buf: Bytes, i: nat, v: Bytes, d: char)
    requires Word(v, TAG_STOPS) && d in NAME_STOPS && At(buf, i, v + [d])
    ensures TagValueEnd(buf, i) == Ok(if d == ',' then (true, i + |v| + 1) else (false, i + |v|))
  {
    WordEnd(buf, i, v, d, TAG_STOPS);
  }

  /** One written tag, with the delimiter after it, is scanned as one tag. */
  lemma {:induction false} TagAt(buf: Bytes, p: nat, k: Bytes, v: Bytes, d: char)
    requires Word(k, TAG_STOPS) && Word(v, TAG_STOPS) && d in NAME_STOPS
    requires At(buf, p + 1, k + ['=']) && At(buf, p + 2 + |k|, v + [d])
    ensures
      var e := p + 2 + |k| + |v|;
      TagsEnd(buf, p + 1) == if d == ',' then TagsEnd(buf, e + 1) else Ok(e)
  {
    hide TagKeyEnd, TagValueEnd, Word;
    TagKeyAt(buf, p + 1, k);
    TagValueAt(buf, p + 2 + |k|, v, d);
  }

  lemma {:induction false} TagPieces(buf: Bytes, p: nat, k: Bytes, v: Bytes, d: char)
    requires At(buf, p, [','] + k + ['='] + v + [d])
    ensures p < |buf| && buf[p] == ',' && At(buf, p + 1, k + ['=']) && At(buf, p + 2 + |k|, v + [d])
  {
    assert [','] + k + ['='] + v + [d] == [','] + ((k + ['=']) + (v + [d]));
    AtConcat(buf, p, [','], (k + ['=']) + (v + [d]));
    AtConcat(buf, p + 1, k + ['='], v + [d]);
    assert [','][0] == ',';
  }

  /** The scanners look at the byte before a delimiter only, so all they need is that no text ends in a
      backslash. */
  predicate FullTag(tag: Tag) {
    Closed(tag.0) && Closed(tag.1) && tag.0 != [] && tag.1 != []
  }

  lemma {:induction false} FullTagAt(buf: Bytes, p: nat, tag: Tag, d: char)
    requires FullTag(tag) && d in NAME_STOPS && At(buf, p, TagText(tag) + [d])
    ensures
      var e := p + |TagText(tag)|;
      TagsEnd(buf, p + 1) == if d == ',' then TagsEnd(buf, e + 1) else Ok(e)
  {
    hide Escape, Word, Closed, At, TagsEnd;
    var k, v := Escape(InKey, tag.0), Escape(InKey, tag.1);
    EscapeWord(InKey, tag.0, TAG_STOPS);
    EscapeWord(InKey, tag.1, TAG_STOPS);
    TagPieces(buf, p, k, v, d);
    TagAt(buf, p, k, v, d);
  }

  /** A text, a first byte of what follows it, and the rest. */
  lemma {:induction false} AtSeam(buf: Bytes, p: nat, text: Bytes, rest: Bytes, last: char)
    requires At(buf, p, text + rest + [last])
    ensures
      var d := if rest == [] then last else rest[0];
      At(buf, p, text + [d]) && At(buf, p + |text|, rest + [last])
  {
    var d := if rest == [] then last else rest[0];
    assert text + rest + [last] == text + (rest + [last]);
    AtConcat(buf, p, text, rest + [last]);
    assert (rest + [last])[0] == d;
    AtSnoc(buf, p, text, d);
  }

  lemma {:induction false} TagsAt(buf: Bytes, p: nat, tags: seq<Tag>)
    requires tags != [] && forall j :: 0 <= j < |tags| ==> FullTag(tags[j])
    requires At(buf, p, TagBytes(tags) + [' '])
    ensures TagsEnd(buf, p + 1) == Ok(p + |TagBytes(tags)|)
    decreases |tags|
  {
    hide TagText, At, TagsEnd, FullTag;
    var rest := TagBytes(tags[1..]);
    var d := if rest == [] then ' ' else rest[0];
    AtSeam(buf, p, TagText(tags[0]), rest, ' ');
    TagBytesStart(tags[1..]);
    FullTagAt(buf, p, tags[0], d);
    if tags[1..] != [] {
      TagsAt(buf, p + |TagText(tags[0])|, tags[1..]);
    }
  }

  lemma {:induction false} KeyBlockAt(buf: Bytes, name: Bytes, tags: seq<Tag>)
    requires Closed(name) && GoodStart(name)
    requires forall j :: 0 <= j < |tags| ==> FullTag(tags[j])
    requires At(buf, 0, Escape(InName, name) + TagBytes(tags) + [' '])
    ensures KeyBlock(buf) == Ok((0, |Escape(InName, name)| + |TagBytes(tags)|))
  {
    hide Escape, At, TagsEnd, MeasurementEnd, SkipSpace, Closed;
    var e, t := Escape(InName, name), TagBytes(tags);
    TagBytesStart(tags);
    AtSeam(buf, 0, e, t, ' ');
    NameAt(buf, name, if t == [] then ' ' else ',');
    if tags != [] {
      TagsAt(buf, |e|, tags);
    }
  }

  lemma {:induction false} NameAt(buf: Bytes, name: Bytes, d: char)
    requires Closed(name) && GoodStart(name) && d in NAME_STOPS
    requires At(buf, 0, Escape(InName, name) + [d])
    ensures
      var n := |Escape(InName, name)|;
      SkipSpace(buf, 0) == 0 && MeasurementEnd(buf, 0) == Ok(if d == ',' then (true, n + 1) else (false, n))
  {
    EscapeWord(InName, name, NAME_STOPS);
    EscapeStart(InName, name);
    WordEnd(buf, 0, Escape(InName, name), d, NAME_STOPS);
  }

  // ---------- the field and time blocks ----------

  /** What New was given, with the tags and fields in the order in which it met them. */
  datatype Source = Source(name: Bytes, tags: seq<Tag>, fields: seq<Field>, nanos: int)

  function Rendered(x: Source): Metric {
    Metric(Escape(InName, x.name), TagBytes(x.tags), FieldBytes(x.fields), FormatInt(x.nanos))
  }

  /** No line feed in any of the texts. */
  predicate OneLineTag(tag: Tag) {
    '\n' !in tag.0 && '\n' !in tag.1
  }

  predicate OneLineField(field: Field) {
    '\n' !in field.0 && (field.1.Text? ==> '\n' !in field.1.s)
  }

  ghost predicate OneLine(x: Source) {
    && '\n' !in x.name
    && (forall j :: 0 <= j < |x.tags| ==> OneLineTag(x.tags[j]))
    && forall j :: 0 <= j < |x.fields| ==> OneLineField(x.fields[j])
  }

  /** A name without a comma under an escape; no text of the key block that ends in a backslash; no empty
      key or tag value; no special byte of a field key or string value under an escape; at least one
      field; a key block that is not too long. */
  ghost predicate Scannable(x: Source, floatOk: FloatTest) {
    && Shut(x.name, {','}) && Closed(x.name) && GoodStart(x.name)
    && (forall j :: 0 <= j < |x.tags| ==> FullTag(x.tags[j]))
    && FullFields(x.fields, floatOk) && GoodStart(x.fields[0].0)
    && |Escape(InName, x.name)| + |TagBytes(x.tags)| <= MAX_KEY_LENGTH
    && MIN_INT64 <= x.nanos <= MAX_INT64
  }

  ghost predicate Readable(x: Source, floatOk: FloatTest) {
    Scannable(x, floatOk) && OneLine(x)
  }

  lemma {:induction false} SkipOne(buf: Bytes, i: nat)
    requires i + 1 < |buf| && buf[i] == ' ' && !IsSpace(buf[i + 1])
    ensures SkipSpace(buf, i) == i + 1
  {
    assert SkipSpace(buf, i + 1) == i + 1;
  }

  lemma {:induction false} FieldBytesStart(fields: seq<Field>)
    requires fields != [] && GoodStart(fields[0].0)
    ensures FieldBytes(fields) != [] && !IsSpace(FieldBytes(fields)[0])
  {
    EscapeStart(InKey, fields[0].0);
  }

  lemma {:induction false} DigitsToEnd(buf: Bytes, start: nat, i: nat)
    requires start <= i <= |buf| && forall k :: i <= k < |buf| ==> IsDigit(buf[k])
    ensures TimeEnd(buf, start, i) == Ok(|buf|)
    decreases |buf| - i
  {
    if i < |buf| {
      DigitsToEnd(buf, start, i + 1);
    }
  }

  lemma {:induction false} TimeAt(buf: Bytes, start: nat, n: int)
    requires At(buf, start, FormatInt(n)) && |buf| == start + |FormatInt(n)|
    ensures start < |buf| && !IsSpace(buf[start]) && TimeEnd(buf, start, start) == Ok(|buf|)
  {
    hide FormatInt;
    FormatIntShape(n);
    assert FormatInt(n)[0] == buf[start];
    var from := if n < 0 then start + 1 else start;
    forall k | from <= k < |buf|
      ensures IsDigit(buf[k])
    {
      FormatIntDigit(n, k - start);
      assert FormatInt(n)[k - start] == buf[k];
    }
    DigitsToEnd(buf, start, from);
  }

  /** A line without its line feed. */
  function Body(m: Metric): Bytes {
    m.name + m.tags + [' '] + m.fields + [' '] + m.t
  }

  lemma {:induction false} BodyPieces(m: Metric)
    ensures
      var (buf, k) := (Body(m), |m.name| + |m.tags|);
      && At(buf, 0, m.name + m.tags + [' ']) && At(buf, k + 1, m.fields + [' '])
      && At(buf, k + 1 + |m.fields| + 1, m.t)
  {
    var buf := Body(m);
    var a, b := m.name + m.tags + [' '], m.fields + [' '];
    assert buf == a + (b + m.t);
    AtConcat(buf, 0, a, b + m.t);
    AtConcat(buf, |a|, b, m.t);
  }

  lemma {:induction false} FieldBlockAt(buf: Bytes, k: nat, fields: seq<Field>, floatOk: FloatTest)
    requires FullFields(fields, floatOk) && GoodStart(fields[0].0)
    requires 1 <= k < |buf| && buf[k] == ' ' && At(buf, k + 1, FieldBytes(fields) + [' '])
    ensures SkipSpace(buf, k) == k + 1
    ensures
      var f := k + 1 + |FieldBytes(fields)|;
      k + 1 < f < |buf| && buf[f] == ' ' && FieldsEnd(buf, k + 1, FRESH, floatOk) == Ok(f)
  {
    hide FieldsEnd, FieldBytes;
    FieldBytesStart(fields);
    AtSnoc(buf, k + 1, FieldBytes(fields), ' ');
    assert FieldBytes(fields)[0] == buf[k + 1];
    SkipOne(buf, k);
    FieldsRun(buf, k + 1, fields, 0, floatOk);
  }

  lemma {:induction false} BlocksFrom(buf: Bytes, k: nat, f: nat, floatOk: FloatTest)
    requires KeyBlock(buf) == Ok((0, k)) && k <= MAX_KEY_LENGTH && 1 <= k < |buf| && SkipSpace(buf, k) == k + 1
    requires k + 1 < f < |buf| && FieldsEnd(buf, k + 1, FRESH, floatOk) == Ok(f)
    requires SkipSpace(buf, f) == f + 1 && f + 1 < |buf| && TimeEnd(buf, f + 1, f + 1) == Ok(|buf|)
    ensures FindBlocks(buf, floatOk) == Ok(Blocks(0, k, k + 1, f, f + 1, |buf|))
  {
    hide KeyBlock, FieldsEnd, TimeEnd, SkipSpace;
  }

  /** The parts of the condition that are not about where the key block ends. */
  ghost predicate Formed(x: Source, floatOk: FloatTest) {
    && Shut(x.name, {','}) && x.name != []
    && FullFields(x.fields, floatOk) && GoodStart(x.fields[0].0)
    && |Escape(InName, x.name)| + |TagBytes(x.tags)| <= MAX_KEY_LENGTH
    && MIN_INT64 <= x.nanos <= MAX_INT64
  }

  ghost predicate KeyBlockFound(x: Source) {
    var m := Rendered(x);
    KeyBlock(Body(m)) == Ok((0, |m.name| + |m.tags|))
  }

  lemma {:induction false} BlocksOf(x: Source, floatOk: FloatTest)
    requires Formed(x, floatOk) && KeyBlockFound(x)
    ensures
      var m := Rendered(x);
      var k := |m.name| + |m.tags|;
      var f := k + 1 + |m.fields|;
      FindBlocks(Body(m), floatOk) == Ok(Blocks(0, k, k + 1, f, f + 1, |Body(m)|))
  {
    hide KeyBlock, FieldsEnd, TimeEnd, SkipSpace, Escape, TagBytes, FieldBytes, FormatInt, IsSpace, At, FullFields,
      FindBlocks, Shut, Closed;
    var m := Rendered(x);
    var buf := Body(m);
    var k := |m.name| + |m.tags|;
    BodyPieces(m);
    AtSnoc(buf, 0, m.name + m.tags, ' ');
    EscapeStart(InName, x.name);
    FieldBlockAt(buf, k, x.fields, floatOk);
    TimeAt(buf, k + 1 + |m.fields| + 1, x.nanos);
    SkipOne(buf, k + 1 + |m.fields|);
    BlocksFrom(buf, k, k + 1 + |m.fields|, floatOk);
  }

  // ---------- the metric ----------

  lemma {:induction false} AssembleRendered(name: Bytes, tags: seq<Tag>, fields: Bytes, t: Bytes)
    requires Shut(name, {','}) && name != []
    ensures Assemble(Escape(InName, name) + TagBytes(tags), fields, t) ==
            Metric(Escape(InName, name), TagBytes(tags), fields, t)
  {
    var e, tagText := Escape(InName, name), TagBytes(tags);
    EscapeStart(InName, name);
    EscapeSealed(InName, name, {','});
    TagBytesStart(tags);
    if tags == [] {
      IndexBareSkips(e, [], ',');
      assert e + [] == e;
    } else {
      IndexBareAt(e + tagText, e, ',', tagText[1..]);
    }
  }

  /** The same metric, its time multiplied by the precision's unit the way int64 multiplies. */
  function Rescaled(x: Source, precision: string): Source {
    x.(nanos := WrapInt64(PrecisionMultiplier(precision) * x.nanos))
  }

  lemma {:induction false} TimeTextOf(n: int, defaultTime: int, precision: string)
    requires MIN_INT64 <= n <= MAX_INT64
    ensures TimeText(FormatInt(n), defaultTime, precision) ==
            Ok(FormatInt(WrapInt64(PrecisionMultiplier(precision) * n)))
  {
    hide FormatInt, ParseInt, PrecisionMultiplier;
    FormatIntShape(n);
    ParseFormatInt(n);
  }

  lemma {:induction false} MetricOfFound(x: Source, defaultTime: int, precision: string, floatOk: FloatTest)
    requires Formed(x, floatOk) && KeyBlockFound(x)
    ensures MetricOf(Body(Rendered(x)), defaultTime, precision, floatOk) == Ok(Rendered(Rescaled(x, precision)))
  {
    hide FindBlocks, KeyBlockFound, Escape, TagBytes, FieldBytes, FormatInt, TimeText, Assemble, PrecisionMultiplier;
    var m := Rendered(x);
    var buf := Body(m);
    var k := |m.name| + |m.tags|;
    var f := k + 1 + |m.fields|;
    BlocksOf(x, floatOk);
    assert buf[0..k] == m.name + m.tags;
    assert buf[k + 1..f] == m.fields;
    assert buf[f + 1..|buf|] == m.t;
    TimeTextOf(x.nanos, defaultTime, precision);
    AssembleRendered(x.name, x.tags, m.fields, Rendered(Rescaled(x, precision)).t);
  }

  /** parseMetric inverts the printing of one metric. */
  lemma {:induction false} MetricOfRendered(x: Source, defaultTime: int, precision: string, floatOk: FloatTest)
    requires Scannable(x, floatOk)
    ensures MetricOf(Body(Rendered(x)), defaultTime, precision, floatOk) == Ok(Rendered(Rescaled(x, precision)))
  {
    hide MetricOf, Escape, TagBytes, FieldBytes, FormatInt, FullFields, FullTag, Shut, Closed, At, KeyBlock;
    BodyPieces(Rendered(x));
    KeyBlockAt(Body(Rendered(x)), x.name, x.tags);
    MetricOfFound(x, defaultTime, precision, floatOk);
  }

  // ---------- the line feeds ----------

  lemma {:induction false} TagsNoLineFeed(tags: seq<Tag>)
    requires forall j :: 0 <= j < |tags| ==> OneLineTag(tags[j])
    ensures '\n' !in TagBytes(tags)
  {
    if tags != [] {
      hide Escape;
      assert OneLineTag(tags[0]);
      EscapeKeepsOut(InKey, tags[0].0, '\n');
      EscapeKeepsOut(InKey, tags[0].1, '\n');
      TagsNoLineFeed(tags[1..]);
    }
  }

  lemma {:induction false} ValueNoLineFeed(v: Value, floatOk: FloatTest)
    requires GoodValue(v, floatOk) && (v.Text? ==> '\n' !in v.s)
    ensures '\n' !in ValueText(v)
  {
    hide FormatInt, Escape;
    match v
    case Bool(b) =>
    case Float(text) =>
    case Int(i) => FormatIntWithout(i, '\n');
    case Uint(u) => FormatIntWithout(Least(u, MAX_INT64), '\n');
    case Text(s) => EscapeKeepsOut(InString, s, '\n');
  }

  lemma {:induction false} FieldsNoLineFeed(fields: seq<Field>, floatOk: FloatTest)
    requires forall i :: 0 <= i < |fields| ==> FullField(fields[i], floatOk) && OneLineField(fields[i])
    ensures '\n' !in FieldBytes(fields)
  {
    if fields != [] {
      hide ValueText, Escape, GoodValue;
      assert FullField(fields[0], floatOk) && OneLineField(fields[0]);
      EscapeKeepsOut(InKey, fields[0].0, '\n');
      ValueNoLineFeed(fields[0].1, floatOk);
      FieldsNoLineFeed(fields[1..], floatOk);
    }
  }

  lemma {:induction false} BodyNoLineFeed(x: Source, floatOk: FloatTest)
    requires Readable(x, floatOk)
    ensures '\n' !in Body(Rendered(x)) && |Body(Rendered(x))| >= 7
  {
    hide Escape, TagBytes, FieldBytes, FormatInt;
    EscapeKeepsOut(InName, x.name, '\n');
    TagsNoLineFeed(x.tags);
    FieldsNoLineFeed(x.fields, floatOk);
    FormatIntWithout(x.nanos, '\n');
    FormatIntShape(x.nanos);
    EscapeStart(InName, x.name);
    FieldBytesLength(x.fields, floatOk);
  }

  lemma {:induction false} FieldBytesLength(fields: seq<Field>, floatOk: FloatTest)
    requires FullFields(fields, floatOk)
    ensures |FieldBytes(fields)| >= 3
  {
    hide ValueText, Escape;
    assert FullField(fields[0], floatOk);
    EscapeStart(InKey, fields[0].0);
    ValueNotEmpty(fields[0].1, floatOk);
  }

  lemma {:induction false} ValueNotEmpty(v: Value, floatOk: FloatTest)
    requires GoodValue(v, floatOk)
    ensures ValueText(v) != []
  {
    if !v.Text? {
      ScalarText(v, floatOk);
    }
  }

  // ---------- whole buffers ----------

  ghost predicate AllReadable(xs: seq<Source>, floatOk: FloatTest) {
    forall j :: 0 <= j < |xs| ==> Readable(xs[j], floatOk)
  }

  function Texts(xs: seq<Source>): Bytes {
    if xs == [] then [] else Line(Rendered(xs[0])) + Texts(xs[1..])
  }

  function ReadBack(xs: seq<Source>, precision: string): seq<Metric> {
    if xs == [] then [] else [Rendered(Rescaled(xs[0], precision))] + ReadBack(xs[1..], precision)
  }

  /** One line at the front of what is left of the buffer is read as one metric. */
  lemma {:induction false} FirstLine(buf: Bytes, i: nat, x: Source, defaultTime: int, precision: string,
      floatOk: FloatTest)
    requires Readable(x, floatOk) && At(buf, i, Line(Rendered(x)))
    ensures
      var next := i + |Line(Rendered(x))|;
      var rest := ParseLines(buf, next, defaultTime, precision, floatOk);
      ParseLines(buf, i, defaultTime, precision, floatOk) ==
        Parsed([Rendered(Rescaled(x, precision))] + rest.metrics, rest.errors)
  {
    hide Rendered, MetricOf, Scannable, OneLine;
    var body := Body(Rendered(x));
    assert Line(Rendered(x)) == body + ['\n'];
    AtSnoc(buf, i, body, '\n');
    AtSlice(buf, i, body);
    BodyNoLineFeed(x, floatOk);
    var j := i + |body|;
    forall k | i <= k < j
      ensures buf[k] != '\n'
    {
      assert body[k - i] == buf[k];
    }
    IndexByteAt(buf, '\n', i, j);
    MetricOfRendered(x, defaultTime, precision, floatOk);
  }

  lemma {:induction false} NoMoreLines(buf: Bytes, defaultTime: int, precision: string, floatOk: FloatTest)
    ensures ParseLines(buf, |buf|, defaultTime, precision, floatOk) == Parsed([], [])
  {
    hide MetricOf;
  }

  lemma {:induction false} ManyLines(buf: Bytes, i: nat, xs: seq<Source>,
      defaultTime: int, precision: string, floatOk: FloatTest)
    requires AllReadable(xs, floatOk) && At(buf, i, Texts(xs)) && |buf| == i + |Texts(xs)|
    ensures ParseLines(buf, i, defaultTime, precision, floatOk) == Parsed(ReadBack(xs, precision), [])
    decreases |xs|
  {
    hide ParseLines, Line, Readable, Rendered, Rescaled, At;
    if xs == [] {
      NoMoreLines(buf, defaultTime, precision, floatOk);
    } else {
      AtConcat(buf, i, Line(Rendered(xs[0])), Texts(xs[1..]));
      FirstLine(buf, i, xs[0], defaultTime, precision, floatOk);
      ManyLines(buf, i + |Line(Rendered(xs[0]))|, xs[1..], defaultTime, precision, floatOk);
    }
  }

  /** Parse inverts Serialize on any list of readable metrics, in any precision. */
  lemma {:induction false} ParseSerialized(xs: seq<Source>, defaultTime: int, precision: string, floatOk: FloatTest)
    requires AllReadable(xs, floatOk)
    ensures ParseOf(Texts(xs), defaultTime, precision, floatOk) == Parsed(ReadBack(xs, precision), [])
  {
    hide ParseLines, Line, Rendered, Readable;
    if xs != [] {
      BodyNoLineFeed(xs[0], floatOk);
      assert |Texts(xs)| >= |Line(Rendered(xs[0]))| >= 7 by {
        LineLength(Rendered(xs[0]));
      }
    }
    ManyLines(Texts(xs), 0, xs, defaultTime, precision, floatOk);
  }

  lemma {:induction false} LineLength(m: Metric)
    ensures |Line(m)| == |Body(m)| + 1
  {
  }

  lemma {:induction false} ReadBackNanos(xs: seq<Source>, precision: string, floatOk: FloatTest, i: nat)
    requires AllReadable(xs, floatOk) && i < |xs| && PrecisionMultiplier(precision) == 1
    ensures |ReadBack(xs, precision)| == |xs| && ReadBack(xs, precision)[i] == Rendered(xs[i])
  {
    hide Rendered, PrecisionMultiplier;
    assert Readable(xs[0], floatOk);
    if |xs| > 1 {
      ReadBackNanos(xs[1..], precision, floatOk, if i == 0 then 0 else i - 1);
    }
  }

  // ---------- what New makes ----------

  /** What New asks for so that its line can be read back, for the pairs that it writes at all. */
  ghost predicate CleanInput(name: Bytes, tags: map<Bytes, Bytes>, fields: map<Bytes, Value>, floatOk: FloatTest) {
    && Shut(name, {','}) && Closed(name) && GoodStart(name) && '\n' !in name
    && (forall k :: k in tags && Kept(tags, k) ==> FullTag((k, tags[k])) && OneLineTag((k, tags[k])))
    && fields != map[]
    && (forall k :: k in fields ==>
          GoodStart(k) && FullField((k, fields[k]), floatOk) && OneLineField((k, fields[k])))
  }

  lemma {:induction false} TagsInFull(order: seq<Bytes>, tags: map<Bytes, Bytes>)
    requires forall k :: k in order ==> k in tags
    requires forall k :: k in tags && Kept(tags, k) ==> FullTag((k, tags[k])) && OneLineTag((k, tags[k]))
    ensures forall j :: 0 <= j < |TagsIn(order, tags)| ==>
              FullTag(TagsIn(order, tags)[j]) && OneLineTag(TagsIn(order, tags)[j])
  {
    if order != [] {
      TagsInFull(order[1..], tags);
    }
  }

  /** Whatever order New walks its maps in, what it makes from text of these kinds can be read back. */
  lemma {:induction false} NewIsReadable(name: Bytes, tags: map<Bytes, Bytes>, fields: map<Bytes, Value>, nanos: int,
      tagOrder: seq<Bytes>, fieldOrder: seq<Bytes>, floatOk: FloatTest) returns (x: Source)
    requires CleanInput(name, tags, fields, floatOk) && MIN_INT64 <= nanos <= MAX_INT64
    requires Enumerates(tagOrder, tags.Keys) && Enumerates(fieldOrder, fields.Keys)
    requires |Escape(InName, name)| + |TagBytes(TagsIn(tagOrder, tags))| <= MAX_KEY_LENGTH
    ensures Readable(x, floatOk)
    ensures Rendered(x) == Metric(Escape(InName, name), TagBytes(TagsIn(tagOrder, tags)),
                                  FieldBytes(FieldsIn(fieldOrder, fields)), FormatInt(nanos))
  {
    hide Escape, Shut, Closed, TagBytes, FieldBytes, FormatInt, GoodValue;
    x := Source(name, TagsIn(tagOrder, tags), FieldsIn(fieldOrder, fields), nanos);
    TagsInFull(tagOrder, tags);
    assert fieldOrder != [] by {
      var k :| k in fields.Keys;
      assert k in fieldOrder;
    }
    forall i | 0 <= i < |x.fields|
      ensures FullField(x.fields[i], floatOk) && OneLineField(x.fields[i])
    {
      assert fieldOrder[i] in fields;
    }
    assert fieldOrder[0] in fieldOrder;
  }
}
