/** The time block of a line (report/metric/parse.go): a line that has none gets the default time, and one instant
    is kept as the same number of nanoseconds in whichever unit it is written. */
module Timestamps {
  import opened ByteStrings
  import opened Decimals
  import opened Escaping
  import opened Lines
  import opened Building
  import opened FieldLookup
  import opened FieldScanning
  import opened LineGrammar
  import opened RoundTrip

  // ---------- the end of a line reads like a blank ----------

  lemma {:induction false} NumberScanBlank(b: Bytes, start: nat, i: nat, seen: Seen)
    requires 1 <= start <= i <= |b|
    ensures NumberScan(b + [' '], start, i, seen) == NumberScan(b, start, i, seen)
    decreases |b| - i
  {
    if i < |b| {
      NumberScanBlank(b, start, i + 1, seen);
      NumberScanBlank(b, start, i + 1, seen.(isInt := true));
      NumberScanBlank(b, start, i + 1, seen.(decimal := true));
      NumberScanBlank(b, start, i + 1, seen.(scientific := true));
    }
  }

  lemma {:induction false} NumberEndBlank(b: Bytes, start: nat, floatOk: FloatTest)
    requires 1 <= start < |b| && b[start] !in {',', ' '}
    ensures NumberEnd(b + [' '], start, floatOk) == NumberEnd(b, start, floatOk)
  {
    hide NumberScan;
    var i := if b[start] == '-' then start + 1 else start;
    NumberScanBlank(b, start, i, NOTHING);
    if i == |b| {
      MinusAlone(b, start, floatOk);
    } else {
      var r := NumberScan(b, start, i, NOTHING);
      assert r.Ok? ==> (b + [' '])[start..r.value.0] == b[start..r.value.0];
    }
  }

  /** A minus at the end is a number without digits. */
  lemma {:induction false} MinusAlone(b: Bytes, start: nat, floatOk: FloatTest)
    requires 1 <= start && start + 1 == |b| && b[start] == '-'
    ensures NumberScan(b + [' '], start, start + 1, NOTHING) == Ok((start + 1, NOTHING))
    ensures CheckNumber((b + [' '])[start..start + 1], NOTHING, floatOk) == Some(InvalidNumber)
  {
  }

  lemma {:induction false} TokenEndBlank(b: Bytes, i: nat)
    requires i <= |b|
    ensures TokenEnd(b + [' '], i) == TokenEnd(b, i)
    decreases |b| - i
  {
    if i < |b| {
      TokenEndBlank(b, i + 1);
    }
  }

  lemma {:induction false} AfterEqualsBlank(b: Bytes, i: nat, floatOk: FloatTest)
    requires 2 <= i < |b| && b[i] == '='
    ensures AfterEquals(b + [' '], i, floatOk) == AfterEquals(b, i, floatOk)
  {
    hide NumberEnd, TokenEnd;
    if i + 1 < |b| && b[i + 1] !in {',', ' '} {
      NumberEndBlank(b, i + 1, floatOk);
      TokenEndBlank(b, i + 2);
      var k := TokenEnd(b, i + 2);
      assert (b + [' '])[i + 1..k] == b[i + 1..k];
    }
  }

  lemma {:induction false} FieldsEndBlank(b: Bytes, i: nat, st: FieldState, floatOk: FloatTest)
    requires 2 <= i <= |b| && FieldsEnd(b + [' '], i, st, floatOk) == Ok(|b|)
    ensures FieldsEnd(b, i, st, floatOk) == Ok(|b|)
    decreases |b| - i
  {
    hide AfterEquals;
    var c := b + [' '];
    if i < |b| {
      if b[i] == '\\' {
        if i + 1 < |b| {
          FieldsEndBlank(b, i + 2, st, floatOk);
        }
      } else if b[i] == '"' && st.equals > st.commas {
        FieldsEndBlank(b, i + 1, st.(quoted := !st.quoted), floatOk);
      } else if st.quoted {
        FieldsEndBlank(b, i + 1, st, floatOk);
      } else if b[i] == '=' {
        AfterEqualsBlank(b, i, floatOk);
        var next := AfterEquals(b, i, floatOk);
        if next.Ok? {
          FieldsEndBlank(b, next.value, st.(equals := st.equals + 1), floatOk);
        }
      } else if b[i] != ' ' {
        FieldsEndBlank(b, i + 1, if b[i] == ',' then st.(commas := st.commas + 1) else st, floatOk);
      }
    }
  }

  // ---------- a line without a time ----------

  function Timeless(m: Metric): Bytes {
    m.name + m.tags + [' '] + m.fields
  }

  lemma {:induction false} TimelessPieces(m: Metric)
    ensures
      var (buf, k) := (Timeless(m), |m.name| + |m.tags|);
      && At(buf, 0, m.name + m.tags + [' ']) && At(buf + [' '], k + 1, m.fields + [' '])
      && buf[..k] == m.name + m.tags && buf[k + 1..] == m.fields
  {
    var buf := Timeless(m);
    var a, b := m.name + m.tags + [' '], m.fields + [' '];
    assert buf == a + m.fields && buf + [' '] == a + b;
    AtConcat(buf, 0, a, m.fields);
    AtConcat(buf + [' '], 0, a, b);
  }

  lemma {:induction false} FirstAt(buf: Bytes, i: nat, text: Bytes)
    requires At(buf + [' '], i, text + [' ']) && |buf| == i + |text| && text != []
    ensures buf[i] == text[0]
  {
    assert (text + [' '])[0] == text[0];
    assert (buf + [' '])[i] == buf[i];
  }

  lemma {:induction false} TimelessEnd(buf: Bytes, k: nat, fields: seq<Field>, text: Bytes, floatOk: FloatTest)
    requires FullFields(fields, floatOk) && GoodStart(fields[0].0) && text == FieldBytes(fields)
    requires 1 <= k && |buf| == k + 1 + |text| && buf[k] == ' ' && At(buf + [' '], k + 1, text + [' '])
    ensures FieldsEnd(buf, k + 1, FRESH, floatOk) == Ok(|buf|)
  {
    hide FieldsEnd, FieldBytes, FullFields, GoodStart, At, SkipSpace, IsSpace;
    FieldBlockAt(buf + [' '], k, fields, floatOk);
    FieldsEndBlank(buf, k + 1, FRESH, floatOk);
  }

  lemma {:induction false} TimelessStart(buf: Bytes, k: nat, fields: seq<Field>, text: Bytes)
    requires fields != [] && GoodStart(fields[0].0) && text == FieldBytes(fields)
    requires |buf| == k + 1 + |text| && buf[k] == ' ' && At(buf + [' '], k + 1, text + [' '])
    ensures SkipSpace(buf, k) == k + 1 < |buf|
  {
    hide FieldBytes, GoodStart, At, SkipSpace, IsSpace;
    FieldBytesStart(fields);
    FirstAt(buf, k + 1, text);
    SkipOne(buf, k);
  }

  lemma {:induction false} TimelessFields(buf: Bytes, k: nat, fields: seq<Field>, floatOk: FloatTest)
    requires FullFields(fields, floatOk) && GoodStart(fields[0].0)
    requires 1 <= k && |buf| == k + 1 + |FieldBytes(fields)| && buf[k] == ' '
    requires At(buf + [' '], k + 1, FieldBytes(fields) + [' '])
    ensures SkipSpace(buf, k) == k + 1 < |buf| && FieldsEnd(buf, k + 1, FRESH, floatOk) == Ok(|buf|)
  {
    assert fields != [];
    hide FieldsEnd, FieldBytes, FullFields, GoodStart, At, SkipSpace, IsSpace;
    var text := FieldBytes(fields);
    TimelessStart(buf, k, fields, text);
    TimelessEnd(buf, k, fields, text, floatOk);
  }

  lemma {:induction false} TimelessBlocks(buf: Bytes, k: nat, floatOk: FloatTest)
    requires KeyBlock(buf) == Ok((0, k)) && k <= MAX_KEY_LENGTH && k + 1 < |buf| && SkipSpace(buf, k) == k + 1
    requires 1 <= k && FieldsEnd(buf, k + 1, FRESH, floatOk) == Ok(|buf|)
    ensures FindBlocks(buf, floatOk) == Ok(Blocks(0, k, k + 1, |buf|, |buf|, |buf|))
  {
    hide KeyBlock, FieldsEnd;
  }

  /** A line without a time gets the default time as it is, whatever the precision. */
  lemma {:induction false} DefaultTime(x: Source, defaultTime: int, precision: string, floatOk: FloatTest)
    requires Scannable(x, floatOk)
    ensures MetricOf(Timeless(Rendered(x)), defaultTime, precision, floatOk) == Ok(Rendered(x.(nanos := defaultTime)))
  {
    hide Escape, TagBytes, FieldBytes, FormatInt, FullFields, FullTag, Shut, Closed, At, KeyBlock, FindBlocks, Assemble;
    var m := Rendered(x);
    var buf := Timeless(m);
    var k := |m.name| + |m.tags|;
    TimelessPieces(m);
    EscapeStart(InName, x.name);
    KeyBlockAt(buf, x.name, x.tags);
    TimelessFields(buf, k, x.fields, floatOk);
    TimelessBlocks(buf, k, floatOk);
    assert buf[0..k] == buf[..k] && buf[k + 1..|buf|] == buf[k + 1..];
    AssembleRendered(x.name, x.tags, m.fields, FormatInt(defaultTime));
  }

  // ---------- precisions ----------

  lemma {:induction false} InUnit(n: int, unit: nat, precision: string, nanos: int, defaultTime: int)
    requires PrecisionMultiplier(precision) == unit && unit * n == nanos
    requires MIN_INT64 <= n <= MAX_INT64 && MIN_INT64 <= nanos <= MAX_INT64
    ensures TimeText(FormatInt(n), defaultTime, precision) == Ok(FormatInt(nanos))
  {
    hide TimeText, FormatInt, PrecisionMultiplier;
    TimeTextOf(n, defaultTime, precision);
  }

  lemma {:induction false} UnitFactors()
    ensures PrecisionMultiplier("h") == 3_600_000_000_000 && PrecisionMultiplier("m") == 60_000_000_000
    ensures PrecisionMultiplier("s") == 1_000_000_000 && PrecisionMultiplier("ms") == 1_000_000
    ensures PrecisionMultiplier("u") == 1_000 && PrecisionMultiplier("ns") == 1
  {
  }

  /** n hours, as minutes, seconds, milliseconds, microseconds and nanoseconds, are one time. */
  lemma {:induction false} OneInstant(n: int, nanos: int, defaultTime: int)
    requires nanos == 3_600_000_000_000 * n && MIN_INT64 <= nanos <= MAX_INT64
    ensures TimeText(FormatInt(n), defaultTime, "h") == Ok(FormatInt(nanos))
    ensures TimeText(FormatInt(60 * n), defaultTime, "m") == Ok(FormatInt(nanos))
    ensures TimeText(FormatInt(3_600 * n), defaultTime, "s") == Ok(FormatInt(nanos))
    ensures TimeText(FormatInt(3_600_000 * n), defaultTime, "ms") == Ok(FormatInt(nanos))
    ensures TimeText(FormatInt(3_600_000_000 * n), defaultTime, "u") == Ok(FormatInt(nanos))
    ensures TimeText(FormatInt(nanos), defaultTime, "ns") == Ok(FormatInt(nanos))
  {
    hide TimeText, FormatInt, PrecisionMultiplier;
    UnitFactors();
    InUnit(n, 3_600_000_000_000, "h", nanos, defaultTime);
    InUnit(60 * n, 60_000_000_000, "m", nanos, defaultTime);
    InUnit(3_600 * n, 1_000_000_000, "s", nanos, defaultTime);
    InUnit(3_600_000 * n, 1_000_000, "ms", nanos, defaultTime);
    InUnit(3_600_000_000 * n, 1_000, "u", nanos, defaultTime);
    InUnit(nanos, 1, "ns", nanos, defaultTime);
  }

  /** A time beyond int64 is kept as it is where nothing has to be multiplied, and refused otherwise. */
  lemma {:induction false} BeyondInt64(n: int, defaultTime: int, precision: string)
    requires !(MIN_INT64 <= n <= MAX_INT64)
    ensures TimeText(FormatInt(n), defaultTime, precision) ==
            if PrecisionMultiplier(precision) == 1 then Ok(FormatInt(n)) else Err(TimestampOutOfRange)
  {
    hide PrecisionMultiplier;
    var m: nat := if n < 0 then -n else n;
    var s, digits := FormatInt(n), FormatNat(m);
    ParseFormatNat(m);
    FormatNatDigits(m, 0);
    assert n < 0 ==> s[0] == '-' && s[1..] == digits;
  }

  /** So is a minus without digits, which scanTime lets through. */
  lemma {:induction false} MinusAsTime(defaultTime: int, precision: string)
    ensures TimeEnd(['-'], 0, 0) == Ok(1)
    ensures TimeText(['-'], defaultTime, precision) ==
            if PrecisionMultiplier(precision) == 1 then Ok(['-']) else Err(TimestampOutOfRange)
  {
    hide PrecisionMultiplier;
    assert TimeEnd(['-'], 0, 1) == Ok(1);
  }
}
