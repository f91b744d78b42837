/** The scanners of report/metric/parse.go, loop by loop. Each is proved to compute what LineGrammar
    says for every buffer; that no index is out of range is proved along with it. */
module LineParser {
  import opened ByteStrings
  import opened Escaping
  import opened Decimals
  import opened Lines
  import opened FieldLookup
  import opened LineGrammar

  method SkipWhitespace(buf: Bytes, from: nat) returns (i: nat)
    requires from <= |buf|
    ensures i == SkipSpace(buf, from)
  {
    i := from;
    while i < |buf|
      invariant i <= |buf| && SkipSpace(buf, i) == SkipSpace(buf, from)
    {
      if buf[i] != ' ' && buf[i] != '\t' && buf[i] != '\0' {
        break;
      }
      i := i + 1;
    }
  }

  method ScanMeasurement(buf: Bytes, start: nat) returns (r: Scan<(bool, nat)>)
    requires start <= |buf|
    ensures r == MeasurementEnd(buf, start)
  {
    var i := start;
    if i >= |buf| || buf[i] == ',' {
      return Err(MissingMeasurement);
    }
    while true
      invariant start <= i < |buf|
      invariant NextPlain(buf, start + 1, NAME_STOPS) == NextPlain(buf, i + 1, NAME_STOPS)
      decreases |buf| - i
    {
      i := i + 1;
      if i >= |buf| {
        return Err(MissingFields);
      }
      if buf[i - 1] == '\\' {
        continue;
      }
      if buf[i] == ',' {
        return Ok((true, i + 1));
      }
      if buf[i] == ' ' {
        return Ok((false, i));
      }
    }
  }

  method ScanTagsKey(buf: Bytes, start: nat) returns (r: Scan<nat>)
    requires start <= |buf|
    ensures r == TagKeyEnd(buf, start)
  {
    var i := start;
    if i >= |buf| || buf[i] == ' ' || buf[i] == ',' || buf[i] == '=' {
      return Err(MissingTagKey);
    }
    while true
      invariant start <= i < |buf|
      invariant NextPlain(buf, start + 1, TAG_STOPS) == NextPlain(buf, i + 1, TAG_STOPS)
      decreases |buf| - i
    {
      i := i + 1;
      if i >= |buf| || ((buf[i] == ' ' || buf[i] == ',') && buf[i - 1] != '\\') {
        return Err(MissingTagValue);
      }
      if buf[i] == '=' && buf[i - 1] != '\\' {
        return Ok(i + 1);
      }
    }
  }

  method ScanTagsValue(buf: Bytes, start: nat) returns (r: Scan<(bool, nat)>)
    requires start <= |buf|
    ensures r == TagValueEnd(buf, start)
  {
    var i := start;
    if i >= |buf| || buf[i] == ',' || buf[i] == ' ' {
      return Err(MissingTagValue);
    }
    while true
      invariant start <= i < |buf|
      invariant NextPlain(buf, start + 1, TAG_STOPS) == NextPlain(buf, i + 1, TAG_STOPS)
      decreases |buf| - i
    {
      i := i + 1;
      if i >= |buf| {
        return Err(MissingFields);
      }
      if buf[i] == '=' && buf[i - 1] != '\\' {
        return Err(InvalidTagFormat);
      }
      if buf[i] == ',' && buf[i - 1] != '\\' {
        return Ok((true, i + 1));
      }
      if buf[i] == ' ' && buf[i - 1] != '\\' {
        return Ok((false, i));
      }
    }
  }

  method ScanTags(buf: Bytes, start: nat) returns (r: Scan<nat>)
    requires start <= |buf|
    ensures r == TagsEnd(buf, start)
  {
    var i := start;
    while true
      invariant i <= |buf| && TagsEnd(buf, i) == TagsEnd(buf, start)
      decreases |buf| - i
    {
      var key := ScanTagsKey(buf, i);
      if key.Err? {
        return Err(key.error);
      }
      var val := ScanTagsValue(buf, key.value);
      if val.Err? {
        return Err(val.error);
      }
      i := val.value.1;
      if !val.value.0 {
        return Ok(i);
      }
    }
  }

  method ScanKey(buf: Bytes) returns (r: Scan<(nat, nat)>)
    ensures r == KeyBlock(buf)
  {
    var start := SkipWhitespace(buf, 0);
    var m := ScanMeasurement(buf, start);
    if m.Err? {
      return Err(m.error);
    }
    var i := m.value.1;
    if m.value.0 {
      var tags := ScanTags(buf, i);
      if tags.Err? {
        return Err(tags.error);
      }
      i := tags.value;
    }
    return Ok((start, i));
  }

  method ScanNumber(buf: Bytes, start: nat, floatOk: FloatTest) returns (r: Scan<nat>)
    requires 1 <= start < |buf| && buf[start] !in {',', ' '}
    ensures r == NumberEnd(buf, start, floatOk)
  {
    var i := start;
    if buf[i] == '-' {
      i := i + 1;
      if i == |buf| {
        return Err(InvalidNumber);
      }
    }
    ghost var from := i;
    var isInt, decimal, scientific := false, false, false;
    while i < |buf| && buf[i] != ',' && buf[i] != ' '
      invariant from <= i <= |buf| && (i == from ==> !decimal)
      invariant NumberScan(buf, start, from, NOTHING) == NumberScan(buf, start, i, Seen(isInt, decimal, scientific))
      decreases |buf| - i
    {
      if buf[i] == 'i' && i > start && !isInt {
        isInt := true;
        i := i + 1;
        continue;
      }
      if buf[i] == '.' {
        if decimal {
          return Err(InvalidNumber);
        }
        decimal := true;
      }
      if i > start && (buf[i] == 'e' || buf[i] == 'E') {
        scientific := true;
        i := i + 1;
        continue;
      }
      if (buf[i] == '+' || buf[i] == '-') && (buf[i - 1] == 'e' || buf[i - 1] == 'E') {
        i := i + 1;
        continue;
      }
      if i + 2 < |buf| && (buf[i] == 'N' || buf[i] == 'n') {
        return Err(InvalidNumber);
      }
      if !IsNumeric(buf[i]) {
        return Err(InvalidNumber);
      }
      i := i + 1;
    }
    var bad := JudgeNumber(buf, start, i, isInt, decimal, scientific, floatOk);
    return if bad.Some? then Err(bad.value) else Ok(i);
  }

  /** The second half of scanNumber: the checks after the loop. */
  method JudgeNumber(buf: Bytes, start: nat, i: nat, isInt: bool, decimal: bool, scientific: bool, floatOk: FloatTest)
    returns (bad: Option<ParseError>)
    requires start < i <= |buf|
    ensures bad == CheckNumber(buf[start..i], Seen(isInt, decimal, scientific), floatOk)
  {
    if isInt && (decimal || scientific) {
      return Some(InvalidNumber);
    }
    var numericDigits: int := i - start;
    if isInt {
      numericDigits := numericDigits - 1;
    }
    if decimal {
      numericDigits := numericDigits - 1;
    }
    if buf[start] == '-' {
      numericDigits := numericDigits - 1;
    }
    if numericDigits == 0 {
      return Some(InvalidNumber);
    }
    if isInt {
      if buf[i - 1] != 'i' {
        return Some(InvalidNumber);
      }
      var digits := buf[start..i - 1];
      assert buf[start..i][..i - start - 1] == digits;
      if |digits| >= MAX_INT64_DIGITS || |digits| >= MIN_INT64_DIGITS {
        if ParseInt(digits).None? {
          return Some(IntegerOutOfRange);
        }
      }
    } else if scientific || i - start >= MAX_FLOAT64_DIGITS || i - start >= MIN_FLOAT64_DIGITS {
      if !floatOk(buf[start..i]) {
        return Some(InvalidFloat);
      }
    }
    return None;
  }

  method ScanBoolean(buf: Bytes, start: nat) returns (r: Scan<nat>)
    requires start < |buf|
    ensures r == BooleanEnd(buf, start)
  {
    var i := start;
    if buf[i] != 't' && buf[i] != 'f' && buf[i] != 'T' && buf[i] != 'F' {
      return Err(InvalidValue);
    }
    i := i + 1;
    while i < |buf|
      invariant start < i <= |buf| && TokenEnd(buf, i) == TokenEnd(buf, start + 1)
    {
      if buf[i] == ',' || buf[i] == ' ' {
        break;
      }
      i := i + 1;
    }
    if i - start == 1 {
      return Ok(i);
    }
    var word := buf[start..i];
    assert word[0] == buf[start];
    if (buf[start] == 't' || buf[start] == 'T') && i - start != 4 {
      return Err(InvalidBoolean);
    }
    if (buf[start] == 'f' || buf[start] == 'F') && i - start != 5 {
      return Err(InvalidBoolean);
    }
    var valid := false;
    match buf[start] {
      case 't' => valid := word == "true";
      case 'f' => valid := word == "false";
      case 'T' => valid := word == "TRUE" || word == "True";
      case 'F' => valid := word == "FALSE" || word == "False";
      case _ =>
    }
    return if valid then Ok(i) else Err(InvalidBoolean);
  }

  method ScanFields(buf: Bytes, from: nat, floatOk: FloatTest) returns (start: nat, r: Scan<nat>)
    requires from <= |buf| && 2 <= SkipSpace(buf, from)
    ensures start == SkipSpace(buf, from) && r == FieldsEnd(buf, start, FRESH, floatOk)
  {
    hide AfterEquals, SkipSpace;
    start := SkipWhitespace(buf, from);
    var i := start;
    var quoted := false;
    var equals, commas := 0, 0;
    while i < |buf|
      invariant 2 <= i <= |buf| && equals >= 0 && commas >= 0
      invariant FieldsEnd(buf, start, FRESH, floatOk) == FieldsEnd(buf, i, FieldState(quoted, equals, commas), floatOk)
      decreases |buf| - i
    {
      if buf[i] == '\\' && i + 1 < |buf| {
        i := i + 2;
        continue;
      }
      if buf[i] == '"' && equals > commas {
        quoted := !quoted;
        i := i + 1;
        continue;
      }
      if buf[i] == '=' && !quoted {
        equals := equals + 1;
        var next := ScanValue(buf, i, floatOk);
        if next.Err? {
          return start, Err(next.error);
        }
        if buf[i + 1] != '"' {
          i := next.value;
          continue;
        }
      }
      if buf[i] == ',' && !quoted {
        commas := commas + 1;
      }
      if buf[i] == ' ' && !quoted {
        break;
      }
      i := i + 1;
    }
    if quoted {
      return start, Err(UnbalancedQuotes);
    }
    if equals == 0 || commas != equals - 1 {
      return start, Err(InvalidFieldFormat);
    }
    return start, Ok(i);
  }

  /** The part of scanFields' loop behind an unquoted '='; for a quoted value it moves on by one. */
  method ScanValue(buf: Bytes, i: nat, floatOk: FloatTest) returns (r: Scan<nat>)
    requires 2 <= i < |buf| && buf[i] == '='
    ensures r == AfterEquals(buf, i, floatOk)
    ensures r.Ok? ==> i + 1 < |buf| && (buf[i + 1] == '"' ==> r.value == i + 1)
  {
    if buf[i - 1] == ' ' && buf[i - 2] != '\\' {
      return Err(MissingFieldKey);
    }
    if buf[i - 1] == ',' && buf[i - 2] != '\\' {
      return Err(MissingFieldKey);
    }
    if i + 1 >= |buf| {
      return Err(MissingFieldValue);
    }
    if buf[i + 1] == ',' || buf[i + 1] == ' ' {
      return Err(MissingFieldValue);
    }
    if IsNumeric(buf[i + 1]) || buf[i + 1] == '-' || buf[i + 1] == 'N' || buf[i + 1] == 'n' {
      r := ScanNumber(buf, i + 1, floatOk);
      return;
    }
    if buf[i + 1] != '"' {
      r := ScanBoolean(buf, i + 1);
      return;
    }
    return Ok(i + 1);
  }

  method ScanTime(buf: Bytes, from: nat) returns (start: nat, r: Scan<nat>)
    requires from <= |buf|
    ensures start == SkipSpace(buf, from) && r == TimeEnd(buf, start, start)
  {
    start := SkipWhitespace(buf, from);
    var i := start;
    while i < |buf|
      invariant start <= i <= |buf| && TimeEnd(buf, start, i) == TimeEnd(buf, start, start)
      decreases |buf| - i
    {
      if buf[i] == '\n' || buf[i] == ' ' {
        break;
      }
      if i == start && buf[i] == '-' {
        i := i + 1;
        continue;
      }
      if buf[i] < '0' || buf[i] > '9' {
        return start, Err(InvalidTimestamp);
      }
      i := i + 1;
    }
    return start, Ok(i);
  }

  /** The three scans of parseMetric. */
  method ScanBlocks(buf: Bytes, floatOk: FloatTest) returns (r: Scan<Blocks>)
    ensures r == FindBlocks(buf, floatOk)
  {
    var keyScan := ScanKey(buf);
    if keyScan.Err? {
      return Err(keyScan.error);
    }
    var (k0, pos) := keyScan.value;
    if pos - k0 > MAX_KEY_LENGTH {
      return Err(KeyTooLong);
    }
    var f0, fieldScan := ScanFields(buf, pos, floatOk);
    if fieldScan.Err? {
      return Err(fieldScan.error);
    }
    if f0 == fieldScan.value {
      return Err(MissingFields);
    }
    var t0, timeScan := ScanTime(buf, fieldScan.value);
    if timeScan.Err? {
      return Err(timeScan.error);
    }
    return Ok(Blocks(k0, pos, f0, fieldScan.value, t0, timeScan.value));
  }

  method KeepTime(time: Bytes, defaultTime: int, precision: string) returns (r: Scan<Bytes>)
    ensures r == TimeText(time, defaultTime, precision)
  {
    var ts := time;
    var multiplier := PrecisionMultiplier(precision);
    if |ts| > 0 && multiplier > 1 {
      var n := ParseInt(ts);
      if n.None? {
        return Err(TimestampOutOfRange);
      }
      ts := FormatInt(WrapInt64(multiplier * n.value));
    }
    if |ts| == 0 {
      ts := FormatInt(defaultTime);
    }
    return Ok(ts);
  }

  method ParseMetric(buf: Bytes, defaultTime: int, precision: string, floatOk: FloatTest) returns (r: Scan<Metric>)
    ensures r == MetricOf(buf, defaultTime, precision, floatOk)
  {
    var blocks := ScanBlocks(buf, floatOk);
    if blocks.Err? {
      return Err(blocks.error);
    }
    var b := blocks.value;
    var t := KeepTime(buf[b.time..b.timeEnd], defaultTime, precision);
    if t.Err? {
      return Err(t.error);
    }
    var key := buf[b.key..b.keyEnd];
    var namei := IndexUnescapedByte(key, ',');
    var m := Metric(key, [], buf[b.fields..b.fieldsEnd], t.value);
    if namei >= 1 {
      m := m.(name := key[..namei], tags := key[namei..]);
    }
    return Ok(m);
  }

  method Parse(buf: Bytes, defaultTime: int, precision: string, floatOk: FloatTest) returns (r: Parsed)
    ensures r == ParseOf(buf, defaultTime, precision, floatOk)
  {
    hide MetricOf;
    if |buf| == 0 {
      return Parsed([], []);
    }
    if |buf| <= 6 {
      return Parsed([], [BufferTooShort]);
    }
    var metrics: seq<Metric> := [];
    var errors: seq<ParseError> := [];
    var i := 0;
    while true
      invariant 0 <= i <= |buf|
      invariant
        var rest := ParseLines(buf, i, defaultTime, precision, floatOk);
        ParseOf(buf, defaultTime, precision, floatOk) == Parsed(metrics + rest.metrics, errors + rest.errors)
      decreases |buf| - i
    {
      var j := IndexByte(buf, '\n', i);
      if j == |buf| {
        return Parsed(metrics, errors);
      }
      if j - i >= 2 {
        var m := ParseMetric(buf[i..j], defaultTime, precision, floatOk);
        if m.Err? {
          errors := errors + [m.error];
        } else {
          metrics := metrics + [m.value];
        }
      }
      i := j + 1;
    }
  }
}
