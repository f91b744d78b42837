/** What parseMetric and its scanners accept (report/metric/parse.go), as functions of the buffer.
    The methods that do the scanning are in LineParser. */
module LineGrammar {
  import opened ByteStrings
  import opened Escaping
  import opened Decimals
  import opened Lines
  import opened FieldLookup

  datatype ParseError =
    | BufferTooShort | MissingMeasurement | MissingFields | MissingTagKey | MissingTagValue
    | InvalidTagFormat | KeyTooLong | MissingFieldKey | MissingFieldValue | InvalidNumber
    | IntegerOutOfRange | InvalidFloat | InvalidValue | InvalidBoolean | UnbalancedQuotes
    | InvalidFieldFormat | InvalidTimestamp | TimestampOutOfRange

  const MAX_KEY_LENGTH := 65535
  const MAX_INT64_DIGITS := 19
  const MIN_INT64_DIGITS := 20
  const MAX_FLOAT64_DIGITS := 25
  const MIN_FLOAT64_DIGITS := 27

  type Scan<+T> = Result<T, ParseError>

  // ---------- the key block ----------

  predicate IsSpace(c: char) {
    c == ' ' || c == '\t' || c == '\0'
  }

  function SkipSpace(buf: Bytes, i: nat): (k: nat)
    requires i <= |buf|
    ensures i <= k <= |buf|
    ensures forall j :: i <= j < k ==> IsSpace(buf[j])
    ensures k < |buf| ==> !IsSpace(buf[k])
    decreases |buf| - i
  {
    if i == |buf| || !IsSpace(buf[i]) then i else SkipSpace(buf, i + 1)
  }

  const NAME_STOPS := {',', ' '}
  const TAG_STOPS := {',', ' ', '='}

  /** The end of the measurement, and whether tags follow. */
  function MeasurementEnd(buf: Bytes, i: nat): (r: Scan<(bool, nat)>)
    requires i <= |buf|
    ensures r.Ok? ==> i < r.value.1 <= |buf| && (!r.value.0 ==> r.value.1 < |buf| && buf[r.value.1] == ' ')
  {
    if i == |buf| || buf[i] == ',' then Err(MissingMeasurement)
    else
      var k := NextPlain(buf, i + 1, NAME_STOPS);
      if k == |buf| then Err(MissingFields)
      else if buf[k] == ',' then Ok((true, k + 1))
      else Ok((false, k))
  }

  function TagKeyEnd(buf: Bytes, i: nat): (r: Scan<nat>)
    requires i <= |buf|
    ensures r.Ok? ==> i < r.value <= |buf|
  {
    if i == |buf| || buf[i] in TAG_STOPS then Err(MissingTagKey)
    else
      var k := NextPlain(buf, i + 1, TAG_STOPS);
      if k == |buf| || buf[k] != '=' then Err(MissingTagValue) else Ok(k + 1)
  }

  /** The end of a tag value, and whether another tag follows. */
  function TagValueEnd(buf: Bytes, i: nat): (r: Scan<(bool, nat)>)
    requires i <= |buf|
    ensures r.Ok? ==> i < r.value.1 <= |buf| && (!r.value.0 ==> r.value.1 < |buf| && buf[r.value.1] == ' ')
  {
    if i == |buf| || buf[i] in NAME_STOPS then Err(MissingTagValue)
    else
      var k := NextPlain(buf, i + 1, TAG_STOPS);
      if k == |buf| then Err(MissingFields)
      else if buf[k] == '=' then Err(InvalidTagFormat)
      else if buf[k] == ',' then Ok((true, k + 1))
      else Ok((false, k))
  }

  function TagsEnd(buf: Bytes, i: nat): (r: Scan<nat>)
    requires i <= |buf|
    ensures r.Ok? ==> i < r.value < |buf| && buf[r.value] == ' '
    decreases |buf| - i
  {
    match TagKeyEnd(buf, i)
    case Err(e) => Err(e)
    case Ok(v) =>
      match TagValueEnd(buf, v)
      case Err(e) => Err(e)
      case Ok((more, k)) => if more then TagsEnd(buf, k) else Ok(k)
  }

  function KeyBlock(buf: Bytes): (r: Scan<(nat, nat)>)
    ensures r.Ok? ==> r.value.0 < r.value.1 < |buf| && buf[r.value.1] == ' '
    ensures r.Ok? ==> forall k :: 0 <= k < r.value.0 ==> IsSpace(buf[k])
  {
    var start := SkipSpace(buf, 0);
    match MeasurementEnd(buf, start)
    case Err(e) => Err(e)
    case Ok((tags, i)) =>
      if !tags then Ok((start, i))
      else match TagsEnd(buf, i)
        case Err(e) => Err(e)
        case Ok(k) => Ok((start, k))
  }

  // ---------- numbers and booleans ----------

  predicate IsNumeric(c: char) {
    IsDigit(c) || c == '.'
  }

  datatype Seen = Seen(isInt: bool, decimal: bool, scientific: bool)

  const NOTHING := Seen(false, false, false)

  function NumberScan(buf: Bytes, start: nat, i: nat, seen: Seen): (r: Scan<(nat, Seen)>)
    requires 1 <= start <= i <= |buf|
    ensures r.Ok? ==> i <= r.value.0 <= |buf|
    decreases |buf| - i
  {
    if i == |buf| || buf[i] == ',' || buf[i] == ' ' then Ok((i, seen))
    else if buf[i] == 'i' && i > start && !seen.isInt then
      NumberScan(buf, start, i + 1, seen.(isInt := true))
    else if buf[i] == '.' then
      if seen.decimal then Err(InvalidNumber) else NumberScan(buf, start, i + 1, seen.(decimal := true))
    else if i > start && (buf[i] == 'e' || buf[i] == 'E') then
      NumberScan(buf, start, i + 1, seen.(scientific := true))
    else if (buf[i] == '+' || buf[i] == '-') && (buf[i - 1] == 'e' || buf[i - 1] == 'E') then
      NumberScan(buf, start, i + 1, seen)
    else if IsDigit(buf[i]) then NumberScan(buf, start, i + 1, seen)
    else Err(InvalidNumber)
  }

  /** The checks scanNumber makes on the text once its end is known. */
  function CheckNumber(text: Bytes, seen: Seen, floatOk: FloatTest): (r: Option<ParseError>)
    requires text != []
  {
    var digits := |text| - (if seen.isInt then 1 else 0) - (if seen.decimal then 1 else 0)
                         - (if text[0] == '-' then 1 else 0);
    if (seen.isInt && (seen.decimal || seen.scientific)) || digits == 0 then Some(InvalidNumber)
    else if seen.isInt then
      if text[|text| - 1] != 'i' then Some(InvalidNumber)
      else if |text| - 1 >= MAX_INT64_DIGITS && ParseInt(text[..|text| - 1]).None? then Some(IntegerOutOfRange)
      else None
    else if (seen.scientific || |text| >= MAX_FLOAT64_DIGITS) && !floatOk(text) then Some(InvalidFloat)
    else None
  }

  function NumberEnd(buf: Bytes, start: nat, floatOk: FloatTest): (r: Scan<nat>)
    requires 1 <= start < |buf| && buf[start] !in {',', ' '}
    ensures r.Ok? ==> start < r.value <= |buf|
  {
    var i := if buf[start] == '-' then start + 1 else start;
    if i == |buf| then Err(InvalidNumber)
    else match NumberScan(buf, start, i, NOTHING)
      case Err(e) => Err(e)
      case Ok((k, seen)) =>
        if k == start then Err(InvalidNumber)
        else match CheckNumber(buf[start..k], seen, floatOk)
          case Some(e) => Err(e)
          case None => Ok(k)
  }

  /** The least position from `from` on that holds a comma or a space, or |buf|. */
  function TokenEnd(buf: Bytes, from: nat): (k: nat)
    requires from <= |buf|
    ensures from <= k <= |buf|
    ensures forall j :: from <= j < k ==> buf[j] !in {',', ' '}
    ensures k < |buf| ==> buf[k] in {',', ' '}
    decreases |buf| - from
  {
    if from == |buf| || buf[from] in {',', ' '} then from else TokenEnd(buf, from + 1)
  }

  predicate IsBoolean(word: Bytes) {
    |word| == 1 || word in {"true", "TRUE", "True", "false", "FALSE", "False"}
  }

  function BooleanEnd(buf: Bytes, start: nat): (r: Scan<nat>)
    requires start < |buf|
    ensures r.Ok? ==> start < r.value <= |buf|
  {
    if buf[start] !in {'t', 'f', 'T', 'F'} then Err(InvalidValue)
    else
      var k := TokenEnd(buf, start + 1);
      if IsBoolean(buf[start..k]) then Ok(k) else Err(InvalidBoolean)
  }

  // ---------- the field block ----------

  /** scanFields' loop variables. */
  datatype FieldState = FieldState(quoted: bool, equals: nat, commas: nat)

  const FRESH := FieldState(false, 0, 0)

  function FieldsDone(i: nat, st: FieldState): Scan<nat> {
    if st.quoted then Err(UnbalancedQuotes)
    else if st.equals == 0 || st.commas != st.equals - 1 then Err(InvalidFieldFormat)
    else Ok(i)
  }

  /** An '=' outside quotes at i: the position the scan goes on from. */
  function AfterEquals(buf: Bytes, i: nat, floatOk: FloatTest): (r: Scan<nat>)
    requires 2 <= i < |buf| && buf[i] == '='
    ensures r.Ok? ==> i < r.value <= |buf|
  {
    if (buf[i - 1] == ' ' || buf[i - 1] == ',') && buf[i - 2] != '\\' then Err(MissingFieldKey)
    else if i + 1 == |buf| || buf[i + 1] == ',' || buf[i + 1] == ' ' then Err(MissingFieldValue)
    else if IsNumeric(buf[i + 1]) || buf[i + 1] in {'-', 'N', 'n'} then NumberEnd(buf, i + 1, floatOk)
    else if buf[i + 1] != '"' then BooleanEnd(buf, i + 1)
    else Ok(i + 1)
  }

  /** The end of the field block when the scan stands at i in state st. */
  function FieldsEnd(buf: Bytes, i: nat, st: FieldState, floatOk: FloatTest): (r: Scan<nat>)
    requires 2 <= i <= |buf|
    ensures r.Ok? ==> i <= r.value <= |buf| && (r.value < |buf| ==> buf[r.value] == ' ')
    decreases |buf| - i
  {
    if i == |buf| then FieldsDone(i, st)
    else if buf[i] == '\\' && i + 1 < |buf| then FieldsEnd(buf, i + 2, st, floatOk)
    else if buf[i] == '"' && st.equals > st.commas then
      FieldsEnd(buf, i + 1, st.(quoted := !st.quoted), floatOk)
    else if st.quoted then FieldsEnd(buf, i + 1, st, floatOk)
    else if buf[i] == '=' then
      match AfterEquals(buf, i, floatOk)
      case Err(e) => Err(e)
      case Ok(k) => FieldsEnd(buf, k, st.(equals := st.equals + 1), floatOk)
    else if buf[i] == ' ' then FieldsDone(i, st)
    else FieldsEnd(buf, i + 1, if buf[i] == ',' then st.(commas := st.commas + 1) else st, floatOk)
  }

  // ---------- the time block ----------

  function TimeEnd(buf: Bytes, start: nat, i: nat): (r: Scan<nat>)
    requires start <= i <= |buf|
    ensures r.Ok? ==> i <= r.value <= |buf|
    ensures r.Ok? && r.value < |buf| ==> buf[r.value] == ' ' || buf[r.value] == '\n'
    decreases |buf| - i
  {
    if i == |buf| || buf[i] == '\n' || buf[i] == ' ' then Ok(i)
    else if (i == start && buf[i] == '-') || IsDigit(buf[i]) then TimeEnd(buf, start, i + 1)
    else Err(InvalidTimestamp)
  }

  function PrecisionMultiplier(precision: string): (n: nat)
    ensures n >= 1
  {
    match precision
    case "u" => 1_000
    case "ms" => 1_000_000
    case "s" => 1_000_000_000
    case "m" => 60_000_000_000
    case "h" => 3_600_000_000_000
    case _ => 1
  }

  // ---------- a whole metric ----------

  /** Where the three blocks of an accepted line lie. */
  datatype Blocks = Blocks(key: nat, keyEnd: nat, fields: nat, fieldsEnd: nat, time: nat, timeEnd: nat)

  /** The blocks are disjoint, in order, and apart from the time not empty; what lies before, between
      and right after them is blank. */
  ghost predicate InOrder(buf: Bytes, b: Blocks) {
    && b.key < b.keyEnd < b.fields < b.fieldsEnd <= b.time <= b.timeEnd <= |buf|
    && (forall k :: 0 <= k < b.key || b.keyEnd <= k < b.fields || b.fieldsEnd <= k < b.time ==> IsSpace(buf[k]))
    && (b.timeEnd < |buf| ==> buf[b.timeEnd] == ' ' || buf[b.timeEnd] == '\n')
  }

  function FindBlocks(buf: Bytes, floatOk: FloatTest): (r: Scan<Blocks>)
    ensures r.Ok? ==> InOrder(buf, r.value) && r.value.keyEnd - r.value.key <= MAX_KEY_LENGTH
  {
    match KeyBlock(buf)
    case Err(e) => Err(e)
    case Ok((k0, k1)) =>
      if k1 - k0 > MAX_KEY_LENGTH then Err(KeyTooLong)
      else
        var f0 := SkipSpace(buf, k1);
        match FieldsEnd(buf, f0, FRESH, floatOk)
        case Err(e) => Err(e)
        case Ok(f1) =>
          if f0 == f1 then Err(MissingFields)
          else
            var t0 := SkipSpace(buf, f1);
            match TimeEnd(buf, t0, t0)
            case Err(e) => Err(e)
            case Ok(t1) => Ok(Blocks(k0, k1, f0, f1, t0, t1))
  }

  /** The timestamp text that is kept: scaled by the precision, or the default when there is none. */
  function TimeText(ts: Bytes, defaultTime: int, precision: string): Scan<Bytes> {
    if ts == [] then Ok(FormatInt(defaultTime))
    else if PrecisionMultiplier(precision) == 1 then Ok(ts)
    else match ParseInt(ts)
      case None => Err(TimestampOutOfRange)
      case Some(n) => Ok(FormatInt(WrapInt64(PrecisionMultiplier(precision) * n)))
  }

  /** The key block cut into name and tags at its first comma that is not under an escape. */
  function Assemble(key: Bytes, fields: Bytes, t: Bytes): Metric {
    var namei := IndexBare(key, ',');
    if namei < 1 then Metric(key, [], fields, t) else Metric(key[..namei], key[namei..], fields, t)
  }

  function MetricOf(buf: Bytes, defaultTime: int, precision: string, floatOk: FloatTest): Scan<Metric> {
    match FindBlocks(buf, floatOk)
    case Err(e) => Err(e)
    case Ok(b) => MetricAt(buf, b, defaultTime, precision)
  }

  function MetricAt(buf: Bytes, b: Blocks, defaultTime: int, precision: string): Scan<Metric>
    requires b.key <= b.keyEnd <= |buf| && b.fields <= b.fieldsEnd <= |buf| && b.time <= b.timeEnd <= |buf|
  {
    match TimeText(buf[b.time..b.timeEnd], defaultTime, precision)
    case Err(e) => Err(e)
    case Ok(t) => Ok(Assemble(buf[b.key..b.keyEnd], buf[b.fields..b.fieldsEnd], t))
  }

  // ---------- a whole buffer ----------

  /** The metrics of the lines that parse, in order, and the errors of those that do not. */
  datatype Parsed = Parsed(metrics: seq<Metric>, errors: seq<ParseError>)

  function ParseLines(buf: Bytes, i: nat, defaultTime: int, precision: string, floatOk: FloatTest): Parsed
    requires i <= |buf|
    decreases |buf| - i
  {
    var j := IndexByte(buf, '\n', i);
    if j == |buf| then Parsed([], [])
    else
      var rest := ParseLines(buf, j + 1, defaultTime, precision, floatOk);
      if j - i < 2 then rest
      else match MetricOf(buf[i..j], defaultTime, precision, floatOk)
        case Err(e) => Parsed(rest.metrics, [e] + rest.errors)
        case Ok(m) => Parsed([m] + rest.metrics, rest.errors)
  }

  function ParseOf(buf: Bytes, defaultTime: int, precision: string, floatOk: FloatTest): Parsed {
    if |buf| == 0 then Parsed([], [])
    else if |buf| <= 6 then Parsed([], [BufferTooShort])
    else ParseLines(buf, 0, defaultTime, precision, floatOk)
  }
}
