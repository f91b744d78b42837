/** How scanFields walks over a field block that New wrote. */
module FieldScanning {
  import opened ByteStrings
  import opened Escaping
  import opened Decimals
  import opened Lines
  import opened Building
  import opened FieldLookup
  import opened LineGrammar

  // ---------- runs without a delimiter ----------

  /** What scanFields reacts to: only the quote inside a string; outside the delimiters, and the quote where
      a value may stand. */
  function Watched(st: FieldState): set<char> {
    if st.quoted then {'"'} else if st.equals > st.commas then {',', ' ', '=', '"'} else KEY_STOPS
  }

  const KEY_STOPS := {',', ' ', '='}

  lemma {:induction false} AtTail(buf: Bytes, i: nat, s: Bytes, n: nat)
    requires At(buf, i, s) && n <= |s|
    ensures At(buf, i + n, s[n..])
  {
    assert s == s[..n] + s[n..];
    AtConcat(buf, i, s[..n], s[n..]);
  }

  /** A sealed stretch leaves the state as it is. */
  lemma {:induction false} SealedRun(buf: Bytes, i: nat, s: Bytes, st: FieldState, floatOk: FloatTest)
    requires 2 <= i && At(buf, i, s) && i + |s| < |buf| && Sealed(s, Watched(st))
    ensures FieldsEnd(buf, i, st, floatOk) == FieldsEnd(buf, i + |s|, st, floatOk)
    decreases |s|
  {
    if s != [] {
      var n := if s[0] == '\\' then 2 else 1;
      SealedTail(s, Watched(st));
      assert s[0] == buf[i];
      AtTail(buf, i, s, n);
      SealedRun(buf, i + n, s[n..], st, floatOk);
    }
  }

  // ---------- values ----------

  lemma {:induction false} DigitRun(buf: Bytes, start: nat, i: nat, k: nat, seen: Seen)
    requires 1 <= start <= i <= k < |buf| && forall j :: i <= j < k ==> IsDigit(buf[j])
    ensures NumberScan(buf, start, i, seen) == NumberScan(buf, start, k, seen)
    decreases k - i
  {
    if i < k {
      DigitRun(buf, start, i + 1, k, seen);
    }
  }

  lemma {:induction false} IntegerEnd(buf: Bytes, start: nat, n: int, floatOk: FloatTest)
    requires 1 <= start && MIN_INT64 <= n <= MAX_INT64
    requires var k := start + |FormatInt(n)| + 1; k < |buf| && buf[k] in NAME_STOPS
    requires At(buf, start, FormatInt(n) + ['i'])
    ensures buf[start] == '-' || IsDigit(buf[start])
    ensures NumberEnd(buf, start, floatOk) == Ok(start + |FormatInt(n)| + 1)
  {
    hide FormatInt, ParseInt, CheckNumber;
    var last := start + |FormatInt(n)|;
    var from := if n < 0 then start + 1 else start;
    AtSnoc(buf, start, FormatInt(n), 'i');
    FormatIntShape(n);
    assert FormatInt(n)[0] == buf[start];
    forall j | from <= j < last
      ensures IsDigit(buf[j])
    {
      FormatIntDigit(n, j - start);
      assert FormatInt(n)[j - start] == buf[j];
    }
    DigitRun(buf, start, from, last, NOTHING);
    assert NumberScan(buf, start, from, NOTHING) == Ok((last + 1, NOTHING.(isInt := true)));
    AtSlice(buf, start, FormatInt(n) + ['i']);
    IntegerPasses(n, floatOk);
  }

  lemma {:induction false} IntegerPasses(n: int, floatOk: FloatTest)
    requires MIN_INT64 <= n <= MAX_INT64
    ensures CheckNumber(FormatInt(n) + ['i'], NOTHING.(isInt := true), floatOk) == None
  {
    var t := FormatInt(n) + ['i'];
    ParseFormatInt(n);
    FormatIntShape(n);
    assert t[..|t| - 1] == FormatInt(n);
    assert t[0] == FormatInt(n)[0];
  }

  lemma {:induction false} FloatPasses(text: Bytes, floatOk: FloatTest)
    requires FloatText(text) && floatOk(text)
    ensures CheckNumber(text, NOTHING.(decimal := IndexByte(text, '.', 0) < |text|), floatOk) == None
  {
  }

  lemma {:induction false} FloatEnd(buf: Bytes, start: nat, text: Bytes, floatOk: FloatTest)
    requires 1 <= start && FloatText(text) && floatOk(text)
    requires At(buf, start, text) && start + |text| < |buf| && buf[start + |text|] in NAME_STOPS
    ensures buf[start] == '-' || IsDigit(buf[start])
    ensures NumberEnd(buf, start, floatOk) == Ok(start + |text|)
  {
    FloatPasses(text, floatOk);
    FloatBytes(buf, start, text);
    AtSlice(buf, start, text);
    var from := if text[0] == '-' then start + 1 else start;
    FloatScan(buf, start, from, start + IndexByte(text, '.', 0), start + |text|);
    hide CheckNumber, FloatText, At, NumberScan, IndexByte;
    assert IsDigit(buf[start]) || buf[start] == '-';
  }

  lemma {:induction false} FloatBytes(buf: Bytes, start: nat, text: Bytes)
    requires FloatText(text) && At(buf, start, text)
    ensures
      var from := if text[0] == '-' then start + 1 else start;
      var (point, end) := (start + IndexByte(text, '.', 0), start + |text|);
      && text != [] && buf[start] == text[0] && from < point <= end <= |buf|
      && (point < end ==> buf[point] == '.' && point + 1 < end)
      && forall j :: from <= j < end && j != point ==> IsDigit(buf[j])
  {
    assert text[0] == buf[start];
    var from := if text[0] == '-' then start + 1 else start;
    forall j | from <= j < start + |text| && j != start + IndexByte(text, '.', 0)
      ensures IsDigit(buf[j])
    {
      assert text[j - start] == buf[j];
    }
    if IndexByte(text, '.', 0) < |text| {
      assert text[IndexByte(text, '.', 0)] == buf[start + IndexByte(text, '.', 0)];
    }
  }

  lemma {:induction false} FloatScan(buf: Bytes, start: nat, from: nat, point: nat, end: nat)
    requires 1 <= start <= from < point <= end < |buf| && buf[end] in NAME_STOPS
    requires (point < end ==> buf[point] == '.') && forall j :: from <= j < end && j != point ==> IsDigit(buf[j])
    ensures NumberScan(buf, start, from, NOTHING) == Ok((end, NOTHING.(decimal := point < end)))
  {
    DigitRun(buf, start, from, point, NOTHING);
    if point < end {
      DigitRun(buf, start, point + 1, end, NOTHING.(decimal := true));
    }
  }

  lemma {:induction false} WordAt(buf: Bytes, start: nat, from: nat, end: nat)
    requires start <= from <= end < |buf| && buf[end] in {',', ' '}
    requires forall j :: from <= j < end ==> buf[j] !in {',', ' '}
    ensures TokenEnd(buf, from) == end
  {
  }

  lemma {:induction false} BooleanEndAt(buf: Bytes, start: nat, b: bool)
    requires At(buf, start, ValueText(Bool(b)))
    requires var k := start + |ValueText(Bool(b))|; k < |buf| && buf[k] in NAME_STOPS
    ensures buf[start] in {'t', 'f'}
    ensures BooleanEnd(buf, start) == Ok(start + |ValueText(Bool(b))|)
  {
    var t := ValueText(Bool(b));
    assert t[0] == buf[start];
    forall j | start + 1 <= j < start + |t|
      ensures buf[j] !in {',', ' '}
    {
      assert t[j - start] == buf[j];
    }
    WordAt(buf, start, start + 1, start + |t|);
    AtSlice(buf, start, t);
  }

  lemma {:induction false} ScalarEnd(buf: Bytes, e: nat, v: Value, floatOk: FloatTest)
    requires 2 <= e < |buf| && buf[e] == '=' && (buf[e - 1] in {' ', ','} ==> buf[e - 2] == '\\')
    requires GoodValue(v, floatOk) && !v.Text? && At(buf, e + 1, ValueText(v))
    requires var k := e + 1 + |ValueText(v)|; k < |buf| && buf[k] in NAME_STOPS
    ensures AfterEquals(buf, e, floatOk) == Ok(e + 1 + |ValueText(v)|)
  {
    hide NumberEnd, BooleanEnd, FormatInt, FloatText, ParseInt;
    match v
    case Bool(b) => BooleanEndAt(buf, e + 1, b);
    case Float(text) => FloatEnd(buf, e + 1, text, floatOk);
    case Int(i) => IntegerEnd(buf, e + 1, i, floatOk);
    case Uint(u) => IntegerEnd(buf, e + 1, Least(u, MAX_INT64), floatOk);
  }

  // ---------- fields ----------

  /** The key of a field, up to its '='. */
  lemma {:induction false} KeyRun(buf: Bytes, i: nat, key: Bytes, st: FieldState, floatOk: FloatTest)
    requires Shut(key, KEY_STOPS) && key != [] && 2 <= i && !st.quoted && st.equals <= st.commas
    requires At(buf, i, Escape(InKey, key) + ['='])
    ensures
      var e := i + |Escape(InKey, key)|;
      && 2 <= e < |buf| && buf[e] == '=' && (buf[e - 1] in {' ', ','} ==> buf[e - 2] == '\\')
      && FieldsEnd(buf, i, st, floatOk) == FieldsEnd(buf, e, st, floatOk)
  {
    hide FieldsEnd, Escape, Sealed, Shut;
    var k := Escape(InKey, key);
    AtSnoc(buf, i, k, '=');
    EscapeSealed(InKey, key, Watched(st));
    SealedRun(buf, i, k, st, floatOk);
    EscapeStarts(key);
    EscapePlainAt(InKey, key, |k| - 1);
    assert k[|k| - 1] == buf[i + |k| - 1];
    assert |k| >= 2 ==> k[|k| - 2] == buf[i + |k| - 2];
  }

  lemma {:induction false} EscapeStarts(key: Bytes)
    requires key != []
    ensures Escape(InKey, key) != []
  {
  }

  /** A quoted string, from the byte before its first quote to the byte after its last. */
  lemma {:induction false} StringRun(buf: Bytes, e: nat, text: Bytes, n: nat, floatOk: FloatTest)
    requires 2 <= e < |buf| && buf[e] == '=' && (buf[e - 1] in {' ', ','} ==> buf[e - 2] == '\\')
    requires Shut(text, {'"'}) && At(buf, e + 1, ['"'] + Escape(InString, text) + ['"'])
    ensures FieldsEnd(buf, e, FieldState(false, n, n), floatOk) ==
            FieldsEnd(buf, e + 3 + |Escape(InString, text)|, FieldState(false, n + 1, n), floatOk)
  {
    var t := Escape(InString, text);
    var open := FieldState(true, n + 1, n);
    assert ['"'] + t + ['"'] == ['"'] + (t + ['"']);
    AtConcat(buf, e + 1, ['"'], t + ['"']);
    assert ['"'][0] == buf[e + 1];
    AtSnoc(buf, e + 2, t, '"');
    assert FieldsEnd(buf, e, FieldState(false, n, n), floatOk) == FieldsEnd(buf, e + 2, open, floatOk);
    EscapeSealed(InString, text, Watched(open));
    SealedRun(buf, e + 2, t, open, floatOk);
  }

  /** One written field, with the delimiter after it, counts one '=' and nothing else. */
  lemma {:induction false} FieldRun(buf: Bytes, i: nat, field: Field, d: char, n: nat, floatOk: FloatTest)
    requires FullField(field, floatOk) && 2 <= i && d in NAME_STOPS
    requires At(buf, i, FieldText(field) + [d])
    ensures FieldsEnd(buf, i, FieldState(false, n, n), floatOk) ==
            FieldsEnd(buf, i + |FieldText(field)|, FieldState(false, n + 1, n), floatOk)
  {
    hide FieldsEnd, AfterEquals, Escape, FormatInt, FloatText, Shut;
    var k, t := Escape(InKey, field.0), ValueText(field.1);
    AtSnoc(buf, i, FieldText(field), d);
    AtConcat(buf, i, k + ['='], t);
    KeyRun(buf, i, field.0, FieldState(false, n, n), floatOk);
    var e := i + |k|;
    match field.1 {
      case Text(text) => StringRun(buf, e, text, n, floatOk);
      case v => ScalarEnd(buf, e, v, floatOk);
                FieldsEndAfter(buf, e, n, floatOk);
    }
  }

  lemma {:induction false} FieldsEndAfter(buf: Bytes, e: nat, n: nat, floatOk: FloatTest)
    requires 2 <= e < |buf| && buf[e] == '=' && AfterEquals(buf, e, floatOk).Ok?
    ensures FieldsEnd(buf, e, FieldState(false, n, n), floatOk) ==
            FieldsEnd(buf, AfterEquals(buf, e, floatOk).value, FieldState(false, n + 1, n), floatOk)
  {
  }

  /** No delimiter of the key under an escape. A quote of the key may be: no string can open there. */
  predicate FullField(field: Field, floatOk: FloatTest) {
    Shut(field.0, KEY_STOPS) && field.0 != [] && GoodValue(field.1, floatOk)
  }

  ghost predicate FullFields(fields: seq<Field>, floatOk: FloatTest) {
    fields != [] && forall i :: 0 <= i < |fields| ==> FullField(fields[i], floatOk)
  }

  lemma {:induction false} BetweenFields(buf: Bytes, e: nat, n: nat, floatOk: FloatTest)
    requires 2 <= e < |buf|
    ensures buf[e] == ' ' ==> FieldsEnd(buf, e, FieldState(false, n + 1, n), floatOk) == Ok(e)
    ensures buf[e] == ',' ==> FieldsEnd(buf, e, FieldState(false, n + 1, n), floatOk) ==
                              FieldsEnd(buf, e + 1, FieldState(false, n + 1, n + 1), floatOk)
  {
  }

  /** The first field and the rest of a written block, where they stand in the buffer. */
  lemma {:induction false} FirstText(buf: Bytes, i: nat, fields: seq<Field>)
    requires fields != [] && At(buf, i, FieldBytes(fields) + [' '])
    ensures
      var (n, d) := (|FieldText(fields[0])|, if |fields| == 1 then ' ' else ',');
      && At(buf, i, FieldText(fields[0]) + [d]) && i + n < |buf| && buf[i + n] == d
      && (|fields| == 1 ==> |FieldBytes(fields)| == n)
      && (|fields| > 1 ==> |FieldBytes(fields)| == n + 1 + |FieldBytes(fields[1..])| &&
                           At(buf, i + n + 1, FieldBytes(fields[1..]) + [' ']))
  {
    hide FieldText, At;
    var text := FieldText(fields[0]);
    if |fields| == 1 {
      assert FieldBytes(fields) == text + [] == text;
      AtSnoc(buf, i, text, ' ');
    } else {
      var rest := FieldBytes(fields[1..]);
      assert FieldBytes(fields) + [' '] == (text + [',']) + (rest + [' ']);
      AtConcat(buf, i, text + [','], rest + [' ']);
      AtSnoc(buf, i, text, ',');
    }
  }

  /** The field block that New writes is scanned to its end. */
  lemma {:induction false} FieldsRun(buf: Bytes, i: nat, fields: seq<Field>, n: nat, floatOk: FloatTest)
    requires FullFields(fields, floatOk) && 2 <= i && At(buf, i, FieldBytes(fields) + [' '])
    ensures FieldsEnd(buf, i, FieldState(false, n, n), floatOk) == Ok(i + |FieldBytes(fields)|)
    decreases |fields|
  {
    hide FieldText, FieldsEnd, FullField, At;
    var d := if |fields| == 1 then ' ' else ',';
    var e := i + |FieldText(fields[0])|;
    FirstText(buf, i, fields);
    assert FullField(fields[0], floatOk);
    FieldRun(buf, i, fields[0], d, n, floatOk);
    BetweenFields(buf, e, n, floatOk);
    if |fields| > 1 {
      FieldsRun(buf, e + 1, fields[1..], n + 1, floatOk);
    }
  }

  // ---------- what a scan to the end says of the keys ----------

  lemma {:induction false} StuckNumber(buf: Bytes, start: nat, i: nat, j: nat, seen: Seen)
    requires 1 <= start <= i <= j < |buf| && buf[j] in {'\\', '='}
    requires forall q :: i <= q < j ==> buf[q] !in {',', ' '}
    ensures NumberScan(buf, start, i, seen).Err?
    decreases j - i
  {
    if i < j {
      var next := if buf[i] == 'i' && i > start && !seen.isInt then seen.(isInt := true)
                  else if buf[i] == '.' then seen.(decimal := true)
                  else if i > start && (buf[i] == 'e' || buf[i] == 'E') then seen.(scientific := true)
                  else seen;
      StuckNumber(buf, start, i + 1, j, next);
    }
  }

  lemma {:induction false} StuckWord(buf: Bytes, start: nat, j: nat)
    requires start < j < |buf| && buf[j] in {'\\', '='}
    requires forall q :: start <= q < j ==> buf[q] !in {',', ' '}
    ensures BooleanEnd(buf, start).Err?
  {
    var k := TokenEnd(buf, start + 1);
    assert k > j;
    var word := buf[start..k];
    assert word[j - start] == buf[j];
    if IsBoolean(word) {
      NoMarks(word, j - start);
    }
  }

  lemma {:induction false} NoMarks(word: Bytes, i: nat)
    requires word in {"true", "TRUE", "True", "false", "FALSE", "False"} && i < |word|
    ensures word[i] !in {'\\', '='}
  {
  }

  /** Behind any byte of a written key other than a backslash, a backslash or the '=' at the end comes before
      the next comma, space or quote. */
  lemma {:induction false} MarkBehind(key: Bytes, p: nat) returns (j: nat)
    requires p < |Escape(InKey, key)| && Escape(InKey, key)[p] != '\\'
    ensures
      var text := Escape(InKey, key) + ['='];
      p < j < |text| && text[j] in {'\\', '='} && forall q :: p < q < j ==> text[q] !in {',', ' ', '"'}
  {
    hide Escape;
    var k := Escape(InKey, key);
    var text := k + ['='];
    j := p + 1;
    while text[j] !in {'\\', '='}
      invariant p < j < |text| && text[j - 1] != '\\'
      invariant forall q :: p < q < j ==> text[q] !in {',', ' ', '"'}
      decreases |text| - j
    {
      EscapePlainAt(InKey, key, j);
      j := j + 1;
    }
  }

  /** An '=' of a written key that stands outside an escape has no value behind it. */
  lemma {:induction false} EqualsStuck(buf: Bytes, i: nat, key: Bytes, p: nat, floatOk: FloatTest)
    requires 2 <= i && At(buf, i, Escape(InKey, key) + ['='])
    requires p < |Escape(InKey, key)| && i + p < |buf| && Escape(InKey, key)[p] == buf[i + p] == '='
    ensures AfterEquals(buf, i + p, floatOk).Err?
  {
    hide Escape, CheckNumber, NumberScan, BooleanEnd;
    var text := Escape(InKey, key) + ['='];
    var j := MarkBehind(key, p);
    var start := i + p + 1;
    assert buf[start] == text[p + 1] && buf[i + j] == text[j];
    forall q | start <= q < i + j
      ensures buf[q] !in {',', ' '}
    {
      assert buf[q] == text[q - i];
    }
    if j == p + 1 {
      BadFirst(buf, start);
    } else {
      StuckNumber(buf, start, if buf[start] == '-' then start + 1 else start, i + j, NOTHING);
      StuckWord(buf, start, i + j);
    }
  }

  lemma {:induction false} BadFirst(buf: Bytes, start: nat)
    requires start < |buf| && buf[start] in {'\\', '='}
    ensures BooleanEnd(buf, start).Err?
  {
  }

  lemma {:induction false} FirstBare(s: Bytes, stops: set<char>) returns (p: nat)
    requires !NoneBare(s, stops)
    ensures p < |s| && BareAt(s, p, stops) && Sealed(s[..p], stops)
  {
    p := 0;
    while !BareAt(s, p, stops)
      invariant p < |s| && exists k :: p <= k < |s| && BareAt(s, k, stops)
      invariant forall k :: 0 <= k < p ==> !BareAt(s, k, stops)
      decreases |s| - p
    {
      p := p + 1;
    }
    assert s == s[..p] + s[p..];
    forall k | 0 <= k <= p
      ensures Escaped(s[..p], k) == Escaped(s, k)
    {
      EscapedPrefix(s[..p], s[p..], k);
    }
    forall k | 0 <= k < p
      ensures !BareAt(s[..p], k, stops)
    {
      assert !BareAt(s, k, stops);
    }
  }

  /** At the first bare byte of a key, other than a comma, the scan ends or fails. */
  lemma {:induction false} StopsInKey(buf: Bytes, i: nat, key: Bytes, p: nat, n: nat, floatOk: FloatTest)
    requires 2 <= i && At(buf, i, Escape(InKey, key) + ['=']) && p < |Escape(InKey, key)|
    requires Sealed(Escape(InKey, key)[..p], KEY_STOPS) && Escape(InKey, key)[p] in {' ', '='}
    ensures
      var r := FieldsEnd(buf, i, FieldState(false, n, n), floatOk);
      r.Ok? ==> r.value == i + p
  {
    hide AfterEquals, Escape, Sealed, At;
    var k, st := Escape(InKey, key), FieldState(false, n, n);
    assert k + ['='] == k[..p] + [k[p]] + (k[p + 1..] + ['=']);
    AtConcat(buf, i, k[..p] + [k[p]], k[p + 1..] + ['=']);
    AtSnoc(buf, i, k[..p], k[p]);
    SealedRun(buf, i, k[..p], st, floatOk);
    if k[p] == '=' {
      EqualsStuck(buf, i, key, p, floatOk);
    }
  }

  /** A key over which the scan gets to the key's own '='. */
  lemma {:induction false} KeyNeeded(buf: Bytes, i: nat, key: Bytes, n: nat, floatOk: FloatTest)
    requires Shut(key, {','}) && 2 <= i && At(buf, i, Escape(InKey, key) + ['='])
    requires buf[i - 1] in {' ', ','} && buf[i - 2] != '\\'
    requires
      var r := FieldsEnd(buf, i, FieldState(false, n, n), floatOk);
      r.Ok? && r.value > i + |Escape(InKey, key)|
    ensures Shut(key, KEY_STOPS) && key != []
  {
    if key == [] {
      NoKey(buf, i, floatOk);
    }
    hide FieldsEnd, Escape, Shut, Sealed, At, NoneBare;
    var k := Escape(InKey, key);
    if !NoneBare(k, KEY_STOPS) {
      var p := FirstBare(k, KEY_STOPS);
      NotComma(key, p);
      StopsInKey(buf, i, key, p, n, floatOk);
    }
    ShutFrom(key);
  }

  lemma {:induction false} NotComma(key: Bytes, p: nat)
    requires Shut(key, {','}) && p < |Escape(InKey, key)| && BareAt(Escape(InKey, key), p, KEY_STOPS)
    ensures Escape(InKey, key)[p] in {' ', '='}
  {
    EscapeSealed(InKey, key, {','});
    assert !BareAt(Escape(InKey, key), p, {','});
  }

  lemma {:induction false} NoKey(buf: Bytes, i: nat, floatOk: FloatTest)
    requires 2 <= i <= |buf| && At(buf, i, Escape(InKey, []) + ['='])
    requires buf[i - 1] in {' ', ','} && buf[i - 2] != '\\'
    ensures forall n :: FieldsEnd(buf, i, FieldState(false, n, n), floatOk).Err?
  {
    assert Escape(InKey, []) + ['='] == ['='];
    assert ['='][0] == buf[i];
  }

  lemma {:induction false} ShutFrom(key: Bytes)
    requires Shut(key, {','}) && NoneBare(Escape(InKey, key), KEY_STOPS)
    ensures Shut(key, KEY_STOPS)
  {
    EscapeBare(InKey, key, KEY_STOPS);
  }

  /** A field of which only the key may stop the scan, and not at a comma. */
  predicate HalfField(field: Field, floatOk: FloatTest) {
    Shut(field.0, {','}) && GoodValue(field.1, floatOk)
  }

  lemma {:induction false} FieldTextLast(field: Field, floatOk: FloatTest)
    requires GoodValue(field.1, floatOk)
    ensures var s := FieldText(field); |s| > |Escape(InKey, field.0)| + 1 && s[|s| - 1] != '\\'
  {
    hide Escape, FormatInt, FloatText;
    if !field.1.Text? {
      ScalarText(field.1, floatOk);
    }
  }

  lemma {:induction false} AtLast(buf: Bytes, i: nat, text: Bytes)
    requires At(buf, i, text) && text != []
    ensures i + |text| <= |buf| && buf[i + |text| - 1] == text[|text| - 1]
  {
  }

  lemma {:induction false} FirstNeeded(buf: Bytes, i: nat, field: Field, d: char, n: nat, floatOk: FloatTest)
    requires HalfField(field, floatOk) && 2 <= i && At(buf, i, FieldText(field) + [d])
    requires buf[i - 1] in {' ', ','} && buf[i - 2] != '\\'
    requires
      var r := FieldsEnd(buf, i, FieldState(false, n, n), floatOk);
      r.Ok? && r.value >= i + |FieldText(field)|
    ensures FullField(field, floatOk) && buf[i + |FieldText(field)| - 1] != '\\'
  {
    hide FieldsEnd, Escape, Shut, GoodValue, ValueText, At;
    var text, k := FieldText(field), Escape(InKey, field.0);
    FieldTextLast(field, floatOk);
    AtSnoc(buf, i, text, d);
    AtLast(buf, i, text);
    AtConcat(buf, i, k + ['='], ValueText(field.1));
    KeyNeeded(buf, i, field.0, n, floatOk);
  }

  /** If a written field block is scanned to its end, every key is one that the scan can read. */
  lemma {:induction false} FieldsNeeded(buf: Bytes, i: nat, fields: seq<Field>, n: nat, floatOk: FloatTest)
    requires fields != [] && forall j :: 0 <= j < |fields| ==> HalfField(fields[j], floatOk)
    requires 2 <= i && At(buf, i, FieldBytes(fields) + [' '])
    requires buf[i - 1] in {' ', ','} && buf[i - 2] != '\\'
    requires FieldsEnd(buf, i, FieldState(false, n, n), floatOk) == Ok(i + |FieldBytes(fields)|)
    ensures FullFields(fields, floatOk)
    decreases |fields|
  {
    hide FieldText, FieldsEnd, HalfField, FullField, At;
    var d := if |fields| == 1 then ' ' else ',';
    var e := i + |FieldText(fields[0])|;
    FirstText(buf, i, fields);
    assert HalfField(fields[0], floatOk);
    FirstNeeded(buf, i, fields[0], d, n, floatOk);
    FieldRun(buf, i, fields[0], d, n, floatOk);
    if |fields| > 1 {
      BetweenFields(buf, e, n, floatOk);
      FieldsNeeded(buf, e + 1, fields[1..], n + 1, floatOk);
    }
    assert forall j :: 0 < j < |fields| ==> fields[j] == fields[1..][j - 1];
  }

  // ---------- commas under an escape ----------

  /** Two fields whose keys have a comma under an escape, which New's own escape bares. */
  const CHANCE: seq<Field> := [(['\\', ','], Text(['='])), (['\\', '"', '\\', ','], Int(1))]

  const CHANCE_FIRST: Bytes := ['\\', '\\', ',', '=', '"', '=', '"']

  const CHANCE_SECOND: Bytes := ['\\', '\\', '"', '\\', '\\', ',', '=', '1', 'i']

  lemma {:induction false} ChanceBytes()
    ensures FieldBytes(CHANCE) == CHANCE_FIRST + [','] + CHANCE_SECOND
  {
    assert Escape(InKey, ['\\', ',']) == ['\\', '\\', ','] && Escape(InString, ['=']) == ['='];
    EscapeQuoteComma();
    assert FormatInt(1) == ['1'];
    hide Escape, FormatInt;
    assert FieldText(CHANCE[0]) == CHANCE_FIRST && FieldText(CHANCE[1]) == CHANCE_SECOND;
    assert CHANCE[1..] == [CHANCE[1]];
    assert FieldBytes([CHANCE[1]]) == CHANCE_SECOND + [];
  }

  lemma {:induction false} EscapeQuoteComma()
    ensures Escape(InKey, ['\\', '"', '\\', ',']) == ['\\', '\\', '"', '\\', '\\', ',']
  {
    assert ['\\', '"', '\\', ','][1..][1..] == ['\\', ','];
  }

  lemma {:induction false} ChanceFirst(buf: Bytes, i: nat, floatOk: FloatTest)
    requires 2 <= i && i + 7 < |buf| && At(buf, i, CHANCE_FIRST)
    ensures FieldsEnd(buf, i, FRESH, floatOk) == FieldsEnd(buf, i + 7, FieldState(true, 2, 1), floatOk)
  {
    var t, one := CHANCE_FIRST, FieldState(false, 1, 1);
    assert t[0] == buf[i] && t[2] == buf[i + 2] && t[3] == buf[i + 3] && t[4] == buf[i + 4];
    assert t[1] == buf[i + 1] && t[5] == buf[i + 5] && t[6] == buf[i + 6];
    hide NumberEnd, BooleanEnd;
    assert FieldsEnd(buf, i, FRESH, floatOk) == FieldsEnd(buf, i + 3, FieldState(false, 0, 1), floatOk);
    assert FieldsEnd(buf, i + 3, FieldState(false, 0, 1), floatOk) == FieldsEnd(buf, i + 5, one, floatOk);
    assert FieldsEnd(buf, i + 5, one, floatOk) == FieldsEnd(buf, i + 7, FieldState(true, 2, 1), floatOk);
  }

  lemma {:induction false} ChanceSecond(buf: Bytes, i: nat, floatOk: FloatTest)
    requires 2 <= i && At(buf, i, CHANCE_SECOND + [' '])
    ensures FieldsEnd(buf, i, FieldState(true, 2, 1), floatOk) == Ok(i + 9)
  {
    var t, shut := CHANCE_SECOND, FieldState(false, 2, 1);
    AtSnoc(buf, i, t, ' ');
    assert t[0] == buf[i] && t[2] == buf[i + 2] && t[3] == buf[i + 3] && t[5] == buf[i + 5] && t[6] == buf[i + 6];
    assert t[1] == buf[i + 1] && t[4] == buf[i + 4] && t[7] == buf[i + 7] && t[8] == buf[i + 8];
    assert FormatInt(1) == ['1'];
    IntegerEnd(buf, i + 7, 1, floatOk);
    hide NumberEnd, BooleanEnd, FormatInt;
    assert FieldsEnd(buf, i, FieldState(true, 2, 1), floatOk) == FieldsEnd(buf, i + 3, shut, floatOk);
    assert FieldsEnd(buf, i + 3, shut, floatOk) == FieldsEnd(buf, i + 6, FieldState(false, 2, 2), floatOk);
    assert AfterEquals(buf, i + 6, floatOk) == Ok(i + 9);
    assert FieldsEnd(buf, i + 6, FieldState(false, 2, 2), floatOk) ==
           FieldsEnd(buf, i + 9, FieldState(false, 3, 2), floatOk);
  }

  /** The scan may get to the end all the same, because of what else is in the block: here the bare commas, the
      '=' of a string and a quote of a key make up for each other. */
  lemma {:induction false} CommaByChance(buf: Bytes, i: nat, floatOk: FloatTest)
    requires 2 <= i && At(buf, i, FieldBytes(CHANCE) + [' '])
    ensures FieldsEnd(buf, i, FRESH, floatOk) == Ok(i + |FieldBytes(CHANCE)|)
    ensures !FullFields(CHANCE, floatOk)
  {
    hide FieldsEnd, FieldBytes, At;
    ChanceBytes();
    var a, b := CHANCE_FIRST, CHANCE_SECOND + [' '];
    assert FieldBytes(CHANCE) + [' '] == a + [','] + b;
    AtConcat(buf, i, a + [','], b);
    AtSnoc(buf, i, a, ',');
    ChanceFirst(buf, i, floatOk);
    QuotedByte(buf, i + 7, floatOk);
    ChanceSecond(buf, i + 8, floatOk);
    assert Escaped(CHANCE[0].0, 1) && !ShutAt(CHANCE[0].0, 1, KEY_STOPS);
    assert !FullField(CHANCE[0], floatOk);
  }

  lemma {:induction false} QuotedByte(buf: Bytes, i: nat, floatOk: FloatTest)
    requires 2 <= i < |buf| && buf[i] == ','
    ensures FieldsEnd(buf, i, FieldState(true, 2, 1), floatOk) ==
            FieldsEnd(buf, i + 1, FieldState(true, 2, 1), floatOk)
  {
  }
}
