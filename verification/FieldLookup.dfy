/** Fields (report/metric/metric.go): reading the field values back from the escaped bytes. */
module FieldLookup {
  import opened ByteStrings
  import opened Escaping
  import opened Decimals
  import opened Lines
  import opened Building
  import opened TagLookup

  type FieldMap = map<Bytes, Value>

  /** strconv.ParseFloat is not part of the model: which texts it accepts is a parameter. */
  type FloatTest = Bytes -> bool

  /** What stands after an '=': an index out of range, a value that is skipped silently, or a value. */
  datatype Reading = OutOfRange | Skipped | Got(v: Value)

  /** A number, a boolean or an unknown value that runs up to the next comma. */
  function ReadToken(t: Bytes, floatOk: FloatTest): Reading
    requires t != []
  {
    if NumberStart(t[0]) then ReadNumber(t, floatOk) else ReadLetter(t[0])
  }

  function ReadNumber(t: Bytes, floatOk: FloatTest): Reading
    requires t != []
  {
    if t[|t| - 1] == 'i' then
      match ParseInt(t[..|t| - 1])
      case None => Skipped
      case Some(n) => Got(Int(n))
    else if floatOk(t) then Got(Float(t))
    else Skipped
  }

  function ReadLetter(c: char): Reading {
    if c == 'T' || c == 't' then Got(Bool(true))
    else if c == 'F' || c == 'f' then Got(Bool(false))
    else Skipped
  }

  datatype FieldCut = NoField | FieldAt(key: Bytes, reading: Reading, rest: Bytes)

  function CutField(s: Bytes, floatOk: FloatTest): (c: FieldCut)
    ensures c.FieldAt? && !c.reading.OutOfRange? ==> |c.rest| < |s|
  {
    var i1 := IndexBare(s, '=');
    var i2 := i1 + 1;
    if i1 == -1 then NoField
    else if i2 >= |s| then FieldAt([], OutOfRange, [])
    else if s[i2] == '"' then CutText(s[..i1], s[i2 + 1..])
    else
      var comma := IndexBare(s, ',');
      var i3 := if comma == -1 then |s| else comma;
      FieldAt(s[..i1], ReadUpTo(s, i2, i3, floatOk), Tail(s, i3 + 1))
  }

  /** The value at i2 when the next comma is at i3, which may lie before i2: then a number cannot
      be sliced out. */
  function ReadUpTo(s: Bytes, i2: nat, i3: nat, floatOk: FloatTest): Reading
    requires i2 < |s| && i3 <= |s|
  {
    if i3 > i2 then ReadToken(s[i2..i3], floatOk)
    else if NumberStart(s[i2]) then OutOfRange
    else ReadLetter(s[i2])
  }

  function CutText(key: Bytes, after: Bytes): (c: FieldCut)
    ensures c.FieldAt? && |c.rest| <= |after|
  {
    var q := IndexBare(after, '"');
    if q == -1 then FieldAt([], OutOfRange, [])
    else FieldAt(key, Got(Text(Unescape(InString, after[..q]))), Tail(after, q + 2))
  }

  function Enter(acc: FieldMap, key: Bytes, reading: Reading): FieldMap {
    match reading
    case Got(v) => acc[Unescape(InKey, key) := v]
    case _ => acc
  }

  /** The fields found from the start of s on, added to `acc`; None where the original indexes out
      of range or reads past its slice. */
  function FieldsFrom(s: Bytes, acc: FieldMap, floatOk: FloatTest): Option<FieldMap>
    decreases |s|
  {
    if s == [] then Some(acc)
    else match CutField(s, floatOk)
      case NoField => Some(acc)
      case FieldAt(key, reading, rest) =>
        if reading.OutOfRange? then None else FieldsFrom(rest, Enter(acc, key, reading), floatOk)
  }

  function FieldsOf(fields: Bytes, floatOk: FloatTest): Option<FieldMap> {
    FieldsFrom(fields, map[], floatOk)
  }

  /** The number cases of Fields: the last byte before the comma tells integers from floats. */
  method NumberBetween(s: Bytes, i2: nat, i3: nat, floatOk: FloatTest) returns (reading: Reading)
    requires i2 < |s| && i3 <= |s| && NumberStart(s[i2]) && (i3 < |s| ==> s[i3] == ',')
    ensures reading == ReadUpTo(s, i2, i3, floatOk)
  {
    if i3 == 0 {
      return OutOfRange;
    }
    if s[i3 - 1] == 'i' {
      if i3 - 1 < i2 {
        return OutOfRange;
      }
      var n := ParseInt(s[i2..i3 - 1]);
      assert i3 > i2 ==> s[i2..i3][..i3 - i2 - 1] == s[i2..i3 - 1];
      return if n.Some? then Got(Int(n.value)) else Skipped;
    }
    if i3 < i2 {
      return OutOfRange;
    }
    return if floatOk(s[i2..i3]) then Got(Float(s[i2..i3])) else Skipped;
  }

  /** One turn of Fields' loop on s = fields[i:]; `next` is how far the loop then moves on. */
  method ReadField(s: Bytes, floatOk: FloatTest) returns (c: FieldCut, next: nat)
    ensures c == CutField(s, floatOk)
    ensures c.FieldAt? && !c.reading.OutOfRange? ==> next > 0 && c.rest == Tail(s, next)
  {
    next := 0;
    var i1 := IndexUnescapedByte(s, '=');
    if i1 == -1 {
      return NoField, next;
    }
    var i2 := i1 + 1;
    if i2 >= |s| {
      return FieldAt([], OutOfRange, []), next;
    }
    if s[i2] == '"' {
      c, next := ReadString(s, i1);
    } else {
      c, next := ReadScalar(s, i1, floatOk);
    }
  }

  method ReadString(s: Bytes, i1: nat) returns (c: FieldCut, next: nat)
    requires i1 + 1 < |s|
    ensures c == CutText(s[..i1], s[i1 + 2..])
    ensures !c.reading.OutOfRange? ==> next > 0 && c.rest == Tail(s, next)
  {
    next := 0;
    var i2 := i1 + 1;
    var q := IndexUnescapedByte(s[i2 + 1..], '"');
    if q == -1 {
      return FieldAt([], OutOfRange, []), next;
    }
    var i3 := q + i2 + 2;
    next := i3 + 1;
    c := FieldAt(s[..i1], Got(Text(Unescape(InString, s[i2 + 1..i3 - 1]))), Tail(s, next));
    assert s[i2 + 1..][..q] == s[i2 + 1..i3 - 1];
    assert Tail(s[i2 + 1..], q + 2) == Tail(s, next);
  }

  method ReadScalar(s: Bytes, i1: nat, floatOk: FloatTest) returns (c: FieldCut, next: nat)
    requires i1 + 1 < |s|
    ensures
      var comma := IndexBare(s, ',');
      var i3 := if comma == -1 then |s| else comma;
      && c == FieldAt(s[..i1], ReadUpTo(s, i1 + 1, i3, floatOk), Tail(s, i3 + 1))
      && next == i3 + 1
  {
    var i2 := i1 + 1;
    var i3 := IndexUnescapedByte(s, ',');
    if i3 == -1 {
      i3 := |s|;
    }
    next := i3 + 1;
    var reading := Skipped;
    match s[i2] {
      case 'T' | 't' =>
        reading := Got(Bool(true));
      case 'F' | 'f' =>
        reading := Got(Bool(false));
      case b =>
        if NumberStart(b) {
          reading := NumberBetween(s, i2, i3, floatOk);
        }
    }
    c := FieldAt(s[..i1], reading, Tail(s, next));
    assert i3 > i2 ==> s[i2..i3][0] == s[i2];
  }

  method Fields(fields: Bytes, floatOk: FloatTest) returns (r: Option<FieldMap>)
    ensures r == FieldsOf(fields, floatOk)
  {
    hide CutField;
    var fieldMap: FieldMap := map[];
    var i := 0;
    while i < |fields|
      invariant 0 <= i && FieldsFrom(Tail(fields, i), fieldMap, floatOk) == FieldsOf(fields, floatOk)
      decreases |fields| - i
    {
      var c, next := ReadField(fields[i..], floatOk);
      if c.NoField? {
        break;
      }
      if c.reading.OutOfRange? {
        return None;
      }
      fieldMap := Enter(fieldMap, c.key, c.reading);
      assert Tail(fields[i..], next) == Tail(fields, i + next);
      i := i + next;
    }
    return Some(fieldMap);
  }

  // ---------- fields that New writes ----------

  /** The form of strconv.AppendFloat(f, 'f', -1): an optional sign, digits, and perhaps a point
      followed by digits. */
  predicate FloatText(s: Bytes) {
    var sign := if s != [] && s[0] == '-' then 1 else 0;
    var point := IndexByte(s, '.', 0);
    && sign < point && (point == |s| || point + 1 < |s|)
    && forall k :: sign <= k < |s| && k != point ==> IsDigit(s[k])
  }

  predicate GoodValue(v: Value, floatOk: FloatTest) {
    match v
    case Int(i) => MIN_INT64 <= i <= MAX_INT64
    case Uint(u) => true
    case Bool(b) => true
    case Text(s) => Shut(s, {'"'})
    case Float(text) => FloatText(text) && floatOk(text)
  }

  /** No '=' of the key under an escape; before a number or a boolean, which end at the first bare comma, no
      comma of the key either. */
  predicate GoodField(field: Field, floatOk: FloatTest) {
    Shut(field.0, {'='}) && (!field.1.Text? ==> Shut(field.0, {','})) && GoodValue(field.1, floatOk)
  }

  ghost predicate GoodFields(fields: seq<Field>, floatOk: FloatTest) {
    forall i :: 0 <= i < |fields| ==> GoodField(fields[i], floatOk)
  }

  /** Values other than strings are written without a comma, a backslash or a leading quote. */
  lemma {:induction false} ScalarText(v: Value, floatOk: FloatTest)
    requires GoodValue(v, floatOk) && !v.Text?
    ensures var t := ValueText(v); t != [] && t[0] != '"' && '\\' !in t && ',' !in t
  {
    hide FormatInt, FloatText;
    match v
    case Bool(b) =>
    case Float(text) => FloatTextPlain(text);
    case Int(i) => IntTextPlain(i);
    case Uint(u) => IntTextPlain(Least(u, MAX_INT64));
  }

  lemma {:induction false} IntTextPlain(n: int)
    ensures var t := FormatInt(n) + ['i']; t != [] && t[0] != '"' && '\\' !in t && ',' !in t
  {
    FormatIntShape(n);
    FormatIntWithout(n, ',');
    FormatIntWithout(n, '\\');
  }

  lemma {:induction false} FloatTextPlain(t: Bytes)
    requires FloatText(t)
    ensures t != [] && t[0] != '"' && '\\' !in t && ',' !in t
  {
  }

  lemma {:induction false} TokenReadBack(v: Value, floatOk: FloatTest)
    requires GoodValue(v, floatOk) && !v.Text? && ValueText(v) != []
    ensures ReadToken(ValueText(v), floatOk) == Got(Stored(v))
  {
    match v
    case Bool(b) =>
    case Float(text) =>
    case Int(i) => IntToken(i, floatOk);
    case Uint(u) => IntToken(Least(u, MAX_INT64), floatOk);
  }

  lemma {:induction false} IntToken(n: int, floatOk: FloatTest)
    requires MIN_INT64 <= n <= MAX_INT64
    ensures ReadToken(FormatInt(n) + ['i'], floatOk) == Got(Int(n))
  {
    ParseFormatInt(n);
    FormatIntShape(n);
    IntTokenOf(FormatInt(n), n, floatOk);
  }

  lemma {:induction false} IntTokenOf(digits: Bytes, n: int, floatOk: FloatTest)
    requires digits != [] && NumberStart(digits[0]) && ParseInt(digits) == Some(n)
    ensures ReadToken(digits + ['i'], floatOk) == Got(Int(n))
  {
    assert (digits + ['i'])[..|digits|] == digits;
  }

  lemma {:induction false} CutStringField(key: Bytes, text: Bytes, rest: Bytes, floatOk: FloatTest)
    requires Shut(key, {'='}) && Shut(text, {'"'})
    ensures CutField(FieldText((key, Text(text))) + rest, floatOk) ==
            FieldAt(Escape(InKey, key), Got(Text(text)), Tail(rest, 1))
  {
    hide Escape, Unescape, IndexBare, Sealed, Shut;
    var k, e := Escape(InKey, key), Escape(InString, text);
    var after := e + ['"'] + rest;
    var s := FieldText((key, Text(text))) + rest;
    EscapeSealed(InKey, key, {'='});
    IndexBareAt(s, k, '=', ['"'] + after);
    assert s[|k| + 1] == s[|k| + 1..][0] == '"';
    assert s[|k| + 2..] == s[|k| + 1..][1..] == after;
    EscapeSealed(InString, text, {'"'});
    IndexBareAt(after, e, '"', rest);
    UnescapeEscape(InString, text);
    assert Tail(after, |e| + 2) == Tail(rest, 1);
  }

  lemma {:induction false} CutScalarField(key: Bytes, v: Value, rest: Bytes, floatOk: FloatTest)
    requires Shut(key, {'='}) && Shut(key, {','}) && GoodValue(v, floatOk) && !v.Text? && (rest != [] ==> rest[0] == ',')
    ensures CutField(FieldText((key, v)) + rest, floatOk) ==
            FieldAt(Escape(InKey, key), Got(Stored(v)), Tail(rest, 1))
  {
    ScalarText(v, floatOk);
    TokenReadBack(v, floatOk);
    CutPlainField(key, ValueText(v), rest, floatOk);
  }

  lemma {:induction false} CutPlainField(key: Bytes, t: Bytes, rest: Bytes, floatOk: FloatTest)
    requires Shut(key, {'='}) && Shut(key, {','}) && t != [] && t[0] != '"' && '\\' !in t && ',' !in t && (rest != [] ==> rest[0] == ',')
    ensures CutField(Escape(InKey, key) + ['='] + t + rest, floatOk) ==
            FieldAt(Escape(InKey, key), ReadToken(t, floatOk), Tail(rest, 1))
  {
    var k := Escape(InKey, key);
    var s := k + ['='] + t + rest;
    CommaAfterScalar(key, t, rest, s);
    EscapeSealed(InKey, key, {'='});
    IndexBareAt(s, k, '=', t + rest);
    CutToken(s, k, t, rest, floatOk);
  }

  lemma {:induction false} CutToken(s: Bytes, k: Bytes, t: Bytes, rest: Bytes, floatOk: FloatTest)
    requires s == k + ['='] + t + rest && t != [] && t[0] != '"'
    requires IndexBare(s, '=') == |k|
    requires IndexBare(s, ',') == if rest == [] then -1 else |k| + 1 + |t|
    ensures CutField(s, floatOk) == FieldAt(k, ReadToken(t, floatOk), Tail(rest, 1))
  {
    var i3 := |k| + 1 + |t|;
    assert s[|k| + 1] == t[0];
    assert s[|k| + 1..i3] == t;
    assert s[..|k|] == k;
    assert Tail(s, i3 + 1) == Tail(rest, 1);
  }

  lemma {:induction false} CommaAfterScalar(key: Bytes, t: Bytes, rest: Bytes, s: Bytes)
    requires Shut(key, {','}) && '\\' !in t && ',' !in t && (rest != [] ==> rest[0] == ',')
    requires s == Escape(InKey, key) + ['='] + t + rest
    ensures IndexBare(s, ',') == if rest == [] then -1 else |Escape(InKey, key)| + 1 + |t|
  {
    var k, e := Escape(InKey, key), ['='] + t;
    EscapeSealed(InKey, key, {','});
    PlainSealedText(e, {','});
    SealedConcat(k, e, {','});
    assert s == (k + e) + rest;
    assert rest != [] ==> IndexBare(rest, ',') == 0;
    IndexBareSkips(k + e, rest, ',');
  }

  lemma {:induction false} CutFieldText(field: Field, rest: Bytes, floatOk: FloatTest)
    requires GoodField(field, floatOk) && (rest != [] ==> rest[0] == ',')
    ensures CutField(FieldText(field) + rest, floatOk) ==
            FieldAt(Escape(InKey, field.0), Got(Stored(field.1)), Tail(rest, 1))
  {
    match field.1
    case Text(text) => CutStringField(field.0, text, rest, floatOk);
    case v => CutScalarField(field.0, v, rest, floatOk);
  }

  /** The fields as Fields reports them. */
  function StoredFields(fields: seq<Field>): seq<Field> {
    seq(|fields|, i requires 0 <= i < |fields| => (fields[i].0, Stored(fields[i].1)))
  }

  /** Fields inverts the field block that New writes, for any list of good fields. */
  lemma {:induction false} FieldsFromFieldBytes(fields: seq<Field>, acc: FieldMap, floatOk: FloatTest)
    requires GoodFields(fields, floatOk)
    ensures FieldsFrom(FieldBytes(fields), acc, floatOk) == Some(MapFrom(StoredFields(fields), acc))
  {
    hide GoodField, FieldsFrom, FieldBytes, MapFrom, StoredFields, Stored;
    if fields == [] {
      NoFields(acc, floatOk);
    } else {
      assert GoodField(fields[0], floatOk);
      FieldsStep(fields, acc, floatOk);
      StoredFirst(fields, acc);
      FieldsFromFieldBytes(fields[1..], acc[fields[0].0 := Stored(fields[0].1)], floatOk);
    }
  }

  lemma {:induction false} NoFields(acc: FieldMap, floatOk: FloatTest)
    ensures FieldsFrom(FieldBytes([]), acc, floatOk) == Some(MapFrom(StoredFields([]), acc))
  {
  }

  lemma {:induction false} StoredFirst(fields: seq<Field>, acc: FieldMap)
    requires fields != []
    ensures MapFrom(StoredFields(fields), acc) ==
            MapFrom(StoredFields(fields[1..]), acc[fields[0].0 := Stored(fields[0].1)])
  {
    hide Stored;
    assert StoredFields(fields)[1..] == StoredFields(fields[1..]);
  }

  lemma {:induction false} FieldsStep(fields: seq<Field>, acc: FieldMap, floatOk: FloatTest)
    requires fields != [] && GoodField(fields[0], floatOk)
    ensures FieldsFrom(FieldBytes(fields), acc, floatOk) ==
            FieldsFrom(FieldBytes(fields[1..]), acc[fields[0].0 := Stored(fields[0].1)], floatOk)
  {
    hide GoodField, FieldText, FieldsFrom;
    var rest := if |fields| == 1 then [] else [','] + FieldBytes(fields[1..]);
    FieldStep(fields[0], rest, acc, floatOk);
    assert |fields| == 1 ==> FieldText(fields[0]) + [] == FieldText(fields[0]);
    assert Tail(rest, 1) == FieldBytes(fields[1..]);
  }

  lemma {:induction false} FieldStep(field: Field, rest: Bytes, acc: FieldMap, floatOk: FloatTest)
    requires GoodField(field, floatOk) && (rest != [] ==> rest[0] == ',')
    ensures FieldsFrom(FieldText(field) + rest, acc, floatOk) ==
            FieldsFrom(Tail(rest, 1), acc[field.0 := Stored(field.1)], floatOk)
  {
    CutFieldText(field, rest, floatOk);
    UnescapeEscape(InKey, field.0);
  }

  function StoredAmong(order: seq<Bytes>, fields: map<Bytes, Value>): FieldMap
    requires forall k :: k in order ==> k in fields
  {
    map k | k in order :: Stored(fields[k])
  }

  lemma {:induction false} StoredStep(order: seq<Bytes>, fields: map<Bytes, Value>, acc: FieldMap)
    requires order != [] && forall k :: k in order ==> k in fields
    ensures acc[order[0] := Stored(fields[order[0]])] + StoredAmong(order[1..], fields) == acc + StoredAmong(order, fields)
  {
    assert forall x :: x in order <==> x == order[0] || x in order[1..];
  }

  lemma {:induction false} MapFromFieldsIn(order: seq<Bytes>, fields: map<Bytes, Value>, acc: FieldMap)
    requires forall k :: k in order ==> k in fields
    ensures MapFrom(StoredFields(FieldsIn(order, fields)), acc) == acc + StoredAmong(order, fields)
  {
    if order != [] {
      MapFromFieldsIn(order[1..], fields, acc[order[0] := Stored(fields[order[0]])]);
      StoredStep(order, fields, acc);
      assert StoredFields(FieldsIn(order, fields))[1..] == StoredFields(FieldsIn(order[1..], fields));
    }
  }

  /** What Fields reports for a metric that New made from the map, whatever the order of the walk:
      exactly the given keys, with unsigned integers capped. */
  lemma {:induction false} FieldsOfNew(order: seq<Bytes>, fields: map<Bytes, Value>, floatOk: FloatTest)
    requires Enumerates(order, fields.Keys) && forall k :: k in fields ==> GoodField((k, fields[k]), floatOk)
    ensures FieldsOf(FieldBytes(FieldsIn(order, fields)), floatOk) == Some(map k | k in fields :: Stored(fields[k]))
    ensures forall k :: k in fields ==>
              Stored(fields[k]) ==
              match fields[k] case Uint(u) => (if u <= MAX_INT64 then Int(u) else Int(MAX_INT64)) case v => v
  {
    FieldsFromFieldBytes(FieldsIn(order, fields), map[], floatOk);
    MapFromFieldsIn(order, fields, map[]);
    assert map[] + StoredAmong(order, fields) == map k | k in fields :: Stored(fields[k]);
  }
}
