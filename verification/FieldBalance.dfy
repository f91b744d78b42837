/** What an accepted field block looks like, for every buffer: read one byte at a time, with no
    knowledge of numbers or booleans, its quotes close and its '=' and ',' alternate in number. */
module FieldBalance {
  import opened ByteStrings
  import opened LineGrammar
  import opened FieldLookup

  datatype Watch = Watch(escaped: bool, quoted: bool, equals: nat, commas: nat)

  function Step(w: Watch, c: char): Watch {
    if w.escaped then w.(escaped := false)
    else if c == '\\' then w.(escaped := true)
    else if c == '"' && w.equals > w.commas then w.(quoted := !w.quoted)
    else if w.quoted then w
    else if c == '=' then w.(equals := w.equals + 1)
    else if c == ',' then w.(commas := w.commas + 1)
    else w
  }

  function Walk(buf: Bytes, i: nat, end: nat, w: Watch): Watch
    requires i <= end <= |buf|
    decreases end - i
  {
    if i == end then w else Walk(buf, i + 1, end, Step(w, buf[i]))
  }

  function Watching(st: FieldState): Watch {
    Watch(false, st.quoted, st.equals, st.commas)
  }

  /** Nothing a byte-wise reader would react to outside quotes. */
  predicate Dull(c: char) {
    c !in {'\\', '"', '=', ','}
  }

  lemma {:induction false} WalkDull(buf: Bytes, i: nat, k: nat, end: nat, w: Watch)
    requires i <= k <= end <= |buf| && !w.escaped && forall j :: i <= j < k ==> Dull(buf[j])
    ensures Walk(buf, i, end, w) == Walk(buf, k, end, w)
    decreases k - i
  {
    if i < k {
      WalkDull(buf, i + 1, k, end, w);
    }
  }

  lemma {:induction false} NumberScanDull(buf: Bytes, start: nat, i: nat, seen: Seen)
    requires 1 <= start <= i <= |buf| && NumberScan(buf, start, i, seen).Ok?
    ensures forall j :: i <= j < NumberScan(buf, start, i, seen).value.0 ==> Dull(buf[j])
    decreases |buf| - i
  {
    if i < |buf| && buf[i] != ',' && buf[i] != ' ' {
      var next := if buf[i] == 'i' && i > start && !seen.isInt then seen.(isInt := true)
                  else if buf[i] == '.' then seen.(decimal := true)
                  else if i > start && (buf[i] == 'e' || buf[i] == 'E') then seen.(scientific := true)
                  else seen;
      NumberScanDull(buf, start, i + 1, next);
    }
  }

  lemma {:induction false} BooleanDull(word: Bytes, j: nat)
    requires j < |word| && word[0] in {'t', 'f', 'T', 'F'} && IsBoolean(word)
    ensures Dull(word[j])
  {
  }

  lemma {:induction false} ValueDull(buf: Bytes, i: nat, floatOk: FloatTest)
    requires 2 <= i < |buf| && buf[i] == '=' && AfterEquals(buf, i, floatOk).Ok?
    ensures forall j :: i < j < AfterEquals(buf, i, floatOk).value ==> Dull(buf[j])
  {
    hide CheckNumber;
    var k := AfterEquals(buf, i, floatOk).value;
    if IsNumeric(buf[i + 1]) || buf[i + 1] in {'-', 'N', 'n'} {
      NumberScanDull(buf, i + 1, if buf[i + 1] == '-' then i + 2 else i + 1, NOTHING);
    } else if buf[i + 1] != '"' {
      var word := buf[i + 1..k];
      forall j | i < j < k
        ensures Dull(buf[j])
      {
        BooleanDull(word, j - i - 1);
        assert word[j - i - 1] == buf[j];
      }
    }
  }

  /** The scan's jumps over escapes, numbers and booleans lose no delimiter. */
  lemma {:induction false} WalkFields(buf: Bytes, i: nat, st: FieldState, floatOk: FloatTest)
    requires 2 <= i <= |buf| && FieldsEnd(buf, i, st, floatOk).Ok?
    ensures
      var end := FieldsEnd(buf, i, st, floatOk).value;
      var w := Walk(buf, i, end, Watching(st));
      !w.quoted && w.equals == w.commas + 1
    decreases |buf| - i
  {
    hide AfterEquals;
    var end := FieldsEnd(buf, i, st, floatOk).value;
    if i < |buf| {
      if buf[i] == '\\' && i + 1 < |buf| {
        WalkFields(buf, i + 2, st, floatOk);
      } else if buf[i] == '"' && st.equals > st.commas {
        WalkFields(buf, i + 1, st.(quoted := !st.quoted), floatOk);
      } else if st.quoted {
        WalkFields(buf, i + 1, st, floatOk);
      } else if buf[i] == '=' {
        var k := AfterEquals(buf, i, floatOk).value;
        var next := st.(equals := st.equals + 1);
        ValueDull(buf, i, floatOk);
        WalkDull(buf, i + 1, k, end, Watching(next));
        WalkFields(buf, k, next, floatOk);
      } else if buf[i] != ' ' {
        WalkFields(buf, i + 1, if buf[i] == ',' then st.(commas := st.commas + 1) else st, floatOk);
      }
    }
  }

  /** Every line that parseMetric accepts has a field block whose quotes close and in which the
      unquoted, unescaped '=' outnumber the commas by exactly one. */
  lemma {:induction false} AcceptedFieldsBalance(buf: Bytes, floatOk: FloatTest)
    requires FindBlocks(buf, floatOk).Ok?
    ensures
      var b := FindBlocks(buf, floatOk).value;
      var w := Walk(buf, b.fields, b.fieldsEnd, Watch(false, false, 0, 0));
      !w.quoted && w.equals == w.commas + 1
  {
    hide FieldsEnd, TimeEnd;
    WalkFields(buf, FindBlocks(buf, floatOk).value.fields, FRESH, floatOk);
  }
}
