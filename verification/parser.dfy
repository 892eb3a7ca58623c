/**
 Reading p-values out of delimited text. The delimiter is guessed by trying the candidates
 space, comma, tab, bar and tab on the first lines; the first record fixes which column holds
 the p-value and which the identifier; every record then gives one Value. Each Go function is a
 method with the loop the source has, proved against a specification function.
 */
module Parser {
  import opened Wrappers
  import opened Text
  import opened Csv
  import opened Values

  /** strconv.ParseFloat accepts the token. */
  predicate IsFloat(lib: Library, s: string)
  {
    lib.parseFloat(s).Some?
  }

  // ---------------------------------------------------------------------------------------
  // Field detection

  /** The first field at index k or later that parses as a float, or -1 if there is none. */
  function FirstFloat(lib: Library, t: seq<string>, k: nat): (r: int)
    requires k <= |t|
    ensures -1 <= r < |t|
    ensures r != -1 ==> k <= r && IsFloat(lib, t[r])
    ensures forall j :: k <= j < |t| && (r == -1 || j < r) ==> !IsFloat(lib, t[j])
    decreases |t| - k
  {
    if k == |t| then -1
    else if IsFloat(lib, t[k]) then k
    else FirstFloat(lib, t, k + 1)
  }

  /**
   The (ID field, p-value field) that detectFields settles on, in closed form. The p-value field
   is the first field other than the ID field that parses as a float, and -1 when there is none.
   The ID field is the first field unless that field is a float but not an integer; then it is
   the second field, and -1 when the record has a single field. So an ID is missing only for a
   record that is one bare non-integer number (or no field at all).
   */
  function Detected(lib: Library, t: seq<string>): (r: (int, int))
    ensures -1 <= r.0 < |t| && -1 <= r.1 < |t|
    ensures r.1 != -1 ==> r.0 != r.1 && IsFloat(lib, t[r.1])
  {
    if |t| == 0 then (-1, -1)
    else if !lib.isInt(t[0]) && IsFloat(lib, t[0]) then (if |t| >= 2 then 1 else -1, 0)
    else (0, FirstFloat(lib, t, 1))
  }

  /** The p-value field is the first float other than the ID field; -1 when there is none. */
  lemma DetectedPValueField(lib: Library, t: seq<string>)
    ensures var r := Detected(lib, t);
      forall j :: 0 <= j < |t| && j != r.0 && (r.1 == -1 || j < r.1) ==> !IsFloat(lib, t[j])
  {
  }

  /**
   The ID field is missing only for an empty record or one bare non-integer number; a leading
   integer is always the ID; the ID is never beyond the second field.
   */
  lemma DetectedIdField(lib: Library, t: seq<string>)
    ensures var r := Detected(lib, t);
      && (r.0 == -1 <==> |t| == 0 || (|t| == 1 && !lib.isInt(t[0]) && IsFloat(lib, t[0])))
      && (0 < |t| && lib.isInt(t[0]) ==> r.0 == 0)
      && r.0 <= 1
  {
  }

  /** Extending a record by one field moves the first float only if there was none before. */
  lemma FirstFloatSnoc(lib: Library, t: seq<string>, k: nat)
    requires 1 <= k < |t|
    ensures FirstFloat(lib, t[..k + 1], 1) ==
      if FirstFloat(lib, t[..k], 1) == -1 && IsFloat(lib, t[k]) then k else FirstFloat(lib, t[..k], 1)
  {
    var u, w := t[..k], t[..k + 1];
    var a, b := FirstFloat(lib, u, 1), FirstFloat(lib, w, 1);
    assert forall j :: 0 <= j < k ==> u[j] == w[j];
    if a != -1 {
      assert IsFloat(lib, w[a]);
      assert b != -1 && b <= a;
      assert IsFloat(lib, u[b]);
    } else if IsFloat(lib, t[k]) {
      assert IsFloat(lib, w[k]);
    } else {
      assert !IsFloat(lib, w[k]);
    }
  }

  /**
   detectFields: one pass over the fields. An integer becomes the ID field while there is none;
   otherwise a float becomes the p-value field while there is none; otherwise any field becomes
   the ID field while there is none. A missing ID field is tolerated; a missing p-value field is
   the error.
   */
  method DetectFields(lib: Library, input: seq<string>) returns (idField: int, pField: int, ok: bool)
    ensures (idField, pField) == Detected(lib, input)
    ensures ok <==> pField != -1
  {
    idField, pField := -1, -1;
    for k := 0 to |input|
      invariant (idField, pField) == Detected(lib, input[..k])
    {
      var v := input[k];
      if 1 <= k {
        FirstFloatSnoc(lib, input, k);
      }
      assert input[..k + 1][..k] == input[..k];
      if lib.isInt(v) && idField == -1 {
        idField := k;
      } else if IsFloat(lib, v) && pField == -1 {
        pField := k;
      } else if idField == -1 {
        idField := k;
      }
    }
    assert input[..|input|] == input;
    ok := pField != -1;
  }

  // ---------------------------------------------------------------------------------------
  // Delimiter guessing

  /** The runes of " ,\t|\t", in order; the tab appears twice. */
  const Candidates: seq<char> := [' ', ',', '\t', '|', '\t']

  /** How many lines the guess looks at: at most five. */
  function Tried(lines: seq<string>): (m: nat)
    ensures m <= 5 && m <= |lines|
    ensures |lines| <= 5 ==> m == |lines|
    ensures 5 < |lines| ==> m == 5
  {
    if |lines| > 5 then 5 else |lines|
  }

  /**
   The verdict on one candidate after at most m reads: the first read must give a record of at
   least two fields and, when two or more lines are tried, the second read a record too. A failed
   third, fourth or fifth read still accepts the candidate.
   */
  predicate Accepts(rs: seq<ReadResult>, m: nat)
  {
    m == 0 || (ReadAt(rs, 0).Rec? && |ReadAt(rs, 0).fields| >= 2 && (m >= 2 ==> ReadAt(rs, 1).Rec?))
  }

  /** The index of the first candidate from c on that the reader of text accepts. */
  function FirstAccepted(lib: Library, text: string, m: nat, c: nat): (r: Option<nat>)
    requires c <= |Candidates|
    ensures r.Some? ==>
      && c <= r.value < |Candidates|
      && Accepts(lib.read(text, Candidates[r.value]), m)
      && forall j :: c <= j < r.value ==> !Accepts(lib.read(text, Candidates[j]), m)
    ensures r.None? ==> forall j :: c <= j < |Candidates| ==> !Accepts(lib.read(text, Candidates[j]), m)
    decreases |Candidates| - c
  {
    if c == |Candidates| then None
    else if Accepts(lib.read(text, Candidates[c]), m) then Some(c)
    else FirstAccepted(lib, text, m, c + 1)
  }

  /** The delimiter GuessDelimiter reports, or None for its error. */
  function Guess(lib: Library, lines: seq<string>): (r: Option<char>)
    ensures r.Some? ==> r.value in Candidates && Accepts(lib.read(Join(lines, "\n"), r.value), Tried(lines))
    ensures r.None? <==> forall j :: 0 <= j < |Candidates| ==> !Accepts(lib.read(Join(lines, "\n"), Candidates[j]), Tried(lines))
  {
    match FirstAccepted(lib, Join(lines, "\n"), Tried(lines), 0)
    case None => None
    case Some(j) => Some(Candidates[j])
  }

  /**
   GuessDelimiter: every candidate gets a fresh reader over the joined lines; the first one whose
   reads pass is returned, and when none does the result is a space together with an error.
   */
  method GuessDelimiter(lib: Library, lines: seq<string>) returns (delim: char, ok: bool)
    ensures ok <==> Guess(lib, lines).Some?
    ensures ok ==> delim == Guess(lib, lines).value
    ensures !ok ==> delim == ' '
  {
    var tryThisMany := |lines|;
    if tryThisMany > 5 {
      tryThisMany := 5;
    }
    var input := Join(lines, "\n");
    for ci := 0 to |Candidates|
      invariant forall j :: 0 <= j < ci ==> !Accepts(lib.read(input, Candidates[j]), tryThisMany)
    {
      var comma := Candidates[ci];
      var rs := lib.read(input, comma);
      var acceptComma := true;
      var nFields := -1;
      for i := 0 to tryThisMany
        invariant acceptComma
        invariant 1 <= i ==> ReadAt(rs, 0).Rec? && |ReadAt(rs, 0).fields| >= 2 && nFields == |ReadAt(rs, 0).fields|
        invariant 2 <= i ==> ReadAt(rs, 1).Rec?
      {
        var fields := ReadAt(rs, i);
        if !fields.Rec? {
          if i >= 2 {
            FirstPicked(lib, input, tryThisMany, ci);
            return comma, true;
          }
          acceptComma := false;
          break;
        }
        if i == 0 {
          nFields := |fields.fields|;
          if nFields < 2 {
            acceptComma := false;
            break;
          }
        }
      }
      assert acceptComma <==> Accepts(rs, tryThisMany);
      if acceptComma {
        FirstPicked(lib, input, tryThisMany, ci);
        return comma, true;
      }
    }
    return ' ', false;
  }

  /** When every earlier candidate fails and candidate ci passes, ci is the one picked. */
  lemma FirstPicked(lib: Library, text: string, m: nat, ci: nat)
    requires ci < |Candidates|
    requires forall j :: 0 <= j < ci ==> !Accepts(lib.read(text, Candidates[j]), m)
    requires Accepts(lib.read(text, Candidates[ci]), m)
    ensures FirstAccepted(lib, text, m, 0) == Some(ci)
  {
  }

  /**
   The delimiter ParseDelimitedInput settles on: the guess, or, when no candidate passes but the
   first line is a bare number, a comma (a single column of p-values without identifiers).
   */
  function Delimiter(lib: Library, input: string): (r: Option<char>)
    ensures r.Some? ==> r.value in Candidates
    ensures r.None? <==> Guess(lib, Lines(input)).None? && !IsFloat(lib, Lines(input)[0])
  {
    var lines := Lines(input);
    match Guess(lib, lines)
    case Some(d) => Some(d)
    case None => if IsFloat(lib, lines[0]) then Some(',') else None
  }

  // ---------------------------------------------------------------------------------------
  // Parsing

  /** What one record contributes: its identifier ("" without an ID column) and its p-value. */
  datatype Row = Row(id: string, p: real)

  /**
   The rows of the first n records, with the p-value in column p and the ID in column id; None as
   soon as one of them does not hold a float in column p.
   */
  function RowsUpTo(lib: Library, rs: seq<ReadResult>, id: int, p: int, n: nat): (r: Option<seq<Row>>)
    requires UniformWidth(rs) && n <= RecordCount(rs)
    requires 0 < n ==> 0 <= p < |rs[0].fields| && id < |rs[0].fields|
    ensures r.Some? ==> |r.value| == n
    decreases n
  {
    if n == 0 then Some([])
    else
      match RowsUpTo(lib, rs, id, p, n - 1)
      case None => None
      case Some(prev) =>
        var fields := rs[n - 1].fields;
        match lib.parseFloat(fields[p])
        case None => None
        case Some(x) => Some(prev + [Row(if id < 0 then "" else fields[id], x)])
  }

  /**
   The rows exist exactly when column p of every record parses as a float; row k then holds that
   float and column id of record k ("" when id is negative).
   */
  lemma {:induction false} RowsUpToMeaning(lib: Library, rs: seq<ReadResult>, id: int, p: int, n: nat)
    requires UniformWidth(rs) && n <= RecordCount(rs)
    requires 0 < n ==> 0 <= p < |rs[0].fields| && id < |rs[0].fields|
    ensures var r := RowsUpTo(lib, rs, id, p, n);
      && (r.Some? <==> forall k :: 0 <= k < n ==> IsFloat(lib, rs[k].fields[p]))
      && (r.Some? ==> forall k :: 0 <= k < n ==>
            && lib.parseFloat(rs[k].fields[p]) == Some(r.value[k].p)
            && r.value[k].id == (if id < 0 then "" else rs[k].fields[id]))
    decreases n
  {
    if n > 0 {
      RowsUpToMeaning(lib, rs, id, p, n - 1);
      assert |rs[n - 1].fields| == |rs[0].fields|;
    }
  }

  /** The rows are determined by the columns: any rows that match them are the rows. */
  lemma RowsUpToDetermined(lib: Library, rs: seq<ReadResult>, id: int, p: int, n: nat, rows: seq<Row>)
    requires UniformWidth(rs) && n <= RecordCount(rs)
    requires 0 < n ==> 0 <= p < |rs[0].fields| && id < |rs[0].fields|
    requires |rows| == n
    requires forall k :: 0 <= k < n ==>
      && lib.parseFloat(rs[k].fields[p]) == Some(rows[k].p)
      && rows[k].id == (if id < 0 then "" else rs[k].fields[id])
    ensures RowsUpTo(lib, rs, id, p, n) == Some(rows)
  {
    var r := RowsUpTo(lib, rs, id, p, n);
    RowsUpToMeaning(lib, rs, id, p, n);
    assert r.Some?;
    forall k | 0 <= k < n
      ensures r.value[k] == rows[k]
    {
      assert Some(r.value[k].p) == Some(rows[k].p);
    }
    assert r.value == rows;
  }

  /**
   The outcome of the read loop over one reader: an error as soon as a read fails, the first
   record has no p-value field, or a p-value does not parse; otherwise one row per record.
   */
  function ParseRecords(lib: Library, rs: seq<ReadResult>): (r: Option<seq<Row>>)
    requires UniformWidth(rs)
    ensures r.Some? ==> |r.value| == RecordCount(rs)
    ensures ReadAt(rs, RecordCount(rs)).Fail? ==> r.None?
    ensures 0 < RecordCount(rs) && Detected(lib, rs[0].fields).1 == -1 ==> r.None?
  {
    var n := RecordCount(rs);
    if ReadAt(rs, n).Fail? then None
    else if n == 0 then Some([])
    else
      var d := Detected(lib, rs[0].fields);
      if d.1 == -1 then None else RowsUpTo(lib, rs, d.0, d.1, n)
  }

  /** The rows ParseDelimitedInput returns for input, or None for its error. */
  function Parse(lib: Library, input: string): (r: Option<seq<Row>>)
    requires lib.Valid()
    ensures Delimiter(lib, input).None? ==> r.None?
  {
    match Delimiter(lib, input)
    case None => None
    case Some(d) => ParseRecords(lib, lib.read(input, d))
  }

  /** The values hold the rows, in order, with nothing computed yet. */
  ghost predicate Holds(values: seq<Value>, rows: seq<Row>)
    reads values
  {
    && |values| == |rows|
    && forall k :: 0 <= k < |values| ==>
         && values[k].id == rows[k].id && values[k].pValue == rows[k].p
         && values[k].criticalValue == 0.0 && values[k].adjustedPValue == 0.0
  }

  /**
   ParseDelimitedInput: normalise line ends and split into lines, guess the delimiter (falling
   back to a comma for a bare number), then read the ORIGINAL input record by record, detecting
   the columns on the first record and turning each record into a fresh Value.
   */
  method ParseDelimitedInput(lib: Library, input: string) returns (values: seq<Value>, ok: bool)
    requires lib.Valid()
    ensures ok <==> Parse(lib, input).Some?
    ensures ok ==> Holds(values, Parse(lib, input).value)
    ensures !ok ==> values == []
    ensures Distinct(values)
    ensures forall k :: 0 <= k < |values| ==> fresh(values[k])
  {
    var lines := Split(ReplaceCrlf(input));
    var delim, found := GuessDelimiter(lib, lines);
    if !found && |lines| > 0 {
      if lib.parseFloat(lines[0]).None? {
        return [], false;
      }
      // The line is a bare number: a single column, read with a comma.
      delim := ',';
    } else if !found {
      // strings.Split always returns at least one line.
      assert false;
    }
    assert Delimiter(lib, input) == Some(delim);
    values, ok := ReadValues(lib, lib.read(input, delim));
  }

  /**
   The read loop of ParseDelimitedInput over the reader it opens: records until io.EOF, the
   columns detected on the first record, one fresh Value per record, and on any error no values.
   */
  method ReadValues(lib: Library, rs: seq<ReadResult>) returns (values: seq<Value>, ok: bool)
    requires UniformWidth(rs)
    ensures ok <==> ParseRecords(lib, rs).Some?
    ensures ok ==> Holds(values, ParseRecords(lib, rs).value)
    ensures !ok ==> values == []
    ensures Distinct(values)
    ensures forall k :: 0 <= k < |values| ==> fresh(values[k])
  {
    values := [];
    var idField, pField := -1, -1;
    var i := 0;
    ghost var rows: seq<Row> := [];
    while true
      invariant i == |values| && i <= RecordCount(rs)
      invariant i == 0 ==> idField == -1 && pField == -1
      invariant 0 < i ==> (idField, pField) == Detected(lib, rs[0].fields) && pField != -1
      invariant RowsUpTo(lib, rs, idField, pField, i) == Some(rows)
      invariant Holds(values, rows)
      invariant Distinct(values)
      invariant forall k :: 0 <= k < |values| ==> fresh(values[k])
      decreases |rs| - i
    {
      var rec := ReadAt(rs, i);
      if rec.Eof? {
        break;
      } else if rec.Fail? {
        return [], false;
      }
      if idField == -1 && idField == pField {
        assert rec == rs[0];
        var detected;
        idField, pField, detected := DetectFields(lib, rec.fields);
        if !detected {
          return [], false;
        }
      }
      assert (idField, pField) == Detected(lib, rs[0].fields) && pField != -1;
      RowsUpToStep(lib, rs, idField, pField, i);
      var pV := lib.parseFloat(rec.fields[pField]);
      if pV.None? {
        RowsUpToMeaning(lib, rs, idField, pField, RecordCount(rs));
        return [], false;
      }
      var v := new Value(if idField < 0 then "" else rec.fields[idField], pV.value);
      HoldsAppend(values, rows, v, Row(v.id, v.pValue));
      DistinctAppend(values, v);
      values, rows := values + [v], rows + [Row(v.id, v.pValue)];
      i := i + 1;
    }
    RecordCountAt(rs, i);
    return values, true;
  }

  /** One more record: its row is appended, or the rows stop when its p-value does not parse. */
  lemma RowsUpToStep(lib: Library, rs: seq<ReadResult>, id: int, p: int, i: nat)
    requires UniformWidth(rs) && i < RecordCount(rs)
    requires 0 <= p < |rs[0].fields| && id < |rs[0].fields|
    ensures |rs[i].fields| == |rs[0].fields|
    ensures RowsUpTo(lib, rs, id, p, i + 1) ==
      match (RowsUpTo(lib, rs, id, p, i), lib.parseFloat(rs[i].fields[p]))
      case (Some(prev), Some(x)) => Some(prev + [Row(if id < 0 then "" else rs[i].fields[id], x)])
      case _ => None
  {
  }

  lemma HoldsAppend(values: seq<Value>, rows: seq<Row>, v: Value, row: Row)
    requires Holds(values, rows)
    requires v.id == row.id && v.pValue == row.p && v.criticalValue == 0.0 && v.adjustedPValue == 0.0
    ensures Holds(values + [v], rows + [row])
  {
  }
}
