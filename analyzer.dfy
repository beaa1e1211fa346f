/** src/analyzer.py: `load_transactions`, from the header and the row
    dictionaries that `csv.DictReader` yields to the list of parsed records. */
module Analyzer {
  import opened Wrappers
  import opened Text
  import opened Utils

  /** A parsed row. The loader attaches no category. */
  datatype Transaction = Transaction(date: Date, description: string, amount: real)

  /** Why a row was skipped: a required field is blank, or the date or the
      amount does not parse. */
  datatype SkipReason = MissingFields | ParseFailure

  /** The loader's console warnings, as data. */
  datatype Warning = NoHeaderRow | SkippedRow(row: nat, reason: SkipReason)

  datatype Loaded = Loaded(transactions: seq<Transaction>, warnings: seq<Warning>)

  /** The one fatal error: required columns missing from the header, named in
      sorted order (the `ValueError` the loader raises). */
  datatype LoadError = MissingColumns(names: seq<string>)

  const REQUIRED_COLUMNS: set<string> := {"date", "description", "amount"}

  /** `REQUIRED_COLUMNS` in `sorted()` order. */
  const REQUIRED_IN_ORDER: seq<string> := ["amount", "date", "description"]

  // ------------------------------------------------------ header checking

  /** Python's `<` on strings: lexicographic by code point, a proper prefix first. */
  predicate StrLess(a: string, b: string)
    decreases |a|
  {
    if a == [] then b != []
    else b != [] && (a[0] < b[0] || (a[0] == b[0] && StrLess(a[1..], b[1..])))
  }

  predicate StrictlySorted(s: seq<string>)
  {
    forall i, j :: 0 <= i < j < |s| ==> StrLess(s[i], s[j])
  }

  /** `set(col.lower() for col in fieldnames)`. */
  function HeaderSet(header: seq<string>): set<string>
  {
    set k | 0 <= k < |header| :: Lower(header[k])
  }

  /** The tail of a sorted list is sorted, and its first name sorts before
      every name in the tail. */
  lemma SortedTail(s: seq<string>)
    requires s != []
    ensures StrictlySorted(s) ==> StrictlySorted(s[1..]) && forall x :: x in s[1..] ==> StrLess(s[0], x)
  {
    if StrictlySorted(s) {
      forall i, j | 0 <= i < j < |s[1..]| ensures StrLess(s[1..][i], s[1..][j]) {
        assert s[1..][i] == s[i + 1] && s[1..][j] == s[j + 1];
      }
      forall x | x in s[1..] ensures StrLess(s[0], x) {
        var j :| 0 <= j < |s[1..]| && s[1..][j] == x;
        assert s[j + 1] == x;
      }
    }
  }

  /** A name followed by a sorted list of names it sorts before is sorted. */
  lemma SortedCons(h: seq<string>, rest: seq<string>)
    requires |h| <= 1 && StrictlySorted(rest)
    requires forall x, y :: x in h && y in rest ==> StrLess(x, y)
    ensures StrictlySorted(h + rest)
  {
    var m := h + rest;
    forall i, j | 0 <= i < j < |m| ensures StrLess(m[i], m[j]) {
      if i < |h| {
        assert m[i] in h && m[j] == rest[j - |h|] && rest[j - |h|] in rest;
      } else {
        assert m[i] == rest[i - |h|] && m[j] == rest[j - |h|];
      }
    }
  }

  lemma ConsMembers(s: seq<string>)
    requires s != []
    ensures forall x :: x in s <==> x == s[0] || x in s[1..]
  {
    assert s == [s[0]] + s[1..];
  }

  /** The names of `required` (in its order) that are not in `present`. */
  function Absent(required: seq<string>, present: set<string>): (m: seq<string>)
    ensures forall x :: x in m <==> x in required && x !in present
    ensures StrictlySorted(required) ==> StrictlySorted(m)
    ensures m == [] <==> forall x :: x in required ==> x in present
  {
    if required == [] then []
    else
      var rest := Absent(required[1..], present);
      var h := if required[0] !in present then [required[0]] else [];
      SortedTail(required);
      ConsMembers(required);
      assert StrictlySorted(required) ==> StrictlySorted(h + rest) by {
        if StrictlySorted(required) {
          SortedCons(h, rest);
        }
      }
      h + rest
  }

  lemma RequiredInOrderIsSorted()
    ensures StrictlySorted(REQUIRED_IN_ORDER)
  {
    assert StrLess("amount", "date");
    assert StrLess("date", "description");
    assert StrLess("amount", "description");
  }

  /** `sorted(REQUIRED_COLUMNS - header_set)`: exactly the required names the
      lower-cased header lacks, each once, in sorted order. */
  function MissingFrom(header: seq<string>): (m: seq<string>)
    ensures forall x :: x in m <==> x in REQUIRED_COLUMNS && x !in HeaderSet(header)
    ensures StrictlySorted(m)
    ensures m == [] <==> REQUIRED_COLUMNS <= HeaderSet(header)
  {
    RequiredInOrderIsSorted();
    Absent(REQUIRED_IN_ORDER, HeaderSet(header))
  }

  // ---------------------------------------------------- per-row handling

  /** `(row.get(key) or "")`: an absent field reads as the empty string. */
  function Field(row: map<string, string>, key: string): string
  {
    if key in row then row[key] else ""
  }

  /** What the loop body does with one row: skip it (and why), or the record
      built from its stripped fields. */
  function RowOutcome(row: map<string, string>): Result<Transaction, SkipReason>
  {
    var dateStr := Strip(Field(row, "date"));
    var descr := Strip(Field(row, "description"));
    var amountStr := Strip(Field(row, "amount"));
    if dateStr == [] || descr == [] || amountStr == [] then Failure(MissingFields)
    else
      match ParseDate(dateStr)
      case None => Failure(ParseFailure)
      case Some(d) =>
        match ParseAmount(amountStr)
        case None => Failure(ParseFailure)
        case Some(a) => Success(Transaction(d, descr, a))
  }

  /** A row is skipped for missing fields exactly when a stripped required
      field is empty (an absent field counts as empty); for a parse failure
      exactly when all three are present but the date or the amount does not
      parse; otherwise it yields the record of its stripped description and
      its parsed date and amount. */
  lemma RowOutcomeCases(row: map<string, string>)
    ensures var r := RowOutcome(row);
      var dateStr, descr, amountStr := Strip(Field(row, "date")), Strip(Field(row, "description")), Strip(Field(row, "amount"));
      && (r == Failure(MissingFields) <==> dateStr == [] || descr == [] || amountStr == [])
      && (r == Failure(ParseFailure) <==>
           dateStr != [] && descr != [] && amountStr != []
           && (ParseDate(dateStr).None? || ParseAmount(amountStr).None?))
      && (r.Success? <==>
           dateStr != [] && descr != [] && amountStr != []
           && ParseDate(dateStr).Some? && ParseAmount(amountStr).Some?)
      && (r.Success? ==>
           r.value == Transaction(ParseDate(dateStr).value, descr, ParseAmount(amountStr).value))
  {
  }

  type Outcome = Result<Transaction, SkipReason>

  /** The outcome of every data row, in row order. */
  function Outcomes(rows: seq<map<string, string>>): (outs: seq<Outcome>)
    ensures |outs| == |rows|
  {
    if rows == [] then [] else Outcomes(rows[..|rows| - 1]) + [RowOutcome(rows[|rows| - 1])]
  }

  /** Position `i` of the outcomes is the outcome of row `i`. */
  lemma {:induction false} OutcomeAt(rows: seq<map<string, string>>, i: nat)
    requires i < |rows|
    ensures Outcomes(rows)[i] == RowOutcome(rows[i])
  {
    if i < |rows| - 1 {
      OutcomeAt(rows[..|rows| - 1], i);
    }
  }

  /** The records among the outcomes, in order. */
  function Successes(outs: seq<Outcome>): seq<Transaction>
  {
    if outs == [] then []
    else
      Successes(outs[..|outs| - 1])
      + (match outs[|outs| - 1] case Success(t) => [t] case Failure(_) => [])
  }

  /** A warning for each skipped row; the header is row 1, so the outcome at
      position `i` (from 0) is reported as row `i + 2`. */
  function Skips(outs: seq<Outcome>): seq<Warning>
  {
    if outs == [] then []
    else
      Skips(outs[..|outs| - 1])
      + (match outs[|outs| - 1]
         case Success(_) => []
         case Failure(why) => [SkippedRow(|outs| + 1, why)])
  }

  /** The header is absent: `fieldnames` is `None`, or empty (falsy) when the
      first line is blank. */
  predicate NoHeader(header: Option<seq<string>>)
  {
    header.None? || header.value == []
  }

  /** What `load_transactions` does, as a function of the header and the rows. */
  function Load(header: Option<seq<string>>, rows: seq<map<string, string>>): Result<Loaded, LoadError>
  {
    if NoHeader(header) then Success(Loaded([], [NoHeaderRow]))
    else if MissingFrom(header.value) != [] then Failure(MissingColumns(MissingFrom(header.value)))
    else Success(Loaded(Successes(Outcomes(rows)), Skips(Outcomes(rows))))
  }

  /** A row whose stripped fields include an empty one is skipped for missing fields. */
  lemma BlankFieldOutcome(row: map<string, string>)
    requires Strip(Field(row, "date")) == [] || Strip(Field(row, "description")) == [] || Strip(Field(row, "amount")) == []
    ensures RowOutcome(row) == Failure(MissingFields)
  {
  }

  /** A row with all three fields but an unparsable date or amount is skipped as a parse failure. */
  lemma UnparsableOutcome(row: map<string, string>)
    requires Strip(Field(row, "date")) != [] && Strip(Field(row, "description")) != [] && Strip(Field(row, "amount")) != []
    requires ParseDate(Strip(Field(row, "date"))).None? || ParseAmount(Strip(Field(row, "amount"))).None?
    ensures RowOutcome(row) == Failure(ParseFailure)
  {
  }

  /** The body of the row loop of `load_transactions`: strip the three fields,
      skip the row if one is blank, then parse the date and the amount. */
  method LoadRow(row: map<string, string>) returns (outcome: Outcome)
    ensures outcome == RowOutcome(row)
  {
    var dateStr := Strip(Field(row, "date"));
    var descr := Strip(Field(row, "description"));
    var amountStr := Strip(Field(row, "amount"));
    if dateStr == [] || descr == [] || amountStr == [] {
      BlankFieldOutcome(row);
      return Failure(MissingFields);
    }
    var date := ParseDate(dateStr);
    var amount := ParseAmount(amountStr);
    if date.None? || amount.None? {
      UnparsableOutcome(row);
      return Failure(ParseFailure);
    }
    return Success(Transaction(date.value, descr, amount.value));
  }

  /** The loop over the data rows of `load_transactions`: skips blank or
      unparsable rows with a warning numbered from 2, and appends the others. */
  method LoadRows(rows: seq<map<string, string>>) returns (transactions: seq<Transaction>, warnings: seq<Warning>)
    ensures transactions == Successes(Outcomes(rows))
    ensures warnings == Skips(Outcomes(rows))
  {
    transactions, warnings := [], [];
    var i := 0;
    while i < |rows|
      invariant 0 <= i <= |rows|
      invariant transactions == Successes(Outcomes(rows[..i]))
      invariant warnings == Skips(Outcomes(rows[..i]))
    {
      var row := rows[i];
      var idx := i + 2;
      var outcome := LoadRow(row);
      OutcomesSnoc(rows, i);
      SuccessesSkipsSnoc(Outcomes(rows[..i]), outcome);
      i := i + 1;
      match outcome {
        case Failure(why) =>
          warnings := warnings + [SkippedRow(idx, why)];
        case Success(t) =>
          transactions := transactions + [t];
      }
    }
    assert rows[..i] == rows;
  }

  /** One more row appends its outcome. */
  lemma OutcomesSnoc(rows: seq<map<string, string>>, i: nat)
    requires i < |rows|
    ensures Outcomes(rows[..i + 1]) == Outcomes(rows[..i]) + [RowOutcome(rows[i])]
  {
    assert rows[..i + 1][..i] == rows[..i];
    assert rows[..i + 1][i] == rows[i];
  }

  /** One more outcome adds its record or its warning at the end. */
  lemma SuccessesSkipsSnoc(outs: seq<Outcome>, o: Outcome)
    ensures Successes(outs + [o]) == Successes(outs) + (match o case Success(t) => [t] case Failure(_) => [])
    ensures Skips(outs + [o]) == Skips(outs) + (match o case Success(_) => [] case Failure(why) => [SkippedRow(|outs| + 2, why)])
  {
    assert (outs + [o])[..|outs|] == outs;
  }

  /** `load_transactions`: the header check, then the pass over the rows. */
  method LoadTransactions(header: Option<seq<string>>, rows: seq<map<string, string>>)
    returns (result: Result<Loaded, LoadError>)
    ensures result == Load(header, rows)
  {
    if header.None? || header.value == [] {
      return Success(Loaded([], [NoHeaderRow]));
    }
    var missing := MissingFrom(header.value);
    if missing != [] {
      return Failure(MissingColumns(missing));
    }
    var transactions, warnings := LoadRows(rows);
    return Success(Loaded(transactions, warnings));
  }

  // ------------------------------------------------------------ properties

  /** `ix` lists, in increasing order, the positions of exactly the
      successful outcomes, and record `k` is the one at position `ix[k]`. */
  ghost predicate Selects(outs: seq<Outcome>, ix: seq<nat>)
  {
    && |ix| == |Successes(outs)|
    && (forall k :: 0 <= k < |ix| ==> ix[k] < |outs| && outs[ix[k]] == Success(Successes(outs)[k]))
    && (forall k, l :: 0 <= k < l < |ix| ==> ix[k] < ix[l])
    && (forall i :: 0 <= i < |outs| && outs[i].Success? ==> i in ix)
  }

  /** The positions after one more outcome: its own appended when it succeeded. */
  function Extended(outs: seq<Outcome>, ix: seq<nat>): seq<nat>
    requires outs != []
  {
    if outs[|outs| - 1].Success? then ix + [|outs| - 1] else ix
  }

  lemma SelectsSnocRecords(outs: seq<Outcome>, ix: seq<nat>)
    requires outs != [] && Selects(outs[..|outs| - 1], ix)
    ensures var ix' := Extended(outs, ix);
      |ix'| == |Successes(outs)|
      && forall k :: 0 <= k < |ix'| ==> ix'[k] < |outs| && outs[ix'[k]] == Success(Successes(outs)[k])
  {
    var n := |outs| - 1;
    var p := outs[..n];
    var sp := Successes(p);
    var ix' := Extended(outs, ix);
    var tail := if outs[n].Success? then [outs[n].value] else [];
    assert Successes(outs) == sp + tail;
    forall k | 0 <= k < |ix'| ensures ix'[k] < |outs| && outs[ix'[k]] == Success(Successes(outs)[k]) {
      if k < |ix| {
        assert ix'[k] == ix[k] && outs[ix[k]] == p[ix[k]] && Successes(outs)[k] == sp[k];
      }
    }
  }

  lemma SelectsSnocOrder(outs: seq<Outcome>, ix: seq<nat>)
    requires outs != [] && Selects(outs[..|outs| - 1], ix)
    ensures var ix' := Extended(outs, ix);
      forall k, l :: 0 <= k < l < |ix'| ==> ix'[k] < ix'[l]
  {
    var ix' := Extended(outs, ix);
    forall k, l | 0 <= k < l < |ix'| ensures ix'[k] < ix'[l] {
      if l < |ix| {
        assert ix'[k] == ix[k] && ix'[l] == ix[l];
      } else {
        assert ix'[k] == ix[k] < |outs| - 1;
      }
    }
  }

  lemma SelectsSnocAll(outs: seq<Outcome>, ix: seq<nat>)
    requires outs != [] && Selects(outs[..|outs| - 1], ix)
    ensures var ix' := Extended(outs, ix);
      forall i :: 0 <= i < |outs| && outs[i].Success? ==> i in ix'
  {
    var n := |outs| - 1;
    var p := outs[..n];
    forall i | 0 <= i < |outs| && outs[i].Success? ensures i in Extended(outs, ix) {
      if i < n {
        assert p[i] == outs[i];
      }
    }
  }

  /** The positions of the rows that yield records, increasing: the records
      are an order-preserving selection of the outcomes, holding exactly the
      successful ones. */
  function KeptPositions(outs: seq<Outcome>): (ix: seq<nat>)
    ensures |ix| == |Successes(outs)|
    ensures forall k :: 0 <= k < |ix| ==> ix[k] < |outs| && outs[ix[k]] == Success(Successes(outs)[k])
    ensures forall k, l :: 0 <= k < l < |ix| ==> ix[k] < ix[l]
    ensures forall i :: 0 <= i < |outs| && outs[i].Success? ==> i in ix
  {
    if outs == [] then []
    else
      var n := |outs| - 1;
      var ix := KeptPositions(outs[..n]);
      assert Selects(outs[..n], ix);
      SelectsSnocRecords(outs, ix);
      SelectsSnocOrder(outs, ix);
      SelectsSnocAll(outs, ix);
      Extended(outs, ix)
  }

  /** Every data row either yields a record or a warning, never both. */
  lemma {:induction false} KeptPlusSkippedIsAllRows(outs: seq<Outcome>)
    ensures |Successes(outs)| + |Skips(outs)| == |outs|
  {
    if outs != [] {
      KeptPlusSkippedIsAllRows(outs[..|outs| - 1]);
    }
  }

  /** The warnings an outcome adds after those of the outcomes before it. */
  function LastSkip(outs: seq<Outcome>): seq<Warning>
    requires outs != []
  {
    match outs[|outs| - 1]
    case Success(_) => []
    case Failure(why) => [SkippedRow(|outs| + 1, why)]
  }

  lemma {:induction false} SkipsNameFailedRows(outs: seq<Outcome>)
    ensures forall w :: w in Skips(outs) ==>
      w.SkippedRow? && 2 <= w.row <= |outs| + 1 && outs[w.row - 2] == Failure(w.reason)
  {
    if outs != [] {
      var n := |outs| - 1;
      var p := outs[..n];
      SkipsNameFailedRows(p);
      assert Skips(outs) == Skips(p) + LastSkip(outs);
      forall w | w in Skips(outs)
        ensures w.SkippedRow? && 2 <= w.row <= |outs| + 1 && outs[w.row - 2] == Failure(w.reason)
      {
        if w in Skips(p) {
          assert outs[w.row - 2] == p[w.row - 2];
        }
      }
    }
  }

  lemma {:induction false} SkipsInRowOrder(outs: seq<Outcome>)
    ensures forall k, l :: 0 <= k < l < |Skips(outs)| ==>
      Skips(outs)[k].SkippedRow? && Skips(outs)[l].SkippedRow? && Skips(outs)[k].row < Skips(outs)[l].row
  {
    if outs != [] {
      var n := |outs| - 1;
      var p := outs[..n];
      SkipsInRowOrder(p);
      SkipsNameFailedRows(p);
      var sp := Skips(p);
      assert Skips(outs) == sp + LastSkip(outs);
      SkipsNameFailedRows(outs);
      forall k, l | 0 <= k < l < |Skips(outs)|
        ensures Skips(outs)[k].SkippedRow? && Skips(outs)[l].SkippedRow? && Skips(outs)[k].row < Skips(outs)[l].row
      {
        assert Skips(outs)[k] in Skips(outs) && Skips(outs)[l] in Skips(outs);
        if l >= |sp| {
          assert Skips(outs)[k] == sp[k] && sp[k] in sp;
          assert Skips(outs)[l].row == n + 2;
        } else {
          assert Skips(outs)[k] == sp[k] && Skips(outs)[l] == sp[l];
        }
      }
    } else {
      assert Skips(outs) == [];
    }
  }

  lemma {:induction false} FailedRowsHaveWarnings(outs: seq<Outcome>)
    ensures forall i :: 0 <= i < |outs| && outs[i].Failure? ==> SkippedRow(i + 2, outs[i].error) in Skips(outs)
  {
    if outs != [] {
      var n := |outs| - 1;
      var p := outs[..n];
      FailedRowsHaveWarnings(p);
      assert Skips(outs) == Skips(p) + LastSkip(outs);
      forall i | 0 <= i < |outs| && outs[i].Failure? ensures SkippedRow(i + 2, outs[i].error) in Skips(outs) {
        if i < n {
          assert p[i] == outs[i];
        }
      }
    }
  }

  /** Each warning names a data row (numbered from 2) that was skipped for the
      reason given, warnings come in row order, and every skipped row has one. */
  lemma WarningsNameSkippedRows(outs: seq<Outcome>)
    ensures forall w :: w in Skips(outs) ==>
      w.SkippedRow? && 2 <= w.row <= |outs| + 1 && outs[w.row - 2] == Failure(w.reason)
    ensures forall k, l :: 0 <= k < l < |Skips(outs)| ==> Skips(outs)[k].row < Skips(outs)[l].row
    ensures forall i :: 0 <= i < |outs| && outs[i].Failure? ==> SkippedRow(i + 2, outs[i].error) in Skips(outs)
  {
    SkipsNameFailedRows(outs);
    SkipsInRowOrder(outs);
    FailedRowsHaveWarnings(outs);
  }

  /** A record holds the stripped description of its row, not empty and
      with no surrounding whitespace, a real calendar day written as the row's
      stripped date field, and the value of the row's stripped amount field. */
  ghost predicate RecordOfRow(t: Transaction, row: map<string, string>)
  {
    && t.description == Strip(Field(row, "description"))
    && t.description != [] && !IsSpace(t.description[0]) && !IsSpace(t.description[|t.description| - 1])
    && ValidDate(t.date) && FormatDate(t.date) == Strip(Field(row, "date"))
    && ParseAmount(Strip(Field(row, "amount"))) == Some(t.amount)
  }

  /** A record built from a row's stripped description and its parsed date
      and amount is the record of that row. */
  lemma PartsMakeRecord(t: Transaction, row: map<string, string>)
    requires t.description == Strip(Field(row, "description")) && t.description != []
    requires ParseDate(Strip(Field(row, "date"))) == Some(t.date)
    requires ParseAmount(Strip(Field(row, "amount"))) == Some(t.amount)
    ensures RecordOfRow(t, row)
  {
    StripIsTrimmedSlice(Field(row, "description"));
    ParseDateSound(Strip(Field(row, "date")));
  }

  lemma SuccessfulRowRecord(row: map<string, string>)
    requires RowOutcome(row).Success?
    ensures RecordOfRow(RowOutcome(row).value, row)
  {
    var dateStr, descr, amountStr := Strip(Field(row, "date")), Strip(Field(row, "description")), Strip(Field(row, "amount"));
    var t := RowOutcome(row).value;
    assert descr != [] && ParseDate(dateStr).Some? && ParseAmount(amountStr).Some?
      && t == Transaction(ParseDate(dateStr).value, descr, ParseAmount(amountStr).value) by {
      RowOutcomeCases(row);
    }
    PartsMakeRecord(t, row);
  }

  /** Record `k` of the output is the record of data row `KeptPositions(...)[k]`. */
  lemma RecordsComeFromTheirRows(rows: seq<map<string, string>>)
    ensures var outs := Outcomes(rows); var ix := KeptPositions(outs);
      forall k :: 0 <= k < |ix| ==> ix[k] < |rows| && RecordOfRow(Successes(outs)[k], rows[ix[k]])
  {
    var outs := Outcomes(rows);
    var ix := KeptPositions(outs);
    forall k | 0 <= k < |ix| ensures RecordOfRow(Successes(outs)[k], rows[ix[k]]) {
      OutcomeAt(rows, ix[k]);
      SuccessfulRowRecord(rows[ix[k]]);
    }
  }

  /** No header (`fieldnames` is `None` or empty): an empty result with one
      warning, not an error. */
  lemma NoHeaderOutcome(header: Option<seq<string>>, rows: seq<map<string, string>>)
    requires NoHeader(header)
    ensures Load(header, rows) == Success(Loaded([], [NoHeaderRow]))
  {
  }

  /** A header lacking required columns (compared lower-cased): an error
      naming exactly the missing ones, sorted, and no records. */
  lemma MissingColumnsOutcome(header: Option<seq<string>>, rows: seq<map<string, string>>)
    requires !NoHeader(header) && !(REQUIRED_COLUMNS <= HeaderSet(header.value))
    ensures Load(header, rows).Failure?
    ensures forall x :: x in Load(header, rows).error.names <==> x in REQUIRED_COLUMNS - HeaderSet(header.value)
    ensures StrictlySorted(Load(header, rows).error.names)
  {
    var x :| x in REQUIRED_COLUMNS && x !in HeaderSet(header.value);
    assert x in MissingFrom(header.value);
  }

  /** A header holding the required columns (in any case and order, with any
      extra columns): the records and warnings of the rows. */
  lemma CompleteHeaderOutcome(header: Option<seq<string>>, rows: seq<map<string, string>>)
    requires !NoHeader(header) && REQUIRED_COLUMNS <= HeaderSet(header.value)
    ensures Load(header, rows) == Success(Loaded(Successes(Outcomes(rows)), Skips(Outcomes(rows))))
  {
  }

  /** The header check sees the column names only through `lower()`:
      headers whose names lower-case alike, position by position, load alike. */
  lemma HeaderCaseInsensitive(h1: seq<string>, h2: seq<string>, rows: seq<map<string, string>>)
    requires |h1| == |h2| && forall i :: 0 <= i < |h1| ==> Lower(h1[i]) == Lower(h2[i])
    ensures Load(Some(h1), rows) == Load(Some(h2), rows)
  {
    assert HeaderSet(h1) == HeaderSet(h2);
  }

  /** A header loads exactly as its lower-cased copy does. */
  lemma LoweredHeaderLoadsAlike(h: seq<string>, rows: seq<map<string, string>>)
    ensures var lowered := seq(|h|, i requires 0 <= i < |h| => Lower(h[i]));
      Load(Some(h), rows) == Load(Some(lowered), rows)
  {
    var lowered := seq(|h|, i requires 0 <= i < |h| => Lower(h[i]));
    forall i | 0 <= i < |h| ensures Lower(h[i]) == Lower(lowered[i]) {
      LowerIdempotent(h[i]);
    }
    HeaderCaseInsensitive(h, lowered, rows);
  }

  lemma LowerExamples()
    ensures Lower("date") == "date" && Lower("amount") == "amount" && Lower("description") == "description"
    ensures Lower("Date") == "date" && Lower("Amount") == "amount" && Lower("Description") == "description"
  {
  }

  lemma DateAmountHeaderSet()
    ensures HeaderSet(["date", "amount"]) == {"date", "amount"}
  {
    var h := ["date", "amount"];
    LowerExamples();
    assert Lower(h[0]) == "date" && Lower(h[1]) == "amount";
  }

  lemma AbsentFromLast(present: set<string>)
    requires "description" !in present
    ensures Absent(REQUIRED_IN_ORDER[2..], present) == ["description"]
  {
    var req := REQUIRED_IN_ORDER[2..];
    assert req[0] == "description" && req[1..] == [];
  }

  lemma AbsentFromLastTwo(present: set<string>)
    requires "date" in present && "description" !in present
    ensures Absent(REQUIRED_IN_ORDER[1..], present) == ["description"]
  {
    var req := REQUIRED_IN_ORDER[1..];
    assert req[0] == "date" && req[1..] == REQUIRED_IN_ORDER[2..];
    AbsentFromLast(present);
  }

  lemma MissingFromDateAmount()
    ensures MissingFrom(["date", "amount"]) == ["description"]
  {
    var hs := HeaderSet(["date", "amount"]);
    DateAmountHeaderSet();
    AbsentFromLastTwo(hs);
    assert REQUIRED_IN_ORDER[0] == "amount";
  }

  /** A header of just `date,amount` fails, naming only `description`. */
  lemma MissingDescriptionExample(rows: seq<map<string, string>>)
    ensures Load(Some(["date", "amount"]), rows) == Failure(MissingColumns(["description"]))
  {
    MissingFromDateAmount();
  }

  /** A row without a `date` key is skipped for missing fields. */
  lemma NoDateKeyIsMissingFields(row: map<string, string>)
    requires "date" !in row
    ensures RowOutcome(row) == Failure(MissingFields)
  {
    assert Field(row, "date") == "";
  }

  /** Rows that all lack a `date` key yield no record and one missing-fields
      warning each. */
  lemma {:induction false} NoDateKeyRows(rows: seq<map<string, string>>)
    requires forall i :: 0 <= i < |rows| ==> "date" !in rows[i]
    ensures Successes(Outcomes(rows)) == []
    ensures |Skips(Outcomes(rows))| == |rows|
    ensures forall w :: w in Skips(Outcomes(rows)) ==> w.SkippedRow? && w.reason == MissingFields
  {
    if rows != [] {
      var n := |rows| - 1;
      NoDateKeyRows(rows[..n]);
      var outs := Outcomes(rows[..n]);
      assert Outcomes(rows) == outs + [Failure(MissingFields)] by {
        NoDateKeyIsMissingFields(rows[n]);
        OutcomesSnoc(rows, n);
        assert rows[..n + 1] == rows;
      }
      SuccessesSkipsSnoc(outs, Failure(MissingFields));
    }
  }

  /** The header check lower-cases, the field lookup does not: a capitalised
      header passes, and every row keyed by it then lacks its fields. */
  lemma CapitalisedHeaderSkipsEveryRow(rows: seq<map<string, string>>)
    requires forall i :: 0 <= i < |rows| ==> "date" !in rows[i]
    ensures Load(Some(["Date", "Description", "Amount"]), rows)
      == Success(Loaded([], Skips(Outcomes(rows))))
    ensures |Skips(Outcomes(rows))| == |rows|
    ensures forall w :: w in Skips(Outcomes(rows)) ==> w.SkippedRow? && w.reason == MissingFields
  {
    var h := ["Date", "Description", "Amount"];
    LowerExamples();
    assert HeaderSet(h) == REQUIRED_COLUMNS by {
      assert Lower(h[0]) == "date" && Lower(h[1]) == "description" && Lower(h[2]) == "amount";
    }
    CompleteHeaderOutcome(Some(h), rows);
    NoDateKeyRows(rows);
  }
}
