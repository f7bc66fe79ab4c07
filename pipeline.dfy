/** The `__main__` block of mitgliedsbeitraege-xml.py from the validated
    table to the filled batch (lines 79-104), with the run date and the
    configured description phrase passed in. */
module Program {
  import opened Wrappers
  import opened Calendar
  import opened Collection
  import opened MemberTable
  import opened Sepa

  /** Why a run stops with exit code 1 before the export. */
  datatype RunError =
    | InvalidTable(input: InputError)        // validateInput, line 79
    | MandateDateNotDatetime                 // `.dt` at line 82
    | NoCollectionDate(date: DateError)      // determineCollectionDate, line 86
    | InvalidMember(member: MemberError)     // validateMember, line 90

  /** The frame after line 81: the same columns, the active rows only. */
  function ActiveTable(t: Table): (r: Table)
    requires WellTyped(t) && ValidateInput(t).Pass?
    ensures WellTyped(r) && r.dtypes == t.dtypes
  {
    ValidatedRows(t);
    Table(t.dtypes, ActiveRows(t.rows))
  }

  /** After lines 81-82 every member row has the required columns and an
      integer `Beitrag`, and is checked exactly as its original row. */
  lemma PreparedRows(t: Table)
    requires WellTyped(t) && ValidateInput(t).Pass? && t.dtypes[MandateDate] == Datetime64
    ensures forall i :: 0 <= i < |ActiveTable(t).rows| ==> MandateDate in ActiveTable(t).rows[i]
    ensures var a := ActiveTable(t).rows;
      var m := StripMandateTime(ActiveTable(t)).value.rows;
      && AllAmountTyped(a) && AllAmountTyped(m) && |m| == |a|
      && forall i :: 0 <= i < |a| ==> CheckMember(m[i]) == CheckMember(a[i])
  {
    var a := ActiveTable(t).rows;
    ValidatedRows(ActiveTable(t));
    StripMandateTimeWellTyped(ActiveTable(t));
    var m := StripMandateTime(ActiveTable(t)).value.rows;
    ValidatedRows(StripMandateTime(ActiveTable(t)).value);
    forall i | 0 <= i < |a| ensures AmountTyped(a[i]) && AmountTyped(m[i]) && CheckMember(m[i]) == CheckMember(a[i]) {
      assert m[i][MandateDate].None? <==> a[i][MandateDate].None?;
      assert forall c :: c in a[i] && c != MandateDate ==> m[i][c] == a[i][c];
      assert FirstNull(m[i], CriticalFields) == FirstNull(a[i], CriticalFields) by {
        FirstNullAgrees(m[i], a[i], CriticalFields);
      }
    }
  }

  /** Two rows with the same null pattern on `fields` have the same first
      null among them. */
  lemma {:induction false} FirstNullAgrees(x: Row, y: Row, fields: seq<string>)
    requires forall i :: 0 <= i < |fields| ==> fields[i] in x && fields[i] in y
    requires forall i :: 0 <= i < |fields| ==> (x[fields[i]].None? <==> y[fields[i]].None?)
    ensures FirstNull(x, fields) == FirstNull(y, fields)
  {
    if fields != [] {
      FirstNullAgrees(x, y, fields[1..]);
    }
  }

  /** Lines 79-104 as a function of the table, the run date and the
      configured phrase: the payments of the batch, or why the run stops. */
  function Pipeline(t: Table, today: Date, phrase: string): Result<seq<Payment>, RunError>
    requires WellTyped(t) && InRange(today)
  {
    match ValidateInput(t)
    case Fail(e) => Failure(InvalidTable(e))
    case Pass =>
      ValidatedRows(t);
      match StripMandateTime(ActiveTable(t))
      case Failure(_) => Failure(MandateDateNotDatetime)
      case Success(members) =>
        PreparedRows(t);
        match DetermineCollectionDate(today)
        case Failure(e) => Failure(NoCollectionDate(e))
        case Success(date) =>
          match Collect(members.rows, date, phrase)
          case Failure(e) => Failure(InvalidMember(e))
          case Success(ps) => Success(ps)
  }

  /** The outcome of the loop of lines 88-104 on the prepared rows: every
      row's payment, or the first failing row's error. */
  function Collect(rows: seq<Row>, date: Date, phrase: string): (r: Result<seq<Payment>, MemberError>)
    requires AllAmountTyped(rows) && Valid(date)
    ensures r.Success? <==> forall i :: 0 <= i < |rows| ==> CheckMember(rows[i]).Pass?
    ensures r.Success? ==> |r.value| == |rows|
    ensures r.Failure? ==>
      exists k :: 0 <= k < |rows| && CheckMember(rows[k]) == Fail(r.error)
                  && forall j :: 0 <= j < k ==> CheckMember(rows[j]).Pass?
  {
    var k := ValidPrefix(rows);
    if k < |rows| then Failure(CheckMember(rows[k]).error)
    else Success(PaymentsFor(rows, date, Description(phrase, date)))
  }

  /** Rows that validateMember judges alike have the same valid prefix. */
  lemma {:induction false} ValidPrefixAgrees(x: seq<Row>, y: seq<Row>)
    requires AllAmountTyped(x) && AllAmountTyped(y) && |x| == |y|
    requires forall i :: 0 <= i < |x| ==> CheckMember(x[i]) == CheckMember(y[i])
    ensures ValidPrefix(x) == ValidPrefix(y)
  {
    if x != [] && CheckMember(x[0]).Pass? {
      assert forall i :: 0 <= i < |x| - 1 ==> x[1..][i] == x[i + 1] && y[1..][i] == y[i + 1];
      ValidPrefixAgrees(x[1..], y[1..]);
    }
  }

  /** The main block: validate, filter, project, pick the date, then fill a
      fresh batch row by row. This is the imperative rendering of lines
      79-104; `Pipeline` is its specification and carries the lemmas. */
  method Run(t: Table, today: Date, phrase: string) returns (r: Result<seq<Payment>, RunError>)
    requires WellTyped(t) && InRange(today)
    ensures r == Pipeline(t, today, phrase)
  {
    var check := ValidateInput(t);
    if check.Fail? {
      return Failure(InvalidTable(check.error));
    }
    ValidatedRows(t);
    var stripped := StripMandateTime(ActiveTable(t));
    if stripped.Failure? {
      return Failure(MandateDateNotDatetime);
    }
    PreparedRows(t);
    var members := stripped.value.rows;
    var collectionDate := DetermineCollectionDate(today);
    if collectionDate.Failure? {
      return Failure(NoCollectionDate(collectionDate.error));
    }
    var collected := FillBatch(members, collectionDate.value, phrase);
    if collected.Failure? {
      return Failure(InvalidMember(collected.error));
    }
    return Success(collected.value);
  }

  /** Lines 76 and 88-104: a fresh batch filled from the prepared rows; the
      payments it holds at the end, or the error that stopped the loop.
      `Collect` is its specification. */
  method FillBatch(members: seq<Row>, date: Date, phrase: string) returns (r: Result<seq<Payment>, MemberError>)
    requires AllAmountTyped(members) && Valid(date)
    ensures r == Collect(members, date, phrase)
  {
    var sepa := new Batch();
    var outcome := sepa.AddMembers(members, date, phrase);
    if outcome.Fail? {
      return Failure(outcome.error);
    }
    var k := ValidPrefix(members);
    assert k == |members|;
    assert members[..k] == members;
    assert sepa.payments == PaymentsFor(members, date, Description(phrase, date));
    return Success(sepa.payments);
  }

  /** The schema check comes first: a table that lacks columns reports
      exactly the missing ones, whatever else is wrong with it. */
  lemma MissingColumnsReported(t: Table, today: Date, phrase: string)
    requires WellTyped(t) && InRange(today)
    requires !(RequiredColumns <= t.dtypes.Keys)
    ensures Pipeline(t, today, phrase) == Failure(InvalidTable(MissingColumns(RequiredColumns - t.dtypes.Keys)))
  {
  }

  /** Once the table and the date are acceptable, the run stops at the first
      active member that fails validateMember, and otherwise builds one
      payment per active member. */
  lemma FailFast(t: Table, today: Date, phrase: string)
    requires WellTyped(t) && InRange(today)
    requires ValidateInput(t).Pass? && t.dtypes[MandateDate] == Datetime64
    requires DetermineCollectionDate(today).Success?
    ensures AllAmountTyped(ActiveTable(t).rows)
    ensures var rows := ActiveTable(t).rows;
      var k := ValidPrefix(rows);
      && (Pipeline(t, today, phrase).Success? <==> k == |rows|)
      && (k < |rows| ==> Pipeline(t, today, phrase) == Failure(InvalidMember(CheckMember(rows[k]).error)))
  {
    PreparedRows(t);
    var rows := ActiveTable(t).rows;
    var m := StripMandateTime(ActiveTable(t)).value.rows;
    ValidPrefixAgrees(rows, m);
  }

  /** A successful run holds one payment per active row, in row order, each
      of type RCUR, due on the first of the next month, with the row's
      `Beitrag` as amount and its fields verbatim; the batch total is the sum
      of the active members' `Beitrag`. */
  lemma SuccessfulRun(t: Table, today: Date, phrase: string)
    requires WellTyped(t) && InRange(today)
    requires Pipeline(t, today, phrase).Success?
    ensures ValidateInput(t).Pass? && DetermineCollectionDate(today).Success?
    ensures AllPayable(ActiveTable(t).rows)
    ensures var rows := ActiveTable(t).rows;
      var ps := Pipeline(t, today, phrase).value;
      var date := NextMonthStart(today);
      && |ps| == |rows|
      && Total(ps) == AmountSum(rows)
      && forall i :: 0 <= i < |ps| ==>
           && ps[i].kind == Recurring
           && ps[i].collectionDate == date
           && ps[i].description == Description(phrase, date)
           && Some(Whole(ps[i].amount)) == rows[i][Amount]
           && Some(ps[i].name) == rows[i][AccountHolder]
           && Some(ps[i].iban) == rows[i][Iban]
           && Some(ps[i].bic) == rows[i][Bic]
           && Some(ps[i].mandateId) == rows[i][MandateRef]
           && rows[i][MandateDate].Some? && rows[i][MandateDate].value.Stamp?
           && ps[i].mandateDate == Day(rows[i][MandateDate].value.t.date)
  {
    PreparedRows(t);
    var rows := ActiveTable(t).rows;
    var members := StripMandateTime(ActiveTable(t)).value;
    var m := members.rows;
    var date := NextMonthStart(today);
    var description := Description(phrase, date);
    FailFast(t, today, phrase);
    var ps := PaymentsFor(m, date, description);
    assert AllPayable(m);
    assert AllPayable(rows) by {
      forall i | 0 <= i < |rows| ensures Payable(rows[i]) {
        assert CheckMember(m[i]).Pass?;
      }
    }
    MandatesStamped(ActiveTable(t));
    forall i | 0 <= i < |ps|
      ensures Some(Whole(ps[i].amount)) == rows[i][Amount]
      ensures Some(ps[i].name) == rows[i][AccountHolder]
      ensures Some(ps[i].iban) == rows[i][Iban]
      ensures Some(ps[i].bic) == rows[i][Bic]
      ensures Some(ps[i].mandateId) == rows[i][MandateRef]
      ensures rows[i][MandateDate].Some? && rows[i][MandateDate].value.Stamp?
      ensures ps[i].mandateDate == Day(rows[i][MandateDate].value.t.date)
    {
      PaymentFields(m, date, description, i);
    }
    TotalOfRows(m, date, description);
    AmountSumAgrees(m, rows);
  }

  /** Once `.dt.date` has accepted the column, a member that passed
      validateMember has a timestamp (not NaT) as mandate date. */
  lemma MandatesStamped(t: Table)
    requires WellTyped(t) && MandateDate in t.dtypes
    requires StripMandateTime(t).Success? && AllPayable(t.rows)
    ensures forall i :: 0 <= i < |t.rows| ==>
      t.rows[i][MandateDate].Some? && t.rows[i][MandateDate].value.Stamp?
  {
    forall i | 0 <= i < |t.rows|
      ensures t.rows[i][MandateDate].Some? && t.rows[i][MandateDate].value.Stamp?
    {
      assert Payable(t.rows[i]);
      assert Fits(t.dtypes[MandateDate], t.rows[i][MandateDate]);
    }
  }

  /** A successful run yields one payment per active member, and the batch
      total is the sum of their `Beitrag` values. */
  lemma RunTotal(t: Table, today: Date, phrase: string)
    requires WellTyped(t) && InRange(today)
    requires Pipeline(t, today, phrase).Success?
    ensures ValidateInput(t).Pass?
    ensures AllPayable(ActiveTable(t).rows)
    ensures |Pipeline(t, today, phrase).value| == |ActiveTable(t).rows|
    ensures Total(Pipeline(t, today, phrase).value) == AmountSum(ActiveTable(t).rows)
  {
    SuccessfulRun(t, today, phrase);
  }

  /** Rows that agree on `Beitrag` have the same amount sum. */
  lemma {:induction false} AmountSumAgrees(x: seq<Row>, y: seq<Row>)
    requires AllPayable(x) && AllPayable(y) && |x| == |y|
    requires forall i :: 0 <= i < |x| ==> x[i][Amount] == y[i][Amount]
    ensures AmountSum(x) == AmountSum(y)
  {
    if x != [] {
      var n := |x| - 1;
      assert AllPayable(x[..n]) && AllPayable(y[..n]) by {
        assert forall i :: 0 <= i < n ==> x[..n][i] == x[i] && y[..n][i] == y[i];
      }
      AmountSumAgrees(x[..n], y[..n]);
    }
  }
}
