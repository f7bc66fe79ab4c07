/** The member table read from the spreadsheet and the checks and filters
    that mitgliedsbeitraege-xml.py applies to it before building payments. */
module MemberTable {
  import opened Wrappers
  import opened Calendar

  /** A non-null cell value as pandas delivers it. */
  datatype Value =
    | Text(s: string)
    | Whole(n: int)
    | Decimal(x: real)
    | Flag(b: bool)
    | Stamp(t: Timestamp)
    | Day(d: Date)

  /** A cell; `None` is pandas' null (NaN, NaT, None), the test of `pd.isnull`. */
  type Cell = Option<Value>

  /** One row, by column name. */
  type Row = map<string, Cell>

  /** The column dtypes that matter here. */
  datatype DType = Int64 | Float64 | Boolean | Datetime64 | Object

  /** A data frame: the dtype of each column (its keys are the columns) and
      the rows in sheet order. */
  datatype Table = Table(dtypes: map<string, DType>, rows: seq<Row>)

  const LastName := "Nachname"
  const FirstName := "Vorname"
  const Active := "Aktiv"
  const MandateDate := "Datum SEPA Mandat"
  const Iban := "IBAN"
  const Bic := "BIC"
  const AccountHolder := "Kontoinhaber"
  const Amount := "Beitrag"
  const MandateRef := "Mandatsreferenz"

  /** The columns `validateInput` insists on. */
  const RequiredColumns: set<string> :=
    {LastName, FirstName, Active, MandateDate, Iban, Bic, AccountHolder, Amount, MandateRef}

  /** The fields `validateMember` checks, in the order it checks them. */
  const CriticalFields: seq<string> :=
    [MandateDate, Iban, Bic, AccountHolder, Amount, MandateRef]

  const Int64Min := -0x8000_0000_0000_0000
  const Int64Max := 0x7FFF_FFFF_FFFF_FFFF

  /** What a column of dtype `t` can hold: an int64 column has no nulls. */
  predicate Fits(t: DType, c: Cell) {
    match t
    case Int64 => c.Some? && c.value.Whole? && Int64Min <= c.value.n <= Int64Max
    case Float64 => c.None? || c.value.Decimal?
    case Boolean => c.Some? && c.value.Flag?
    case Datetime64 => c.None? || c.value.Stamp?
    case Object => true
  }

  /** What pandas guarantees of a frame: every row has exactly the frame's
      columns and every cell fits its column's dtype. */
  predicate WellTyped(t: Table) {
    forall i :: 0 <= i < |t.rows| ==>
      t.rows[i].Keys == t.dtypes.Keys
      && forall c :: c in t.rows[i] ==> Fits(t.dtypes[c], t.rows[i][c])
  }

  /** A row that carries every required column. */
  predicate HasColumns(row: Row) {
    RequiredColumns <= row.Keys
  }

  // ---------------------------------------------------------------- validateInput

  datatype InputError =
    | MissingColumns(missing: set<string>) // required columns the table lacks
    | AmountNotInteger                     // `Beitrag` is not of dtype int64

  lemma NotSubsetLeavesDifference(a: set<string>, b: set<string>)
    requires !(a <= b)
    ensures a - b != {}
  {
    var x :| x in a && x !in b;
    assert x in a - b;
  }

  /** validateInput (lines 28-36): the column check first, then the dtype of
      `Beitrag`. */
  function ValidateInput(t: Table): (r: Outcome<InputError>)
    ensures r.Pass? <==>
      (forall c :: c in RequiredColumns ==> c in t.dtypes) && t.dtypes[Amount] == Int64
    ensures r.Fail? && r.error.MissingColumns? ==>
      r.error.missing != {}
      && forall c :: c in r.error.missing <==> c in RequiredColumns && c !in t.dtypes
    ensures Amount !in t.dtypes ==> r.Fail? && r.error.MissingColumns?
    ensures r == Fail(AmountNotInteger) <==>
      (forall c :: c in RequiredColumns ==> c in t.dtypes) && t.dtypes[Amount] != Int64
  {
    if !(RequiredColumns <= t.dtypes.Keys) then
      NotSubsetLeavesDifference(RequiredColumns, t.dtypes.Keys);
      Fail(MissingColumns(RequiredColumns - t.dtypes.Keys))
    else if t.dtypes[Amount] != Int64 then
      Fail(AmountNotInteger)
    else
      Pass
  }

  /** A table that passes validateInput gives every row the required columns
      and an integer `Beitrag`. */
  lemma ValidatedRows(t: Table)
    requires WellTyped(t) && ValidateInput(t).Pass?
    ensures forall i :: 0 <= i < |t.rows| ==>
      HasColumns(t.rows[i]) && t.rows[i][Amount].Some? && t.rows[i][Amount].value.Whole?
  {
    forall i | 0 <= i < |t.rows|
      ensures HasColumns(t.rows[i]) && t.rows[i][Amount].Some? && t.rows[i][Amount].value.Whole?
    {
      assert Fits(t.dtypes[Amount], t.rows[i][Amount]);
    }
  }

  // ---------------------------------------------------------------- validateMember

  /** The error of `validateMember`: the empty field and the member's names. */
  datatype MemberError = MissingField(field: string, firstName: Cell, lastName: Cell)

  /** The position of the first null among `fields`, or `|fields|`. */
  function FirstNull(row: Row, fields: seq<string>): (k: nat)
    requires forall i :: 0 <= i < |fields| ==> fields[i] in row
    ensures k <= |fields|
    ensures forall j :: 0 <= j < k ==> row[fields[j]].Some?
    ensures k < |fields| ==> row[fields[k]].None?
  {
    if fields == [] then 0
    else if row[fields[0]].None? then 0
    else 1 + FirstNull(row, fields[1..])
  }

  /** None of the six critical fields of the row is null. */
  predicate CriticalFieldsSet(row: Row)
    requires HasColumns(row)
  {
    && row[MandateDate].Some? && row[Iban].Some? && row[Bic].Some?
    && row[AccountHolder].Some? && row[Amount].Some? && row[MandateRef].Some?
  }

  lemma CriticalFieldsSetIff(row: Row)
    requires HasColumns(row)
    ensures CriticalFieldsSet(row) <==>
      forall i :: 0 <= i < |CriticalFields| ==> row[CriticalFields[i]].Some?
  {
    if CriticalFieldsSet(row) {
      forall i | 0 <= i < |CriticalFields| ensures row[CriticalFields[i]].Some? {
        assert CriticalFields[i] in [MandateDate, Iban, Bic, AccountHolder, Amount, MandateRef];
      }
    } else {
      assert exists i :: 0 <= i < |CriticalFields| && row[CriticalFields[i]].None? by {
        if row[MandateDate].None? { assert row[CriticalFields[0]].None?; }
        else if row[Iban].None? { assert row[CriticalFields[1]].None?; }
        else if row[Bic].None? { assert row[CriticalFields[2]].None?; }
        else if row[AccountHolder].None? { assert row[CriticalFields[3]].None?; }
        else if row[Amount].None? { assert row[CriticalFields[4]].None?; }
        else { assert row[CriticalFields[5]].None?; }
      }
    }
  }

  /** The verdict of validateMember (lines 13-19) on one row. */
  function CheckMember(row: Row): (r: Outcome<MemberError>)
    requires HasColumns(row)
    ensures r.Pass? <==> forall i :: 0 <= i < |CriticalFields| ==> row[CriticalFields[i]].Some?
    ensures r.Pass? <==> CriticalFieldsSet(row)
    ensures r.Fail? ==>
      r.error.firstName == row[FirstName] && r.error.lastName == row[LastName]
      && exists k :: 0 <= k < |CriticalFields| && r.error.field == CriticalFields[k]
           && row[CriticalFields[k]].None?
           && forall j :: 0 <= j < k ==> row[CriticalFields[j]].Some?
  {
    var k := FirstNull(row, CriticalFields);
    CriticalFieldsSetIff(row);
    if k == |CriticalFields| then Pass
    else Fail(MissingField(CriticalFields[k], row[FirstName], row[LastName]))
  }

  /** validateMember (lines 13-19): walk the critical fields in order and stop
      at the first null one. */
  method ValidateMember(row: Row) returns (r: Outcome<MemberError>)
    requires HasColumns(row)
    ensures r == CheckMember(row)
  {
    var i := 0;
    while i < |CriticalFields|
      invariant 0 <= i <= |CriticalFields|
      invariant forall j :: 0 <= j < i ==> row[CriticalFields[j]].Some?
    {
      var c := CriticalFields[i];
      if row[c].None? {
        return Fail(MissingField(c, row[FirstName], row[LastName]));
      }
      i := i + 1;
    }
    return Pass;
  }

  // ---------------------------------------------------------------- active filter

  predicate IsActive(row: Row)
    requires Active in row
  {
    row[Active].Some?
  }

  /** Line 81, `members[~members["Aktiv"].isnull()]`: the rows whose `Aktiv`
      cell holds any value, in order. */
  function ActiveRows(rows: seq<Row>): (r: seq<Row>)
    requires forall i :: 0 <= i < |rows| ==> Active in rows[i]
    ensures |r| <= |rows|
    ensures forall i :: 0 <= i < |r| ==> r[i] in rows && Active in r[i] && IsActive(r[i])
  {
    if rows == [] then []
    else (if IsActive(rows[0]) then [rows[0]] else []) + ActiveRows(rows[1..])
  }

  /** Filtering commutes with concatenation, so the kept rows stay in their
      original order. */
  lemma {:induction false} ActiveRowsAppend(a: seq<Row>, b: seq<Row>)
    requires forall i :: 0 <= i < |a| ==> Active in a[i]
    requires forall i :: 0 <= i < |b| ==> Active in b[i]
    ensures ActiveRows(a + b) == ActiveRows(a) + ActiveRows(b)
  {
    if a == [] {
      assert a + b == b;
    } else {
      assert (a + b)[1..] == a[1..] + b;
      ActiveRowsAppend(a[1..], b);
    }
  }

  /** Every active row is kept, as often as it occurs, and no other row. */
  lemma {:induction false} ActiveRowsCount(rows: seq<Row>, x: Row)
    requires forall i :: 0 <= i < |rows| ==> Active in rows[i]
    requires Active in x
    ensures multiset(ActiveRows(rows))[x] == if IsActive(x) then multiset(rows)[x] else 0
  {
    if rows != [] {
      assert rows == [rows[0]] + rows[1..];
      ActiveRowsCount(rows[1..], x);
    }
  }

  /** Filtering twice keeps what filtering once kept. */
  lemma {:induction false} ActiveRowsIdempotent(rows: seq<Row>)
    requires forall i :: 0 <= i < |rows| ==> Active in rows[i]
    ensures ActiveRows(ActiveRows(rows)) == ActiveRows(rows)
  {
    if rows != [] {
      var head := if IsActive(rows[0]) then [rows[0]] else [];
      ActiveRowsAppend(head, ActiveRows(rows[1..]));
      ActiveRowsIdempotent(rows[1..]);
    }
  }

  // ---------------------------------------------------------------- line 82

  /** The exception of `.dt` on a column that is not datetime-like. */
  datatype ConversionError = NotDatetimeLike

  /** `.dt.date` on one cell: a timestamp loses its time of day. */
  function DateOnly(c: Cell): Cell {
    if c.Some? && c.value.Stamp? then Some(Day(DatePart(c.value.t))) else c
  }

  /** Line 82: replace the mandate-date column by its date part. pandas only
      offers `.dt` on a datetime64 column; the result is an object column. */
  function StripMandateTime(t: Table): (r: Result<Table, ConversionError>)
    requires MandateDate in t.dtypes
    requires forall i :: 0 <= i < |t.rows| ==> MandateDate in t.rows[i]
    ensures r.Success? <==> t.dtypes[MandateDate] == Datetime64
    ensures r.Success? ==>
      && |r.value.rows| == |t.rows|
      && r.value.dtypes == t.dtypes[MandateDate := Object]
      && forall i :: 0 <= i < |t.rows| ==>
           && r.value.rows[i].Keys == t.rows[i].Keys
           && (forall c :: c in t.rows[i] && c != MandateDate ==> r.value.rows[i][c] == t.rows[i][c])
           && (t.rows[i][MandateDate].None? ==> r.value.rows[i][MandateDate].None?)
           && (t.rows[i][MandateDate].Some? && t.rows[i][MandateDate].value.Stamp? ==>
                 r.value.rows[i][MandateDate] == Some(Day(t.rows[i][MandateDate].value.t.date)))
  {
    if t.dtypes[MandateDate] != Datetime64 then Failure(NotDatetimeLike)
    else
      var rows := seq(|t.rows|, i requires 0 <= i < |t.rows| =>
        t.rows[i][MandateDate := DateOnly(t.rows[i][MandateDate])]);
      Success(Table(t.dtypes[MandateDate := Object], rows))
  }

  /** The projection keeps the frame well typed and leaves no time of day in
      the mandate-date column. */
  lemma StripMandateTimeWellTyped(t: Table)
    requires WellTyped(t) && MandateDate in t.dtypes && t.dtypes[MandateDate] == Datetime64
    ensures forall i :: 0 <= i < |t.rows| ==> MandateDate in t.rows[i]
    ensures var r := StripMandateTime(t).value;
      && WellTyped(r)
      && forall i :: 0 <= i < |r.rows| ==>
           r.rows[i][MandateDate].None? || r.rows[i][MandateDate].value.Day?
  {
    var r := StripMandateTime(t).value;
    forall i | 0 <= i < |r.rows|
      ensures r.rows[i].Keys == r.dtypes.Keys
      ensures forall c :: c in r.rows[i] ==> Fits(r.dtypes[c], r.rows[i][c])
    {
      forall c | c in r.rows[i] ensures Fits(r.dtypes[c], r.rows[i][c]) {
        if c != MandateDate {
          assert Fits(t.dtypes[c], t.rows[i][c]);
        }
      }
    }
  }
}
