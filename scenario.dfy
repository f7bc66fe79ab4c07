/** Concrete runs on a small sample sheet. */
module Scenario {
  import opened Wrappers
  import opened Calendar
  import opened Collection
  import opened MemberTable
  import opened Sepa
  import opened Program

  /** The dtypes pandas gives the sample sheet. */
  const SheetTypes: map<string, DType> :=
    map[LastName := Object, FirstName := Object, Active := Object, MandateDate := Datetime64,
        Iban := Object, Bic := Object, AccountHolder := Object, Amount := Int64, MandateRef := Object]

  /** A sample member row. */
  function Member(last: string, first: string, active: Cell, mandateRef: Cell, cents: int): Row {
    map[LastName := Some(Text(last)), FirstName := Some(Text(first)), Active := active,
        MandateDate := Some(Stamp(Timestamp(Date(2024, 5, 17), 0, 0, 0, 0))),
        Iban := Some(Text("DE02120300000000202051")), Bic := Some(Text("BYLADEM1001")),
        AccountHolder := Some(Text(first + " " + last)), Amount := Some(Whole(cents)),
        MandateRef := mandateRef]
  }

  /** A run on the 5th of March 2026. */
  const Today := Date(2026, 3, 5)

  const Phrase := "Mitgliedsbeitrag"

  /** What the sample rows hold. */
  lemma MemberFacts(last: string, first: string, active: Cell, mandateRef: Cell, cents: int)
    requires Int64Min <= cents <= Int64Max
    ensures var row := Member(last, first, active, mandateRef, cents);
      && row.Keys == SheetTypes.Keys && HasColumns(row)
      && (forall c :: c in row ==> Fits(SheetTypes[c], row[c]))
      && row[Active] == active && row[Amount] == Some(Whole(cents))
      && row[FirstName] == Some(Text(first)) && row[LastName] == Some(Text(last))
      && (mandateRef.Some? ==> CheckMember(row).Pass?)
      && (mandateRef.None? ==> CheckMember(row) == Fail(MissingField(MandateRef, row[FirstName], row[LastName])))
  {
    var row := Member(last, first, active, mandateRef, cents);
    if mandateRef.None? {
      assert FirstNull(row, CriticalFields) == 5 by {
        var f := CriticalFields;
        assert f[5..][1..] == [] && f[4..][1..] == f[5..] && f[3..][1..] == f[4..];
        assert f[2..][1..] == f[3..] && f[1..][1..] == f[2..];
        assert FirstNull(row, f[5..]) == 0;
        assert FirstNull(row, f[4..]) == 1;
        assert FirstNull(row, f[3..]) == 2;
        assert FirstNull(row, f[2..]) == 3;
        assert FirstNull(row, f[1..]) == 4;
      }
    }
  }

  /** The sample sheet passes validateInput. */
  lemma SheetAccepted(rows: seq<Row>)
    ensures ValidateInput(Table(SheetTypes, rows)).Pass?
    ensures SheetTypes[MandateDate] == Datetime64
  {
  }

  /** The sample date has a collection date. */
  lemma TodayHasCollectionDate()
    ensures InRange(Today)
    ensures DetermineCollectionDate(Today) == Success(Date(2026, 4, 1))
  {
  }

  lemma FilterThree(a: Row, b: Row, c: Row)
    requires Active in a && Active in b && Active in c
    requires IsActive(a) && IsActive(b) && !IsActive(c)
    ensures ActiveRows([a, b, c]) == [a, b]
  {
    assert [a, b, c][1..] == [b, c] && [b, c][1..] == [c] && [c][1..] == [];
    assert ActiveRows([c]) == [];
    assert ActiveRows([b, c]) == [b];
  }

  lemma FilterTwo(a: Row, b: Row)
    requires Active in a && Active in b && IsActive(a) && IsActive(b)
    ensures ActiveRows([a, b]) == [a, b]
  {
    assert [a, b][1..] == [b] && [b][1..] == [];
    assert ActiveRows([b]) == [b];
  }

  /** A run whose active rows are two valid members succeeds. */
  lemma TwoValidMembersSucceed(t: Table, today: Date, phrase: string, a: Row, b: Row)
    requires WellTyped(t) && InRange(today)
    requires ValidateInput(t).Pass? && t.dtypes[MandateDate] == Datetime64
    requires DetermineCollectionDate(today).Success?
    requires ActiveTable(t).rows == [a, b]
    requires AmountTyped(a) && AmountTyped(b) && CheckMember(a).Pass? && CheckMember(b).Pass?
    ensures Pipeline(t, today, phrase).Success?
  {
    FailFast(t, today, phrase);
    assert AllAmountTyped([a, b]);
    assert ValidPrefix([a, b]) == 2 by {
      assert [a, b][1..] == [b] && [b][1..] == [];
      assert AllAmountTyped([b]) && AllAmountTyped([]);
    }
  }

  lemma AmountSumTwo(a: Row, b: Row)
    requires Payable(a) && Payable(b)
    ensures AllPayable([a, b])
    ensures AmountSum([a, b]) == a[Amount].value.n + b[Amount].value.n
  {
    assert [a, b][..1] == [a] && [a][..0] == [];
    assert AllPayable([a]) && AllPayable([]);
    assert AmountSum([a]) == AmountSum([]) + a[Amount].value.n;
    assert AmountSum([a, b]) == AmountSum([a]) + b[Amount].value.n;
  }

  /** A successful run whose active rows are two members collects their two
      amounts. */
  lemma RunOfTwo(t: Table, today: Date, phrase: string, a: Row, b: Row)
    requires WellTyped(t) && InRange(today)
    requires Pipeline(t, today, phrase).Success?
    requires ValidateInput(t).Pass?
    requires ActiveTable(t).rows == [a, b]
    requires Payable(a) && Payable(b)
    ensures |Pipeline(t, today, phrase).value| == 2
    ensures Total(Pipeline(t, today, phrase).value) == a[Amount].value.n + b[Amount].value.n
  {
    RunTotal(t, today, phrase);
    AmountSumTwo(a, b);
  }

  /** Two active members paying 25.00 and 19.99 EUR give two payments worth
      4499 cents; the inactive third member contributes nothing. */
  lemma TwoActiveMembers()
    ensures var t := Table(SheetTypes, [
        Member("Muster", "Erika", Some(Text("x")), Some(Text("M-1")), 2500),
        Member("Beispiel", "Max", Some(Flag(false)), Some(Text("M-2")), 1999),
        Member("Ruhend", "Rita", None, Some(Text("M-3")), 3000)]);
      && WellTyped(t)
      && Pipeline(t, Today, Phrase).Success?
      && |Pipeline(t, Today, Phrase).value| == 2
      && Total(Pipeline(t, Today, Phrase).value) == 4499
  {
    var a := Member("Muster", "Erika", Some(Text("x")), Some(Text("M-1")), 2500);
    var b := Member("Beispiel", "Max", Some(Flag(false)), Some(Text("M-2")), 1999);
    var c := Member("Ruhend", "Rita", None, Some(Text("M-3")), 3000);
    MemberFacts("Muster", "Erika", Some(Text("x")), Some(Text("M-1")), 2500);
    MemberFacts("Beispiel", "Max", Some(Flag(false)), Some(Text("M-2")), 1999);
    MemberFacts("Ruhend", "Rita", None, Some(Text("M-3")), 3000);
    var t := Table(SheetTypes, [a, b, c]);
    assert WellTyped(t);
    SheetAccepted([a, b, c]);
    TodayHasCollectionDate();
    FilterThree(a, b, c);
    TwoValidMembersSucceed(t, Today, Phrase, a, b);
    RunOfTwo(t, Today, Phrase, a, b);
  }

  /** A member without a mandate reference stops the run, naming them. */
  lemma BlankMandateReference()
    ensures var t := Table(SheetTypes, [
        Member("Muster", "Erika", Some(Text("x")), Some(Text("M-1")), 2500),
        Member("Beispiel", "Max", Some(Text("x")), None, 1999)]);
      && WellTyped(t)
      && Pipeline(t, Today, Phrase)
         == Failure(InvalidMember(MissingField(MandateRef, Some(Text("Max")), Some(Text("Beispiel")))))
  {
    var a := Member("Muster", "Erika", Some(Text("x")), Some(Text("M-1")), 2500);
    var b := Member("Beispiel", "Max", Some(Text("x")), None, 1999);
    MemberFacts("Muster", "Erika", Some(Text("x")), Some(Text("M-1")), 2500);
    MemberFacts("Beispiel", "Max", Some(Text("x")), None, 1999);
    var t := Table(SheetTypes, [a, b]);
    assert WellTyped(t);
    SheetAccepted([a, b]);
    TodayHasCollectionDate();
    FilterTwo(a, b);
    FailFast(t, Today, Phrase);
    assert ValidPrefix([a, b]) == 1;
  }
}
