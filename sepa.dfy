/** The payment records and the direct-debit batch that
    mitgliedsbeitraege-xml.py fills (lines 88-104). The batch stands in for
    sepaxml's `SepaDD`, of which only `add_payment` is modelled. */
module Sepa {
  import opened Wrappers
  import opened Calendar
  import opened MemberTable

  /** The German month names of line 10. */
  const Months: seq<string> :=
    ["Januar", "Februar", "März", "April", "Mai", "Juni", "Juli",
     "August", "September", "Oktober", "November", "Dezember"]

  /** The sequence type of every payment ("recurring"). */
  const Recurring := "RCUR"

  function MonthName(m: int): (name: string)
    requires 1 <= m <= 12
    ensures name in Months
  {
    Months[m - 1]
  }

  function Digit(n: int): char
    requires 0 <= n <= 9
  {
    "0123456789"[n]
  }

  function DigitValue(c: char): int {
    if '0' <= c <= '9' then c as int - '0' as int else 0
  }

  /** `str(n)` for a natural number: its decimal digits, no leading zero. */
  function DecimalString(n: nat): (s: string)
    ensures |s| >= 1 && (|s| > 1 ==> s[0] != '0')
    ensures forall i :: 0 <= i < |s| ==> '0' <= s[i] <= '9'
  {
    if n < 10 then [Digit(n)] else DecimalString(n / 10) + [Digit(n % 10)]
  }

  /** Reads a string of decimal digits back as a number. */
  function DecimalValue(s: string): int {
    if s == [] then 0 else 10 * DecimalValue(s[..|s| - 1]) + DigitValue(s[|s| - 1])
  }

  /** The year written into a description reads back as the same year. */
  lemma {:induction false} DecimalRoundTrip(n: nat)
    ensures DecimalValue(DecimalString(n)) == n
  {
    var s := DecimalString(n);
    if n >= 10 {
      DecimalRoundTrip(n / 10);
      assert s[..|s| - 1] == DecimalString(n / 10);
    }
  }

  /** The description of line 101: the configured phrase, the month name and
      the year of the collection date. */
  function Description(phrase: string, date: Date): string
    requires Valid(date)
  {
    phrase + " " + MonthName(date.month) + " " + DecimalString(date.year)
  }

  /** The description starts with the phrase, names the collection month
      right after it, and ends in the year, which reads back exactly. */
  lemma DescriptionParts(phrase: string, date: Date)
    requires Valid(date)
    ensures var s := Description(phrase, date);
      var name := MonthName(date.month);
      var year := DecimalString(date.year);
      && |s| == |phrase| + |name| + |year| + 2
      && s[..|phrase|] == phrase
      && s[|phrase|] == ' '
      && s[|phrase| + 1..|phrase| + 1 + |name|] == Months[date.month - 1]
      && s[|phrase| + 1 + |name|] == ' '
      && s[|s| - |year|..] == year
      && DecimalValue(s[|s| - |year|..]) == date.year
  {
    var name := MonthName(date.month);
    var year := DecimalString(date.year);
    var s := Description(phrase, date);
    assert s == phrase + [' '] + name + [' '] + year;
    assert s[|phrase| + 1..|phrase| + 1 + |name|] == name;
    DecimalRoundTrip(date.year);
  }

  /** The payment dictionary of lines 92-102. Fields other than the amount,
      type, date and description are the cells of the row, verbatim. */
  datatype Payment = Payment(
    name: Value,
    iban: Value,
    bic: Value,
    amount: int,           // cents
    kind: string,
    collectionDate: Date,
    mandateId: Value,
    mandateDate: Value,
    description: string)

  /** A row that passed validateMember and has an integer `Beitrag`. */
  predicate Payable(row: Row) {
    HasColumns(row) && CriticalFieldsSet(row) && row[Amount].value.Whole?
  }

  /** A row with the required columns whose `Beitrag` cell, if set, is an
      integer (what int64 dtype guarantees). */
  predicate AmountTyped(row: Row) {
    HasColumns(row) && (row[Amount].Some? ==> row[Amount].value.Whole?)
  }

  /** Every row is `AmountTyped`. */
  predicate AllAmountTyped(rows: seq<Row>) {
    forall i {:trigger rows[i]} :: 0 <= i < |rows| ==> AmountTyped(rows[i])
  }

  /** Every row is `Payable`. */
  predicate AllPayable(rows: seq<Row>) {
    forall i {:trigger rows[i]} :: 0 <= i < |rows| ==> Payable(rows[i])
  }

  function MakePayment(row: Row, date: Date, description: string): (p: Payment)
    requires Payable(row)
  {
    Payment(
      row[AccountHolder].value,
      row[Iban].value,
      row[Bic].value,
      row[Amount].value.n,
      Recurring,
      date,
      row[MandateRef].value,
      row[MandateDate].value,
      description)
  }

  /** One payment per row, in row order. */
  function PaymentsFor(rows: seq<Row>, date: Date, description: string): (ps: seq<Payment>)
    requires AllPayable(rows)
    ensures |ps| == |rows|
    ensures forall i :: 0 <= i < |rows| ==> ps[i] == MakePayment(rows[i], date, description)
  {
    if rows == [] then []
    else [MakePayment(rows[0], date, description)] + PaymentsFor(rows[1..], date, description)
  }

  /** Building one more row's payment appends it. */
  lemma PaymentsForSnoc(rows: seq<Row>, i: int, date: Date, description: string)
    requires 0 <= i < |rows| && AllPayable(rows[..i + 1])
    ensures AllPayable(rows[..i])
    ensures PaymentsFor(rows[..i + 1], date, description)
         == PaymentsFor(rows[..i], date, description) + [MakePayment(rows[i], date, description)]
  {
    assert forall j :: 0 <= j < i ==> rows[..i][j] == rows[..i + 1][j];
    assert rows[..i + 1][i] == rows[i];
  }

  /** The first `k` rows are payable once each passed validateMember and
      their `Beitrag` is typed. */
  lemma PrefixPayable(rows: seq<Row>, k: int)
    requires AllAmountTyped(rows) && 0 <= k <= |rows|
    requires forall j :: 0 <= j < k ==> CheckMember(rows[j]).Pass?
    ensures AllPayable(rows[..k])
  {
    forall j | 0 <= j < k ensures Payable(rows[..k][j]) {
      assert rows[..k][j] == rows[j];
      assert AmountTyped(rows[j]);
    }
  }

  /** What each payment carries: the fixed type, the shared date and
      description, the amount unchanged and the row's fields verbatim. */
  lemma PaymentFields(rows: seq<Row>, date: Date, description: string, i: int)
    requires AllPayable(rows)
    requires 0 <= i < |rows|
    ensures var p := PaymentsFor(rows, date, description)[i];
      && p.kind == "RCUR"
      && p.collectionDate == date
      && p.description == description
      && Some(Whole(p.amount)) == rows[i][Amount]
      && Some(p.name) == rows[i][AccountHolder]
      && Some(p.iban) == rows[i][Iban]
      && Some(p.bic) == rows[i][Bic]
      && Some(p.mandateId) == rows[i][MandateRef]
      && Some(p.mandateDate) == rows[i][MandateDate]
  {
  }

  /** The number of leading rows that pass validateMember. */
  function ValidPrefix(rows: seq<Row>): (k: nat)
    requires AllAmountTyped(rows)
    ensures k <= |rows|
    ensures forall j :: 0 <= j < k ==> CheckMember(rows[j]).Pass? && Payable(rows[j])
    ensures k < |rows| ==> CheckMember(rows[k]).Fail?
  {
    if rows == [] then 0
    else if CheckMember(rows[0]).Fail? then 0
    else 1 + ValidPrefix(rows[1..])
  }

  /** The sum of the payments' amounts, in cents. */
  function Total(ps: seq<Payment>): int {
    if ps == [] then 0 else Total(ps[..|ps| - 1]) + ps[|ps| - 1].amount
  }

  /** The total of the payments built from some rows is the sum of the rows'
      `Beitrag` values. */
  lemma {:induction false} TotalOfRows(rows: seq<Row>, date: Date, description: string)
    requires AllPayable(rows)
    ensures Total(PaymentsFor(rows, date, description)) == AmountSum(rows)
  {
    if rows != [] {
      var init := rows[..|rows| - 1];
      TotalOfRows(init, date, description);
      assert PaymentsFor(rows, date, description)[..|rows| - 1] == PaymentsFor(init, date, description);
    }
  }

  /** The sum of the `Beitrag` values of payable rows. */
  function AmountSum(rows: seq<Row>): int
    requires AllPayable(rows)
  {
    if rows == [] then 0 else AmountSum(rows[..|rows| - 1]) + rows[|rows| - 1][Amount].value.n
  }

  /** The batch of one run: the payments added so far, in order. */
  class Batch {
    var payments: seq<Payment>

    constructor ()
      ensures payments == []
    {
      payments := [];
    }

    /** The running total that `SepaDD` reports for the batch. */
    function BatchTotal(): int
      reads this
    {
      Total(payments)
    }

    /** `sepa.add_payment(payment)`: append to the batch. */
    method AddPayment(p: Payment)
      modifies this
      ensures payments == old(payments) + [p]
      ensures BatchTotal() == old(BatchTotal()) + p.amount
    {
      payments := payments + [p];
      assert payments[..|payments| - 1] == old(payments);
    }

    /** The loop of lines 88-104: validate each row in order and add its
        payment; the first invalid row stops the run before any later row is
        added. */
    method AddMembers(rows: seq<Row>, date: Date, phrase: string) returns (r: Outcome<MemberError>)
      requires AllAmountTyped(rows)
      requires Valid(date)
      modifies this
      ensures ValidPrefix(rows) <= |rows|
      ensures var k := ValidPrefix(rows);
        && payments == old(payments) + PaymentsFor(rows[..k], date, Description(phrase, date))
        && (r.Pass? <==> k == |rows|)
        && (k < |rows| ==> r == CheckMember(rows[k]))
    {
      var description := Description(phrase, date);
      var i := 0;
      PrefixPayable(rows, 0);
      while i < |rows|
        invariant 0 <= i <= |rows|
        invariant forall j :: 0 <= j < i ==> CheckMember(rows[j]).Pass?
        invariant AllPayable(rows[..i])
        invariant payments == old(payments) + PaymentsFor(rows[..i], date, description)
      {
        assert AmountTyped(rows[i]);
        var verdict := ValidateMember(rows[i]);
        if verdict.Fail? {
          assert ValidPrefix(rows) == i;
          return verdict;
        }
        PrefixPayable(rows, i + 1);
        PaymentsForSnoc(rows, i, date, description);
        AddPayment(MakePayment(rows[i], date, description));
        i := i + 1;
      }
      assert rows[..i] == rows;
      return Pass;
    }
  }
}
