# Membership-fee direct-debit pipeline, modelled in Dafny

`mitgliedsbeitraege-xml.py` reads a club's member sheet and turns it into one
SEPA direct-debit batch. This project models that script's decision logic and
proves properties of it:

- **Collection date** (`Collection`). `determineCollectionDate` takes the
  first of the month, adds 32 days and snaps back to day 1. That gives the
  first of the next month. If the candidate is fewer than 10 days away, line 24
  runs. Dates follow Python's `datetime.date`: years 1 to 9999, leap years,
  `toordinal`. `date + timedelta` is modelled as stepping day by day, and it
  raises `OverflowError` past 9999-12-31. This step is proved to equal
  `fromordinal(toordinal(d) + n)`.
- **Table schema** (`MemberTable.ValidateInput`). The nine required columns
  must be present, and `Beitrag` must have dtype int64.
- **Per-member check** (`MemberTable.ValidateMember`). This checks six fields
  in a fixed order and stops at the first null one.
- **Active filter and mandate date** (`MemberTable.ActiveRows`,
  `MemberTable.StripMandateTime`). The filter keeps rows whose `Aktiv` is set.
  The projection strips the time from the mandate date with `.dt.date`.
- **Payment loop** (`Sepa.Batch.AddMembers`). `Sepa.Batch` stands in for
  sepaxml's `SepaDD`, and its `AddPayment` is `add_payment`.
- **Main block** (`Program.Run`, specified by `Program.Pipeline`). This runs
  lines 79-104 in order.

A "table" is an abstract pandas frame. It has a dtype per column, and each
row maps a column name to `Option<Value>`, where `None` is pandas' null.
`WellTyped` states what pandas guarantees of such a frame, for example that an
int64 column holds no nulls. The run date (`today`) and the configured
`sepa_description` are parameters.

Facts about the script that the model keeps as written:
- The lead time is the literal 10 at lines 23-24 (`LeadDays`). No option or
  setting changes it.
- Line 24 names `datetime.timedelte`, which the `datetime` module does not
  have. On that path the function raises `AttributeError` and returns no date,
  so the model returns `Failure(AttributeError("timedelte"))`, not
  `today + 10`.
- The payment loop (lines 93-95 and 99-100) copies IBAN, BIC, account holder,
  mandate reference and mandate date into the payment untrimmed.
- Every payment has the type `RCUR` (line 97).

## Model

| member | source | states |
|---|---|---|
| Calendar.DaysInMonth | mitgliedsbeitraege-xml.py:22 | Month lengths are 28 to 31 days; February has 29 days exactly in Gregorian leap years. |
| Calendar.NextDay | mitgliedsbeitraege-xml.py:22 | The next day is a valid date, its ordinal is one more, and it is later in calendar order. |
| Calendar.AddDays | mitgliedsbeitraege-xml.py:22 | Adding n days gives a valid date whose ordinal is exactly n more. |
| Calendar.Ordinal | mitgliedsbeitraege-xml.py:23 | `date.toordinal`: the day number counted from 0001-01-01, which is day 1, so it is at least 1. |
| Calendar.DiffDays | mitgliedsbeitraege-xml.py:23 | `collectionDate - today` in days. It is zero exactly for equal dates and positive exactly when the first date is later. |
| Calendar.OrdinalOrder | mitgliedsbeitraege-xml.py:23 | Calendar order equals ordinal order, and equal ordinals mean equal dates, so date subtraction is well defined. |
| Calendar.AddDaysByOrdinal | mitgliedsbeitraege-xml.py:22 | Day stepping gives the one valid date with the shifted ordinal, which is Python's `fromordinal(toordinal(d) + n)`. |
| Calendar.OrdinalWithinYear | mitgliedsbeitraege-xml.py:23 | A date's ordinal lies between the start and the end of its year. |
| Collection.FirstOfMonth | mitgliedsbeitraege-xml.py:22 | `replace(day=1)` keeps the year and month and sets day 1. |
| Collection.AddTimedelta | mitgliedsbeitraege-xml.py:22 | `d + timedelta(days=n)` gives a representable date exactly n days later, or raises OverflowError when the sum passes year 9999. |
| Collection.Candidate | mitgliedsbeitraege-xml.py:22 | The line-22 candidate is a representable first of a month, or OverflowError. CandidateIsNextMonthStart pins which month. |
| Collection.NextMonthStartOrdinal | mitgliedsbeitraege-xml.py:22 | The first of the next month comes right after the last day of this month. |
| Collection.CandidateIsNextMonthStart | mitgliedsbeitraege-xml.py:22 | The candidate is the first of the next month, with December rolling over into January of the next year. It is OverflowError when `today` is in December 9999. |
| Collection.CandidateDistance | mitgliedsbeitraege-xml.py:22-23 | The candidate is strictly after `today` and exactly (days in month − day + 1) days away, which is between 1 and 31. |
| Collection.DetermineCollectionDate | mitgliedsbeitraege-xml.py:21-26 | Outside December 9999, the result is a date exactly when `today.day + 10 <= days in month + 1`. That date is the next month's first, with day 1, and it is 10 to 31 days ahead. Otherwise, outside December 9999, the result is `AttributeError("timedelte")`. Throughout December 9999, the result is OverflowError from line 22. |
| Collection.LateInLongMonthFails | mitgliedsbeitraege-xml.py:23-24 | Any `today` on or after the 23rd of a 31-day month fails with the misspelling error. The exception is December 9999, where line 22 has already raised OverflowError, so the lemma excludes it. |
| Collection.TimedelteExample | mitgliedsbeitraege-xml.py:22-24 | On 2026-01-25, seven days before 2026-02-01, the code as written fails with the misspelling error. The corrected rule gives 2026-02-04. |
| Collection.DetermineCollectionDateMonotone | mitgliedsbeitraege-xml.py:21-26 | Among run dates that get a date, a later `today` never gets an earlier collection date. |
| Collection.TooCloseStaysInRange | mitgliedsbeitraege-xml.py:23-24 | When the candidate is too close, `today + 10` falls early in the candidate's month. |
| Collection.IntendedCollectionDate | mitgliedsbeitraege-xml.py:22-24 | The corrected rule (`timedelta`, not the code's behaviour) keeps the next month's first when it is at least 10 days away. Otherwise it returns exactly `today + 10`. Every date it returns is representable and at least 10 days ahead. It fails only with OverflowError, and only in December 9999. |
| Collection.IntendedExtendsWritten | mitgliedsbeitraege-xml.py:23-26 | The corrected rule agrees with the written one wherever the written one returns a date. |
| Collection.IntendedMonotoneNextDay | mitgliedsbeitraege-xml.py:22-24 | Under the corrected rule, moving `today` forward a day never moves the collection date back. |
| MemberTable.NotSubsetLeavesDifference | mitgliedsbeitraege-xml.py:31-32 | If the required set is not a subset of the columns, the set difference is non-empty. |
| MemberTable.ValidateInput | mitgliedsbeitraege-xml.py:28-36 | The check passes iff all nine columns are present and `Beitrag` is int64. The missing set is exactly required minus present, and it is non-empty. A table without `Beitrag` reports the missing column, not a dtype error. |
| MemberTable.ValidatedRows | mitgliedsbeitraege-xml.py:34 | After the check passes, every row has the required columns and a non-null integer `Beitrag`. |
| MemberTable.CriticalFieldsSetIff | mitgliedsbeitraege-xml.py:14-15 | The six-field list and the six named fields are the same check. |
| MemberTable.FirstNull | mitgliedsbeitraege-xml.py:16-17 | The fields before the returned index are non-null, and the field at that index is null. |
| MemberTable.CheckMember | mitgliedsbeitraege-xml.py:13-19 | A member passes iff none of the six fields is null. A failure names the first null field, in the order Datum SEPA Mandat, IBAN, BIC, Kontoinhaber, Beitrag, Mandatsreferenz, together with the member's `Vorname` and `Nachname`. |
| MemberTable.ValidateMember | mitgliedsbeitraege-xml.py:13-19 | The loop with early exit returns exactly the verdict of CheckMember. |
| MemberTable.ActiveRows | mitgliedsbeitraege-xml.py:81 | Every kept row comes from the input and has a non-null `Aktiv`. |
| MemberTable.ActiveRowsAppend | mitgliedsbeitraege-xml.py:81 | Filtering commutes with concatenation, so the kept rows stay in their original order. |
| MemberTable.ActiveRowsCount | mitgliedsbeitraege-xml.py:81 | Each row with any `Aktiv` value is kept as often as it occurs, and no other row is kept. |
| MemberTable.ActiveRowsIdempotent | mitgliedsbeitraege-xml.py:81 | Filtering twice gives the same rows as filtering once. |
| MemberTable.StripMandateTime | mitgliedsbeitraege-xml.py:82 | `.dt.date` succeeds iff the mandate column is datetime64. Timestamps become their date, nulls stay null, and all other cells are unchanged. |
| MemberTable.StripMandateTimeWellTyped | mitgliedsbeitraege-xml.py:82 | The projected frame is still well typed, and no time of day is left in the mandate column. |
| Sepa.MonthName | mitgliedsbeitraege-xml.py:10-11 | `MONTHS[month-1]` is within bounds for every month 1 to 12 and is one of the twelve names. |
| Sepa.DecimalString | mitgliedsbeitraege-xml.py:101 | `str(year)` gives decimal digits with no leading zero. |
| Sepa.DecimalRoundTrip | mitgliedsbeitraege-xml.py:101 | The written year reads back as the same number. |
| Sepa.Description | mitgliedsbeitraege-xml.py:101 | The f-string `"{phrase} {month name} {year}"`. DescriptionParts states its layout. |
| Sepa.DescriptionParts | mitgliedsbeitraege-xml.py:101 | The description is the configured phrase, a space, the collection month's name, a space and the year. Its length is the sum of the three parts plus two, and the year reads back exactly. |
| Sepa.MakePayment | mitgliedsbeitraege-xml.py:92-102 | The payment dict built from one row. PaymentFields states its fields. |
| Sepa.PaymentsFor | mitgliedsbeitraege-xml.py:92-102 | There is one payment per row, in row order. |
| Sepa.PaymentsForSnoc | mitgliedsbeitraege-xml.py:88-104 | One more row appends exactly its payment. |
| Sepa.PaymentFields | mitgliedsbeitraege-xml.py:92-102 | Each payment has type `RCUR`, the shared collection date and description, and `amount` equal to `Beitrag`. Account holder, IBAN, BIC, mandate reference and mandate date are copied verbatim. |
| Sepa.ValidPrefix | mitgliedsbeitraege-xml.py:88-90 | Every row before the returned index passes validateMember, and the row at that index fails it. |
| Sepa.PrefixPayable | mitgliedsbeitraege-xml.py:90-96 | Rows that passed validateMember and have a typed `Beitrag` can be turned into payments. |
| Sepa.Total | mitgliedsbeitraege-xml.py:96 | The sum of the payments' amounts in cents, used as the batch total. TotalOfRows relates it to `Beitrag`. |
| Sepa.TotalOfRows | mitgliedsbeitraege-xml.py:96 | The batch total is the sum of the rows' `Beitrag` values, in cents. |
| Sepa.Batch.constructor | mitgliedsbeitraege-xml.py:76 | A new batch holds no payments. |
| Sepa.Batch.BatchTotal | mitgliedsbeitraege-xml.py:104 | The batch's running total, which stands in for `_batch_totals`. AddPayment raises it by each payment's amount. |
| Sepa.Batch.AddPayment | mitgliedsbeitraege-xml.py:104 | `add_payment` appends the payment and raises the running total by its amount. |
| Sepa.Batch.AddMembers | mitgliedsbeitraege-xml.py:88-104 | The batch gains exactly the payments of the leading valid rows, in order. The loop passes iff every row is valid; otherwise it returns the first invalid row's error, and no later row is added. |
| Program.ActiveTable | mitgliedsbeitraege-xml.py:81 | The filtered frame keeps the dtypes and stays well typed. |
| Program.PreparedRows | mitgliedsbeitraege-xml.py:81-82 | After filtering and projection, every row is checked exactly as its original row. |
| Program.FirstNullAgrees | mitgliedsbeitraege-xml.py:16-17 | Rows with the same null pattern have the same first null field. |
| Program.ValidPrefixAgrees | mitgliedsbeitraege-xml.py:88-90 | Rows that validateMember judges alike stop the loop at the same place. |
| Program.Pipeline | mitgliedsbeitraege-xml.py:79-104 | The main block as a function, and the specification of Run: schema check, filter, projection, collection date, then the loop. FailFast, SuccessfulRun, MissingColumnsReported and RunTotal state its properties. |
| Program.Collect | mitgliedsbeitraege-xml.py:88-104 | The loop's outcome is a success iff every row passes validateMember, and then it has one payment per row. Otherwise it is the error of a row before which every row passed, which is the first failing row. |
| Program.FillBatch | mitgliedsbeitraege-xml.py:88-104 | Filling a fresh batch gives either all payments or the first invalid member's error. |
| Program.Run | mitgliedsbeitraege-xml.py:79-104 | The main block computes exactly Pipeline: schema check, filter, projection, collection date, then the fail-fast loop. |
| Program.MandatesStamped | mitgliedsbeitraege-xml.py:82-90 | Once `.dt.date` has accepted the column, every member that passed validateMember has a real timestamp (not NaT) as mandate date. |
| Program.MissingColumnsReported | mitgliedsbeitraege-xml.py:31-33 | A table with missing columns stops the run with exactly the missing set, whatever else is wrong with it. |
| Program.FailFast | mitgliedsbeitraege-xml.py:88-90 | Given a valid table and a date, the run succeeds iff every active member is valid. Otherwise it fails with the first invalid active member's error. |
| Program.SuccessfulRun | mitgliedsbeitraege-xml.py:81-104 | A successful run has one payment per active row, in order. Each has type `RCUR`, the next month's first as due date, and the shared description. `amount` is `Beitrag`, the other fields are verbatim, and the mandate date is a non-null timestamp with its time removed. The total is the sum of `Beitrag`. |
| Program.RunTotal | mitgliedsbeitraege-xml.py:96-104 | A successful run has as many payments as active members, and its total is the sum of their `Beitrag` values. |
| Program.AmountSumAgrees | mitgliedsbeitraege-xml.py:96 | Rows with equal `Beitrag` cells have equal sums. |
| Scenario.TwoActiveMembers | mitgliedsbeitraege-xml.py:81-104 | Two active members paying 2500 and 1999 cents plus one inactive member give two payments totalling 4499 cents. |
| Scenario.BlankMandateReference | mitgliedsbeitraege-xml.py:13-19 | A member with a blank Mandatsreferenz stops the run with an error naming that field, `Max` and `Beispiel`. |

## Left out

- Command-line parsing, the file-existence checks, TOML loading and the console messages (lines 39-64, 84, 119-123): these are I/O glue.
- The creditor configuration and the `SepaDD` constructor arguments (lines 66-76): `Sepa.Batch` models only the list of payments that `add_payment` fills.
- `pd.read_excel` (line 78): the table is an abstract value. Dtype inference is not modelled; `WellTyped` states what the model assumes pandas delivers.
- `export(validate=True)`, XML serialisation, schema validation and the `ValidationError`/`TypeError` handlers (lines 106-113): this is library behaviour whose source is not part of this model.
- The total display through `sepa._batch_totals` and `/100:.2f` (line 115): it reads library internals and formats a float. The batch total is modelled as `Sepa.Total`, the integer sum of the amounts.
- Writing the XML file and echoing it (lines 117-123): I/O.
- Reading the clock: `today` is a parameter. The source calls `date.today()` up to three times (lines 22-24); the model reads it once, so a run that crosses midnight is not modelled.
- `sys.exit(1)`: every exit is an error value. After a failing member, `Sepa.Batch.AddMembers` returns the error and the batch keeps the payments added before it. The program never uses those payments.
- `sepa_description` becomes a string. `str()` of another TOML type is not modelled.
- The model assumes the configuration has a `sepa_description` key. Without it, line 101 raises KeyError at the first active member that passes validateMember, and no file is written. With no such member, line 101 never runs and the key is never read. `Program.Pipeline` takes the phrase as a parameter, so it does not capture that KeyError.
- A missing column raises `KeyError` in `validateMember`. This path cannot occur after `validateInput`, so `ValidateMember` requires the columns to be present.
- `SettingWithCopyWarning` and pandas index labels after the filter: they do not affect the payments.

## Findings

| source | as written | input that shows it | evidently intended | confidence | as-written member | corrected member |
|---|---|---|---|---|---|---|
| mitgliedsbeitraege-xml.py:24 | `datetime.timedelte(days=10)`, an attribute the `datetime` module lacks, so the branch raises AttributeError | today = 2026-01-25: the candidate 2026-02-01 is 7 days away, so line 24 runs and no date is returned | `datetime.timedelta(days=10)`, giving `today + 10` (2026-02-04) | high, not executed | Collection.TimedelteExample | Collection.IntendedCollectionDate |

`Program.Pipeline` keeps the rule as written, because it models what the program does. The corrected rule is proved to agree with it wherever the written rule returns a date (`Collection.IntendedExtendsWritten`). Where the written rule raises AttributeError, the corrected rule gives exactly `today + 10`. In December 9999 both rules fail with OverflowError. It is always at least 10 days ahead and is monotone from day to day.
