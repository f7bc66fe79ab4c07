/** The collection-date rule of mitgliedsbeitraege-xml.py
    (`determineCollectionDate`), with the run date passed in. */
module Collection {
  import opened Wrappers
  import opened Calendar

  /** The minimum number of days between the run and the collection. */
  const LeadDays := 10

  /** The offset added to the first of the month to reach the next month. */
  const MonthStep := 32

  /** The exceptions the rule can raise. */
  datatype DateError =
    | OverflowError               // `date + timedelta` beyond year 9999
    | AttributeError(name: string) // lookup of a name the `datetime` module lacks

  /** `d.replace(day=1)`. */
  function FirstOfMonth(d: Date): (r: Date)
    requires Valid(d)
    ensures Valid(r) && r.year == d.year && r.month == d.month && r.day == 1
  {
    d.(day := 1)
  }

  /** `d + timedelta(days=n)`: Python raises OverflowError when the sum
      leaves the representable range. */
  function AddTimedelta(d: Date, n: nat): (r: Result<Date, DateError>)
    requires InRange(d)
    ensures r.Success? ==> InRange(r.value) && DiffDays(r.value, d) == n
    ensures r.Failure? ==> r.error == OverflowError && AddDays(d, n).year > MaxYear
  {
    var s := AddDays(d, n);
    if s.year <= MaxYear then Success(s) else Failure(OverflowError)
  }

  /** Reference definition: the first day of the month after `d`. */
  function NextMonthStart(d: Date): Date {
    if d.month == 12 then Date(d.year + 1, 1, 1) else Date(d.year, d.month + 1, 1)
  }

  /** Whether `d` lies in the last month Python can represent. */
  predicate InLastMonth(d: Date) {
    d.year == MaxYear && d.month == 12
  }

  /** Line 22: `(today.replace(day=1) + timedelta(days=32)).replace(day=1)`. */
  function Candidate(today: Date): (r: Result<Date, DateError>)
    requires InRange(today)
    ensures r.Success? ==> InRange(r.value) && r.value.day == 1
    ensures r.Failure? ==> r.error == OverflowError
  {
    match AddTimedelta(FirstOfMonth(today), MonthStep)
    case Success(c) => Success(FirstOfMonth(c))
    case Failure(e) => Failure(e)
  }

  /** The ordinal of the next month's first day is one past the last day of
      this month. */
  lemma NextMonthStartOrdinal(d: Date)
    requires Valid(d)
    ensures Valid(NextMonthStart(d))
    ensures Ordinal(NextMonthStart(d)) == Ordinal(FirstOfMonth(d)) + DaysInMonth(d.year, d.month)
  {
    var last := d.(day := DaysInMonth(d.year, d.month));
    assert NextDay(last) == NextMonthStart(d);
  }

  /** Line 22 computes the first of the next month; only from December 9999
      does the intermediate sum leave the representable range. */
  lemma CandidateIsNextMonthStart(today: Date)
    requires InRange(today)
    ensures Candidate(today) ==
      if InLastMonth(today) then Failure(OverflowError) else Success(NextMonthStart(today))
  {
    var first := FirstOfMonth(today);
    var n := NextMonthStart(today);
    NextMonthStartOrdinal(today);
    var landing := n.(day := MonthStep + 1 - DaysInMonth(today.year, today.month));
    assert Valid(landing);
    assert Ordinal(landing) == Ordinal(first) + MonthStep;
    AddDaysByOrdinal(first, MonthStep, landing);
    assert FirstOfMonth(landing) == n;
  }

  /** The candidate lies strictly after `today`, at most 31 days later, and
      is exactly as many days away as are left in today's month, counting today. */
  lemma CandidateDistance(today: Date)
    requires InRange(today)
    ensures !InLastMonth(today) ==> Candidate(today).Success?
    ensures !InLastMonth(today) ==> var c := Candidate(today).value;
      && InRange(c)
      && Before(today, c)
      && DiffDays(c, today) == DaysInMonth(today.year, today.month) - today.day + 1
      && 1 <= DiffDays(c, today) <= 31
  {
    CandidateIsNextMonthStart(today);
    if !InLastMonth(today) {
      NextMonthStartOrdinal(today);
      OrdinalOrder(today, NextMonthStart(today));
    }
  }

  /** determineCollectionDate as written (lines 21-26). The lead time is the
      constant 10. When the candidate is closer than that, line 24 looks up
      `datetime.timedelte`, which does not exist, so no date is returned. */
  function DetermineCollectionDate(today: Date): (r: Result<Date, DateError>)
    requires InRange(today)
    ensures r.Success? <==>
      !InLastMonth(today) && today.day + LeadDays <= DaysInMonth(today.year, today.month) + 1
    ensures r.Success? ==>
      && r.value == NextMonthStart(today) && r.value.day == 1 && InRange(r.value)
      && LeadDays <= DiffDays(r.value, today) <= 31
    ensures r == Failure(AttributeError("timedelte")) <==>
      !InLastMonth(today) && today.day + LeadDays > DaysInMonth(today.year, today.month) + 1
    ensures r == Failure(OverflowError) <==> InLastMonth(today)
  {
    CandidateIsNextMonthStart(today);
    CandidateDistance(today);
    match Candidate(today)
    case Failure(e) => Failure(e)
    case Success(c) =>
      if DiffDays(c, today) < LeadDays then Failure(AttributeError("timedelte"))
      else Success(c)
  }

  /** On the 23rd or later of a 31-day month the candidate is at most nine
      days away and the rule fails. */
  lemma LateInLongMonthFails(today: Date)
    requires InRange(today) && !InLastMonth(today)
    requires DaysInMonth(today.year, today.month) == 31 && today.day >= 23
    ensures DetermineCollectionDate(today) == Failure(AttributeError("timedelte"))
  {
  }

  /** Where the rule returns, later run dates never give earlier collection
      dates. */
  lemma DetermineCollectionDateMonotone(t1: Date, t2: Date)
    requires InRange(t1) && InRange(t2) && Ordinal(t1) <= Ordinal(t2)
    requires DetermineCollectionDate(t1).Success? && DetermineCollectionDate(t2).Success?
    ensures Ordinal(DetermineCollectionDate(t1).value) <= Ordinal(DetermineCollectionDate(t2).value)
  {
    OrdinalOrder(t1, t2);
    var c1, c2 := NextMonthStart(t1), NextMonthStart(t2);
    assert !Before(c2, c1);
    OrdinalOrder(c1, c2);
  }

  /** When the candidate is too close, ten days after `today` is a day early
      in the candidate's month, so it is still representable. */
  lemma TooCloseStaysInRange(today: Date)
    requires InRange(today) && !InLastMonth(today)
    requires DiffDays(NextMonthStart(today), today) < LeadDays
    ensures AddDays(today, LeadDays) ==
      NextMonthStart(today).(day := 1 + LeadDays - DiffDays(NextMonthStart(today), today))
  {
    CandidateDistance(today);
    CandidateIsNextMonthStart(today);
    var c := NextMonthStart(today);
    var late := c.(day := 1 + LeadDays - DiffDays(c, today));
    assert Ordinal(late) == Ordinal(today) + LeadDays;
    AddDaysByOrdinal(today, LeadDays, late);
  }

  /** What line 24 evidently means (`timedelta`): move a too-close candidate
      to 10 days after `today`. This is NOT the behaviour of the code. */
  function IntendedCollectionDate(today: Date): (r: Result<Date, DateError>)
    requires InRange(today)
    ensures r.Success? ==> InRange(r.value) && DiffDays(r.value, today) >= LeadDays
    ensures r.Failure? <==> InLastMonth(today)
    ensures r.Failure? ==> r.error == OverflowError
    ensures r.Success? && DiffDays(NextMonthStart(today), today) < LeadDays ==>
      r.value == AddDays(today, LeadDays)
    ensures r.Success? && DiffDays(NextMonthStart(today), today) >= LeadDays ==>
      r.value == NextMonthStart(today)
  {
    CandidateDistance(today);
    CandidateIsNextMonthStart(today);
    if InLastMonth(today) then Failure(OverflowError)
    else
      var c := NextMonthStart(today);
      if DiffDays(c, today) < LeadDays then
        TooCloseStaysInRange(today);
        AddTimedelta(today, LeadDays)
      else Success(c)
  }

  /** The intended rule agrees with the written one wherever the written one
      returns a date. */
  lemma IntendedExtendsWritten(today: Date)
    requires InRange(today) && DetermineCollectionDate(today).Success?
    ensures IntendedCollectionDate(today) == DetermineCollectionDate(today)
  {
  }

  /** On 2026-01-25 the candidate 2026-02-01 is seven days away: the code as
      written raises, the intended rule gives 2026-02-04. */
  lemma TimedelteExample()
    ensures DetermineCollectionDate(Date(2026, 1, 25)) == Failure(AttributeError("timedelte"))
    ensures IntendedCollectionDate(Date(2026, 1, 25)) == Success(Date(2026, 2, 4))
  {
    var today := Date(2026, 1, 25);
    CandidateDistance(today);
    TooCloseStaysInRange(today);
  }

  /** The intended rule is monotone from one day to the next. */
  lemma IntendedMonotoneNextDay(today: Date)
    requires InRange(today) && InRange(NextDay(today))
    requires IntendedCollectionDate(today).Success? && IntendedCollectionDate(NextDay(today)).Success?
    ensures Ordinal(IntendedCollectionDate(today).value) <= Ordinal(IntendedCollectionDate(NextDay(today)).value)
  {
    var t2 := NextDay(today);
    CandidateDistance(today);
    CandidateDistance(t2);
    CandidateIsNextMonthStart(today);
    CandidateIsNextMonthStart(t2);
    if DiffDays(NextMonthStart(today), today) >= LeadDays {
      assert today.day < DaysInMonth(today.year, today.month);
      assert NextMonthStart(today) == NextMonthStart(t2);
    }
  }
}
