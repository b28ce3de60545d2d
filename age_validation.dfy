/** Calendar dates of the proleptic ISO calendar, as java.time.LocalDate and
    the (year, month, day) fields of a JavaScript Date present them. */
module Calendar {

  datatype YearMonthDay = Date(year: int, month: int, day: int)

  predicate IsLeapYear(year: int) {
    year % 4 == 0 && (year % 100 != 0 || year % 400 == 0)
  }

  function DaysInMonth(year: int, month: int): int
    requires 1 <= month <= 12
  {
    if month == 2 then (if IsLeapYear(year) then 29 else 28)
    else if month == 4 || month == 6 || month == 9 || month == 11 then 30
    else 31
  }

  predicate IsValid(d: YearMonthDay) {
    1 <= d.month <= 12 && 1 <= d.day <= DaysInMonth(d.year, d.month)
  }

  /** A date that exists in the calendar, like every LocalDate. */
  type Date = d: YearMonthDay | IsValid(d) witness Date(2000, 1, 1)

  /** (month, day) of a comes before (month, day) of b within a year. */
  predicate MonthDayBefore(a: Date, b: Date) {
    a.month < b.month || (a.month == b.month && a.day < b.day)
  }

  /** a is an earlier day than b. */
  predicate Before(a: Date, b: Date) {
    a.year < b.year || (a.year == b.year && MonthDayBefore(a, b))
  }

  /** Age in whole years on day today of someone born on dob, counted by
      birthdays: the years between, less one while this year's birthday is
      still ahead. The reference definition the validators are held to. */
  function AgeInYears(dob: Date, today: Date): int {
    today.year - dob.year - (if MonthDayBefore(today, dob) then 1 else 0)
  }

  lemma AgeOfPastDateIsNatural(dob: Date, today: Date)
    requires !Before(today, dob)
    ensures AgeInYears(dob, today) >= 0
  {
  }
}

/** The bean-validation constraints @MinimumAge and @MaximumAge on a user's
    date of birth. "Now" is a parameter. */
module AgeValidation {
  import opened Wrappers
  import opened Calendar

  /** Bounds the User entity puts on its date of birth. */
  const UserMinimumAge := 13
  const UserMaximumAge := 120

  /** Java's int division, which truncates toward zero. */
  function JavaDiv(a: int, b: int): (q: int)
    requires b > 0
    ensures a >= 0 ==> q == a / b
    ensures a <= 0 ==> q <= 0
  {
    if a >= 0 then a / b else -((-a) / b)
  }

  /** Period.between(start, end).getYears(): the month count between the two
      dates, moved one month toward zero when the day of month disagrees with
      its sign, then divided by 12 with truncation. */
  function PeriodYears(start: Date, end: Date): int {
    var totalMonths := (end.year - start.year) * 12 + (end.month - start.month);
    var days := end.day - start.day;
    var months :=
      if totalMonths > 0 && days < 0 then totalMonths - 1
      else if totalMonths < 0 && days > 0 then totalMonths + 1
      else totalMonths;
    JavaDiv(months, 12)
  }

  /** For a date of birth not after today, Period's year count is the age in
      completed years. */
  lemma {:induction false} PeriodYearsIsAge(dob: Date, today: Date)
    requires !Before(today, dob)
    ensures PeriodYears(dob, today) == AgeInYears(dob, today)
  {
    var dy := today.year - dob.year;
    var totalMonths := dy * 12 + (today.month - dob.month);
    var days := today.day - dob.day;
    var months :=
      if totalMonths > 0 && days < 0 then totalMonths - 1
      else if totalMonths < 0 && days > 0 then totalMonths + 1
      else totalMonths;
    var age := AgeInYears(dob, today);
    // the adjusted month count lies in [12 * age, 12 * age + 11]
    assert 12 * age <= months <= 12 * age + 11;
    assert months >= 0;
    assert months / 12 == age;
  }

  /** A date of birth after today gives a year count of zero or less. */
  lemma {:induction false} PeriodYearsOfFutureDate(dob: Date, today: Date)
    requires Before(today, dob)
    ensures PeriodYears(dob, today) <= 0
  {
    var totalMonths := (today.year - dob.year) * 12 + (today.month - dob.month);
    assert totalMonths <= 0;
  }

  lemma PeriodYearsFacts(dob: Date, today: Date)
    ensures !Before(today, dob) ==> PeriodYears(dob, today) == AgeInYears(dob, today)
    ensures Before(today, dob) ==> PeriodYears(dob, today) <= 0
  {
    if Before(today, dob) {
      PeriodYearsOfFutureDate(dob, today);
    } else {
      PeriodYearsIsAge(dob, today);
    }
  }

  /** MinimumAgeValidator.isValid: no date of birth passes; otherwise the whole
      years from dob to today must reach minimumAge. */
  function MinimumAgeIsValid(minimumAge: int, dob: Option<Date>, today: Date): (ok: bool)
    ensures dob.None? ==> ok
    ensures dob.Some? && !Before(today, dob.value) ==>
      (ok <==> AgeInYears(dob.value, today) >= minimumAge)
    ensures dob.Some? && Before(today, dob.value) && ok ==> minimumAge <= 0
  {
    match dob
    case None => true
    case Some(d) =>
      PeriodYearsFacts(d, today);
      PeriodYears(d, today) >= minimumAge
  }

  /** MaximumAgeValidator.isValid: no date of birth passes; otherwise the whole
      years from dob to today must not exceed maxAge. */
  function MaximumAgeIsValid(maxAge: int, dob: Option<Date>, today: Date): (ok: bool)
    ensures dob.None? ==> ok
    ensures dob.Some? && !Before(today, dob.value) ==>
      (ok <==> AgeInYears(dob.value, today) <= maxAge)
    ensures dob.Some? && Before(today, dob.value) && maxAge >= 0 ==> ok
  {
    match dob
    case None => true
    case Some(d) =>
      PeriodYearsFacts(d, today);
      PeriodYears(d, today) <= maxAge
  }

  /** Lowering the minimum never rejects a date that passed. */
  lemma MinimumAgeMonotone(m: int, m': int, dob: Option<Date>, today: Date)
    requires m' <= m && MinimumAgeIsValid(m, dob, today)
    ensures MinimumAgeIsValid(m', dob, today)
  {
  }

  /** Raising the maximum never rejects a date that passed. */
  lemma MaximumAgeMonotone(m: int, m': int, dob: Option<Date>, today: Date)
    requires m <= m' && MaximumAgeIsValid(m, dob, today)
    ensures MaximumAgeIsValid(m', dob, today)
  {
  }

  /** With the User's bound of 13: on the 13th birthday the date of birth is
      accepted, on any earlier day of that year it is rejected. */
  lemma ThirteenthBirthday(dob: Date, today: Date)
    requires today.year == dob.year + UserMinimumAge
    ensures MinimumAgeIsValid(UserMinimumAge, Some(dob), today) <==> !MonthDayBefore(today, dob)
  {
  }

  /** With the User's bound of 120: 120 whole years pass, 121 do not. */
  lemma HundredTwentiethBirthday(dob: Date, today: Date)
    requires !Before(today, dob)
    ensures AgeInYears(dob, today) == UserMaximumAge ==> MaximumAgeIsValid(UserMaximumAge, Some(dob), today)
    ensures AgeInYears(dob, today) == UserMaximumAge + 1 ==> !MaximumAgeIsValid(UserMaximumAge, Some(dob), today)
  {
  }

  /** Someone born on 1 January 2005 is accepted on 1 January 2018 and rejected
      on 31 December 2017; someone born on 29 February 2004 turns 13 on
      1 March 2017, not on 28 February. */
  lemma MinimumAgeExamples()
    ensures MinimumAgeIsValid(13, Some(Date(2005, 1, 1)), Date(2018, 1, 1))
    ensures !MinimumAgeIsValid(13, Some(Date(2005, 1, 1)), Date(2017, 12, 31))
    ensures !MinimumAgeIsValid(13, Some(Date(2004, 2, 29)), Date(2017, 2, 28))
    ensures MinimumAgeIsValid(13, Some(Date(2004, 2, 29)), Date(2017, 3, 1))
  {
  }
}
