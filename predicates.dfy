/** The form-value predicates of the frontend validation layer and the
    year-difference helper behind its age checks.

    A form value is null or a string. Parsing a date string and converting a
    string to a number are opaque parameters (None is an invalid date or
    NaN); today is a parameter. */
module Predicates {
  import opened Wrappers
  import opened Calendar
  import AgeValidation

  /** A form field's value: null (an absent field) or a string. */
  datatype Value = Null | Text(s: string)

  /** How `new Date(x)` reads null: the epoch, a valid date. */
  const Epoch: Date := Date(1970, 1, 1)

  /** The day a value denotes as a date, or None for an invalid date. */
  function ToDate(v: Value, parse: string -> Option<Date>): Option<Date> {
    match v
    case Null => Some(Epoch)
    case Text(s) => parse(s)
  }

  /** The characters JavaScript's trim removes: white space and line
      terminators. */
  predicate IsWhiteSpace(c: char) {
    || c == '\t' || c == '\n' || c == '\U{B}' || c == '\U{C}' || c == '\r' || c == ' '
    || c == '\U{A0}' || c == '\U{1680}' || ('\U{2000}' <= c <= '\U{200A}')
    || c == '\U{2028}' || c == '\U{2029}' || c == '\U{202F}' || c == '\U{205F}'
    || c == '\U{3000}' || c == '\U{FEFF}'
  }

  predicate AllWhiteSpace(s: string) {
    forall i :: 0 <= i < |s| ==> IsWhiteSpace(s[i])
  }

  function TrimStart(s: string): (t: string)
    ensures |t| <= |s|
    ensures t == s[|s| - |t|..]
    ensures |t| > 0 ==> !IsWhiteSpace(t[0])
  {
    if |s| > 0 && IsWhiteSpace(s[0]) then TrimStart(s[1..]) else s
  }

  function TrimEnd(s: string): (t: string)
    ensures |t| <= |s|
    ensures t == s[..|t|]
    ensures |t| > 0 ==> !IsWhiteSpace(t[|t| - 1])
  {
    if |s| > 0 && IsWhiteSpace(s[|s| - 1]) then TrimEnd(s[..|s| - 1]) else s
  }

  /** String.prototype.trim. */
  function Trim(s: string): string {
    TrimEnd(TrimStart(s))
  }

  lemma {:induction false} TrimStartOfWhiteSpace(s: string)
    requires AllWhiteSpace(s)
    ensures TrimStart(s) == ""
  {
    if |s| > 0 {
      TrimStartOfWhiteSpace(s[1..]);
    }
  }

  lemma {:induction false} TrimStartKeepsNonWhiteSpace(s: string)
    requires !AllWhiteSpace(s)
    ensures !AllWhiteSpace(TrimStart(s))
  {
    if |s| > 0 && IsWhiteSpace(s[0]) {
      var i :| 0 <= i < |s| && !IsWhiteSpace(s[i]);
      assert s[1..][i - 1] == s[i];
      TrimStartKeepsNonWhiteSpace(s[1..]);
    }
  }

  lemma {:induction false} TrimEndKeepsNonWhiteSpace(s: string)
    requires !AllWhiteSpace(s)
    ensures TrimEnd(s) != ""
  {
    if |s| > 0 && IsWhiteSpace(s[|s| - 1]) {
      var i :| 0 <= i < |s| && !IsWhiteSpace(s[i]);
      assert s[..|s| - 1][i] == s[i];
      TrimEndKeepsNonWhiteSpace(s[..|s| - 1]);
    }
  }

  /** Trimming leaves nothing exactly when the string is all white space. */
  lemma TrimEmptyIffAllWhiteSpace(s: string)
    ensures Trim(s) == "" <==> AllWhiteSpace(s)
  {
    if AllWhiteSpace(s) {
      TrimStartOfWhiteSpace(s);
    } else {
      TrimStartKeepsNonWhiteSpace(s);
      TrimEndKeepsNonWhiteSpace(TrimStart(s));
    }
  }

  lemma NotEmptyAfterTrimIffNotAllWhiteSpace()
    ensures forall v: Value :: v.Text? ==> (NotEmpty()(Text(Trim(v.s))) <==> !AllWhiteSpace(v.s))
  {
    forall v: Value | v.Text?
      ensures NotEmpty()(Text(Trim(v.s))) <==> !AllWhiteSpace(v.s)
    {
      TrimEmptyIffAllWhiteSpace(v.s);
    }
  }

  // ---------------------------------------------------------------------

  /** yearsDiffFromToday: zero for a date not before today, otherwise the
      whole years from date to today. It counts the same years as
      java.time's Period, so the frontend and the backend agree on ages. */
  function YearsDiffFromToday(date: Date, today: Date): (years: int)
    ensures years >= 0
    ensures !Before(date, today) ==> years == 0
    ensures Before(date, today) ==> years == AgeValidation.PeriodYears(date, today)
    ensures Before(date, today) ==> years == AgeInYears(date, today)
  {
    if !Before(date, today) then 0
    else
      var yearDiff := today.year - date.year;
      var monthDiff := today.month - date.month;
      var dayDiff := today.day - date.day;
      AgeValidation.PeriodYearsIsAge(date, today);
      if monthDiff < 0 || (monthDiff == 0 && dayDiff < 0) then yearDiff - 1 else yearDiff
  }

  /** notNull: holds for every string. */
  function NotNull(): (p: Value -> bool)
    ensures forall v :: p(v) <==> v != Null
  {
    v => v != Null
  }

  /** notEmpty: strict inequality with "", so null passes. */
  function NotEmpty(): (p: Value -> bool)
    ensures forall v :: p(v) <==> v != Text("")
  {
    v => v != Text("")
  }

  /** notBlank: a string with a character that is not white space. */
  function NotBlank(): (p: Value -> bool)
    ensures forall v :: p(v) <==> v.Text? && !AllWhiteSpace(v.s)
  {
    NotEmptyAfterTrimIffNotAllWhiteSpace();
    (v: Value) => v != Null && NotEmpty()(Text(Trim(v.s)))
  }

  /** greaterThan / lessThan: a string whose numeric reading is defined
      (not NaN) and beyond the target; never null. */
  function GreaterThan(target: int, toNumber: string -> Option<int>): (p: Value -> bool)
    ensures forall v :: p(v) <==> v.Text? && toNumber(v.s).Some? && toNumber(v.s).value > target
  {
    v => v != Null && match toNumber(v.s) case None => false case Some(n) => n > target
  }

  function LessThan(target: int, toNumber: string -> Option<int>): (p: Value -> bool)
    ensures forall v :: p(v) <==> v.Text? && toNumber(v.s).Some? && toNumber(v.s).value < target
  {
    v => v != Null && match toNumber(v.s) case None => false case Some(n) => n < target
  }

  /** matches: a string the pattern's test accepts; never null. */
  function Matches(test: string -> bool): (p: Value -> bool)
    ensures forall v :: p(v) <==> v.Text? && test(v.s)
  {
    v => v != Null && test(v.s)
  }

  function OneOf(allowed: seq<Value>): (p: Value -> bool)
    ensures forall v :: p(v) <==> v in allowed
  {
    v => v in allowed
  }

  function NoneOf(disallowed: seq<Value>): (p: Value -> bool)
    ensures forall v :: p(v) <==> v !in disallowed
  {
    v => v !in disallowed
  }

  /** minLength / maxLength: a string of at least / at most n characters;
      never null. */
  function MinLength(n: int): (p: Value -> bool)
    ensures forall v :: p(v) <==> v.Text? && |v.s| >= n
  {
    v => v != Null && |v.s| >= n
  }

  function MaxLength(n: int): (p: Value -> bool)
    ensures forall v :: p(v) <==> v.Text? && |v.s| <= n
  {
    v => v != Null && |v.s| <= n
  }

  /** isValidIsoDate: the value reads as a date (null does, as the epoch). */
  function IsValidIsoDate(parse: string -> Option<Date>): (p: Value -> bool)
    ensures forall v :: p(v) <==> ToDate(v, parse).Some?
    ensures p(Null)
  {
    (v: Value) => match v case Null => true case Text(s) => parse(s).Some?
  }

  /** minAge / maxAge: a valid date whose whole years to today reach /
      do not exceed the bound; a date not before today counts zero years. So
      a date before today passes minAge(y) exactly when the age in completed
      years is at least y, and any other date only when y <= 0. */
  function MinAge(years: int, parse: string -> Option<Date>, today: Date): (p: Value -> bool)
    ensures forall v :: p(v) <==> ToDate(v, parse).Some? && YearsDiffFromToday(ToDate(v, parse).value, today) >= years
    ensures forall s :: parse(s).None? ==> !p(Text(s))
    ensures forall s :: parse(s).Some? && Before(parse(s).value, today) ==>
      (p(Text(s)) <==> AgeInYears(parse(s).value, today) >= years)
    ensures forall s :: parse(s).Some? && !Before(parse(s).value, today) ==>
      (p(Text(s)) <==> years <= 0)
  {
    (v: Value) => match ToDate(v, parse) case None => false case Some(d) => YearsDiffFromToday(d, today) >= years
  }

  function MaxAge(years: int, parse: string -> Option<Date>, today: Date): (p: Value -> bool)
    ensures forall v :: p(v) <==> ToDate(v, parse).Some? && YearsDiffFromToday(ToDate(v, parse).value, today) <= years
    ensures forall s :: parse(s).None? ==> !p(Text(s))
    ensures forall s :: parse(s).Some? && Before(parse(s).value, today) ==>
      (p(Text(s)) <==> AgeInYears(parse(s).value, today) <= years)
    ensures forall s :: parse(s).Some? && !Before(parse(s).value, today) ==>
      (p(Text(s)) <==> years >= 0)
  {
    (v: Value) => match ToDate(v, parse) case None => false case Some(d) => YearsDiffFromToday(d, today) <= years
  }

  /** inPast: a valid date on or before today. A date string names midnight
      of its day, which is earlier than the present moment on that day. */
  function InPast(parse: string -> Option<Date>, today: Date): (p: Value -> bool)
    ensures forall v :: p(v) <==> ToDate(v, parse).Some? && !Before(today, ToDate(v, parse).value)
  {
    (v: Value) => match ToDate(v, parse) case None => false case Some(d) => !Before(today, d)
  }

  /** equals: loose equality, which on null and strings is plain equality. */
  function Equals(target: Value): (p: Value -> bool)
    ensures forall v :: p(v) <==> v == target
  {
    v => v == target
  }

  /** notEquals as written: the same test as equals. */
  function NotEqualsAsWritten(target: Value): (p: Value -> bool)
    ensures forall v :: p(v) == Equals(target)(v)
  {
    v => v == target
  }

  /** notEquals as intended: the complement of equals. */
  function NotEquals(target: Value): (p: Value -> bool)
    ensures forall v :: p(v) <==> !Equals(target)(v)
  {
    v => v != target
  }

  // ---------------------------------------------------------------------
  // Properties

  /** Null and whitespace-only strings are blank; greaterThan and lessThan
      reject null. */
  lemma NullAndWhiteSpaceRejected(s: string, target: int, toNumber: string -> Option<int>)
    requires AllWhiteSpace(s)
    ensures !NotBlank()(Null) && !NotBlank()(Text(s))
    ensures !GreaterThan(target, toNumber)(Null) && !LessThan(target, toNumber)(Null)
  {
    var blank := Text(s);
    assert blank.Text? && AllWhiteSpace(blank.s);
    assert !NotBlank()(blank);
  }

  /** oneOf and noneOf over the same list are complements. */
  lemma OneOfNoneOfComplement(values: seq<Value>, v: Value)
    ensures OneOf(values)(v) != NoneOf(values)(v)
  {
  }

  /** No value is both greater and less than one target. */
  lemma GreaterThanLessThanExclusive(target: int, toNumber: string -> Option<int>, v: Value)
    ensures !(GreaterThan(target, toNumber)(v) && LessThan(target, toNumber)(v))
  {
  }

  /** minLength(n) and maxLength(m) together admit exactly the strings whose
      length lies in [n, m]. */
  lemma LengthBounds(n: int, m: int, v: Value)
    ensures MinLength(n)(v) && MaxLength(m)(v) <==> v.Text? && n <= |v.s| <= m
  {
  }

  /** The frontend's minAge and maxAge give, for a date of birth before today,
      the verdicts of the backend's @MinimumAge and @MaximumAge validators
      with the same bound. */
  lemma {:induction false} AgeChecksAgreeWithBackend(years: int, parse: string -> Option<Date>, today: Date, s: string)
    requires parse(s).Some? && Before(parse(s).value, today)
    ensures MinAge(years, parse, today)(Text(s)) == AgeValidation.MinimumAgeIsValid(years, parse(s), today)
    ensures MaxAge(years, parse, today)(Text(s)) == AgeValidation.MaximumAgeIsValid(years, parse(s), today)
  {
    AgeValidation.PeriodYearsIsAge(parse(s).value, today);
  }

  /** A date after today counts zero years, so minAge(y) rejects it for every
      positive y and maxAge(y) accepts it for every y >= 0. */
  lemma FutureDateAges(years: int, parse: string -> Option<Date>, today: Date, s: string)
    requires parse(s).Some? && Before(today, parse(s).value)
    ensures years > 0 ==> !MinAge(years, parse, today)(Text(s))
    ensures years >= 0 ==> MaxAge(years, parse, today)(Text(s))
    ensures !InPast(parse, today)(Text(s))
  {
  }

  /** Null reads as the epoch: minAge(13) accepts a missing value on any day
      from 1 January 1983. */
  lemma NullPassesMinAge(parse: string -> Option<Date>, today: Date)
    requires today.year >= 1983
    ensures MinAge(13, parse, today)(Null)
    ensures InPast(parse, today)(Null)
  {
  }

  /** notEquals as written accepts the very value it should reject. */
  lemma NotEqualsAsWrittenAcceptsTarget()
    ensures NotEqualsAsWritten(Text("a"))(Text("a"))
    ensures !NotEqualsAsWritten(Text("a"))(Text("b"))
    ensures !NotEquals(Text("a"))(Text("a")) && NotEquals(Text("a"))(Text("b"))
  {
  }

  /** A non-blank value is a non-null, non-empty string: it has at least one
      character. */
  lemma NotBlankIsNonEmptyString(v: Value)
    ensures NotBlank()(v) ==> NotNull()(v) && NotEmpty()(v) && MinLength(1)(v)
  {
  }

  /** minLength(1) is exactly notNull and notEmpty together. */
  lemma MinLengthOneIsNotNullAndNotEmpty(v: Value)
    ensures MinLength(1)(v) <==> NotNull()(v) && NotEmpty()(v)
  {
  }

  /** A value a pattern accepts is never null, and the pattern that accepts
      every string is notNull. */
  lemma MatchesImpliesNotNull(test: string -> bool, v: Value)
    ensures Matches(test)(v) ==> NotNull()(v)
    ensures Matches(_ => true)(v) == NotNull()(v)
  {
  }

  /** Every date check needs a valid date, and a valid date is exactly what
      minAge(0) accepts. */
  lemma DateChecksNeedValidDate(years: int, parse: string -> Option<Date>, today: Date, v: Value)
    ensures MinAge(years, parse, today)(v) ==> IsValidIsoDate(parse)(v)
    ensures MaxAge(years, parse, today)(v) ==> IsValidIsoDate(parse)(v)
    ensures InPast(parse, today)(v) ==> IsValidIsoDate(parse)(v)
    ensures IsValidIsoDate(parse)(v) <==> MinAge(0, parse, today)(v)
  {
  }

  /** A date at least one whole year old lies in the past. */
  lemma AgedDateIsInPast(years: int, parse: string -> Option<Date>, today: Date, v: Value)
    requires years >= 1
    ensures MinAge(years, parse, today)(v) ==> InPast(parse, today)(v)
  {
  }

  /** greaterThan and lessThan weaken as the target moves away. */
  lemma ThresholdsMonotone(t: int, t': int, toNumber: string -> Option<int>, v: Value)
    requires t' <= t
    ensures GreaterThan(t, toNumber)(v) ==> GreaterThan(t', toNumber)(v)
    ensures LessThan(t', toNumber)(v) ==> LessThan(t, toNumber)(v)
  {
  }

  /** equals(t) is oneOf([t]). */
  lemma EqualsIsOneOfSingleton(target: Value, v: Value)
    ensures Equals(target)(v) == OneOf([target])(v)
  {
  }

  /** The corrected notEquals and equals split every value between them. */
  lemma EqualsNotEqualsComplement(target: Value, v: Value)
    ensures Equals(target)(v) != NotEquals(target)(v)
  {
  }
}
