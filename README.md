# moviedatabase: identifiers, sessions and form validation in Dafny

This project models the parts of the moviedatabase application that have
behaviour worth stating, and proves properties of that model:

- **HybridClockUUID** (`hybrid_clock_uuid.dfy`). This is the compact identifier generator. It packs a
  millisecond timestamp, an 18-bit sequence taken from a process-wide counter,
  and random bits into one number, then renders that number as a fixed number of letters
  `a`–`z` (`toBase26`). The clock reading, the counter and the random bytes are
  inputs. `toBase26` keeps its form: it fills a `char` array right to left,
  then XOR-folds any leftover into the first letters.
- **Authentication core** (`core_auth.dfy`). These are the credential, user and session tables;
  `core.service.AuthenticationService`; the idle-session reaper
  `SessionCleanupService`; and the `/api/auth` handlers of `AuthController`
  (register, login, refresh, ping, logout).
  - The tables are maps held by a `Database` object. The services and the controller are classes whose methods update those maps.
  - Each handler is proved equal to a pure transition `XStep(store, input)`.
  - The properties are stated about those transitions.
  - Token validity, password encoding and password matching are opaque functions passed in.
- **Legacy registration service** (`legacy_auth.dfy`). This is `service.AuthenticationService`: the
  duplicate-email check, id assignment, credential creation and the password check, over its own
  "User" and "UserCredential" tables (the core keeps its users in "AppUser"). `createUser` is
  modelled as written, where linking the credential to the user recurses until the stack
  overflows, and as its unit test expects it, with one save.
- **Age validators** (`age_validation.dfy`). `@MinimumAge` and `@MaximumAge` on a user's date of birth are
  computed with `Period.between(dob, today).getYears()`. Dates are
  (year, month, day) triples of the ISO calendar, and `today` is a parameter.
- **Frontend validation engine**:
  - `predicates.dfy` holds the predicate combinators of `Predicates.ts` and `yearsDiffFromToday`.
  - `validator.dfy` holds the `Validator` rule registry. It is a class over a sequence of `Rule` objects, with the invariant that no two rules share a (field, validity type) pair.
  - `validation.dfy` holds the merge of rule results with the element's built-in validity flags, and hint gathering with de-duplication.
  - A form element is abstracted as its name, its value and its map of validity flags.
  - JavaScript `Map`s are kept as insertion-ordered entry lists.

`wrappers.dfy` holds the `Option` and `Result` types. A thrown exception is a
`Failure` carrying the exception's message.

## Model

| member | source | states |
|---|---|---|
| HybridClockUUID.Letter | backend/src/main/java/utils/HybridClockUUID.java:17 | the table entry for digit d is a lower-case letter whose offset from 'a' is d |
| HybridClockUUID.Digit | backend/src/main/java/utils/HybridClockUUID.java:94 | `c - 'a'` is a digit 0..25 and is the inverse of the table lookup |
| HybridClockUUID.BitBudgets | backend/src/main/java/utils/HybridClockUUID.java:49-51 | for lengths 5..13 the timestamp budget is at most 28 bits, the sequence budget at most 18, the three budgets add up to ⌊4.7·length⌋ ≤ 61, one or two random bytes are drawn, and length 10 gives 23/14/10 |
| HybridClockUUID.BitsFitInLetters | backend/src/main/java/utils/HybridClockUUID.java:49-51 | 2^(total bits) ≤ 26^length, so every packed value has a length-letter rendering |
| HybridClockUUID.BigEndian | backend/src/main/java/utils/HybridClockUUID.java:61-63 | the bytes read as a number lie below 256^(number of bytes) |
| HybridClockUUID.RandomValue | backend/src/main/java/utils/HybridClockUUID.java:61-63 | the shift-in loop yields the big-endian value of the first (at most 8) bytes |
| HybridClockUUID.RandomPart | backend/src/main/java/utils/HybridClockUUID.java:54-66 | the masked random value lies in [0, 2^randomBits) |
| HybridClockUUID.CombineSeparates | backend/src/main/java/utils/HybridClockUUID.java:69-71 | timestamp, sequence and random part sit in disjoint bit ranges: each is read back from the combined value by division and remainder, and the combined value lies below 2^(total bits) |
| HybridClockUUID.Encode | backend/src/main/java/utils/HybridClockUUID.java:84-87 | the right-to-left fill gives exactly n letters |
| HybridClockUUID.Decode | backend/src/main/java/utils/HybridClockUUID.java:84-87 | n letters read as base 26 give a value below 26^n |
| HybridClockUUID.Mix | backend/src/main/java/utils/HybridClockUUID.java:93-94 | `((c - 'a') ^ idx) % 26` is again a letter |
| HybridClockUUID.Fold | backend/src/main/java/utils/HybridClockUUID.java:90-98 | the overflow fold keeps the length and the alphabet |
| HybridClockUUID.Base26 | backend/src/main/java/utils/HybridClockUUID.java:80-101 | toBase26 always gives exactly `length` letters from a–z, fold included |
| HybridClockUUID.EncodeSplits | backend/src/main/java/utils/HybridClockUUID.java:84-87 | the letters and the leftover together give back the value: value = Decode(letters) + leftover·26^n |
| HybridClockUUID.Base26RoundTrip | backend/src/main/java/utils/HybridClockUUID.java:84-90 | below 26^length nothing is left over, the fold branch is not taken, and decoding gives back the value |
| HybridClockUUID.Base26Injective | backend/src/main/java/utils/HybridClockUUID.java:80-101 | distinct values below 26^length render as distinct strings |
| HybridClockUUID.EncodeInto | backend/src/main/java/utils/HybridClockUUID.java:84-87 | the first loop leaves the buffer holding the low digits as letters and returns the leftover |
| HybridClockUUID.FoldInto | backend/src/main/java/utils/HybridClockUUID.java:90-98 | the second loop mixes the leftover into the first min(8, length) letters and stops when it runs out |
| HybridClockUUID.ToBase26 | backend/src/main/java/utils/HybridClockUUID.java:80-101 | the array-filling method returns Base26(value, length): length letters that decode to the value whenever it is below 26^length |
| HybridClockUUID.IdDecodes | backend/src/main/java/utils/HybridClockUUID.java:35-75 | every identifier has `length` letters and decodes to the packed value of timestamp, sequence (counter & 0x3FFFF) and random part |
| HybridClockUUID.IdSeparates | backend/src/main/java/utils/HybridClockUUID.java:45-74 | two identifiers of one length are equal only if their masked timestamps, masked sequences and random parts are equal |
| HybridClockUUID.Generator.constructor | backend/src/main/java/utils/HybridClockUUID.java:13 | the counter starts at 0 |
| HybridClockUUID.Generator.Generate | backend/src/main/java/utils/HybridClockUUID.java:35-75 | fails with IllegalArgumentException exactly when length < 5 and then leaves the counter alone; otherwise increments the counter and returns the identifier for the new count, which has exactly `length` letters from a–z |
| HybridClockUUID.Generator.GenerateDefault | backend/src/main/java/utils/HybridClockUUID.java:25-27 | generate() is generate(10): the counter grows by one and the result is the 10-letter identifier |
| Calendar.AgeOfPastDateIsNatural | backend/src/main/java/core/validation/MinimumAgeValidator.java:23 | the whole-year age of a date not after today is non-negative |
| AgeValidation.JavaDiv | backend/src/main/java/core/validation/MinimumAgeValidator.java:23 | Java's truncating division agrees with floor division for non-negative numerators and is never positive for non-positive ones |
| AgeValidation.PeriodYearsIsAge | backend/src/main/java/core/validation/MinimumAgeValidator.java:23 | for a date of birth not after today, Period.between(...).getYears() is the age in completed years (birthday counted by month and day) |
| AgeValidation.PeriodYearsOfFutureDate | backend/src/main/java/core/validation/MinimumAgeValidator.java:23 | a future date of birth gives zero or fewer years |
| AgeValidation.PeriodYearsFacts | backend/src/main/java/core/validation/MaximumAgeValidator.java:23 | both cases of the year count together |
| AgeValidation.MinimumAgeIsValid | backend/src/main/java/core/validation/MinimumAgeValidator.java:19-24 | a missing date of birth is valid; a past one is valid iff its age is at least the minimum; a future one is valid only when the minimum is at most 0 |
| AgeValidation.MaximumAgeIsValid | backend/src/main/java/core/validation/MaximumAgeValidator.java:19-24 | a missing date of birth is valid; a past one is valid iff its age is at most the maximum; a future one is always valid for a non-negative maximum |
| AgeValidation.MinimumAgeMonotone | backend/src/main/java/core/validation/MinimumAgeValidator.java:23 | valid for minimum m implies valid for every m' ≤ m |
| AgeValidation.MaximumAgeMonotone | backend/src/main/java/core/validation/MaximumAgeValidator.java:23 | valid for maximum m implies valid for every m' ≥ m |
| AgeValidation.ThirteenthBirthday | backend/src/main/java/core/model/User.java:31 | in the year someone turns 13, the bound 13 accepts exactly from the birthday on |
| AgeValidation.HundredTwentiethBirthday | backend/src/main/java/core/model/User.java:32 | the bound 120 accepts an age of exactly 120 and rejects 121 |
| AgeValidation.MinimumAgeExamples | backend/src/main/java/core/validation/MinimumAgeValidator.java:23 | concrete cases around a 13th birthday, including one on 29 February |
| CoreAuth.TokenLifetimes | backend/src/main/java/core/security/JwtUtil.java:46-71 | access and refresh tokens carry the email and user id, are issued at the current second and expire 900 s and 604800 s later |
| CoreAuth.CredentialsMatch | backend/src/main/java/core/service/AuthenticationService.java:26-30 | validateLogin is true iff a credential exists for the email and the raw password matches its stored hash |
| CoreAuth.AvatarOf | backend/src/main/java/core/controller/AuthController.java:264-287 | the stored avatar is one of the ten emojis or ""; it passes @NotBlank exactly when the request chose one from the list, and then it is the requested one |
| CoreAuth.RegisterConflict | backend/src/main/java/core/controller/AuthController.java:62-66 | registering a taken email answers 409 USER_EXISTS and changes nothing |
| CoreAuth.RegisterRejectsInvalidUser | backend/src/main/java/core/controller/AuthController.java:86-94 | an avatar outside the list, a blank or over-long name, or a date of birth not in the past or giving an age under 13 or over 120 makes the save fail: 500, nothing stored |
| CoreAuth.RegisterCreates | backend/src/main/java/core/controller/AuthController.java:68-94 | a saved registration adds exactly the user under the generated id and its credential with the encoded password, leaves other credentials and all sessions alone, and a well-formed request without a date of birth is always saved |
| CoreAuth.RegisteredIdFitsColumn | backend/src/main/java/core/controller/AuthController.java:76-78 | the assigned id is "u-" plus ten letters, twelve characters, the width of the id column |
| CoreAuth.RegisterTwice | backend/src/main/java/core/controller/AuthController.java:62-94 | after a successful registration the same email is refused with 409, and exactly one credential was added |
| CoreAuth.LoginRefused | backend/src/main/java/core/controller/AuthController.java:106-110 | bad credentials give 401, no cookie and no session |
| CoreAuth.LoginOpensSession | backend/src/main/java/core/controller/AuthController.java:112-131 | good credentials give 202 with the access token, an HTTP-only refresh cookie on /api/auth with max-age 604800, and a session keyed by the refresh token with issue and last-use time now; users and credentials are unchanged |
| CoreAuth.HandlersKeepSessionsKeyed | backend/src/main/java/core/service/AuthenticationService.java:32-39 | login, refresh, ping, logout and the sweep keep every session row stored under its own token |
| CoreAuth.FailuresChangeNothing | backend/src/main/java/core/controller/AuthController.java:139-261 | a refresh, ping or logout that answers 401 or throws leaves the store unchanged |
| CoreAuth.InvalidTokenUnauthorized | backend/src/main/java/core/controller/AuthController.java:142-151 | a missing or invalid token gives 401 in refresh, ping and logout |
| CoreAuth.MissingSessionThrows | backend/src/main/java/core/controller/AuthController.java:162-163 | a valid token with no session row makes refresh (email still registered), ping and logout throw instead of reaching their null branches |
| CoreAuth.RefreshBumpsSession | backend/src/main/java/core/controller/AuthController.java:178-185 | a successful refresh issues an access token for the token's email and user id, sets no cookie, keeps the session keys and changes only that session's last-use time |
| CoreAuth.PingBumpsSession | backend/src/main/java/core/controller/AuthController.java:209-211 | a successful ping changes only that session's last-use time and issues no token |
| CoreAuth.LogoutEndsSession | backend/src/main/java/core/controller/AuthController.java:243-260 | a successful logout deletes exactly that session and clears the cookie with max-age 0 |
| CoreAuth.LoginThenRefresh | backend/src/main/java/core/controller/AuthController.java:104-186 | refreshing with the cookie login set succeeds, for the same user, keeping the session key, its issue time, and setting its last-use time |
| CoreAuth.LogoutThenRefreshThrows | backend/src/main/java/core/controller/AuthController.java:162-163 | logout then refresh with the same still-valid token throws "UserLogin does not exist" |
| CoreAuth.LogoutThenRefreshIntended | backend/src/main/java/core/controller/AuthController.java:163-176 | with the intended refresh the same sequence answers 401 and clears the cookie |
| CoreAuth.RefreshIntendedNeverThrows | backend/src/main/java/core/controller/AuthController.java:162-176 | the intended refresh never throws and agrees with refresh as written wherever that does not throw |
| CoreAuth.MissingSessionIntended | backend/src/main/java/core/controller/AuthController.java:162-254 | with the null branches reachable, a valid token with no session row gets 401 from refresh (cookie cleared), ping ("No active session") and logout ("Valid login does not exist", cookie cleared), and the store is unchanged |
| CoreAuth.PingLogoutIntendedNeverThrow | backend/src/main/java/core/controller/AuthController.java:196-261 | the intended ping and logout never throw and agree with the written ones wherever those do not throw |
| CoreAuth.SweepRemovesExactlyStale | backend/src/main/java/core/service/SessionCleanupService.java:24-29 | after a sweep no session was last used before now − 300000 ms; every session at or after the cutoff survives unchanged; the deleted tokens are exactly the stale ones |
| CoreAuth.SweepIdempotent | backend/src/main/java/core/service/SessionCleanupService.java:24-29 | a second sweep at the same time changes nothing |
| CoreAuth.AuthenticationService.ValidateLogin | backend/src/main/java/core/service/AuthenticationService.java:26-30 | true iff a credential exists for the email and the password matches its hash |
| CoreAuth.AuthenticationService.Login | backend/src/main/java/core/service/AuthenticationService.java:32-34 | upsert by token: the token maps to the given session, other sessions are unchanged |
| CoreAuth.AuthenticationService.Logout | backend/src/main/java/core/service/AuthenticationService.java:36-39 | removes only that token's session, a no-op when absent |
| CoreAuth.AuthenticationService.GetUserLogin | backend/src/main/java/core/service/AuthenticationService.java:41-45 | succeeds iff the token has a session, with that session; otherwise throws IllegalArgumentException and never yields null |
| CoreAuth.AuthenticationService.GetUserCredentialByEmail | backend/src/main/java/core/service/AuthenticationService.java:47-51 | succeeds iff the email has a credential, with that credential; otherwise throws |
| CoreAuth.SessionCleanupService.CleanUpIdleSessions | backend/src/main/java/core/service/SessionCleanupService.java:23-30 | deleting the stale sessions one by one leaves exactly Sweep(old sessions, now) |
| CoreAuth.AuthController.Register | backend/src/main/java/core/controller/AuthController.java:60-95 | new store and reply are those of RegisterStep with id "u-" + generate(); the id counter moves only for a new email |
| CoreAuth.AuthController.Login | backend/src/main/java/core/controller/AuthController.java:104-132 | new store and reply are those of LoginStep |
| CoreAuth.AuthController.Refresh | backend/src/main/java/core/controller/AuthController.java:139-186 | new store and reply (or exception) are those of RefreshStep |
| CoreAuth.AuthController.Ping | backend/src/main/java/core/controller/AuthController.java:196-212 | new store and reply (or exception) are those of PingStep |
| CoreAuth.AuthController.Logout | backend/src/main/java/core/controller/AuthController.java:220-261 | new store and reply (or exception) are those of LogoutStep |
| LegacyAuth.LinkingOverflows | backend/src/main/java/model/User.java:83-86 | User.setUserCredential and UserCredential.setUser (model/UserCredential.java:70-73) call each other unguarded, so on a stack of any size they end in StackOverflowError |
| LegacyAuth.CreateUserDuplicate | backend/src/main/java/service/AuthenticationService.java:32-34 | a taken email throws IllegalArgumentException with the email in the message and saves nothing, as written and as intended |
| LegacyAuth.CreateUserOverflows | backend/src/main/java/service/AuthenticationService.java:36-50 | as written, a new email never reaches the save at line 50: createUser ends in StackOverflowError and both tables are unchanged |
| LegacyAuth.CreateUserSaves | backend/src/test/java/service/AuthenticationServiceTest.java:53-66 | as intended, a new email adds exactly one credential, with that email, the encoded password and the assigned id, and the user row under that id; other credentials are untouched |
| LegacyAuth.UnknownEmailNeverValidates | backend/src/test/java/service/AuthenticationServiceTest.java:98-110 | an unknown email never validates, and the matcher's answer does not matter |
| LegacyAuth.CreateThenValidate | backend/src/test/java/service/AuthenticationServiceTest.java:83-96 | after the intended createUser, the same email and password validate whenever the encoder matches its own encoding, and the lookup returns the saved credential |
| LegacyAuth.Repositories.constructor | backend/src/main/java/model/User.java:11-13 | the "User" and "UserCredential" tables start empty |
| LegacyAuth.AuthenticationService.constructor | backend/src/main/java/service/AuthenticationService.java:19-27 | the service holds the given repositories, encoder and id generator |
| LegacyAuth.AuthenticationService.CreateUser | backend/src/main/java/service/AuthenticationService.java:29-51 | new tables and outcome are those of createUser as written (so a new email overflows the stack and saves nothing); the id counter moves iff a new email comes with an unset or empty id |
| LegacyAuth.AuthenticationService.ValidateLogin | backend/src/main/java/service/AuthenticationService.java:53-57 | true iff a credential exists for the email and the password matches its hash |
| LegacyAuth.AuthenticationService.GetUserCredentialByEmail | backend/src/main/java/service/AuthenticationService.java:59-63 | succeeds iff the email has a credential, returning it; otherwise throws with the email in the message |
| Predicates.TrimEmptyIffAllWhiteSpace | frontend/src/validation/Predicates.ts:38-39 | trim leaves "" exactly when the string is all white space |
| Predicates.NotEmptyAfterTrimIffNotAllWhiteSpace | frontend/src/validation/Predicates.ts:38-39 | notEmpty of the trimmed string holds iff the string has a non-white-space character |
| Predicates.YearsDiffFromToday | frontend/src/validation/Predicates.ts:5-17 | 0 for a date not before today; otherwise the year difference less one when today's month and day precede the date's, which is the age in completed years; never negative |
| Predicates.NotBlank | frontend/src/validation/Predicates.ts:38-39 | holds iff the value is a string with a non-white-space character |
| Predicates.MinAge | frontend/src/validation/Predicates.ts:87-88 | an unparsable value fails; a parsed past date passes iff its age in completed years is at least y; a date not before today passes iff y ≤ 0 |
| Predicates.MaxAge | frontend/src/validation/Predicates.ts:94-95 | an unparsable value fails; a parsed past date passes iff its age in completed years is at most y; a date not before today passes iff y ≥ 0 |
| Predicates.NotBlankIsNonEmptyString | frontend/src/validation/Predicates.ts:28-39 | a value passing notBlank also passes notNull, notEmpty and minLength(1) |
| Predicates.MinLengthOneIsNotNullAndNotEmpty | frontend/src/validation/Predicates.ts:28-75 | minLength(1) holds iff the value passes both notNull and notEmpty and is a string |
| Predicates.MatchesImpliesNotNull | frontend/src/validation/Predicates.ts:56-57 | a value a pattern matches is never null, and the pattern accepting everything makes matches coincide with notNull |
| Predicates.DateChecksNeedValidDate | frontend/src/validation/Predicates.ts:87-105 | minAge, maxAge and inPast each pass only values isValidIsoDate accepts, and isValidIsoDate is minAge(0) |
| Predicates.AgedDateIsInPast | frontend/src/validation/Predicates.ts:87-100 | minAge(y) with y ≥ 1 passes only dates inPast accepts |
| Predicates.ThresholdsMonotone | frontend/src/validation/Predicates.ts:44-51 | greaterThan(t) implies greaterThan(t') and lessThan(t') implies lessThan(t) whenever t' ≤ t |
| Predicates.EqualsIsOneOfSingleton | frontend/src/validation/Predicates.ts:62-110 | equals(target) accepts exactly what oneOf([target]) accepts |
| Predicates.NotEqualsAsWritten | frontend/src/validation/Predicates.ts:115 | notEquals as written gives the same answer as equals on every value |
| Predicates.NotEquals | frontend/src/validation/Predicates.ts:115 | the corrected notEquals holds iff equals does not |
| Predicates.NullAndWhiteSpaceRejected | frontend/src/validation/Predicates.ts:38-51 | notBlank rejects null and all-white-space strings; greaterThan and lessThan reject null |
| Predicates.OneOfNoneOfComplement | frontend/src/validation/Predicates.ts:62-69 | oneOf and noneOf over one list disagree on every value |
| Predicates.GreaterThanLessThanExclusive | frontend/src/validation/Predicates.ts:44-51 | no value is both greater and less than one target |
| Predicates.LengthBounds | frontend/src/validation/Predicates.ts:74-81 | minLength(n) and maxLength(m) together admit exactly the strings with n ≤ length ≤ m |
| Predicates.AgeChecksAgreeWithBackend | frontend/src/validation/Predicates.ts:87-95 | for a past date, minAge and maxAge agree with the backend's @MinimumAge and @MaximumAge |
| Predicates.FutureDateAges | frontend/src/validation/Predicates.ts:7-9 | a future date counts 0 years: minAge(y>0) rejects it, maxAge(y≥0) accepts it, inPast rejects it |
| Predicates.NullPassesMinAge | frontend/src/validation/Predicates.ts:87-100 | null reads as the epoch, so minAge(13) and inPast accept a missing value from 1983 on |
| Predicates.NotEqualsAsWrittenAcceptsTarget | frontend/src/validation/Predicates.ts:115 | notEquals("a") as written accepts "a" and rejects "b"; the corrected one does the opposite |
| Predicates.EqualsNotEqualsComplement | frontend/src/validation/Predicates.ts:110-115 | the corrected notEquals and equals disagree on every value |
| Validator.Rule.constructor | frontend/src/validation/Validator.ts:22-25 | a rule holds the given field, validity type, predicate and hint |
| Validator.Filter | frontend/src/validation/Validator.ts:30 | filter keeps exactly the elements that pass, a sub-multiset of the input |
| Validator.FilterSplits | frontend/src/validation/Validator.ts:103-117 | filtering by two exclusive predicates that cover a third partitions its result |
| Validator.IndexOf | frontend/src/validation/Validator.ts:59 | -1 iff absent; otherwise the first position holding the element |
| Validator.AppendKeepsUniqueKeys | frontend/src/validation/Validator.ts:37-43 | appending a rule whose (field, validity type) is free keeps keys unique |
| Validator.RemoveKeepsUniqueKeys | frontend/src/validation/Validator.ts:58-65 | removing one position keeps keys unique |
| Validator.AtMostOneRulePerKey | frontend/src/validation/Validator.ts:29-31 | with unique keys, findByFieldAndValidityType returns at most one rule |
| Validator.Validator.constructor | frontend/src/validation/Validator.ts:8-10 | a new validator has no rules and empty match lists |
| Validator.Validator.FindByFieldAndValidityType | frontend/src/validation/Validator.ts:29-31 | returns exactly the rules with that field and validity type, non-empty iff the pair is taken |
| Validator.Validator.Add | frontend/src/validation/Validator.ts:18-27 | throws iff a validity type is given and already used for the field, leaving the rules unchanged; otherwise appends one new rule with the given field, validity type, predicate and hint; keeps keys unique |
| Validator.Validator.AddRule | frontend/src/validation/Validator.ts:37-43 | throws iff the rule's validity type is already used for its field, leaving the rules unchanged; otherwise appends the rule (rules without a validity type can be added repeatedly); keeps keys unique |
| Validator.Validator.RemoveRule | frontend/src/validation/Validator.ts:58-65 | true iff the rule was present, and then exactly its first occurrence is removed with order kept; false changes nothing; keeps keys unique |
| Validator.Validator.Clear | frontend/src/validation/Validator.ts:70-74 | empties the rules and both match lists |
| Validator.Validator.FindRelevantRules | frontend/src/validation/Validator.ts:119-121 | for "" exactly the field's valueMissing rules; otherwise all rules |
| Validator.Validator.FindMatchingRules | frontend/src/validation/Validator.ts:103-106 | exactly the relevant rules for the field that the value passes |
| Validator.Validator.FindNonMatchingRules | frontend/src/validation/Validator.ts:114-117 | exactly the relevant rules for the field that the value fails |
| Validator.Validator.Validate | frontend/src/validation/Validator.ts:81-85 | records the passing and failing relevant rules and answers true iff every relevant rule for the field passes |
| Validator.Validator.ValidateAll | frontend/src/validation/Validator.ts:91-95 | records exactly the rules whose field the form has, split by outcome, and answers true iff all of them pass |
| Validator.Validator.GetMatchingRules | frontend/src/validation/Validator.ts:128-130 | the recorded passing rules, narrowed to the field when a non-empty one is given |
| Validator.Validator.GetNonMatchingRules | frontend/src/validation/Validator.ts:137-139 | the recorded failing rules, narrowed to the field when a non-empty one is given |
| Validator.ValidatePartitions | frontend/src/validation/Validator.ts:81-85 | the passing and failing rules together are exactly the field's relevant rules |
| Validator.EmptyValueConsultsValueMissingOnly | frontend/src/validation/Validator.ts:119-121 | for "" only the field's valueMissing rule is consulted, and there is at most one |
| Validator.ValidateAllPartitions | frontend/src/validation/Validator.ts:91-95 | validateAll's two lists together are exactly the rules whose field the form has |
| Validation.GetPut | frontend/src/validation/Validation.ts:40 | reading a key after setting it gives the set value; other keys are unaffected |
| Validation.Delete | frontend/src/validation/Validation.ts:39 | deleting a key keeps exactly the other entries |
| Validation.ApiResult | frontend/src/validation/Validation.ts:17-23 | the eight listed validity keys in order, each with the element's flag or false when absent |
| Validation.ApiResultFacts | frontend/src/validation/Validation.ts:3-23 | the built-in result lists each key once and holds exactly the eight keys with their flags |
| Validation.ValidateWithBuiltInApi | frontend/src/validation/Validation.ts:17-23 | the loop builds ApiResult(el) |
| Validation.OverridesKeep | frontend/src/validation/Validation.ts:38-39 | a built-in flag survives exactly when no failing rule names its key |
| Validation.MergeFailures | frontend/src/validation/Validation.ts:38-41 | the first loop leaves the overridden flags and records every failing rule |
| Validation.MergeFlags | frontend/src/validation/Validation.ts:42-44 | the second loop copies the remaining flags |
| Validation.MergePasses | frontend/src/validation/Validation.ts:45-49 | the third loop records passing rules whose key is free |
| Validation.GetValidationStateForFormField | frontend/src/validation/Validation.ts:27-52 | the result is FieldStateOf for the element and the validator's failing and passing rules |
| Validation.FieldStateMeaning | frontend/src/validation/Validation.ts:38-49 | failing rules read false; a built-in key reads its flag iff it is one of the eight and not overridden; a passing rule reads true iff it has no validity type, or one outside the eight, or one a failing rule overrode |
| Validation.ApiFlagsAfterOverrides | frontend/src/validation/Validation.ts:38-44 | after the overrides a key reads its element flag exactly when it is listed and not overridden |
| Validation.NoFailingRuleShares | frontend/src/validation/Validation.ts:45-46 | under the registry invariant, no failing rule shares a passing rule's validity type |
| Validation.PassingTypedRuleHidden | frontend/src/validation/Validation.ts:45-49 | so a passing rule with one of the eight validity types never appears in the state |
| Validation.RuleHints | frontend/src/validation/Validation.ts:67-70 | one hint per failing rule, in order |
| Validation.ApiHints | frontend/src/validation/Validation.ts:71-74 | the hints are exactly those of the raised flags: the mapped hint, or the key name |
| Validation.Dedup | frontend/src/validation/Validation.ts:76 | the same elements, each once |
| Validation.DedupKeepsFirstOccurrenceOrder | frontend/src/validation/Validation.ts:76 | the kept elements appear in the order of their first occurrence |
| Validation.GatherRuleHints | frontend/src/validation/Validation.ts:67-70 | the first loop removes overridden flags and gathers the failing rules' hints |
| Validation.GatherApiHints | frontend/src/validation/Validation.ts:71-74 | the second loop reports whether any flag is raised and gathers their hints |
| Validation.ValidateFormField | frontend/src/validation/Validation.ts:57-77 | the verdict and hints are VerdictOf for the element and the failing rules |
| Validation.VerdictValidity | frontend/src/validation/Validation.ts:63-74 | valid iff no rule fails and every raised listed flag is overridden by a failing rule |
| Validation.VerdictHints | frontend/src/validation/Validation.ts:67-76 | every failing rule's hint and every non-overridden raised flag's hint is present, and every hint is one of these |

## Left out

- JWT signing, parsing and the expiry check are one opaque validity predicate. A token is the claims it carries. Password hashing and matching are opaque functions. These are foreign cryptography.
- The clock, `SecureRandom` and the HTTP cookie jar are inputs to the methods.
- HybridClockUUID.Generator.Generate: lengths above 13 are not modelled. From 14 on the bit budget exceeds 63 bits and the packed `long` can go negative.
- The double arithmetic `(int)(length * 4.7 * ...)` is modelled by the exact floors `47·length/10` etc. These agree with the doubles for the lengths 5..13 that are modelled.
- HybridClockUUID.Generator.Generate: the counter's 64-bit wrap-around is not modelled. The counter is an unbounded natural. Only its low 18 bits reach the identifier.
- Spring's request validation (`@Valid` with 400 answers, `@Email`, the password's `@Size`) and `LocalDate.parse` failures are not modelled. Registration takes an already parsed date.
- CoreAuth.AuthController.Register: store failures other than the entity constraints are one boolean, `storeAccepts`. The user and its credential are saved together or not at all.
- Each handler reads the clock once. The source reads it separately for the token and the session times.
- A cookie added to the response before an exception propagates is not modelled. The exception replaces the reply.
- `UserService.getUser` is not part of this model. Sessions refer to their user by id.
- The `@Scheduled` timing and concurrent requests are not modelled. One sweep and one request run at a time.
- LegacyAuth.AuthenticationService.CreateUser: it returns the assigned id. The source writes the id into the User object it was given.
- LegacyAuth.CreateUserIntendedStep: it does not check the NOT NULL `salt` column, which createUser never sets (model/UserCredential.java:18-19), nor `@Size(min = 1)` on the name (model/User.java:20). A real save of a new user would fail on the salt.
- The JVM's stack size is a parameter of the legacy createUser. The frames of the entity setters are counted; no other frame is.
- The legacy tables are kept apart from the core's. The two services do not share a store in this model, as they do not in the database.
- The legacy `controller/AuthController.java` is not part of this model.
- JavaScript `Date`s are whole days. Time of day and time zones are not modelled.
- `Number()` coercion is a `toNumber` parameter. `RegExp.test` is a `test` parameter. Date parsing is a `parse` parameter.
- String lengths count Dafny characters, not UTF-16 code units.
- `undefined` is not separated from `null`.
- The element's value is used directly. The `FormData` lookup through the enclosing form is not modelled.
- `hintsMapForConstraintAPI` is not part of this model. The hint map is a parameter.
- Validator.Validator.GetRules: it returns the rule sequence as a value. Aliasing of the returned array is not modelled.
- Rule predicates and hints are functions without side effects.

## Findings

| source | as written | input that shows it | evidently intended | confidence | as-written member | corrected member |
|---|---|---|---|---|---|---|
| backend/src/main/java/core/controller/AuthController.java:162-176 | `getUserLogin` throws IllegalArgumentException for a token with no session row, so the following `userLogin == null` branch (401, cookie cleared) is unreachable; so are the null branches of ping (lines 203-206, 401 "No active session") and logout (lines 250-253, 401 "Valid login does not exist", cookie already cleared) | log out, then call /refresh, /ping or /logout with the same unexpired refresh token | the 401 answers of the null branches | not executed | CoreAuth.MissingSessionThrows | CoreAuth.MissingSessionIntended |
| backend/src/main/java/service/AuthenticationService.java:49 | `user.setUserCredential` calls `UserCredential.setUser`, which calls `setUserCredential` back with no guard, so StackOverflowError is thrown before `userRepository.save` at line 50 | `createUser(new User(), "pw", "a@b.c")` on empty tables | one save of the user with its credential, as the test at AuthenticationServiceTest.java:53-66 expects | not executed | LegacyAuth.CreateUserOverflows | LegacyAuth.CreateUserSaves |
| frontend/src/validation/Predicates.ts:115 | `notEquals(target)` returns `value == target`, the same test as `equals` | `notEquals("a")("a")` is true and `notEquals("a")("b")` is false | `value != target` | not executed | Predicates.NotEqualsAsWrittenAcceptsTarget | Predicates.EqualsNotEqualsComplement |
