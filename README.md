# developaul/breaking utilities in Dafny

A Dafny model of the logic in two utility packages of the developaul/breaking repository:

- `@developaul/string-utils`:
  - the formatters `kebabCase`, `camelCase`, `capitalize`, `titleCase`, `slugify` and `truncate`;
  - the validators `isEmail`, `isAlphanumeric`, `isEmpty` and `hasMinLength`.
- `@developaul/date-utils`:
  - the formatters `toRelativeTime` and `formatDuration`, with their integer division cascades;
  - the validators `isValidDate`, `isISOString`, `isPast`, `isFuture`, `isToday`, `isYesterday`, `isTomorrow`, `isInRange`, `isWeekend`, `isWeekday`, `isLeapYear`, `isSameDay`, `isSameMonth` and `isSameYear`.

All of these are pure functions, so the model is pure as well: datatypes, functions and lemmas.

- Each global regular-expression `replace` is a recursive function over `string` (`seq<char>`).
- JavaScript numbers are `int`.
- A `Date` is a value holding an optional time value, where `None` is NaN.
- What the host's `Date` computes from a time value is a field of a `Host` record passed in as a parameter:
  - `toDateString`, `getDay`, `getFullYear` and `getMonth`;
  - local-time `setDate` day shifting;
  - `Date` parsing.

Files and modules:

| file | modules | contents |
|---|---|---|
| `chars.dfy` | `Wrappers`, `Chars` | `Option`; ASCII case mapping; the ECMAScript whitespace and line-terminator set (`\s`, `trim`); the generic global-replace passes (`ReplaceRuns`, `RemoveAll`, `SkipRun`) and their algebra |
| `string_formatters.dfy` | `StringFormatters` | the six string formatters |
| `string_validators.dfy` | `StringValidators` | the string validators |
| `decimal.dfy` | `Decimal` | JavaScript's rendering of an integer in a template string, with its parse-back round trip |
| `js_date.dfy` | `JsNumber`, `JsDate` | truncating `%`, `Math.trunc` of a quotient, NaN-aware subtraction and comparison; the `Date` value and the `Host` record |
| `date_formatters.dfy` | `DateFormatters` | `toRelativeTime` and `formatDuration` |
| `date_validators.dfy` | `DateValidators` | the date predicates |

Where the source's doc comments and its code disagree, the model follows the code:

- `truncate`: the doc comment at packages/string-utils/src/formatters.ts:94-95 shows `'Hello...'`. The code keeps `length - suffix.length` characters, which gives `'He...'`.
- `toRelativeTime`: the doc comment at packages/date-utils-tsup/src/formatters.ts:62 gives "2 hours ago" as an example output. The code floors negative quotients, so every past difference reads "N day(s) ago" and "2 hours ago" can never be produced. See "## Findings".

## Model

| member | source | states |
|---|---|---|
| Chars.AllIff | packages/string-utils/src/validators.ts:50 | the "every character is in a class" test holds iff every index satisfies the class |
| Chars.CaseMapFacts | packages/string-utils/src/formatters.ts:47 | the ASCII upper- and lower-case maps are inverse bijections between `a`-`z` and `A`-`Z`, fix every other character, uppercasing is idempotent, lowercasing never yields an uppercase letter, and neither changes whether a character is whitespace |
| Chars.LowerStringConcat | packages/string-utils/src/formatters.ts:19 | lowercasing a whole string is lowercasing its parts: it distributes over concatenation |
| Chars.LowerStringOfLower | packages/string-utils/src/formatters.ts:79 | lowercasing a string with no uppercase letter leaves it unchanged |
| Chars.SkipRunFacts | packages/string-utils/src/formatters.ts:34 | skipping a leading run drops exactly a prefix whose characters are all in the class, and the rest does not start with one |
| Chars.ReplaceRunsPreserves | packages/string-utils/src/formatters.ts:18 | every character of a run-replacing pass's output lies in any class that holds the replacement and every input character outside the replaced class |
| Chars.ReplaceRunsAbsent | packages/string-utils/src/formatters.ts:81 | a run-replacing pass leaves a string with no character of the class unchanged |
| Chars.ReplaceRunsConcat | packages/string-utils/src/formatters.ts:18 | a run-replacing pass distributes over concatenation when no run crosses the seam |
| Chars.ReplaceRunsOfRun | packages/string-utils/src/formatters.ts:18 | a whole non-empty run becomes exactly one replacement |
| Chars.ReplaceRunsSeparated | packages/string-utils/src/formatters.ts:82 | after replacing runs by one class character, no two class characters are adjacent, and a first character outside the class is kept |
| Chars.RemoveAllPreserves | packages/string-utils/src/formatters.ts:80 | every character of a deleting pass's output lies in any class that holds every input character outside the deleted class |
| Chars.RemoveAllAbsent | packages/string-utils/src/formatters.ts:80 | a deleting pass leaves a string with no class character unchanged |
| Chars.RemoveAllConcat | packages/string-utils/src/formatters.ts:80 | a deleting pass distributes over concatenation |
| Chars.RemoveAllOfClass | packages/string-utils/src/formatters.ts:80 | a deleting pass removes a string made only of class characters entirely |
| StringFormatters.HyphenateCaseBoundaries | packages/string-utils/src/formatters.ts:17 | the first kebabCase pass as the regex scans: a lowercase letter followed by an uppercase one is emitted with `-` between them, and the scan resumes after both letters |
| StringFormatters.KebabCase | packages/string-utils/src/formatters.ts:15-20 | kebabCase: hyphenate case boundaries, replace every maximal run of whitespace or `_` by one `-`, then lowercase |
| StringFormatters.HyphenateAtEveryBoundary | packages/string-utils/src/formatters.ts:17 | the `([a-z])([A-Z])` → `$1-$2` pass equals inserting one `-` at every lower→upper boundary of the input (a position-wise reference definition) |
| StringFormatters.HyphenateWithoutBoundaries | packages/string-utils/src/formatters.ts:17 | with no lower→upper boundary the pass changes nothing |
| StringFormatters.HyphenateConcat | packages/string-utils/src/formatters.ts:17 | the pass distributes over a seam that is not itself a boundary |
| StringFormatters.HyphenatePreserves | packages/string-utils/src/formatters.ts:17 | the pass only adds `-`, so any character class holding `-` and the input holds the output |
| StringFormatters.KebabCaseOfPlainText | packages/string-utils/src/formatters.ts:15-20 | text with no separator and no case boundary is only lowercased |
| StringFormatters.KebabCaseShape | packages/string-utils/src/formatters.ts:15-20 | `kebabCase("") == ""`; the output has no ASCII uppercase letter, no whitespace and no `_` |
| StringFormatters.KebabCaseJoin | packages/string-utils/src/formatters.ts:17-19 | two pieces joined by any run of whitespace/`_` become their kebab forms joined by exactly one `-` |
| StringFormatters.KebabCaseTwoWords | packages/string-utils/src/formatters.ts:15-20 | two separator-free words joined by a separator run: each word is hyphenated at its case boundaries and lowered, with one `-` between them |
| StringFormatters.KebabCaseMixedExample | experiments/string-utils-demo-esm/tests/formatters.test.ts:28 | `kebabCase('MiXeD CaSe')` is `'mi-xe-d-ca-se'` |
| StringFormatters.KebabCaseWordsExample | experiments/string-utils-demo-esm/tests/formatters.test.ts:19 | `kebabCase('Hello World')` is `'hello-world'` |
| StringFormatters.KebabCaseIdempotent | packages/string-utils/src/formatters.ts:15-20 | applying kebabCase twice equals applying it once |
| StringFormatters.CamelCase | packages/string-utils/src/formatters.ts:32-35 | camelCase: every maximal run of `-`, `_` or whitespace is removed together with the character after it, which is put back uppercased; a run at the end just vanishes |
| StringFormatters.CamelCaseShape | packages/string-utils/src/formatters.ts:32-35 | `camelCase("") == ""`; the output is never longer than the input and has no separator |
| StringFormatters.CamelCaseKeepsPlainPrefix | packages/string-utils/src/formatters.ts:34 | characters before the first separator are kept unchanged |
| StringFormatters.CamelCaseAfterRun | packages/string-utils/src/formatters.ts:34 | a separator run is removed and only the character right after it is uppercased; a trailing run vanishes |
| StringFormatters.CamelCaseTwoWords | packages/string-utils/src/formatters.ts:34 | two separator-free words joined by one separator: the second word starts uppercased and nothing else changes |
| StringFormatters.CamelCaseExample | experiments/string-utils-demo-esm/tests/formatters.test.ts:38 | `camelCase('hello-world')` is `'helloWorld'` |
| StringFormatters.CamelCaseOfWords | packages/string-utils/src/formatters.ts:32-35 | letters, digits and separators camel-case to letters and digits only, and non-empty output when there is a letter or digit |
| StringFormatters.CamelCaseIdempotent | packages/string-utils/src/formatters.ts:32-35 | applying camelCase twice equals applying it once |
| StringFormatters.Capitalize | packages/string-utils/src/formatters.ts:46-48 | capitalize: the first character uppercased in front of the rest; `""` stays `""` |
| StringFormatters.CapitalizeSpec | packages/string-utils/src/formatters.ts:46-48 | `capitalize("") == ""`; the length is kept; the first character is uppercased and the tail unchanged; applying it twice equals applying it once |
| StringFormatters.SplitOnSpace | packages/string-utils/src/formatters.ts:62 | `split(' ')`: the pieces between single spaces, empty pieces included, and at least one piece |
| StringFormatters.IndexOfSpace | packages/string-utils/src/formatters.ts:62 | the index found is the first `' '`, or the length when there is none |
| StringFormatters.SplitJoinRoundTrip | packages/string-utils/src/formatters.ts:62-64 | joining `split(' ')` with `' '` gives the input back, and no piece contains a space |
| StringFormatters.TitleCase | packages/string-utils/src/formatters.ts:60-65 | titleCase: split on single spaces, capitalize every piece, join with single spaces |
| StringFormatters.TitleCaseAt | packages/string-utils/src/formatters.ts:60-65 | titleCase keeps the length and every space; a character that starts a piece is uppercased; every other character is unchanged |
| StringFormatters.TrimDashes | packages/string-utils/src/formatters.ts:83 | the last slugify pass: one leading `-` removed, then one trailing `-`; a lone `-` is removed once |
| StringFormatters.Slugify | packages/string-utils/src/formatters.ts:77-84 | slugify: lowercase, delete every character outside `[a-z0-9]`, whitespace and `-`, turn whitespace runs into `-`, collapse `-` runs, trim one `-` at each end |
| StringFormatters.TrimDashesShape | packages/string-utils/src/formatters.ts:83 | dropping one leading and one trailing `-` from a dash-collapsed slug text gives a slug |
| StringFormatters.SlugifyShape | packages/string-utils/src/formatters.ts:77-84 | the output has only `[a-z0-9-]`, never starts or ends with `-`, and never contains `--` |
| StringFormatters.SlugifyOfSlug | packages/string-utils/src/formatters.ts:78-83 | every pass leaves a slug unchanged |
| StringFormatters.DashRunsOfSingles | packages/string-utils/src/formatters.ts:82 | collapsing `-+` leaves a text with no `--` unchanged |
| StringFormatters.SlugifyIdempotent | packages/string-utils/src/formatters.ts:77-84 | applying slugify twice equals applying it once |
| StringFormatters.SlugifyDropsPunctuation | packages/string-utils/src/formatters.ts:79-83 | when the lowered text is two words of lowercase letters and digits, each followed by characters slugify deletes, the slug is the two words closed up |
| StringFormatters.SlugifyExample | experiments/string-utils-demo-esm/tests/formatters.test.ts:92 | `slugify('Hello@#$%World!')` is `'helloworld'` |
| StringFormatters.Truncate | packages/string-utils/src/formatters.ts:98-101 | a string within the limit is returned unchanged; otherwise the result ends with the suffix; when the suffix fits, it is the first `length - suffix.length` characters plus the suffix, of exactly `length` characters; when it does not, the slice counts back from the end of the string |
| StringFormatters.TruncateCanLengthen | packages/string-utils/src/formatters.ts:100 | with a suffix longer than the limit the result can be longer than the limit |
| StringFormatters.TruncateExamples | packages/string-utils/src/formatters.ts:98-101 | the repository's test cases: `'He...'`, `'This is...'`, `'Hello'`, `'Hell!'`, `'He---'`, `''`, `'Hello'` |
| StringValidators.IsEmail | packages/string-utils/src/validators.ts:15-18 | the regex with its backtracking written out: some `@` at index `i` and `.` at a later index `j` split the string into three non-empty stretches with no whitespace and no `@` |
| StringValidators.EmailOfIsEmail | packages/string-utils/src/validators.ts:15-18 | three non-empty atoms glued with `@` and `.` are an accepted address |
| StringValidators.EmailAtoms | packages/string-utils/src/validators.ts:15-18 | every accepted address is three non-empty atoms glued with `@` and `.` |
| StringValidators.IsEmailSplit | packages/string-utils/src/validators.ts:15-18 | isEmail holds iff the string is `a + "@" + b + "." + c` for atoms `a`, `b`, `c` (no whitespace, no `@`, non-empty) |
| StringValidators.IsEmailShape | packages/string-utils/src/validators.ts:15-18 | an accepted address has exactly one `@`, no whitespace, at least 5 characters, and starts and ends with an atom character |
| StringValidators.EmailAt | packages/string-utils/src/validators.ts:17 | an `@` and a later `.` with visible ASCII characters other than `@` everywhere else make an address |
| StringValidators.EmailExampleSimple | packages/string-utils/src/validators.ts:15-18 | `'test@example.com'` is accepted |
| StringValidators.EmailExampleDotted | packages/string-utils/src/validators.ts:15-18 | `'user.name@domain.co.uk'` is accepted |
| StringValidators.EmailExampleTagged | packages/string-utils/src/validators.ts:15-18 | `'user+tag@example.org'` is accepted |
| StringValidators.NoLaterAtIsNotEmail | packages/string-utils/src/validators.ts:17 | a string with no `@` after its first character is rejected |
| StringValidators.NotEmailExamples | packages/string-utils/src/validators.ts:15-18 | `'invalid-email'`, `'test@'`, `'@example.com'`, `'test.example.com'` and `''` are rejected |
| StringValidators.IsAlphanumeric | packages/string-utils/src/validators.ts:49-51 | `/^[a-zA-Z0-9]+$/`: non-empty, and every character an ASCII letter or digit |
| StringValidators.IsAlphanumericIff | packages/string-utils/src/validators.ts:49-51 | isAlphanumeric holds iff the string is non-empty and every character is in `[a-zA-Z0-9]` |
| StringValidators.AlphanumericOf | packages/string-utils/src/validators.ts:49-51 | a non-empty string of letters and digits is accepted |
| StringValidators.NotAlphanumericAt | packages/string-utils/src/validators.ts:49-51 | one character outside `[a-zA-Z0-9]` rejects the string |
| StringValidators.AlphanumericExamplesMixed | packages/string-utils/src/validators.ts:49-51 | `'abc123'` and `'ABC123'` are accepted |
| StringValidators.AlphanumericExamplesPlain | packages/string-utils/src/validators.ts:49-51 | `'test'` and `'123'` are accepted |
| StringValidators.NotAlphanumericExamples | packages/string-utils/src/validators.ts:49-51 | `'abc-123'`, `'abc 123'`, `'abc@123'` and `''` are rejected |
| StringValidators.TrimEnd | packages/string-utils/src/validators.ts:65 | the result is a prefix of the input; every character cut off is whitespace or a line terminator; a non-empty result does not end in one |
| StringValidators.TrimEndKeepsFirst | packages/string-utils/src/validators.ts:65 | a string starting with a non-whitespace character stays non-empty after trimming the end |
| StringValidators.TrimEndOfWhite | packages/string-utils/src/validators.ts:65 | trimming the end of all-whitespace text leaves nothing |
| StringValidators.Trim | packages/string-utils/src/validators.ts:65 | `trim()`: the leading run of whitespace and line terminators skipped, then the trailing one dropped |
| StringValidators.TrimFacts | packages/string-utils/src/validators.ts:65 | `trim()` keeps a contiguous middle piece of the string; everything cut from either end is whitespace or a line terminator; a non-empty result neither starts nor ends with one |
| StringValidators.IsEmpty | packages/string-utils/src/validators.ts:64-66 | isEmpty: the trimmed string has length 0 |
| StringValidators.IsEmptyIffAllWhite | packages/string-utils/src/validators.ts:64-66 | isEmpty holds iff every character is ECMAScript whitespace or a line terminator |
| StringValidators.EmptyExamples | packages/string-utils/src/validators.ts:64-66 | `''`, `'   '` and `'\t\n  '` are empty; `'hello'`, `'a'` and `' a '` are not |
| StringValidators.HasMinLength | packages/string-utils/src/validators.ts:79-81 | hasMinLength: the length is at least the bound |
| StringValidators.HasMinLengthFacts | packages/string-utils/src/validators.ts:79-81 | `hasMinLength(s, n)` iff the length is at least `n`; always true for `n <= 0`; true for `n` implies true for every `m <= n` |
| StringValidators.AlphanumericIsNotEmptyNorEmail | packages/string-utils/src/validators.ts:49-51 | an alphanumeric string is neither empty nor an email address |
| StringValidators.IsUrl | packages/string-utils/src/validators.ts:30-37 | isUrl: whatever the host URL constructor accepts without throwing, given as a parameter |
| StringValidators.MatchesPattern | packages/string-utils/src/validators.ts:94-96 | matchesPattern: the caller's regular expression, given as its `test` function |
| StringValidators.CamelCaseIsAlphanumeric | packages/string-utils/src/validators.ts:49-51 | camelCase of text made of letters, digits and separators, with at least one letter or digit, is alphanumeric |
| StringValidators.CamelCaseHelloWorldIsAlphanumeric | packages/string-utils/src/validators.ts:49-51 | `isAlphanumeric(camelCase('hello world'))` |
| Decimal.DecimalString | packages/date-utils-tsup/src/formatters.ts:72 | `${n}` of an integer of magnitude below 1e21: a `-` for a negative number, then the decimal digits of its magnitude, most significant first |
| Decimal.NatDigitsFacts | packages/date-utils-tsup/src/formatters.ts:72 | the decimal digits of a natural number are non-empty and all digits, have no leading zero, and read back as the number |
| Decimal.DecimalRoundTrip | packages/date-utils-tsup/src/formatters.ts:72 | parsing the rendering of any integer gives the integer back |
| Decimal.DecimalStringFacts | packages/date-utils-tsup/src/formatters.ts:72 | the rendering is non-empty, starts with a digit or `-`, and is injective |
| JsNumber.Abs | packages/date-utils-tsup/src/formatters.ts:71 | `Math.abs` is non-negative and equals the argument or its negation |
| JsNumber.JsRem | packages/date-utils-tsup/src/formatters.ts:96 | JavaScript `%` by a positive divisor: the remainder has the sign of the dividend and is smaller than the divisor in magnitude |
| JsNumber.TruncDiv | packages/date-utils-tsup/src/formatters.ts:65-72 | not in the source: the quotient rounded toward zero (`Math.trunc`) that the corrected cascade of the finding on these lines uses in place of `Math.floor`; for a positive divisor a non-negative dividend gives a non-negative quotient, a negative one a non-positive quotient |
| JsNumber.TruncDivRemainder | packages/date-utils-tsup/src/formatters.ts:96 | JavaScript `%` is the remainder of the quotient rounded toward zero: divisor times truncated quotient plus remainder is the dividend |
| JsNumber.Sub | packages/date-utils-tsup/src/formatters.ts:65 | `date.getTime() - baseDate.getTime()`: NaN when either time value is NaN, otherwise the difference |
| JsNumber.Less | packages/date-utils-tsup/src/validators.ts:27 | `<` on time values: false whenever either side is NaN |
| JsDate.ToDateString | packages/date-utils-tsup/src/validators.ts:44-45 | `toDateString()`: "Invalid Date" for a NaN time value, otherwise the host text of the time value |
| JsDate.ShiftedCopy | packages/date-utils-tsup/src/validators.ts:56-57 | `new Date(d)` then `setDate(getDate() + k)`: for a NaN time value a NaN copy, otherwise the host day shift of the time value; `d` itself is a value and unchanged |
| JsDate.ValidDateText | packages/date-utils-tsup/src/validators.ts:44-47 | for a host whose date text is never "Invalid Date", a valid date's text is not "Invalid Date" |
| DateFormatters.RelativeFromDiff | packages/date-utils-tsup/src/formatters.ts:65-83 | the toRelativeTime cascade on a difference in ms: floored seconds, minutes, hours and days, then days, hours or minutes by the first unit whose magnitude is at least 1, "in N" when positive and "N ago" otherwise, else "just now" |
| DateFormatters.ToRelativeTime | packages/date-utils-tsup/src/formatters.ts:64-84 | toRelativeTime: the cascade on `date - baseDate`, and "just now" when that difference is NaN |
| DateFormatters.NestedFloors | packages/date-utils-tsup/src/formatters.ts:65-69 | the nested floors are direct floor divisions of the difference by a minute, an hour and a day |
| DateFormatters.RelativeTimeShiftInvariant | packages/date-utils-tsup/src/formatters.ts:64-65 | the result depends only on the difference `date - baseDate` |
| DateFormatters.RelativeTimeOfInvalid | packages/date-utils-tsup/src/formatters.ts:64-84 | a NaN difference fails every comparison and reads "just now" |
| DateFormatters.JustNowIff | packages/date-utils-tsup/src/formatters.ts:71-83 | "just now" exactly when `0 <= diff < 60000` |
| DateFormatters.RelativeTimePast | packages/date-utils-tsup/src/formatters.ts:65-72 | any difference from `-n` days up to (but not including) `-(n-1)` days reads "n day(s) ago", with `s` iff `n > 1` |
| DateFormatters.PastIsDays | packages/date-utils-tsup/src/formatters.ts:65-72 | every negative difference, even -1 ms, reads `N day(s) ago` with `N = -floor(diff / 86400000) >= 1`; the hour and minute "ago" branches are unreachable |
| DateFormatters.RelativeTimeFutureDays | packages/date-utils-tsup/src/formatters.ts:71-72 | n to n+1 days ahead reads "in n day(s)" |
| DateFormatters.RelativeTimeFutureHours | packages/date-utils-tsup/src/formatters.ts:75-76 | n to n+1 hours ahead, below a day, reads "in n hour(s)" |
| DateFormatters.RelativeTimeFutureMinutes | packages/date-utils-tsup/src/formatters.ts:79-80 | n to n+1 minutes ahead, below an hour, reads "in n minute(s)" |
| DateFormatters.CountedPlural | packages/date-utils-tsup/src/formatters.ts:72-80 | the unit word gets a trailing `s` iff the count is above one |
| DateFormatters.RelativeTimeHoursExample | packages/date-utils-tsup/src/formatters.ts:75-76 | two hours ahead reads "in 2 hours" |
| DateFormatters.RelativeTimeDaysExample | packages/date-utils-tsup/src/formatters.ts:71-72 | three days ahead reads "in 3 days" |
| DateFormatters.RelativeTimeMinutesExample | packages/date-utils-tsup/src/formatters.ts:79-80 | 90 seconds ahead reads "in 1 minute" |
| DateFormatters.RelativeTimePastExamples | packages/date-utils-tsup/src/formatters.ts:64-84 | one day back and a single millisecond back both read "1 day ago"; 59999 ms ahead reads "just now" |
| DateFormatters.TwoHoursAgoExample | packages/date-utils-tsup/src/formatters.ts:62-72 | as written, two hours back reads "1 day ago"; with truncation it reads "2 hours ago" |
| DateFormatters.RelativeFromDiffTruncated | packages/date-utils-tsup/src/formatters.ts:65-83 | the same cascade with each unit rounded toward zero (`Math.trunc`) in place of `Math.floor` |
| DateFormatters.TruncatedAgreesOnFuture | packages/date-utils-tsup/src/formatters.ts:65-83 | with `Math.trunc`, every non-negative difference reads as in the code as written |
| DateFormatters.TruncatedMirror | packages/date-utils-tsup/src/formatters.ts:71-81 | with `Math.trunc`, a difference of at least a minute reads "in X" and its negation reads "X ago" |
| DateFormatters.TruncatedJustNowIff | packages/date-utils-tsup/src/formatters.ts:71-83 | with `Math.trunc`, "just now" exactly when the difference is under a minute either way |
| DateFormatters.FormatDuration | packages/date-utils-tsup/src/formatters.ts:89-108 | formatDuration: floored seconds, minutes, hours and days; the largest positive unit first, followed by the smaller units taken modulo 24, 60 and 60 with JavaScript `%`; only the seconds when no unit is positive |
| DateFormatters.FormatDurationFields | packages/date-utils-tsup/src/formatters.ts:89-107 | for a non-negative duration whose whole seconds are `d·86400 + h·3600 + m·60 + s` with `h < 24`, `m < 60`, `s < 60`, the rendering is `Dd Hh Mm Ss` when `d > 0`, `Hh Mm Ss` when `h > 0`, `Mm Ss` when `m > 0`, else `Ss` |
| DateFormatters.FormatDurationRecombines | packages/date-utils-tsup/src/formatters.ts:90-104 | every non-negative duration is rendered from fields within those bounds that recombine to `floor(ms / 1000)` |
| DateFormatters.FormatDurationNegative | packages/date-utils-tsup/src/formatters.ts:107 | a negative duration renders only its negative floored seconds, followed by `s` |
| DateFormatters.FormatDurationDaysExample | packages/date-utils-tsup/src/formatters.ts:95-96 | `90061000` renders `"1d 1h 1m 1s"` |
| DateFormatters.FormatDurationHoursExample | packages/date-utils-tsup/src/formatters.ts:99-100 | `3600000` renders `"1h 0m 0s"` |
| DateFormatters.FormatDurationMinutesExample | packages/date-utils-tsup/src/formatters.ts:103-104 | `61000` renders `"1m 1s"` |
| DateFormatters.FormatDurationSecondsExamples | packages/date-utils-tsup/src/formatters.ts:107 | `-1` renders `"-1s"` and `0` renders `"0s"` |
| DateValidators.IsValidDate | packages/date-utils-tsup/src/validators.ts:8-10 | isValidDate: the time value is not NaN |
| DateValidators.MatchesIsoPattern | packages/date-utils-tsup/src/validators.ts:18 | the ISO regex: nineteen characters `DDDD-DD-DDTDD:DD:DD` with `D` a digit, then nothing, `Z`, `.DDD` or `.DDDZ` |
| DateValidators.IsISOString | packages/date-utils-tsup/src/validators.ts:15-20 | isISOString: the ISO regex matches and the host parses the text to a valid time value |
| DateValidators.IsPast | packages/date-utils-tsup/src/validators.ts:25-28 | isPast: a valid date strictly before the base date |
| DateValidators.IsFuture | packages/date-utils-tsup/src/validators.ts:33-36 | isFuture: a valid date strictly after the base date |
| DateValidators.IsToday | packages/date-utils-tsup/src/validators.ts:41-48 | isToday: a valid date whose `toDateString()` equals the base date's |
| DateValidators.IsYesterday | packages/date-utils-tsup/src/validators.ts:53-60 | isYesterday: a valid date whose `toDateString()` equals that of a copy of the base shifted one day back |
| DateValidators.IsTomorrow | packages/date-utils-tsup/src/validators.ts:65-72 | isTomorrow: a valid date whose `toDateString()` equals that of a copy of the base shifted one day ahead |
| DateValidators.IsInRange | packages/date-utils-tsup/src/validators.ts:77-87 | isInRange: all three dates valid and the time value between start and end, both ends included |
| DateValidators.IsWeekend | packages/date-utils-tsup/src/validators.ts:92-97 | isWeekend: a valid date whose `getDay()` is 0 or 6 |
| DateValidators.IsWeekday | packages/date-utils-tsup/src/validators.ts:102-107 | isWeekday: a valid date whose `getDay()` is 1 to 5 |
| DateValidators.IsLeapYear | packages/date-utils-tsup/src/validators.ts:112-114 | isLeapYear: divisible by 4 and not by 100, or divisible by 400, by JavaScript `%` |
| DateValidators.IsSameDay | packages/date-utils-tsup/src/validators.ts:119-123 | isSameDay: both dates valid with equal `toDateString()` |
| DateValidators.IsSameMonth | packages/date-utils-tsup/src/validators.ts:128-133 | isSameMonth: both dates valid with equal `getFullYear()` and `getMonth()` |
| DateValidators.IsSameYear | packages/date-utils-tsup/src/validators.ts:138-142 | isSameYear: both dates valid with equal `getFullYear()` |
| DateValidators.InvalidDateRejected | packages/date-utils-tsup/src/validators.ts:8-10 | every date predicate is false when its guarded date is invalid; isInRange and the isSame* predicates check every argument |
| DateValidators.InvalidBaseRejected | packages/date-utils-tsup/src/validators.ts:41-72 | for a host whose date text is never "Invalid Date", isToday, isYesterday and isTomorrow are false for an invalid base date |
| DateValidators.PastFutureExclusive | packages/date-utils-tsup/src/validators.ts:25-36 | isPast and isFuture are never both true; both are false at equal time values; for valid dates they are the strict comparisons |
| DateValidators.InRangeFacts | packages/date-utils-tsup/src/validators.ts:77-87 | isInRange is the inclusive comparison at both ends over valid dates, and false whenever start is after end |
| DateValidators.WeekendXorWeekday | packages/date-utils-tsup/src/validators.ts:92-107 | for a valid date whose week day is in 0..6, exactly one of isWeekend and isWeekday holds |
| DateValidators.LeapYearRule | packages/date-utils-tsup/src/validators.ts:112-114 | the Gregorian rule, with JavaScript's signed `%`: divisible by 400, or by 4 and not by 100, in each of its four cases |
| DateValidators.DivisibleByJsRem | packages/date-utils-tsup/src/validators.ts:113 | JavaScript's remainder by 4, 100 or 400 is zero exactly when the mathematical one is, negative years included |
| DateValidators.LeapYearExamples | packages/date-utils-tsup/src/validators.ts:112-114 | 2000, 2024 and -4 are leap years; 1900, 2023 and -100 are not |
| DateValidators.IsoStringShape | packages/date-utils-tsup/src/validators.ts:15-20 | an accepted string has the shape `DDDD-DD-DDTDD:DD:DD`, optionally `.DDD`, optionally `Z`, so its length is 19, 20, 23 or 24 |
| DateValidators.IsoPatternExamples | packages/date-utils-tsup/src/validators.ts:18 | the pattern accepts `2025-01-06T10:00:00Z`, `…00.123Z` and `…00.123`, and rejects a bare date, a space separator and a `+01:00` offset |
| DateValidators.TodayIsSameDay | packages/date-utils-tsup/src/validators.ts:41-48 | isToday equals isSameDay whenever the base date is valid, or the host never prints "Invalid Date" |
| DateValidators.NeighbourDaysAreShiftedSameDay | packages/date-utils-tsup/src/validators.ts:53-72 | for a host whose date text is never "Invalid Date", isYesterday and isTomorrow are isSameDay against a copy of the base shifted by -1 and +1 days; the base itself is a value and stays as it was |
| DateValidators.SameMonthFacts | packages/date-utils-tsup/src/validators.ts:128-142 | isSameMonth implies isSameYear; both are symmetric |

## Left out

- Non-ASCII case mapping: `toUpperCase`/`toLowerCase` are modelled on ASCII letters only. JavaScript's full Unicode mapping can change the length of a string (`'ß'` becomes `'SS'`).
- UTF-16: strings are sequences of Unicode characters, not of UTF-16 code units. `length` and `.` differ from JavaScript on characters outside the Basic Multilingual Plane.
- Floating point: time values, durations, lengths and years are unbounded integers. NaN appears only as an invalid date. Fractional or non-finite durations, lengths and years are not modelled. `DecimalString` prints plain digits at every magnitude, where JavaScript's `${n}` switches to exponent notation from 1e21 on (so `formatDuration(-1e24)` gives `"-1e+21s"`).
- `isUrl` and `matchesPattern`: each is the caller-supplied recogniser (`IsUrl`, `MatchesPattern`). They stand for the host URL parser inside try/catch and for an arbitrary `RegExp`, and they have no contract.
- `isISOString`: the second conjunct, the host's `Date` parse of the string, is the `Host.parse` parameter. The `typeof` check is dropped because Dafny values are typed.
- `isValidDate`: the `instanceof Date` test is dropped; every `Date` value is a date.
- Host calendar functions: `toDateString`, `getDay`, `getFullYear`, `getMonth` and local-time `setDate` are uninterpreted `Host` fields. Time zones, the calendar and the format of the date text are not modelled.
- Default arguments: the current time (`new Date()` as `baseDate`) is not modelled; `baseDate` is an explicit parameter. `truncate`'s default `suffix = '...'` is the constant `Ellipsis`, which a caller passes explicitly.
- `isYesterday` and `isTomorrow`: the copy of the base date and its in-place `setDate` are a value (`ShiftedCopy`). Only "the base is unchanged" and "the copy is shifted" are modelled, not the object identity.
- `toISOString`, `toHumanString`, `toShortDate`, `toTimeString` (packages/date-utils-tsup/src/formatters.ts:13-59): thin wrappers over host and `Intl` formatting with no logic of their own.
- Package wiring: the `index.ts` re-exports, `name`/`version` constants, build configurations and demo programs.

## Findings

| source | as written | input that shows it | evidently intended | confidence | as-written member | corrected member |
|---|---|---|---|---|---|---|
| packages/date-utils-tsup/src/formatters.ts:65-72 | a negative difference is floored, so `diffDays <= -1` and every past date reads "N day(s) ago" | `toRelativeTime` of a date two hours before the base (`diff = -7200000`) gives "1 day ago"; a date 1 ms before gives "1 day ago" | the "2 hours ago" of the doc comment at line 62: units counted toward zero (`Math.trunc`), so the past mirrors the future and a difference under a minute either way is "just now" | high, from the doc comment at line 62; not executed | DateFormatters.TwoHoursAgoExample | DateFormatters.TruncatedMirror |

`DateFormatters.RelativeFromDiff` is the code as written; `PastIsDays` states its behaviour for the past. `DateFormatters.RelativeFromDiffTruncated` is the same cascade with `Math.trunc` in place of `Math.floor`. `TruncatedAgreesOnFuture` shows it matches the code for every non-negative difference. `TruncatedMirror` and `TruncatedJustNowIff` state the intended behaviour for the past.
