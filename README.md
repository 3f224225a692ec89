# Registration form: validation, age and persistence

This project models the logic of a browser registration form (`index.js`). A
submission carries a name, an e-mail address, a password, a date of birth and a
terms-accepted checkbox. The form checks the fields in a fixed order and stops
at the first failure. An accepted submission is appended to an in-memory
registry of users (`users`), and the whole registry is written to
`localStorage` under the single key `users`. On page load the registry is
read back. A stored value that is missing or empty gives an empty registry.
A stored value that is not an array, or not JSON at all, also gives an empty
registry, and it is overwritten with an empty array.

Modules:

- `Wrappers` (`wrappers.dfy`): `Option` (JavaScript's `null`) and `Result`.
- `JsStrings` (`js_strings.dfy`): the white-space set shared by
  `String.prototype.trim` and the regular-expression class `\s`; `trim`; and
  `length`, which counts UTF-16 code units (a character outside the Basic
  Multilingual Plane counts twice).
- `Email` (`email.dfy`): `isValidEmail`. It is written as a search for the
  first `@` followed by checks on the parts before and after it. It is proved
  equal to the language of `^[^\s@]+@[^\s@]+\.[^\s@]+$`, which is read off the
  pattern as three segments joined by `@` and `.`. The pattern has no `u`
  flag, so it sees a character outside the Basic Multilingual Plane as two
  code units. Both units match `[^\s@]`, so reading whole characters accepts
  the same strings.
- `Dates` (`dates.dfy`): calendar dates, the `YYYY-MM-DD` form an HTML date
  input yields (parse and format proved inverse), and `calculateAge`. The
  latter is proved to be the number of completed years. The file also holds
  `calculateAge` as the browser actually evaluates it, with the local-time
  shift described under "## Findings".
- `Validation` (`validation.dfy`): the submit handler's chain of checks. The
  error it reports is proved to be the first rule the submission breaks.
- `Store` (`store.dfy`): `localStorage` as a `Storage` object. `Registry` is a
  class holding `users`, with methods `Save` (`saveUsers`), `Load`
  (`loadUsers`) and `Submit` (the registering part of the submit handler).
  Each method's new state is tied to a function of the old state. Lemmas
  about those functions give the save/load round trip, the recovery from
  corrupt data, and that a save touches only its own key.

Inputs from the environment:

- "Today" is a parameter (the source calls `new Date()`).
- Whether the storage probe succeeds is the `Storage.available` field.
- Whether the browser refuses a write (quota exceeded or another error) is a
  parameter `fault` of the operations that write.

The last segment of the e-mail pattern excludes `@` as well as white space
(`[^\s@]+`), so `a@b.c@d` is rejected.

## Model

| member | source | states |
|---|---|---|
| `JsStrings.TrimStart` | index.js:151-152 | the result is the suffix of the input left after dropping leading white space only, and it does not start with white space |
| `JsStrings.TrimEnd` | index.js:151-152 | the result is the prefix of the input left after dropping trailing white space only, and it does not end with white space |
| `JsStrings.TrimIsTrimStartThenEnd` | index.js:151-152 | `trim` is dropping leading white space and then trailing white space |
| `JsStrings.TrimIsInnerSlice` | index.js:151-152 | `trim` yields a slice `s[i..j]` with only white space cut off on either side |
| `JsStrings.TrimHasNoOuterSpace` | index.js:151-152 | the trimmed string neither starts nor ends with white space |
| `JsStrings.TrimEmptyIffAllSpace` | index.js:158 | the trimmed name is empty exactly when the raw name is all white space |
| `JsStrings.TrimIdempotent` | index.js:151-152 | trimming twice is trimming once, so stored names and e-mails are already trimmed |
| `JsStrings.Utf16Length` | index.js:169 | `password.length` lies between the number of characters and twice that number |
| `JsStrings.Utf16LengthAppend` | index.js:169 | `length` of a concatenation is the sum of the lengths |
| `JsStrings.Utf16LengthIsCountIffBmp` | index.js:169 | `length` equals the character count exactly when every character is in the Basic Multilingual Plane |
| `Email.IndexOf` | index.js:67 | returns the first position of the character, or `None` exactly when it does not occur |
| `Email.EmailCheckMatchesPattern` | index.js:65-69 | `isValidEmail` accepts exactly the strings matched by `^[^\s@]+@[^\s@]+\.[^\s@]+$` |
| `Email.ValidEmailMatches` | index.js:67 | an accepted address splits into the three segments of the pattern |
| `Email.MatchIsValidEmail` | index.js:67 | a string built from the pattern's three segments is accepted |
| `Email.ValidEmailHasOneAt` | index.js:67 | an accepted address contains exactly one `@` |
| `Email.EmailSamples` | index.js:65-69 | `a@b.c` is accepted |
| `Email.EmailSamplesRejected` | index.js:65-69 | `a@b`, `ab.com`, `a b@c.d` and `a@b@c.d` are rejected |
| `Email.EmailSamplesEmptySegment` | index.js:65-69 | `@b.c`, `a@.c` and `a@b.` are rejected: each of the three segments must be non-empty |
| `Dates.DigitsValue` | index.js:74 | a field of `k` decimal digits has a value below 10^k |
| `Dates.FormatDigits` | index.js:154 | writing a number in a field of width `k` gives `k` decimal digits |
| `Dates.DigitsRoundTrip` | index.js:74 | reading back a number written in a wide enough field gives the number |
| `Dates.DigitsCanonical` | index.js:74 | a digit field is the zero-padded form of its own value |
| `Dates.ParseDob` | index.js:74-77 | a date of birth that parses names an existing calendar day with a four-digit year; anything else, the empty string included, is an invalid date |
| `Dates.FormatDate` | index.js:154 | the `YYYY-MM-DD` form of a date is ten characters long |
| `Dates.ParseFormatDate` | index.js:74-77 | every existing day with a four-digit year is read back from its `YYYY-MM-DD` form |
| `Dates.FormatParseDate` | index.js:74-77 | a string that parses is exactly the `YYYY-MM-DD` form of the date it denotes |
| `Dates.CalculateAge` | index.js:72-93 | the result is `null` exactly when the date does not parse, and otherwise the age on the parsed date; there is no other outcome |
| `Dates.AgeIsCompletedYears` | index.js:80-88 | the age's anniversary has been reached by today and the next anniversary has not |
| `Dates.CompletedYearsDetermineAge` | index.js:80-88 | any count of years with that property is the age |
| `Dates.AgeMonotone` | index.js:80-88 | the age never decreases as today moves later |
| `Dates.AgeOnAndBeforeBirthday` | index.js:84-87 | born `n` years ago today gives `n`; with the birthday still ahead this year it gives `n - 1` |
| `Dates.PrevDay` | index.js:74-82 | the calendar day before a valid date: valid, strictly earlier, and no valid date lies strictly between the two |
| `Dates.CalculateAgeAsWritten` | index.js:74-88 | as the code runs in a browser at a given UTC offset: `null` exactly when the date does not parse, otherwise the age of the birth date as read in local time |
| `Dates.AsWrittenAgreesEastOfUtc` | index.js:74-88 | at UTC and east of it, the code's age equals the age on the date as typed |
| `Dates.AsWrittenAgesEarlyWestOfUtc` | index.js:74-88 | born 2008-10-15, on 2026-10-14 at UTC-05:00 the code gives 18 while the completed years are 17 |
| `Dates.AsWrittenAgeOnEveOfBirthday` | index.js:80-88 | west of UTC, for a birthday on the 2nd of a month or later, on the day before the `n`-th birthday the code already gives `n`, while the completed years are `n - 1` |
| `Validation.Validate` | index.js:151-201 | every accepted record has a non-empty trimmed name, a trimmed e-mail of the accepted shape, a password of at least 6 UTF-16 units, a parseable date of birth and accepted terms |
| `Validation.ValidateFollowsRules` | index.js:157-201 | the handler's outcome is the chain of the seven rules taken in source order: the first rule that fails is reported, and when none fails the record holds the trimmed name and e-mail and the password, date of birth and terms flag as entered |
| `Validation.ValidateReportsFirstFailure` | index.js:157-192 | the reported error is `e` exactly when rule `e` fails and every rule checked before it holds (name, e-mail, password, dob present, dob parseable, age in 18..55, terms) |
| `Validation.ValidateAcceptsIffAllPass` | index.js:194-201 | a submission is accepted exactly when all seven rules hold; the record is the trimmed name and e-mail, the raw password and dob, and `acceptTerms` |
| `Validation.AgeLimitsOnBirthday` | index.js:184-187 | both limits are inclusive: born `n` years ago today, accepted exactly for n in 18..55; with the birthday still ahead this year, exactly for n in 19..56; any refusal is the age-range error |
| `Store.Storage.Probe` | index.js:5-15 | the probe succeeds exactly when storage is writable; its only net effect is to remove the probe key |
| `Store.Storage.GetItem` | index.js:25 | the stored value under the key, or `null` exactly when the key is absent |
| `Store.Storage.SetItem` | index.js:53 | the key now holds the value, unless the browser raises a fault, which is reported and leaves storage unchanged |
| `Store.Registry.constructor` | index.js:2 | the registry starts empty |
| `Store.Registry.Save` | index.js:47-62 | the registry is unchanged; unavailable storage is skipped and left alone; a refused write is reported; otherwise the users key holds the encoded registry |
| `Store.Registry.Load` | index.js:18-44 | unavailable storage gives an empty registry and storage is untouched; a stored array is adopted; nothing or `""` gives empty; a non-array or non-JSON value gives empty and is overwritten with an empty array unless the write is refused, in which case it stays |
| `Store.Registry.Submit` | index.js:151-207 | a rejected submission reports the first failing rule and changes neither the registry nor storage; an accepted one appends exactly its record and then saves the registry |
| `Store.SaveTouchesOnlyUsersKey` | index.js:53 | saving leaves every key other than `users` (and the probe key) as it was |
| `Store.SaveStoresWholeRegistry` | index.js:47-61 | a save succeeds exactly when storage is available and the write is not refused; the users key then holds the whole registry; otherwise it keeps its old value |
| `Store.SaveThenLoadRoundTrip` | index.js:25-29 | loading right after a successful save restores exactly the saved registry |
| `Store.LoadRecoversEmpty` | index.js:18-37 | loading gives an empty registry when storage is unavailable (storage untouched), when nothing or `""` is stored (nothing written), and when the value is corrupt |
| `Store.CorruptionIsOverwritten` | index.js:30-43 | after a corrupt value is found, a second load also gives an empty registry; if the overwrite went through, it finds an empty array and does not reset again |
| `Store.SaveThenLoad` | index.js:18-62 | from the method contracts alone: a successful save followed by a load leaves the registry as it was |
| `Store.LoadTwice` | index.js:30-43 | from the method contracts alone: a load after a reset gives an empty registry, and it is a plain load once the overwrite succeeded |
| `Store.SubmitEffect` | index.js:203-207 | from the method contracts alone: a rejection leaves the registry unchanged; an acceptance keeps every earlier entry and adds one well-formed record at the end, whether or not saving it worked |

## Left out

- `displayUsers` and `showError`: DOM rendering and the 5-second auto-hide timer are presentation only. Errors appear as `ValidationError`, `SaveOutcome` and `LoadOutcome` values instead of messages.
- Event wiring, `preventDefault`, `registrationForm.reset()` and the `DOMContentLoaded` handler are UI plumbing. The missing-form branch (index.js:215-218) is not modelled.
- `console` logging is not modelled.
- `JSON.stringify` and `JSON.parse` are modelled by an abstract stored value `Blob` with encoding `Encode`. `Blob` is the empty string, an encoded array of records, well-formed JSON that is not an array, or text that is not JSON. Decode after encode is the identity by construction.
- Stored arrays whose elements are not user records: `loadUsers` adopts any array, but `EncodedArray` holds records only.
- Exceptions from `localStorage.getItem` inside the `try` of `loadUsers` are not modelled. Only a parse failure reaches its `catch` in the model.
- The storage probe is modelled by its net effect: the probe key is removed when storage is writable.
- The probe's outcome (`Storage.available`) and each write's outcome (`fault`) are independent inputs. The model does not tie them to a common cause such as a full quota.
- `QuotaExceededError` versus other write errors only selects a message in the source. Here it is the two-valued `WriteFailure`.
- Dates of birth: only the `YYYY-MM-DD` form with a four-digit year is parsed. That is what an HTML date input yields. Other forms `new Date` accepts are not modelled.
- Impossible days such as `2024-02-30` are rejected. Some JavaScript engines roll them over into the next month instead.
- The local-time shift of the birth date (see "## Findings") is modelled only in `Dates.CalculateAgeAsWritten`. `Validate` uses the corrected `Dates.CalculateAge`, and only offsets between UTC-12:00 and UTC+14:00 are covered.
- "Today" is a parameter. The `catch` of `calculateAge` (index.js:89-92) is not modelled, because nothing in the modelled computation throws.

## Findings

| source | as written | input that shows it | evidently intended | confidence | as-written member | corrected member |
|---|---|---|---|---|---|---|
| index.js:74-88 | `new Date(dob)` on a `YYYY-MM-DD` string is midnight UTC, but the age is taken from the local-time getters `getFullYear`, `getMonth` and `getDate`; west of UTC the birth date reads as the previous day | dob `2008-10-15`, today 2026-10-14, browser at UTC-05:00: the code computes 18 where 17 years are completed, so a 17-year-old passes the 18..55 check one day early | the age on the date as typed, i.e. the number of completed years (`Dates.AgeIsCompletedYears`) | high for the arithmetic (proved); the browser behaviour follows the ECMAScript rule that date-only strings are UTC; not executed | `Dates.AsWrittenAgesEarlyWestOfUtc` | `Dates.CalculateAge` |
