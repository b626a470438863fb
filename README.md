# MrHiddBot core: Jalali dates, text chunking and request gating

This project models the computational core of a Telegram bot written in Python:

- **Date conversion** (`utils/converters.py`):
  - `to_jalali` turns a Gregorian date into Jalali text `YYYY/MM/DD`.
    It accepts a date value, a `YYYY-MM-DD` string with any non-digit separators, or a 3-tuple.
  - `to_gregorian` goes back from a Jalali string or tuple to a `datetime.date`.
    It converts through the Gregorian day of year and a loop that walks the months.
  - `to_persian` and `persian_numbers` turn ASCII digits into Persian digits.
  - `format_jalali` puts the pieces together into `۱۴۰۳/۰۴/۱۵ -- ۱۴:۳۰`.
- **Text chunking** (`utils/helpers.py`): `split_long_text`, and the same 3900-character split written inline in `myapp.py`.
- **Request gating** (`utils/decorators.py`):
  - the per-user sliding-window limiter of `rate_limit`, a class holding a map from user to timestamps with a `Request(user, now)` method;
  - the permission check of `require_permission`;
  - the active-bot guard of `register_command`.

Modules, one per file:

- `Wrappers`: Option and Result.
- `Digits`: the digit classes that `\d` matches, `int()` over digits, and `str()` and `02d` rendering.
- `Localize`: digit localisation.
- `DateParse`: the regular expression and the input shapes.
- `Calendar`: `datetime` validity, the day-of-year table and the month walk.
- `Jalali`: the two conversions and the formatter.
- `TextSplit`: chunking.
- `Gate`: the permission and active guards.
- `RateLimit`: the limiter.

How Python constructs are modelled:

- Errors that the source raises become `Result` values with the error kinds `InvalidFormat`, `InvalidType`, `InvalidDate`, `DateOutOfRange` and `IntegerOverflow`.
- `datetime` takes each argument as a C `int`; a number outside −2^31..2^31−1 makes it raise OverflowError, which the model reports as `IntegerOverflow`.
- The float factor `0.0305` becomes the exact integer expression `(x * 305) / 10000` for `x` in 0..131.
- `int(a / b)` becomes division truncated toward zero.
- `datetime`'s validity check uses the 4/100/400 leap rule with years 1..9999.
- The source's own "divisible by 4" leap rule is kept where the source uses it: in the day of year and in the month walk.

The two conversion directions use different constants. The source never promises that they invert each other, so no round-trip theorem is stated. One concrete date is checked both ways.

## Model

| member | source | states |
|---|---|---|
| Localize.LocalizeChar | utils/converters.py:11-15 | an ASCII digit becomes the Persian digit with the same value; every other character is copied unchanged |
| Localize.ToPersian | utils/converters.py:9-15 | the result has the input's length, maps each character through the digit table, and contains no ASCII digit |
| Localize.ToPersianIdempotent | utils/converters.py:143-149 | localising twice gives the same string as localising once |
| Localize.ToAsciiUndoesToPersian | utils/converters.py:143-149 | on text without Persian digits, mapping Persian digits back to ASCII undoes localisation |
| Localize.ToPersianUndoesToAscii | utils/converters.py:143-149 | on text without ASCII digits, localisation undoes the reverse mapping, so the two are inverse bijections |
| Localize.ToPersianConcat | utils/converters.py:162 | localising a concatenation is the concatenation of the localised parts (so `format_jalali` localises date and time separately) |
| Localize.ToPersianSlice | utils/converters.py:15 | localisation commutes with slicing |
| Localize.LocalizeKeepsDigits | utils/converters.py:12-13 | a character is a decimal digit after localisation iff it was one before, and its digit value is kept |
| Localize.ToPersianKeepsValue | utils/converters.py:12-15 | a localised digit string is still all digits and `int()` reads it as the same number |
| Digits.DecimalValue | utils/converters.py:37 | `int()` of a run of k decimal digits is below 10^k |
| Digits.NatToString | utils/converters.py:83 | `str(n)` is non-empty, all ASCII digits, reads back as `n`, and has no leading zero |
| Digits.IntToString | utils/converters.py:83 | `str(n)` of a non-negative number is non-empty, all ASCII digits reading back as `n`, with no leading zero; of a negative number, `-` followed by ASCII digits reading back as `-n`, again with no leading zero |
| Digits.Pad2 | utils/converters.py:83 | `format(n, "02d")` has at least two ASCII digits, exactly two below 100, and reads back as `n` |
| Digits.NatToStringWidth | utils/converters.py:83 | numbers from 10 on render with at least two digits, numbers below 100 with at most two |
| Digits.FourDigitYear | utils/converters.py:83 | a year in 1000..9999 renders as exactly four characters |
| DateParse.StripFinalNewline | utils/converters.py:34 | `$` also matches before one final newline, which is removed and nothing else |
| DateParse.MatchGroups | utils/converters.py:34 | a match yields three groups: four decimal digits, then one or two, then one or two |
| DateParse.MatchGroupsSound | utils/converters.py:34 | every string the pattern accepts is four digits, a non-digit, one or two digits, a non-digit, one or two digits, and an optional final newline, and the groups are those pieces |
| DateParse.MatchGroupsComplete | utils/converters.py:97 | every string of that shape is accepted, with exactly its own groups |
| DateParse.ParseYmd | utils/converters.py:34-37 | the parse succeeds iff the pattern matches; the year is at most 9999, month and day at most 99 |
| DateParse.ParseAssembled | utils/converters.py:34-37 | a well-formed assembly of groups and separators parses to `int()` of its own year, month and day groups, with or without a final newline |
| DateParse.ExtractTriple | utils/converters.py:31-41 | TypeError exactly for other values, tuples whose length is not 3, and date values passed to `to_gregorian`; a format ValueError exactly for strings the pattern rejects; otherwise the parsed triple, the tuple's items, or the date value's own year, month and day |
| Calendar.IsValidGregorian | utils/converters.py:44-47 | an accepted triple fits C `int`s, has a day in 1..31, at most 30 in April, June, September and November, at most 29 in February, and 29 February only in a 4/100/400 leap year |
| Calendar.DaysInMonth | utils/converters.py:45 | month lengths are 28..31, and February has 29 days iff the year is a 4/100/400 leap year |
| Calendar.GregorianDayOfYear | utils/converters.py:50-54 | `doy_g` equals the lengths of the months before `month` in the walk table of utils/converters.py:135, plus `day` |
| Calendar.GregorianDayOfYearRange | utils/converters.py:50-54 | `doy_g` of a real Gregorian day lies in 1..366, and in 1..365 when the year is not divisible by 4 |
| Calendar.WalkTable | utils/converters.py:135 | the walked list has 13 entries starting with 0, and each month's entry equals the `datetime` month length exactly unless it is February of a year where the divisible-by-4 rule and the 4/100/400 rule disagree |
| Calendar.WalkPrefixIsDaysBefore | utils/converters.py:135 | the running sums of the walked month lengths equal the `g_a` table with the same leap correction, and the full walk covers the year length |
| Calendar.WalkMonths | utils/converters.py:135-138 | the loop ends on month 0 for a day of year ≤ 0; for a day of year inside the year it ends on a month in 1..12 and a day within that month whose day of year is the input; past the year it runs off to month 12 |
| Calendar.DayOfYearInjective | utils/converters.py:135-138 | two month/day pairs with the same day of year are equal, so the walk's result is the only one possible |
| Calendar.WalkTableVersusDatetime | utils/converters.py:135-140 | `datetime.date` accepts what the walk produces iff the year is ≤ 9999 and the walk did not produce Feb 29 of a year divisible by 4 that is not a leap year |
| Jalali.TruncDiv | utils/converters.py:63 | `int(a / b)` truncates toward zero, from below for non-negative `a` and from above for negative `a` |
| Jalali.CyclePosition | utils/converters.py:56 | `int((x % 132) * 0.0305)` is always in 0..3 |
| Jalali.ToJalaliCorrections | utils/converters.py:56-65 | in `to_jalali`, `a` is in 285..287, `b` in 78..81, and `a + b ≤ 366` for every year, with or without the secondary correction |
| Jalali.ToGregorianCorrections | utils/converters.py:117-126 | the same ranges in `to_gregorian`, and `a + b ≤ 365` whenever `(year + 1) % 4 != 0` |
| Jalali.IsValidJalali | utils/converters.py:107-108 | the validation accepts exactly a year ≥ 1 with a month in 1..12 and a day that exists in a month of 31 (months 1..6) or 30 (months 7..12) days |
| Jalali.JalaliDaysBeforeClosedForm | utils/converters.py:112-115 | the days of the months before `m` are `31(m-1)` up to month 7 and `186 + 30(m-7)` after |
| Jalali.JalaliDayOfYear | utils/converters.py:112-115 | `doy_j` equals the number of days in the Jalali months before `month`, plus `day` |
| Jalali.JalaliMonthDay | utils/converters.py:74-81 | a Jalali day of year in 1..366 splits into month 1..12 and a day that exists in that month, and the split inverts the day-of-year formula |
| Jalali.JalaliSplitRoundTrip | utils/converters.py:112-115 | the day of year of a valid month and day is in 1..366 and splits back into that month and day |
| Jalali.GregorianToJalali | utils/converters.py:50-81 | the output has month 1..12 with a day that exists in that month; the Jalali year is `year - 621` iff `doy_g > b`, else `year - 622`; the Jalali day of year is `doy_g - b` or `doy_g + a` |
| Jalali.JalaliText | utils/converters.py:83 | the text starts with `str(year)` and a slash; for a month and day below 100 it ends with two ASCII digits reading as the month, a slash, and two ASCII digits reading as the day |
| Jalali.ToJalali | utils/converters.py:20-83 | shape and format errors pass through; OverflowError iff a number does not fit a C `int`; InvalidDate iff the numbers fit but are not a real Gregorian day; success iff the triple is a real day, and then the rendered conversion; no other error is possible |
| Jalali.JalaliValidityBoundary | utils/converters.py:107-108 | month 12 day 30 is accepted in every year ≥ 1, and month 7 day 31 in none |
| Jalali.JalaliToGregorianDay | utils/converters.py:111-133 | the Gregorian year is `year + 621` iff `doy_j ≤ a`, else `year + 622`; the Gregorian day of year lies within that year's length under the divisible-by-4 rule |
| Jalali.ToGregorian | utils/converters.py:86-140 | shape and format errors pass through; InvalidDate iff the Jalali validation fails; OverflowError iff the Gregorian year does not fit a C `int`; DateOutOfRange iff it fits but passes 9999, or the walk lands on Feb 29 of a year like 2100; success exactly otherwise, with a real Gregorian date in the computed year whose day of year is the computed one |
| Jalali.ConsecutiveDays | utils/converters.py:67-72 | within one Gregorian year, the next day maps to the next Jalali day, or to 1/1 of the next Jalali year after day `a + b` |
| Jalali.TimeSuffix | utils/converters.py:159 | the time part is nine characters: ` -- `, two ASCII digits reading as the hour, `:`, and two reading as the minute |
| Jalali.FormatJalali | utils/converters.py:152-162 | for a real datetime, `to_jalali` succeeds; the result is the localised date, followed by the localised ` -- HH:MM` only when asked; it contains no ASCII digit |
| Jalali.JalaliTextParses | utils/converters.py:83 | `to_jalali`'s output for a four-digit year matches the date pattern and parses back to that Jalali date |
| Jalali.LocalizedTextParses | utils/converters.py:157-162 | the localised form of `to_jalali`'s output for a four-digit year still parses back to that Jalali date |
| Jalali.FormattedDateParses | utils/converters.py:157-162 | `format_jalali`'s date-only output still matches the pattern and parses back to the Jalali date |
| Jalali.LocalizedTimeSuffix | utils/converters.py:159 | the localised time part is ` -- `, two digits reading as the hour, `:`, and two digits reading as the minute |
| Jalali.SuffixedShape | utils/converters.py:158-162 | a string followed by the localised time part ends in nine characters: ` -- `, two digits reading as the hour, `:`, and two reading as the minute; with FormatJalali's contract this is the shape of the with-time output |
| Jalali.SummerDayToJalali | utils/converters.py:20-83 | `to_jalali("2024-07-05")` is `1403/04/15` |
| Jalali.SummerDayParses | utils/converters.py:34-37 | `2024-07-05` parses as (2024, 7, 5) |
| Jalali.SummerDayRenders | utils/converters.py:50-83 | 2024-07-05 converts to Jalali 1403/4/15, rendered `1403/04/15` |
| Jalali.SummerDayConverts | utils/converters.py:50-81 | 2024-07-05 is day 187, the corrections are a = 286 and b = 79, and Jalali day 108 is 4/15 of 1403 |
| Jalali.SummerDayToGregorian | utils/converters.py:111-133 | 1403/04/15 converts back to day 187 of 2024, which is July 5 |
| Jalali.FormatDateExample | utils/converters.py:152-162 | `format_jalali` without time gives `۱۴۰۳/۰۴/۱۵` for 2024-07-05 |
| Jalali.TimeSuffixExample | utils/converters.py:155-159 | the time part for 14:30 is ` -- ۱۴:۳۰`, as the docstring shows |
| Jalali.February30Rejected | utils/converters.py:44-47 | `2023-02-30` matches the pattern but is rejected as an invalid date |
| Jalali.February30Parses | utils/converters.py:34-37 | "2023-02-30" matches the date pattern and parses as (2023, 2, 30) |
| Jalali.LeapDay2023Rejected | utils/converters.py:44-47 | (2023, 2, 29) is rejected as an invalid date |
| Jalali.LeapDay2024Accepted | utils/converters.py:44-47 | (2024, 2, 29) converts |
| Jalali.ForeignValueRejected | utils/converters.py:38-41 | a value of another type and a 2-tuple raise TypeError |
| Jalali.CenturyLeapDayExample | utils/converters.py:124-140 | Jalali 1478/12/10 is valid and maps to day 60 of 2100, a year divisible by 4 that is not a leap year, so `datetime.date` refuses it |
| Jalali.OverflowTupleRejected | utils/converters.py:44-47 | the tuple (2^31, 1, 1) raises OverflowError rather than the caught ValueError |
| Jalali.OverflowYearExample | utils/converters.py:107-140 | Jalali 2147483027/01/01 passes validation and lands in Gregorian year 2^31, so `datetime.date` raises OverflowError |
| TextSplit.SplitLongText | utils/helpers.py:30-32 | a negative width gives no pieces; a positive width gives pieces that join to the text, are non-empty, at most the width long, and all but the last exactly the width |
| TextSplit.ChunksFromConcat | utils/helpers.py:32 | joining the pieces from a start position gives the text from that position |
| TextSplit.ChunksFromSizes | utils/helpers.py:32 | every piece is non-empty and at most `max_length` long; all but the last are exactly `max_length` long |
| TextSplit.ChunksFromCount | utils/helpers.py:32 | the number of pieces is the ceiling of the remaining length over `max_length` |
| TextSplit.SplitLongTextSpec | utils/helpers.py:30-32 | for a positive width: the pieces join to the text, are well sized, number ⌈len/width⌉, and are empty iff the text is |
| TextSplit.JoinWith | myapp.py:131 | `sep.join(pieces)` is as long as the pieces plus one separator between each two neighbours, and starts with the first piece followed by the separator |
| TextSplit.LongAnswerChunks | myapp.py:125-129 | an answer longer than 3900 splits into at least two pieces: the first is its first 3900 characters and the others join back into the rest; the rest is a single piece when the answer is at most 7800 characters, and otherwise there are at least three pieces and the second is the next 3900 characters |
| TextSplit.LongAnswerParts | myapp.py:125-131 | the shown part of an answer longer than 3900 is its first 3900 characters; the joined remainder (never read afterwards: the "show more" handler at myapp.py:169 splits the answer again) is the rest with a blank line between pieces: two characters longer per extra piece, the rest itself when the answer is at most 7800 characters, and otherwise the next 3900 characters then a blank line |
| Gate.GuardAllows | utils/decorators.py:33-34 | a critical command always runs; a non-critical command runs iff the bot is active |
| Gate.PermissionLevel | database/utils.py:19-26 | the owner has level 3; another user has the stored level, or 0 without a row |
| Gate.PermissionAllows | utils/decorators.py:67-80 | the owner always passes; any other user passes iff their level is at least the required one |
| Gate.PermissionMonotone | utils/decorators.py:122-129 | passing a level implies passing every lower level, so owner-only implies admin-only |
| Gate.NoRowMeansOrdinary | database/utils.py:23-26 | a non-owner without a permission row passes exactly the commands that require level 0 or less |
| Gate.ApplyOwnerCommand | handlers/admin.py:13-26 | "bot off" always leaves the bot off; "bot on" leaves it on iff it was on or the command is critical; other commands change nothing |
| Gate.RunOwnerCommands | handlers/admin.py:13-26 | after owner commands ending in "bot off" the bot is off; commands that switch nothing leave the flag as it was |
| Gate.BotOnAsWrittenStaysOff | handlers/admin.py:21-26 | with "bot on" registered as written, once the bot is off no sequence of owner commands turns it back on |
| Gate.BotOnCriticalReactivates | handlers/admin.py:21-26 | with "bot on" registered as critical, it reactivates the bot after any history |
| RateLimit.Prune | utils/decorators.py:104-106 | pruning never lengthens the list and keeps exactly the timestamps with `now - t < interval` |
| RateLimit.PruneConcat | utils/decorators.py:104-106 | pruning works element by element, so it keeps the stored order |
| RateLimit.PruneKeepsRecent | utils/decorators.py:104-106 | a list of recent timestamps survives pruning unchanged |
| RateLimit.PruneIdempotent | utils/decorators.py:104-106 | pruning twice at the same moment is pruning once |
| RateLimit.Admit | utils/decorators.py:104-114 | the stored list is the pruned list, with `now` appended iff admitted; an admitted call leaves at most `limit` entries; a refused call found at least `limit` |
| RateLimit.AdmitKeepsBound | utils/decorators.py:104-114 | if a user's list is within the limit before a call, it is within the limit after |
| RateLimit.WindowBound | utils/decorators.py:99-115 | with calls already admitted in a window, the admitted and the newly admitted calls in that window together stay within the limit |
| RateLimit.AtMostLimitPerWindow | utils/decorators.py:87-115 | whatever the history, at most `limit` calls of one user inside any window of length `interval` are admitted |
| RateLimit.RateLimiter.constructor | utils/decorators.py:94 | a new decorator starts with no stored timestamps |
| RateLimit.RateLimiter.Request | utils/decorators.py:99-115 | the caller's list is pruned; the call is admitted iff fewer than `limit` entries remain, and then `now` is appended; a refused call stores the pruned list; other users' lists are untouched; the per-user bound is preserved |

## Left out

- Only three digit blocks count as `\d` and `int()` digits: ASCII, Arabic-Indic U+0660–0669 and Persian U+06F0–06F9. Python also accepts the other Unicode decimal-digit blocks, which the model leaves out to keep the character classes finite.
- Floating point: `time.time()` timestamps are exact reals. `int(x * 0.0305)` and `int(a / b)` are exact integer arithmetic. The model assumes float rounding never changes these results.
- Tuples whose items are not integers are not modelled. The model's tuples hold integers only.
- DateParse.ExtractTriple: a `DateValue` can hold any triple, while a real `date` object always holds a valid one. Python still re-checks validity at utils/converters.py:44-45 for every input shape, and so does the model, but the invalid `DateValue`s it refuses there cannot occur in Python.
- I/O and wiring are left out because they happen outside the core: the async pyrogram handlers, message replies, logging, the `try`/`except` in `register_command`, the `database_required` decorator, and the ORM queries. Query results (the stored permission level, the bot's active flag) are inputs.
- Wall-clock reads are left out: `time.time()` is the parameter `now`.
- `format_response` and `extract_user_info` are left out because they only build strings from the clock and from a pyrogram `Message`.
- The order in which stacked decorators run is not modelled. Gate.ApplyOwnerCommand only assumes that both admin handlers require level 3, which the owner passes.
- `to_gregorian` can also fail at `datetime.date` (utils/converters.py:140), after its own validation: past year 9999, and when the walk lands on February 29 of a year divisible by 4 that is not a leap year. The model reports both as `DateOutOfRange`, and a year beyond a C `int` as `IntegerOverflow`.
- Jalali validity follows the code at `utils/converters.py:107-108`. It accepts month 12 day 30 in every year, though Esfand has 30 days only in Jalali leap years.
- The Gregorian day-of-year and the month walk keep the source's divisible-by-4 leap rule rather than the full Gregorian rule.
- Jalali.FormatJalali: stated for a valid datetime only, since a `datetime` value cannot hold anything else.
- TextSplit.SplitLongText: a width of 0, for which `range` raises ValueError at utils/helpers.py:32, is excluded by its precondition rather than modelled as an error.

## Findings

| source | as written | input that shows it | evidently intended | confidence | as-written member | corrected member |
|---|---|---|---|---|---|---|
| handlers/admin.py:21 | the "bot on" command is registered without `critical=True`, so the guard at utils/decorators.py:33 refuses it while the bot is inactive | the owner sends "بات خاموش" (bot off) and then "بات روشن" (bot on): the second command is ignored, and the stored status stays inactive for every later command | "bot on" registered as critical, the flag's documented use, so it can reactivate the bot | high, not executed | Gate.BotOnAsWrittenStaysOff | Gate.BotOnCriticalReactivates |
