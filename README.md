# Jira timesheet bot: period parser, report layout and credential table

This project models, in Dafny, the three pure or self-contained parts of a
Mattermost bot that builds Jira timesheet reports:

- **The period parser** (`DateParser.parse_period`, date_parser.py) takes a
  free-form Russian phrase and today's date, and answers one of three ways:
  a start and end date written `YYYY-MM-DD` with an explanation; no dates
  with an explanation; or an exception that escapes.
  - The text is lower-cased and stripped, and stopwords are removed.
  - Explicit ISO dates win. After them come the fixed phrases ("сегодня",
    "прошлая неделя", "этот квартал", …) in table order.
  - Then, in turn: month names and month ranges, named quarters,
    "последние N дней/недель/месяцев", and day-to-day ranges.
  - Every regular expression is modelled as a matcher at one index plus a
    search for the leftmost match.
  - Python's `datetime` is modelled in `Calendar`: ordinals, `weekday()`,
    `timedelta` overflow and `strftime('%Y-%m-%d')`.
  - Python's `str` helpers (`\s`, `\w`, `lower`, `strip`, string `<=`) are
    modelled in `Text`.
- **The report generator** (excel_generator.py) contributes three pieces:
  - the file names it proposes;
  - its column-width table;
  - the row arithmetic of the sheet: a header row, one row per worklog, a
    totals row and, for a summary over several projects, one statistics row
    per project with its record count. This part is imperative, as in the
    source: loops fill maps of rows and count records per project.
- **The credential table** (`UserAuthManager`, user_auth.py) is a class
  whose `sessions` field maps user ids to session maps. Save, remove and
  update methods change it in place, and queries read it. Each method is
  proved against a function of the table before the call. The lemmas about
  those functions state what the source promises:
  - authentication means both credential keys are truthy;
  - removal clears the credentials;
  - the count follows the `authenticated` flag;
  - saved credentials come back decrypted.

Some behaviours of the source follow from how it is written rather than from
what its comments say. The model keeps them, and lemmas state them:

- "с" and "по" are among the stopwords removed before any recogniser runs.
  As a result, the month-range pattern `с … по …` and the day-to-day pattern
  `с 15 мая по 20 июня` can never match. `parse_period` never reports either
  kind of range (`DateParser.RangesNeverReported`).
- "позавчера" contains "вчера", and the "вчера" pattern is tried first. So
  the day before yesterday is never the answer
  (`DateParser.DayBeforeYesterdayNeverReported`).
- "последние 0 дней" and "последние 0 недель" start the day after today, so
  the period runs backwards (`DateParser.LastPeriodOrdered`).
- `get_authenticated_users_count` counts the `authenticated` flag, not the
  credentials. A session update that blanks a token leaves the user counted
  but not authenticated (`UserAuth.UpdateCanSplitFlagFromCredentials`).

## Model

| member | source | states |
|---|---|---|
| Text.Strip | date_parser.py:53 | the stripped text is a slice of the input with only whitespace outside it, and neither starts nor ends with whitespace |
| Text.StripUnique | date_parser.py:53 | any slice with only whitespace outside it and non-space ends is the stripped text |
| Text.StripUnchanged | date_parser.py:53 | a text with no outer whitespace strips to itself |
| Text.StripSpaceBefore | date_parser.py:53 | a leading space does not change the stripped text |
| Text.StripSpaceAfter | date_parser.py:53 | a trailing space does not change the stripped text |
| Text.LexLeTotal | date_parser.py:116 | string `<=` is total, and holds both ways only for equal strings |
| Calendar.Weekday | date_parser.py:143 | `weekday()` lies in 0..6 |
| Calendar.AddDays | date_parser.py:129-133 | `d + timedelta(days=n)` succeeds exactly when the ordinal `toordinal()+n` lies in 1..3652059; the result is then a valid date with that ordinal |
| Calendar.OrdinalOrder | date_parser.py:116 | `toordinal()` orders valid dates exactly as (year, month, day) tuples, and equal ordinals mean equal dates |
| Calendar.IsoOrder | date_parser.py:116 | formatted dates compare as strings exactly as the dates compare on the calendar, and equal strings mean equal dates |
| DateParser.TablesInRange | date_parser.py:17-30 | every month name maps to a month 1..12, and every quarter designator to a quarter 1..4 |
| DateParser.Normalise | date_parser.py:53-56 | the normalised text neither starts nor ends with whitespace; what the recognisers can then see is stated by `NormaliseDropsStopwords` and `NormaliseNoLoosePo` |
| DateParser.NormaliseDropsStopwords | date_parser.py:53-56 | the normalised text is lower case, and no stopword stands in it as a whole word |
| DateParser.DropStopwordsNoStopword | date_parser.py:56 | the `re.sub` leaves no stopword as a whole word: a dropped word is a maximal `\w` run, so its neighbours never join into a new word |
| DateParser.StripKeepsNoWordIn | date_parser.py:56 | `strip` removes only whitespace, so it creates no new word |
| Text.LowerStrLowered | date_parser.py:53 | the result of `lower` is lower case |
| DateParser.DropStopwordsKeepsPlainText | date_parser.py:56 | a text in which no stopword stands as a whole word is left as it is |
| DateParser.NormaliseNoLoosePo | date_parser.py:53-56 | after normalisation no standalone "по" with whitespace on both sides remains |
| DateParser.DropStopwordsNoLoosePo | date_parser.py:56 | removing the stopwords leaves no "по" framed by whitespace |
| DateParser.FindIsoDates | date_parser.py:103-110 | every date found has the `\d{4}-\d{2}-\d{2}` shape, and some date is found iff the pattern occurs in the text |
| DateParser.FirstIso | date_parser.py:106 | the index returned is the least one from which an ISO date starts; none means no ISO date starts there or later |
| DateParser.FindIsoDatesLeftmost | date_parser.py:110 | `findall`'s order: no match iff no ISO date starts from the given index; otherwise the first is the ten characters at the leftmost ISO date, followed by the matches from where it ends |
| DateParser.FirstTwoIsoDates | date_parser.py:110-120 | the first date listed is the text's leftmost ISO date and the second the leftmost one after it ends; there is exactly one date when no second exists |
| DateParser.OneIsoDate | date_parser.py:58-60 | a text that is one ISO date once normalised is the one-day period of that date |
| DateParser.StandardDates | date_parser.py:108-122 | no dates gives the "not found" answer; one date is a one-day period; of two or more, the first two are returned in string order, and the swap is reported exactly when they were out of order |
| DateParser.StandardDatesSymmetric | date_parser.py:113-120 | giving the two dates in either order yields the same period |
| DateParser.IsoDatesTakePrecedence | date_parser.py:58-60 | a normalised text holding an ISO date is answered by `_parse_standard_dates` of its `findall` matches, whatever else it says: two ISO-shaped dates, in order, explained as one day or a standard range |
| DateParser.FirstMatching | date_parser.py:77-79 | no phrase is chosen iff none matches; otherwise the chosen phrase matches and no earlier phrase in the list does |
| DateParser.DayBeforeYesterdayMatchesYesterday | date_parser.py:64-65 | any text the "позавчера" pattern finds, the "вчера" pattern finds too |
| DateParser.DayBeforeYesterdayNeverChosen | date_parser.py:63-79 | the phrase loop never selects "позавчера" |
| DateParser.DayBeforeYesterdayNeverReported | date_parser.py:41-101 | `parse_period` never answers with the day before yesterday |
| DateParser.KeywordPeriod | date_parser.py:124-251 | a fixed phrase always yields dates or an exception, and the dates are reported as that phrase; the period each phrase gives is stated by `DayPhrasePeriods`, `CurrentPhrasesNeverRaise` and the span lemmas below |
| DateParser.DayPhrasePeriods | date_parser.py:124-139 | "сегодня" is today to today; "вчера" and "позавчера" are the one day whose ordinal is one or two below today's, and they raise `OverflowError` exactly when that day would fall before 0001-01-01 |
| DateParser.DayBackPeriod | date_parser.py:129-139 | the day `back` days before today, as one-day period, exists iff its ordinal is at least 1, and `OverflowError` otherwise |
| DateParser.CurrentPhrasesNeverRaise | date_parser.py:124-220 | "сегодня", "этот месяц", "этот квартал" and "этот год" always give dates and never raise |
| DateParser.KeywordPeriodOrdered | date_parser.py:124-251 | every fixed-phrase period has start <= end |
| DateParser.MondayBefore | date_parser.py:143 | going back `weekday()` days, plus whole weeks, lands on a Monday |
| DateParser.CurrentWeek | date_parser.py:141-147 | this week starts on a Monday, ends six days later and contains today; it exists iff that Sunday is representable |
| DateParser.PreviousWeek | date_parser.py:149-155 | last week starts on a Monday seven days before this week's Monday and ends six days later; it exists iff that Monday is representable |
| DateParser.LastWeekIsThisWeekShifted | date_parser.py:141-155 | where both weeks exist, last week is this week shifted back exactly seven days |
| DateParser.CurrentMonth | date_parser.py:157-163 | this month runs from its 1st to its last day (leap-aware) and contains today |
| DateParser.PreviousMonth | date_parser.py:165-176 | last month is a whole month ending the day before this month's 1st; in January it is December of the previous year; it raises only in January of year 1 |
| DateParser.CurrentYear | date_parser.py:178-184 | this year runs from 1 January to 31 December, contains today and has 365 or 366 days |
| DateParser.PreviousYear | date_parser.py:186-193 | last year is 1 January to 31 December of year-1, ending the day before this year begins; it raises only in year 1 |
| DateParser.QuarterSpan | date_parser.py:291-307 | quarter q of a year runs from the 1st of month 3q-2 to the last day of month 3q; year 0 raises |
| DateParser.CurrentQuarter | date_parser.py:195-220 | this quarter is the calendar quarter of today's month and contains today |
| DateParser.PreviousQuarter | date_parser.py:222-251 | last quarter is a valid span; in Q1 it is Q4 of the previous year, otherwise the previous quarter of the same year; it raises only in Q1 of year 1 |
| DateParser.PreviousQuarterAdjacent | date_parser.py:222-251 | last quarter ends the day before the current quarter starts |
| DateParser.QuarterAt | date_parser.py:270-275 | the pattern with a year captures four digits; the bare pattern captures none |
| DateParser.FindQuarter | date_parser.py:277-279 | the pattern with a year captures four digits, the bare pattern none |
| DateParser.FindQuarterLeftmost | date_parser.py:277-279 | the match returned is `QuarterAt` at the least index that has a match, and none is returned only when no index has one |
| DateParser.SpecificQuarterDates | date_parser.py:253-313 | the quarter is the table's number for the captured designator; its year is the captured one when the pattern with a year finds a known designator, otherwise `now.year` from the bare pattern; it covers the 1st of its first month through the last day of its third month; nothing is found iff neither pattern finds a known designator; only a captured year 0000 raises, with `ValueError` |
| DateParser.QuarterChoiceDates | date_parser.py:277-313 | the same facts for any two captures of the two searches |
| DateParser.SpecificQuarterOrdered | date_parser.py:253-313 | a named quarter has start <= end |
| DateParser.SpecificQuarter | date_parser.py:253-313 | its contract is stated by `SpecificQuarterDates` and `SpecificQuarterOrdered` |
| DateParser.MonthRangeAt | date_parser.py:319-320 | a month-range match has an absent or four-digit year, and needs a "по" framed by whitespace |
| DateParser.FindMonthRange | date_parser.py:319-320 | the month-range match found has an absent or four-digit year |
| DateParser.FindMonthRangeLeftmost | date_parser.py:319-320 | the match returned is `MonthRangeAt` at the least index that has a match, and none is returned only when no index has one |
| DateParser.OptionalYear | date_parser.py:343-344 | a trailing year is four digits that end at a word boundary; otherwise no year is taken and the match ends at the word |
| DateParser.FindMonthWord | date_parser.py:343-348 | the word returned is a month name, with an absent or four-digit year |
| DateParser.FindMonthWordLeftmost | date_parser.py:343-348 | the word returned is `s[j..WordEnd(s, j)]` for the first word start `j` whose lower-cased word is in `MONTHS_RU`, with the year digits after it; none is returned iff no word of the text is a month name |
| DateParser.FindNamedWord | date_parser.py:343-348 | the word returned names a key of the table, with an absent or four-digit year |
| DateParser.FindNamedWordLeftmost | date_parser.py:343-348 | the word returned is the first word from the given index that names a key, with the year digits after it (`OptionalYear`); none is returned iff no word from there names a key |
| DateParser.SkippedNoName | date_parser.py:343-344 | a `findall` match on a word that names no key consumes only that word and its year digits, and no named word starts inside them |
| DateParser.MonthNamesNotDigits | date_parser.py:17-26 | no month name starts with a digit, so a year is never taken for a month |
| DateParser.MonthSpan | date_parser.py:349-355 | a month runs from its 1st to its last day, has `monthrange` days, and February ends on the 29th iff the year is a leap year; years outside 1..9999 raise |
| DateParser.MonthRangeSpan | date_parser.py:327-340 | a month range runs from the 1st of the start month to the last day of the end month; the end is in the next year iff the end month comes earlier; the range is ordered |
| DateParser.ParseNatBounded | date_parser.py:327 | `int()` of at most four digits is at most 9999 |
| DateParser.MonthPeriodDates | date_parser.py:315-357 | every month answer is a single month or a range; a single month runs from its 1st to its last day in a year 1..9999; a range runs from the 1st of the start month to the last day of the end month, a year later iff the end month is earlier |
| DateParser.MonthPeriodCaptures | date_parser.py:315-357 | a range whose two names are months wins over a single month and reports those names; a single month is the name and year of the first month word (`FindMonthWord`); the year is the captured one, else `now.year`; nothing is found only without a month word, and a month word always gives dates or `ValueError` |
| DateParser.MonthPeriod | date_parser.py:315-357 | its contract is stated by `MonthPeriodCaptures`, `MonthPeriodDates` and `MonthPeriodOrdered` |
| DateParser.YearOrNow | date_parser.py:327 | the year used is at most 9999 |
| DateParser.MonthPeriodOrdered | date_parser.py:315-357 | month periods have start <= end |
| DateParser.LastAt | date_parser.py:362-365 | the captured count is a non-empty digit string |
| DateParser.FindLast | date_parser.py:368-370 | the match found captures a non-empty digit string |
| DateParser.FindLastLeftmost | date_parser.py:368-370 | the digits returned are `LastAt`'s at the least index that has a match, and none is returned only when no index has one |
| DateParser.LastPeriod | date_parser.py:359-391 | the period ends today and starts where `LastStart` puts the count captured for the first unit found, in the order days, weeks, months; nothing is found iff no unit's pattern is; the only error is `OverflowError` |
| DateParser.LastStart | date_parser.py:373-385 | the window starts N-1 days (days), 7N-1 days (weeks) or 30N days (months) before today; it is absent exactly when one of the `timedelta` steps leaves the date range (for weeks, the intermediate date today - 7N) |
| DateParser.LastWindowOrdered | date_parser.py:371-385 | with N >= 1 the window starts no later than today |
| DateParser.LastPeriodOrdered | date_parser.py:359-391 | a "последние N" answer has start <= end iff N > 0 or the unit is months |
| DateParser.DayMonthAt | date_parser.py:397 | a `(\d{1,2})\s+(\w+)` match captures one or two digits and ends after them |
| DateParser.TrailingYear | date_parser.py:397 | the optional year group is absent or four digits |
| DateParser.YearThenPo | date_parser.py:397 | the year before "по" is absent or four digits, and a match needs a "по" framed by whitespace |
| DateParser.ConcreteAt | date_parser.py:397-398 | a concrete match has one- or two-digit days and absent or four-digit years, and needs a "по" framed by whitespace |
| DateParser.FindConcrete | date_parser.py:397-398 | the concrete match found is well formed |
| DateParser.FindConcreteLeftmost | date_parser.py:397-398 | the match returned is `ConcreteAt` at the least index that has a match, and none is returned only when no index has one |
| DateParser.LeftmostFirst | date_parser.py:277-279 | a `re.search` over index matchers returns the match at the least index that has one, and nothing only when no index has one |
| DateParser.ConcreteYears | date_parser.py:406-412 | an omitted start year is the current one; an omitted end year is the start year + 1 when the end month is earlier, otherwise the current year; a given end year is kept |
| DateParser.ConcreteDates | date_parser.py:414-422 | dates are returned iff both are valid calendar dates, unadjusted; otherwise the answer is "invalid dates" naming the inputs |
| DateParser.ConcretePeriod | date_parser.py:393-424 | the concrete recogniser never raises and reports only day-to-day ranges |
| DateParser.RangesNeedLoosePo | date_parser.py:319-320 | neither range pattern is found in a text without a "по" framed by whitespace |
| DateParser.RecognisersSkipRanges | date_parser.py:82-101 | without such a "по", the recognisers report no range, and a dateless answer quotes the text |
| DateParser.RangesNeverReported | date_parser.py:41-101 | `parse_period` never reports a month range or a day-to-day range |
| DateParser.RecognisersNotes | date_parser.py:82-101 | the recognisers never report a fixed phrase |
| DateParser.RecognisersOrdered | date_parser.py:82-101 | on text without a "по" framed by whitespace, recogniser periods have start <= end, except zero days or weeks |
| DateParser.ParsePeriod | date_parser.py:41-101 | its contract is stated by `InterpretSources`, `IsoDatesTakePrecedence`, `ParsePeriodOrdered`, `NoDatesMeansUnrecognised` and `RangesNeverReported` |
| DateParser.ParsePeriodOrdered | date_parser.py:41-101 | every period `parse_period` reports has start <= end, except "последние 0 дней/недель" |
| DateParser.NoDatesMeansUnrecognised | date_parser.py:82-101 | a dateless answer from `parse_period` always quotes the normalised text as unrecognised |
| DateParser.InterpretSources | date_parser.py:59-101 | a dated answer is a single ISO date, an ISO range, a fixed phrase, or the recognisers' answer |
| DateParser.InterpretNoDates | date_parser.py:59-101 | neither the ISO dates nor a fixed phrase answer without dates |
| DateParser.RecognisersNoDates | date_parser.py:83-101 | the recognisers answer without dates only when all four found nothing, quoting the text |
| Report.KeepAllowed | excel_generator.py:162 | the filter keeps only alphanumerics, space, '-' and '_' |
| Report.KeepAllowedFilters | excel_generator.py:162 | it is a filter: it distributes over concatenation, and keeps a single character exactly when it is allowed |
| Report.Sanitise | excel_generator.py:162-163 | the sanitised name holds only alphanumerics, '-' and '_', and no space |
| Report.SanitiseIgnoresOuterSpace | excel_generator.py:162-163 | a space before or after the name does not change the sanitised name |
| Report.SanitiseInnerSpace | excel_generator.py:162-163 | two safe non-empty parts with one space between sanitise to the parts joined by '_' |
| Report.SanitiseIdempotent | excel_generator.py:162-163 | a name that is already safe is unchanged, so sanitising twice is sanitising once |
| Report.BlankNameSanitisesToEmpty | excel_generator.py:162-163 | stripping comes before replacement: a name of only spaces and dropped characters becomes empty, not underscores |
| Report.Filename | excel_generator.py:159-165 | its contract is stated by `FilenameHasNoSpaces` |
| Report.FilenameHasNoSpaces | excel_generator.py:159-165 | with dates made only of alphanumerics, '-' and '_' (as `YYYY-MM-DD` strings are), the file name holds no space, only alphanumerics, '-', '_' and '.' |
| Report.FilenameForProjects | excel_generator.py:167-181 | one project gives exactly `generate_filename` of its name; more than three gives "trudozatraty_svodnyj_{n}_proektov_…"; otherwise the keys are joined with '_', unsanitised |
| Report.JoinKeysSplits | excel_generator.py:175-179 | keys without '_' are recovered by splitting the joined part on '_' |
| Report.ProjectCountReadsBack | excel_generator.py:175-176 | the digits before "_proektov" read back as the number of projects |
| Report.ColumnWidth | excel_generator.py:147-157 | columns 1..6 get 20, 15, 10, 50, 25, 20, and any other column 15 |
| Report.ColumnWidthExtremes | excel_generator.py:147-157 | the description column is the only widest one and the hours column the only narrowest |
| Report.ColumnWidths | excel_generator.py:98-100 | exactly columns 1..6 are given widths, each from the table |
| Report.Distinct | excel_generator.py:120-124 | the project order lists exactly the projects that occur, each once, in order of first occurrence |
| Report.DistinctOrderAppend | excel_generator.py:120-124 | appending a worklog keeps the project order in first-occurrence order |
| Report.Count | excel_generator.py:125 | a record count is at most the number of worklogs, and zero iff the project does not occur |
| Report.CountsSumToTotal | excel_generator.py:120-126 | the per-project record counts add up to the number of worklogs |
| Report.PlaceWorklogs | excel_generator.py:78-85 | worklog i goes to row first+i, and no other row is filled |
| Report.ProjectStats | excel_generator.py:120-126 | the loop ends with the projects in first-appearance order, each with its record count of at least one |
| Report.PlaceStats | excel_generator.py:129-133 | the k-th project (from 1) in first-appearance order goes to row stats_row+k with its record count, and no other row is filled |
| Report.PlanReport | excel_generator.py:44-133 | header at row 4 for several projects, else 3; worklogs from the next row on; totals at data start + len + 1 when there are worklogs; statistics two rows later, for a summary only |
| Report.LayoutInOrder | excel_generator.py:44-133 | the header comes below the title, and for a summary also below the project list; every worklog row is at least one blank row above the totals; the statistics heading is at least one blank row below the totals; every worklog row is above every statistics row |
| UserAuth.UnknownUser | user_auth.py:69-72 | an unknown user is not authenticated and has the empty session |
| UserAuth.SaveAuthenticates | user_auth.py:74-84 | after a save, the user exists, is authenticated and flagged, keeps other keys, and no other user changes |
| UserAuth.SaveThenCredentials | user_auth.py:89-102 | credentials read back after a save are the ones saved |
| UserAuth.CredentialsNeedAuthentication | user_auth.py:89-94 | credentials are returned only for a known, authenticated user |
| UserAuth.RemoveDeauthenticates | user_auth.py:104-111 | removal deletes both keys and clears the flag for a known user, keeping other keys and users; an unknown user leaves the table as it was |
| UserAuth.UpdateMerges | user_auth.py:117-123 | an update creates the session if needed; the given keys win, other keys and other users stay |
| UserAuth.CountAfterSave | user_auth.py:125-127 | a save adds the user to the counted users: +1 iff the user was not flagged |
| UserAuth.CountAfterRemove | user_auth.py:125-127 | a removal takes the user out of the counted users: -1 iff the user was flagged |
| UserAuth.SaveRemoveKeepConsistent | user_auth.py:74-111 | save and remove keep each flag equal to "has credentials", where the count equals the number of authenticated users |
| UserAuth.UpdateCanSplitFlagFromCredentials | user_auth.py:117-127 | an update can leave a user counted but not authenticated |
| UserAuth.UserAuthManager.constructor | user_auth.py:14-20 | the manager starts from the loaded table and the derived cipher |
| UserAuth.UserAuthManager.IsUserAuthenticated | user_auth.py:69-72 | answers whether both credential keys of the user's session are truthy |
| UserAuth.UserAuthManager.SaveUserCredentials | user_auth.py:74-87 | the new table is the old one with the user's encrypted credentials and flag stored |
| UserAuth.UserAuthManager.GetUserCredentials | user_auth.py:89-102 | answers the decrypted pair for an authenticated user whose stored values decrypt; otherwise (None, None), modelled as `None` |
| UserAuth.UserAuthManager.RemoveUserCredentials | user_auth.py:104-111 | the new table is the old one with the user's credentials removed and the flag cleared |
| UserAuth.UserAuthManager.GetUserSession | user_auth.py:113-115 | answers the user's session, or the empty one, without inserting anything |
| UserAuth.UserAuthManager.UpdateUserSession | user_auth.py:117-123 | the new table is the old one with the arguments merged into the user's session |
| UserAuth.UserAuthManager.GetAuthenticatedUsersCount | user_auth.py:125-127 | answers the number of sessions whose flag is truthy |

## Left out

- The wall clock: `today` is the parameter `now`, and only its date matters, since every answer is a date.
- Explanation strings: the emoji text becomes a `Note` that records which branch answered, the values it names and whether the dates were swapped.
- `Calendar.Iso`: pads years below 1000 to four digits. `strftime('%Y')` does not do this on every platform.
- `Text.IsAlnum` and `Text.Lower`: they cover ASCII and Cyrillic (U+0400..U+045F) only. `Text.IsDigit` covers ASCII digits only. Python's Unicode tables for `\w`, `\d`, `isalnum` and `lower` are wider.
- Regular expressions are not interpreted in general. Each pattern of the source is written out as its own matcher.
- excel_generator.py: openpyxl workbook building, fonts, borders, merged cells, the title strings and byte serialisation are not modelled. Float hour totals and their comma formatting are not modelled either.
- Report.PlanReport: the layout keeps each statistics row's project and record count, not its hours or the text written in its cells.
- excel_generator.py: the header-row loop and the per-cell border loops are not modelled. They write styling only.
- user_auth.py: Fernet and PBKDF2 are not modelled. The cipher is a pair of functions that the manager is given. Its only assumed properties are that tokens are non-empty and that decrypting a token gives back what was encrypted.
- user_auth.py: loading and saving the JSON file is not modelled. The loaded table is a constructor argument, and saving is a no-op.
- Logging is not modelled.
- UserAuth.UserAuthManager.GetUserSession: `get_user_session` returns the stored dict itself, so a caller's changes to it reach the table; the model returns a value, and that aliasing is not captured.
- UserAuth.UserAuthManager.SaveUserCredentials: Fernet encryption is randomised (a fresh IV and timestamp per token), while the model's cipher is a function. Saving the same credentials twice therefore gives the same table in the model, but different tokens in the source.
- DateParser.FindIsoDates: the order of all matches is stated by `FindIsoDatesLeftmost`, but only the first two are lifted to the answer (`FirstTwoIsoDates`), since `_parse_standard_dates` reads no further.
- Session values are a small JSON datatype (null, bool, int, string, list) with Python truthiness. Dictionaries as values and float values are not represented.
- mattermost_bot.py, jira_client.py, config.py and main.py are not part of this model. They are network clients, the bot's event loop and configuration.
