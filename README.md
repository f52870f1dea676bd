# MLCalendar in Dafny

MLCalendar is a calendar in which an event is typed as a Bulgarian sentence,
for example "Йога клас утре сутринта". A BERT token classifier labels the
words. A rule layer then turns the words and labels into a title, a start and
an end. A FastAPI back end stores the events of signed-in users, and a React
front end shows them, lets the user edit them and signs the user in.

This project models the deterministic parts of that system and proves what
they promise:

- **The rule layer of the parser** (`ml/nlp_parser_ml.py` and its copy in
  `app.py`). It covers:
  - weekday-label repair;
  - the title span and its filters;
  - the time section;
  - the day resolution (relative words, weekdays, day numbers and the month retry);
  - the two regular-expression scans for clock times and bare hours;
  - daytime hints;
  - the combination of day and time with its roll-overs.

  The tagger's labels and the moment `now` are inputs.
- **The back ends.** This covers the stand-alone service in `app.py` and the
  authenticated service in `backend/main.py` with `backend/google_oauth.py`:
  - the CORS origin list;
  - registration uniqueness;
  - the `/parse` replies;
  - event creation with its one-hour default end;
  - owner-scoped listing ordered by start;
  - owner-scoped deletion;
  - Google sign-in with its user-name de-duplication loop.

  The tables are in-memory sequences held by a class.
- **The front end** (`frontend/src`):
  - the current-time line of `App.jsx`: label choice, hour parsing, offset, the two gates, and one line per container;
  - the theme setting and the calendar entries;
  - the edit draft of `EventViewModal.jsx`;
  - the day list and cell marks of `ListView.jsx`;
  - the form rules and handlers of `AuthForm.jsx`;
  - the session state of `AuthContext.jsx`.

Dates are proleptic Gregorian `(year, month, day)`, with a day count and a
weekday computed from it. Date-times are naive and keep their microseconds.
Regular expressions are written out as character predicates and scanning
functions. Where the source builds a result step by step, the model does the
same in a `method` with loop invariants, proved equal to a function. The
properties are proved about that function.

Files, one module each:

| file | module | models |
|---|---|---|
| `common.dfy` | `Common` | `str.split`/`strip`/`lower`/`replace`, `sep.join`, `int`/`str`, `parseInt`, stable sort, filters |
| `calendar.dfy` | `Calendar` | `date`, `datetime`, `timedelta`, the Luxon formats used |
| `events.dfy` | `Events` | the event row, ordering by start, the one-hour default end |
| `nlp_rules.dfy` | `NlpRules` | `_next_weekday`, `_parse_day_from_tokens`, `_find_daytime_hint` |
| `time_extract.dfy` | `TimeExtract` | `_parse_time_from_tokens` |
| `nlp_parser.dfy` | `NlpParser` | the post-tagger part of `parse_text` |
| `legacy_app.dfy` | `LegacyApp` | `app.py`: `parse_text` errors, `/parse`, `create_event`, `delete_event` |
| `backend.dfy` | `Backend` | `backend/main.py` |
| `google_oauth.dfy` | `GoogleOAuth` | `get_or_create_google_user` |
| `time_indicator.dfy` | `TimeIndicator` | `updateTimeIndicator` in both runs |
| `calendar_app.dfy` | `CalendarApp` | theme and calendar entries of `App.jsx` |
| `event_draft.dfy` | `EventDraft` | `EventViewModal.jsx` |
| `list_view.dfy` | `ListView` | `ListView.jsx` |
| `auth_form.dfy` | `AuthForm` | `AuthForm.jsx` |
| `auth_context.dfy` | `AuthContext` | `AuthContext.jsx` |

Where the written behaviour and the documented behaviour differ, the model
follows the code:

- In `EventViewModal.jsx`, a draft whose date or time does not parse is
  still saved. Luxon writes "Invalid DateTime" for both values, and the
  save is not refused (`EventDraft.SaveOfBadDate`).
- In `AuthContext.jsx`, `login` reports success even when the `/me` request
  that follows it fails and logs the user out.

The time scan takes the skip window of its bare-hour pass as a parameter
(`TimeExtract.SkipRule`), and so does the `parse_text` chain built on it
(`NlpParser.ParseCore`, `NlpParser.ParseText`). The program, and so the
`/parse` and text `POST /events` models of both back ends, runs with the
window as written (`NlpParser.ProgramRule`). The corrected window `Intended`
can be passed in its place, and the lemmas about the parse hold for either;
see "## Findings".

## Model

| member | source | states |
|---|---|---|
| Common.Strip | ml/nlp_parser_ml.py:140 | the result is a slice of the input with only blanks before and after it, and it neither starts nor ends with a blank |
| Common.StripBlank | frontend/src/components/AuthForm.jsx:49 | stripping gives the empty string exactly when the text is all blanks |
| Common.StripIdempotent | ml/nlp_parser_ml.py:259 | stripping a stripped text changes nothing |
| Common.Lower | ml/nlp_parser_ml.py:140 | same length, each character lower-cased on its own |
| Common.LowerIdempotent | ml/nlp_parser_ml.py:216 | lower-casing twice is lower-casing once |
| Common.Split | ml/nlp_parser_ml.py:192 | every word is non-empty and holds no blank |
| Common.SplitBlank | ml/nlp_parser_ml.py:189 | a text has no words exactly when it is all blanks |
| Common.SplitJoin | ml/nlp_parser_ml.py:140 | splitting words joined by one blank gives the same words back |
| Common.SplitOn | backend/main.py:22 | at least one piece, and no piece holds the separator |
| Common.JoinSplitOn | backend/main.py:22 | joining the pieces with the separator gives the original text |
| Common.SplitOnJoin | backend/main.py:22 | splitting pieces joined by a separator they lack gives the pieces back |
| Common.SplitOnFirst | backend/google_oauth.py:76 | the first piece is the text before the first separator, or all of it |
| Common.IndexOf | backend/google_oauth.py:76 | no index exactly when the character is absent; otherwise its first occurrence |
| Common.ContainsAt | ml/nlp_parser_ml.py:173 | an occurrence at any position counts as containment |
| Common.NotContainsFirstChar | ml/nlp_parser_ml.py:173 | a text without the pattern's first character does not contain the pattern |
| Common.Replace | ml/nlp_parser_ml.py:141 | a text without the pattern is unchanged, and a replacement no longer than the pattern does not lengthen it |
| Common.ReplaceFirst | ml/nlp_parser_ml.py:141 | the text before the first occurrence is kept, that occurrence becomes the replacement, and the replacing goes on after it |
| Common.NatToString | backend/google_oauth.py:82 | a numeral of decimal digits without a leading zero |
| Common.DigitsValueOfNatToString | backend/google_oauth.py:82 | the numeral of `n` reads back as `n` |
| Common.NatToStringInjective | backend/google_oauth.py:82 | different numbers have different numerals |
| Common.PadRoundTrip | frontend/src/components/EventViewModal.jsx:21-23 | a zero-padded numeral of a number that fits has exactly the width and reads back |
| Common.ParseNat | ml/nlp_parser_ml.py:110 | `int` of digits succeeds exactly on a non-empty digit string |
| Common.ParseNatOfNatToString | ml/nlp_parser_ml.py:110 | `int(str(n)) == n` |
| Common.JsParseInt | frontend/src/App.jsx:102 | `parseInt` succeeds exactly when, after leading blanks and an optional sign, a hexadecimal digit follows a `0x` or `0X` prefix, or a decimal digit comes first without one |
| Common.JsParseIntOfNatToString | frontend/src/App.jsx:102 | `parseInt` of a numeral followed by a non-digit (and, after "0", not by "x" or "X") gives the number |
| Common.JsParseIntOfHex | frontend/src/App.jsx:102 | after an optional sign, `0x` and hexadecimal digits read as their value, negated after a minus sign |
| Common.JsParseIntOfBareHexPrefix | frontend/src/App.jsx:102 | `0x` with no hexadecimal digit after it is `NaN` |
| Common.SortByKeySpec | ml/nlp_parser_ml.py:169 | the sort is a permutation of its input, with the same length, in ascending order of the key |
| Common.SortSorted | ml/nlp_parser_ml.py:169 | sorting a sequence already in order leaves it unchanged |
| Common.FirstHitSpec | ml/nlp_parser_ml.py:94-96 | no hit exactly when no element is a hit; otherwise the value of the first element that is one |
| Common.FreshId | app.py:27 | a new key is positive and larger than every key in the table |
| Common.FilterSpec | ml/nlp_parser_ml.py:242 | a comprehension keeps exactly the elements satisfying the condition |
| Common.FilterSubsequence | ml/nlp_parser_ml.py:247-255 | the kept elements stay in the order of the input |
| Common.FilterConcat | ml/nlp_parser_ml.py:247-255 | filtering a concatenation is the concatenation of the filtered parts |
| Common.FilterCount | backend/main.py:238 | a kept element occurs as often as in the input, any other not at all |
| Common.PickedSpec | ml/nlp_parser_ml.py:261 | a zip comprehension picks exactly the words paired with a label satisfying the condition |
| Common.PickedSubsequence | ml/nlp_parser_ml.py:261 | the picked words stay in the order of the text |
| Common.PickedConcat | ml/nlp_parser_ml.py:261 | picking from concatenations whose first parts pair up is picking from each pair of parts |
| Common.PickedCount | ml/nlp_parser_ml.py:261 | each word is picked once for each of its positions paired with a label satisfying the condition |
| Common.SubsequenceTransitive | ml/nlp_parser_ml.py:306-309 | a subsequence of a subsequence is a subsequence, as a filter of a comprehension keeps the text order |
| Calendar.DaysInMonth | ml/nlp_parser_ml.py:113 | 28 to 31 days, and 31 exactly in the long months |
| Calendar.MakeDate | ml/nlp_parser_ml.py:112-118 | `date(y, m, d)` succeeds exactly for a year 1 to 9999, a month 1 to 12 and a day within the month |
| Calendar.NextDay | ml/nlp_parser_ml.py:78 | the next day is a real date after the given one |
| Calendar.AddDays | ml/nlp_parser_ml.py:78 | adding days gives a real date, later when the count is positive |
| Calendar.AddDaysOrdinal | ml/nlp_parser_ml.py:78 | adding `n` days moves the day count forward by exactly `n` |
| Calendar.Weekday | ml/nlp_parser_ml.py:68 | a weekday from 0 (Monday) to 6 |
| Calendar.AddDaysWeekday | ml/nlp_parser_ml.py:78-81 | adding `n` days moves the weekday forward by `n` modulo 7 |
| Calendar.DateBeforeOrdinal | ml/nlp_parser_ml.py:119 | dates compare as their day counts do |
| Calendar.Combine | ml/nlp_parser_ml.py:288 | `datetime.combine` keeps the day, hour and minute, with zero seconds |
| Calendar.PlusDays | ml/nlp_parser_ml.py:293 | adding days keeps the time of day and moves the date |
| Calendar.PlusDaysInstant | ml/nlp_parser_ml.py:293 | adding `n` days adds `n` whole days to the instant |
| Calendar.PlusHour | backend/main.py:172 | one hour later is a real, later date-time |
| Calendar.PlusHourInstant | backend/main.py:172 | one hour later is exactly one hour more on the instant, across midnight too |
| Calendar.BeforeInstant | ml/nlp_parser_ml.py:292 | date-times compare, and are equal, as their instants do |
| Calendar.ParseDate | frontend/src/components/EventViewModal.jsx:60-64 | a parsed date is real and within Luxon's years |
| Calendar.ParseDateHM | frontend/src/components/EventViewModal.jsx:60-64 | a parsed date and minute is a real date-time with zero seconds |
| Calendar.ParseFormatDate | frontend/src/components/EventViewModal.jsx:21 | a date written `yyyy-MM-dd` has 10 characters and reads back as itself |
| Calendar.ParseFormatDateHM | frontend/src/components/EventViewModal.jsx:21-22 | a date and minute written `yyyy-MM-dd HH:mm` read back as that date-time |
| Calendar.FormatDateInjective | frontend/src/components/ListView.jsx:12 | two dates are written alike exactly when they are equal |
| Events.ByStartSpec | backend/main.py:240 | sorting by start keeps exactly the same valid events, and none is preceded by a later start |
| Events.EndOrDefaultSpec | backend/main.py:216-218 | a given end is kept; a missing one is a real date-time one hour after the start |
| NlpRules.WeekdayOf | ml/nlp_parser_ml.py:99-102 | a weekday exactly when the token or its lower case is a key; the exact form is looked up first |
| NlpRules.WeekdayLookupsAgree | app.py:88 | the copy's `get(t) or get(t.lower())` finds the same weekday on every token, Monday included |
| NlpRules.NextWeekday | ml/nlp_parser_ml.py:62-83 | the result has the target weekday, is 1 to 7 days later, and no earlier later day has that weekday; the copy at app.py:70-77 is the same rule without the assertion |
| NlpRules.NoEarlierWeekday | ml/nlp_parser_ml.py:71-78 | no day between the start and the result falls on the target weekday |
| NlpRules.DayNumber | ml/nlp_parser_ml.py:108-110 | the value of a matching token is at most 99 |
| NlpRules.DayNumberOfParts | ml/nlp_parser_ml.py:108-110 | one or two digits followed by an optional suffix "ви", "ри", "ти" or "ми", optionally after a dash, and an optional full stop, always match, with the digits' value |
| NlpRules.DayNumberParts | ml/nlp_parser_ml.py:108-110 | every match is such digits followed by such a suffix, and its value is that of the digits |
| NlpRules.DayFromTokensValid | ml/nlp_parser_ml.py:85-133 | any date found is a real calendar date |
| NlpRules.ParseDayFromTokens | ml/nlp_parser_ml.py:85-133 | the three loops with early returns compute the day the specification function gives; the copy at app.py:79-117 is the same |
| NlpRules.ResolveDayNumberLoop | ml/nlp_parser_ml.py:110-131 | the candidate and its retry compute the resolved day, or the `ValueError` |
| NlpRules.RetryLoop | ml/nlp_parser_ml.py:123-130 | the retry loop stops at the first of the next two months that has the day |
| NlpRules.RelativeWins | ml/nlp_parser_ml.py:93-96 | a relative word anywhere decides first: today plus 0, 1 or 2 days |
| NlpRules.WeekdayDecides | ml/nlp_parser_ml.py:98-104 | without a relative word the first weekday decides, 1 to 7 days ahead |
| NlpRules.DayNumberThisMonth | ml/nlp_parser_ml.py:106-119 | a day number still ahead in the current month gives exactly that day of this month |
| NlpRules.RetryMonthsFinds | ml/nlp_parser_ml.py:123-130 | when the current month is longer than the day number, the retry finds that day one or two months on |
| NlpRules.DayNumberNotPast | ml/nlp_parser_ml.py:119-131 | a resolved day number is never before today and has that day of the month |
| NlpRules.DayNumberError | ml/nlp_parser_ml.py:112-118 | resolution raises exactly when the number is outside 1 to 31, or the day has passed in December of year 9999 |
| NlpRules.DayFromTokensError | ml/nlp_parser_ml.py:85-133 | the day words raise exactly when they hold no relative word and no weekday name and the first day number among them is outside 1 to 31, or its day has passed in December of year 9999 |
| NlpRules.DaytimeHintSpec | ml/nlp_parser_ml.py:180-186 | the hint of the first day-labelled hint word, and none exactly when there is no such word |
| TimeExtract.ClockMatchAt | ml/nlp_parser_ml.py:147-149 | a clock match ends inside the text after its start, with hour and minutes of at most two digits |
| TimeExtract.ClockMatchOfCandidate | ml/nlp_parser_ml.py:147-149 | whenever the pattern can match at a position (a boundary, one or two digits, ':' or '.', one or two digits, a boundary), that match is found, with those digits as hour and minutes |
| TimeExtract.ClockMatchCandidate | ml/nlp_parser_ml.py:147-149 | every clock match found is such a way of matching |
| TimeExtract.HourMatchAt | ml/nlp_parser_ml.py:154 | a bare-hour match ends inside the text after its start, with an hour of at most two digits |
| TimeExtract.HourCandidateShape | ml/nlp_parser_ml.py:154 | every way the bare-hour pattern matches takes the whole digit run, and the whole blank run unless it takes neither blank nor "ч" |
| TimeExtract.HourMatchOfCandidate | ml/nlp_parser_ml.py:154 | whenever the pattern can match at a position (a boundary, one or two digits, blanks, an optional "ч", a boundary), a match is found with those digits as the hour, ending no earlier: the greedy match is the longest |
| TimeExtract.HourMatchCandidate | ml/nlp_parser_ml.py:154 | every bare-hour match found is such a way of matching |
| TimeExtract.ScanClocks | ml/nlp_parser_ml.py:147-151 | the `finditer` loop keeps the clock times in range, in text order, as the scan function does |
| TimeExtract.ScanHours | ml/nlp_parser_ml.py:154-166 | the second loop appends the uncovered bare hours in range, as the scan function does |
| TimeExtract.IsCovered | ml/nlp_parser_ml.py:157-160 | the inner loop answers whether some found time covers the match |
| TimeExtract.ParseTimeFromTokens | ml/nlp_parser_ml.py:135-178 | the whole function computes the specification's start and end |
| TimeExtract.TimeFromTokensValid | ml/nlp_parser_ml.py:147-166 | every time read has an hour 0 to 23 and minutes 0 to 59, under either skip window |
| TimeExtract.TimeFromTokensEnd | ml/nlp_parser_ml.py:168-178 | an end exactly when the text has "до" and exactly two times, the start being the earlier; exactly one time is a start alone; no tokens or any other count gives neither |
| TimeExtract.NormalizePlainToken | ml/nlp_parser_ml.py:140-141 | a lower-case token without blanks or "ч" is prepared as itself |
| TimeExtract.NormalizeClockToken | ml/nlp_parser_ml.py:140-141 | the token "HH:MM" is prepared as itself |
| TimeExtract.ClockTokenScans | ml/nlp_parser_ml.py:147-158 | over "HH:MM" the clock pattern matches the whole token, and the bare-hour pattern matches at 0 and at 3 |
| TimeExtract.AsWrittenLosesClockTime | ml/nlp_parser_ml.py:157-160 | as written, one clock time "HH:MM" with minutes up to 23 reads as no time at all |
| TimeExtract.IntendedReadsClockTime | ml/nlp_parser_ml.py:157-176 | with the intended window, "HH:MM" reads as exactly that start with no end |
| NlpParser.Paired | ml/nlp_parser_ml.py:215 | `zip` forms as many pairs as the shorter side has |
| NlpParser.FixLabels | ml/nlp_parser_ml.py:214-222 | one fixed label per paired word |
| NlpParser.FixLabelsSpec | ml/nlp_parser_ml.py:214-222 | no weekday stays "O", every other label is kept, and fixing again changes nothing |
| NlpParser.FixLabelsLoop | ml/nlp_parser_ml.py:214-222 | the loop computes the fixed labels |
| NlpParser.SigRangeSpec | ml/nlp_parser_ml.py:226-238 | first and last index are the first and last significant index, both missing when there is none |
| NlpParser.SignificantRange | ml/nlp_parser_ml.py:226-238 | the loop records the first and the last significant index |
| NlpParser.FilterTitleLoop | ml/nlp_parser_ml.py:249-257 | the loop keeps exactly the span's words that are not markers, weekdays or connectors |
| NlpParser.SigSpan | ml/nlp_parser_ml.py:226-240 | a span exactly when some token is significant, from the first to the last one |
| NlpParser.TitleTokensSpec | ml/nlp_parser_ml.py:240-257 | the title words are the span's kept words, or the "B-TITLE" words when nothing is significant |
| NlpParser.TitleTokensOrder | ml/nlp_parser_ml.py:240-257 | the title words keep the text order; each kept word of the span occurs as often as in the span, or each "B-TITLE" word once per position labelled so |
| NlpParser.TitleLoop | ml/nlp_parser_ml.py:226-259 | the loops compute the first title |
| NlpParser.FallbackTokensSpec | ml/nlp_parser_ml.py:306-309 | the fallback words are exactly the words not labelled as a day or start and not connectors |
| NlpParser.FallbackTokensOrder | ml/nlp_parser_ml.py:306-309 | the fallback words keep the text order, each non-connector once per position not labelled as a day or a start |
| NlpParser.SectionSpec | ml/nlp_parser_ml.py:264-273 | every "B-WHEN_START" word is in the section, which holds only those and "O" words |
| NlpParser.SectionOrder | ml/nlp_parser_ml.py:264-273 | the section's words keep the text order |
| NlpParser.TimeSectionLoop | ml/nlp_parser_ml.py:264-275 | the loop collects the time section |
| NlpParser.StartEndTimes | ml/nlp_parser_ml.py:279-282 | for the given skip window, times of day are real, and an end only with a start |
| NlpParser.TimesSteps | ml/nlp_parser_ml.py:264-282 | the section loop, the time parse with the given skip window and the hint compute the times of day |
| NlpParser.EndOnSpec | ml/nlp_parser_ml.py:289-293 | an end exactly when an end time was read, with that time, at or after the start and under a day later |
| NlpParser.ScheduleSpec | ml/nlp_parser_ml.py:284-304 | a start exactly when a time was found, on the day when named, else not before now and under a day ahead; an end under a day after the start |
| NlpParser.FoundDay | ml/nlp_parser_ml.py:261-278 | the day named by the day-labelled words is a real date |
| NlpParser.ParseText | ml/nlp_parser_ml.py:188-319 | the loops of `parse_text` compute the specification function for the given skip window; the back ends pass the window as written |
| NlpParser.ScheduleSteps | ml/nlp_parser_ml.py:284-304 | the statement chain computes the schedule |
| NlpParser.ParseCoreShape | ml/nlp_parser_ml.py:189-224 | blank text gives the empty result; otherwise the tokens are the words, with one fixed label per paired word |
| NlpParser.ParseCoreError | ml/nlp_parser_ml.py:278 | the parse fails exactly when the text is not blank, the day words hold no relative word and no weekday name, and their first day number is outside 1 to 31 or its day has passed in December of year 9999 |
| NlpParser.ParseCoreTimes | ml/nlp_parser_ml.py:284-304 | the start and end the parse returns obey the schedule's guarantees |
| NlpParser.TitleSpec | ml/nlp_parser_ml.py:240-309 | the title is stripped: the first title when it is not empty, else the fallback |
| LegacyApp.AppParseTextSpec | app.py:154-293 | blank text and a missing title or start give the rephrase error; a success has a title and a start and is the rule layer's result |
| LegacyApp.ParseEventSpec | app.py:327-349 | no text is an error; otherwise a success exactly when `parse_text` understood the text, with its title, words and labels, its start and its end or the start plus one hour; a crash exactly when it raised; its message when it did not understand |
| LegacyApp.PlanCreate | app.py:365-389 | a planned row has real start and end times |
| LegacyApp.PlanCreateSpec | app.py:370-389 | without an end the row ends one hour after its start on both paths; a text row keeps its text |
| LegacyApp.FindRow | app.py:416 | the index of the first row with the key, none exactly when no row has it |
| LegacyApp.RemoveRowSpec | app.py:420 | removing a row leaves a valid table one shorter without its key, holding every other row, the rows before it at their places and the rows after it one place earlier |
| LegacyApp.AppendRowSpec | app.py:398-400 | appending a row under a fresh key keeps the table valid |
| LegacyApp.Store.constructor | app.py:34 | the table starts empty |
| LegacyApp.Store.CreateEvent | app.py:365-411 | the planned row is appended under a fresh key and echoed; a refused request leaves the table as it was |
| LegacyApp.Store.DeleteEvent | app.py:413-426 | an unknown key answers "Event not found" and changes nothing; otherwise the table is the old one with exactly that row cut out, the others in order |
| Backend.CorsOriginsRoundTrip | backend/main.py:18-22 | plain origins joined by commas give the same list back |
| Backend.CorsOfParts | backend/main.py:22 | a value whose parts are already stripped gives its parts |
| Backend.JoinedNotStar | backend/main.py:19 | a list other than ["*"] joined by commas is not "*" |
| Backend.FindEmail | backend/main.py:104 | the first user with the address, none exactly when no user has it |
| Backend.PlanCreate | backend/main.py:190-226 | inserted rows have real start and end times |
| Backend.PlanCreateSpec | backend/main.py:190-226 | a missing end is the start plus one hour on both paths; empty text and no parsed start are 400; a text row keeps its text |
| Backend.ParseEventSpec | backend/main.py:151-181 | no text, or blank text, is an error; a success gives the parsed start, and the parsed end or the start plus one hour |
| Backend.ParseEventOutcome | backend/main.py:151-181 | for non-empty text: a crash exactly when the parse raises, a success exactly when it finds a start, with its title, words and labels, and the missing-time error when it finds none |
| Backend.OwnedByStartSpec | backend/main.py:238-240 | the listing holds exactly the owner's events, each as often as stored, ascending by start |
| Backend.FindOwned | backend/main.py:248-251 | the first event with that key and owner, none exactly when there is none |
| Backend.RemoveEventSpec | backend/main.py:254 | removing one event keeps the table valid and leaves no event with its key |
| Backend.Database.constructor | backend/main.py:40 | both tables start empty |
| Backend.Database.UserByEmail | backend/main.py:104 | the lookup loop finds the user with the address, or none exactly when there is none |
| Backend.Database.IsUsernameTaken | backend/main.py:111 | true exactly when some user has the name |
| Backend.Database.Register | backend/main.py:101-129 | a taken address is refused first, then a taken name, both with 400 and no insert; otherwise exactly one user is added |
| Backend.Database.CreateEvent | backend/main.py:184-231 | the plan is stored for the current user under a fresh key; a refusal changes nothing |
| Backend.Database.SelectOwned | backend/main.py:238-239 | the loop collects the owner's events in table order |
| Backend.Database.ListEvents | backend/main.py:233-240 | returns the owner's events ordered by start, changing nothing |
| Backend.Database.DeleteEvent | backend/main.py:242-256 | only an event with that key and owner goes and is returned; otherwise 404 and nothing changes |
| GoogleOAuth.BaseUsername | backend/google_oauth.py:76 | the base name holds no '@' and begins the address |
| GoogleOAuth.BaseUsernameOf | backend/google_oauth.py:76 | the base name of "name@domain" is the name |
| GoogleOAuth.CandidateInjective | backend/google_oauth.py:79-83 | different attempts try different names |
| GoogleOAuth.FreeUsername | backend/google_oauth.py:79-83 | the name chosen is the first of base, base1, base2, … that no user has |
| GoogleOAuth.GetOrCreateGoogleUser | backend/google_oauth.py:52-102 | no address is a 400; a known address returns its user, with the picture replaced only when given and different; otherwise a new active user with a free name |
| TimeIndicator.ChosenLabel | frontend/src/App.jsx:79-96 | nothing is parsed without labels; otherwise the first time label, the second label, or "00:00" |
| TimeIndicator.ChosenLabelSpec | frontend/src/App.jsx:84-96 | the trimmed first time label, and the second label only when no label is a time |
| TimeIndicator.StartHourOfClock | frontend/src/App.jsx:100-102 | a label `HH:mm` gives its hour |
| TimeIndicator.JsParseIntOfDigits | frontend/src/App.jsx:102 | `parseInt` of digits is their value, leading zeros included |
| TimeIndicator.StartHourColonFirst | frontend/src/App.jsx:100-103 | a colon decides even when AM or PM occurs too |
| TimeIndicator.StartHourOfMeridiem | frontend/src/App.jsx:103-113 | 12 AM is hour 0, h PM is h + 12 except 12 PM, other AM hours are themselves |
| TimeIndicator.StartHourOfTwelve | frontend/src/App.jsx:105-112 | the 12-hour rule on any text without ':' whose first number is given |
| TimeIndicator.PeriodicGateMinutes | frontend/src/App.jsx:122-127 | the periodic line is drawn exactly when now is at most an hour before the first row |
| TimeIndicator.ViewGateMinutes | frontend/src/App.jsx:278-282 | the view-change line is drawn exactly when now is not before the first row |
| TimeIndicator.ViewGateWithinPeriodic | frontend/src/App.jsx:278-285 | where both runs draw, they draw at the same offset |
| TimeIndicator.UpdatesKeepTidy | frontend/src/App.jsx:64-137 | each run leaves at most one line in a container, never above its top; without slots it only loses its line |
| TimeIndicator.PeriodicUpdateSpec | frontend/src/App.jsx:64-131 | with slots, a line exactly when the gate passes, at max(0, top), and it is the only one |
| TimeIndicator.Dedupe | frontend/src/App.jsx:50-52 | no repeats, and the same members as the input |
| TimeIndicator.Targets | frontend/src/App.jsx:48-62 | the bodies without repeats, or the fallback container alone when there are none |
| TimeIndicator.UpdateEach | frontend/src/App.jsx:64-137 | each visited container gets its update exactly once and every other container is unchanged |
| TimeIndicator.PeriodicRun | frontend/src/App.jsx:24-143 | nothing changes without a time grid; otherwise each target is updated |
| TimeIndicator.ViewRun | frontend/src/App.jsx:244-292 | each body is updated by the view-change rule |
| CalendarApp.SavedThemeWins | frontend/src/App.jsx:155 | a saved choice decides the next start-up, whatever the system prefers |
| CalendarApp.Theme.constructor | frontend/src/App.jsx:153-158 | dark exactly when "dark" is saved, or nothing is saved and the system prefers dark |
| CalendarApp.Theme.Toggle | frontend/src/App.jsx:181-186 | flips the mode, applies it and saves its name |
| CalendarApp.Theme.SystemChange | frontend/src/App.jsx:160-166 | the system preference is followed only while nothing is saved |
| CalendarApp.Entries | frontend/src/App.jsx:310-319 | one entry per event in order, with its key, title, start and end |
| EventDraft.SaveOfFields | frontend/src/components/EventViewModal.jsx:57-79 | well-formed fields save as that date with the start and end times, the end never moved to the next day |
| EventDraft.SaveOfNoEnd | frontend/src/components/EventViewModal.jsx:66-72 | an empty end time saves an end one hour after the start |
| EventDraft.SaveDraftRoundTrip | frontend/src/components/EventViewModal.jsx:13-79 | saving an event's unchanged draft reproduces its start and same-day end |
| EventDraft.SaveDraftNoEnd | frontend/src/components/EventViewModal.jsx:13-79 | saving the unchanged draft of an event without an end gives it an end one hour after the start |
| EventDraft.SaveOfBadDate | frontend/src/components/EventViewModal.jsx:60-78 | a date field that is not a date saves "Invalid DateTime" twice |
| EventDraft.Dialog.constructor | frontend/src/components/EventViewModal.jsx:5-11 | not editing, empty draft |
| EventDraft.Dialog.EventChanged | frontend/src/components/EventViewModal.jsx:13-26 | a shown event replaces the draft by its own draft |
| EventDraft.Dialog.Edit | frontend/src/components/EventViewModal.jsx:37-39 | enters edit mode, draft unchanged |
| EventDraft.Dialog.SetDraft | frontend/src/components/EventViewModal.jsx:202 | a field edit sets the draft only |
| EventDraft.Dialog.Cancel | frontend/src/components/EventViewModal.jsx:41-55 | leaves edit mode and restores the event's draft |
| EventDraft.Dialog.Save | frontend/src/components/EventViewModal.jsx:57-87 | sends the event's key and the saved draft; closes only on success |
| EventDraft.CancelThenSave | frontend/src/components/EventViewModal.jsx:41-87 | cancelling then saving sends the event's own start and end back |
| ListView.StartsOnIff | frontend/src/components/ListView.jsx:10-12 | an event starts on a day string exactly when its start date is written that way |
| ListView.DayListSpec | frontend/src/components/ListView.jsx:9-13 | exactly the events starting on the day, as often as given, ascending by start |
| ListView.HasEventsSpec | frontend/src/components/ListView.jsx:61-64 | a cell is marked exactly when some event starts on it, that is when its day list is not empty |
| ListView.IsSelectedSpec | frontend/src/components/ListView.jsx:59-60 | a cell is selected exactly when it is the selected date |
| ListView.HeaderSpec | frontend/src/components/ListView.jsx:115-135 | the empty state exactly on an unmarked day; the singular exactly for one event |
| ListView.Marks | frontend/src/components/ListView.jsx:48-55 | one mark per event with its key, title, start and end, in order |
| AuthForm.With | frontend/src/components/AuthForm.jsx:37 | sets one field and keeps the others |
| AuthForm.EmailPatternOfParts | frontend/src/components/AuthForm.jsx:51 | three parts without blanks or '@' joined by '@' and '.' match the pattern |
| AuthForm.EmailPatternParts | frontend/src/components/AuthForm.jsx:51 | every match is such a join |
| AuthForm.BlankIsTrimEmpty | frontend/src/components/AuthForm.jsx:49 | a field is blank exactly when trimming empties it |
| AuthForm.SetError | frontend/src/components/AuthForm.jsx:40 | sets one message and keeps the others |
| AuthForm.AcceptedSpec | frontend/src/components/AuthForm.jsx:44-82 | no errors exactly when the address is given and matches, the password has 6 characters, and when registering the name is given and the confirmation matches |
| AuthForm.LoginChecksTwoFields | frontend/src/components/AuthForm.jsx:47-53 | signing in never flags the name or the confirmation |
| AuthForm.EmailRequiredFirst | frontend/src/components/AuthForm.jsx:49-53 | a blank address is reported missing, never malformed |
| AuthForm.Form.constructor | frontend/src/components/AuthForm.jsx:24-32 | sign-in mode, empty fields, no errors, not loading |
| AuthForm.Form.InputChange | frontend/src/components/AuthForm.jsx:35-42 | sets that field and blanks only that field's message |
| AuthForm.Form.ValidateForm | frontend/src/components/AuthForm.jsx:44-83 | the messages are the rules' messages, and the result is true exactly when there are none |
| AuthForm.Form.Toggle | frontend/src/components/AuthForm.jsx:109-118 | flips the mode and empties the fields and the errors |
| AuthForm.Form.Submit | frontend/src/components/AuthForm.jsx:85-107 | no call when validation fails; otherwise the mode's call, the failure as the only message, loading off |
| AuthContext.Session.constructor | frontend/src/contexts/AuthContext.jsx:15-17 | the token read from storage, no user, loading, no header |
| AuthContext.Session.Logout | frontend/src/contexts/AuthContext.jsx:81-86 | no user, no token, nothing stored, no header |
| AuthContext.Session.FetchUserInfo | frontend/src/contexts/AuthContext.jsx:30-41 | the user on success, a logout on failure, loading off in both cases |
| AuthContext.Session.TokenChanged | frontend/src/contexts/AuthContext.jsx:19-28 | a truthy token is put on the header and checked with `/me`; otherwise loading just ends |
| AuthContext.Session.Login | frontend/src/contexts/AuthContext.jsx:43-65 | a token is stored, put on the header and followed by `/me`, with success even when `/me` fails; a refusal changes nothing and reports the detail or "Login failed" |
| AuthContext.Session.Register | frontend/src/contexts/AuthContext.jsx:67-79 | success signs in with the same name and password, ending with loading off and, as in login, either the fetched user with the token saved and sent as a bearer header or a fully signed-out session; a refused login or a refused registration changes nothing (loading included) and reports the detail or "Login failed" / "Registration failed" |
| AuthContext.Resume | frontend/src/contexts/AuthContext.jsx:14-28 | after a reload the session is signed in exactly when a truthy token was saved and `/me` accepts it |
| AuthContext.LoginThenLogout | frontend/src/contexts/AuthContext.jsx:43-86 | signing in and then out always ends signed out with nothing stored |

## Left out

- The BERT tokenizer and model (`ml/nlp_parser_ml.py:16-22, 192-211`, `app.py:48-54, 174-188`): foreign inference. The predicted labels, one per word, are an input.
- `datetime.now()`, `new Date()` and `localStorage` reads are parameters, and the timers are not modelled: they are clock and scheduling plumbing.
- The DOM is reduced to what it is read for. It is a sequence of containers, each with slots or none, a slot height and a list of lines. The label texts are a parameter.
- The current minute divided by 60 is exact rational arithmetic (`real`): IEEE rounding is not modelled.
- Blank characters are one set for Python's `str.split`/`strip`, JavaScript's `trim` and `\s`: space, tab, line feed, carriage return, U+000B, U+000C and U+00A0. The other Unicode blanks these accept (U+2009, U+3000, U+2028, U+FEFF, and in Python U+001C to U+001F) are not blanks in the model.
- Digits are the ASCII digits and word characters are ASCII letters, digits, `_` and the Cyrillic block U+0400 to U+04FF. Python's `\d`, `\w` and `str.isdigit` in `ml/nlp_parser_ml.py` also accept other Unicode digits and letters, which the model does not.
- Lower-casing maps A to Z and the Cyrillic capitals U+0400 to U+042F only. String lengths count code points, not UTF-16 units.
- `OverflowError` of a date after year 9999 is left out, and every moment `now` has a year of at most 9999. Roll-overs at the very end of that year are therefore outside the model.
- `datetime.fromisoformat` of a request body is not parsed. Its outcome, a date-time or a failure, is part of the request.
- Luxon's zones and offsets are left out: every date-time is naive local time. `toISO` in `App.jsx:313-314` is taken to give back the same moment.
- The events `fetchEvents` loads in `App.jsx:172-179` are an input to the entry mapping, as is the `deleteEvent` chain in `App.jsx:328-337`; both are network calls.
- Password hashing, JWT creation and checking, and Google ID-token verification (`backend/google_oauth.py:19-49`): foreign crypto and network. The `/me` user, the `/login` token and the Google user information are inputs.
- `EmailStr` validation of registration bodies is a pydantic library call. An address is any string.
- `created_at`, the random Google password and the admin user created at start-up are left out. They are clock-, randomness- and environment-dependent and change no rule.
- Common.FreshId: a new key is one more than the largest key in use, as SQLite assigns them for `app.py`'s table. The backend may run on PostgreSQL (`backend/database.py:7-17`), whose serial keys never reuse the key of a deleted last row; the model only promises that the key is larger than every key in use.
- SQL ties: rows with equal starts are listed in table order (a stable sort). The database does not promise any order for them.
- SQLAlchemy sessions, commit, refresh and rollback are left out: each request is one atomic update of the in-memory tables.
- `app.py`'s `get_events` (`app.py:351-363`) and the `read_root`/health endpoints are serialization only, and are not modelled.
- The encoding-error branch of `app.py:162-172` cannot happen for a Python `str` and is not modelled.
- `handleDelete` and the backdrop and close buttons of `EventViewModal.jsx` only call their owner's callbacks. Only `closed` is modelled, for `handleSave`.
- After `login`, the token effect runs a second `/me` request. The model does not repeat that fetch; `Login` performs the one `login` awaits.
- The form-data encoding of `/login` and the JSON encoding of `/register` are left out: the model records which call is made with which fields.
- Calendar.ParseDate: a date with year 0000 is refused, while Luxon's `fromFormat` accepts it. The edit form's date input never produces that year.
- The fade-in animation, the Tailwind classes, `formatDateTime` and the two-line date header are presentation, and are not modelled.

## Findings

| source | as written | input that shows it | evidently intended | confidence | as-written member | corrected member |
|---|---|---|---|---|---|---|
| ml/nlp_parser_ml.py:157-160 | a bare-hour match is skipped when it starts within `pos .. pos + len(match.group(0))`, the length of the bare-hour match itself, so the minutes of "10:15" (at 3, while the clock starts at 0 with a bare-hour match of length 2) are read as a second time 15:00 | the single time token "10:15": two times and no "до", so `(None, None)` | skip a bare-hour match that starts inside the clock match it overlaps, so "10:15" gives `(10:15, None)` | not executed | TimeExtract.AsWrittenLosesClockTime | TimeExtract.IntendedReadsClockTime |
| app.py:133 | the same window in the copy | the single time token "10:15" | the same | not executed | TimeExtract.AsWrittenLosesClockTime | TimeExtract.IntendedReadsClockTime |
