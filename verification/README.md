# moniki: ticket watching and automatic booking

The script logs into the regional appointment portal with a headless browser and works in two phases.

**Ticket pass (`Sel.get_talons`).** It reads the list of specialties and the number of free tickets shown next to each one. It then brings the `moniki_specialties` table of a small SQLite store up to date:
- a new specialty is inserted;
- a changed count is overwritten;
- a jump of more than one ticket is logged in `moniki_data`.

**Booking phase (`main`).** For every referral in `moniki_records` that is not yet booked and whose specialty has tickets, it builds a search from the referral's specificity. The specificity is empty, a sub-specialty label, or one or more physician names after `ФИО: `. The search walks at most three weeks of the schedule. It skips cells dated today, tomorrow or the day after, and cells without bookable times. It books the last time of the first acceptable cell and writes the booking back to the store.

The model has one module per concern:
- `Text`: the Python `str` operations the script relies on (`in`, `split`, `join`, `upper`, `strip`, `int`).
- `Dates`: the calendar, `dd.mm.yyyy`, `create_forbitten_dates` and `check_data_record`.
- `Locator`: `correct_specific`, `check_specific_fio` and `get_locator_for_search`.
- `Store`: the three tables as a `Database` class. Each committed statement of `moniki_bd.py` is one method, and pure row functions specify them.
- `Ledger`: `get_talons` against the store.
- `Booking`: `main`'s referral, week and cell loops, and one whole run.

Each `@sql_operation` statement runs in its own transaction. A statement the store rejects raises before the commit, so it leaves the tables as they were. The model therefore gives the INSERTs an `ok` result and keeps the tables unchanged when it is false. Three things are parameters of the model:
- what the portal shows: the specialty rows as text, and for each referral the sequence of weeks with their cells;
- the current time `now`;
- today's date.

## Model

| member | source | states |
|---|---|---|
| Text.Split | moniki/moniki.py:361-363 | at least one piece (as at lines 249 and 342 too); its meaning (leftmost-first pieces that join back to the text and contain no separator) is stated in Text.SplitJoin, Text.SplitPiecesFree, Text.SplitSingle and Text.SplitAfterHead |
| Text.SplitJoin | moniki/moniki.py:342 | joining the pieces of `s.split(sep)` with `sep` gives `s` back |
| Text.SplitPiecesFree | moniki/moniki.py:363 | no piece of a split contains the separator |
| Text.SplitSingle | moniki/moniki.py:249 | a split yields more than one piece exactly when the separator occurs |
| Text.SplitAfterHead | moniki/moniki.py:249 | when the separator first occurs right after a head, the split is the head followed by the split of the rest |
| Text.Strip | moniki/moniki_bd.py:168 | the result is a slice of the input, everything cut off is white space, and the result neither starts nor ends with white space |
| Text.ParseInt | moniki/moniki.py:256 | a number is read only from a text that is not blank once stripped; Text.ParseIntRoundTrip shows it reads `str(n)` back as n |
| Text.ParseIntRoundTrip | moniki/moniki.py:256 | `int(str(n)) == n` for every integer |
| Text.Upper | moniki/moniki.py:378 | the upper-cased text has the same length; Text.UpperHasNoLowerCase says what it does to each character, and Text.UpperIdempotent shows it is idempotent |
| Text.UpperHasNoLowerCase | moniki/moniki.py:372-378 | no character of the result is a lower-case letter (a-z, а-я, ѐ-џ); each such letter becomes an upper-case one (A-Z, Ѐ-Я), and every other character is kept |
| Text.UpperIdempotent | moniki/moniki.py:378 | upper-casing twice equals upper-casing once |
| Dates.NextDay | moniki/moniki.py:428-430 | the next day is a valid date after the given one |
| Dates.NextDayIsSuccessor | moniki/moniki.py:428-430 | no valid date lies strictly between a day and the next day |
| Dates.AddDays | moniki/moniki.py:428-430 | adding days gives a valid date, later when at least one day is added |
| Dates.FormatDate | moniki/moniki.py:430 | the `%d.%m.%Y` rendering has at least ten characters, and exactly ten for a year below 10000; Dates.FormatDateRoundTrip and Dates.FormatDateInjective state that it reads back and is injective |
| Dates.FormatDateRoundTrip | moniki/moniki.py:430 | reading a `dd.mm.yyyy` rendering back gives the date |
| Dates.FormatDateInjective | moniki/moniki.py:430 | different dates render differently |
| Dates.ForbiddenDates | moniki/moniki.py:425-435 | six entries, the last three being "сегодня", "завтра", "послезавтра" in that order |
| Dates.ForbiddenDatesEntries | moniki/moniki.py:427-433 | entry k is the rendering of today + k days for k < 3, and entry k + 3 is the k-th word |
| Dates.ForbiddenDatesRead | moniki/moniki.py:427-431 | each of the three date entries reads back as today, tomorrow and the day after |
| Dates.ForbiddenDatesDistinct | moniki/moniki.py:427-431 | the three date entries are three different strings |
| Dates.CheckDataRecord | moniki/moniki.py:470-478 | true exactly when some entry of the list is a substring of the date text, and false for an empty list |
| Dates.DayAfterTomorrowContainsTomorrow | moniki/moniki.py:433 | every text containing "послезавтра" contains "завтра" |
| Dates.LastWordRedundant | moniki/moniki.py:473-478 | in a list ending with "завтра", "послезавтра", dropping the last entry never changes `check_data_record`'s answer |
| Locator.CorrectSpecific | moniki/moniki.py:328-335 | None exactly for a missing or empty specificity, otherwise the specificity unchanged |
| Locator.CorrectSpecificIdempotent | moniki/moniki.py:328-335 | correcting twice equals correcting once |
| Locator.CheckSpecificFio | moniki/moniki.py:337-346 | a list exactly when the text has a comma, and that list joined with ", " is the text; otherwise the text itself |
| Locator.ClausesEachFollowedByOrIsJoin | moniki/moniki.py:368 | the comprehension of clauses each followed by " or " equals the clauses joined by " or " plus one trailing " or " |
| Locator.SeveralNamesClause | moniki/moniki.py:368-371 | for a non-empty list, cutting the last four characters leaves exactly the clauses joined by " or " |
| Locator.GetLocatorForSearch | moniki/moniki.py:348-381 | any free cell exactly when there is no specificity; Locator.LocatorForSearchShape gives the other three cases |
| Locator.LocatorForSearchShape | moniki/moniki.py:348-381 | any free cell exactly when there is no specificity; a physician search exactly when `ФИО: ` occurs, naming the text after the first marker; that is one comma-free name, or at least two comma-free names that rebuild it and are or-ed; otherwise the label as written and upper-cased |
| Store.SpecialtyMap | moniki/moniki_bd.py:138-147 | the keys of `get_data_all_specialty` are exactly the names in the table |
| Store.SpecialtyMapRows | moniki/moniki_bd.py:38-39 | under the primary key, each name maps to its own row's count |
| Store.SetCount | moniki/moniki_bd.py:156-162 | same length; the rows with that name get the new count and every other row is unchanged |
| Store.SetCountMap | moniki/moniki_bd.py:156-162 | seen through `get_data_all_specialty`, the update is a map update of a known name and changes nothing for an unknown one |
| Store.SetCountUnique | moniki/moniki_bd.py:38-39 | the count update keeps the primary key |
| Store.AppendSpecialtyMap | moniki/moniki_bd.py:150-153 | inserting a new name keeps the primary key and adds exactly that key to the map |
| Store.Keep | moniki/moniki_bd.py:250-259 | a DELETE keeps only rows that pass the test, keeps every such row, and keeps all rows when all pass |
| Store.KeepCounts | moniki/moniki_bd.py:250-259 | a DELETE keeps every copy of a kept row and no copy of a removed one, so duplicate rows are neither merged nor dropped |
| Store.KeepIdempotent | moniki/moniki_bd.py:250-259 | running the same DELETE twice removes nothing more |
| Store.ApplyUpdate | moniki/moniki_bd.py:210-221 | each UPDATE sets exactly the columns of its SET list and keeps the others |
| Store.UpdateWhere | moniki/moniki_bd.py:210-221 | every row with that number is updated, and no other row changes |
| Store.UpdateWhereIdempotent | moniki/moniki_bd.py:262-270 | running one of the record UPDATEs twice equals running it once |
| Store.UpdateWhereAbsent | moniki/moniki_bd.py:210-221 | an UPDATE for a number no row carries changes nothing |
| Store.NotRecorded | moniki/moniki_bd.py:224-235 | no more rows are returned than the table holds |
| Store.NotRecordedExact | moniki/moniki_bd.py:224-235 | every returned row comes from a row with `is_recorded = 0`, and every such row is returned |
| Store.NotRecordedSelects | moniki/moniki_bd.py:224-235 | the i-th returned row is `(number_direct, name, specific)` of the i-th row with `is_recorded = 0`, so table order and duplicates are kept |
| Store.Database.constructor | moniki/moniki_bd.py:27-109 | empty tables satisfy the primary key and both foreign keys |
| Store.Database.PutSpecialty | moniki/moniki_bd.py:150-153 | inserts exactly when the name is new, then the map gains that key; otherwise the primary key rejects it and nothing changes |
| Store.Database.ChangeValueSpecialty | moniki/moniki_bd.py:156-162 | the table becomes `SetCount` of the old one, the map is updated only for a known name, and the keys stay valid |
| Store.Database.ChangeStatusRecord | moniki/moniki_bd.py:165-175 | after stripping, "0" or "1" sets that status on every row of the number; any other text writes nothing |
| Store.Database.PutChangeData | moniki/moniki_bd.py:178-182 | appends `(now, name, value)` exactly when the name is known, otherwise the foreign key rejects it |
| Store.Database.PutRecord | moniki/moniki_bd.py:185-207 | appends the referral with the given columns exactly when its specialty is known, otherwise the foreign key rejects it |
| Store.Database.ChangeDatetimeRecord | moniki/moniki_bd.py:210-221 | every row of the number gets the status, date, time and change time; nothing else changes |
| Store.Database.DeleteDataOver30Days | moniki/moniki_bd.py:250-253 | keeps exactly the openings logged at most thirty days before `now` |
| Store.Database.DeleteRowRecord | moniki/moniki_bd.py:256-259 | removes exactly the rows with that number |
| Store.Database.ChangeNotifiedStatus | moniki/moniki_bd.py:262-270 | marks every row of the number as notified and changes nothing else |
| Ledger.CountField | moniki/moniki.py:249 | `split(': ')[1]` exists exactly when ": " occurs, and it contains no ": " |
| Ledger.ParseCount | moniki/moniki.py:249-256 | a count is read only from a text holding ": "; Ledger.ParseCountRoundTrip gives the value read |
| Ledger.ParseCountRoundTrip | moniki/moniki.py:249-256 | a heading without ": ", then ": ", then `str(n)`, optionally followed by another ": …" part, reads back as n |
| Ledger.ReconcileRow | moniki/moniki.py:251-268 | afterwards the stored count of the name is the observed one and no other count changes; an opening with stored minus observed is appended exactly when the name was known and that difference is below -1 |
| Ledger.Readings | moniki/moniki.py:249-256 | one reading per row, holding its name and the parsed count |
| Ledger.ReconcilePass | moniki/moniki.py:233-268 | the applied rows are a prefix of readable rows, and the row after them, if any, is unreadable |
| Ledger.PassStep | moniki/moniki.py:233-268 | a readable first row is applied, then the rest of the pass runs from the new state |
| Ledger.PassOnlyAppendsOpenings | moniki/moniki.py:261-263 | the log only grows during a pass, and every added opening records a jump of more than one ticket |
| Ledger.PassKnownNames | moniki/moniki.py:253-268 | the names known after a pass are the old names plus the names of the applied rows |
| Ledger.LastObservationWins | moniki/moniki.py:253-268 | a name's stored count after a pass is the count of the last applied row naming it |
| Ledger.StableWhenNotNamed | moniki/moniki.py:253-268 | a pass leaves the count of a name that no applied row mentions unchanged |
| Ledger.StoreCount | moniki/moniki.py:251-268 | the store's counts and log become those of `ReconcileRow`, and the referrals are untouched |
| Ledger.GetTalons | moniki/moniki.py:227-276 | the store's counts and log become those of `ReconcilePass` on the rows read; the list is closed exactly when every row was applied |
| Booking.Matching | moniki/moniki.py:405-411 | no more cells than the grid holds; Booking.MatchingInGridOrder states that it keeps grid order |
| Booking.MatchingInGridOrder | moniki/moniki.py:405-411 | the selected cells are the grid's cells at strictly rising positions, and those positions are exactly the matching cells' ones, so the cells are tried in grid order |
| Booking.MatchingSound | moniki/moniki.py:405-411 | every selected cell is a grid cell that the search matches |
| Booking.MatchingComplete | moniki/moniki.py:405-411 | every matching cell is selected, and every cell is selected for an any-free-cell search |
| Booking.Candidates | moniki/moniki.py:613-621 | a week without a schedule offers no cells |
| Booking.FirstAcceptable | moniki/moniki.py:628-649 | the index found lies in range and its cell offers a time |
| Booking.FirstAcceptableSpec | moniki/moniki.py:628-649 | the cell found is acceptable and no earlier cell is; with none found, no cell is acceptable |
| Booking.FirstAcceptableIs | moniki/moniki.py:628-649 | an acceptable cell with no acceptable cell before it is the one found |
| Booking.Picks | moniki/moniki.py:612-654 | one pick per searched week, each being that week's booking |
| Booking.NothingInWeekMeans | moniki/moniki.py:612-626 | a week yields nothing exactly when none of its matching cells is acceptable, and always yields nothing when it has no schedule |
| Booking.FindBookable | moniki/moniki.py:628-649 | the cell loop stops at the first cell whose date is allowed and which offers a time |
| Booking.ScanWeek | moniki/moniki.py:613-649 | one week's loop yields that week's pick: the last time of its first acceptable matching cell |
| Booking.SearchWeeks | moniki/moniki.py:612-654 | the week loop's booking and "next week" clicks are those of `Walk` |
| Booking.FirstPickOutcome | moniki/moniki.py:612-654 | at most one click per remaining week, exactly one per week when nothing is booked, and nothing is booked exactly when no week has a pick |
| Booking.FirstPickBooking | moniki/moniki.py:612-654 | a booking is the pick of the week reached after its clicks, and the weeks before it have none |
| Booking.WeekPick | moniki/moniki.py:613-649 | a week without a schedule yields no booking; Booking.NothingInWeekMeans and Booking.ScanWeek give the rest |
| Booking.Walk | moniki/moniki.py:612-654 | at most three "next week" clicks, and exactly three when nothing is booked; Booking.WalkOutcome and Booking.WalkBooking give when and what it books |
| Booking.WalkOutcome | moniki/moniki.py:612-654 | at most three "next week" clicks, exactly three when nothing is booked, and nothing is booked exactly when none of the three weeks has an acceptable matching cell |
| Booking.WalkBooking | moniki/moniki.py:628-654 | a booking is the last time of the first acceptable matching cell of the week reached, and every earlier week yielded nothing |
| Booking.LastTime | moniki/moniki.py:504-524 | the time chosen is one the cell offers; Booking.BookedCellIsSound states that it is the last one |
| Booking.BookedCellIsSound | moniki/moniki.py:628-645 | a booked cell is a grid cell matching the search, the booked time is its last one, and its date contains no excluded entry |
| Booking.BookingOutsideWindow | moniki/moniki.py:610-634 | with `create_forbitten_dates`, a booked date never names today, tomorrow or the day after, in digits or in words |
| Booking.ApplyBookingsSnoc | moniki/moniki.py:596-657 | one more referral applies its booking after those of the earlier referrals |
| Booking.BookingsMarkRecorded | moniki/moniki.py:644-648 | after the bookings, every row of a booked number has `is_recorded = 1`, the fixed columns are kept, and rows of numbers no booking names are untouched |
| Booking.BookedLeavesNotRecorded | moniki/moniki_bd.py:224-235 | a booked referral is no longer returned by `get_not_recorder` |
| Booking.AttemptFor | moniki/moniki.py:600-657 | skipped exactly when the specialty's count is not above zero; otherwise at most three "next week" clicks, and two "close" clicks after a booking (`click_close_after_write`, then `click_close_after_search_all_weeks`), one without |
| Booking.BookReferral | moniki/moniki.py:597-657 | the attempt is `AttemptFor` of the referral: skipped without tickets, otherwise the search, the booking and the clicks of the walk; the records change by that booking only |
| Booking.AttemptsFor | moniki/moniki.py:596-657 | one attempt per pending referral |
| Booking.AttemptsForEach | moniki/moniki.py:596-657 | attempt i depends only on referral i, the counts and the weeks shown for it |
| Booking.AttemptsForSnoc | moniki/moniki.py:596-657 | the attempts for one more referral are the earlier ones followed by its own |
| Booking.BookAll | moniki/moniki.py:596-657 | the referral loop makes `AttemptsFor` of the pending list, and the records become those bookings applied in order |
| Booking.PendingNamesKnown | moniki/moniki.py:591-601 | under the foreign key, every pending referral's specialty is a key of the counts, so `specialty_info[spec]` never fails |
| Booking.RunPass | moniki/moniki.py:589-657 | the store's specialty counts and openings log become those the ticket pass leaves; the counts used are those counts, every pending name is among them, and the records become the pending referrals' bookings applied in order |

## Left out

- The browser is not modelled: Selenium, waits, sleeps, scrolling and the clicks themselves. The XPath texts are elided in the source, so a search is modelled by its `contains(text(), …)` tests. "Next week" and "close" clicks are counted, not performed.
- `get_talons`: the single retry after a row's elements come back as `None` is not modelled. The model receives rows that are already read.
- `main`: the restart after an exception and the browser helpers that log an error and return `None` are not modelled. Examples are `get_date_cell` and `find_times_in_cell`; the model assumes a date text and a list of times for every cell. The chromedriver-version message and its `input()` are also not modelled.
- The whole pass uses one `now` and one `today`. The source reads the clock at every statement and for every referral.
- Scheduling, notifications, logging, `print` and the console entry `_adding_record_in_bd` are not modelled.
- The DDL functions and `get_data_all_records` are not modelled. The schema appears only as the primary key and the foreign keys in `Database.Valid`.
- Store.Database.DeleteDataOver30Days: timestamps are whole seconds on one timeline. The source compares local-time text against SQLite's UTC `datetime('now', '-30 days')` as strings.
- Store.Database.ChangeStatusRecord: takes the status as text. The source annotates the parameter as `int` but calls `.strip()` on it. The message printed for a bad status is not modelled.
- Text.ParseInt: covers white space, one sign and ASCII digits. Python's `int` also accepts underscores between digits and non-ASCII digits.
- Text.Upper: covers ASCII and the Russian Cyrillic letters only.
- Dates.FormatDate: the year is unbounded above, while Python's `date` stops at 9999.
- `check_specific_fio` splits at ", ", but `get_locator_for_search` splits at "," and keeps the leading space of the later names. The model follows the code.
