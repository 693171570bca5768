# Availability engine of project-planification-vanilla, in Dafny

project-planification-vanilla is a Next.js application in which teachers
("intervenants") record when they are available during an academic year. Each
teacher has an availability document. It maps a period key to a list of slots
`{days, from, to}`:

- the key is `default` (every week) or `S<n>` (ISO week `n` only);
- `days` is a comma-separated list of French weekday names;
- `from` and `to` are `HH:MM` times.

This project models the code that reads, checks and transforms those documents,
and proves what that code promises:

- **Validation** (`calendar-utils.tsx`): the strict validator, which throws on a
  bad document. Its accept set is stated exactly.
- **Cleaning** (`calendar-utils.ts`): the second revision, which filters instead
  of throwing. Its output keys, its kept slots, the input on which it throws and
  the fact that it is not idempotent are stated.
- **Expansion** (both revisions of `createEventForSlot` and
  `convertAvailabilitiesToEvents`). It walks the weeks of the academic year from
  the Monday on or before 1 September, gives each week its ISO 8601 week number,
  and emits one event per recognised weekday of every `default` slot and of every
  slot of the week's own key. It then sorts the events by start. The loops and
  the `Date` mutations are methods, proved equal to specification functions
  about which the lemmas are proved.
- **Gregorian**: day numbers with `getStartOfWeek` and `getWeekNumber`.
  `getWeekNumber` is proved equal to the ISO 8601 week number (weeks start on
  Monday, and week 1 holds the year's first Thursday).
- **JsNumber** and **Text**: the JavaScript `Number()`, `parseInt`, `split`,
  `trim` and `toLowerCase` that the code applies to slot fields.
- **Analysis** (`analyzeAvailabilities`): a workweek of `{week, hours}` targets
  is classified as missing, short of hours or covered.
- **IntervenantCalendar**: the calendar page's helpers, and its `handleSelect`
  and `handleDeleteConfirm` updates as a class over the page state.
- **Workweek**: how the workweek import validates its JSON before posting it.
- **Export**: the admin export's reducer.
- **KeyExpiry**: the days left on a connection key.
- **Password**: lower-case hexadecimal encoding of a digest (base16, section 8 of
  RFC 4648, lower-case alphabet), and password verification.

Dates are day numbers, with day 0 the Monday 1 January 0001 of the proleptic
Gregorian calendar. Instants are minutes of local wall-clock time from the
midnight that starts day 0. The current date (`new Date()`), the SHA-256 digest
and the text encoder are parameters.

## Model

| member | source | states |
|---|---|---|
| Validation.AcceptedTime | src/lib/calendar-utils.tsx:12-15 | an accepted time is the two-digit `HH:MM` rendering of its minutes (below 1440), and the expansion reads it back as those minutes |
| Validation.FormattedTimeAccepted | src/lib/calendar-utils.tsx:12-15 | every minute of the day written `HH:MM` is accepted and denotes that minute; with AcceptedTime the accept set is exactly 00:00 to 23:59 |
| Validation.AcceptedDays | src/lib/calendar-utils.tsx:18-22 | a day list is accepted iff every trimmed, lower-cased comma token is a weekday name, i.e. iff the expansion skips none of its tokens; an accepted list names no inherited property |
| Validation.EmptyDaysRejected | src/lib/calendar-utils.tsx:18-22 | the empty day list is rejected (splitting it leaves one empty token) |
| Validation.AcceptedSlot | src/lib/calendar-utils.tsx:25-36 | an accepted availability object reads as a slot with a valid day list and two valid times |
| Validation.ArrayPeriods | src/lib/calendar-utils.tsx:39-53 | a top-level array is a valid period iff it is empty, since its keys are indices and not period keys |
| Validation.ValidateAndCleanOutcome | src/lib/calendar-utils.tsx:56-65 | null and undefined give `{}`; any other value is returned unchanged iff it is a valid period and rejected otherwise; the result validates again to itself |
| Validation.WeekKeyAccepted | src/lib/calendar-utils.tsx:48 | every key `S<n>` the expansion looks up matches `^S\d+$` |
| Validation.PeriodKeyOfWeek | src/lib/calendar-utils.tsx:48 | an accepted key `S<digits>` without a leading zero is the key of week `<digits>` |
| Validation.LeadingZeroKeyUnused | src/lib/calendar-utils.tsx:48 | an accepted key with a leading zero, such as `S05`, is the key of no week, so its slots are never expanded |
| Validation.ValidSlotEvents | src/lib/calendar-utils.tsx:108-138 | `createEventForSlot` never throws on a slot the validator accepts |
| Validation.ValidDocumentExpands | src/lib/calendar-utils.tsx:161-191 | no generated week throws on a document whose every slot is accepted |
| Validation.ValidatedExpands | src/lib/calendar-utils.tsx:140-197 | whatever `validateAndCleanAvailabilities` returns (a valid object, the empty array, or `{}` for null and undefined) expands without throwing |
| Cleaning.FilterSlotsSpec | src/lib/calendar-utils.ts:133-138 | the filter throws iff some slot is null; otherwise it keeps, in order, exactly the slots whose days, from and to are non-empty strings |
| Cleaning.CleanEntriesFailure | src/lib/calendar-utils.ts:131-140 | cleaning throws iff some non-empty array holds a null slot |
| Cleaning.CleanedKeys | src/lib/calendar-utils.ts:131-140 | every output key is an input key whose value is a non-empty array, and is never `__proto__` |
| Cleaning.CleanedEntry | src/lib/calendar-utils.ts:131-139 | with distinct input keys, a key other than `__proto__` is in the output iff its value is a non-empty array, and then holds the filtered slots |
| Cleaning.ValidateAndCleanAvailabilities | src/lib/calendar-utils.ts:128-143 | the loop that assigns key by key returns the cleaned object, or the TypeError on a null input or slot |
| Cleaning.CleanNotIdempotent | src/lib/calendar-utils.ts:132-133 | a key whose slots are all rejected survives as `[]` and only a second pass removes it |
| Cleaning.CleanKeepsRejected | src/lib/calendar-utils.ts:128-143 | the filtering revision keeps a key, a day and times the strict revision rejects |
| Availability.DaysMapTable | src/lib/calendar-utils.tsx:67-75 | `DAYS_MAP` holds exactly the seven weekday names at their offsets from Monday; only `constructor` and `__proto__` (inherited) yield something else than undefined |
| Availability.WeekKeyInjective | src/lib/calendar-utils.tsx:166 | distinct week numbers give distinct keys `S<n>`, and no week key is `default` |
| Availability.ClockOfFormatTime | src/lib/calendar-utils.tsx:119-126 | a time written `HH:MM` sets the clock to its own minutes |
| Availability.NegativeHour | src/lib/calendar-utils.tsx:119-126 | `-1:00` sets the clock 60 minutes before midnight, on the previous day |
| Availability.FractionalHour | src/lib/calendar-utils.tsx:119-126 | `8.5:30` truncates the hour and sets 08:30 |
| Availability.HourWithoutMinutes | src/lib/calendar-utils.tsx:119-126 | a time without minutes sets no valid clock |
| JsNumber.NumberOfDigits | src/lib/calendar-utils.tsx:119 | `Number` of a run of decimal digits is the number they denote, leading zeros included |
| JsNumber.SignedNumbers | src/lib/calendar-utils.tsx:119 | `Number` accepts a leading sign |
| JsNumber.FractionNumber | src/lib/calendar-utils.tsx:119 | `Number` accepts a fraction |
| JsNumber.ExponentNumber | src/lib/calendar-utils.tsx:119 | `Number` accepts an exponent |
| JsNumber.PrefixedAndBlankNumbers | src/lib/calendar-utils.tsx:119 | `Number` accepts a `0x` prefix, surrounding blanks, the blank string (as 0) and `-Infinity` |
| JsNumber.NotANumber | src/lib/calendar-utils.tsx:119 | trailing text, a sign before a prefix and a lone point give `NaN` |
| JsNumber.Truncate | src/lib/calendar-utils.tsx:123 | `setHours` truncates a finite number toward zero and refuses `NaN` and the infinities |
| JsNumber.Add | src/lib/calendar-utils.tsx:237 | the sum of two finite numbers is finite and exact; `NaN` propagates |
| JsNumber.MulBy | src/lib/calendar-utils.tsx:241 | a finite product is exact; `NaN` propagates |
| JsNumber.ParseIntOfNat | src/components/calendar/intervenant-calendar.tsx:145 | `parseInt` reads back the decimal rendering of every natural number |
| Text.Split | src/lib/calendar-utils.tsx:109 | `split` yields at least one piece, and no piece holds the separator |
| Text.JoinSplit | src/lib/calendar-utils.tsx:109 | joining the pieces of a `split` with the separator gives the string back |
| Text.SplitCount | src/lib/calendar-utils.tsx:240 | `days.split(',').length` is the number of commas plus one |
| Text.TrimStartSpec | src/lib/calendar-utils.tsx:109 | `trimStart` removes the longest run of ECMAScript whitespace at the start |
| Text.TrimEndSpec | src/lib/calendar-utils.tsx:109 | `trimEnd` removes the longest run of ECMAScript whitespace at the end |
| Text.NatToString | src/lib/calendar-utils.tsx:166 | a week number renders as decimal digits denoting it, without a leading zero |
| Json.Lookup | src/components/workweek/import-workweek.tsx:62 | a key is found iff some entry has it, and the value found is one of its entries' |
| Json.LookupDistinct | src/lib/calendar-utils.ts:133-137 | in an object with distinct keys, as a parsed object has, reading an entry's key gives that entry's value |
| Json.AssignDistinct | src/app/api/admin/export/route.ts:23 | assigning a key keeps the keys distinct |
| Json.Assign | src/app/api/admin/export/route.ts:23 | assigning sets the key and leaves every other key's value alone |
| Json.AssignShape | src/app/api/admin/export/route.ts:23 | a new key is appended at the end; an existing key keeps its place |
| Gregorian.StartOfWeek | src/lib/calendar-utils.tsx:100-106 | the result is the Monday of the Monday-to-Sunday week holding the day |
| Gregorian.StartOfWeekOfSunday | src/lib/calendar-utils.ts:19-25 | a Sunday maps to the Monday six days before it |
| Gregorian.GetStartOfWeek | src/lib/calendar-utils.tsx:100-106 | returns a new date at midnight of the week's Monday and moves its argument to that Monday, keeping its time of day |
| Gregorian.WeekNumber | src/lib/calendar-utils.tsx:91-98 | the week number lies in 1..53 |
| Gregorian.WeekNumberIsIsoWeek | src/lib/calendar-utils.tsx:91-98 | `getWeekNumber` equals the ISO 8601 week number, defined independently from the first Thursday |
| Gregorian.WeekOneHoldsFirstThursday | src/lib/calendar-utils.ts:27-33 | week 1 is exactly the week holding the first Thursday of its week-based year |
| Gregorian.SameWeekSameNumber | src/lib/calendar-utils.ts:27-33 | days of one Monday-to-Sunday week share their number |
| Gregorian.GetWeekNumber | src/components/calendar/intervenant-calendar.tsx:48-54 | the step-by-step `Date` computation on a copy returns `WeekNumber` of the day, in 1..53 |
| Gregorian.SeasonStartYear | src/lib/calendar-utils.tsx:144-150 | the current year, or the previous one before the month; the day lies between the first of that month and its anniversary |
| Gregorian.YearOf | src/lib/calendar-utils.tsx:145 | `getFullYear`: the year whose 1 January is on or before the day and whose next 1 January is after it |
| Gregorian.YearOfUnique | src/lib/calendar-utils.tsx:145 | each day lies in exactly one year |
| Gregorian.JsWeekday | src/lib/calendar-utils.tsx:101 | `getDay` is 0 on Sundays and otherwise the offset from Monday plus one |
| Gregorian.CeilDiv7 | src/lib/calendar-utils.tsx:158 | `Math.ceil(a / 7)` is the least `q` with `a <= 7q` |
| Gregorian.JsDate.Copy | src/lib/calendar-utils.tsx:116 | `new Date(date)` is an independent copy at the same instant |
| Gregorian.JsDate.AddDays | src/lib/calendar-utils.tsx:117 | `setDate(getDate() + k)` moves the date `k` days at the same time of day |
| Gregorian.JsDate.SetHours | src/lib/calendar-utils.tsx:123 | `setHours(h, m, 0)` sets `h:m` on the same day; out-of-range values roll over |
| Expansion.Offsets | src/lib/calendar-utils.tsx:112-114 | at most one offset per token, each below 7 |
| Expansion.OffsetOfToken | src/lib/calendar-utils.tsx:112-114 | a weekday token gives its offset at the position counting the weekday tokens before it |
| Expansion.TokenOfOffset | src/lib/calendar-utils.tsx:112-114 | each offset comes from the weekday token with as many weekday tokens before it; with OffsetOfToken, the offsets are the weekday tokens' offsets, one each, in token order |
| Expansion.OffsetsAllRecognised | src/lib/calendar-utils.tsx:112-114 | no token is skipped iff every token is a weekday name |
| Expansion.SlotEvents | src/lib/calendar-utils.tsx:108-138 | a slot throws iff a token names an inherited property, or a weekday is named and a time is not a number; otherwise it gives one event per weekday token |
| Expansion.SlotEventsAt | src/lib/calendar-utils.tsx:116-134 | event `i` is on the `i`-th named weekday after the week's Monday, from `from` to `to`, with the given title and colour |
| Expansion.DatedEvent | src/lib/calendar-utils.tsx:116-134 | the copies of the week's date, moved by the offset and set to the two times, give that weekday's event |
| Expansion.PushDay | src/lib/calendar-utils.tsx:112-135 | the callback for one token keeps the loop invariant (events of the weekdays so far), or throws only where the slot's events throw |
| Expansion.EventsForDays | src/lib/calendar-utils.tsx:112-135 | the `days.forEach` loop returns the slot's events or its throw |
| Expansion.CreateEventForSlot | src/lib/calendar-utils.ts:45-75 | the method returns exactly the slot's events, or its throw |
| Expansion.SlotsEventsFailure | src/lib/calendar-utils.tsx:170-177 | a list of slots throws iff one of its slots throws |
| Expansion.WeekEventsOverlay | src/lib/calendar-utils.tsx:168-190 | a week holds every `default` event and every event of its own `S<n>` key; neither replaces the other |
| Expansion.WeekTitleNotDefault | src/lib/calendar-utils.tsx:186 | a week's title never reads as the default title |
| Expansion.WeeksEventsFailure | src/lib/calendar-utils.tsx:161-191 | the week loop throws iff one of its weeks throws |
| Expansion.WeeksEventsFailurePersists | src/lib/calendar-utils.tsx:161-191 | once a week throws, more weeks do not recover |
| Expansion.WeeksEventsContainWeek | src/lib/calendar-utils.tsx:161-191 | every week contributes all its events to the loop's |
| Expansion.SortByStartCorrect | src/lib/calendar-utils.tsx:194 | the sorted events are ordered by start and are a permutation of the input |
| Expansion.SortByStartStable | src/lib/calendar-utils.tsx:194 | events that start together keep their order |
| Expansion.SortByStartMembers | src/lib/calendar-utils.ts:124 | sorting keeps exactly the events it is given |
| Expansion.FirstMonday | src/lib/calendar-utils.tsx:153-154 | the first week starts on the Monday on or before 1 September |
| Expansion.GeneratedWeeks | src/lib/calendar-utils.tsx:157-158 | week `k` is generated iff its Monday is before 30 June of the next year |
| Expansion.ExpandFailure | src/lib/calendar-utils.tsx:140-197 | the expansion throws iff some generated week throws |
| Expansion.ExpandSorted | src/lib/calendar-utils.tsx:193-196 | the expansion is ordered by start |
| Expansion.ExpandHoldsWeek | src/lib/calendar-utils.tsx:161-191 | the expansion holds every event of every generated week, `default` and `S<n>` alike |
| Expansion.ExpandPermutation | src/lib/calendar-utils.tsx:193-196 | the expansion is a reordering of the weeks' events, stable for equal starts |
| Expansion.AcademicYearOf | src/lib/calendar-utils.tsx:144-150 | the academic year is the current year, or the previous one before September |
| Expansion.FirstWeekStart | src/lib/calendar-utils.tsx:153-154 | `getStartOfWeek` of 1 September is midnight of the first Monday |
| Expansion.WeeksToGenerate | src/lib/calendar-utils.tsx:157-158 | `weeksToGenerate` is the days to 30 June divided by seven, rounded up |
| Expansion.WeekDate | src/lib/calendar-utils.tsx:162-165 | week `k`'s date is `7k` days after the first Monday, with its `getWeekNumber` |
| Expansion.PushSlot | src/lib/calendar-utils.tsx:183-188 | pushing one slot's events appends exactly its events, or throws exactly when it does |
| Expansion.PushSlots | src/lib/calendar-utils.tsx:182-189 | the `forEach` over a key's slots appends their events in order, or throws exactly when one does |
| Expansion.PushWeekSlots | src/lib/calendar-utils.tsx:168-190 | a week's body appends the week's events, `default` first, or throws exactly when the week does |
| Expansion.PushWeek | src/lib/calendar-utils.tsx:162-190 | one iteration extends the loop's events by the next week's, or throws exactly when that week does |
| Expansion.GenerateWeeks | src/lib/calendar-utils.ts:94-122 | the `weekOffset` loop returns the events of the generated weeks in order, or the first throw |
| Expansion.ConvertAvailabilitiesToEvents | src/lib/calendar-utils.tsx:140-197 | the method returns the sorted expansion for the given current date, and nothing for absent availabilities |
| Analysis.WeekKeyOfWeek | src/lib/calendar-utils.tsx:221 | the key looked up for a week is the week key `S<n>` |
| Analysis.EffectiveSlotsChoice | src/lib/calendar-utils.tsx:222-230 | the week's own list when non-empty, else `default`; none at all iff both are empty |
| Analysis.ClassifyShort | src/lib/calendar-utils.tsx:244-250 | a target is short iff it has slots and their total is a number below the required hours, and then records week, required and available |
| Analysis.ClassifyCounted | src/lib/calendar-utils.tsx:244-250 | a target with slots is short or covered according to its total |
| Analysis.GatherCount | src/lib/calendar-utils.tsx:220-252 | the missing and short lists together hold at most one entry per target |
| Analysis.GatherMissing | src/lib/calendar-utils.tsx:228-230 | a target is in the missing list iff it is in the workweek and has no slots, and the list is a subsequence of the workweek |
| Analysis.GatherShortfalls | src/lib/calendar-utils.tsx:244-250 | a shortfall is listed iff some target is classified short with it |
| Analysis.GatherOne | src/lib/calendar-utils.tsx:220-251 | one target is listed once, in the list its outcome names, or nowhere |
| Analysis.GatherAppend | src/lib/calendar-utils.tsx:220-251 | visiting `a` then `b` lists `a`'s entries followed by `b`'s, in both lists |
| Analysis.MissingAt | src/lib/calendar-utils.tsx:228-230 | a target without slots is listed right after the missing targets before it |
| Analysis.MissingFrom | src/lib/calendar-utils.tsx:228-230 | each missing entry is the target without slots with that many such targets before it |
| Analysis.ShortfallAt | src/lib/calendar-utils.tsx:244-250 | a short target's shortfall is listed right after those of the short targets before it |
| Analysis.ShortfallFrom | src/lib/calendar-utils.tsx:244-250 | each shortfall is that of the short target with that many short targets before it |
| Analysis.AnalyzeSpec | src/lib/calendar-utils.tsx:213-255 | target `j` without slots is missing entry number (missing targets before `j`), so every such target is listed once per occurrence and in workweek order; the two lists hold at most one entry per target |
| Analysis.AnalyzeMissingFrom | src/lib/calendar-utils.tsx:228-230 | missing entry `i` is the target without slots that has `i` such targets before it, so nothing else is listed |
| Analysis.AnalyzeShortfalls | src/lib/calendar-utils.tsx:244-250 | target `j` whose slots add up to less than its hours gives shortfall number (short targets before `j`), recording its week, its hours and its total |
| Analysis.AnalyzeShortfallFrom | src/lib/calendar-utils.tsx:244-250 | shortfall `i` is that of the short target with `i` short targets before it, so nothing else is listed and the order is the workweek's |
| Analysis.SlotHoursOfTimes | src/lib/calendar-utils.tsx:235-241 | a slot between two `HH:MM` times gives the minutes between them in hours, times the number of comma tokens |
| Analysis.NaNHidesShortfall | src/lib/calendar-utils.tsx:244 | a time without minutes makes the total `NaN`, and the target is reported neither missing nor short |
| Analysis.SumHours | src/lib/calendar-utils.tsx:233-242 | the inner loop's `totalHours` is the slots' total |
| Analysis.VisitTarget | src/lib/calendar-utils.tsx:220-251 | the outer callback pushes the target into the list its classification names |
| Analysis.AnalyzeAvailabilities | src/lib/calendar-utils.tsx:213-255 | the method returns the analysis of the workweek |
| IntervenantCalendar.AcademicYearHoldsToday | src/components/calendar/intervenant-calendar.tsx:17-31 | the academic year holds today |
| IntervenantCalendar.AcademicYearSpan | src/components/calendar/intervenant-calendar.tsx:17-31 | it runs from 1 August of a year to the eve of 1 August of the next |
| IntervenantCalendar.DayNameOfWeekday | src/components/calendar/intervenant-calendar.tsx:56-59 | the name given to a day's `getDay` is the `DAYS_MAP` name of its weekday |
| IntervenantCalendar.OverlapSpec | src/components/calendar/intervenant-calendar.tsx:61-68 | non-empty events overlap iff some instant lies in both; the relation is symmetric; back-to-back events do not overlap |
| IntervenantCalendar.SelectKeepsNoOverlap | src/components/calendar/intervenant-calendar.tsx:178-190 | adding an event that passes the overlap check keeps the events free of same-day overlaps |
| IntervenantCalendar.FormattedSlotReadsBack | src/components/calendar/intervenant-calendar.tsx:33-46 | the slot written for an event reads back as the event's weekday and its two times of day |
| IntervenantCalendar.IndexOfSpec | src/components/calendar/intervenant-calendar.tsx:146-149 | `indexOf` finds the first occurrence, and -1 iff there is none |
| IntervenantCalendar.FindDateOutcome | src/components/calendar/intervenant-calendar.tsx:144-149 | null iff the day name is not a weekday; an invalid date iff it is one and the week does not parse |
| IntervenantCalendar.WeekKeyNumber | src/components/calendar/intervenant-calendar.tsx:145 | a week key's number parses back |
| IntervenantCalendar.FoundDateWeekday | src/components/calendar/intervenant-calendar.tsx:162-163 | a found date falls on the weekday its name gives |
| IntervenantCalendar.GetDateFromWeekAndDay | src/components/calendar/intervenant-calendar.tsx:144-166 | the `Date` mutations give the anchor Monday plus `(week - 1) * 7 + dayIndex` days, null or an invalid date |
| IntervenantCalendar.AsWrittenVersusIso | src/components/calendar/intervenant-calendar.tsx:155-163 | as written, the date agrees with ISO week 1 when 1 January is Monday to Thursday, and is one week early otherwise |
| IntervenantCalendar.AsWrittenOneWeekEarly | src/components/calendar/intervenant-calendar.tsx:155-163 | in a year starting Friday to Sunday, every day's week key and name lead to the day a week before |
| IntervenantCalendar.WeekOneIn2027 | src/components/calendar/intervenant-calendar.tsx:155-159 | as written, in 2027 `S1` with `lundi` leads to 28 December 2026, in ISO week 53 |
| IntervenantCalendar.IsoDateRoundTrip | src/components/calendar/intervenant-calendar.tsx:144-166 | anchored on ISO week 1, a day's week key and day name lead back to the day |
| IntervenantCalendar.FilterFrom | src/components/calendar/intervenant-calendar.tsx:225-227 | keeps, in order, exactly the slots not starting at the time |
| IntervenantCalendar.AddSlotSpec | src/components/calendar/intervenant-calendar.tsx:193-198 | adding changes one key: its list, created if absent, gains the slot at the end |
| IntervenantCalendar.RemoveFromSpec | src/components/calendar/intervenant-calendar.tsx:219-231 | deleting changes one key: slots at the time go, the others stay, and the key goes iff none is left |
| IntervenantCalendar.AddThenRemove | src/components/calendar/intervenant-calendar.tsx:192-231 | deleting at a just-added slot's time undoes the addition when no slot of that week started then |
| IntervenantCalendar.Calendar.constructor | src/components/calendar/intervenant-calendar.tsx:106-110 | the page starts with no events, an empty document, no error and nothing to delete |
| IntervenantCalendar.Calendar.HandleSelect | src/components/calendar/intervenant-calendar.tsx:168-200 | an overlapping selection sets the error and changes nothing else; otherwise the event is appended and its slot pushed on its week; no same-day overlap is introduced |
| IntervenantCalendar.Calendar.PushSlot | src/components/calendar/intervenant-calendar.tsx:193-198 | the week's list is created if missing and gains the slot |
| IntervenantCalendar.Calendar.HandleEventClick | src/components/calendar/intervenant-calendar.tsx:202-204 | the clicked event awaits confirmation |
| IntervenantCalendar.Calendar.HandleDeleteConfirm | src/components/calendar/intervenant-calendar.tsx:206-234 | nothing without a pending event; otherwise the document becomes RemoveFrom at the event's week and time, and the confirmation closes |
| IntervenantCalendar.SelectThenDelete | src/components/calendar/intervenant-calendar.tsx:168-234 | a selection that does not overlap, then a click on it and a confirmation, give the document back (minus a key that held `[]`) when no slot of that week started at that time |
| Workweek.ValidEntrySpec | src/components/workweek/import-workweek.tsx:42-52 | an entry is valid iff it is an object with a number week in (0, 53] and a positive number of hours |
| Workweek.CheckItemSpec | src/components/workweek/import-workweek.tsx:73-86 | an item passes iff it is an object with a string `intervenant` holding `@` and an array `workweek` of valid entries |
| Workweek.CheckItemsFromSuccess | src/components/workweek/import-workweek.tsx:73-86 | item validation succeeds iff every item passes, and fails only on an item |
| Workweek.CheckItemsFromFailure | src/components/workweek/import-workweek.tsx:73-86 | the error names item `i` and its problem iff `i` is the first failing item |
| Workweek.ImportCheckSpec | src/components/workweek/import-workweek.tsx:61-86 | the post is reached iff the text parses to an array whose items all pass; otherwise invalid JSON, not an array, or the first failing item |
| Workweek.HandleImport | src/components/workweek/import-workweek.tsx:54-86 | the loop over the items returns exactly that decision |
| Workweek.EmptyWorkweekAccepted | src/components/workweek/import-workweek.tsx:43 | an item with an empty workweek passes |
| Workweek.ArrayItemFailsOnEmail | src/components/workweek/import-workweek.tsx:74-78 | an array item passes the object test and fails on its e-mail |
| Workweek.FirstFailureReported | src/components/workweek/import-workweek.tsx:73-86 | the first failing item is reported, not a later one |
| Export.FlatMembers | src/app/api/admin/export/route.ts:26-27 | `.flat()` holds the elements of array values and the non-array values |
| Export.FilterTruthy | src/app/api/admin/export/route.ts:28 | `.filter(Boolean)` keeps, in order, exactly the truthy elements |
| Export.ReshapeSpec | src/app/api/admin/export/route.ts:21-29 | a truthy `default` keeps the availabilities unchanged; otherwise the list of the truthy elements of the flattened values |
| Export.ExportKeys | src/app/api/admin/export/route.ts:13-32 | a full name is exported iff some row with it is not skipped |
| Export.ExportLastWins | src/app/api/admin/export/route.ts:14-26 | the value under a name is that of the last non-skipped row with that name |
| Export.ExportDistinct | src/app/api/admin/export/route.ts:13-32 | the export never holds a key twice |
| Export.FormatRows | src/app/api/admin/export/route.ts:13-32 | the reducer as a loop gives the exported entries |
| KeyExpiry.CeilDiv | src/components/crud/read.tsx:19 | `Math.ceil(x / d)` is the least `q` with `x <= qd` |
| KeyExpiry.RemainingDaysSpec | src/components/crud/read.tsx:14-20 | the days left are the least whole number of days reaching the expiration from now |
| KeyExpiry.RemainingDaysShift | src/components/crud/read.tsx:17-19 | `k` more days of validity leave exactly `k` more days |
| KeyExpiry.ExpiredSpec | src/components/crud/read.tsx:22-24 | expired iff the expiration is not after now, iff no day is left |
| KeyExpiry.LabelSpec | src/components/crud/read.tsx:27-31 | a valid key shows "Expire dans N jour", with the plural iff more than one day |
| Password.ToHexString | src/lib/password.ts:3 | `toString(16)` of a byte has one or two digits |
| Password.PadStart | src/lib/password.ts:3 | `padStart` reaches the length and ends with the string |
| Password.HexPair | src/lib/password.ts:3 | a byte is its high digit followed by its low digit |
| Password.BufferToHex | src/lib/password.ts:1-5 | the text has two characters per byte, all in `0-9a-f` |
| Password.BufferToHexPositions | src/lib/password.ts:2-4 | byte `i` is written at positions `2i` and `2i + 1`, high digit first |
| Password.HexRoundTrip | src/lib/password.ts:1-5 | decoding the text gives the bytes back |
| Password.HexCanonical | src/lib/password.ts:1-5 | lower-case hexadecimal text is the rendering of the bytes it decodes to |
| Password.BufferToHexInjective | src/lib/password.ts:1-5 | different buffers give different texts |
| Password.HashPassword | src/lib/password.ts:11-15 | the hash decodes to the digest of the encoded password followed by the salt |
| Password.VerifyPasswordSpec | src/lib/password.ts:18-21 | a password is accepted iff the stored hash is the lower-case text of that digest; 64 digits for a 32-byte digest |
| Password.SameHashSameDigest | src/lib/password.ts:18-21 | two passwords accepted for one hash and salt have the same digest |

## Left out

- Expansion.ConvertAvailabilitiesToEvents: takes a typed document (key to list of `{days, from, to}` strings). The source throws a TypeError on a null slot or a non-string `days` (src/lib/calendar-utils.tsx:109), and on a truthy `default` or week value that is not an array (:170, :182). Those throws are not modelled.
- Expansion.CreateEventForSlot: instants are local wall-clock minutes. The source writes `toISOString()` UTC strings, so time zones, daylight-saving gaps and overlaps are not modelled, and neither is the order the sort gives to instants in a repeated hour.
- Expansion.CreateEventForSlot: a date outside the range of `Date` (more than 10^8 days from 1970) also makes `toISOString` throw; only `NaN` and the infinities are modelled as invalid.
- Expansion.SortByStart: `Array.prototype.sort` works in place; the model gives its result, a stable insertion sort (ECMAScript requires a stable sort).
- Text.ToLower: `toLowerCase` is modelled on ASCII letters only; other characters are kept. This changes no outcome: the lowered token is only compared with the weekday names, `constructor` and `__proto__`, which are lower-case ASCII without a `k`, and the only non-ASCII character that JavaScript lowers to ASCII is the Kelvin sign (U+212A, lowered to `k`). Any other token holding a non-ASCII character still holds one after lowering in either case, so it matches no name.
- Analysis.SlotHours: hours are exact reals. JavaScript rounds to binary64, so a total may differ in its last bits (`(to - from) / 60` is not exact there). Overflow to infinity is kept only for infinite inputs.
- Analysis.WeekKeyOf: a target's week is an integer. A fractional week such as 1.5 looks up `S1.5`, which is not modelled.
- Json.Entries: entries are kept in the order given. JavaScript objects list integer-like keys first, in ascending order; the export and the cleaner inherit that order in the source.
- Workweek.ImportCheck: `JSON.parse` is not modelled; its outcome (a value or a syntax error) is the parameter.
- Export.FullName: names are strings. A null name renders as `null` in the source.
- KeyExpiry.RemainingDays: a day is a fixed 24 hours and `validityDays` an integer. `setDate` moves by calendar days in local time, 23 or 25 hours across a daylight-saving change, and truncates a fractional count.
- Password.HashPassword: the text encoder and the SHA-256 digest are parameters. `generateSalt` (random UUID) and the asynchrony of the calls are left out.
- IntervenantCalendar.Calendar.HandleSelect: the source copies the document shallowly and pushes into the week's array, which the old state shares. The model updates a value, so that sharing is not captured. The error's removal after 3 seconds and `unselect()` are not modelled.
- IntervenantCalendar.Calendar.HandleDeleteConfirm: the events filter compares stored starts (a `Date` or an ISO string) with FullCalendar's `startStr`, a differently formatted string, so it removes nothing. The model leaves the events unchanged. The effect that rebuilds the events from the document is not modelled.
- IntervenantCalendar.FormatEventToAvailability: `toLocaleTimeString` is taken to write `HH:MM` in 24-hour time. An event ending at midnight therefore gives `to` = `00:00`.
- IntervenantCalendar.GetDateFromWeekAndDay: week keys carry no year, so the current year is used, as in the source.
- Validation.IsValidAvailabilityPeriod: `formatWeekWarning` (Intl formatting) and the unused `isInCurrentAcademicYear` (src/lib/calendar-utils.tsx:77-89, 257-270) are not modelled.
- Validation.IsValidAvailabilityPeriod: React rendering, database queries, routes other than the export reducer, authentication and `fetch` are not part of this model.

## Findings

| source | as written | input that shows it | evidently intended | confidence | as-written member | corrected member |
|---|---|---|---|---|---|---|
| src/components/calendar/intervenant-calendar.tsx:155-163 | week 1 starts on the Monday on or before 1 January | any day of 2027: `S1` with `lundi` gives Monday 28 December 2026, which is in ISO week 53 of 2026 | week 1 is ISO week 1, the week holding the first Thursday, as the `S<n>` keys from `getWeekNumber` are | not executed | IntervenantCalendar.WeekOneIn2027 | IntervenantCalendar.IsoDateRoundTrip |
