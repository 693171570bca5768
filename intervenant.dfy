/** The helpers of the intervenant's calendar page and the two updates it makes
    to its in-memory availability document: adding a selected slot and deleting
    a clicked one. Events are instants in minutes, as in the expansion; a
    calendar day is `instant / MinutesPerDay`. */
module IntervenantCalendar {
  import opened Wrappers
  import Text
  import JsNumber
  import opened Seqs
  import opened Availability
  import opened Gregorian
  import opened Expansion

  // ---------------------------------------------------------------- academic year

  /** A range of days, both ends included. */
  datatype DayRange = DayRange(start: int, end: int)

  /** `getAcademicYearDates()`: 1 August of the start year to 31 July of the next
      year, the start year being the previous one while the current month is
      before August. */
  function AcademicYearDates(today: int): DayRange {
    var startYear := SeasonStartYear(today, 8);
    DayRange(DayNumber(startYear, 8, 1), DayNumber(startYear + 1, 7, 31))
  }

  /** The academic year holds today. */
  lemma AcademicYearHoldsToday(today: int)
    ensures AcademicYearDates(today).start <= today <= AcademicYearDates(today).end
  {
    EndOfJuly(SeasonStartYear(today, 8) + 1);
  }

  /** The academic year starts on 1 August of some year and ends on the eve of
      1 August of the next, so that consecutive academic years tile the
      calendar. */
  lemma AcademicYearSpan(today: int)
    ensures exists y :: AcademicYearDates(today) == AugustToJuly(y)
  {
    var y := SeasonStartYear(today, 8);
    EndOfJuly(y + 1);
    assert AcademicYearDates(today).end == AugustToJuly(y).end;
  }

  /** The days from 1 August of `y` up to, not including, 1 August of `y + 1`. */
  function AugustToJuly(y: int): DayRange {
    DayRange(DayNumber(y, 8, 1), DayNumber(y + 1, 8, 1) - 1)
  }

  lemma EndOfJuly(y: int)
    ensures DayNumber(y, 7, 31) + 1 == DayNumber(y, 8, 1)
  {
    assert DaysBeforeMonth(y, 8) == DaysBeforeMonth(y, 7) + 31;
  }

  // ---------------------------------------------------------------- day names

  /** The weekday names indexed by `getDay()`, Sunday first. */
  const DayNames: seq<string> := ["dimanche", "lundi", "mardi", "mercredi", "jeudi", "vendredi", "samedi"]

  /** `getDayName(dayIndex)`: `undefined` outside the array. */
  function GetDayName(dayIndex: int): Option<string> {
    if 0 <= dayIndex < |DayNames| then Some(DayNames[dayIndex]) else None
  }

  /** The name given to a day is the `DAYS_MAP` name of its weekday: reading it back
      gives the day's offset from Monday. */
  lemma DayNameOfWeekday(day: int)
    ensures GetDayName(JsWeekday(day)) == Some(WeekdayNames[day % 7])
    ensures DaysMap(WeekdayNames[day % 7]) == Own(day % 7)
  {
  }

  /** Made of lower-case ASCII letters only. */
  predicate LowerWord(s: string) {
    forall i :: 0 <= i < |s| ==> 'a' <= s[i] <= 'z'
  }

  lemma WeekdayNameLower(k: nat)
    requires k < 7
    ensures |WeekdayNames[k]| > 0 && LowerWord(WeekdayNames[k])
  {
    if k == 0 { assert LowerWord("lundi"); }
    else if k == 1 { assert LowerWord("mardi"); }
    else if k == 2 { assert LowerWord("mercredi"); }
    else if k == 3 { assert LowerWord("jeudi"); }
    else if k == 4 { assert LowerWord("vendredi"); }
    else if k == 5 { assert LowerWord("samedi"); }
    else { assert LowerWord("dimanche"); }
  }

  /** A weekday name is a day token of its own: one piece, no blank, no capital. */
  lemma WeekdayNameToken(k: nat)
    requires k < 7
    ensures DayTokens(WeekdayNames[k]) == [WeekdayNames[k]]
  {
    var name := WeekdayNames[k];
    WeekdayNameLower(k);
    Text.SplitNoSeparator(name, ',');
    Text.TrimUnchanged(name);
    Text.ToLowerUnchanged(name);
    assert DayTokens(name) == TrimLowerAll([name]);
  }

  // ---------------------------------------------------------------- overlap

  /** `doEventsOverlap(event1, event2)`. */
  predicate DoEventsOverlap(a: Event, b: Event) {
    a.start < b.end && b.start < a.end
  }

  /** The instant `t` lies in the half-open interval of `e`. */
  predicate Covers(e: Event, t: int) {
    e.start <= t < e.end
  }

  /** Two non-empty events overlap exactly when some instant lies in both; the
      relation is symmetric, and an event ending when the other starts does not overlap it. */
  lemma OverlapSpec(a: Event, b: Event)
    ensures a.start < a.end && b.start < b.end ==> (DoEventsOverlap(a, b) <==> exists t :: Covers(a, t) && Covers(b, t))
    ensures DoEventsOverlap(a, b) == DoEventsOverlap(b, a)
    ensures a.end <= b.start ==> !DoEventsOverlap(a, b)
  {
    if a.start < a.end && b.start < b.end && DoEventsOverlap(a, b) {
      var t := if a.start < b.start then b.start else a.start;
      assert Covers(a, t) && Covers(b, t);
    }
  }

  /** `toDateString()` of both starts agree: the same calendar day. */
  predicate SameDay(a: Event, b: Event) {
    a.start / MinutesPerDay == b.start / MinutesPerDay
  }

  /** `events.some(...)` in `handleSelect`. */
  predicate HasOverlap(events: seq<Event>, e: Event) {
    exists i :: 0 <= i < |events| && SameDay(events[i], e) && DoEventsOverlap(events[i], e)
  }

  /** No two events starting on the same day overlap. */
  predicate NoSameDayOverlap(events: seq<Event>) {
    forall i, j :: 0 <= i < j < |events| && SameDay(events[i], events[j]) ==> !DoEventsOverlap(events[i], events[j])
  }

  /** Adding an event that passes the overlap test keeps the events free of same-day
      overlaps. */
  lemma SelectKeepsNoOverlap(events: seq<Event>, e: Event)
    requires NoSameDayOverlap(events) && !HasOverlap(events, e)
    ensures NoSameDayOverlap(events + [e])
  {
    var s := events + [e];
    forall i, j | 0 <= i < j < |s| && SameDay(s[i], s[j])
      ensures !DoEventsOverlap(s[i], s[j])
    {
      if j == |events| {
        assert s[i] == events[i] && s[j] == e;
      } else {
        assert s[i] == events[i] && s[j] == events[j];
      }
    }
  }

  // ---------------------------------------------------------------- event to slot

  /** What `formatEventToAvailability` returns. */
  datatype Formatted = Formatted(weekKey: string, availability: Slot)

  /** `formatEventToAvailability(event)`: the key of the ISO week of the event's
      day, the name of that day, and both times as `HH:MM`. */
  function FormatEventToAvailability(e: Event): Formatted {
    var day := e.start / MinutesPerDay;
    Formatted(WeekKey(WeekNumber(day)),
              Slot(GetDayName(JsWeekday(day)).value, FormatTime(e.start % MinutesPerDay), FormatTime(e.end % MinutesPerDay)))
  }

  /** The slot written for an event reads back, as `createEventForSlot` reads a
      slot, as the event's weekday and its two times of day. */
  lemma FormattedSlotReadsBack(e: Event)
    ensures Read(FormatEventToAvailability(e).availability) ==
      SlotReading([e.start / MinutesPerDay % 7], false, Some(e.start % MinutesPerDay), Some(e.end % MinutesPerDay))
  {
    var day := e.start / MinutesPerDay;
    var slot := FormatEventToAvailability(e).availability;
    DayNameOfWeekday(day);
    WeekdayNameToken(day % 7);
    assert DayTokens(slot.days) == [WeekdayNames[day % 7]];
    assert Offsets([WeekdayNames[day % 7]]) == [day % 7] by {
      assert [WeekdayNames[day % 7]][..0] == [];
    }
    assert !NamesInherited([WeekdayNames[day % 7]]) by {
      DaysMapTable(WeekdayNames[day % 7]);
    }
    ClockOfFormatTime(e.start % MinutesPerDay);
    ClockOfFormatTime(e.end % MinutesPerDay);
  }

  // ---------------------------------------------------------------- week and day to date

  /** `names.indexOf(x)`: the first position holding `x`, or -1. */
  function IndexOf(names: seq<string>, x: string): (r: int)
    ensures -1 <= r < |names|
    decreases |names|
  {
    if names == [] then -1
    else if names[0] == x then 0
    else
      var r := IndexOf(names[1..], x);
      if r == -1 then -1 else r + 1
  }

  /** `indexOf` finds the first occurrence, and -1 exactly when there is none. */
  lemma {:induction false} IndexOfSpec(names: seq<string>, x: string)
    ensures IndexOf(names, x) == -1 <==> x !in names
    ensures IndexOf(names, x) >= 0 ==> names[IndexOf(names, x)] == x && x !in names[..IndexOf(names, x)]
    decreases |names|
  {
    if names != [] && names[0] != x {
      IndexOfSpec(names[1..], x);
      var r := IndexOf(names[1..], x);
      assert names == [names[0]] + names[1..];
      if r >= 0 {
        assert names[..r + 1] == [names[0]] + names[1..][..r];
      }
    }
  }

  /** `weekKey.substring(1)`. */
  function AfterFirst(s: string): string {
    if |s| >= 1 then s[1..] else ""
  }

  /** What `getDateFromWeekAndDay` returns: `null`, an invalid `Date` (its week
      number is `NaN`), or midnight of a day. */
  datatype FoundDate = NoDate | InvalidDate | Date(day: int)

  /** `getDateFromWeekAndDay(weekKey, day)` once the Monday of week 1 is known:
      `null` for a day name not in the list, an invalid date for a week number
      that is `NaN`, and otherwise the day `dayIndex` days into that week. */
  function FindDate(weekKey: string, day: string, anchor: int): FoundDate {
    var weekNumber := JsNumber.ParseInt(AfterFirst(weekKey));
    var dayIndex := IndexOf(WeekdayNames, Text.ToLower(day));
    if dayIndex == -1 then NoDate
    else
      match weekNumber
      case None => InvalidDate
      case Some(w) => Date(anchor + (w - 1) * 7 + dayIndex)
  }

  /** `null` exactly for a name outside the list; an invalid date exactly for a
      listed name with a week that does not parse. */
  lemma FindDateOutcome(weekKey: string, day: string, anchor: int)
    ensures FindDate(weekKey, day, anchor).NoDate? <==> Text.ToLower(day) !in WeekdayNames
    ensures FindDate(weekKey, day, anchor).InvalidDate? <==>
      Text.ToLower(day) in WeekdayNames && JsNumber.ParseInt(AfterFirst(weekKey)).None?
  {
    IndexOfSpec(WeekdayNames, Text.ToLower(day));
  }

  /** Where the source puts week 1: the Monday on or before 1 January. */
  function WeekOneAsWritten(year: int): int {
    StartOfWeek(DayNumber(year, 1, 1))
  }

  /** ISO week 1: the week holding the first Thursday. */
  function IsoWeekOne(year: int): int {
    StartOfWeek(FirstThursday(year))
  }

  /** `getDateFromWeekAndDay(weekKey, day)` as written, in the current year. */
  function DateFromWeekAndDay(weekKey: string, day: string, today: int): FoundDate {
    FindDate(weekKey, day, WeekOneAsWritten(YearOf(today)))
  }

  /** The same with week 1 starting on the Monday of ISO week 1. */
  function IsoDateFromWeekAndDay(weekKey: string, day: string, today: int): FoundDate {
    FindDate(weekKey, day, IsoWeekOne(YearOf(today)))
  }

  /** `getDateFromWeekAndDay(weekKey, day)`, `currentDate` standing for
      `new Date()`: `firstDayOfYear` is moved back to the Monday on or before
      1 January, and a copy of it moved on by the week and the day. */
  method GetDateFromWeekAndDay(weekKey: string, day: string, currentDate: JsDate) returns (r: FoundDate)
    ensures r == DateFromWeekAndDay(weekKey, day, currentDate.Day())
  {
    var weekNumber := JsNumber.ParseInt(AfterFirst(weekKey));
    var dayIndex := IndexOf(WeekdayNames, Text.ToLower(day));
    if dayIndex == -1 {
      return NoDate;
    }
    var currentYear := currentDate.GetFullYear();
    var firstDayOfYear := new JsDate.At(DayNumber(currentYear, 1, 1) * MinutesPerDay);
    MidnightDay(DayNumber(currentYear, 1, 1));
    var weekday := firstDayOfYear.GetDay();
    var dayOffset := if weekday == 0 then 7 else weekday;
    firstDayOfYear.AddDays(1 - dayOffset);
    assert firstDayOfYear.Day() == WeekOneAsWritten(currentYear);
    var date := new JsDate.Copy(firstDayOfYear);
    match weekNumber {
      case None =>
        r := InvalidDate;
      case Some(w) =>
        date.AddDays((w - 1) * 7 + dayIndex);
        r := Date(date.Day());
    }
  }

  /** The position of a weekday name in the Monday-first list is its `DAYS_MAP`
      offset. */
  lemma IndexOfWeekday(name: string)
    requires name in WeekdayNames
    ensures DaysMap(name) == Own(IndexOf(WeekdayNames, name))
  {
    IndexOfSpec(WeekdayNames, name);
    DaysMapOfName(IndexOf(WeekdayNames, name));
  }

  lemma DaysMapOfName(k: int)
    requires 0 <= k < 7
    ensures DaysMap(WeekdayNames[k]) == Own(k)
  {
    if k == 0 { assert DaysMap("lundi") == Own(0); }
    else if k == 1 { assert DaysMap("mardi") == Own(1); }
    else if k == 2 { assert DaysMap("mercredi") == Own(2); }
    else if k == 3 { assert DaysMap("jeudi") == Own(3); }
    else if k == 4 { assert DaysMap("vendredi") == Own(4); }
    else if k == 5 { assert DaysMap("samedi") == Own(5); }
    else { assert DaysMap("dimanche") == Own(6); }
  }

  /** Each weekday name is found at its own position: the names are distinct. */
  lemma IndexOfName(k: int)
    requires 0 <= k < 7
    ensures IndexOf(WeekdayNames, WeekdayNames[k]) == k
  {
    IndexOfSpec(WeekdayNames, WeekdayNames[k]);
    var r := IndexOf(WeekdayNames, WeekdayNames[k]);
    if r < k {
      NamesDiffer(r, k);
    }
  }

  /** No two weekday names share both their initial and their length. */
  lemma NamesDiffer(i: int, j: int)
    requires 0 <= i < j < 7
    ensures WeekdayNames[i] != WeekdayNames[j]
  {
    var initials, lengths := "lmmjvsd", [5, 5, 8, 5, 8, 6, 8];
    assert forall n :: 0 <= n < 7 ==> WeekdayNames[n][0] == initials[n] && |WeekdayNames[n]| == lengths[n];
    assert initials[i] != initials[j] || lengths[i] != lengths[j];
  }

  /** A found date falls on the weekday its name gives. */
  lemma FoundDateWeekday(weekKey: string, day: string, anchor: int)
    requires anchor % 7 == 0
    requires FindDate(weekKey, day, anchor).Date?
    ensures DaysMap(Text.ToLower(day)) == Own(FindDate(weekKey, day, anchor).day % 7)
  {
    var name := Text.ToLower(day);
    FindDateOutcome(weekKey, day, anchor);
    var w := JsNumber.ParseInt(AfterFirst(weekKey)).value;
    var k := IndexOf(WeekdayNames, name);
    FindDateAt(weekKey, day, anchor, w, k);
    AddWeeks(anchor, w, k);
    IndexOfWeekday(name);
  }

  lemma AddWeeks(anchor: int, w: int, k: int)
    requires anchor % 7 == 0 && 0 <= k < 7
    ensures (anchor + (w - 1) * 7 + k) % 7 == k
  {
    var a := anchor / 7;
    assert anchor + (w - 1) * 7 + k == 7 * (a + w - 1) + k;
  }

  /** A week key read back as a number. */
  lemma WeekKeyNumber(n: nat)
    ensures JsNumber.ParseInt(AfterFirst(WeekKey(n))) == Some(n)
  {
    assert AfterFirst(WeekKey(n)) == Text.NatToString(n);
    JsNumber.ParseIntOfNat(n);
  }

  /** The name `getDayName` gives a day is found at the day's offset from Monday. */
  lemma DayNameIndex(d: int)
    ensures IndexOf(WeekdayNames, Text.ToLower(GetDayName(JsWeekday(d)).value)) == d % 7
  {
    var name := WeekdayNames[d % 7];
    DayNameOfWeekday(d);
    WeekdayNameLower(d % 7);
    Text.ToLowerUnchanged(name);
    IndexOfName(d % 7);
  }

  /** `FindDate` once the week number and the day's position are known. */
  lemma FindDateAt(weekKey: string, day: string, anchor: int, w: int, k: int)
    requires JsNumber.ParseInt(AfterFirst(weekKey)) == Some(w)
    requires IndexOf(WeekdayNames, Text.ToLower(day)) == k && 0 <= k < 7
    ensures FindDate(weekKey, day, anchor) == Date(anchor + (w - 1) * 7 + k)
  {
  }

  /** A day's week key and a name found at the day's offset lead back to the day
      from the Monday of its week 1. */
  lemma FindDateOfDay(d: int, anchor: int, w: nat, name: string)
    requires anchor + (w - 1) * 7 == StartOfWeek(d)
    requires IndexOf(WeekdayNames, Text.ToLower(name)) == d % 7
    ensures FindDate(WeekKey(w), name, anchor) == Date(d)
  {
    WeekKeyNumber(w);
    DayInWeek(d);
    FindDateAt(WeekKey(w), name, anchor, w, d % 7);
  }

  /** A day's offset from Monday is its distance from the Monday of its week. */
  lemma DayInWeek(d: int)
    ensures d % 7 == d - StartOfWeek(d)
  {
    WeekdayAfterMonday(StartOfWeek(d), d - StartOfWeek(d));
  }

  /** The Monday of a day's week is `WeekNumber(d) - 1` weeks after the Monday of
      ISO week 1 of its week-based year. */
  lemma IsoWeekOneAnchor(d: int, anchor: int)
    requires anchor == IsoWeekOne(IsoWeekYear(d))
    ensures anchor + (WeekNumber(d) - 1) * 7 == StartOfWeek(d)
  {
    WeekNumberIsIsoWeek(d);
    WeeksBetween(StartOfWeek(d), anchor);
  }

  /** Counting weeks from one Monday to another and back. */
  lemma WeeksBetween(monday: int, first: int)
    requires monday % 7 == 0 && first % 7 == 0
    ensures first + ((monday - first) / 7 + 1 - 1) * 7 == monday
  {
    var a, b := monday / 7, first / 7;
    assert monday == 7 * a && first == 7 * b;
    assert (monday - first) / 7 == a - b;
  }

  /** The ISO anchoring leads a day's week key and day name back to the day, for
      every day of the current ISO week-based year. */
  lemma IsoDateRoundTrip(d: int, today: int)
    requires IsoWeekYear(d) == YearOf(today)
    ensures IsoDateFromWeekAndDay(WeekKey(WeekNumber(d)), GetDayName(JsWeekday(d)).value, today) == Date(d)
  {
    IsoWeekKeyLeadsBack(d, IsoWeekOne(YearOf(today)));
  }

  lemma IsoWeekKeyLeadsBack(d: int, anchor: int)
    requires anchor == IsoWeekOne(IsoWeekYear(d))
    ensures FindDate(WeekKey(WeekNumber(d)), GetDayName(JsWeekday(d)).value, anchor) == Date(d)
  {
    IsoWeekOneAnchor(d, anchor);
    DayNameIndex(d);
    FindDateOfDay(d, anchor, WeekNumber(d), GetDayName(JsWeekday(d)).value);
  }

  /** Week 1 as written starts on the ISO week 1 Monday when 1 January falls on
      Monday to Thursday, and one week earlier when it falls on Friday to Sunday. */
  lemma WeekOneShift(y: int)
    ensures YearStart(y) % 7 < 4 ==> WeekOneAsWritten(y) == IsoWeekOne(y)
    ensures YearStart(y) % 7 >= 4 ==> WeekOneAsWritten(y) == IsoWeekOne(y) - 7
  {
    var start := YearStart(y);
    JanuaryFirst(y);
    assert WeekOneAsWritten(y) == start - start % 7;
    assert FirstThursday(y) == start + (3 - start % 7) % 7;
  }

  /** Moving the Monday of week 1 by a week moves a found date by a week and
      leaves the other outcomes alone. */
  lemma FindDateShift(weekKey: string, day: string, anchor: int)
    ensures !FindDate(weekKey, day, anchor).Date? ==> FindDate(weekKey, day, anchor - 7) == FindDate(weekKey, day, anchor)
    ensures FindDate(weekKey, day, anchor).Date? ==> FindDate(weekKey, day, anchor - 7) == Date(FindDate(weekKey, day, anchor).day - 7)
  {
  }

  /** The date as written agrees with the ISO date in a year starting on Monday
      to Thursday, and falls a week earlier in a year starting on Friday to
      Sunday. */
  lemma AsWrittenVersusIso(weekKey: string, day: string, today: int)
    ensures YearStart(YearOf(today)) % 7 < 4 ==>
      DateFromWeekAndDay(weekKey, day, today) == IsoDateFromWeekAndDay(weekKey, day, today)
    ensures YearStart(YearOf(today)) % 7 >= 4 && !IsoDateFromWeekAndDay(weekKey, day, today).Date? ==>
      DateFromWeekAndDay(weekKey, day, today) == IsoDateFromWeekAndDay(weekKey, day, today)
    ensures YearStart(YearOf(today)) % 7 >= 4 && IsoDateFromWeekAndDay(weekKey, day, today).Date? ==>
      DateFromWeekAndDay(weekKey, day, today) == Date(IsoDateFromWeekAndDay(weekKey, day, today).day - 7)
  {
    var y := YearOf(today);
    WeekOneShift(y);
    FindDateShift(weekKey, day, IsoWeekOne(y));
  }

  /** In a year whose 1 January falls on Friday to Sunday, the source's
      `getDateFromWeekAndDay` takes every day's week key and day name to the day
      one week before it. */
  lemma AsWrittenOneWeekEarly(d: int, today: int)
    requires IsoWeekYear(d) == YearOf(today)
    requires YearStart(YearOf(today)) % 7 >= 4
    ensures DateFromWeekAndDay(WeekKey(WeekNumber(d)), GetDayName(JsWeekday(d)).value, today) == Date(d - 7)
  {
    var key, name := WeekKey(WeekNumber(d)), GetDayName(JsWeekday(d)).value;
    var y := YearOf(today);
    IsoWeekKeyLeadsBack(d, IsoWeekOne(y));
    WeekEarlier(key, name, y, d);
  }

  lemma WeekEarlier(key: string, name: string, y: int, d: int)
    requires YearStart(y) % 7 >= 4
    requires FindDate(key, name, IsoWeekOne(y)) == Date(d)
    ensures FindDate(key, name, WeekOneAsWritten(y)) == Date(d - 7)
  {
    WeekOneShift(y);
    FindDateShift(key, name, IsoWeekOne(y));
  }

  /** Monday 4 January 2027, the first day of ISO week 1 of 2027. */
  const January4th2027 := 739984

  /** 1 January 2027 is a Friday, and 4 January 2027 is the Monday of ISO week 1
      of 2027. */
  lemma Year2027(jan4: int)
    requires jan4 == January4th2027
    ensures YearStart(2027) % 7 == 4
    ensures IsoWeekYear(jan4) == 2027 && WeekNumber(jan4) == 1
    ensures GetDayName(JsWeekday(jan4)) == Some("lundi")
  {
    YearStarts2027();
    assert StartOfWeek(jan4) == jan4;
    YearOfUnique(jan4 + 3, 2027);
    assert JsWeekday(jan4) == 1;
  }

  lemma YearStarts2027()
    ensures YearStart(2027) == 739981 && YearStart(2028) == 740346
  {
  }

  /** The week before is ISO week 53 of 2026. */
  lemma Week53Of2026(monday: int)
    requires monday == January4th2027 - 7
    ensures WeekNumber(monday) == 53
  {
    assert ThursdayOf(monday) == 739980;
    assert YearStart(2026) == 739616 && YearStart(2027) == 739981;
    YearOfUnique(739980, 2026);
  }

  /** As written, on any day of 2027 the key `S1` with `lundi` leads to Monday
      28 December 2026, a day of ISO week 53 of 2026. */
  lemma WeekOneIn2027(today: int)
    requires YearOf(today) == 2027
    ensures DateFromWeekAndDay(WeekKey(1), "lundi", today) == Date(January4th2027 - 7)
    ensures WeekNumber(January4th2027 - 7) == 53
  {
    var jan4 := January4th2027;
    Year2027(jan4);
    AsWrittenOneWeekEarly(jan4, today);
    Week53Of2026(jan4 - 7);
  }

  // ---------------------------------------------------------------- the document updates

  /** The list of `key` with `slot` pushed at its end, the list being created when
      the key is absent; the other keys are left as they were. */
  function AddSlot(doc: Document, key: string, slot: Slot): Document {
    doc[key := (if key in doc then doc[key] else []) + [slot]]
  }

  /** `.filter(a => a.from !== eventTime)`. */
  function FilterFrom(slots: seq<Slot>, time: string): (r: seq<Slot>)
    ensures forall s :: s in r <==> s in slots && s.from != time
    ensures IsSubsequence(r, slots)
    decreases |slots|
  {
    if slots == [] then []
    else
      var front, last := slots[..|slots| - 1], slots[|slots| - 1];
      var kept := FilterFrom(front, time);
      assert slots == front + [last];
      if last.from != time then
        assert (kept + [last])[..|kept|] == kept;
        kept + [last]
      else
        assert kept == [] || IsSubsequence(kept, slots);
        kept
  }

  /** The slots of `key` starting at `time` removed, and the key deleted once its
      list is empty; nothing happens when the key is absent. */
  function RemoveFrom(doc: Document, key: string, time: string): Document {
    if key !in doc then doc
    else
      var kept := FilterFrom(doc[key], time);
      if |kept| == 0 then doc - {key} else doc[key := kept]
  }

  /** Adding changes the one key: its list gains the slot at the end. */
  lemma AddSlotSpec(doc: Document, key: string, slot: Slot)
    ensures AddSlot(doc, key, slot).Keys == doc.Keys + {key}
    ensures key in doc ==> AddSlot(doc, key, slot)[key] == doc[key] + [slot]
    ensures key !in doc ==> AddSlot(doc, key, slot)[key] == [slot]
    ensures forall k :: k in doc && k != key ==> AddSlot(doc, key, slot)[k] == doc[k]
  {
  }

  /** Deleting changes the one key: no slot starting at `time` is left under it, it
      keeps every other slot, and it is gone exactly when none is left. */
  lemma RemoveFromSpec(doc: Document, key: string, time: string)
    ensures var r := RemoveFrom(doc, key, time);
      && (forall k :: k != key ==> (k in r <==> k in doc))
      && (forall k :: k in r && k != key ==> r[k] == doc[k])
      && (key in r <==> key in doc && exists s :: s in doc[key] && s.from != time)
      && (key in r ==> forall s :: s in r[key] <==> s in doc[key] && s.from != time)
  {
    if key in doc {
      var kept := FilterFrom(doc[key], time);
      if kept != [] {
        assert kept[0] in kept;
      }
    }
  }

  /** Deleting at the start time of a slot just added undoes the addition, when no
      slot of that week started at that time before; a week left with an empty
      list loses its key. */
  lemma AddThenRemove(doc: Document, key: string, slot: Slot)
    requires key in doc ==> forall s :: s in doc[key] ==> s.from != slot.from
    ensures RemoveFrom(AddSlot(doc, key, slot), key, slot.from) ==
      if key in doc && doc[key] == [] then doc - {key} else doc
  {
    var old_ := if key in doc then doc[key] else [];
    var kept := FilterFrom(old_ + [slot], slot.from);
    assert kept == old_ by {
      FilterKeepsAll(old_, slot.from);
      assert (old_ + [slot])[..|old_|] == old_;
    }
    if key in doc && kept != [] {
      assert doc[key := kept] == doc;
    }
  }

  lemma {:induction false} FilterKeepsAll(slots: seq<Slot>, time: string)
    requires forall s :: s in slots ==> s.from != time
    ensures FilterFrom(slots, time) == slots
    decreases |slots|
  {
    if slots != [] {
      FilterKeepsAll(slots[..|slots| - 1], time);
      assert slots[..|slots| - 1] + [slots[|slots| - 1]] == slots;
    }
  }

  // ---------------------------------------------------------------- the page state

  const NewEventTitle := "Disponible"
  const NewEventColor := "#93c5fd"
  const OverlapMessage := "Il y a déjà une disponibilité sur ce créneau"

  /** The page's state: its events, its availability document, the error shown and
      the event whose deletion awaits confirmation. */
  class Calendar {
    var events: seq<Event>
    var availabilities: Document
    var error: Option<string>
    var deleteTarget: Option<Event>

    constructor ()
      ensures events == [] && availabilities == map[] && error == None && deleteTarget == None
    {
      events := [];
      availabilities := map[];
      error := None;
      deleteTarget := None;
    }

    /** `handleSelect`: a selection overlapping an event of its day is refused with
        an error; otherwise the event is appended and its slot pushed onto its
        week's list. */
    method HandleSelect(start: int, end: int)
      modifies this
      ensures var e := Event(NewEventTitle, start, end, NewEventColor);
        var f := FormatEventToAvailability(e);
        if HasOverlap(old(events), e) then
          && events == old(events) && availabilities == old(availabilities)
          && error == Some(OverlapMessage)
        else
          && events == old(events) + [e]
          && availabilities == AddSlot(old(availabilities), f.weekKey, f.availability)
          && error == old(error)
      ensures deleteTarget == old(deleteTarget)
      ensures NoSameDayOverlap(old(events)) ==> NoSameDayOverlap(events)
    {
      var newEvent := Event(NewEventTitle, start, end, NewEventColor);
      if HasOverlap(events, newEvent) {
        error := Some(OverlapMessage);
        return;
      }
      if NoSameDayOverlap(events) {
        SelectKeepsNoOverlap(events, newEvent);
      }
      var f := FormatEventToAvailability(newEvent);
      events := events + [newEvent];
      PushSlot(f.weekKey, f.availability);
    }

    /** The part of `handleSelect` that creates the week's list when it is missing
        and pushes the new slot onto it. */
    method PushSlot(weekKey: string, slot: Slot)
      modifies this
      ensures availabilities == AddSlot(old(availabilities), weekKey, slot)
      ensures events == old(events) && error == old(error) && deleteTarget == old(deleteTarget)
    {
      var newAvailabilities := availabilities;
      if weekKey !in newAvailabilities {
        newAvailabilities := newAvailabilities[weekKey := []];
      }
      newAvailabilities := newAvailabilities[weekKey := newAvailabilities[weekKey] + [slot]];
      availabilities := newAvailabilities;
    }

    /** `handleEventClick`: the clicked event awaits confirmation. */
    method HandleEventClick(e: Event)
      modifies this
      ensures deleteTarget == Some(e)
      ensures events == old(events) && availabilities == old(availabilities) && error == old(error)
    {
      deleteTarget := Some(e);
    }

    /** `handleDeleteConfirm`: without an event awaiting confirmation nothing
        happens; otherwise the slots of its week starting at its time are removed,
        the week's key goes once its list is empty, and the confirmation closes. */
    method HandleDeleteConfirm()
      modifies this
      ensures old(deleteTarget).None? ==>
        events == old(events) && availabilities == old(availabilities) && deleteTarget == None
      ensures old(deleteTarget).Some? ==>
        var e := old(deleteTarget).value;
        && availabilities == RemoveFrom(old(availabilities), FormatEventToAvailability(e).weekKey,
                                        FormatTime(e.start % MinutesPerDay))
        && deleteTarget == None
      ensures events == old(events) && error == old(error)
    {
      if deleteTarget.None? {
        return;
      }
      var eventToDelete := deleteTarget.value;
      var weekKey := FormatEventToAvailability(eventToDelete).weekKey;
      var newAvailabilities := availabilities;
      if weekKey in newAvailabilities {
        var eventTime := FormatTime(eventToDelete.start % MinutesPerDay);
        newAvailabilities := newAvailabilities[weekKey := FilterFrom(newAvailabilities[weekKey], eventTime)];
        if |newAvailabilities[weekKey]| == 0 {
          newAvailabilities := newAvailabilities - {weekKey};
        }
      }
      availabilities := newAvailabilities;
      deleteTarget := None;
    }
  }

  /** Selecting a free slot, clicking its event and confirming gives back the
      document as it was, when no slot of that week started at that time. */
  method SelectThenDelete(calendar: Calendar, start: int, end: int)
    modifies calendar
    requires var f := FormatEventToAvailability(Event(NewEventTitle, start, end, NewEventColor));
      f.weekKey in calendar.availabilities ==>
        forall s :: s in calendar.availabilities[f.weekKey] ==> s.from != f.availability.from
    ensures var f := FormatEventToAvailability(Event(NewEventTitle, start, end, NewEventColor));
      !HasOverlap(old(calendar.events), Event(NewEventTitle, start, end, NewEventColor)) ==>
        calendar.availabilities ==
          if f.weekKey in old(calendar.availabilities) && old(calendar.availabilities)[f.weekKey] == []
          then old(calendar.availabilities) - {f.weekKey} else old(calendar.availabilities)
  {
    var e := Event(NewEventTitle, start, end, NewEventColor);
    var f := FormatEventToAvailability(e);
    calendar.HandleSelect(start, end);
    calendar.HandleEventClick(e);
    calendar.HandleDeleteConfirm();
    if !HasOverlap(old(calendar.events), e) {
      AddThenRemove(old(calendar.availabilities), f.weekKey, f.availability);
    }
  }
}
