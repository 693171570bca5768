/** `convertAvailabilitiesToEvents` and `createEventForSlot`: the expansion of an
    availability document into dated calendar events over one academic year.
    The two revisions of `calendar-utils` carry the same code for both, so it is
    modelled once.

    The functions are the specification; the methods follow the source's loops,
    its `Date` mutations and its early exit when `toISOString` throws on a time
    that is not a number. */
module Expansion {
  import opened Wrappers
  import opened Gregorian
  import opened Availability

  /** A calendar event; `start` and `end` are instants in minutes (see
      `Gregorian`). `color` is both the background and the border colour. */
  datatype Event = Event(title: string, start: int, end: int, color: string)

  /** `toISOString()` throws `RangeError: Invalid time value` on a date whose
      hours or minutes were set to `NaN`. */
  datatype ExpansionError = InvalidTimeValue

  const DefaultTitle := "Default - Disponible"
  const DefaultColor := "#93c5fd"
  const WeekColor := "#60a5fa"

  function WeekTitle(n: nat): string {
    WeekKey(n) + " - Disponible"
  }

  /** A week's title never reads as the default one. */
  lemma WeekTitleNotDefault(n: nat)
    ensures WeekTitle(n) != DefaultTitle
  {
    assert WeekTitle(n)[0] == 'S' && DefaultTitle[0] == 'D';
  }

  /** The instant `minutes` after the midnight that starts `day`. */
  function At(day: int, minutes: int): int {
    day * MinutesPerDay + minutes
  }

  // ---------------------------------------------------------------- one slot

  /** The `DAYS_MAP` offsets of the tokens that name a weekday, in token order;
      the other tokens leave none. */
  function Offsets(tokens: seq<string>): (offsets: seq<nat>)
    ensures |offsets| <= |tokens|
    ensures forall i :: 0 <= i < |offsets| ==> offsets[i] < 7
    decreases |tokens|
  {
    if tokens == [] then []
    else
      var front := Offsets(tokens[..|tokens| - 1]);
      match DaysMap(tokens[|tokens| - 1])
      case Own(k) => front + [k]
      case _ => front
  }

  /** Some token names a property that every object inherits, so that `DAYS_MAP`
      yields a value that is not `undefined` and not a number for it. */
  predicate NamesInherited(tokens: seq<string>) {
    exists i :: 0 <= i < |tokens| && DaysMap(tokens[i]).Inherited?
  }

  lemma OffsetsSnoc(tokens: seq<string>, i: nat)
    requires i < |tokens|
    ensures Offsets(tokens[..i + 1]) ==
      if DaysMap(tokens[i]).Own? then Offsets(tokens[..i]) + [DaysMap(tokens[i]).offset] else Offsets(tokens[..i])
  {
    assert tokens[..i + 1][..i] == tokens[..i];
  }

  /** A prefix of the tokens yields a prefix of the offsets. */
  lemma {:induction false} OffsetsOfPrefix(tokens: seq<string>, n: nat)
    requires n <= |tokens|
    ensures |Offsets(tokens[..n])| <= |Offsets(tokens)|
    ensures Offsets(tokens[..n]) == Offsets(tokens)[..|Offsets(tokens[..n])|]
    decreases |tokens| - n
  {
    if n < |tokens| {
      OffsetsOfPrefix(tokens, n + 1);
      assert tokens[..n + 1][..n] == tokens[..n];
    } else {
      assert tokens[..n] == tokens;
    }
  }

  /** Token `j`, when it names a weekday, gives the offset at the position that
      counts the weekday tokens before it. */
  lemma OffsetOfToken(tokens: seq<string>, j: nat)
    requires j < |tokens| && DaysMap(tokens[j]).Own?
    ensures |Offsets(tokens[..j])| < |Offsets(tokens)|
    ensures Offsets(tokens)[|Offsets(tokens[..j])|] == DaysMap(tokens[j]).offset
  {
    OffsetsSnoc(tokens, j);
    OffsetsOfPrefix(tokens, j + 1);
  }

  /** Each offset comes from the weekday token that has as many weekday tokens
      before it as the offset has offsets before it. With `OffsetOfToken`: the
      offsets are the weekday tokens' offsets, one each, in token order. */
  lemma {:induction false} TokenOfOffset(tokens: seq<string>, i: nat)
    requires i < |Offsets(tokens)|
    ensures exists j :: 0 <= j < |tokens| && DaysMap(tokens[j]).Own? && |Offsets(tokens[..j])| == i &&
                        Offsets(tokens)[i] == DaysMap(tokens[j]).offset
    decreases |tokens|
  {
    var n := |tokens| - 1;
    var front := tokens[..n];
    OffsetsSnoc(tokens, n);
    assert tokens[..n + 1] == tokens;
    if i < |Offsets(front)| {
      TokenOfOffset(front, i);
      var j :| 0 <= j < |front| && DaysMap(front[j]).Own? && |Offsets(front[..j])| == i &&
        Offsets(front)[i] == DaysMap(front[j]).offset;
      assert front[..j] == tokens[..j] && front[j] == tokens[j];
    } else {
      assert tokens[n] == tokens[|tokens| - 1];
    }
  }

  /** Every token is recognised exactly when none is skipped. */
  lemma {:induction false} OffsetsAllRecognised(tokens: seq<string>)
    ensures |Offsets(tokens)| == |tokens| <==> forall t :: t in tokens ==> t in WeekdayNames
    decreases |tokens|
  {
    if tokens != [] {
      var front := tokens[..|tokens| - 1];
      OffsetsAllRecognised(front);
      assert tokens == front + [tokens[|tokens| - 1]];
      DaysMapTable(tokens[|tokens| - 1]);
      if !DaysMap(tokens[|tokens| - 1]).Own? {
        assert |Offsets(tokens)| < |tokens|;
      }
    }
  }

  /** A slot as `createEventForSlot` reads it: the `DAYS_MAP` offsets of its day
      tokens, whether a token names an inherited property, and its two times as
      minutes after midnight (`None` when the date they set is invalid). */
  datatype SlotReading = SlotReading(offsets: seq<nat>, inherited: bool, from: Option<int>, to: Option<int>)

  function Read(slot: Slot): (r: SlotReading)
    ensures |r.offsets| <= |DayTokens(slot.days)|
  {
    var tokens := DayTokens(slot.days);
    SlotReading(Offsets(tokens), NamesInherited(tokens), ClockOf(slot.from), ClockOf(slot.to))
  }

  function ReadAll(slots: seq<Slot>): (r: seq<SlotReading>)
    ensures |r| == |slots|
    decreases |slots|
  {
    if slots == [] then [] else ReadAll(slots[..|slots| - 1]) + [Read(slots[|slots| - 1])]
  }

  lemma {:induction false} ReadAllAt(slots: seq<Slot>, i: nat)
    requires i < |slots|
    ensures ReadAll(slots)[i] == Read(slots[i])
    decreases |slots|
  {
    var front := slots[..|slots| - 1];
    assert ReadAll(slots) == ReadAll(front) + [Read(slots[|slots| - 1])];
    if i < |slots| - 1 {
      ReadAllAt(front, i);
      assert front[i] == slots[i];
    }
  }

  /** The document with every slot read. */
  type Readings = map<string, seq<SlotReading>>

  function ReadDocument(doc: Document): (r: Readings)
    ensures r.Keys == doc.Keys
    ensures forall k :: k in doc ==> r[k] == ReadAll(doc[k])
  {
    map k | k in doc :: ReadAll(doc[k])
  }

  /** The events of one slot on the days `offsets` after `monday`. */
  function EventsOn(offsets: seq<nat>, monday: int, from: int, to: int, title: string, color: string): (events: seq<Event>)
    ensures |events| == |offsets|
    decreases |offsets|
  {
    if offsets == [] then []
    else
      var day := monday + offsets[|offsets| - 1];
      EventsOn(offsets[..|offsets| - 1], monday, from, to, title, color) + [Event(title, At(day, from), At(day, to), color)]
  }

  lemma {:induction false} EventsOnAt(offsets: seq<nat>, monday: int, from: int, to: int, title: string, color: string, i: nat)
    requires i < |offsets|
    ensures EventsOn(offsets, monday, from, to, title, color)[i] ==
      Event(title, At(monday + offsets[i], from), At(monday + offsets[i], to), color)
    decreases |offsets|
  {
    if i < |offsets| - 1 {
      EventsOnAt(offsets[..|offsets| - 1], monday, from, to, title, color, i);
    }
  }

  /** `createEventForSlot(slot, monday, title, color)` on a read slot: one event
      per recognised weekday, on that weekday of the week starting on `monday`,
      from `from` to `to`. It throws when a token names an inherited property
      (adding a function or an object to the day of the month makes the date
      invalid), or when a weekday is named and a time is not a number. */
  function SlotEvents(slot: SlotReading, monday: int, title: string, color: string): (r: Result<seq<Event>, ExpansionError>)
    ensures r.Failure? <==> slot.inherited || (slot.offsets != [] && (slot.from.None? || slot.to.None?))
    ensures r.Success? ==> |r.value| == |slot.offsets|
  {
    if slot.inherited then Failure(InvalidTimeValue)
    else if slot.offsets == [] then Success([])
    else if slot.from.None? || slot.to.None? then Failure(InvalidTimeValue)
    else Success(EventsOn(slot.offsets, monday, slot.from.value, slot.to.value, title, color))
  }

  /** Event `i` of a slot is on its `i`-th recognised weekday of the week, from
      the slot's start time to its end time, with the given title and colour. */
  lemma SlotEventsAt(slot: SlotReading, monday: int, title: string, color: string, i: nat)
    requires SlotEvents(slot, monday, title, color).Success?
    requires i < |slot.offsets|
    ensures slot.from.Some? && slot.to.Some?
    ensures SlotEvents(slot, monday, title, color).value[i] ==
      Event(title, At(monday + slot.offsets[i], slot.from.value), At(monday + slot.offsets[i], slot.to.value), color)
  {
    EventsOnAt(slot.offsets, monday, slot.from.value, slot.to.value, title, color, i);
  }

  /** `slots.forEach(slot => events.push(...createEventForSlot(slot, ...)))`:
      the slots' events in order, stopping at the first slot that throws. */
  function SlotsEvents(slots: seq<SlotReading>, monday: int, title: string, color: string): (r: Result<seq<Event>, ExpansionError>)
    decreases |slots|
  {
    if slots == [] then Success([])
    else
      match SlotsEvents(slots[..|slots| - 1], monday, title, color)
      case Failure(e) => Failure(e)
      case Success(before) =>
        match SlotEvents(slots[|slots| - 1], monday, title, color)
        case Failure(e) => Failure(e)
        case Success(last) => Success(before + last)
  }

  /** The slots' events fail exactly when one of the slots throws. */
  lemma {:induction false} SlotsEventsFailure(slots: seq<SlotReading>, monday: int, title: string, color: string)
    ensures SlotsEvents(slots, monday, title, color).Failure? <==>
      exists i :: 0 <= i < |slots| && SlotEvents(slots[i], monday, title, color).Failure?
    decreases |slots|
  {
    if slots != [] {
      var front := slots[..|slots| - 1];
      SlotsEventsFailure(front, monday, title, color);
      if SlotsEvents(front, monday, title, color).Failure? {
        var i :| 0 <= i < |front| && SlotEvents(front[i], monday, title, color).Failure?;
        assert slots[i] == front[i];
      } else if SlotEvents(slots[|slots| - 1], monday, title, color).Success? {
        forall i | 0 <= i < |slots|
          ensures SlotEvents(slots[i], monday, title, color).Success?
        {
          if i < |front| {
            assert slots[i] == front[i];
          }
        }
      }
    }
  }

  // ---------------------------------------------------------------- weeks

  /** The events of the week starting on `monday`, whose ISO week number is `n`:
      all `default` events, then those of `S<n>` on top (neither replaces the
      other). */
  function WeekEvents(doc: Readings, monday: int, n: nat): (r: Result<seq<Event>, ExpansionError>)
  {
    var defaults := if DefaultKey in doc then SlotsEvents(doc[DefaultKey], monday, DefaultTitle, DefaultColor) else Success([]);
    var specific := if WeekKey(n) in doc then SlotsEvents(doc[WeekKey(n)], monday, WeekTitle(n), WeekColor) else Success([]);
    match defaults
    case Failure(e) => Failure(e)
    case Success(d) =>
      match specific
      case Failure(e) => Failure(e)
      case Success(s) => Success(d + s)
  }

  /** The week-specific list adds to the default one: both lists' events are in
      the week. */
  lemma WeekEventsOverlay(doc: Readings, monday: int, n: nat)
    requires WeekEvents(doc, monday, n).Success?
    ensures DefaultKey in doc ==> SlotsEvents(doc[DefaultKey], monday, DefaultTitle, DefaultColor).Success?
    ensures WeekKey(n) in doc ==> SlotsEvents(doc[WeekKey(n)], monday, WeekTitle(n), WeekColor).Success?
    ensures DefaultKey in doc ==> forall e :: e in SlotsEvents(doc[DefaultKey], monday, DefaultTitle, DefaultColor).value ==>
      e in WeekEvents(doc, monday, n).value
    ensures WeekKey(n) in doc ==> forall e :: e in SlotsEvents(doc[WeekKey(n)], monday, WeekTitle(n), WeekColor).value ==>
      e in WeekEvents(doc, monday, n).value
  {
  }

  /** The events of week `k` of the `weekOffset` loop: the week starts `7 * k`
      days after `firstMonday` and carries `number` of its Monday (the loop uses
      `getWeekNumber`); `expand` gives its events. */
  function WeekAt(doc: Readings, firstMonday: int, k: int, number: int -> nat,
                  expand: (Readings, int, nat) -> Result<seq<Event>, ExpansionError>): Result<seq<Event>, ExpansionError>
  {
    var monday := firstMonday + 7 * k;
    expand(doc, monday, number(monday))
  }

  /** With the source's week number and week expansion, week `k` is the
      expansion of the Monday `7 * k` days after the first. */
  lemma WeekAtMonday(doc: Readings, firstMonday: int, k: int, monday: int)
    requires monday == firstMonday + 7 * k
    ensures WeekAt(doc, firstMonday, k, WeekNumber, WeekEvents) == WeekEvents(doc, monday, WeekNumber(monday))
  {
    var number: int -> nat, expand := WeekNumber, WeekEvents;
    var n := number(monday);
    assert n == WeekNumber(monday);
    assert expand(doc, monday, n) == WeekEvents(doc, monday, n);
  }

  /** The `weekOffset` loop's events over weeks `0 .. count - 1`, in week order.
      The first week that throws makes the loop throw. */
  function WeeksEvents(doc: Readings, firstMonday: int, count: int, number: int -> nat,
                       expand: (Readings, int, nat) -> Result<seq<Event>, ExpansionError>): Result<seq<Event>, ExpansionError>
    decreases count
  {
    if count <= 0 then Success([])
    else
      match WeeksEvents(doc, firstMonday, count - 1, number, expand)
      case Failure(e) => Failure(e)
      case Success(before) =>
        match WeekAt(doc, firstMonday, count - 1, number, expand)
        case Failure(e) => Failure(e)
        case Success(week) => Success(before + week)
  }

  /** The loop throws exactly when one of its weeks throws. */
  lemma {:induction false} WeeksEventsFailure(doc: Readings, firstMonday: int, count: int, number: int -> nat,
                                              expand: (Readings, int, nat) -> Result<seq<Event>, ExpansionError>)
    ensures WeeksEvents(doc, firstMonday, count, number, expand).Failure? <==>
      exists k :: 0 <= k < count && WeekAt(doc, firstMonday, k, number, expand).Failure?
    decreases count
  {
    if count > 0 {
      WeeksEventsFailure(doc, firstMonday, count - 1, number, expand);
    }
  }

  /** Once a week throws, generating more weeks does not recover. */
  lemma {:induction false} WeeksEventsFailurePersists(doc: Readings, firstMonday: int, number: int -> nat,
                                                      expand: (Readings, int, nat) -> Result<seq<Event>, ExpansionError>, k: int, count: int)
    requires k <= count
    requires WeeksEvents(doc, firstMonday, k, number, expand).Failure?
    ensures WeeksEvents(doc, firstMonday, count, number, expand) == Failure(InvalidTimeValue)
    decreases count - k
  {
    if k < count {
      WeeksEventsFailurePersists(doc, firstMonday, number, expand, k, count - 1);
    }
    assert WeeksEvents(doc, firstMonday, count, number, expand).error == InvalidTimeValue;
  }

  /** Every week contributes all its events to the loop's. */
  lemma {:induction false} WeeksEventsContainWeek(doc: Readings, firstMonday: int, count: int, number: int -> nat,
                                                  expand: (Readings, int, nat) -> Result<seq<Event>, ExpansionError>, k: nat)
    requires k < count
    requires WeeksEvents(doc, firstMonday, count, number, expand).Success?
    ensures WeekAt(doc, firstMonday, k, number, expand).Success?
    ensures forall e :: e in WeekAt(doc, firstMonday, k, number, expand).value ==>
      e in WeeksEvents(doc, firstMonday, count, number, expand).value
    decreases count
  {
    if k < count - 1 {
      WeeksEventsContainWeek(doc, firstMonday, count - 1, number, expand, k);
    }
  }

  // ---------------------------------------------------------------- sort

  predicate SortedByStart(events: seq<Event>) {
    forall i, j :: 0 <= i < j < |events| ==> events[i].start <= events[j].start
  }

  /** Puts `e` before the first event that starts no earlier than it. */
  function Insert(sorted: seq<Event>, e: Event): (r: seq<Event>)
    ensures multiset(r) == multiset(sorted) + multiset{e}
    decreases |sorted|
  {
    if sorted == [] || e.start <= sorted[0].start then [e] + sorted
    else
      assert sorted == [sorted[0]] + sorted[1..];
      [sorted[0]] + Insert(sorted[1..], e)
  }

  lemma SortedTail(sorted: seq<Event>)
    requires sorted != [] && SortedByStart(sorted)
    ensures SortedByStart(sorted[1..])
    ensures forall x :: x in sorted[1..] ==> sorted[0].start <= x.start
  {
  }

  lemma {:induction false} InsertSorted(sorted: seq<Event>, e: Event)
    requires SortedByStart(sorted)
    ensures SortedByStart(Insert(sorted, e))
    decreases |sorted|
  {
    if sorted != [] && e.start > sorted[0].start {
      SortedTail(sorted);
      InsertSorted(sorted[1..], e);
      var rest := Insert(sorted[1..], e);
      forall j | 0 <= j < |rest|
        ensures sorted[0].start <= rest[j].start
      {
        assert rest[j] in multiset(rest);
        if rest[j] != e {
          assert rest[j] in multiset(sorted[1..]);
        }
      }
      var r := [sorted[0]] + rest;
      assert Insert(sorted, e) == r;
      forall i, j | 0 <= i < j < |r|
        ensures r[i].start <= r[j].start
      {
        assert r[j] == rest[j - 1];
        if i > 0 {
          assert r[i] == rest[i - 1];
        }
      }
    }
  }

  /** `events.sort((a, b) => a.start - b.start)`: by start time, keeping the
      order of events that start together (the sort is stable). */
  function SortByStart(events: seq<Event>): (r: seq<Event>)
    decreases |events|
  {
    if events == [] then [] else Insert(SortByStart(events[1..]), events[0])
  }

  /** The sorted list is ordered by start and is a permutation of the input. */
  lemma {:induction false} SortByStartCorrect(events: seq<Event>)
    ensures SortedByStart(SortByStart(events))
    ensures multiset(SortByStart(events)) == multiset(events)
    decreases |events|
  {
    if events != [] {
      var head, tail := events[0], events[1..];
      assert [head] + tail == events;
      SortByStartCorrect(tail);
      InsertSorted(SortByStart(tail), head);
      assert SortByStart(events) == Insert(SortByStart(tail), head);
      assert multiset(events) == multiset(tail) + multiset{head};
    }
  }

  /** Sorting keeps exactly the events it is given. */
  lemma SortByStartMembers(events: seq<Event>)
    ensures forall e :: e in SortByStart(events) <==> e in events
  {
    SortByStartCorrect(events);
    forall e
      ensures e in SortByStart(events) <==> e in events
    {
      assert e in SortByStart(events) <==> e in multiset(SortByStart(events));
      assert e in events <==> e in multiset(events);
    }
  }

  /** The events starting at `t`, in order. */
  function StartingAt(events: seq<Event>, t: int): (r: seq<Event>)
    ensures forall e :: e in r ==> e.start == t
    decreases |events|
  {
    if events == [] then []
    else (if events[0].start == t then [events[0]] else []) + StartingAt(events[1..], t)
  }

  lemma InsertStableStep(sorted: seq<Event>, e: Event, t: int, rest: seq<Event>)
    requires sorted != [] && sorted[0].start < e.start
    requires StartingAt(rest, t) == (if e.start == t then [e] else []) + StartingAt(sorted[1..], t)
    ensures StartingAt([sorted[0]] + rest, t) == (if e.start == t then [e] else []) + StartingAt(sorted, t)
  {
    var h := sorted[0];
    assert ([h] + rest)[1..] == rest;
    assert StartingAt([h] + rest, t) == (if h.start == t then [h] else []) + StartingAt(rest, t);
    assert StartingAt(sorted, t) == (if h.start == t then [h] else []) + StartingAt(sorted[1..], t);
    if e.start == t {
      assert StartingAt(sorted, t) == StartingAt(sorted[1..], t);
    } else {
      assert StartingAt(rest, t) == StartingAt(sorted[1..], t);
    }
  }

  lemma {:induction false} InsertStable(sorted: seq<Event>, e: Event, t: int)
    ensures StartingAt(Insert(sorted, e), t) == (if e.start == t then [e] else []) + StartingAt(sorted, t)
    decreases |sorted|
  {
    if sorted == [] || e.start <= sorted[0].start {
      assert ([e] + sorted)[1..] == sorted;
    } else {
      InsertStable(sorted[1..], e, t);
      InsertStableStep(sorted, e, t, Insert(sorted[1..], e));
    }
  }

  /** Stability: the events that start at the same instant keep their order. */
  lemma {:induction false} SortByStartStable(events: seq<Event>, t: int)
    ensures StartingAt(SortByStart(events), t) == StartingAt(events, t)
    decreases |events|
  {
    if events != [] {
      SortByStartStable(events[1..], t);
      InsertStable(SortByStart(events[1..]), events[0], t);
    }
  }

  // ---------------------------------------------------------------- the year

  /** The academic year starts on 1 September of the current year, or of the
      previous one while today is before September. */
  function AcademicYear(today: int): int {
    SeasonStartYear(today, 9)
  }

  /** The Monday on or before 1 September of academic year `y`. */
  function FirstMonday(y: int): (monday: int)
    ensures monday % 7 == 0
    ensures monday <= DayNumber(y, 9, 1) < monday + 7
  {
    StartOfWeek(DayNumber(y, 9, 1))
  }

  /** `weeksToGenerate`: whole weeks from the first Monday to 30 June, rounded up. */
  function WeekCount(y: int): int {
    CeilDiv7(DayNumber(y + 1, 6, 30) - FirstMonday(y))
  }

  /** The generated weeks are exactly the Mondays from `FirstMonday` that fall
      before 30 June of the next year. */
  lemma GeneratedWeeks(y: int, k: int)
    requires k >= 0
    ensures k < WeekCount(y) <==> FirstMonday(y) + 7 * k < DayNumber(y + 1, 6, 30)
  {
  }

  /** The events of the weeks `convertAvailabilitiesToEvents` generates on day
      `today`, before sorting. */
  function YearEvents(doc: Readings, today: int): Result<seq<Event>, ExpansionError> {
    var y := AcademicYear(today);
    WeeksEvents(doc, FirstMonday(y), WeekCount(y), WeekNumber, WeekEvents)
  }

  /** `convertAvailabilitiesToEvents(availabilities)` on day `today`. */
  function Expand(availabilities: Option<Document>, today: int): (r: Result<seq<Event>, ExpansionError>)
  {
    match availabilities
    case None => Success([])
    case Some(doc) =>
      match YearEvents(ReadDocument(doc), today)
      case Failure(e) => Failure(e)
      case Success(events) => Success(SortByStart(events))
  }

  /** The expansion throws exactly when some generated week throws, and then
      with `toISOString`'s `RangeError`. */
  lemma ExpandFailure(doc: Document, today: int)
    ensures var y := AcademicYear(today);
      Expand(Some(doc), today).Failure? <==>
        exists k :: 0 <= k < WeekCount(y) && WeekAt(ReadDocument(doc), FirstMonday(y), k, WeekNumber, WeekEvents).Failure?
  {
    var y := AcademicYear(today);
    WeeksEventsFailure(ReadDocument(doc), FirstMonday(y), WeekCount(y), WeekNumber, WeekEvents);
  }

  /** The expansion is ordered by start. */
  lemma ExpandSorted(doc: Document, today: int)
    requires Expand(Some(doc), today).Success?
    ensures SortedByStart(Expand(Some(doc), today).value)
  {
    SortByStartCorrect(YearEvents(ReadDocument(doc), today).value);
  }

  /** The expansion holds every event of every generated week `k`: all `default`
      events and the week's own `S<n>` events. */
  lemma ExpandHoldsWeek(doc: Document, today: int, k: nat, events: seq<Event>)
    requires Expand(Some(doc), today) == Success(events)
    requires k < WeekCount(AcademicYear(today))
    ensures var monday := FirstMonday(AcademicYear(today)) + 7 * k;
      var week := WeekEvents(ReadDocument(doc), monday, WeekNumber(monday));
      match week
      case Success(w) => forall e :: e in w ==> e in events
      case Failure(_) => false
  {
    var y := AcademicYear(today);
    SortByStartMembers(YearEvents(ReadDocument(doc), today).value);
    WeeksEventsContainWeek(ReadDocument(doc), FirstMonday(y), WeekCount(y), WeekNumber, WeekEvents, k);
  }

  /** Nothing is invented or lost: the expansion is a reordering of the weeks'
      events, in which events that start together keep their order. */
  lemma ExpandPermutation(doc: Document, today: int, t: int)
    requires Expand(Some(doc), today).Success?
    ensures multiset(Expand(Some(doc), today).value) == multiset(YearEvents(ReadDocument(doc), today).value)
    ensures StartingAt(Expand(Some(doc), today).value, t) == StartingAt(YearEvents(ReadDocument(doc), today).value, t)
  {
    var events := YearEvents(ReadDocument(doc), today).value;
    SortByStartCorrect(events);
    SortByStartStable(events, t);
  }

  // ---------------------------------------------------------------- methods

  lemma SlotsFailurePersists(slots: seq<Slot>, monday: int, title: string, color: string, n: nat)
    requires n <= |slots|
    requires SlotsEvents(ReadAll(slots[..n]), monday, title, color).Failure?
    ensures SlotsEvents(ReadAll(slots), monday, title, color).Failure?
  {
    SlotsEventsFailure(ReadAll(slots[..n]), monday, title, color);
    var i :| 0 <= i < n && SlotEvents(ReadAll(slots[..n])[i], monday, title, color).Failure?;
    ReadAllAt(slots[..n], i);
    ReadAllAt(slots, i);
    assert slots[..n][i] == slots[i];
    SlotsEventsFailure(ReadAll(slots), monday, title, color);
  }

  lemma MidnightDay(day: int)
    ensures (day * MinutesPerDay) / MinutesPerDay == day
  {
  }

  lemma EventsOnSnoc(offsets: seq<nat>, k: nat, monday: int, from: int, to: int, title: string, color: string)
    ensures EventsOn(offsets + [k], monday, from, to, title, color) ==
      EventsOn(offsets, monday, from, to, title, color) + [Event(title, At(monday + k, from), At(monday + k, to), color)]
  {
    assert (offsets + [k])[..|offsets|] == offsets;
  }

  /** One more day token adds the event of its weekday, if it names one. */
  lemma DayTokenStep(days: seq<string>, i: nat, monday: int, from: int, to: int, title: string, color: string)
    requires i < |days| && DaysMap(days[i]).Own?
    ensures EventsOn(Offsets(days[..i + 1]), monday, from, to, title, color) ==
      EventsOn(Offsets(days[..i]), monday, from, to, title, color) +
      [Event(title, At(monday + DaysMap(days[i]).offset, from), At(monday + DaysMap(days[i]).offset, to), color)]
  {
    OffsetsSnoc(days, i);
    EventsOnSnoc(Offsets(days[..i]), DaysMap(days[i]).offset, monday, from, to, title, color);
  }

  /** The event of one weekday: `date` moved on by `offset` days (`setDate`), then
      set to the two times of day (`setHours`) on two further copies. */
  method DatedEvent(date: JsDate, offset: nat, from: int, to: int, title: string, color: string) returns (e: Event)
    ensures e == Event(title, At(date.Day() + offset, from), At(date.Day() + offset, to), color)
  {
    var eventDate := new JsDate.Copy(date);
    eventDate.AddDays(offset);
    var start := new JsDate.Copy(eventDate);
    start.SetHours(from / 60, from % 60);
    var end := new JsDate.Copy(eventDate);
    end.SetHours(to / 60, to % 60);
    e := Event(title, start.time, end.time, color);
  }

  /** `createEventForSlot(slot, date, title, color)`: `date` is left as it was;
      each event is computed on copies of it. The two times are split and read
      once, before the loop over the day tokens, rather than once per weekday:
      reading them has no effect, and the first weekday throws when one is not a
      number. */
  method CreateEventForSlot(slot: Slot, date: JsDate, title: string, color: string) returns (r: Result<seq<Event>, ExpansionError>)
    ensures r == SlotEvents(Read(slot), date.Day(), title, color)
  {
    var days := DayTokens(slot.days);
    var fromTime, toTime := ClockOf(slot.from), ClockOf(slot.to);
    r := EventsForDays(days, fromTime, toTime, date, title, color);
  }

  /** What the day-token loop has produced after the first `i` tokens: the events
      of the weekdays named so far, which can only have been named when both
      times are numbers; no token so far names an inherited property. */
  predicate DaysDone(days: seq<string>, i: nat, fromTime: Option<int>, toTime: Option<int>, monday: int,
                     title: string, color: string, events: seq<Event>)
    requires i <= |days|
  {
    var offsets := Offsets(days[..i]);
    !NamesInherited(days[..i]) &&
    (offsets != [] ==> fromTime.Some? && toTime.Some?) &&
    events == EventsOn(offsets, monday, if fromTime.Some? then fromTime.value else 0,
                       if toTime.Some? then toTime.value else 0, title, color)
  }

  /** A token that names a weekday leaves an offset. */
  lemma RecognisedToken(days: seq<string>, i: nat)
    requires i < |days| && DaysMap(days[i]).Own?
    ensures Offsets(days) != []
  {
    OffsetOfToken(days, i);
  }

  /** A token that names an inherited property is named in the whole list. */
  lemma InheritedToken(days: seq<string>, i: nat)
    requires i < |days| && DaysMap(days[i]).Inherited?
    ensures NamesInherited(days)
  {
  }

  /** The next token names no weekday and no inherited property. */
  lemma MissingToken(days: seq<string>, i: nat)
    requires i < |days| && DaysMap(days[i]).Missing?
    requires !NamesInherited(days[..i])
    ensures Offsets(days[..i + 1]) == Offsets(days[..i])
    ensures !NamesInherited(days[..i + 1])
  {
    OffsetsSnoc(days, i);
    assert days[..i + 1] == days[..i] + [days[i]];
  }

  /** The `days.forEach` callback for token `i`: the event of its weekday if it
      names one, or the throw of `toISOString` when the date it sets is invalid. */
  method PushDay(events: seq<Event>, days: seq<string>, i: nat, fromTime: Option<int>, toTime: Option<int>, date: JsDate,
                 title: string, color: string)
    returns (r: Result<seq<Event>, ExpansionError>)
    requires i < |days|
    requires DaysDone(days, i, fromTime, toTime, date.Day(), title, color, events)
    ensures r.Failure? ==> SlotEvents(SlotReading(Offsets(days), NamesInherited(days), fromTime, toTime), date.Day(), title, color).Failure?
    ensures r.Success? ==> DaysDone(days, i + 1, fromTime, toTime, date.Day(), title, color, r.value)
  {
    var dayIndex := DaysMap(days[i]);
    if dayIndex.Missing? {
      MissingToken(days, i);
      return Success(events);
    }
    if dayIndex.Inherited? {
      InheritedToken(days, i);
      return Failure(InvalidTimeValue);
    }
    if fromTime.None? || toTime.None? {
      RecognisedToken(days, i);
      return Failure(InvalidTimeValue);
    }
    var e := DatedEvent(date, dayIndex.offset, fromTime.value, toTime.value, title, color);
    OwnDayDone(days, i, fromTime, toTime, date.Day(), title, color, events, e);
    r := Success(events + [e]);
  }

  /** A token that names a weekday, with both times numbers, adds that weekday's
      event. */
  lemma OwnDayDone(days: seq<string>, i: nat, fromTime: Option<int>, toTime: Option<int>, monday: int,
                   title: string, color: string, events: seq<Event>, e: Event)
    requires i < |days| && DaysMap(days[i]).Own? && fromTime.Some? && toTime.Some?
    requires DaysDone(days, i, fromTime, toTime, monday, title, color, events)
    requires e == Event(title, At(monday + DaysMap(days[i]).offset, fromTime.value), At(monday + DaysMap(days[i]).offset, toTime.value), color)
    ensures DaysDone(days, i + 1, fromTime, toTime, monday, title, color, events + [e])
  {
    DayTokenStep(days, i, monday, fromTime.value, toTime.value, title, color);
    OwnToken(days, i);
    RecognisedToken(days[..i + 1], i);
  }

  /** A token that names a weekday adds no inherited name. */
  lemma OwnToken(days: seq<string>, i: nat)
    requires i < |days| && DaysMap(days[i]).Own?
    requires !NamesInherited(days[..i])
    ensures !NamesInherited(days[..i + 1])
  {
    assert days[..i + 1] == days[..i] + [days[i]];
  }

  /** The `days.forEach` loop of `createEventForSlot` over the day tokens. */
  method EventsForDays(days: seq<string>, fromTime: Option<int>, toTime: Option<int>, date: JsDate, title: string, color: string)
    returns (r: Result<seq<Event>, ExpansionError>)
    ensures r == SlotEvents(SlotReading(Offsets(days), NamesInherited(days), fromTime, toTime), date.Day(), title, color)
  {
    var events: seq<Event> := [];
    for i := 0 to |days|
      invariant DaysDone(days, i, fromTime, toTime, date.Day(), title, color, events)
    {
      var next := PushDay(events, days, i, fromTime, toTime, date, title, color);
      if next.Failure? {
        assert next.error == InvalidTimeValue;
        assert SlotEvents(SlotReading(Offsets(days), NamesInherited(days), fromTime, toTime), date.Day(), title, color).error == InvalidTimeValue;
        return next;
      }
      events := next.value;
    }
    assert days[..|days|] == days;
    r := Success(events);
  }

  /** `readings` are the slots, read one by one. The trigger keeps the reading of
      a slot out of a proof until that slot's reading is mentioned. */
  predicate ReadsAs(slots: seq<Slot>, readings: seq<SlotReading>) {
    |readings| == |slots| && forall i {:trigger Read(slots[i])} :: 0 <= i < |slots| ==> readings[i] == Read(slots[i])
  }

  lemma {:induction false} ReadAllReadsAs(slots: seq<Slot>)
    ensures ReadsAs(slots, ReadAll(slots))
  {
    forall i | 0 <= i < |slots|
      ensures ReadAll(slots)[i] == Read(slots[i])
    {
      ReadAllAt(slots, i);
    }
  }

  /** `readings` is the document with every slot read. */
  predicate DocReadsAs(doc: Document, readings: Readings) {
    readings.Keys == doc.Keys && forall k {:trigger readings[k]} :: k in doc ==> ReadsAs(doc[k], readings[k])
  }

  lemma ReadDocumentReadsAs(doc: Document)
    ensures DocReadsAs(doc, ReadDocument(doc))
  {
    forall k | k in doc
      ensures ReadsAs(doc[k], ReadDocument(doc)[k])
    {
      ReadAllReadsAs(doc[k]);
    }
  }

  /** A document has one reading. */
  lemma DocReadsAsUnique(doc: Document, readings: Readings)
    requires DocReadsAs(doc, readings)
    ensures readings == ReadDocument(doc)
  {
    ReadDocumentReadsAs(doc);
    forall k | k in doc
      ensures readings[k] == ReadDocument(doc)[k]
    {
      var slots := doc[k];
      forall i | 0 <= i < |slots|
        ensures readings[k][i] == ReadDocument(doc)[k][i]
      {
        assert readings[k][i] == Read(slots[i]);
        assert ReadDocument(doc)[k][i] == Read(slots[i]);
      }
    }
  }

  lemma ExpandFromReadings(doc: Document, today: int, readings: Readings)
    requires DocReadsAs(doc, readings)
    ensures Expand(Some(doc), today) ==
      match YearEvents(readings, today)
      case Failure(e) => Failure(e)
      case Success(events) => Success(SortByStart(events))
  {
    DocReadsAsUnique(doc, readings);
  }

  method PushSlot(events: seq<Event>, slots: seq<Slot>, j: nat, ghost readings: seq<SlotReading>, date: JsDate, title: string, color: string)
    returns (r: Result<seq<Event>, ExpansionError>)
    requires j < |slots| && ReadsAs(slots, readings)
    ensures r.Failure? <==> SlotEvents(readings[j], date.Day(), title, color).Failure?
    ensures r.Success? ==> r.value == events + SlotEvents(readings[j], date.Day(), title, color).value
  {
    var slotEvents := CreateEventForSlot(slots[j], date, title, color);
    assert readings[j] == Read(slots[j]);
    if slotEvents.Failure? {
      return Failure(slotEvents.error);
    }
    r := Success(events + slotEvents.value);
  }

  method PushSlots(events: seq<Event>, slots: seq<Slot>, ghost readings: seq<SlotReading>, date: JsDate, title: string, color: string)
    returns (r: Result<seq<Event>, ExpansionError>)
    requires ReadsAs(slots, readings)
    ensures r.Failure? <==> SlotsEvents(readings, date.Day(), title, color).Failure?
    ensures r.Success? ==> r.value == events + SlotsEvents(readings, date.Day(), title, color).value
  {
    ghost var monday := date.Day();
    var acc := events;
    for j := 0 to |slots|
      invariant SlotsEvents(readings[..j], monday, title, color).Success?
      invariant acc == events + SlotsEvents(readings[..j], monday, title, color).value
    {
      var next := PushSlot(acc, slots, j, readings, date, title, color);
      assert date.Day() == monday;
      assert readings[..j + 1][..j] == readings[..j];
      if next.Failure? {
        assert SlotsEvents(readings, monday, title, color).Failure? by {
          SlotsEventsFailure(readings, monday, title, color);
        }
        return next;
      }
      acc := next.value;
    }
    assert readings[..|slots|] == readings;
    r := Success(acc);
  }

  /** `academicYear`: the current year, or the previous one before September. */
  method AcademicYearOf(now: JsDate) returns (academicYear: int)
    ensures academicYear == AcademicYear(now.Day())
  {
    academicYear := now.GetFullYear();
    if BeforeMonth(now.Day(), 9) {
      academicYear := academicYear - 1;
    }
  }

  /** `getStartOfWeek(startDate)` for `startDate`, 1 September of the academic
      year (`getStartOfWeek` also moves `startDate`, which is not used again). */
  method FirstWeekStart(academicYear: int) returns (startOfFirstWeek: JsDate)
    ensures fresh(startOfFirstWeek)
    ensures startOfFirstWeek.time == FirstMonday(academicYear) * MinutesPerDay
  {
    var startDate := new JsDate.At(DayNumber(academicYear, 9, 1) * MinutesPerDay);
    MidnightDay(DayNumber(academicYear, 9, 1));
    startOfFirstWeek := GetStartOfWeek(startDate);
  }

  /** `weeksToGenerate`: the days from the first Monday to 30 June of the next
      year, divided by seven and rounded up. */
  method WeeksToGenerate(academicYear: int, startOfFirstWeek: JsDate) returns (weeksToGenerate: int)
    requires startOfFirstWeek.time == FirstMonday(academicYear) * MinutesPerDay
    ensures weeksToGenerate == WeekCount(academicYear)
  {
    var endDate := new JsDate.At(DayNumber(academicYear + 1, 6, 30) * MinutesPerDay);
    ghost var days := DayNumber(academicYear + 1, 6, 30) - FirstMonday(academicYear);
    assert endDate.time - startOfFirstWeek.time == days * MinutesPerDay;
    MidnightDay(days);
    weeksToGenerate := CeilDiv7((endDate.time - startOfFirstWeek.time) / MinutesPerDay);
  }

  /** `weekDate`, a copy of the first Monday moved on by `weekOffset` weeks, and
      `getWeekNumber(weekDate)`; `number` stands for `getWeekNumber`'s
      specification. */
  method WeekDate(startOfFirstWeek: JsDate, weekOffset: int, ghost number: int -> nat) returns (weekDate: JsDate, weekNumber: nat)
    requires forall d {:trigger WeekNumber(d)} :: number(d) == WeekNumber(d)
    ensures weekDate.Day() == startOfFirstWeek.Day() + 7 * weekOffset
    ensures weekNumber == number(weekDate.Day())
  {
    weekDate := new JsDate.Copy(startOfFirstWeek);
    weekDate.AddDays(weekOffset * 7);
    weekNumber := GetWeekNumber(weekDate);
  }

  /** A week's slots: its `default` slots, then those of its own key `S<n>`.
      `expand` stands for the week's events. */
  method PushWeekSlots(events: seq<Event>, doc: Document, ghost readings: Readings, weekDate: JsDate, weekNumber: nat,
                       ghost expand: (Readings, int, nat) -> Result<seq<Event>, ExpansionError>)
    returns (r: Result<seq<Event>, ExpansionError>)
    requires DocReadsAs(doc, readings)
    requires forall m, n {:trigger WeekEvents(readings, m, n)} :: expand(readings, m, n) == WeekEvents(readings, m, n)
    ensures r.Failure? <==> expand(readings, weekDate.Day(), weekNumber).Failure?
    ensures r.Success? ==> r.value == events + expand(readings, weekDate.Day(), weekNumber).value
  {
    var weekKey := WeekKey(weekNumber);
    assert expand(readings, weekDate.Day(), weekNumber) == WeekEvents(readings, weekDate.Day(), weekNumber);
    var withDefaults := Success(events);
    if DefaultKey in doc {
      withDefaults := PushSlots(events, doc[DefaultKey], readings[DefaultKey], weekDate, DefaultTitle, DefaultColor);
      if withDefaults.Failure? {
        return withDefaults;
      }
    }
    r := withDefaults;
    if weekKey in doc {
      r := PushSlots(withDefaults.value, doc[weekKey], readings[weekKey], weekDate, WeekTitle(weekNumber), WeekColor);
    }
  }

  /** The body of the `weekOffset` loop: week `weekOffset` adds its events to
      those of the weeks before it, or throws.
      `firstMonday` is the day of `startOfFirstWeek`. */
  method PushWeek(events: seq<Event>, doc: Document, ghost readings: Readings, startOfFirstWeek: JsDate, ghost firstMonday: int,
                  weekOffset: nat, ghost number: int -> nat,
                  ghost expand: (Readings, int, nat) -> Result<seq<Event>, ExpansionError>)
    returns (r: Result<seq<Event>, ExpansionError>)
    requires startOfFirstWeek.Day() == firstMonday
    requires LoopContext(doc, readings, number, expand)
    requires WeeksEvents(readings, firstMonday, weekOffset, number, expand) == Success(events)
    ensures r.Success? ==> r == WeeksEvents(readings, firstMonday, weekOffset + 1, number, expand)
    ensures r.Failure? <==> WeekAt(readings, firstMonday, weekOffset, number, expand).Failure?
  {
    var weekDate, weekNumber := WeekDate(startOfFirstWeek, weekOffset, number);
    ghost var monday := weekDate.Day();
    r := PushWeekSlots(events, doc, readings, weekDate, weekNumber, expand);
    WeeksEventsNext(readings, firstMonday, weekOffset, number, expand, events, monday, weekNumber, r);
  }

  /** One more week: the loop's events so far followed by the week's, or the
      week's error. */
  lemma WeeksEventsNext(doc: Readings, firstMonday: int, k: nat, number: int -> nat,
                        expand: (Readings, int, nat) -> Result<seq<Event>, ExpansionError>, before: seq<Event>,
                        monday: int, n: nat, r: Result<seq<Event>, ExpansionError>)
    requires WeeksEvents(doc, firstMonday, k, number, expand) == Success(before)
    requires monday == firstMonday + 7 * k && n == number(monday)
    requires r.Failure? <==> expand(doc, monday, n).Failure?
    requires r.Success? ==> r.value == before + expand(doc, monday, n).value
    ensures r.Success? ==> r == WeeksEvents(doc, firstMonday, k + 1, number, expand)
    ensures r.Failure? <==> WeekAt(doc, firstMonday, k, number, expand).Failure?
  {
  }

  /** What the loop's steps take for granted: `readings` is the document read,
      and `number` and `expand` are `getWeekNumber`'s and a week's events'
      specifications (the triggers keep their definitions out of a proof until
      they are mentioned). */
  ghost predicate LoopContext(doc: Document, readings: Readings, number: int -> nat,
                        expand: (Readings, int, nat) -> Result<seq<Event>, ExpansionError>) {
    DocReadsAs(doc, readings) &&
    (forall d {:trigger WeekNumber(d)} :: number(d) == WeekNumber(d)) &&
    (forall m, n {:trigger WeekEvents(readings, m, n)} :: expand(readings, m, n) == WeekEvents(readings, m, n))
  }

  /** A week that throws ends the loop with the loop's result. */
  lemma LoopThrows(doc: Readings, firstMonday: int, number: int -> nat,
                   expand: (Readings, int, nat) -> Result<seq<Event>, ExpansionError>, k: nat, count: int,
                   r: Result<seq<Event>, ExpansionError>)
    requires k < count && r.Failure?
    requires WeeksEvents(doc, firstMonday, k, number, expand).Success?
    requires WeekAt(doc, firstMonday, k, number, expand).Failure?
    ensures r == WeeksEvents(doc, firstMonday, count, number, expand)
  {
    WeeksEventsFailurePersists(doc, firstMonday, number, expand, k + 1, count);
    assert r.error == InvalidTimeValue;
  }

  /** A loop that runs no week has no events. */
  lemma NoWeeks(doc: Readings, firstMonday: int, count: int, number: int -> nat,
                expand: (Readings, int, nat) -> Result<seq<Event>, ExpansionError>)
    requires count <= 0
    ensures WeeksEvents(doc, firstMonday, count, number, expand) == Success([])
  {
  }

  /** The `weekOffset` loop of `convertAvailabilitiesToEvents`, week after week. */
  method GenerateWeeks(doc: Document, ghost readings: Readings, startOfFirstWeek: JsDate, weeksToGenerate: int,
                       ghost number: int -> nat, ghost expand: (Readings, int, nat) -> Result<seq<Event>, ExpansionError>)
    returns (r: Result<seq<Event>, ExpansionError>)
    requires LoopContext(doc, readings, number, expand)
    ensures r == WeeksEvents(readings, startOfFirstWeek.Day(), weeksToGenerate, number, expand)
  {
    ghost var firstMonday := startOfFirstWeek.Day();
    var events: seq<Event> := [];
    var weekOffset := 0;
    while weekOffset < weeksToGenerate
      invariant 0 <= weekOffset && (weekOffset <= weeksToGenerate || weekOffset == 0)
      invariant WeeksEvents(readings, firstMonday, weekOffset, number, expand) == Success(events)
    {
      var next := PushWeek(events, doc, readings, startOfFirstWeek, firstMonday, weekOffset, number, expand);
      if next.Failure? {
        LoopThrows(readings, firstMonday, number, expand, weekOffset, weeksToGenerate, next);
        return next;
      }
      events := next.value;
      weekOffset := weekOffset + 1;
    }
    if weekOffset != weeksToGenerate {
      NoWeeks(readings, firstMonday, weeksToGenerate, number, expand);
    }
    r := Success(events);
  }

  /** `convertAvailabilitiesToEvents(availabilities)`, with the current date
      `now` passed in; the sort is taken by its result. */
  method ConvertAvailabilitiesToEvents(availabilities: Option<Document>, now: JsDate) returns (r: Result<seq<Event>, ExpansionError>)
    ensures r == Expand(availabilities, now.Day())
  {
    if availabilities.None? {
      return Success([]);
    }
    var doc := availabilities.value;
    ReadDocumentReadsAs(doc);
    ghost var readings :| DocReadsAs(doc, readings);
    var academicYear := AcademicYearOf(now);
    var startOfFirstWeek := FirstWeekStart(academicYear);
    MidnightDay(FirstMonday(academicYear));
    var weeksToGenerate := WeeksToGenerate(academicYear, startOfFirstWeek);
    var events := GenerateWeeks(doc, readings, startOfFirstWeek, weeksToGenerate, WeekNumber, WeekEvents);
    ExpandFromReadings(doc, now.Day(), readings);
    if events.Failure? {
      return Failure(events.error);
    }
    r := Success(SortByStart(events.value));
  }
}
