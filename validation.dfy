/** The strict validator of `calendar-utils.tsx`: `isValidTimeFormat`,
    `isValidDays`, `isValidAvailability`, `isValidAvailabilityPeriod` and the
    throwing `validateAndCleanAvailabilities`, on JSON values of unknown shape.
    The lemmas relate what it accepts to how the expansion reads a document:
    an accepted time reads back as a time of day, accepted day lists name only
    weekdays, and an accepted document never makes the expansion throw. */
module Validation {
  import opened Wrappers
  import Text
  import Json
  import opened Availability
  import opened Expansion
  import opened Gregorian

  // ---------------------------------------------------------------- times

  /** `isValidTimeFormat`: the whole string matches `([0-1][0-9]|2[0-3]):[0-5][0-9]`. */
  predicate IsValidTimeFormat(t: string) {
    |t| == 5 && t[2] == ':' &&
    (('0' <= t[0] <= '1' && Text.IsDigit(t[1])) || (t[0] == '2' && '0' <= t[1] <= '3')) &&
    '0' <= t[3] <= '5' && Text.IsDigit(t[4])
  }

  function DigitAt(t: string, i: nat): nat
    requires i < |t| && Text.IsDigit(t[i])
  {
    t[i] as int - '0' as int
  }

  /** The minutes after midnight an accepted time denotes. */
  function TimeMinutes(t: string): (m: nat)
    requires IsValidTimeFormat(t)
    ensures m < 1440
  {
    (DigitAt(t, 0) * 10 + DigitAt(t, 1)) * 60 + DigitAt(t, 3) * 10 + DigitAt(t, 4)
  }

  lemma DigitCharOf(c: char)
    requires Text.IsDigit(c)
    ensures Text.DigitChar(c as int - '0' as int) == c
  {
  }

  /** Two digits of an accepted time read back as their two-digit rendering. */
  lemma TwoDigitsAt(t: string, i: nat)
    requires i + 1 < |t| && Text.IsDigit(t[i]) && Text.IsDigit(t[i + 1])
    ensures DigitAt(t, i) * 10 + DigitAt(t, i + 1) < 100
    ensures TwoDigits(DigitAt(t, i) * 10 + DigitAt(t, i + 1)) == t[i..i + 2]
  {
    DigitCharOf(t[i]);
    DigitCharOf(t[i + 1]);
  }

  /** An accepted time is the two-digit rendering of its minutes, and the
      expansion reads it back as those minutes. */
  lemma AcceptedTime(t: string)
    requires IsValidTimeFormat(t)
    ensures FormatTime(TimeMinutes(t)) == t
    ensures ClockOf(t) == Some(TimeMinutes(t))
  {
    FormatTimeMinutes(t);
    ClockOfFormatTime(TimeMinutes(t));
  }

  lemma FormatTimeMinutes(t: string)
    requires IsValidTimeFormat(t)
    ensures FormatTime(TimeMinutes(t)) == t
  {
    var m := TimeMinutes(t);
    var h, mm := DigitAt(t, 0) * 10 + DigitAt(t, 1), DigitAt(t, 3) * 10 + DigitAt(t, 4);
    assert m / 60 == h && m % 60 == mm;
    TwoDigitsAt(t, 0);
    TwoDigitsAt(t, 3);
    assert t == t[0..2] + ":" + t[3..5];
  }

  /** Every time of day, written with two-digit hours and minutes, is accepted. */
  lemma FormattedTimeAccepted(m: nat)
    requires m < 1440
    ensures IsValidTimeFormat(FormatTime(m))
    ensures TimeMinutes(FormatTime(m)) == m
  {
    var t := FormatTime(m);
    assert t[0] == Text.DigitChar(m / 60 / 10) && t[1] == Text.DigitChar(m / 60 % 10);
    assert t[3] == Text.DigitChar(m % 60 / 10) && t[4] == Text.DigitChar(m % 60 % 10);
  }

  // ---------------------------------------------------------------- days

  /** `isValidDays`: every comma-separated token, trimmed and lower-cased, is a
      weekday name. */
  predicate IsValidDays(days: string) {
    forall t :: t in DayTokens(days) ==> t in WeekdayNames
  }

  /** Accepted day lists are exactly those whose every token the expansion turns
      into an event, and none of their tokens names an inherited property. */
  lemma AcceptedDays(days: string)
    ensures IsValidDays(days) <==> |Offsets(DayTokens(days))| == |DayTokens(days)|
    ensures IsValidDays(days) ==> !NamesInherited(DayTokens(days))
  {
    var tokens := DayTokens(days);
    OffsetsAllRecognised(tokens);
    if IsValidDays(days) {
      forall i | 0 <= i < |tokens|
        ensures !DaysMap(tokens[i]).Inherited?
      {
        DaysMapTable(tokens[i]);
      }
    }
  }

  /** An empty day list is rejected: splitting it leaves one empty token. */
  lemma EmptyDaysRejected()
    ensures !IsValidDays("")
  {
    assert Text.Split("", ',') == [""];
    assert Text.Trim("") == "" && Text.ToLower("") == "";
    assert DayTokens("") == [""];
    assert DayTokens("")[0] == "" && "" !in WeekdayNames;
  }

  // ---------------------------------------------------------------- slots

  /** `typeof v[key] === 'string'`, and that string. */
  function StringField(v: Json.Value, key: string): Option<string> {
    match Json.Get(v, key)
    case Some(Str(s)) => Some(s)
    case _ => None
  }

  /** `isValidAvailability`: a truthy object whose `days`, `from` and `to` are
      strings holding a valid day list and two valid times. Nothing relates
      `from` to `to`. */
  predicate IsValidAvailability(v: Json.Value) {
    Json.Truthy(v) && Json.IsObjectType(v) &&
    var days, from, to := StringField(v, "days"), StringField(v, "from"), StringField(v, "to");
    days.Some? && from.Some? && to.Some? &&
    IsValidDays(days.value) && IsValidTimeFormat(from.value) && IsValidTimeFormat(to.value)
  }

  /** The slot a JSON value stands for (empty fields where it has none). */
  function SlotOf(v: Json.Value): Slot {
    var days, from, to := StringField(v, "days"), StringField(v, "from"), StringField(v, "to");
    Slot(if days.Some? then days.value else "",
         if from.Some? then from.value else "",
         if to.Some? then to.value else "")
  }

  /** A slot the validator would accept. */
  predicate ValidSlot(s: Slot) {
    IsValidDays(s.days) && IsValidTimeFormat(s.from) && IsValidTimeFormat(s.to)
  }

  lemma AcceptedSlot(v: Json.Value)
    requires IsValidAvailability(v)
    ensures ValidSlot(SlotOf(v))
  {
  }

  // ---------------------------------------------------------------- periods

  /** A key `default`, or a key matching `^S\d+$`. */
  predicate IsPeriodKey(k: string) {
    k == DefaultKey || (|k| >= 2 && k[0] == 'S' && Text.AllDigits(k[1..]))
  }

  /** `Array.isArray(value) && value.every(isValidAvailability)`. */
  predicate IsValidSlotList(v: Json.Value) {
    v.Array? && forall j :: 0 <= j < |v.items| ==> IsValidAvailability(v.items[j])
  }

  /** `isValidAvailabilityPeriod`: a truthy object (arrays included) with no keys,
      or whose every key is a period key holding an array of valid slots. */
  predicate IsValidAvailabilityPeriod(p: Json.Value) {
    Json.Truthy(p) && Json.IsObjectType(p) &&
    (|Json.Keys(p)| == 0 ||
     forall i :: 0 <= i < |Json.Entries(p)| ==>
       IsPeriodKey(Json.Entries(p)[i].0) && IsValidSlotList(Json.Entries(p)[i].1))
  }

  datatype ValidationError = InvalidFormat

  /** `validateAndCleanAvailabilities(availabilities)`; `None` stands for
      `undefined`. */
  function ValidateAndCleanAvailabilities(availabilities: Option<Json.Value>): (r: Result<Json.Value, ValidationError>) {
    if availabilities.None? || availabilities.value.Null? then Success(Json.Object([]))
    else if !IsValidAvailabilityPeriod(availabilities.value) then Failure(InvalidFormat)
    else Success(availabilities.value)
  }

  /** `null` and `undefined` become `{}`; any other value is returned unchanged
      when it is a valid period and rejected otherwise; whatever is returned is a
      valid period, so that validating it again returns it unchanged. */
  lemma ValidateAndCleanOutcome(availabilities: Option<Json.Value>)
    ensures var r := ValidateAndCleanAvailabilities(availabilities);
      && (availabilities.None? || availabilities == Some(Json.Null) ==> r == Success(Json.Object([])))
      && (availabilities.Some? && !availabilities.value.Null? ==>
            (r.Success? <==> IsValidAvailabilityPeriod(availabilities.value)) &&
            (r.Success? ==> r.value == availabilities.value))
      && (r.Success? ==> IsValidAvailabilityPeriod(r.value) && ValidateAndCleanAvailabilities(Some(r.value)) == r)
  {
    assert Json.Keys(Json.Object([])) == [];
  }

  /** A top-level array is a valid period only when it is empty: its keys are
      indices, not period keys. */
  lemma ArrayPeriods(items: seq<Json.Value>)
    ensures IsValidAvailabilityPeriod(Json.Array(items)) <==> items == []
  {
    if items != [] {
      var e := Json.Entries(Json.Array(items));
      assert e[0].0 == Text.NatToString(0);
      assert !IsPeriodKey(e[0].0);
    }
  }

  // ---------------------------------------------------------------- period keys and weeks

  /** Every week key is a period key. */
  lemma WeekKeyAccepted(n: nat)
    ensures IsPeriodKey(WeekKey(n))
  {
    assert WeekKey(n)[1..] == Text.NatToString(n);
  }

  /** An accepted key `S<digits>` without a leading zero is the key of week
      `<digits>`, ... */
  lemma PeriodKeyOfWeek(k: string)
    requires IsPeriodKey(k) && k != DefaultKey
    requires k[1] != '0' || |k| == 2
    ensures WeekKey(Text.DigitsValue(k[1..])) == k
  {
    Text.NatToStringOfDigits(k[1..]);
    assert k == [k[0]] + k[1..];
  }

  /** ... and one with a leading zero, such as `S05`, is accepted but is the key
      of no week, so that its slots are never expanded. */
  lemma LeadingZeroKeyUnused(k: string, n: nat)
    requires IsPeriodKey(k) && k != DefaultKey
    requires k[1] == '0' && |k| > 2
    ensures WeekKey(n) != k
  {
    assert WeekKey(n)[1..] == Text.NatToString(n);
  }

  // ---------------------------------------------------------------- accepted documents expand

  /** The document a parsed object stands for: each key to the slots of its array
      (the last entry of a key wins, as in `JSON.parse`). */
  function SlotsOf(items: seq<Json.Value>): (r: seq<Slot>)
    ensures |r| == |items|
    ensures forall j :: 0 <= j < |items| ==> r[j] == SlotOf(items[j])
    decreases |items|
  {
    if items == [] then []
    else
      var front := SlotsOf(items[..|items| - 1]);
      var r := front + [SlotOf(items[|items| - 1])];
      assert forall j :: 0 <= j < |items| - 1 ==> items[..|items| - 1][j] == items[j];
      r
  }

  function DocumentOf(entries: seq<(string, Json.Value)>): (doc: Document)
    ensures doc.Keys == set i | 0 <= i < |entries| :: entries[i].0
    decreases |entries|
  {
    if entries == [] then map[]
    else
      var front := DocumentOf(entries[..|entries| - 1]);
      var last := entries[|entries| - 1];
      var doc := front[last.0 := if last.1.Array? then SlotsOf(last.1.items) else []];
      assert forall i :: 0 <= i < |entries| - 1 ==> entries[..|entries| - 1][i] == entries[i];
      doc
  }

  /** Every slot of every key is one the validator accepts. */
  predicate AllSlotsValid(doc: Document) {
    forall k :: k in doc ==> forall j :: 0 <= j < |doc[k]| ==> ValidSlot(doc[k][j])
  }

  lemma {:induction false} DocumentOfValid(entries: seq<(string, Json.Value)>)
    requires forall i :: 0 <= i < |entries| ==> IsValidSlotList(entries[i].1)
    ensures AllSlotsValid(DocumentOf(entries))
    decreases |entries|
  {
    if entries != [] {
      var front := entries[..|entries| - 1];
      assert forall i :: 0 <= i < |front| ==> front[i] == entries[i];
      DocumentOfValid(front);
      var last := entries[|entries| - 1];
      forall j | 0 <= j < |last.1.items|
        ensures ValidSlot(SlotsOf(last.1.items)[j])
      {
        AcceptedSlot(last.1.items[j]);
      }
    }
  }

  /** An accepted slot never throws in `createEventForSlot`. */
  lemma ValidSlotEvents(s: Slot, monday: int, title: string, color: string)
    requires ValidSlot(s)
    ensures SlotEvents(Read(s), monday, title, color).Success?
  {
    AcceptedDays(s.days);
    AcceptedTime(s.from);
    AcceptedTime(s.to);
  }

  lemma ValidSlotsEvents(slots: seq<Slot>, monday: int, title: string, color: string)
    requires forall j :: 0 <= j < |slots| ==> ValidSlot(slots[j])
    ensures SlotsEvents(ReadAll(slots), monday, title, color).Success?
  {
    SlotsEventsFailure(ReadAll(slots), monday, title, color);
    forall j | 0 <= j < |slots|
      ensures SlotEvents(ReadAll(slots)[j], monday, title, color).Success?
    {
      ReadAllAt(slots, j);
      ValidSlotEvents(slots[j], monday, title, color);
    }
  }

  lemma ValidWeekEvents(doc: Document, monday: int, n: nat)
    requires AllSlotsValid(doc)
    ensures WeekEvents(ReadDocument(doc), monday, n).Success?
  {
    if DefaultKey in doc {
      ValidSlotsEvents(doc[DefaultKey], monday, DefaultTitle, DefaultColor);
    }
    if WeekKey(n) in doc {
      ValidSlotsEvents(doc[WeekKey(n)], monday, WeekTitle(n), WeekColor);
    }
  }

  /** A document whose every slot is accepted expands without throwing. */
  lemma ValidDocumentExpands(doc: Document, today: int)
    requires AllSlotsValid(doc)
    ensures Expand(Some(doc), today).Success?
  {
    ExpandFailure(doc, today);
    ValidWeeks(doc, AcademicYear(today));
  }

  lemma ValidWeeks(doc: Document, y: int)
    requires AllSlotsValid(doc)
    ensures forall k :: 0 <= k < WeekCount(y) ==> WeekAt(ReadDocument(doc), FirstMonday(y), k, WeekNumber, WeekEvents).Success?
  {
    forall k | 0 <= k < WeekCount(y)
      ensures WeekAt(ReadDocument(doc), FirstMonday(y), k, WeekNumber, WeekEvents).Success?
    {
      ValidWeekAt(doc, FirstMonday(y), k);
    }
  }

  lemma ValidWeekAt(doc: Document, firstMonday: int, k: int)
    requires AllSlotsValid(doc)
    ensures WeekAt(ReadDocument(doc), firstMonday, k, WeekNumber, WeekEvents).Success?
  {
    var readings, monday := ReadDocument(doc), firstMonday + 7 * k;
    ValidWeekEvents(doc, monday, WeekNumber(monday));
    WeekAtMonday(readings, firstMonday, k, monday);
  }

  /** Whatever `validateAndCleanAvailabilities` returns expands without throwing:
      a valid object, the empty array, or the `{}` that `null` and `undefined`
      become. */
  lemma ValidatedExpands(availabilities: Option<Json.Value>, r: Json.Value, today: int)
    requires ValidateAndCleanAvailabilities(availabilities) == Success(r)
    ensures Expand(Some(DocumentOf(Json.Entries(r))), today).Success?
  {
    ValidateAndCleanOutcome(availabilities);
    var entries := Json.Entries(r);
    assert |Json.Keys(r)| == |entries|;
    DocumentOfValid(entries);
    ValidDocumentExpands(DocumentOf(entries), today);
  }
}
