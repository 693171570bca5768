/** The availability document shared by both revisions of `calendar-utils`: slots,
    period keys, the weekday table `DAYS_MAP`, and how slot fields are read as
    weekdays and clock times by `createEventForSlot`. */
module Availability {
  import opened Wrappers
  import Text
  import JsNumber

  /** One slot `{days, from, to}`: a comma-separated list of French weekday names
      and two wall-clock times written `HH:MM`. */
  datatype Slot = Slot(days: string, from: string, to: string)

  /** An availability document: period key (`default` or `S<n>`) to its slots. */
  type Document = map<string, seq<Slot>>

  const DefaultKey := "default"

  /** `S<n>`: the key of ISO week `n`. */
  function WeekKey(n: nat): string {
    "S" + Text.NatToString(n)
  }

  /** Distinct weeks have distinct keys, and no week key is `default`. */
  lemma WeekKeyInjective(m: nat, n: nat)
    ensures WeekKey(m) == WeekKey(n) <==> m == n
    ensures WeekKey(m) != DefaultKey
  {
    if WeekKey(m) == WeekKey(n) {
      assert WeekKey(m)[1..] == Text.NatToString(m);
      assert WeekKey(n)[1..] == Text.NatToString(n);
      Text.NatToStringInjective(m, n);
    }
    assert WeekKey(m)[0] == 'S';
  }

  const WeekdayNames: seq<string> := ["lundi", "mardi", "mercredi", "jeudi", "vendredi", "samedi", "dimanche"]

  /** What `DAYS_MAP[name]` yields: an own entry (the day's offset from Monday),
      a property every object inherits from `Object.prototype` (a function or an
      object, not a number), or `undefined`. */
  datatype DayEntry = Own(offset: nat) | Inherited | Missing

  /** The inherited properties of `Object.prototype` whose names are lower case,
      so that a lowercased token can name them. */
  const InheritedNames: seq<string> := ["constructor", "__proto__"]

  /** `DAYS_MAP[name]` for the literal object mapping the French weekday names to
      their offsets from Monday. */
  function DaysMap(name: string): (r: DayEntry)
    ensures r.Own? ==> r.offset < 7
  {
    if name == "lundi" then Own(0)
    else if name == "mardi" then Own(1)
    else if name == "mercredi" then Own(2)
    else if name == "jeudi" then Own(3)
    else if name == "vendredi" then Own(4)
    else if name == "samedi" then Own(5)
    else if name == "dimanche" then Own(6)
    else if name in InheritedNames then Inherited
    else Missing
  }

  /** The table holds the seven weekday names at their offsets, and only the two
      inherited names yield something else than `undefined`. */
  lemma DaysMapTable(name: string)
    ensures DaysMap(name).Own? <==> name in WeekdayNames
    ensures DaysMap(name).Own? ==> WeekdayNames[DaysMap(name).offset] == name
    ensures DaysMap(name).Inherited? <==> name in InheritedNames
  {
  }

  /** `parts.map(day => day.trim().toLowerCase())`. */
  function TrimLowerAll(parts: seq<string>): (r: seq<string>)
    ensures |r| == |parts|
    decreases |parts|
  {
    if parts == [] then [] else [Text.ToLower(Text.Trim(parts[0]))] + TrimLowerAll(parts[1..])
  }

  /** `days.split(',').map(day => day.trim().toLowerCase())`. */
  function DayTokens(days: string): (tokens: seq<string>)
    ensures |tokens| == |Text.Split(days, ',')|
  {
    TrimLowerAll(Text.Split(days, ','))
  }

  /** `const [h, m] = time.split(':').map(Number)` followed by `setHours(h, m, 0)`:
      the minutes `h * 60 + m` after midnight of the event's day, each number
      truncated toward zero, so that negative or large values move to another
      day; `None` when either is `NaN` or infinite, or the minutes are missing,
      which makes the date invalid. */
  function ClockOf(time: string): Option<int> {
    var parts := Text.Split(time, ':');
    if |parts| < 2 then None
    else
      var h, m := JsNumber.Truncate(JsNumber.StringToNumber(parts[0])), JsNumber.Truncate(JsNumber.StringToNumber(parts[1]));
      if h.Some? && m.Some? then Some(h.value * 60 + m.value) else None
  }

  function TwoDigits(n: nat): (s: string)
    requires n < 100
    ensures |s| == 2 && Text.AllDigits(s) && Text.DigitsValue(s) == n
  {
    var s := [Text.DigitChar(n / 10), Text.DigitChar(n % 10)];
    assert s[..1] == [s[0]] && s[..1][..0] == [];
    assert Text.DigitsValue(s[..1]) == n / 10;
    s
  }

  /** A time of day as two-digit hours and minutes, `HH:MM` (what
      `toLocaleTimeString('fr-FR', {hour: '2-digit', minute: '2-digit'})` shows). */
  function FormatTime(minutes: nat): (s: string)
    requires minutes < 1440
    ensures |s| == 5 && s[2] == ':'
  {
    TwoDigits(minutes / 60) + ":" + TwoDigits(minutes % 60)
  }

  lemma NumberOfDigits(s: string)
    requires |s| > 0 && Text.AllDigits(s)
    ensures JsNumber.Truncate(JsNumber.StringToNumber(s)) == Some(Text.DigitsValue(s))
  {
    JsNumber.NumberOfDigits(s);
    JsNumber.TruncateInteger(Text.DigitsValue(s));
  }

  lemma SplitClock(hh: string, mm: string)
    requires ':' !in hh && ':' !in mm
    ensures Text.Split(hh + [':'] + mm, ':') == [hh, mm]
  {
    Text.SplitAtSeparator(hh, mm, ':');
    Text.SplitNoSeparator(mm, ':');
  }

  lemma {:induction false} ClockOfParts(s: string, hh: string, mm: string, h: int, m: int)
    requires Text.Split(s, ':') == [hh, mm]
    requires JsNumber.Truncate(JsNumber.StringToNumber(hh)) == Some(h)
    requires JsNumber.Truncate(JsNumber.StringToNumber(mm)) == Some(m)
    ensures ClockOf(s) == Some(h * 60 + m)
  {
  }

  lemma {:induction false} ClockOfDigits(hh: string, mm: string)
    requires |hh| > 0 && Text.AllDigits(hh) && |mm| > 0 && Text.AllDigits(mm)
    ensures ClockOf(hh + [':'] + mm) == Some(Text.DigitsValue(hh) * 60 + Text.DigitsValue(mm))
  {
    NoColonInDigits(hh);
    NoColonInDigits(mm);
    SplitClock(hh, mm);
    NumberOfDigits(hh);
    NumberOfDigits(mm);
    ClockOfParts(hh + [':'] + mm, hh, mm, Text.DigitsValue(hh), Text.DigitsValue(mm));
  }

  lemma NoColonInDigits(s: string)
    requires Text.AllDigits(s)
    ensures ':' !in s
  {
    assert !Text.IsDigit(':');
  }

  /** Reading back a formatted time gives the same minutes. */
  lemma {:induction false} ClockOfFormatTime(minutes: nat)
    requires minutes < 1440
    ensures ClockOf(FormatTime(minutes)) == Some(minutes)
  {
    var hh, mm := TwoDigits(minutes / 60), TwoDigits(minutes % 60);
    assert FormatTime(minutes) == hh + [':'] + mm;
    ClockOfDigits(hh, mm);
  }

  /** A negative hour moves the time to the previous day. */
  lemma NegativeHour()
    ensures ClockOf("-1:00") == Some(-60)
  {
    SplitClock("-1", "00");
    assert "-1" + [':'] + "00" == "-1:00";
    MinusOneHour();
    ZeroMinutes();
    ClockOfParts("-1:00", "-1", "00", -1, 0);
  }

  lemma MinusOneHour()
    ensures JsNumber.Truncate(JsNumber.StringToNumber("-1")) == Some(-1)
  {
    JsNumber.SignedNumbers();
    JsNumber.TruncateInteger(-1);
  }

  lemma ZeroMinutes()
    ensures JsNumber.Truncate(JsNumber.StringToNumber("00")) == Some(0)
  {
    NumberOfDigits("00");
    assert Text.DigitsValue("00") == 0 by { assert "00"[..1] == "0"; }
  }

  /** A fractional hour is truncated. */
  lemma FractionalHour()
    ensures ClockOf("8.5:30") == Some(510)
  {
    SplitClock("8.5", "30");
    assert "8.5" + [':'] + "30" == "8.5:30";
    JsNumber.FractionNumber();
    assert JsNumber.Truncate(JsNumber.Finite(8.5)) == Some(8);
    NumberOfDigits("30");
    assert Text.DigitsValue("30") == 30 by { assert "30"[..1] == "3"; }
    ClockOfParts("8.5:30", "8.5", "30", 8, 30);
  }

  /** An hour without minutes is not a time. */
  lemma HourWithoutMinutes()
    ensures ClockOf("8") == None
  {
    Text.SplitNoSeparator("8", ':');
  }
}
