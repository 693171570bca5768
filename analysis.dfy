/** `analyzeAvailabilities`: checks a workweek (a list of `{week, hours}`
    targets) against an availability document. For each target it takes the
    week's own slots when that list is non-empty and the `default` slots
    otherwise. A target with no slots at all is a missing week. Otherwise the
    target is short of hours when the slots' total is strictly less than the
    hours required. Unlike the expansion, the week's list here replaces the
    default one instead of adding to it. */
module Analysis {
  import opened Wrappers
  import Text
  import opened JsNumber
  import opened Availability
  import opened Seqs

  /** A target: the hours required in ISO week `week`. */
  datatype WorkWeek = WorkWeek(week: int, hours: real)

  /** A target short of hours, with the hours the slots give (a JavaScript number,
      which may be `NaN` or infinite). */
  datatype Shortfall = Shortfall(week: int, required: real, available: Num)

  datatype AvailabilityAnalysis = AvailabilityAnalysis(missingWeeks: seq<WorkWeek>, insufficientHours: seq<Shortfall>)

  /** `` `S${week}` ``. */
  function WeekKeyOf(week: int): string {
    "S" + Text.IntToString(week)
  }

  /** `availabilities[key] || []`. */
  function Listed(doc: Document, key: string): seq<Slot> {
    if key in doc then doc[key] else []
  }

  /** The slots counted for `week`: its own if there are any, else the default ones. */
  function EffectiveSlots(doc: Document, week: int): seq<Slot> {
    var own := Listed(doc, WeekKeyOf(week));
    if |own| > 0 then own else Listed(doc, DefaultKey)
  }

  /** `Number` of part `i` of a `split(':')`; a missing part is `undefined`, whose
      arithmetic gives `NaN`. */
  function PartNumber(parts: seq<string>, i: nat): Num {
    if i < |parts| then StringToNumber(parts[i]) else NaN
  }

  /** `(toHours - fromHours + (toMinutes - fromMinutes) / 60) * daysCount`, where
      `daysCount` counts the comma-separated pieces of `days`, recognised or not. */
  function SlotHours(slot: Slot): Num {
    var from, to := Text.Split(slot.from, ':'), Text.Split(slot.to, ':');
    var hours := Add(Sub(PartNumber(to, 0), PartNumber(from, 0)),
                     MulBy(Sub(PartNumber(to, 1), PartNumber(from, 1)), 1.0 / 60.0));
    MulBy(hours, |Text.Split(slot.days, ',')| as real)
  }

  /** `totalHours` after adding the slots in order, starting from 0. */
  function TotalHours(slots: seq<Slot>): Num
    decreases |slots|
  {
    if slots == [] then Finite(0.0) else Add(TotalHours(slots[..|slots| - 1]), SlotHours(slots[|slots| - 1]))
  }

  /** What becomes of one target. */
  datatype Outcome = Unavailable | Insufficient(shortfall: Shortfall) | Covered

  function Classify(doc: Document, target: WorkWeek): Outcome {
    var slots := EffectiveSlots(doc, target.week);
    if |slots| == 0 then Unavailable
    else
      var total := TotalHours(slots);
      if LessThan(total, target.hours) then Insufficient(Shortfall(target.week, target.hours, total)) else Covered
  }

  /** The two lists after visiting `workweek` in order, each target going where
      `classify` sends it. */
  function Gather(classify: WorkWeek -> Outcome, workweek: seq<WorkWeek>): AvailabilityAnalysis
    decreases |workweek|
  {
    if workweek == [] then AvailabilityAnalysis([], [])
    else
      var last := workweek[|workweek| - 1];
      Record(Gather(classify, workweek[..|workweek| - 1]), last, classify(last))
  }

  /** Pushing `target` into the list its outcome names, if any. */
  function Record(a: AvailabilityAnalysis, target: WorkWeek, outcome: Outcome): AvailabilityAnalysis {
    match outcome
    case Unavailable => a.(missingWeeks := a.missingWeeks + [target])
    case Insufficient(s) => a.(insufficientHours := a.insufficientHours + [s])
    case Covered => a
  }

  /** `Classify` against one document, as the `forEach` callback applies it. */
  function Classifier(doc: Document): (classify: WorkWeek -> Outcome)
    ensures forall target :: classify(target) == Classify(doc, target)
  {
    target => Classify(doc, target)
  }

  /** `analyzeAvailabilities(availabilities, workweek)`. */
  function Analyze(doc: Document, workweek: seq<WorkWeek>): AvailabilityAnalysis {
    Gather(Classifier(doc), workweek)
  }

  // ---------------------------------------------------------------- properties

  /** For a week number that is not negative, the key looked up is the week key. */
  lemma WeekKeyOfWeek(n: nat)
    ensures WeekKeyOf(n) == WeekKey(n)
  {
  }

  /** A target is missing exactly when neither its own list nor the default list
      has a slot; a non-empty own list hides the default one. */
  lemma EffectiveSlotsChoice(doc: Document, week: int)
    ensures |Listed(doc, WeekKeyOf(week))| > 0 ==> EffectiveSlots(doc, week) == doc[WeekKeyOf(week)]
    ensures |Listed(doc, WeekKeyOf(week))| == 0 ==> EffectiveSlots(doc, week) == Listed(doc, DefaultKey)
    ensures EffectiveSlots(doc, week) == [] <==> Listed(doc, WeekKeyOf(week)) == [] && Listed(doc, DefaultKey) == []
  {
  }

  /** A target is short exactly when its slots' total is a number below the
      required hours; a `NaN` total is never short. */
  lemma ClassifyShort(doc: Document, target: WorkWeek)
    ensures Classify(doc, target).Insufficient? <==>
      EffectiveSlots(doc, target.week) != [] && LessThan(TotalHours(EffectiveSlots(doc, target.week)), target.hours)
    ensures Classify(doc, target).Insufficient? ==>
      Classify(doc, target).shortfall == Shortfall(target.week, target.hours, TotalHours(EffectiveSlots(doc, target.week)))
  {
  }

  /** Each target lands in at most one list. */
  lemma {:induction false} GatherCount(classify: WorkWeek -> Outcome, workweek: seq<WorkWeek>)
    ensures |Gather(classify, workweek).missingWeeks| + |Gather(classify, workweek).insufficientHours| <= |workweek|
    decreases |workweek|
  {
    if workweek != [] {
      GatherCount(classify, workweek[..|workweek| - 1]);
    }
  }

  /** The missing weeks are the targets without slots, in their order. */
  lemma {:induction false} GatherMissing(classify: WorkWeek -> Outcome, workweek: seq<WorkWeek>)
    ensures forall w :: w in Gather(classify, workweek).missingWeeks <==> w in workweek && classify(w).Unavailable?
    ensures IsSubsequence(Gather(classify, workweek).missingWeeks, workweek)
    decreases |workweek|
  {
    if workweek != [] {
      var front, last := workweek[..|workweek| - 1], workweek[|workweek| - 1];
      GatherMissing(classify, front);
      var missing := Gather(classify, front).missingWeeks;
      assert workweek == front + [last];
      if classify(last).Unavailable? {
        assert (missing + [last])[..|missing|] == missing;
      } else if missing != [] {
        assert IsSubsequence(missing, workweek);
      }
    }
  }

  /** The shortfalls are those of the targets short of hours. */
  lemma {:induction false} GatherShortfalls(classify: WorkWeek -> Outcome, workweek: seq<WorkWeek>)
    ensures forall s :: s in Gather(classify, workweek).insufficientHours <==>
      exists i :: 0 <= i < |workweek| && classify(workweek[i]) == Insufficient(s)
    decreases |workweek|
  {
    if workweek != [] {
      var front := workweek[..|workweek| - 1];
      GatherShortfalls(classify, front);
      assert forall i :: 0 <= i < |front| ==> front[i] == workweek[i];
    }
  }

  /** A single target is listed once, in the list its outcome names, or nowhere. */
  lemma GatherOne(classify: WorkWeek -> Outcome, target: WorkWeek)
    ensures Gather(classify, [target]).missingWeeks == if classify(target).Unavailable? then [target] else []
    ensures Gather(classify, [target]).insufficientHours ==
      match classify(target) case Insufficient(s) => [s] case _ => []
  {
    assert [target][..0] == [];
  }

  /** Visiting `a` then `b` lists `a`'s entries and then `b`'s: the lists keep the
      workweek's order, and each target contributes its own entries. */
  lemma {:induction false} GatherAppend(classify: WorkWeek -> Outcome, a: seq<WorkWeek>, b: seq<WorkWeek>)
    ensures Gather(classify, a + b).missingWeeks == Gather(classify, a).missingWeeks + Gather(classify, b).missingWeeks
    ensures Gather(classify, a + b).insufficientHours ==
      Gather(classify, a).insufficientHours + Gather(classify, b).insufficientHours
    decreases |b|
  {
    if b == [] {
      assert a + b == a;
    } else {
      var front, last := b[..|b| - 1], b[|b| - 1];
      GatherAppend(classify, a, front);
      assert (a + b)[..|a + b| - 1] == a + front;
      assert (a + b)[|a + b| - 1] == last;
      var ga, gf := Gather(classify, a), Gather(classify, front);
      match classify(last)
      case Unavailable =>
        assert ga.missingWeeks + gf.missingWeeks + [last] == ga.missingWeeks + (gf.missingWeeks + [last]);
      case Insufficient(s) =>
        assert ga.insufficientHours + gf.insufficientHours + [s] == ga.insufficientHours + (gf.insufficientHours + [s]);
      case Covered =>
    }
  }

  /** Target `j`, when it has no slot, is listed missing right after the missing
      targets before it. */
  lemma MissingAt(classify: WorkWeek -> Outcome, workweek: seq<WorkWeek>, j: nat)
    requires j < |workweek| && classify(workweek[j]).Unavailable?
    ensures |Gather(classify, workweek[..j]).missingWeeks| < |Gather(classify, workweek).missingWeeks|
    ensures Gather(classify, workweek).missingWeeks[|Gather(classify, workweek[..j]).missingWeeks|] == workweek[j]
  {
    var before, rest := workweek[..j], workweek[j + 1..];
    assert workweek == before + ([workweek[j]] + rest);
    GatherAppend(classify, before, [workweek[j]] + rest);
    GatherAppend(classify, [workweek[j]], rest);
    GatherOne(classify, workweek[j]);
  }

  /** Target `j`, when it is short, has its shortfall listed right after those of
      the short targets before it. */
  lemma ShortfallAt(classify: WorkWeek -> Outcome, workweek: seq<WorkWeek>, j: nat, s: Shortfall)
    requires j < |workweek| && classify(workweek[j]) == Insufficient(s)
    ensures |Gather(classify, workweek[..j]).insufficientHours| < |Gather(classify, workweek).insufficientHours|
    ensures Gather(classify, workweek).insufficientHours[|Gather(classify, workweek[..j]).insufficientHours|] == s
  {
    var before, rest := workweek[..j], workweek[j + 1..];
    assert workweek == before + ([workweek[j]] + rest);
    GatherAppend(classify, before, [workweek[j]] + rest);
    GatherAppend(classify, [workweek[j]], rest);
    GatherOne(classify, workweek[j]);
  }

  /** Conversely, missing entry `i` is the target without slots that has `i`
      missing targets before it. */
  lemma {:induction false} MissingFrom(classify: WorkWeek -> Outcome, workweek: seq<WorkWeek>, i: nat)
    requires i < |Gather(classify, workweek).missingWeeks|
    ensures exists j :: (0 <= j < |workweek| && classify(workweek[j]).Unavailable? &&
      |Gather(classify, workweek[..j]).missingWeeks| == i && Gather(classify, workweek).missingWeeks[i] == workweek[j])
    decreases |workweek|
  {
    var n := |workweek| - 1;
    var front := workweek[..n];
    var missing := Gather(classify, front).missingWeeks;
    if i < |missing| {
      MissingFrom(classify, front, i);
      var j :| 0 <= j < |front| && classify(front[j]).Unavailable? &&
        |Gather(classify, front[..j]).missingWeeks| == i && missing[i] == front[j];
      assert front[..j] == workweek[..j] && front[j] == workweek[j];
    } else {
      assert workweek[..n] == front;
    }
  }

  /** Conversely, shortfall `i` is that of the short target with `i` short targets
      before it. */
  lemma {:induction false} ShortfallFrom(classify: WorkWeek -> Outcome, workweek: seq<WorkWeek>, i: nat)
    requires i < |Gather(classify, workweek).insufficientHours|
    ensures exists j :: (0 <= j < |workweek| &&
      classify(workweek[j]) == Insufficient(Gather(classify, workweek).insufficientHours[i]) &&
      |Gather(classify, workweek[..j]).insufficientHours| == i)
    decreases |workweek|
  {
    var n := |workweek| - 1;
    var front := workweek[..n];
    var short := Gather(classify, front).insufficientHours;
    if i < |short| {
      ShortfallFrom(classify, front, i);
      var j :| 0 <= j < |front| && classify(front[j]) == Insufficient(short[i]) &&
        |Gather(classify, front[..j]).insufficientHours| == i;
      assert front[..j] == workweek[..j] && front[j] == workweek[j];
    } else {
      assert workweek[..n] == front;
    }
  }

  /** The missing weeks of a document's analysis follow the workweek: target `j`
      without slots is missing entry number `|missing before j|` (so every such
      target is listed, once per occurrence, in workweek order); with
      `AnalyzeMissingFrom`, nothing else is listed. Each target is listed at most
      once over both lists. */
  lemma AnalyzeSpec(doc: Document, workweek: seq<WorkWeek>)
    ensures |Analyze(doc, workweek).missingWeeks| + |Analyze(doc, workweek).insufficientHours| <= |workweek|
    ensures forall j :: 0 <= j < |workweek| && EffectiveSlots(doc, workweek[j].week) == [] ==>
      |Analyze(doc, workweek[..j]).missingWeeks| < |Analyze(doc, workweek).missingWeeks| &&
      Analyze(doc, workweek).missingWeeks[|Analyze(doc, workweek[..j]).missingWeeks|] == workweek[j]
  {
    var classify := Classifier(doc);
    GatherCount(classify, workweek);
    forall j | 0 <= j < |workweek| && EffectiveSlots(doc, workweek[j].week) == []
      ensures |Analyze(doc, workweek[..j]).missingWeeks| < |Analyze(doc, workweek).missingWeeks|
      ensures Analyze(doc, workweek).missingWeeks[|Analyze(doc, workweek[..j]).missingWeeks|] == workweek[j]
    {
      MissingAt(classify, workweek, j);
      assert Analyze(doc, workweek[..j]) == Gather(classify, workweek[..j]);
    }
  }

  /** Missing entry `i` is the target without slots that has `i` missing targets
      before it. */
  lemma AnalyzeMissingFrom(doc: Document, workweek: seq<WorkWeek>, i: nat)
    requires i < |Analyze(doc, workweek).missingWeeks|
    ensures exists j :: (0 <= j < |workweek| && EffectiveSlots(doc, workweek[j].week) == [] &&
      |Analyze(doc, workweek[..j]).missingWeeks| == i && Analyze(doc, workweek).missingWeeks[i] == workweek[j])
  {
    var classify := Classifier(doc);
    MissingFrom(classify, workweek, i);
    var j :| 0 <= j < |workweek| && classify(workweek[j]).Unavailable? &&
      |Gather(classify, workweek[..j]).missingWeeks| == i && Gather(classify, workweek).missingWeeks[i] == workweek[j];
    assert Analyze(doc, workweek[..j]) == Gather(classify, workweek[..j]);
  }

  /** The shortfalls of a document's analysis follow the workweek: target `j` whose
      slots add up to less than its hours gives shortfall number `|shortfalls
      before j|`, recording its week, its hours and its total; with
      `AnalyzeShortfallFrom`, no other shortfall is listed. */
  lemma AnalyzeShortfalls(doc: Document, workweek: seq<WorkWeek>)
    ensures forall j :: (0 <= j < |workweek| && EffectiveSlots(doc, workweek[j].week) != [] &&
      LessThan(TotalHours(EffectiveSlots(doc, workweek[j].week)), workweek[j].hours)) ==>
      |Analyze(doc, workweek[..j]).insufficientHours| < |Analyze(doc, workweek).insufficientHours| &&
      Analyze(doc, workweek).insufficientHours[|Analyze(doc, workweek[..j]).insufficientHours|] ==
        Shortfall(workweek[j].week, workweek[j].hours, TotalHours(EffectiveSlots(doc, workweek[j].week)))
  {
    var classify := Classifier(doc);
    forall j | (0 <= j < |workweek| && EffectiveSlots(doc, workweek[j].week) != [] &&
      LessThan(TotalHours(EffectiveSlots(doc, workweek[j].week)), workweek[j].hours))
      ensures |Analyze(doc, workweek[..j]).insufficientHours| < |Analyze(doc, workweek).insufficientHours|
      ensures Analyze(doc, workweek).insufficientHours[|Analyze(doc, workweek[..j]).insufficientHours|] ==
        Shortfall(workweek[j].week, workweek[j].hours, TotalHours(EffectiveSlots(doc, workweek[j].week)))
    {
      ShortfallAt(classify, workweek, j, Shortfall(workweek[j].week, workweek[j].hours, TotalHours(EffectiveSlots(doc, workweek[j].week))));
      assert Analyze(doc, workweek[..j]) == Gather(classify, workweek[..j]);
    }
  }

  /** Shortfall `i` is that of the short target with `i` short targets before it:
      its week, its hours and the total of its slots, which is below its hours. */
  lemma AnalyzeShortfallFrom(doc: Document, workweek: seq<WorkWeek>, i: nat)
    requires i < |Analyze(doc, workweek).insufficientHours|
    ensures exists j :: (0 <= j < |workweek| && EffectiveSlots(doc, workweek[j].week) != [] &&
      LessThan(TotalHours(EffectiveSlots(doc, workweek[j].week)), workweek[j].hours) &&
      Analyze(doc, workweek).insufficientHours[i] ==
        Shortfall(workweek[j].week, workweek[j].hours, TotalHours(EffectiveSlots(doc, workweek[j].week))) &&
      |Analyze(doc, workweek[..j]).insufficientHours| == i)
  {
    var classify := Classifier(doc);
    ShortfallFrom(classify, workweek, i);
    var j :| 0 <= j < |workweek| &&
      classify(workweek[j]) == Insufficient(Gather(classify, workweek).insufficientHours[i]) &&
      |Gather(classify, workweek[..j]).insufficientHours| == i;
    assert Analyze(doc, workweek[..j]) == Gather(classify, workweek[..j]);
    ClassifyShort(doc, workweek[j]);
  }

  /** A slot between two times written `HH:MM` gives the minutes between them, in
      hours, multiplied by the number of day tokens. */
  lemma SlotHoursOfTimes(days: string, from: nat, to: nat)
    requires from < 1440 && to < 1440
    ensures SlotHours(Slot(days, FormatTime(from), FormatTime(to))) ==
      MulBy(Finite((to - from) as real / 60.0), |Text.Split(days, ',')| as real)
  {
    HoursOfTimes(from, to);
  }

  /** The hours between two times written `HH:MM`. */
  lemma HoursOfTimes(from: nat, to: nat)
    requires from < 1440 && to < 1440
    ensures var f, t := Text.Split(FormatTime(from), ':'), Text.Split(FormatTime(to), ':');
      Add(Sub(PartNumber(t, 0), PartNumber(f, 0)), MulBy(Sub(PartNumber(t, 1), PartNumber(f, 1)), 1.0 / 60.0)) ==
      Finite((to - from) as real / 60.0)
  {
    var fh, fm, th, tm := TwoDigits(from / 60), TwoDigits(from % 60), TwoDigits(to / 60), TwoDigits(to % 60);
    assert Text.Split(FormatTime(from), ':') == [fh, fm] by {
      assert FormatTime(from) == fh + [':'] + fm;
      SplitDigits(fh, fm);
    }
    assert Text.Split(FormatTime(to), ':') == [th, tm] by {
      assert FormatTime(to) == th + [':'] + tm;
      SplitDigits(th, tm);
    }
    JsNumber.NumberOfDigits(fh);
    JsNumber.NumberOfDigits(fm);
    JsNumber.NumberOfDigits(th);
    JsNumber.NumberOfDigits(tm);
    HoursBetween(from, to);
  }

  lemma HoursBetween(from: nat, to: nat)
    ensures var h := Add(Sub(Finite((to / 60) as real), Finite((from / 60) as real)),
                         MulBy(Sub(Finite((to % 60) as real), Finite((from % 60) as real)), 1.0 / 60.0));
      h == Finite((to - from) as real / 60.0)
  {
    var a, b, c, d := (to / 60) as real, (from / 60) as real, (to % 60) as real, (from % 60) as real;
    assert to as real == a * 60.0 + c && from as real == b * 60.0 + d;
    assert (a - b) + (c - d) * (1.0 / 60.0) == (to - from) as real / 60.0;
  }

  lemma SplitDigits(hh: string, mm: string)
    requires |hh| == 2 && Text.AllDigits(hh) && |mm| == 2 && Text.AllDigits(mm)
    ensures Text.Split(hh + [':'] + mm, ':') == [hh, mm]
  {
    assert !Text.IsDigit(':');
    SplitClock(hh, mm);
  }

  const NoMinutesSlot := Slot("lundi", "8", "10")

  /** A time without minutes makes the total `NaN`, and a `NaN` total is never
      below the required hours: the target is reported neither missing nor short,
      however many hours it needs. */
  lemma NaNHidesShortfall(hours: real)
    ensures Classify(map[DefaultKey := [NoMinutesSlot]], WorkWeek(1, hours)) == Covered
  {
    var doc := map[DefaultKey := [NoMinutesSlot]];
    Text.SplitNoSeparator("8", ':');
    Text.SplitNoSeparator("10", ':');
    assert SlotHours(NoMinutesSlot).NaN?;
    assert WeekKeyOf(1) != DefaultKey by {
      assert WeekKeyOf(1)[0] == 'S';
    }
    assert EffectiveSlots(doc, 1) == [NoMinutesSlot];
    assert [NoMinutesSlot][..0] == [];
  }

  // ---------------------------------------------------------------- the loops

  /** The inner `forEach`, adding each slot's hours to `totalHours`. */
  method SumHours(slots: seq<Slot>) returns (totalHours: Num)
    ensures totalHours == TotalHours(slots)
  {
    totalHours := Finite(0.0);
    var j := 0;
    while j < |slots|
      invariant 0 <= j <= |slots|
      invariant totalHours == TotalHours(slots[..j])
    {
      assert slots[..j + 1][..j] == slots[..j];
      totalHours := Add(totalHours, SlotHours(slots[j]));
      j := j + 1;
    }
    assert slots[..j] == slots;
  }

  /** One more target goes where `Classify` sends it. */
  lemma AnalyzeNext(doc: Document, workweek: seq<WorkWeek>, i: nat, next: AvailabilityAnalysis)
    requires i < |workweek|
    requires next == Record(Analyze(doc, workweek[..i]), workweek[i], Classify(doc, workweek[i]))
    ensures next == Analyze(doc, workweek[..i + 1])
  {
    assert workweek[..i + 1][..i] == workweek[..i];
  }

  /** The body of the outer `forEach` for one target. */
  method VisitTarget(doc: Document, analysis: AvailabilityAnalysis, weekData: WorkWeek) returns (next: AvailabilityAnalysis)
    ensures next == Record(analysis, weekData, Classify(doc, weekData))
  {
    next := analysis;
    var effectiveAvailabilities := EffectiveSlots(doc, weekData.week);
    if |effectiveAvailabilities| == 0 {
      next := next.(missingWeeks := next.missingWeeks + [weekData]);
    } else {
      var totalHours := SumHours(effectiveAvailabilities);
      ClassifyCounted(doc, weekData, totalHours);
      if LessThan(totalHours, weekData.hours) {
        next := next.(insufficientHours := next.insufficientHours +
          [Shortfall(weekData.week, weekData.hours, totalHours)]);
      }
    }
  }

  /** A target with slots is short or covered according to their total. */
  lemma ClassifyCounted(doc: Document, target: WorkWeek, total: Num)
    requires EffectiveSlots(doc, target.week) != [] && total == TotalHours(EffectiveSlots(doc, target.week))
    ensures LessThan(total, target.hours) ==> Classify(doc, target) == Insufficient(Shortfall(target.week, target.hours, total))
    ensures !LessThan(total, target.hours) ==> Classify(doc, target) == Covered
  {
  }

  /** The outer `forEach`, pushing each target into at most one list. */
  method AnalyzeAvailabilities(doc: Document, workweek: seq<WorkWeek>) returns (analysis: AvailabilityAnalysis)
    ensures analysis == Analyze(doc, workweek)
  {
    analysis := AvailabilityAnalysis([], []);
    var i := 0;
    while i < |workweek|
      invariant 0 <= i <= |workweek|
      invariant analysis == Analyze(doc, workweek[..i])
    {
      analysis := VisitTarget(doc, analysis, workweek[i]);
      AnalyzeNext(doc, workweek, i, analysis);
      i := i + 1;
    }
    assert workweek[..i] == workweek;
  }
}
