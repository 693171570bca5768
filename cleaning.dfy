/** The second revision of `validateAndCleanAvailabilities`, in `calendar-utils.ts`:
    it does not reject anything, it filters. Each key whose value is a non-empty
    array is kept with the slots whose `days`, `from` and `to` are non-empty
    strings; every other key is dropped. Key names and time formats are not
    checked. It still throws a `TypeError` on `null`, where `Object.entries` and
    `slot.days` need an object. */
module Cleaning {
  import opened Wrappers
  import Json
  import Validation
  import opened Seqs

  datatype CleanError = TypeError

  /** `v.key && typeof v.key === 'string'`: a non-empty string. */
  predicate NonEmptyString(v: Json.Value, key: string) {
    match Json.Get(v, key)
    case Some(Str(s)) => s != ""
    case _ => false
  }

  /** The filter callback, on a slot that is not `null`. */
  predicate KeepSlot(v: Json.Value) {
    NonEmptyString(v, "days") && NonEmptyString(v, "from") && NonEmptyString(v, "to")
  }

  /** `slots.filter(...)`; reading `days` of a `null` slot throws. */
  function FilterSlots(slots: seq<Json.Value>): (r: Result<seq<Json.Value>, CleanError>)
    decreases |slots|
  {
    if slots == [] then Success([])
    else
      match FilterSlots(slots[..|slots| - 1])
      case Failure(e) => Failure(e)
      case Success(kept) =>
        var last := slots[|slots| - 1];
        if last.Null? then Failure(TypeError)
        else if KeepSlot(last) then Success(kept + [last])
        else Success(kept)
  }

  /** The filter throws exactly on a `null` slot; otherwise it keeps, in order,
      exactly the slots the callback accepts. */
  lemma {:induction false} FilterSlotsSpec(slots: seq<Json.Value>)
    ensures FilterSlots(slots).Failure? <==> exists j :: 0 <= j < |slots| && slots[j].Null?
    ensures FilterSlots(slots).Success? ==>
      var kept := FilterSlots(slots).value;
      && (forall x :: x in kept ==> KeepSlot(x))
      && (forall j :: 0 <= j < |slots| && KeepSlot(slots[j]) ==> slots[j] in kept)
      && IsSubsequence(kept, slots)
    decreases |slots|
  {
    if slots != [] {
      var front, last := slots[..|slots| - 1], slots[|slots| - 1];
      FilterSlotsSpec(front);
      assert forall j :: 0 <= j < |front| ==> front[j] == slots[j];
      if FilterSlots(front).Success? && !last.Null? {
        var kept := FilterSlots(front).value;
        var r := if KeepSlot(last) then kept + [last] else kept;
        assert FilterSlots(slots) == Success(r);
        if KeepSlot(last) {
          assert r[..|kept|] == kept;
          assert r[|kept|] == last;
        }
        KeptStep(slots, front, kept, r);
      }
    }
  }

  /** The accepted slots before the last one are kept, and so is the last one if
      it is accepted. */
  lemma KeptStep(slots: seq<Json.Value>, front: seq<Json.Value>, kept: seq<Json.Value>, r: seq<Json.Value>)
    requires slots != [] && front == slots[..|slots| - 1]
    requires forall j :: 0 <= j < |front| && KeepSlot(front[j]) ==> front[j] in kept
    requires r == if KeepSlot(slots[|slots| - 1]) then kept + [slots[|slots| - 1]] else kept
    ensures forall j :: 0 <= j < |slots| && KeepSlot(slots[j]) ==> slots[j] in r
  {
    forall j | 0 <= j < |slots| && KeepSlot(slots[j])
      ensures slots[j] in r
    {
      if j < |slots| - 1 {
        assert front[j] == slots[j];
        assert slots[j] in kept;
      }
    }
  }

  /** The name of the prototype slot: `cleaned['__proto__'] = value` replaces the
      object's prototype instead of adding an entry. */
  const ProtoKey := "__proto__"

  /** `cleaned[week] = value` on the entries of a plain object. */
  function Put(entries: seq<(string, Json.Value)>, key: string, value: Json.Value): seq<(string, Json.Value)> {
    if key == ProtoKey then entries else Json.Assign(entries, key, value)
  }

  predicate NonEmptyArray(v: Json.Value) {
    v.Array? && |v.items| > 0
  }

  /** The `for (const [week, slots] of Object.entries(...))` loop over `entries`. */
  function CleanEntries(entries: seq<(string, Json.Value)>): (r: Result<seq<(string, Json.Value)>, CleanError>)
    decreases |entries|
  {
    if entries == [] then Success([])
    else
      match CleanEntries(entries[..|entries| - 1])
      case Failure(e) => Failure(e)
      case Success(cleaned) =>
        var (week, slots) := entries[|entries| - 1];
        if NonEmptyArray(slots) then
          match FilterSlots(slots.items)
          case Failure(e) => Failure(e)
          case Success(kept) => Success(Put(cleaned, week, Json.Array(kept)))
        else Success(cleaned)
  }

  /** `validateAndCleanAvailabilities(availabilities)` of `calendar-utils.ts`. */
  function Clean(availabilities: Json.Value): Result<Json.Value, CleanError> {
    if availabilities.Null? then Failure(TypeError)
    else
      match CleanEntries(Json.Entries(availabilities))
      case Failure(e) => Failure(e)
      case Success(cleaned) => Success(Json.Object(cleaned))
  }

  /** A key holding a `null` slot inside a non-empty array. */
  predicate HoldsNullSlot(entry: (string, Json.Value)) {
    NonEmptyArray(entry.1) && exists j :: 0 <= j < |entry.1.items| && entry.1.items[j].Null?
  }

  /** Cleaning throws exactly when a non-empty array holds a `null` slot. */
  lemma {:induction false} CleanEntriesFailure(entries: seq<(string, Json.Value)>)
    ensures CleanEntries(entries).Failure? <==> exists i :: 0 <= i < |entries| && HoldsNullSlot(entries[i])
    decreases |entries|
  {
    if entries != [] {
      var front, last := entries[..|entries| - 1], entries[|entries| - 1];
      CleanEntriesFailure(front);
      assert forall i :: 0 <= i < |front| ==> front[i] == entries[i];
      if NonEmptyArray(last.1) {
        FilterSlotsSpec(last.1.items);
      }
    }
  }

  /** Every key of the output comes from a non-empty array of the input. */
  lemma {:induction false} CleanedKeys(entries: seq<(string, Json.Value)>, k: string)
    requires CleanEntries(entries).Success?
    requires Json.Lookup(CleanEntries(entries).value, k).Some?
    ensures k != ProtoKey
    ensures exists i :: 0 <= i < |entries| && entries[i].0 == k && NonEmptyArray(entries[i].1)
    decreases |entries|
  {
    var front, last := entries[..|entries| - 1], entries[|entries| - 1];
    var cleaned := CleanEntries(front).value;
    assert forall i :: 0 <= i < |front| ==> front[i] == entries[i];
    if NonEmptyArray(last.1) && last.0 == k && last.0 != ProtoKey {
    } else {
      assert Json.Lookup(cleaned, k).Some?;
      CleanedKeys(front, k);
    }
  }

  /** With distinct input keys, each key other than `__proto__` is in the output
      exactly when its value is a non-empty array, and then holds the filtered
      slots. */
  lemma {:induction false} CleanedEntry(entries: seq<(string, Json.Value)>, i: nat)
    requires Json.DistinctKeys(entries) && i < |entries| && entries[i].0 != ProtoKey
    requires CleanEntries(entries).Success?
    ensures NonEmptyArray(entries[i].1) ==>
      (FilterSlots(entries[i].1.items).Success? &&
       Json.Lookup(CleanEntries(entries).value, entries[i].0) == Some(Json.Array(FilterSlots(entries[i].1.items).value)))
    ensures !NonEmptyArray(entries[i].1) ==> Json.Lookup(CleanEntries(entries).value, entries[i].0).None?
    decreases |entries|
  {
    var front, last := entries[..|entries| - 1], entries[|entries| - 1];
    var cleaned := CleanEntries(front).value;
    assert forall j :: 0 <= j < |front| ==> front[j] == entries[j];
    if i == |entries| - 1 {
      if Json.Lookup(cleaned, last.0).Some? {
        CleanedKeys(front, last.0);
      }
    } else {
      assert entries[i].0 != last.0;
      CleanedEntry(front, i);
    }
  }

  /** The loop of `validateAndCleanAvailabilities`, assigning into `cleaned` key by
      key. */
  method ValidateAndCleanAvailabilities(availabilities: Json.Value) returns (r: Result<Json.Value, CleanError>)
    ensures r == Clean(availabilities)
  {
    if availabilities.Null? {
      return Failure(TypeError);
    }
    var entries := Json.Entries(availabilities);
    var cleaned: seq<(string, Json.Value)> := [];
    var i := 0;
    while i < |entries|
      invariant 0 <= i <= |entries|
      invariant CleanEntries(entries[..i]) == Success(cleaned)
    {
      var (week, slots) := entries[i];
      assert entries[..i + 1][..i] == entries[..i];
      if NonEmptyArray(slots) {
        var kept := FilterSlots(slots.items);
        if kept.Failure? {
          FilterSlotsSpec(slots.items);
          assert HoldsNullSlot(entries[i]);
          CleanEntriesFailure(entries);
          assert CleanEntries(entries).Failure?;
          assert CleanEntries(entries).error.TypeError?;
          return Failure(TypeError);
        }
        cleaned := Put(cleaned, week, Json.Array(kept.value));
      }
      i := i + 1;
    }
    assert entries[..i] == entries;
    return Success(Json.Object(cleaned));
  }

  // ---------------------------------------------------------------- examples

  const EmptyDaysSlot := Json.Object([("days", Json.Str("")), ("from", Json.Str("08:00")), ("to", Json.Str("10:00"))])

  /** Cleaning twice is not cleaning once: the length test runs before the filter,
      so a key whose slots are all dropped stays, mapped to `[]`, and only a second
      pass removes it. */
  lemma CleanNotIdempotent()
    ensures var once := Clean(Json.Object([("S1", Json.Array([EmptyDaysSlot]))]));
      once == Success(Json.Object([("S1", Json.Array([]))])) &&
      Clean(once.value) == Success(Json.Object([]))
  {
    assert !KeepSlot(EmptyDaysSlot) by {
      Json.LookupDistinct(EmptyDaysSlot.entries, 0);
    }
    assert FilterSlots([EmptyDaysSlot]) == Success([]) by {
      assert [EmptyDaysSlot][..0] == [];
    }
    var input := [("S1", Json.Array([EmptyDaysSlot]))];
    var once := [("S1", Json.Array([]))];
    assert input[..0] == [] && once[..0] == [];
    assert Put([], "S1", Json.Array([])) == once;
    assert CleanEntries(input) == Success(once);
    assert Json.Entries(Json.Object(input)) == input;
    assert Clean(Json.Object(input)) == Success(Json.Object(once));
    assert CleanEntries(once) == Success([]);
    assert Json.Entries(Json.Object(once)) == once;
  }

  const OddSlot := Json.Object([("days", Json.Str("jeu")), ("from", Json.Str("25:99")), ("to", Json.Str("x"))])

  /** The filtering revision keeps what the strict revision rejects: neither the
      key `week` nor the day `jeu` nor the time `25:99` is checked. */
  lemma CleanKeepsRejected()
    ensures var v := Json.Object([("week", Json.Array([OddSlot]))]);
      Clean(v) == Success(v) && Validation.ValidateAndCleanAvailabilities(Some(v)).Failure?
  {
    var entries := [("week", Json.Array([OddSlot]))];
    var v := Json.Object(entries);
    assert KeepSlot(OddSlot) by {
      Json.LookupDistinct(OddSlot.entries, 0);
      Json.LookupDistinct(OddSlot.entries, 1);
      Json.LookupDistinct(OddSlot.entries, 2);
    }
    assert FilterSlots([OddSlot]) == Success([OddSlot]) by {
      assert [OddSlot][..0] == [];
      assert FilterSlots([]) == Success([]);
      assert [] + [OddSlot] == [OddSlot];
    }
    assert entries[..0] == [];
    assert Put([], "week", Json.Array([OddSlot])) == entries;
    assert CleanEntries(entries) == Success(entries);
    assert Json.Entries(v) == entries;
    assert !Validation.IsPeriodKey(Json.Entries(v)[0].0);
    assert |Json.Keys(v)| == 1;
    assert !Validation.IsValidAvailabilityPeriod(v);
  }
}
