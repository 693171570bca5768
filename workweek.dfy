/** The checks the workweek import form makes before it posts the text it was
    given: the text must parse as JSON, the value must be an array, and every
    item, in order, must be an object with an e-mail address and a list of
    `{week, hours}` targets with a week from 1 to 53 and a positive number of
    hours. The first item that fails stops the import with an error naming its
    index. */
module Workweek {
  import opened Wrappers
  import Json

  // ---------------------------------------------------------------- validateWorkweek

  /** One target of `validateWorkweek`: an object (`typeof w === 'object'` and not
      `null`) whose `week` is a number in `(0, 53]` and whose `hours` is a positive
      number. An array passes the `typeof` test but has neither property. */
  predicate ValidEntry(w: Json.Value) {
    && Json.IsObjectType(w) && !w.Null?
    && match (Json.Get(w, "week"), Json.Get(w, "hours"))
       case (Some(Number(week)), Some(Number(hours))) => 0.0 < week <= 53.0 && hours > 0.0
       case _ => false
  }

  /** `validateWorkweek(workweek)`: `workweek.every(...)`. */
  predicate ValidateWorkweek(workweek: seq<Json.Value>) {
    forall i :: 0 <= i < |workweek| ==> ValidEntry(workweek[i])
  }

  /** An entry is valid exactly when it is an object holding a number `week` in
      `(0, 53]` and a positive number `hours`; weeks need not be whole numbers. */
  lemma ValidEntrySpec(w: Json.Value)
    ensures ValidEntry(w) <==>
      w.Object? &&
      exists week: real, hours: real ::
        Json.Get(w, "week") == Some(Json.Number(week)) && Json.Get(w, "hours") == Some(Json.Number(hours)) &&
        0.0 < week <= 53.0 && hours > 0.0
  {
    if ValidEntry(w) {
      var week, hours := Json.Get(w, "week").value.n, Json.Get(w, "hours").value.n;
      assert Json.Get(w, "week") == Some(Json.Number(week));
      assert Json.Get(w, "hours") == Some(Json.Number(hours));
    }
  }

  // ---------------------------------------------------------------- handleImport

  /** Why an item is refused, in the order the checks run. */
  datatype ItemProblem = NotAnObject | InvalidEmail | WorkweekNotArray | InvalidWorkweek

  /** Why the import stops before posting. */
  datatype ImportError = InvalidJson | NotAnArray | BadItem(index: nat, problem: ItemProblem)

  /** The four checks of the `forEach` callback on one item, the first that fails. */
  function CheckItem(item: Json.Value): (r: Option<ItemProblem>)
    ensures r.None? ==> item.Object?
  {
    if !Json.Truthy(item) || !Json.IsObjectType(item) then Some(NotAnObject)
    else
      match Json.Get(item, "intervenant")
      case Some(Str(email)) =>
        if '@' !in email then Some(InvalidEmail)
        else (
          match Json.Get(item, "workweek")
          case Some(Array(workweek)) =>
            if ValidateWorkweek(workweek) then None else Some(InvalidWorkweek)
          case _ => Some(WorkweekNotArray))
      case _ => Some(InvalidEmail)
  }

  /** An item passes exactly when it is an object whose `intervenant` is a string
      holding `@` and whose `workweek` is an array of valid targets. */
  lemma CheckItemSpec(item: Json.Value)
    ensures CheckItem(item).None? <==>
      && item.Object?
      && (exists email :: Json.Get(item, "intervenant") == Some(Json.Str(email)) && '@' in email)
      && (exists workweek :: Json.Get(item, "workweek") == Some(Json.Array(workweek)) && ValidateWorkweek(workweek))
  {
    if CheckItem(item).None? {
      var email := Json.Get(item, "intervenant").value.s;
      var workweek := Json.Get(item, "workweek").value.items;
      assert Json.Get(item, "intervenant") == Some(Json.Str(email));
      assert Json.Get(item, "workweek") == Some(Json.Array(workweek));
    }
  }

  /** The items from `start` on, checked in order: the first failure, with its
      index, or success when all pass. */
  function CheckItemsFrom(items: seq<Json.Value>, start: nat): Result<(), ImportError>
    requires start <= |items|
    decreases |items| - start
  {
    if start == |items| then Success(())
    else
      match CheckItem(items[start])
      case Some(p) => Failure(BadItem(start, p))
      case None => CheckItemsFrom(items, start + 1)
  }

  /** The checks from `start` succeed exactly when every item from `start` passes,
      and fail only on an item. */
  lemma {:induction false} CheckItemsFromSuccess(items: seq<Json.Value>, start: nat)
    requires start <= |items|
    ensures CheckItemsFrom(items, start).Success? <==>
      forall j :: start <= j < |items| ==> CheckItem(items[j]).None?
    ensures CheckItemsFrom(items, start).Failure? ==> CheckItemsFrom(items, start).error.BadItem?
    decreases |items| - start
  {
    if start < |items| {
      CheckItemsFromSuccess(items, start + 1);
    }
  }

  /** The checks from `start` stop at item `i` with its problem exactly when `i` is
      the first item from `start` that fails. */
  lemma {:induction false} CheckItemsFromFailure(items: seq<Json.Value>, start: nat)
    requires start <= |items|
    ensures forall i: nat, p :: CheckItemsFrom(items, start) == Failure(BadItem(i, p)) <==>
      && start <= i < |items| && CheckItem(items[i]) == Some(p)
      && forall j :: start <= j < i ==> CheckItem(items[j]).None?
    decreases |items| - start
  {
    if start < |items| {
      CheckItemsFromFailure(items, start + 1);
    }
  }

  /** What `handleImport` decides from the parsed text (`None` when `JSON.parse`
      throws): the items it posts, or the error it shows. */
  function ImportCheck(parsed: Option<Json.Value>): Result<seq<Json.Value>, ImportError> {
    match parsed
    case None => Failure(InvalidJson)
    case Some(data) =>
      if !data.Array? then Failure(NotAnArray)
      else
        match CheckItemsFrom(data.items, 0)
        case Success(_) => Success(data.items)
        case Failure(e) => Failure(e)
  }

  /** The import reaches the post exactly when the text parses to an array every
      item of which passes; otherwise the error is the unparsable text, the
      non-array value, or the first failing item. */
  lemma ImportCheckSpec(parsed: Option<Json.Value>)
    ensures ImportCheck(parsed).Success? <==>
      parsed.Some? && parsed.value.Array? &&
      forall j :: 0 <= j < |parsed.value.items| ==> CheckItem(parsed.value.items[j]).None?
    ensures parsed.None? ==> ImportCheck(parsed) == Failure(InvalidJson)
    ensures parsed.Some? && !parsed.value.Array? ==> ImportCheck(parsed) == Failure(NotAnArray)
    ensures parsed.Some? && parsed.value.Array? ==>
      forall i: nat, p :: ImportCheck(parsed) == Failure(BadItem(i, p)) <==>
        && i < |parsed.value.items| && CheckItem(parsed.value.items[i]) == Some(p)
        && forall j :: 0 <= j < i ==> CheckItem(parsed.value.items[j]).None?
  {
    if parsed.Some? && parsed.value.Array? {
      CheckItemsFromSuccess(parsed.value.items, 0);
      CheckItemsFromFailure(parsed.value.items, 0);
    }
  }

  /** `handleImport` up to the post: the `forEach` over the items, throwing at the
      first that fails. */
  method HandleImport(parsed: Option<Json.Value>) returns (r: Result<seq<Json.Value>, ImportError>)
    ensures r == ImportCheck(parsed)
  {
    if parsed.None? {
      return Failure(InvalidJson);
    }
    var data := parsed.value;
    if !data.Array? {
      return Failure(NotAnArray);
    }
    var index := 0;
    while index < |data.items|
      invariant 0 <= index <= |data.items|
      invariant CheckItemsFrom(data.items, index) == CheckItemsFrom(data.items, 0)
    {
      var problem := CheckItem(data.items[index]);
      if problem.Some? {
        return Failure(BadItem(index, problem.value));
      }
      index := index + 1;
    }
    return Success(data.items);
  }

  // ---------------------------------------------------------------- examples

  const Target37 := Json.Object([("week", Json.Number(37.0)), ("hours", Json.Number(4.0))])

  /** An item with no targets at all passes: `[].every(...)` holds. */
  lemma EmptyWorkweekAccepted()
    ensures CheckItem(Json.Object([("intervenant", Json.Str("a@b")), ("workweek", Json.Array([]))])).None?
  {
    var entries := [("intervenant", Json.Str("a@b")), ("workweek", Json.Array([]))];
    Json.LookupDistinct(entries, 0);
    Json.LookupDistinct(entries, 1);
  }

  /** An array item passes the object test, since `typeof [] === 'object'`, and is
      refused for its missing e-mail instead. */
  lemma ArrayItemFailsOnEmail()
    ensures ImportCheck(Some(Json.Array([Json.Array([])]))) == Failure(BadItem(0, InvalidEmail))
  {
  }

  /** The first failing item is reported even when a later one fails an earlier
      check. */
  lemma FirstFailureReported()
    ensures var bad := Json.Object([("intervenant", Json.Str("nobody")), ("workweek", Json.Array([Target37]))]);
      ImportCheck(Some(Json.Array([bad, Json.Null]))) == Failure(BadItem(0, InvalidEmail))
  {
    var entries := [("intervenant", Json.Str("nobody")), ("workweek", Json.Array([Target37]))];
    Json.LookupDistinct(entries, 0);
  }
}
