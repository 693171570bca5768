/** The reshaping step of the admin export: the intervenants' rows, in the order
    the query returns them, are folded into one object keyed by full name. A row
    with no availabilities, or with an availability object without keys, is left
    out; a row whose availabilities have a truthy `default` is copied as it is;
    any other row becomes the list of all its slots, one level of arrays
    flattened and falsy elements dropped. A later row with the same full name
    replaces an earlier one. */
module Export {
  import opened Wrappers
  import opened Seqs
  import Json

  /** One row of `SELECT name, lastname, availabilities FROM "Intervenant"`. */
  datatype Row = Row(name: string, lastname: string, availabilities: Json.Value)

  /** `${intervenant.name} ${intervenant.lastname}`. */
  function FullName(row: Row): string {
    row.name + " " + row.lastname
  }

  /** `!intervenant.availabilities || Object.keys(intervenant.availabilities).length === 0`. */
  predicate Skipped(row: Row) {
    !Json.Truthy(row.availabilities) || |Json.Keys(row.availabilities)| == 0
  }

  /** `.flat()`: the elements of each array element in its place, other elements
      as they are. */
  function Flat(values: seq<Json.Value>): (r: seq<Json.Value>)
    decreases |values|
  {
    if values == [] then []
    else (if values[0].Array? then values[0].items else [values[0]]) + Flat(values[1..])
  }

  /** An element of the flattened list is an element of an array element, or an
      element that is not an array. */
  lemma {:induction false} FlatMembers(values: seq<Json.Value>, x: Json.Value)
    ensures x in Flat(values) <==>
      exists i :: 0 <= i < |values| && ((values[i].Array? && x in values[i].items) || (!values[i].Array? && values[i] == x))
    decreases |values|
  {
    if values != [] {
      FlatMembers(values[1..], x);
      forall i | 0 <= i < |values[1..]| ensures values[1..][i] == values[i + 1] {}
      if x in Flat(values[1..]) {
        var i :| 0 <= i < |values[1..]| && ((values[1..][i].Array? && x in values[1..][i].items) || (!values[1..][i].Array? && values[1..][i] == x));
        assert values[i + 1] == values[1..][i];
      }
    }
  }

  /** `.filter(Boolean)`. */
  function FilterTruthy(values: seq<Json.Value>): (r: seq<Json.Value>)
    ensures forall x :: x in r <==> x in values && Json.Truthy(x)
    ensures IsSubsequence(r, values)
    decreases |values|
  {
    if values == [] then []
    else
      var front, last := values[..|values| - 1], values[|values| - 1];
      var kept := FilterTruthy(front);
      assert forall x :: x in front ==> x in values;
      assert values == front + [last];
      if Json.Truthy(last) then
        assert (kept + [last])[..|kept|] == kept;
        kept + [last]
      else kept
  }

  /** The value the export keeps for a row that is not skipped. */
  function Reshape(availabilities: Json.Value): Json.Value {
    match Json.Get(availabilities, "default")
    case Some(d) =>
      if Json.Truthy(d) then availabilities
      else Json.Array(FilterTruthy(Flat(Json.Values(availabilities))))
    case None => Json.Array(FilterTruthy(Flat(Json.Values(availabilities))))
  }

  /** A row with a truthy `default` is kept unchanged; any other row becomes a list
      whose elements are exactly the truthy elements of its values, one level of
      arrays flattened. */
  lemma ReshapeSpec(availabilities: Json.Value)
    ensures (exists d :: Json.Get(availabilities, "default") == Some(d) && Json.Truthy(d)) ==>
      Reshape(availabilities) == availabilities
    ensures (forall d :: Json.Get(availabilities, "default") == Some(d) ==> !Json.Truthy(d)) ==>
      && Reshape(availabilities).Array?
      && forall x :: x in Reshape(availabilities).items <==>
        Json.Truthy(x) &&
        exists v :: v in Json.Values(availabilities) && ((v.Array? && x in v.items) || (!v.Array? && v == x))
  {
    var values := Json.Values(availabilities);
    if forall d :: Json.Get(availabilities, "default") == Some(d) ==> !Json.Truthy(d) {
      forall x
        ensures x in Reshape(availabilities).items <==>
          Json.Truthy(x) && exists v :: v in values && ((v.Array? && x in v.items) || (!v.Array? && v == x))
      {
        FlatMembers(values, x);
        if x in Flat(values) {
          var i :| 0 <= i < |values| && ((values[i].Array? && x in values[i].items) || (!values[i].Array? && values[i] == x));
          assert values[i] in values;
        }
        if exists v :: v in values && ((v.Array? && x in v.items) || (!v.Array? && v == x)) {
          var v :| v in values && ((v.Array? && x in v.items) || (!v.Array? && v == x));
          var i :| 0 <= i < |values| && values[i] == v;
        }
      }
    }
  }

  /** The reducer's callback: `acc` unchanged for a skipped row, otherwise
      `acc[intervenantName]` assigned. */
  function Step(acc: seq<(string, Json.Value)>, row: Row): seq<(string, Json.Value)> {
    if Skipped(row) then acc else Json.Assign(acc, FullName(row), Reshape(row.availabilities))
  }

  /** `result.rows.reduce(..., {})`: the entries of the exported object. */
  function ExportRows(rows: seq<Row>): seq<(string, Json.Value)>
    decreases |rows|
  {
    if rows == [] then [] else Step(ExportRows(rows[..|rows| - 1]), rows[|rows| - 1])
  }

  /** A full name is a key of the export exactly when some row with that name is
      not skipped. */
  lemma {:induction false} ExportKeys(rows: seq<Row>, k: string)
    ensures Json.Lookup(ExportRows(rows), k).Some? <==>
      exists i :: 0 <= i < |rows| && FullName(rows[i]) == k && !Skipped(rows[i])
    decreases |rows|
  {
    if rows != [] {
      var front, last := rows[..|rows| - 1], rows[|rows| - 1];
      ExportKeys(front, k);
      assert ExportRows(rows) == Step(ExportRows(front), last);
      StepKeys(ExportRows(front), last, k);
      KeptSnoc(rows, front, last, k);
    }
  }

  lemma KeptSnoc(rows: seq<Row>, front: seq<Row>, last: Row, k: string)
    requires rows != [] && front == rows[..|rows| - 1] && last == rows[|rows| - 1]
    ensures (exists i :: 0 <= i < |rows| && FullName(rows[i]) == k && !Skipped(rows[i])) <==>
      (exists i :: 0 <= i < |front| && FullName(front[i]) == k && !Skipped(front[i])) ||
      (FullName(last) == k && !Skipped(last))
  {
    if exists i :: 0 <= i < |rows| && FullName(rows[i]) == k && !Skipped(rows[i]) {
      var i :| 0 <= i < |rows| && FullName(rows[i]) == k && !Skipped(rows[i]);
      if i < |front| {
        assert front[i] == rows[i];
      }
    }
    if exists i :: 0 <= i < |front| && FullName(front[i]) == k && !Skipped(front[i]) {
      var i :| 0 <= i < |front| && FullName(front[i]) == k && !Skipped(front[i]);
      assert front[i] == rows[i];
      assert 0 <= i < |rows| && FullName(rows[i]) == k && !Skipped(rows[i]);
    }
    if FullName(last) == k && !Skipped(last) {
      assert 0 <= |front| < |rows| && FullName(rows[|front|]) == k && !Skipped(rows[|front|]);
    }
  }

  lemma StepKeys(acc: seq<(string, Json.Value)>, row: Row, k: string)
    ensures Json.Lookup(Step(acc, row), k).Some? <==>
      Json.Lookup(acc, k).Some? || (FullName(row) == k && !Skipped(row))
  {
  }

  /** The value under a full name is the reshaped availabilities of the last row
      with that name that is not skipped. */
  lemma {:induction false} ExportLastWins(rows: seq<Row>, i: nat)
    requires i < |rows| && !Skipped(rows[i])
    requires forall j :: i < j < |rows| && FullName(rows[j]) == FullName(rows[i]) ==> Skipped(rows[j])
    ensures Json.Lookup(ExportRows(rows), FullName(rows[i])) == Some(Reshape(rows[i].availabilities))
    decreases |rows|
  {
    var front, last := rows[..|rows| - 1], rows[|rows| - 1];
    if i < |rows| - 1 {
      assert front[i] == rows[i];
      forall j | i < j < |front| && FullName(front[j]) == FullName(front[i])
        ensures Skipped(front[j])
      {
        assert front[j] == rows[j];
      }
      ExportLastWins(front, i);
    }
  }

  /** The exported object never holds a key twice. */
  lemma {:induction false} ExportDistinct(rows: seq<Row>)
    ensures Json.DistinctKeys(ExportRows(rows))
    decreases |rows|
  {
    if rows != [] {
      var front, last := rows[..|rows| - 1], rows[|rows| - 1];
      ExportDistinct(front);
      if !Skipped(last) {
        Json.AssignDistinct(ExportRows(front), FullName(last), Reshape(last.availabilities));
      }
    }
  }

  /** The reducer as a loop over the rows, assigning into the accumulator. */
  method FormatRows(rows: seq<Row>) returns (acc: seq<(string, Json.Value)>)
    ensures acc == ExportRows(rows)
  {
    acc := [];
    var i := 0;
    while i < |rows|
      invariant 0 <= i <= |rows|
      invariant acc == ExportRows(rows[..i])
    {
      var intervenant := rows[i];
      assert rows[..i + 1][..i] == rows[..i];
      if !Skipped(intervenant) {
        acc := Json.Assign(acc, FullName(intervenant), Reshape(intervenant.availabilities));
      }
      i := i + 1;
    }
    assert rows[..i] == rows;
  }
}
