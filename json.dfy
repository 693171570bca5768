/** JSON values as the code receives them (from `JSON.parse`, a request body or a
    `jsonb` column), with the few JavaScript operations the code applies to
    values of unknown shape: truthiness, `typeof`, property lookup and
    `Object.keys` / `Object.entries` / `Object.values`. */
module Json {
  import opened Wrappers
  import Text

  /** Objects keep their entries in enumeration order. */
  datatype Value =
    | Null
    | Bool(b: bool)
    | Number(n: real)
    | Str(s: string)
    | Array(items: seq<Value>)
    | Object(entries: seq<(string, Value)>)

  /** JavaScript truthiness: `null`, `false`, `0` and `""` are falsy, every array and
      object is truthy. */
  predicate Truthy(v: Value) {
    match v
    case Null => false
    case Bool(b) => b
    case Number(n) => n != 0.0
    case Str(s) => s != ""
    case Array(_) => true
    case Object(_) => true
  }

  /** `typeof v === 'object'`, which holds of `null` and of arrays too. */
  predicate IsObjectType(v: Value) {
    v.Null? || v.Array? || v.Object?
  }

  /** The value stored under `key` in a list of entries; the last entry wins, as
      in `JSON.parse` when a key repeats. */
  function Lookup(entries: seq<(string, Value)>, key: string): (r: Option<Value>)
    ensures r.Some? <==> exists i :: 0 <= i < |entries| && entries[i].0 == key
    ensures r.Some? ==> exists i :: 0 <= i < |entries| && entries[i] == (key, r.value)
    decreases |entries|
  {
    if entries == [] then None
    else if entries[|entries| - 1].0 == key then Some(entries[|entries| - 1].1)
    else
      var r := Lookup(entries[..|entries| - 1], key);
      assert forall i :: 0 <= i < |entries| - 1 ==> entries[..|entries| - 1][i] == entries[i];
      r
  }

  /** The keys of `entries` are pairwise distinct, as in every object that
      `JSON.parse` or a `jsonb` column produces (a repeated key in JSON text keeps
      its last value). */
  predicate DistinctKeys(entries: seq<(string, Value)>) {
    forall i, j :: 0 <= i < j < |entries| ==> entries[i].0 != entries[j].0
  }

  /** With distinct keys, looking up an entry's key finds that entry's value. */
  lemma {:induction false} LookupDistinct(entries: seq<(string, Value)>, i: nat)
    requires DistinctKeys(entries) && i < |entries|
    ensures Lookup(entries, entries[i].0) == Some(entries[i].1)
    decreases |entries|
  {
    if i < |entries| - 1 {
      var front := entries[..|entries| - 1];
      assert entries[|entries| - 1].0 != entries[i].0;
      assert front[i] == entries[i];
      LookupDistinct(front, i);
    }
  }

  /** `obj[key] = value` on an object's entries: a key already present keeps its
      place and takes the new value, a new key is added last. */
  function Assign(entries: seq<(string, Value)>, key: string, value: Value): (r: seq<(string, Value)>)
    ensures Lookup(r, key) == Some(value)
    ensures forall k :: k != key ==> Lookup(r, k) == Lookup(entries, k)
    decreases |entries|
  {
    if entries == [] then [(key, value)]
    else
      var front, last := entries[..|entries| - 1], entries[|entries| - 1];
      if last.0 == key then front + [(key, value)]
      else if Lookup(front, key).None? then entries + [(key, value)]
      else
        var r := Assign(front, key, value) + [last];
        assert r[..|r| - 1] == Assign(front, key, value);
        r
  }

  /** Assigning replaces the entry of a key already present, in place, and
      otherwise adds the key last. */
  lemma {:induction false} AssignShape(entries: seq<(string, Value)>, key: string, value: Value)
    ensures Lookup(entries, key).None? ==> Assign(entries, key, value) == entries + [(key, value)]
    ensures Lookup(entries, key).Some? ==> |Assign(entries, key, value)| == |entries|
    decreases |entries|
  {
    if entries != [] {
      var front, last := entries[..|entries| - 1], entries[|entries| - 1];
      if last.0 != key && Lookup(front, key).Some? {
        AssignShape(front, key, value);
      }
    }
  }

  /** Every other entry stays where it was. */
  lemma {:induction false} AssignKeeps(entries: seq<(string, Value)>, key: string, value: Value, i: nat)
    requires i < |entries| && entries[i].0 != key
    ensures i < |Assign(entries, key, value)| && Assign(entries, key, value)[i] == entries[i]
    decreases |entries|
  {
    var front, last := entries[..|entries| - 1], entries[|entries| - 1];
    var r := Assign(entries, key, value);
    if last.0 == key {
      assert r == front + [(key, value)] && i < |front|;
      assert r[i] == front[i];
    } else if Lookup(front, key).None? {
      assert r == entries + [(key, value)];
    } else {
      var a := Assign(front, key, value);
      assert r == a + [last];
      AssignShape(front, key, value);
      if i < |front| {
        AssignKeeps(front, key, value, i);
        assert r[i] == a[i] && entries[i] == front[i];
      }
    }
  }

  /** Assigning keeps the keys distinct. */
  lemma {:induction false} AssignDistinct(entries: seq<(string, Value)>, key: string, value: Value)
    requires DistinctKeys(entries)
    ensures DistinctKeys(Assign(entries, key, value))
    decreases |entries|
  {
    if entries != [] {
      var front, last := entries[..|entries| - 1], entries[|entries| - 1];
      var r := Assign(entries, key, value);
      if last.0 == key {
        assert r == front + [(key, value)];
        forall i, j | 0 <= i < j < |r|
          ensures r[i].0 != r[j].0
        {
          assert r[i] == entries[i];
          if j < |r| - 1 {
            assert r[j] == entries[j];
          }
        }
      } else if Lookup(front, key).None? {
        assert r == entries + [(key, value)];
        forall i, j | 0 <= i < j < |r|
          ensures r[i].0 != r[j].0
        {
          assert r[i] == entries[i];
          if j < |r| - 1 {
            assert r[j] == entries[j];
          } else if i < |front| {
            assert front[i] == entries[i];
          }
        }
      } else {
        AssignDistinct(front, key, value);
        AssignShape(front, key, value);
        var a := Assign(front, key, value);
        assert r == a + [last];
        forall i, j | 0 <= i < j < |r|
          ensures r[i].0 != r[j].0
        {
          if j == |r| - 1 {
            assert r[i] == a[i];
            var k := a[i].0;
            if k != key {
              assert Lookup(a, k).Some?;
              var m :| 0 <= m < |front| && front[m].0 == k;
              assert front[m] == entries[m];
            }
          } else {
            assert r[i] == a[i] && r[j] == a[j];
          }
        }
      }
    }
  }

  /** `v.key` for a named (non-index) property: `undefined` (`None`) unless `v` is an
      object that has the key. */
  function Get(v: Value, key: string): Option<Value> {
    if v.Object? then Lookup(v.entries, key) else None
  }

  /** `Object.entries(v)`: the entries of an object, index/element pairs of an array
      or of a string, nothing for other values. (`Object.entries(null)` throws;
      callers handle `null` before asking.) */
  function Entries(v: Value): (r: seq<(string, Value)>)
    ensures v.Object? ==> r == v.entries
    ensures v.Array? ==> |r| == |v.items|
    ensures v.Str? ==> |r| == |v.s|
    ensures v.Null? || v.Bool? || v.Number? ==> r == []
  {
    match v
    case Object(entries) => entries
    case Array(items) => seq(|items|, i requires 0 <= i < |items| => (Text.NatToString(i), items[i]))
    case Str(s) => seq(|s|, i requires 0 <= i < |s| => (Text.NatToString(i), Str([s[i]])))
    case _ => []
  }

  /** `Object.keys(v)`. */
  function Keys(v: Value): (r: seq<string>)
    ensures |r| == |Entries(v)|
  {
    var e := Entries(v);
    seq(|e|, i requires 0 <= i < |e| => e[i].0)
  }

  /** `Object.values(v)`. */
  function Values(v: Value): (r: seq<Value>)
    ensures |r| == |Entries(v)|
    ensures forall i :: 0 <= i < |r| ==> r[i] == Entries(v)[i].1
  {
    var e := Entries(v);
    seq(|e|, i requires 0 <= i < |e| => e[i].1)
  }
}
