/**
 * The shapes of the DCS mission descriptor that the ATO pipeline reads,
 * and the small failure-compatible wrappers used for Python's lookup errors.
 *
 * The descriptor comes from a Lua table, so every collection in it is an
 * insertion-ordered dictionary (Lua arrays arrive keyed 1..n). A Dafny `map`
 * has no iteration order, so an ordered dictionary is a sequence of
 * (key, value) pairs here, walked front to back exactly as `.items()` is.
 */
module DcsData {

  datatype Option<T> = None | Some(value: T)

  /** The lookup failures the pipeline can raise (all are Python KeyErrors). */
  datatype Error =
    | MissingKey(key: string)   // a string key absent from a dictionary
    | MissingUnit(index: int)   // `units[index]` absent from a group's unit table

  datatype Result<T> = Ok(value: T) | Err(error: Error) {
    predicate IsFailure() { Err? }

    function PropagateFailure<U>(): Result<U>
      requires Err?
    {
      Err(error)
    }

    function Extract(): T
      requires Ok?
    {
      value
    }
  }

  /** An insertion-ordered dictionary. */
  type Table<K, V> = seq<(K, V)>

  /** `d.get(key)`: the value stored under `key`, if any. */
  function Lookup<K(==), V>(t: Table<K, V>, key: K): (r: Option<V>)
    ensures r.Some? <==> exists i :: 0 <= i < |t| && t[i].0 == key
    ensures r.Some? ==> exists i :: 0 <= i < |t| && t[i] == (key, r.value)
  {
    if t == [] then None
    else if t[0].0 == key then Some(t[0].1)
    else
      var r := Lookup(t[1..], key);
      assert forall i :: 0 <= i < |t| - 1 ==> t[1..][i] == t[i + 1];
      r
  }

  /** `[x for _, x in d.items()]`: the values in insertion order. */
  function Values<K, V>(t: Table<K, V>): (r: seq<V>)
    ensures |r| == |t|
    ensures forall i :: 0 <= i < |t| ==> r[i] == t[i].1
  {
    seq(|t|, i requires 0 <= i < |t| => t[i].1)
  }

  /** Prefix `xs` to a successful result; a failure passes through unchanged. */
  function Prepend<T>(xs: seq<T>, r: Result<seq<T>>): (p: Result<seq<T>>)
    ensures p.Ok? == r.Ok?
    ensures p.Ok? ==> p.value == xs + r.value
    ensures p.Err? ==> p.error == r.error
    ensures xs == [] ==> p == r
  {
    match r
    case Ok(v) => assert [] + v == v; Ok(xs + v)
    case Err(e) => Err(e)
  }

  /** Prefixing twice is prefixing once with the concatenation. */
  lemma PrependTwice<T>(xs: seq<T>, ys: seq<T>, r: Result<seq<T>>)
    ensures Prepend(xs, Prepend(ys, r)) == Prepend(xs + ys, r)
  {
    if r.Ok? {
      assert xs + (ys + r.value) == (xs + ys) + r.value;
    }
  }

  /** A unit of a group; only its airframe type is read. */
  datatype Unit = Unit(typeName: string)

  /** A route point; only its `ETA` (seconds since mission start) is read. */
  datatype RoutePoint = RoutePoint(eta: int)

  /** A group record: `name`, `task`, `units` and `route.points`. */
  datatype Group = Group(
    name: string,
    task: string,
    units: Table<int, Unit>,
    points: Table<int, RoutePoint>)

  /**
   * A category entry of a country (`plane`, `helicopter`, ...). Python tests it
   * with `if cat:`, so it counts as false exactly when the dictionary is empty:
   * it has neither a `group` entry nor any other key.
   */
  datatype Category = Category(group: Option<Table<int, Group>>, otherKeys: nat) {
    predicate Truthy() { group.Some? || otherKeys > 0 }
  }

  /** A country entry: its categories by name. */
  datatype Country = Country(categories: Table<string, Category>)

  /** One side of the coalition mapping; its `country` entry may be absent. */
  datatype Side = Side(country: Option<Table<int, Country>>)

  /** The mission dictionary; its `coalition` entry may be absent. */
  datatype MissionDict = MissionDict(coalition: Option<Table<string, Side>>)
}
