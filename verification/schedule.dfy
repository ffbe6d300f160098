/**
 * Schedule extraction and ordering (`get_schedule`, `sort_flight_schedule`
 * and the `schedule.sort(key=..., reverse=True)` call of `generate_ato`).
 */
module Schedule {
  import opened DcsData

  /** A schedule record: display name, task, airframe type and positive ETAs in route order. */
  datatype Record = Record(name: string, task: string, typeName: string, waypoints: seq<int>)

  /** The text before the first `|` of `s`, or all of `s` when it has none (`s.split('|')[0]`). */
  function NamePrefix(s: string): (r: string)
    ensures r <= s
    ensures '|' !in r
    ensures |r| == |s| || s[|r|] == '|'
  {
    if s == [] || s[0] == '|' then [] else [s[0]] + NamePrefix(s[1..])
  }

  /** The three clauses of NamePrefix's contract leave it no freedom: they define it. */
  lemma NamePrefixUnique(s: string, p: string)
    requires p <= s && '|' !in p && (|p| == |s| || s[|p|] == '|')
    ensures p == NamePrefix(s)
  {
    var r := NamePrefix(s);
    if |p| < |r| {
      assert false;
    } else if |r| < |p| {
      assert false;
    }
    assert p == s[..|p|] == r;
  }

  /** The ETAs of a route, in route order. */
  function Etas(points: Table<int, RoutePoint>): (etas: seq<int>)
    ensures |etas| == |points|
    ensures forall i :: 0 <= i < |points| ==> etas[i] == points[i].1.eta
  {
    seq(|points|, i requires 0 <= i < |points| => points[i].1.eta)
  }

  /** `[x['ETA'] for i, x in points.items() if x['ETA'] > 0]`. */
  function PositiveEtas(points: Table<int, RoutePoint>): (w: seq<int>)
    ensures forall i :: 0 <= i < |w| ==> w[i] > 0
    ensures |w| <= |points|
    decreases |points|
  {
    if points == [] then []
    else (if points[0].1.eta > 0 then [points[0].1.eta] else []) + PositiveEtas(points[1..])
  }

  /** Filtering keeps route order: the ETAs of `a + b` are those of `a` followed by those of `b`. */
  lemma {:induction false} PositiveEtasAppend(a: Table<int, RoutePoint>, b: Table<int, RoutePoint>)
    ensures PositiveEtas(a + b) == PositiveEtas(a) + PositiveEtas(b)
    decreases |a|
  {
    if a == [] {
      assert a + b == b;
    } else {
      assert (a + b)[0] == a[0];
      assert (a + b)[1..] == a[1..] + b;
      PositiveEtasAppend(a[1..], b);
    }
  }

  /** A route whose ETAs are all positive loses nothing. */
  lemma {:induction false} PositiveEtasKeepsPositive(points: Table<int, RoutePoint>)
    requires forall i :: 0 <= i < |points| ==> points[i].1.eta > 0
    ensures PositiveEtas(points) == Etas(points)
    decreases |points|
  {
    if points != [] {
      PositiveEtasKeepsPositive(points[1..]);
      assert Etas(points) == [points[0].1.eta] + Etas(points[1..]);
    }
  }

  /** Every positive ETA is kept as often as it occurs; zero and negative ones are dropped. */
  lemma {:induction false} PositiveEtasCounts(points: Table<int, RoutePoint>, v: int)
    ensures multiset(PositiveEtas(points))[v] == if v > 0 then multiset(Etas(points))[v] else 0
    decreases |points|
  {
    if points != [] {
      PositiveEtasCounts(points[1..], v);
      assert Etas(points) == [points[0].1.eta] + Etas(points[1..]);
    }
  }

  /** What every extracted record satisfies. */
  predicate WellFormed(rec: Record)
  {
    && (forall i :: 0 <= i < |rec.waypoints| ==> rec.waypoints[i] > 0)
    && |rec.name| > 0 && rec.name[|rec.name| - 1] == ' '
    && '|' !in rec.name[..|rec.name| - 1]
  }

  /**
   * The record of one group: the name before the first `|` followed by one
   * space, the task, the type of the unit stored under key 1 of `units`, and
   * the positive ETAs. A group with no unit under key 1 is a lookup error.
   */
  function ExtractRecord(g: Group): (r: Result<Record>)
    ensures r.Ok? <==> Lookup(g.units, 1).Some?
    ensures r.Err? ==> r.error == MissingUnit(1)
    ensures r.Ok? ==> WellFormed(r.value) && r.value.task == g.task
    ensures r.Ok? ==> r.value.name[..|r.value.name| - 1] <= g.name
    ensures r.Ok? ==> r.value.name == NamePrefix(g.name) + " "
    ensures r.Ok? ==> r.value.typeName == Lookup(g.units, 1).value.typeName
    ensures r.Ok? ==> r.value.waypoints == PositiveEtas(g.points)
  {
    match Lookup(g.units, 1)
    case None => Err(MissingUnit(1))
    case Some(unit) =>
      var name := NamePrefix(g.name) + " ";
      assert name[..|name| - 1] == NamePrefix(g.name);
      Ok(Record(name, g.task, unit.typeName, PositiveEtas(g.points)))
  }

  /** The specification of `get_schedule`: one record per group, in order; the first failure wins. */
  function ScheduleOf(flights: seq<Group>): Result<seq<Record>>
    decreases |flights|
  {
    if flights == [] then Ok([])
    else
      var rec :- ExtractRecord(flights[0]);
      Prepend([rec], ScheduleOf(flights[1..]))
  }

  /** `get_schedule`: appends the record of each group in turn. */
  method GetSchedule(flights: seq<Group>) returns (r: Result<seq<Record>>)
    ensures r == ScheduleOf(flights)
  {
    var schedule: seq<Record> := [];
    var i := 0;
    assert flights[0..] == flights;
    while i < |flights|
      invariant 0 <= i <= |flights|
      invariant ScheduleOf(flights) == Prepend(schedule, ScheduleOf(flights[i..]))
    {
      assert flights[i..][0] == flights[i] && flights[i..][1..] == flights[i + 1..];
      var flight := flights[i];
      var name := NamePrefix(flight.name);
      var waypoints := PositiveEtas(flight.points);
      var lead := Lookup(flight.units, 1);
      if lead.None? {
        assert ScheduleOf(flights[i..]) == Err(MissingUnit(1));
        return Err(MissingUnit(1));
      }
      var data := Record(name + " ", flight.task, lead.value.typeName, waypoints);
      PrependTwice(schedule, [data], ScheduleOf(flights[i + 1..]));
      schedule := schedule + [data];
      i := i + 1;
    }
    assert flights[i..] == [] && schedule + [] == schedule;
    r := Ok(schedule);
  }

  /**
   * Extraction succeeds exactly when every group has a unit under key 1, and
   * then yields one record per group, in input order.
   */
  lemma {:induction false} ScheduleOfShape(flights: seq<Group>)
    ensures ScheduleOf(flights).Ok? <==>
      forall i :: 0 <= i < |flights| ==> Lookup(flights[i].units, 1).Some?
    ensures ScheduleOf(flights).Err? ==> ScheduleOf(flights).error == MissingUnit(1)
    ensures ScheduleOf(flights).Ok? ==>
      |ScheduleOf(flights).value| == |flights| &&
      forall i :: 0 <= i < |flights| ==> ScheduleOf(flights).value[i] == ExtractRecord(flights[i]).value
    decreases |flights|
  {
    if flights != [] {
      var rest := flights[1..];
      ScheduleOfShape(rest);
      assert forall i :: 0 < i < |flights| ==> flights[i] == rest[i - 1];
    }
  }

  /** `sort_flight_schedule`: the first waypoint, or 0 when there is none. */
  function SortKey(rec: Record): (k: int)
    ensures rec.waypoints != [] ==> k == rec.waypoints[0]
    ensures rec.waypoints == [] ==> k == 0
    ensures WellFormed(rec) ==> k >= 0 && (k == 0 <==> rec.waypoints == [])
  {
    if rec.waypoints != [] then rec.waypoints[0] else 0
  }

  /** Non-increasing sort keys. */
  predicate SortedDescending(s: seq<Record>)
  {
    forall i, j :: 0 <= i < j < |s| ==> SortKey(s[i]) >= SortKey(s[j])
  }

  /** The records of `s` whose sort key is `k`, in their order in `s`. */
  function WithKey(s: seq<Record>, k: int): seq<Record>
    decreases |s|
  {
    if s == [] then []
    else (if SortKey(s[0]) == k then [s[0]] else []) + WithKey(s[1..], k)
  }

  lemma {:induction false} WithKeyMember(s: seq<Record>, k: int, x: Record)
    ensures x in WithKey(s, k) <==> x in s && SortKey(x) == k
    decreases |s|
  {
    if s != [] {
      WithKeyMember(s[1..], k, x);
      assert s == [s[0]] + s[1..];
    }
  }

  /**
   * Inserts `x` before the first record whose key is not greater than its
   * own, so that it precedes every record of equal key.
   */
  function Insert(x: Record, s: seq<Record>): (r: seq<Record>)
    ensures forall y :: y in r ==> y == x || y in s
    decreases |s|
  {
    if s == [] || SortKey(s[0]) <= SortKey(x) then [x] + s
    else [s[0]] + Insert(x, s[1..])
  }

  lemma {:induction false} InsertPermutes(x: Record, s: seq<Record>)
    ensures multiset(Insert(x, s)) == multiset(s) + multiset{x}
    decreases |s|
  {
    if s != [] && SortKey(s[0]) > SortKey(x) {
      InsertPermutes(x, s[1..]);
      assert s == [s[0]] + s[1..];
    }
  }

  lemma {:induction false} InsertKeepsSorted(x: Record, s: seq<Record>)
    requires SortedDescending(s)
    ensures SortedDescending(Insert(x, s))
    decreases |s|
  {
    if s != [] && SortKey(s[0]) > SortKey(x) {
      var rest := Insert(x, s[1..]);
      InsertKeepsSorted(x, s[1..]);
      forall j | 0 <= j < |rest| ensures SortKey(rest[j]) <= SortKey(s[0]) {
        assert rest[j] in rest;
        if rest[j] != x {
          var m :| 0 <= m < |s[1..]| && s[1..][m] == rest[j];
          assert s[m + 1] == rest[j];
        }
      }
      var r := [s[0]] + rest;
      forall i, j | 0 <= i < j < |r| ensures SortKey(r[i]) >= SortKey(r[j]) {
        assert r[j] == rest[j - 1];
        if i > 0 { assert r[i] == rest[i - 1]; }
      }
    }
  }

  /** Inserting `x` adds it first among the records of its key and leaves the other keys alone. */
  lemma {:induction false} InsertWithKey(x: Record, s: seq<Record>, k: int)
    ensures WithKey(Insert(x, s), k) == (if SortKey(x) == k then [x] else []) + WithKey(s, k)
    decreases |s|
  {
    var here := if SortKey(x) == k then [x] else [];
    if s == [] || SortKey(s[0]) <= SortKey(x) {
      assert ([x] + s)[0] == x && ([x] + s)[1..] == s;
      assert WithKey([x] + s, k) == here + WithKey(s, k);
    } else {
      var rest := Insert(x, s[1..]);
      var head := if SortKey(s[0]) == k then [s[0]] else [];
      assert ([s[0]] + rest)[0] == s[0] && ([s[0]] + rest)[1..] == rest;
      assert WithKey([s[0]] + rest, k) == head + WithKey(rest, k);
      assert WithKey(s, k) == head + WithKey(s[1..], k);
      InsertWithKey(x, s[1..], k);
      assert head + (here + WithKey(s[1..], k)) == here + (head + WithKey(s[1..], k)) by {
        assert here == [] || head == [];
      }
    }
  }

  /** `schedule.sort(key=sort_flight_schedule, reverse=True)`: insertion from the back. */
  function SortDescending(s: seq<Record>): seq<Record>
    decreases |s|
  {
    if s == [] then [] else Insert(s[0], SortDescending(s[1..]))
  }

  /** The sorted schedule has non-increasing sort keys. */
  lemma {:induction false} SortDescendingSorted(s: seq<Record>)
    ensures SortedDescending(SortDescending(s))
    decreases |s|
  {
    if s != [] {
      SortDescendingSorted(s[1..]);
      InsertKeepsSorted(s[0], SortDescending(s[1..]));
    }
  }

  /** The sorted schedule is a permutation of the extracted one. */
  lemma {:induction false} SortDescendingPermutes(s: seq<Record>)
    ensures multiset(SortDescending(s)) == multiset(s)
    decreases |s|
  {
    if s != [] {
      SortDescendingPermutes(s[1..]);
      InsertPermutes(s[0], SortDescending(s[1..]));
      assert s == [s[0]] + s[1..];
    }
  }

  /** The sort is stable: the records of each key keep their relative order. */
  lemma {:induction false} SortDescendingStable(s: seq<Record>, k: int)
    ensures WithKey(SortDescending(s), k) == WithKey(s, k)
    decreases |s|
  {
    if s != [] {
      SortDescendingStable(s[1..], k);
      InsertWithKey(s[0], SortDescending(s[1..]), k);
    }
  }

  /** The key of the first record of a sorted sequence is its largest. */
  lemma SortedHeadIsMax(s: seq<Record>, x: Record)
    requires SortedDescending(s) && x in s
    ensures SortKey(x) <= SortKey(s[0])
  {
    var i :| 0 <= i < |s| && s[i] == x;
  }

  /** A record of `a` with the head's key is also in `b`, so `b` is not empty. */
  lemma SameHeadKeyNonEmpty(a: seq<Record>, b: seq<Record>)
    requires a != []
    requires WithKey(a, SortKey(a[0])) == WithKey(b, SortKey(a[0]))
    ensures b != []
  {
    WithKeyMember(a, SortKey(a[0]), a[0]);
    WithKeyMember(b, SortKey(a[0]), a[0]);
  }

  /** Sorted sequences with the same records per key have the same largest key. */
  lemma SortedSameHeadKey(a: seq<Record>, b: seq<Record>)
    requires SortedDescending(a) && SortedDescending(b) && a != [] && b != []
    requires WithKey(a, SortKey(a[0])) == WithKey(b, SortKey(a[0]))
    requires WithKey(a, SortKey(b[0])) == WithKey(b, SortKey(b[0]))
    ensures SortKey(a[0]) == SortKey(b[0])
  {
    var ka, kb := SortKey(a[0]), SortKey(b[0]);
    WithKeyMember(a, ka, a[0]);
    WithKeyMember(b, ka, a[0]);
    WithKeyMember(b, kb, b[0]);
    WithKeyMember(a, kb, b[0]);
    SortedHeadIsMax(a, b[0]);
    SortedHeadIsMax(b, a[0]);
  }

  /**
   * Two sequences sorted by descending key whose records of each key appear
   * in the same order are equal.
   */
  lemma {:induction false} SortedWithSameKeysEqual(a: seq<Record>, b: seq<Record>)
    requires SortedDescending(a) && SortedDescending(b)
    requires forall k :: WithKey(a, k) == WithKey(b, k)
    ensures a == b
    decreases |a|
  {
    if a == [] {
      if b != [] {
        assert WithKey(b, SortKey(b[0])) == WithKey(a, SortKey(b[0]));
        SameHeadKeyNonEmpty(b, a);
      }
    } else {
      var ka := SortKey(a[0]);
      assert WithKey(a, ka) == WithKey(b, ka);
      SameHeadKeyNonEmpty(a, b);
      assert WithKey(a, SortKey(b[0])) == WithKey(b, SortKey(b[0]));
      SortedSameHeadKey(a, b);
      assert WithKey(a, ka) == [a[0]] + WithKey(a[1..], ka);
      assert WithKey(b, ka) == [b[0]] + WithKey(b[1..], ka);
      assert a[0] == WithKey(a, ka)[0] == WithKey(b, ka)[0] == b[0];
      forall k ensures WithKey(a[1..], k) == WithKey(b[1..], k) {
        var wa, wb := WithKey(a, k), WithKey(b, k);
        if ka == k {
          assert WithKey(a[1..], k) == wa[1..] && WithKey(b[1..], k) == wb[1..];
        } else {
          assert wa == WithKey(a[1..], k) && wb == WithKey(b[1..], k);
        }
      }
      SortedWithSameKeysEqual(a[1..], b[1..]);
      assert a == [a[0]] + a[1..] && b == [b[0]] + b[1..];
    }
  }

  /**
   * The sort is the only stable descending ordering: any ordering of the
   * records with non-increasing keys that keeps the relative order of each
   * key's records is exactly what SortDescending returns.
   */
  lemma SortDescendingUnique(s: seq<Record>, r: seq<Record>)
    requires SortedDescending(r)
    requires forall k :: WithKey(r, k) == WithKey(s, k)
    ensures r == SortDescending(s)
  {
    SortDescendingSorted(s);
    forall k ensures WithKey(r, k) == WithKey(SortDescending(s), k) {
      SortDescendingStable(s, k);
    }
    SortedWithSameKeysEqual(r, SortDescending(s));
  }
}
