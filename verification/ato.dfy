/**
 * The data behind the Air Tasking Order chart (`generate_ato`): the flight
 * list, the sorted schedule, the task colour table, one bar per flight, the
 * y-axis labels and the de-duplicated legend. Drawing itself is not modelled.
 */
module Ato {
  import opened DcsData
  import opened Common
  import opened Schedule

  /** The number of colours in the `glasbey_cool` palette that task colours are taken from. */
  const PaletteSize: nat := 256

  /** The bar width of a flight without waypoints: the whole three-hour chart window. */
  const FullWindow: int := 10800

  /** One `barh` call: vertical slot, start, width, palette index and legend label (the task). */
  datatype Bar = Bar(slot: nat, left: int, width: int, colour: nat, task: string)

  /** A legend entry: a label and the index of the bar whose handle it shows. */
  datatype LegendEntry = LegendEntry(text: string, handle: nat)

  /** Everything the chart shows, as data. */
  datatype Chart = Chart(
    bars: seq<Bar>,
    yLabels: seq<string>,
    colours: map<string, nat>,
    legend: seq<LegendEntry>)

  /** The plane groups of a side followed by its helicopter groups. */
  function FlightsOf(mission: MissionDict, side: string): (r: Result<seq<Group>>)
    ensures r.Ok? <==> GroupsOf(mission, side, "plane").Ok? && GroupsOf(mission, side, "helicopter").Ok?
    ensures r.Ok? ==>
      var planes := GroupsOf(mission, side, "plane").value;
      && |r.value| == |planes| + |GroupsOf(mission, side, "helicopter").value|
      && r.value[..|planes|] == planes
      && r.value[|planes|..] == GroupsOf(mission, side, "helicopter").value
  {
    var planes :- GroupsOf(mission, side, "plane");
    var helicopters :- GroupsOf(mission, side, "helicopter");
    Ok(planes + helicopters)
  }

  /** The extracted schedule, sorted by descending start. */
  function SortedScheduleOf(mission: MissionDict, side: string): Result<seq<Record>>
  {
    var flights :- FlightsOf(mission, side);
    var schedule :- ScheduleOf(flights);
    Ok(SortDescending(schedule))
  }

  /** `str.upper()` on one character (ASCII letters only). */
  function UpperChar(c: char): char
  {
    if 'a' <= c <= 'z' then (c as int - 32) as char else c
  }

  /** `str.upper()`: every lower-case ASCII letter becomes upper case, nothing else changes. */
  function Upper(s: string): (r: string)
    ensures |r| == |s|
    ensures forall i :: 0 <= i < |s| ==> !('a' <= r[i] <= 'z')
    ensures forall i :: 0 <= i < |s| ==>
      if 'a' <= s[i] <= 'z' then r[i] as int == s[i] as int - 32 else r[i] == s[i]
  {
    seq(|s|, i requires 0 <= i < |s| => UpperChar(s[i]))
  }

  /** The distinct tasks of a schedule (`{x['task'] for x in schedule}`). */
  function TasksOf(schedule: seq<Record>): set<string>
  {
    set x | x in schedule :: x.task
  }

  /** No two tasks share a colour. */
  predicate Injective(codes: map<string, nat>)
  {
    forall t, u :: t in codes && u in codes && t != u ==> codes[t] != codes[u]
  }

  /**
   * `dict(zip(tasks, glasbey_cool[:len(tasks)]))`: the tasks are taken in the
   * set's own (unspecified) order and paired with successive palette entries
   * until either runs out. The palette entry is given by its index.
   */
  method AssignColours(tasks: set<string>) returns (codes: map<string, nat>)
    ensures codes.Keys <= tasks
    ensures |tasks| <= PaletteSize ==> codes.Keys == tasks
    ensures |codes.Keys| == if |tasks| <= PaletteSize then |tasks| else PaletteSize
    ensures forall t :: t in codes ==> codes[t] < |codes.Keys|
    ensures Injective(codes)
  {
    codes := map[];
    var remaining := tasks;
    var n := 0;
    while remaining != {} && n < PaletteSize
      invariant remaining <= tasks
      invariant codes.Keys == tasks - remaining
      invariant |codes.Keys| == n <= PaletteSize
      invariant |remaining| == |tasks| - n
      invariant forall t :: t in codes ==> codes[t] < n
      invariant Injective(codes)
      decreases remaining
    {
      var t :| t in remaining;
      assert codes[t := n].Keys == codes.Keys + {t};
      codes := codes[t := n];
      remaining := remaining - {t};
      n := n + 1;
    }
  }

  /**
   * The bar of the record at `slot`: with waypoints it starts at the first
   * and its width is the LAST ETA itself; without, it starts at 0 and spans
   * the whole window.
   */
  function BarFor(slot: nat, rec: Record, colour: nat): (b: Bar)
    ensures b.slot == slot && b.colour == colour && b.task == rec.task
    ensures b.left == SortKey(rec)
    ensures b.width == if rec.waypoints == [] then FullWindow else rec.waypoints[|rec.waypoints| - 1]
  {
    if rec.waypoints != [] then
      Bar(slot, rec.waypoints[0], rec.waypoints[|rec.waypoints| - 1], colour, rec.task)
    else
      Bar(slot, 0, FullWindow, colour, rec.task)
  }

  /**
   * The `for i, flight in enumerate(schedule)` loop: one bar per record, in
   * slot order. A task without a colour is a lookup error at its first record.
   */
  method EmitBars(schedule: seq<Record>, codes: map<string, nat>) returns (r: Result<seq<Bar>>)
    ensures r.Ok? <==> forall i :: 0 <= i < |schedule| ==> schedule[i].task in codes
    ensures r.Err? ==> exists i :: 0 <= i < |schedule| && schedule[i].task !in codes
                                   && r.error == MissingKey(schedule[i].task)
                                   && forall j :: 0 <= j < i ==> schedule[j].task in codes
    ensures r.Ok? ==> |r.value| == |schedule|
    ensures r.Ok? ==>
      forall i :: 0 <= i < |schedule| ==> r.value[i] == BarFor(i, schedule[i], codes[schedule[i].task])
  {
    var bars: seq<Bar> := [];
    var i := 0;
    while i < |schedule|
      invariant 0 <= i <= |schedule|
      invariant forall j :: 0 <= j < i ==> schedule[j].task in codes
      invariant |bars| == i
      invariant forall j :: 0 <= j < i ==> bars[j] == BarFor(j, schedule[j], codes[schedule[j].task])
    {
      var flight := schedule[i];
      var task := flight.task;
      if task !in codes {
        return Err(MissingKey(task));
      }
      var bar;
      if flight.waypoints != [] {
        bar := Bar(i, flight.waypoints[0], flight.waypoints[|flight.waypoints| - 1], codes[task], task);
      } else {
        bar := Bar(i, 0, FullWindow, codes[task], task);
      }
      bars := bars + [bar];
      i := i + 1;
    }
    r := Ok(bars);
  }

  /** The labels of the bars, in the order the bars were drawn. */
  function Labels(bars: seq<Bar>): (labels: seq<string>)
    ensures |labels| == |bars|
    ensures forall i :: 0 <= i < |bars| ==> labels[i] == bars[i].task
  {
    seq(|bars|, i requires 0 <= i < |bars| => bars[i].task)
  }

  predicate HasLabel(d: seq<LegendEntry>, key: string)
  {
    exists j :: 0 <= j < |d| && d[j].text == key
  }

  /** The position of `key` in a legend that has it. */
  function IndexOf(d: seq<LegendEntry>, key: string): (i: nat)
    requires HasLabel(d, key)
    ensures i < |d| && d[i].text == key
    decreases |d|
  {
    if d[0].text == key then 0
    else
      var j :| 0 <= j < |d| && d[j].text == key;
      assert d[1..][j - 1].text == key;
      1 + IndexOf(d[1..], key)
  }

  /** `d[key] = handle` on an insertion-ordered dict. */
  function Put(d: seq<LegendEntry>, key: string, handle: nat): seq<LegendEntry>
  {
    if HasLabel(d, key) then d[IndexOf(d, key) := LegendEntry(key, handle)]
    else d + [LegendEntry(key, handle)]
  }

  /** `dict(zip(labels, handles))`, where the handle of a label is the index of its bar. */
  function LegendOf(labels: seq<string>): seq<LegendEntry>
    decreases |labels|
  {
    if labels == [] then []
    else
      var n := |labels| - 1;
      Put(LegendOf(labels[..n]), labels[n], n)
  }

  predicate DistinctLabels(d: seq<LegendEntry>)
  {
    forall p, q :: 0 <= p < q < |d| ==> d[p].text != d[q].text
  }

  /** Each entry shows the handle of the LAST bar carrying its label. */
  predicate LastHandles(d: seq<LegendEntry>, labels: seq<string>)
  {
    && (forall p :: 0 <= p < |d| ==> d[p].handle < |labels| && labels[d[p].handle] == d[p].text)
    && (forall p, j :: 0 <= p < |d| && d[p].handle < j < |labels| ==> labels[j] != d[p].text)
  }

  /** Every label has an entry. */
  predicate CoversLabels(d: seq<LegendEntry>, labels: seq<string>)
  {
    forall j :: 0 <= j < |labels| ==> HasLabel(d, labels[j])
  }

  predicate OccursBefore(labels: seq<string>, key: string, j: int)
  {
    exists i :: 0 <= i < j && i < |labels| && labels[i] == key
  }

  /** Entries are ordered by the first appearance of their labels. */
  predicate FirstSeenOrder(d: seq<LegendEntry>, labels: seq<string>)
  {
    forall p, q, j :: 0 <= p < q < |d| && 0 <= j < |labels| && labels[j] == d[q].text
      ==> OccursBefore(labels, d[p].text, j)
  }

  // Overwriting the entry of an existing label (`d[x] = n` when `x` is a key).

  lemma PutExistingDistinct(d: seq<LegendEntry>, x: string, p0: nat, n: nat)
    requires DistinctLabels(d) && p0 < |d| && d[p0].text == x
    ensures DistinctLabels(d[p0 := LegendEntry(x, n)])
  {
    var d' := d[p0 := LegendEntry(x, n)];
    assert forall p :: 0 <= p < |d| ==> d'[p].text == d[p].text;
  }

  lemma PutExistingLast(d: seq<LegendEntry>, labels: seq<string>, x: string, p0: nat)
    requires DistinctLabels(d) && LastHandles(d, labels) && p0 < |d| && d[p0].text == x
    ensures LastHandles(d[p0 := LegendEntry(x, |labels|)], labels + [x])
  {
    var n := |labels|;
    var d', labels' := d[p0 := LegendEntry(x, n)], labels + [x];
    forall p | 0 <= p < |d'|
      ensures d'[p].handle < |labels'| && labels'[d'[p].handle] == d'[p].text
    {
      if p != p0 {
        assert d'[p] == d[p] && labels'[d[p].handle] == labels[d[p].handle];
      }
    }
    forall p, j | 0 <= p < |d'| && d'[p].handle < j < |labels'|
      ensures labels'[j] != d'[p].text
    {
      assert p != p0;
      assert d'[p] == d[p];
      if j < n {
        assert labels'[j] == labels[j];
      } else {
        assert d[p].text != d[p0].text;
      }
    }
  }

  lemma PutExistingCovers(d: seq<LegendEntry>, labels: seq<string>, x: string, p0: nat)
    requires CoversLabels(d, labels) && p0 < |d| && d[p0].text == x
    ensures CoversLabels(d[p0 := LegendEntry(x, |labels|)], labels + [x])
  {
    var n := |labels|;
    var d', labels' := d[p0 := LegendEntry(x, n)], labels + [x];
    forall j | 0 <= j < |labels'| ensures HasLabel(d', labels'[j]) {
      if j < n {
        assert HasLabel(d, labels[j]);
        var p :| 0 <= p < |d| && d[p].text == labels[j];
        assert d'[p].text == labels'[j];
      } else {
        assert d'[p0].text == labels'[j];
      }
    }
  }

  lemma PutExistingOrder(d: seq<LegendEntry>, labels: seq<string>, x: string, p0: nat)
    requires DistinctLabels(d) && LastHandles(d, labels) && FirstSeenOrder(d, labels)
    requires p0 < |d| && d[p0].text == x
    ensures FirstSeenOrder(d[p0 := LegendEntry(x, |labels|)], labels + [x])
  {
    var n := |labels|;
    var d', labels' := d[p0 := LegendEntry(x, n)], labels + [x];
    forall p, q, j | 0 <= p < q < |d'| && 0 <= j < |labels'| && labels'[j] == d'[q].text
      ensures OccursBefore(labels', d'[p].text, j)
    {
      assert d'[p].text == d[p].text && d'[q].text == d[q].text;
      if j < n {
        assert labels'[j] == labels[j];
        assert OccursBefore(labels, d[p].text, j);
        var i :| 0 <= i < j && i < |labels| && labels[i] == d[p].text;
        assert labels'[i] == labels[i];
      } else {
        assert q == p0;
        var h := d[p].handle;
        assert h < n && labels'[h] == labels[h] == d[p].text;
      }
    }
  }

  // Appending the entry of a new label (`d[x] = n` when `x` is not a key).

  lemma PutNewDistinct(d: seq<LegendEntry>, x: string, n: nat)
    requires DistinctLabels(d) && !HasLabel(d, x)
    ensures DistinctLabels(d + [LegendEntry(x, n)])
  {
  }

  lemma PutNewLast(d: seq<LegendEntry>, labels: seq<string>, x: string)
    requires LastHandles(d, labels) && !HasLabel(d, x)
    ensures LastHandles(d + [LegendEntry(x, |labels|)], labels + [x])
  {
    var n := |labels|;
    var d', labels' := d + [LegendEntry(x, n)], labels + [x];
    forall p | 0 <= p < |d'|
      ensures d'[p].handle < |labels'| && labels'[d'[p].handle] == d'[p].text
    {
      if p < |d| {
        assert d'[p] == d[p] && labels'[d[p].handle] == labels[d[p].handle];
      }
    }
    forall p, j | 0 <= p < |d'| && d'[p].handle < j < |labels'|
      ensures labels'[j] != d'[p].text
    {
      assert p < |d| && d'[p] == d[p];
      if j < n {
        assert labels'[j] == labels[j];
      }
    }
  }

  lemma PutNewCovers(d: seq<LegendEntry>, labels: seq<string>, x: string)
    requires CoversLabels(d, labels)
    ensures CoversLabels(d + [LegendEntry(x, |labels|)], labels + [x])
  {
    var n := |labels|;
    var d', labels' := d + [LegendEntry(x, n)], labels + [x];
    forall j | 0 <= j < |labels'| ensures HasLabel(d', labels'[j]) {
      if j < n {
        assert HasLabel(d, labels[j]);
        var p :| 0 <= p < |d| && d[p].text == labels[j];
        assert d'[p].text == labels'[j];
      } else {
        assert d'[|d|].text == labels'[j];
      }
    }
  }

  lemma PutNewOrder(d: seq<LegendEntry>, labels: seq<string>, x: string)
    requires LastHandles(d, labels) && CoversLabels(d, labels) && FirstSeenOrder(d, labels)
    requires !HasLabel(d, x)
    ensures FirstSeenOrder(d + [LegendEntry(x, |labels|)], labels + [x])
  {
    var n := |labels|;
    var d', labels' := d + [LegendEntry(x, n)], labels + [x];
    forall p, q, j | 0 <= p < q < |d'| && 0 <= j < |labels'| && labels'[j] == d'[q].text
      ensures OccursBefore(labels', d'[p].text, j)
    {
      assert p < |d| && d'[p] == d[p];
      if q < |d| {
        assert d'[q] == d[q];
        assert j < n;
        assert labels'[j] == labels[j];
        assert OccursBefore(labels, d[p].text, j);
        var i :| 0 <= i < j && i < |labels| && labels[i] == d[p].text;
        assert labels'[i] == labels[i];
      } else {
        assert j == n;
        var h := d[p].handle;
        assert h < n && labels'[h] == labels[h] == d[p].text;
      }
    }
  }

  /**
   * The legend has one entry per distinct label, in order of first
   * appearance, each showing the handle of the last bar with that label.
   */
  lemma {:induction false} LegendOfSpec(labels: seq<string>)
    ensures DistinctLabels(LegendOf(labels))
    ensures LastHandles(LegendOf(labels), labels)
    ensures CoversLabels(LegendOf(labels), labels)
    ensures FirstSeenOrder(LegendOf(labels), labels)
    decreases |labels|
  {
    if labels != [] {
      var n := |labels| - 1;
      var prefix, x := labels[..n], labels[n];
      assert labels == prefix + [x];
      var d := LegendOf(prefix);
      LegendOfSpec(prefix);
      if HasLabel(d, x) {
        var p0 := IndexOf(d, x);
        PutExistingDistinct(d, x, p0, n);
        PutExistingLast(d, prefix, x, p0);
        PutExistingCovers(d, prefix, x, p0);
        PutExistingOrder(d, prefix, x, p0);
      } else {
        PutNewDistinct(d, x, n);
        PutNewLast(d, prefix, x);
        PutNewCovers(d, prefix, x);
        PutNewOrder(d, prefix, x);
      }
    }
  }

  /**
   * The palette covers every task of the schedule exactly when there are no
   * more distinct tasks than palette entries.
   */
  lemma ColoursCoverIff(schedule: seq<Record>, codes: map<string, nat>)
    requires codes.Keys <= TasksOf(schedule)
    requires |TasksOf(schedule)| <= PaletteSize ==> codes.Keys == TasksOf(schedule)
    requires |codes.Keys| == if |TasksOf(schedule)| <= PaletteSize then |TasksOf(schedule)| else PaletteSize
    ensures (forall i :: 0 <= i < |schedule| ==> schedule[i].task in codes)
            <==> |TasksOf(schedule)| <= PaletteSize
  {
    var tasks := TasksOf(schedule);
    if |tasks| > PaletteSize {
      assert tasks == (tasks - codes.Keys) + codes.Keys;
      assert |tasks - codes.Keys| > 0;
      var t :| t in tasks - codes.Keys;
      var x :| x in schedule && x.task == t;
      var i :| 0 <= i < |schedule| && schedule[i] == x;
    } else {
      forall i | 0 <= i < |schedule| ensures schedule[i].task in codes {
        assert schedule[i] in schedule;
      }
    }
  }

  /** Bars drawn from a schedule sorted by descending start have non-increasing starts. */
  lemma BarStartsDescend(schedule: seq<Record>, bars: seq<Bar>, codes: map<string, nat>)
    requires SortedDescending(schedule) && |bars| == |schedule|
    requires forall i :: 0 <= i < |schedule| ==> schedule[i].task in codes
    requires forall i :: 0 <= i < |schedule| ==> bars[i] == BarFor(i, schedule[i], codes[schedule[i].task])
    ensures forall i, j :: 0 <= i < j < |bars| ==> bars[i].left >= bars[j].left
  {
    forall i, j | 0 <= i < j < |bars| ensures bars[i].left >= bars[j].left {
      assert bars[i].left == SortKey(schedule[i]) && bars[j].left == SortKey(schedule[j]);
    }
  }

  /** What the chart of a sorted schedule `s` shows. */
  predicate ChartOf(c: Chart, s: seq<Record>)
  {
    && |c.bars| == |s| == |c.yLabels|
    && (forall i :: 0 <= i < |s| ==> c.yLabels[i] == Upper(s[i].name))
    && c.colours.Keys == TasksOf(s)
    && Injective(c.colours)
    && (forall t :: t in c.colours ==> c.colours[t] < |TasksOf(s)|)
    && (forall i :: 0 <= i < |s| ==> c.bars[i] == BarFor(i, s[i], c.colours[s[i].task]))
    && (forall i, j :: 0 <= i < j < |s| ==> c.bars[i].left >= c.bars[j].left)
    && c.legend == LegendOf(Labels(c.bars))
  }

  /**
   * `generate_ato`: collects plane then helicopter groups, extracts and sorts
   * the schedule, upper-cases the names, colours the tasks, emits one bar per
   * flight and builds the legend. It fails when the descriptor lacks a key
   * or a group lacks its unit, and when there are more tasks than colours.
   */
  method GenerateAto(mission: MissionDict, side: string) returns (r: Result<Chart>)
    ensures r.Ok? <==> SortedScheduleOf(mission, side).Ok?
                       && |TasksOf(SortedScheduleOf(mission, side).value)| <= PaletteSize
    ensures SortedScheduleOf(mission, side).Err? ==> r == Err(SortedScheduleOf(mission, side).error)
    ensures r.Ok? ==> ChartOf(r.value, SortedScheduleOf(mission, side).value)
  {
    var flights :- GetGroups(mission, side, "plane");
    var helicopters :- GetGroups(mission, side, "helicopter");
    flights := flights + helicopters;
    assert FlightsOf(mission, side) == Ok(flights);

    var schedule :- GetSchedule(flights);
    schedule := SortDescending(schedule);
    assert SortedScheduleOf(mission, side) == Ok(schedule);
    SortDescendingSorted(ScheduleOf(flights).value);

    var names := seq(|schedule|, i requires 0 <= i < |schedule| => Upper(schedule[i].name));
    var tasks := TasksOf(schedule);
    var codes := AssignColours(tasks);
    ColoursCoverIff(schedule, codes);

    var bars :- EmitBars(schedule, codes);
    BarStartsDescend(schedule, bars, codes);
    var legend := LegendOf(Labels(bars));
    r := Ok(Chart(bars, names, codes, legend));
  }
}
