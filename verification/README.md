# bronyflte ATO pipeline — a Dafny model

bronyflte reads a DCS mission and draws an Air Tasking Order (ATO) chart: one
horizontal bar per flight group of a coalition side, placed by the group's
route ETAs and coloured by its task. This project models the data side of
that pipeline and proves what it promises:

- `DcsData` (`dcs_data.dfy`): the parts of the mission descriptor the
  pipeline reads. Its Lua-derived dictionaries keep their iteration order, so
  each is a sequence of (key, value) pairs (`Table`). Python's lookup errors
  are values of a `Result` type.
- `Common` (`common.dfy`): `get_groups`, which collects the groups of one side
  and one category, country by country, in order.
- `Schedule` (`schedule.dfy`): `get_schedule` (one record per group: name
  prefix, task, airframe type, positive ETAs), the sort key
  `sort_flight_schedule`, and the stable descending sort that `generate_ato`
  applies.
- `Ato` (`ato.dfy`): the rest of `generate_ato` as data. Plane groups come
  before helicopter groups. Names are upper-cased for the y-axis. Each task
  gets one palette index. Each slot gets one bar (slot, left, width, colour,
  task). The legend is de-duplicated.
- `Crs` (`crs.dfy`): the projection-parameter merge (defaults overridden by a
  theater's entries) and the registry with `'wgs84'` written last.

Three behaviours of the code are worth stating plainly, because the model
keeps them as written:

- Bar width. `ato.py:105` passes the last ETA itself as the bar width, so a bar
  starts at the first ETA and ends at first + last. `Ato.BarFor` states the
  width the code draws.
- Airframe type. `ato.py:61` reads `units[1]`. The descriptor stores Lua
  arrays as dictionaries keyed from 1 (every other collection here is walked
  with `.items()`), so this is a lookup of key 1 in the unit table: the lead
  unit of a dictionary keyed from 1, the second unit of a Python list. A group
  without key 1 raises a lookup error.
- Colours. `ato.py:96-98` zips an unordered set of tasks with the palette, so
  which task gets which colour follows set iteration order.
  `Ato.AssignColours` picks tasks in an unspecified order and promises only
  what holds for every order.

Mission data is only ever read: every descriptor value is an immutable Dafny
datatype and no modelled member has a `modifies` clause. The same holds for the
group list given to `get_schedule` and for `crs_defaults`, which is a constant.

## Model

| member | source | states |
|---|---|---|
| `DcsData.Lookup` | bronyflte/common.py:29 | `dict.get`: a value is found exactly when some entry has the key, and the value found is stored under that key |
| `Common.CountriesOf` | bronyflte/common.py:24 | `mission['coalition'][side]['country']` succeeds exactly when all three keys are present; a missing one is an error, not an empty result |
| `Common.GetGroups` | bronyflte/common.py:24-34 | the loop returns exactly the specification `GroupsOf`: the contributions of the countries, concatenated in country order, or the first lookup error |
| `Common.AbsentCategoryAddsNothing` | bronyflte/common.py:29-31 | a country whose category entry is absent or empty contributes no groups |
| `Common.CollectAppend` | bronyflte/common.py:26-32 | collecting over `a + b` gives the groups of `a` followed by those of `b` (order preserved), and a failure in `a` wins |
| `Common.CollectFailsIff` | bronyflte/common.py:29-32 | collection fails exactly when some country has a non-empty category entry without a `group` table |
| `Common.CollectLength` | bronyflte/common.py:27-32 | the number of collected groups is the sum of the group counts of the countries that have the category |
| `Common.CollectMembers` | bronyflte/common.py:27-32 | a group is collected exactly when it belongs to the group table of a country that has the category |
| `Schedule.NamePrefix` | bronyflte/ato.py:55 | the result is a prefix of the name, contains no `\|`, and is either the whole name or followed by a `\|` in it |
| `Schedule.NamePrefixUnique` | bronyflte/ato.py:55 | those three properties determine the prefix: any string that has them is `NamePrefix` |
| `Schedule.PositiveEtas` | bronyflte/ato.py:56 | every kept ETA is strictly positive and none is invented (no more ETAs than route points) |
| `Schedule.PositiveEtasAppend` | bronyflte/ato.py:56 | filtering keeps route order: the ETAs kept from `a + b` are those of `a` followed by those of `b` |
| `Schedule.PositiveEtasKeepsPositive` | bronyflte/ato.py:56 | a route whose ETAs are all positive keeps all of them, in order |
| `Schedule.PositiveEtasCounts` | bronyflte/ato.py:56 | each positive ETA is kept exactly as often as it occurs; zero and negative ETAs never appear |
| `Schedule.ExtractRecord` | bronyflte/ato.py:55-63 | a record exists exactly when the group has a unit under key 1, otherwise the error names that key; the record's name is the text before the first `\|` of the group name plus one space, its task is the group's task, its type is the type of the unit under key 1, and its waypoints are exactly the positive ETAs in route order |
| `Schedule.GetSchedule` | bronyflte/ato.py:52-67 | the loop returns exactly the specification `ScheduleOf` |
| `Schedule.ScheduleOfShape` | bronyflte/ato.py:52-67 | extraction succeeds exactly when every group has a unit under key 1, and then yields one record per group, the i-th record being that of the i-th group |
| `Schedule.SortKey` | bronyflte/ato.py:27-32 | the key is the first waypoint when there is one and 0 when there is none; for an extracted record it is non-negative and is 0 exactly when the waypoint list is empty |
| `Schedule.SortDescendingSorted` | bronyflte/ato.py:91 | after the sort the keys never increase along the schedule |
| `Schedule.SortDescendingPermutes` | bronyflte/ato.py:91 | the sorted schedule is a permutation of the extracted one |
| `Schedule.SortDescendingStable` | bronyflte/ato.py:91 | the sort is stable: for every key, the records with that key keep their relative order |
| `Schedule.SortedWithSameKeysEqual` | bronyflte/ato.py:91 | two key-descending sequences that agree on the ordered records of every key are equal |
| `Schedule.SortDescendingUnique` | bronyflte/ato.py:91 | the stable descending order is unique: any ordering that is key-descending and stable is the one the sort returns |
| `Ato.FlightsOf` | bronyflte/ato.py:87-88 | the flight list is all plane groups followed by all helicopter groups, and fails if either collection fails |
| `Ato.Upper` | bronyflte/ato.py:95 | upper-casing keeps the length, changes lower-case ASCII letters into their capitals, leaves every other character alone and leaves no lower-case letter |
| `Ato.AssignColours` | bronyflte/ato.py:96-98 | every coloured task is one of the tasks; with at most 256 tasks every task is coloured; distinct tasks get distinct palette indices, all within the palette slice |
| `Ato.BarFor` | bronyflte/ato.py:104-108 | a bar starts at the record's sort key; its width is the last ETA when there are waypoints and 10800 otherwise; slot, colour and task are carried over |
| `Ato.EmitBars` | bronyflte/ato.py:100-108 | the loop succeeds exactly when every task has a colour; the error names the task of the first record without one; otherwise the i-th bar is the bar of the i-th record at slot i |
| `Ato.ColoursCoverIff` | bronyflte/ato.py:96-108 | every record's task has a colour exactly when there are at most as many distinct tasks as palette entries |
| `Ato.BarStartsDescend` | bronyflte/ato.py:100-105 | bars drawn from the sorted schedule have non-increasing starts by slot |
| `Ato.LegendOfSpec` | bronyflte/ato.py:122-124 | the legend has one entry per distinct label and covers every label; entries follow the labels' first appearance; each entry shows the handle of the last bar with that label |
| `Ato.GenerateAto` | bronyflte/ato.py:87-124 | the chart exists exactly when collection and extraction succeed and there are at most 256 tasks; a lookup error passes through; the chart has one bar and one upper-cased y-label per sorted record, an injective colour table over exactly the tasks, non-increasing bar starts and the de-duplicated legend |
| `Crs.MergeParams` | bronyflte/crs.py:22-24 | the merged map has the keys of the defaults and of the theater; the theater's value wins wherever it has the key; the default value holds elsewhere |
| `Crs.MergeIsUnique` | bronyflte/crs.py:22-24 | those clauses determine the merged map completely |
| `Crs.MergeKeepsUnsetDefaults` | bronyflte/crs.py:7-13 | a theater that does not set `proj`, `units`, `vunits`, `axis` or `ellps` gets `tmerc`, `m`, `m`, `neu`, `WGS84` |
| `Crs.BuildRegistry` | bronyflte/crs.py:19-28 | the registry has one entry per theater plus `wgs84`; each theater other than `wgs84` maps to the system built from its merged parameters; `wgs84` maps to the geographic system, replacing any theater of that name |

## Left out

- Drawing: the figure, the `barh` rendering, the axis ticks and their rotation, `savefig` and `show` are presentation and I/O. Bars, labels, colours and the legend are modelled as data only.
- The x-axis: `np.linspace` tick positions and `strftime` labels from the mission start time involve floating point and date formatting.
- Colour values: the actual `glasbey_cool` colours are foreign data, so a colour is its palette index. The palette is taken to hold 256 entries. Which task gets which colour depends on set iteration order, so no member states it.
- Legend filtering: matplotlib leaves labels that begin with `_` out of the legend. `Ato.LegendOf` keeps every task label.
- Mission loading: `dcs.Mission.load_file`, `mission.dict()` and the command-line entry point belong to a foreign library and the CLI. The mission dictionary is a parameter.
- `bronyflte/core.py` is not part of this model. Its `Mission.load` is zip and Lua-table I/O with date arithmetic, `Mission.save` is empty, and the constructors only store fields.
- `crs.py` I/O and geodesy: reading `theater_crs.json`, `CRS.from_dict` and `CRS('WGS84')` are file I/O and a foreign library. A coordinate system is an opaque constructor over its parameter map. Errors that `from_dict` would raise for bad parameters are not modelled.
- Registry order: the theater table is a `map`, so the order of the registry loop is not modelled. The resulting registry does not depend on it.
- ETAs are integers. DCS stores them as numbers that may be fractional.
- Group records always carry `name`, `task`, `units` and `route.points`, and each point carries `ETA`. A record without one of these raises `KeyError` in the source, and the model cannot express such a record.
- Upper-casing covers ASCII letters only. Python's full Unicode case mapping is not modelled.
- The in-place `list.sort` on the local schedule becomes a rebinding to a sorted copy. The list is local, so nothing else can observe the difference. Timsort itself is not modelled. `Schedule.SortDescendingUnique` proves that the modelled sort returns the only stable descending order, so the result is the same.
- Dictionary keys are assumed distinct, as in a Python dict. With duplicate keys a lookup would take the first entry.
