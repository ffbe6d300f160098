/**
 * The projection registry: each theater's parameters are the fixed defaults
 * overwritten by the theater's own entries, wrapped in a coordinate reference
 * system; the geographic WGS84 system is registered last under 'wgs84'.
 */
module Crs {

  /** A value of a projection parameter as it arrives from the JSON table. */
  datatype ParamValue = Text(text: string) | Number(number: real) | Flag(flag: bool)

  type Params = map<string, ParamValue>

  /**
   * A coordinate reference system. Building one is done by a geodesy library
   * outside this model, so it is kept as an opaque constructor over its input.
   */
  datatype CoordinateSystem = FromDict(params: Params) | Wgs84

  /** `crs_defaults`: transverse Mercator, metres, north-east-up axes, WGS84 ellipsoid. */
  const Defaults: Params := map[
    "proj" := Text("tmerc"),
    "vunits" := Text("m"),
    "units" := Text("m"),
    "axis" := Text("neu"),
    "ellps" := Text("WGS84")]

  /** The registry key of the geographic system. */
  const Wgs84Key: string := "wgs84"

  /**
   * `proj` is the defaults overridden by `theater`: it has the keys of both,
   * the theater's value wherever the theater has the key, and the default
   * value everywhere else.
   */
  predicate IsMergeOf(proj: Params, theater: Params)
  {
    && proj.Keys == Defaults.Keys + theater.Keys
    && (forall k :: k in theater ==> proj[k] == theater[k])
    && (forall k :: k in Defaults && k !in theater ==> proj[k] == Defaults[k])
  }

  /** The three clauses of IsMergeOf leave no freedom: at most one map satisfies them. */
  lemma MergeIsUnique(p: Params, q: Params, theater: Params)
    requires IsMergeOf(p, theater) && IsMergeOf(q, theater)
    ensures p == q
  {
    forall k | k in p ensures p[k] == q[k] {
      if k !in theater {
        assert k in Defaults;
      }
    }
  }

  /** A theater that does not set one of the five defaults gets the default value. */
  lemma MergeKeepsUnsetDefaults(proj: Params, theater: Params)
    requires IsMergeOf(proj, theater)
    ensures "proj" !in theater ==> proj["proj"] == Text("tmerc")
    ensures "units" !in theater ==> proj["units"] == Text("m")
    ensures "vunits" !in theater ==> proj["vunits"] == Text("m")
    ensures "axis" !in theater ==> proj["axis"] == Text("neu")
    ensures "ellps" !in theater ==> proj["ellps"] == Text("WGS84")
  {
    assert "proj" in Defaults && "units" in Defaults && "vunits" in Defaults;
    assert "axis" in Defaults && "ellps" in Defaults;
  }

  /** `proj = {}; proj.update(crs_defaults); proj.update(value)`. */
  method MergeParams(theater: Params) returns (proj: Params)
    ensures IsMergeOf(proj, theater)
  {
    proj := map[];
    proj := proj + Defaults;
    proj := proj + theater;
  }

  /**
   * The module-level loop of the registry: every theater of the table gets
   * the system built from its merged parameters, then 'wgs84' is written
   * last and so replaces a theater of that name.
   */
  method BuildRegistry(definitions: map<string, Params>) returns (crs: map<string, CoordinateSystem>)
    ensures crs.Keys == definitions.Keys + {Wgs84Key}
    ensures crs[Wgs84Key] == Wgs84
    ensures forall k :: k in definitions && k != Wgs84Key ==>
      crs[k].FromDict? && IsMergeOf(crs[k].params, definitions[k])
  {
    crs := map[];
    var remaining := definitions.Keys;
    while remaining != {}
      invariant remaining <= definitions.Keys
      invariant crs.Keys == definitions.Keys - remaining
      invariant forall k :: k in crs ==> crs[k].FromDict? && IsMergeOf(crs[k].params, definitions[k])
      decreases remaining
    {
      var key :| key in remaining;
      var proj := MergeParams(definitions[key]);
      crs := crs[key := FromDict(proj)];
      remaining := remaining - {key};
    }
    crs := crs[Wgs84Key := Wgs84];
  }
}
