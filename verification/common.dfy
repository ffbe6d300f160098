/**
 * Collecting the unit groups of one coalition side and one category
 * (`get_groups`): the groups of every country that has the category,
 * concatenated in country order.
 */
module Common {
  import opened DcsData

  /** `mission['coalition'][side]['country']`; each missing key is a lookup error. */
  function CountriesOf(mission: MissionDict, side: string): (r: Result<Table<int, Country>>)
    ensures r.Ok? <==> mission.coalition.Some? && Lookup(mission.coalition.value, side).Some?
                       && Lookup(mission.coalition.value, side).value.country.Some?
    ensures r.Ok? ==> r.value == Lookup(mission.coalition.value, side).value.country.value
  {
    match mission.coalition
    case None => Err(MissingKey("coalition"))
    case Some(sides) =>
      match Lookup(sides, side)
      case None => Err(MissingKey(side))
      case Some(s) =>
        match s.country
        case None => Err(MissingKey("country"))
        case Some(countries) => Ok(countries)
  }

  /**
   * What one country adds: nothing when the category is absent or empty,
   * otherwise the values of its `group` table, which must then exist.
   */
  function Contribution(country: Country, category: string): Result<seq<Group>>
  {
    match Lookup(country.categories, category)
    case None => Ok([])
    case Some(cat) =>
      if !cat.Truthy() then Ok([])
      else match cat.group
        case None => Err(MissingKey("group"))
        case Some(groups) => Ok(Values(groups))
  }

  /** Whether a country's category entry is present and non-empty. */
  predicate HasCategory(country: Country, category: string)
  {
    var cat := Lookup(country.categories, category);
    cat.Some? && cat.value.Truthy()
  }

  /** The contributions of `countries`, concatenated in order; the first failure wins. */
  function Collect(countries: seq<Country>, category: string): Result<seq<Group>>
    decreases |countries|
  {
    if countries == [] then Ok([])
    else
      var first :- Contribution(countries[0], category);
      Prepend(first, Collect(countries[1..], category))
  }

  /** The specification of `get_groups`. */
  function GroupsOf(mission: MissionDict, side: string, category: string): Result<seq<Group>>
  {
    var countries :- CountriesOf(mission, side);
    Collect(Values(countries), category)
  }

  /** The number of groups the countries that have the category hold. */
  function GroupCount(countries: seq<Country>, category: string): nat
    decreases |countries|
  {
    if countries == [] then 0
    else
      var cat := Lookup(countries[0].categories, category);
      (if HasCategory(countries[0], category) && cat.value.group.Some?
       then |cat.value.group.value| else 0)
      + GroupCount(countries[1..], category)
  }

  /** `get_groups`: walks the countries in order, appending each contribution. */
  method GetGroups(mission: MissionDict, side: string, category: string) returns (r: Result<seq<Group>>)
    ensures r == GroupsOf(mission, side, category)
  {
    var table :- CountriesOf(mission, side);
    var countries := Values(table);
    var items: seq<Group> := [];
    var i := 0;
    assert countries[0..] == countries;
    while i < |countries|
      invariant 0 <= i <= |countries|
      invariant Collect(countries, category) == Prepend(items, Collect(countries[i..], category))
    {
      assert countries[i..][0] == countries[i] && countries[i..][1..] == countries[i + 1..];
      var cat := Lookup(countries[i].categories, category);
      if cat.Some? && cat.value.Truthy() {
        if cat.value.group.None? {
          assert Collect(countries[i..], category) == Err(MissingKey("group"));
          return Err(MissingKey("group"));
        }
        PrependTwice(items, Values(cat.value.group.value), Collect(countries[i + 1..], category));
        items := items + Values(cat.value.group.value);
      } else {
        PrependTwice(items, [], Collect(countries[i + 1..], category));
      }
      i := i + 1;
    }
    assert countries[i..] == [] && items + [] == items;
    r := Ok(items);
  }

  /** A country without the category, or with an empty entry for it, adds nothing. */
  lemma AbsentCategoryAddsNothing(country: Country, category: string)
    requires !HasCategory(country, category)
    ensures Contribution(country, category) == Ok([])
  {
  }

  /**
   * Concatenation: the groups collected from `a + b` are those collected
   * from `a` followed by those collected from `b`, and a failure in `a` wins.
   */
  lemma {:induction false} CollectAppend(a: seq<Country>, b: seq<Country>, category: string)
    ensures Collect(a + b, category) ==
      (match Collect(a, category)
       case Ok(ga) => Prepend(ga, Collect(b, category))
       case Err(e) => Err(e))
    decreases |a|
  {
    if a == [] {
      assert a + b == b;
    } else {
      assert (a + b)[0] == a[0];
      assert (a + b)[1..] == a[1..] + b;
      CollectAppend(a[1..], b, category);
      var c := Contribution(a[0], category);
      if c.Ok? && Collect(a[1..], category).Ok? {
        PrependTwice(c.value, Collect(a[1..], category).value, Collect(b, category));
      }
    }
  }

  /**
   * Collection fails exactly when some country has a non-empty category entry
   * without a `group` table.
   */
  lemma {:induction false} CollectFailsIff(countries: seq<Country>, category: string)
    ensures Collect(countries, category).Err? <==>
      exists i :: 0 <= i < |countries| && Contribution(countries[i], category).Err?
    decreases |countries|
  {
    if countries != [] {
      CollectFailsIff(countries[1..], category);
      var rest := countries[1..];
      if exists i :: 0 <= i < |rest| && Contribution(rest[i], category).Err? {
        var i :| 0 <= i < |rest| && Contribution(rest[i], category).Err?;
        assert countries[i + 1] == rest[i];
      }
      if exists i :: 0 <= i < |countries| && Contribution(countries[i], category).Err? {
        var i :| 0 <= i < |countries| && Contribution(countries[i], category).Err?;
        if i > 0 { assert rest[i - 1] == countries[i]; }
      }
    }
  }

  /**
   * The number of groups collected is the sum of the group counts of the
   * countries that have the category.
   */
  lemma {:induction false} CollectLength(countries: seq<Country>, category: string)
    requires Collect(countries, category).Ok?
    ensures |Collect(countries, category).value| == GroupCount(countries, category)
    decreases |countries|
  {
    if countries != [] {
      CollectLength(countries[1..], category);
    }
  }

  /**
   * Every collected group comes from a country that has the category, and
   * every group of such a country is collected.
   */
  lemma {:induction false} CollectMembers(countries: seq<Country>, category: string, g: Group)
    requires Collect(countries, category).Ok?
    ensures g in Collect(countries, category).value <==>
      exists i :: 0 <= i < |countries| && HasCategory(countries[i], category)
                  && Contribution(countries[i], category).Ok?
                  && g in Contribution(countries[i], category).value
    decreases |countries|
  {
    if countries != [] {
      var rest := countries[1..];
      CollectMembers(rest, category, g);
      if exists i :: 0 <= i < |rest| && HasCategory(rest[i], category)
                     && Contribution(rest[i], category).Ok? && g in Contribution(rest[i], category).value {
        var i :| 0 <= i < |rest| && HasCategory(rest[i], category)
                 && Contribution(rest[i], category).Ok? && g in Contribution(rest[i], category).value;
        assert countries[i + 1] == rest[i];
      }
      if exists i :: 0 <= i < |countries| && HasCategory(countries[i], category)
                     && Contribution(countries[i], category).Ok? && g in Contribution(countries[i], category).value {
        var i :| 0 <= i < |countries| && HasCategory(countries[i], category)
                 && Contribution(countries[i], category).Ok? && g in Contribution(countries[i], category).value;
        if i > 0 { assert rest[i - 1] == countries[i]; }
      }
    }
  }
}
