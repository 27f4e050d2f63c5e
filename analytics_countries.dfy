/**
 * The per-country rollup of pages/analytics_countries.py: the rows are
 * grouped by their country, each group is summarised (tier counts,
 * restaurant count, first population, price total), and the summary rows
 * are sorted by the column the "Sort by" radio group selects.
 */
module AnalyticsCountries {
  import opened Common
  import opened Sequences
  import opened Grouping
  import opened App

  /** The columns the radio group offers to sort by. */
  datatype SortKey = Stars3Sum | RestaurantsCount | Population

  /** The radio group's options as (value, label) pairs, and its initial value. */
  const SortOptions: seq<(string, string)> :=
    [("stars_3_sum", "Stars"), ("restaurants_count", "Restaurants"), ("population", "Population")]
  const DefaultSortBy := "stars_3_sum"

  /** One row of the summary table. `mean_price` is kept as its sum and count. */
  datatype CountryRow = CountryRow(
    country: string,
    stars3Sum: nat,
    stars2Sum: nat,
    stars1Sum: nat,
    bibSum: nat,
    selectedSum: nat,
    restaurantsCount: nat,
    population: Option<nat>,
    priceSum: nat,
    priceCount: nat)

  // ---------------------------------------------------------------- sort key

  function ColumnName(key: SortKey): string
  {
    match key
    case Stars3Sum => "stars_3_sum"
    case RestaurantsCount => "restaurants_count"
    case Population => "population"
  }

  /** The sort column a radio value names; `None` for a value that is not an option. */
  function ParseSortBy(value: string): (key: Option<SortKey>)
    ensures key.Some? <==> exists i :: 0 <= i < |SortOptions| && SortOptions[i].0 == value
    ensures key.Some? ==> ColumnName(key.value) == value
  {
    if value == "stars_3_sum" then assert SortOptions[0].0 == value; Some(Stars3Sum)
    else if value == "restaurants_count" then assert SortOptions[1].0 == value; Some(RestaurantsCount)
    else if value == "population" then assert SortOptions[2].0 == value; Some(Population)
    else None
  }

  /** Every option names its column, and the initial value sorts by three-star count. */
  lemma SortOptionsRoundTrip(key: SortKey)
    ensures ParseSortBy(ColumnName(key)) == Some(key)
    ensures ParseSortBy(DefaultSortBy) == Some(Stars3Sum)
  {
  }

  /**
   * The value a row is sorted by. A missing population sorts after every
   * present one, as `sort_values` puts missing values last.
   */
  function SortValue(key: SortKey, row: CountryRow): (v: int)
    ensures v >= -1
    ensures key == Population ==> (v == -1 <==> row.population.None?)
  {
    match key
    case Stars3Sum => row.stars3Sum
    case RestaurantsCount => row.restaurantsCount
    case Population => if row.population.Some? then row.population.value else -1
  }

  // ---------------------------------------------------------------- aggregations

  /** `len(x[x == tier])`: the rows whose Award is exactly `tier`. */
  function CountAward(rows: seq<Restaurant>, tier: string): (n: nat)
    ensures n <= |rows|
    decreases |rows|
  {
    if |rows| == 0 then 0
    else (if rows[0].award == Some(tier) then 1 else 0) + CountAward(rows[1..], tier)
  }

  /** A tier count is 0 exactly when no row has that Award. */
  lemma {:induction false} CountAwardZero(rows: seq<Restaurant>, tier: string)
    ensures CountAward(rows, tier) == 0 <==> forall r :: r in rows ==> r.award != Some(tier)
    decreases |rows|
  {
    if |rows| > 0 {
      CountAwardZero(rows[1..], tier);
      assert forall r :: r in rows ==> r == rows[0] || r in rows[1..];
      assert rows[0] in rows;
      assert forall r :: r in rows[1..] ==> r in rows;
    }
  }

  function HasName(r: Restaurant): bool
  {
    r.name.Some?
  }

  /** `('population', 'first')`: the first present population, in row order. */
  function FirstPopulation(rows: seq<Restaurant>): (p: Option<nat>)
    ensures p.None? <==> forall i :: 0 <= i < |rows| ==> rows[i].population.None?
    ensures p.Some? ==> exists i :: 0 <= i < |rows| && rows[i].population == p
                                  && forall j :: 0 <= j < i ==> rows[j].population.None?
    decreases |rows|, 1
  {
    if |rows| == 0 then None
    else if rows[0].population.Some? then rows[0].population
    else
      FirstPopulationShift(rows);
      FirstPopulation(rows[1..])
  }

  lemma FirstPopulationShift(rows: seq<Restaurant>)
    requires |rows| > 0 && rows[0].population.None?
    ensures FirstPopulation(rows[1..]).Some? ==>
              exists i :: 0 <= i < |rows| && rows[i].population == FirstPopulation(rows[1..])
                          && forall j :: 0 <= j < i ==> rows[j].population.None?
    decreases |rows|, 0
  {
    var p := FirstPopulation(rows[1..]);
    if p.Some? {
      var i :| 0 <= i < |rows[1..]| && rows[1..][i].population == p
               && forall j :: 0 <= j < i ==> rows[1..][j].population.None?;
      assert rows[i + 1].population == p;
      assert forall j :: 1 <= j < i + 1 ==> rows[j] == rows[1..][j - 1];
    }
  }

  function PriceTotal(rows: seq<Restaurant>): nat
    decreases |rows|
  {
    if |rows| == 0 then 0 else rows[0].price + PriceTotal(rows[1..])
  }

  /** The summary of one country's rows. */
  function Aggregate(country: string, rows: seq<Restaurant>): CountryRow
  {
    CountryRow(
      country := country,
      stars3Sum := CountAward(rows, ThreeStars),
      stars2Sum := CountAward(rows, TwoStars),
      stars1Sum := CountAward(rows, OneStar),
      bibSum := CountAward(rows, BibGourmand),
      selectedSum := CountAward(rows, SelectedRestaurants),
      restaurantsCount := Count(rows, HasName),
      population := FirstPopulation(rows),
      priceSum := PriceTotal(rows),
      priceCount := |rows|)
  }

  /** The rows of one country, in dataset order. */
  function CountryRecords(df: seq<Restaurant>, country: string): seq<Restaurant>
  {
    Select(df, CountryOf, country)
  }

  /** `groupby('country').agg(...)`: one summary per country group. */
  function Rollup(df: seq<Restaurant>): seq<CountryRow>
  {
    var groups := GroupBy(df, CountryOf);
    seq(|groups|, i requires 0 <= i < |groups| => Aggregate(groups[i].key, groups[i].members))
  }

  function RestaurantsOf(row: CountryRow): int
  {
    row.restaurantsCount
  }

  /** Facts about the unsorted rollup, carried over to the sorted table. */
  ghost predicate RollupFacts(df: seq<Restaurant>, rows: seq<CountryRow>)
  {
    && (forall i, j :: 0 <= i < j < |rows| ==> rows[i].country != rows[j].country)
    && (forall i :: 0 <= i < |rows| ==>
          rows[i] == Aggregate(rows[i].country, CountryRecords(df, rows[i].country))
          && CountryRecords(df, rows[i].country) != [])
    && (forall n :: 0 <= n < |df| && df[n].country.Some? ==>
          exists i :: 0 <= i < |rows| && rows[i].country == df[n].country.value)
    && SumOf(rows, RestaurantsOf) == Count(Keyed(df, CountryOf), HasName)
  }

  lemma {:induction false} GroupTotalsRestaurants(gs: seq<Group<string, Restaurant>>)
    ensures SumOf(seq(|gs|, i requires 0 <= i < |gs| => Aggregate(gs[i].key, gs[i].members)), RestaurantsOf)
            == GroupCount(gs, HasName)
    decreases |gs|
  {
    if |gs| > 0 {
      GroupTotalsRestaurants(gs[1..]);
      var rows := seq(|gs|, i requires 0 <= i < |gs| => Aggregate(gs[i].key, gs[i].members));
      assert rows[1..] == seq(|gs[1..]|, i requires 0 <= i < |gs[1..]| => Aggregate(gs[1..][i].key, gs[1..][i].members));
    }
  }

  lemma RollupHasFacts(df: seq<Restaurant>)
    ensures RollupFacts(df, Rollup(df))
  {
    RollupRowsAreAggregates(df);
    RollupCovers(df);
    GroupByCount(df, CountryOf, HasName);
    GroupTotalsRestaurants(GroupBy(df, CountryOf));
  }

  lemma RollupRowsAreAggregates(df: seq<Restaurant>)
    ensures forall i, j :: 0 <= i < j < |Rollup(df)| ==> Rollup(df)[i].country != Rollup(df)[j].country
    ensures forall i :: 0 <= i < |Rollup(df)| ==>
              Rollup(df)[i] == Aggregate(Rollup(df)[i].country, CountryRecords(df, Rollup(df)[i].country))
              && CountryRecords(df, Rollup(df)[i].country) != []
  {
    GroupBySelect(df, CountryOf);
  }

  lemma RollupCovers(df: seq<Restaurant>)
    ensures forall n :: 0 <= n < |df| && df[n].country.Some? ==>
              exists i :: 0 <= i < |Rollup(df)| && Rollup(df)[i].country == df[n].country.value
  {
    var groups := GroupBy(df, CountryOf);
    var rows := Rollup(df);
    GroupByCovers(df, CountryOf);
    forall n | 0 <= n < |df| && df[n].country.Some?
      ensures exists i :: 0 <= i < |rows| && rows[i].country == df[n].country.value
    {
      var i :| 0 <= i < |groups| && groups[i].key == CountryOf(df[n]).value;
      assert rows[i].country == groups[i].key;
    }
  }

  /** Rows that are each the summary of their own country, with distinct countries, are distinct. */
  lemma SortedRollupFacts(df: seq<Restaurant>, rows: seq<CountryRow>, table: seq<CountryRow>)
    requires RollupFacts(df, rows) && multiset(table) == multiset(rows)
    ensures RollupFacts(df, table)
  {
    assert forall i :: 0 <= i < |table| ==> table[i] in multiset(rows);
    assert Distinct(rows);
    PermutationKeepsDistinct(table, rows);
    forall i, j | 0 <= i < j < |table| ensures table[i].country != table[j].country {
      assert table[i] in rows && table[j] in rows;
    }
    forall n | 0 <= n < |df| && df[n].country.Some?
      ensures exists i :: 0 <= i < |table| && table[i].country == df[n].country.value
    {
      var k :| 0 <= k < |rows| && rows[k].country == df[n].country.value;
      assert rows[k] in multiset(table);
    }
    SumOfPermutation(table, rows, RestaurantsOf);
  }

  /**
   * `update_analytics_graph`'s table: one row per country that occurs,
   * each the summary of exactly that country's rows, in non-increasing
   * order of the selected column.
   */
  function UpdateAnalyticsGraph(df: seq<Restaurant>, sortBy: SortKey): (table: seq<CountryRow>)
    ensures forall i, j :: 0 <= i < j < |table| ==> table[i].country != table[j].country
    ensures forall n :: 0 <= n < |df| && df[n].country.Some? ==>
              exists i :: 0 <= i < |table| && table[i].country == df[n].country.value
    ensures forall i :: 0 <= i < |table| ==> CountryRecords(df, table[i].country) != []
    ensures forall i :: 0 <= i < |table| ==>
              var rs := CountryRecords(df, table[i].country);
              && table[i].stars3Sum == CountAward(rs, ThreeStars)
              && table[i].stars2Sum == CountAward(rs, TwoStars)
              && table[i].stars1Sum == CountAward(rs, OneStar)
              && table[i].bibSum == CountAward(rs, BibGourmand)
              && table[i].selectedSum == CountAward(rs, SelectedRestaurants)
              && table[i].restaurantsCount == Count(rs, HasName)
              && table[i].population == FirstPopulation(rs)
              && table[i].priceSum == PriceTotal(rs) && table[i].priceCount == |rs|
    ensures forall i, j :: 0 <= i < j < |table| ==> SortValue(sortBy, table[i]) >= SortValue(sortBy, table[j])
    ensures SumOf(table, RestaurantsOf) == Count(Keyed(df, CountryOf), HasName)
  {
    var rows := Rollup(df);
    var key := (row: CountryRow) => SortValue(sortBy, row);
    var table := SortDesc(rows, key);
    RollupHasFacts(df);
    SortedRollupFacts(df, rows, table);
    table
  }

  // ---------------------------------------------------------------- what the counts mean

  lemma {:induction false} TierCountsBounded(rows: seq<Restaurant>)
    ensures CountAward(rows, ThreeStars) + CountAward(rows, TwoStars) + CountAward(rows, OneStar)
            + CountAward(rows, BibGourmand) + CountAward(rows, SelectedRestaurants) <= |rows|
    ensures (forall r :: r in rows ==> r.award in {Some(ThreeStars), Some(TwoStars), Some(OneStar), Some(BibGourmand), Some(SelectedRestaurants)})
            ==> CountAward(rows, ThreeStars) + CountAward(rows, TwoStars) + CountAward(rows, OneStar)
                + CountAward(rows, BibGourmand) + CountAward(rows, SelectedRestaurants) == |rows|
    decreases |rows|
  {
    if |rows| > 0 {
      TierCountsBounded(rows[1..]);
      assert forall r :: r in rows[1..] ==> r in rows;
      assert ThreeStars != TwoStars && ThreeStars != OneStar && ThreeStars != BibGourmand;
      assert ThreeStars != SelectedRestaurants && TwoStars != OneStar && TwoStars != BibGourmand;
      assert TwoStars != SelectedRestaurants && OneStar != BibGourmand && OneStar != SelectedRestaurants;
      assert BibGourmand != SelectedRestaurants;
    }
  }

  lemma {:induction false} AllNamedCount(rows: seq<Restaurant>)
    requires forall r :: r in rows ==> r.name.Some?
    ensures Count(rows, HasName) == |rows|
    decreases |rows|
  {
    if |rows| > 0 {
      assert forall r :: r in rows[1..] ==> r in rows;
      AllNamedCount(rows[1..]);
    }
  }

  /**
   * When every row has a Name, a country's five tier sums add up to at most
   * its restaurant count, and to exactly it when every Award is a tier.
   */
  lemma TierSumsWithinCount(df: seq<Restaurant>, sortBy: SortKey, row: CountryRow)
    requires row in UpdateAnalyticsGraph(df, sortBy)
    requires forall r :: r in df ==> r.name.Some?
    ensures row.stars3Sum + row.stars2Sum + row.stars1Sum + row.bibSum + row.selectedSum <= row.restaurantsCount
    ensures (forall r :: r in df ==> r.award in {Some(ThreeStars), Some(TwoStars), Some(OneStar), Some(BibGourmand), Some(SelectedRestaurants)})
            ==> row.stars3Sum + row.stars2Sum + row.stars1Sum + row.bibSum + row.selectedSum == row.restaurantsCount
  {
    var rs := CountryRecords(df, row.country);
    SelectMembers(df, CountryOf, row.country);
    assert forall r :: r in rs ==> r in df;
    AllNamedCount(rs);
    TierCountsBounded(rs);
  }
}
