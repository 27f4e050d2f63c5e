/**
 * The record derivation of app.py: the two award-tier tables, and the
 * `display_page` callback that takes the loaded restaurant table and adds
 * the derived columns one assignment at a time.
 */
module App {
  import opened Common
  import opened Text

  const ThreeStars := "3 Stars"
  const TwoStars := "2 Stars"
  const OneStar := "1 Star"
  const BibGourmand := "Bib Gourmand"
  const SelectedRestaurants := "Selected Restaurants"

  /** One row of the CSV as loaded; `None` is a missing cell. */
  datatype CsvRow = CsvRow(
    name: Option<string>,
    award: Option<string>,
    location: Option<string>,
    price: Option<string>,
    cuisine: Option<string>,
    description: Option<string>)

  /** One row of the table after `display_page`: the loaded columns plus the derived ones. */
  datatype Restaurant = Restaurant(
    name: Option<string>,
    award: Option<string>,
    location: string,
    cuisine: Option<string>,
    description: Option<string>,
    price: nat,
    awardSize: nat,
    country: Option<string>,
    city: string,
    stars: nat,
    countryCode: Option<string>,
    population: Option<nat>)

  /** The reference maps: country name -> country name, name -> ISO code, code -> population. */
  datatype CountryMaps = CountryMaps(
    names: map<string, string>,
    codes: map<string, string>,
    populations: map<string, nat>)

  /** The outcome of `display_page`: the derived table, or the row at which splitting a missing location raised. */
  datatype Derivation = Derived(table: seq<Restaurant>) | LocationMissing(row: nat)

  /** The Award column, the key of the map's award groups and of the per-tier tables. */
  function AwardOf(r: Restaurant): Option<string>
  {
    r.award
  }

  /** The derived country column, the key of the per-country rollup. */
  function CountryOf(r: Restaurant): Option<string>
  {
    r.country
  }

  // ---------------------------------------------------------------- award tiers

  /** Marker size of an award tier; a missing award compares unequal to every tier. */
  function SizeMapping(award: Option<string>): (size: nat)
    ensures 5 <= size <= 25
    ensures size == 5 <==> award !in {Some(ThreeStars), Some(TwoStars), Some(OneStar), Some(BibGourmand)}
  {
    if award == Some(ThreeStars) then 25
    else if award == Some(TwoStars) then 20
    else if award == Some(OneStar) then 15
    else if award == Some(BibGourmand) then 7
    else 5
  }

  /** Number of Michelin stars of an award tier. */
  function GetStars(award: Option<string>): (stars: nat)
    ensures stars <= 3
    ensures stars > 0 <==> award in {Some(ThreeStars), Some(TwoStars), Some(OneStar)}
  {
    if award == Some(ThreeStars) then 3
    else if award == Some(TwoStars) then 2
    else if award == Some(OneStar) then 1
    else 0
  }

  /** The two tables rank the tiers the same way: more stars, bigger marker. */
  lemma StarsOrderSizes(a: Option<string>, b: Option<string>)
    ensures GetStars(a) > GetStars(b) ==> SizeMapping(a) > SizeMapping(b)
    ensures GetStars(a) == GetStars(b) && GetStars(a) > 0 ==> SizeMapping(a) == SizeMapping(b)
  {
  }

  /** The table values, including the default for "Selected Restaurants". */
  lemma AwardTable()
    ensures SizeMapping(Some(ThreeStars)) == 25 && GetStars(Some(ThreeStars)) == 3
    ensures SizeMapping(Some(TwoStars)) == 20 && GetStars(Some(TwoStars)) == 2
    ensures SizeMapping(Some(OneStar)) == 15 && GetStars(Some(OneStar)) == 1
    ensures SizeMapping(Some(BibGourmand)) == 7 && GetStars(Some(BibGourmand)) == 0
    ensures SizeMapping(Some(SelectedRestaurants)) == 5 && GetStars(Some(SelectedRestaurants)) == 0
    ensures SizeMapping(None) == 5 && GetStars(None) == 0
  {
  }

  // ---------------------------------------------------------------- location

  /** `location.split(",")[0].strip()`: the stripped text before the first comma. */
  function City(location: string): (city: string)
    ensures exists k :: 0 <= k <= |location| && ',' !in location[..k]
                     && (k < |location| ==> location[k] == ',') && city == Strip(location[..k])
    ensures ',' !in location ==> city == Strip(location)
  {
    var pieces := Split(location, ',');
    SplitFirst(location, ',');
    assert pieces[0] in pieces;
    SplitFree(location, ',');
    Strip(pieces[0])
  }

  /** `location.split(",")[-1].strip()`: the stripped text after the last comma. */
  function RawCountry(location: string): (country: string)
    ensures exists k :: 0 <= k <= |location| && ',' !in location[k..]
                     && (k > 0 ==> location[k - 1] == ',') && country == Strip(location[k..])
    ensures ',' !in location ==> country == Strip(location)
  {
    var pieces := Split(location, ',');
    SplitLast(location, ',');
    var last := pieces[|pieces| - 1];
    assert last in pieces;
    assert last == location[|location| - |last|..];
    SplitFree(location, ',');
    Strip(last)
  }

  // ---------------------------------------------------------------- price

  /** `astype(str)`: a missing price becomes the text "nan". */
  function PriceText(price: Option<string>): string
  {
    if price.None? then "nan" else price.value
  }

  /** The price level: the number of characters of the price text, 0 for the text "nan". */
  function PriceLevel(price: Option<string>): (level: nat)
    ensures price.None? ==> level == 0
    ensures price.Some? && price.value != "nan" ==> level == |price.value|
    ensures level <= |PriceText(price)|
  {
    var text := PriceText(price);
    if text != "nan" then |text| else 0
  }

  // ---------------------------------------------------------------- one row

  /**
   * The derived columns of one row, each a function of the row alone.
   * The lookups form a chain: a later one is present only when the earlier
   * one is present and is a key of the next map.
   */
  function DeriveRecord(row: CsvRow, maps: CountryMaps): (r: Restaurant)
    requires row.location.Some?
    ensures r.name == row.name && r.award == row.award && r.cuisine == row.cuisine
    ensures r.description == row.description && r.location == row.location.value
    ensures r.country.Some? <==> RawCountry(row.location.value) in maps.names
    ensures r.countryCode.Some? <==> r.country.Some? && r.country.value in maps.codes
    ensures r.population.Some? <==> r.countryCode.Some? && r.countryCode.value in maps.populations
    ensures r.population.Some? ==> r.country.Some? && r.countryCode.Some?
    ensures r.country.Some? ==> r.country.value == maps.names[RawCountry(row.location.value)]
    ensures r.countryCode.Some? ==> r.countryCode.value == maps.codes[r.country.value]
    ensures r.population.Some? ==> r.population.value == maps.populations[r.countryCode.value]
    ensures r.stars == GetStars(row.award) && r.awardSize == SizeMapping(row.award)
    ensures r.city == City(row.location.value) && r.price == PriceLevel(row.price)
    ensures r.stars <= 3 && 5 <= r.awardSize <= 25
  {
    var location := row.location.value;
    var country := MapThrough(Some(RawCountry(location)), maps.names);
    var code := MapThrough(country, maps.codes);
    Restaurant(
      name := row.name,
      award := row.award,
      location := location,
      cuisine := row.cuisine,
      description := row.description,
      price := PriceLevel(row.price),
      awardSize := SizeMapping(row.award),
      country := country,
      city := City(location),
      stars := GetStars(row.award),
      countryCode := code,
      population := MapThrough(code, maps.populations))
  }

  /** Index of the first row whose location is missing, where `Location.apply(split)` raises. */
  function FirstMissingLocation(csv: seq<CsvRow>): (r: Option<nat>)
    ensures r.None? <==> forall i :: 0 <= i < |csv| ==> csv[i].location.Some?
    ensures r.Some? ==> r.value < |csv| && csv[r.value].location.None?
                        && forall j :: 0 <= j < r.value ==> csv[j].location.Some?
    decreases |csv|
  {
    if |csv| == 0 then None
    else if csv[0].location.None? then Some(0)
    else
      var rest := FirstMissingLocation(csv[1..]);
      assert forall i :: 1 <= i < |csv| ==> csv[i] == csv[1..][i - 1];
      if rest.None? then None else Some(rest.value + 1)
  }

  // ---------------------------------------------------------------- the table

  /**
   * `display_page`: the derived columns assigned one after another, each a
   * per-row map over the table. The country column is assigned twice (raw
   * text, then looked up) and the price column is overwritten in place.
   */
  method DisplayPage(csv: seq<CsvRow>, maps: CountryMaps) returns (out: Derivation)
    ensures out.LocationMissing? <==> exists i :: 0 <= i < |csv| && csv[i].location.None?
    ensures out.LocationMissing? ==>
              out.row < |csv| && csv[out.row].location.None?
              && forall j :: 0 <= j < out.row ==> csv[j].location.Some?
    ensures out.Derived? ==> |out.table| == |csv|
    ensures out.Derived? ==> forall i :: 0 <= i < |csv| ==>
              && csv[i].location.Some?
              && out.table[i] == DeriveRecord(csv[i], maps)
              && out.table[i].name == csv[i].name
              && out.table[i].award == csv[i].award
              && out.table[i].location == csv[i].location.value
              && out.table[i].cuisine == csv[i].cuisine
              && out.table[i].description == csv[i].description
  {
    var n := |csv|;
    var awardSize := seq(n, i requires 0 <= i < n => SizeMapping(csv[i].award));
    var missing := FirstMissingLocation(csv);
    if missing.Some? {
      return LocationMissing(missing.value);
    }
    var location := seq(n, i requires 0 <= i < n => csv[i].location.value);
    var country := seq(n, i requires 0 <= i < n => Some(RawCountry(location[i])));
    country := seq(n, i requires 0 <= i < n => MapThrough(country[i], maps.names));
    var city := seq(n, i requires 0 <= i < n => City(location[i]));
    var stars := seq(n, i requires 0 <= i < n => GetStars(csv[i].award));
    var countryCodes := seq(n, i requires 0 <= i < n => MapThrough(country[i], maps.codes));
    var population := seq(n, i requires 0 <= i < n => MapThrough(countryCodes[i], maps.populations));
    var price := seq(n, i requires 0 <= i < n => PriceLevel(csv[i].price));
    var table := seq(n, i requires 0 <= i < n =>
      Restaurant(
        name := csv[i].name,
        award := csv[i].award,
        location := location[i],
        cuisine := csv[i].cuisine,
        description := csv[i].description,
        price := price[i],
        awardSize := awardSize[i],
        country := country[i],
        city := city[i],
        stars := stars[i],
        countryCode := countryCodes[i],
        population := population[i]));
    out := Derived(table);
  }
}
