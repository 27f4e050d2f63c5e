# Michelin guide dashboard — record derivation and aggregation

This project models, in Dafny, the data processing of a Dash dashboard over
the Michelin restaurant guide. It covers the processing that sits between the
loaded CSV table and the charts:

- **`App`** (`app.py`) holds the award-tier tables (`size_mapping` for the
  marker size, `get_stars` for the star count). It also holds `display_page`,
  which adds the derived columns to every row: award size, country (from the
  text after the last comma of the location, looked up in the country-name
  map), city (the text before the first comma), stars, ISO country code,
  population and price level.
- **`AnalyticsCuisines`** (`pages/analytics_cuisines.py`) builds the cuisine
  word-frequency tables, once per award tier and once for all rows. Each
  Cuisine text is lower-cased and has every "cuisine" removed. It is then
  split on commas, each piece is stripped and split on spaces, and the words
  are counted in the manner of pandas `value_counts`.
- **`AnalyticsCountries`** (`pages/analytics_countries.py`) builds the
  per-country rollup:
  - the rows are grouped by country;
  - each group gets its tier counts, its count of named restaurants, its
    first present population and its price total;
  - the summary rows are sorted in descending order of the column that the
    "Sort by" radio group selects.
- **`MapPage`** (`pages/map.py`) models the map:
  - one marker trace per Award value, in order of first appearance, named
    after the Award of its first marker;
  - the marker-click handler, which opens the Description of the first row
    whose Name is the clicked name.

Supporting modules:

- **`Text`** models the Python `str` operations used: `lower`, `strip`,
  `split` and `replace(..., "")`.
- **`Grouping`** models pandas `groupby(sort=False)` as a fold. It is checked
  against a filter reference (`Select`) and against first-appearance order.
- **`Sequences`** holds the descending sort, the sums, and the permutation
  facts.
- **`Common`** holds `Option`. A pandas missing value (NaN) is `None`.

The loaded table is a `seq` of rows. The three reference maps (country name,
ISO code, population) are `map` parameters.

## Model

| member | source | states |
|---|---|---|
| App.SizeMapping | app.py:47-57 | The marker size lies between 5 and 25. It is 5 exactly when the Award is none of "3 Stars", "2 Stars", "1 Star" and "Bib Gourmand". |
| App.GetStars | app.py:60-68 | The star count is at most 3. It is positive exactly for the three star tiers. |
| App.StarsOrderSizes | app.py:47-68 | The two tables agree: more stars means a bigger marker, and equal positive star counts mean equal markers. |
| App.AwardTable | app.py:47-68 | Lists the size and star values of all five tiers and of a missing Award. "Selected Restaurants" gets 5 and 0. |
| App.City | app.py:80 | The city is the stripped text before the first comma of the location. With no comma, it is the whole stripped location. |
| App.RawCountry | app.py:78 | The raw country is the stripped text after the last comma of the location. With no comma, it is the whole stripped location. |
| App.PriceLevel | app.py:84 | A missing price gives 0. Any other price text except "nan" gives its length. The level never exceeds the length of the text form. |
| App.DeriveRecord | app.py:77-84 | Name, Award, Cuisine, Description and Location are kept. Country, ISO code and population form a chain: each is present exactly when the previous one is present and is a key of the next map, and then it is that map's entry for the previous value. The row's stars, marker size, city and price level are `GetStars`, `SizeMapping`, `City` and `PriceLevel` of its columns, so stars are at most 3 and the marker size is 5 to 25. |
| App.FirstMissingLocation | app.py:78 | Finds the first row whose Location is missing, or reports that every row has one. |
| App.DisplayPage | app.py:75-85 | Fails exactly when some Location is missing, and then names the first such row. Otherwise it gives one derived row per input row, in the same order, with the loaded columns unchanged. |
| Text.Lower | pages/analytics_cuisines.py:37 | The lower-cased text has the same length, and each character is that character lower-cased. |
| Text.LowerIdempotent | pages/analytics_cuisines.py:37 | Lower-casing twice is the same as lower-casing once. |
| Text.Strip | pages/analytics_cuisines.py:37 | The result is a contiguous slice of the input. Everything cut from either end is whitespace, and the result neither starts nor ends with whitespace. |
| Text.StripIdempotent | pages/analytics_cuisines.py:37 | Stripping twice is the same as stripping once. |
| Text.Split | pages/analytics_cuisines.py:37 | A split yields at least one piece, and no piece contains the separator. |
| Text.SplitThenJoin | pages/analytics_cuisines.py:37 | Joining the pieces of a split with the separator gives back the text. |
| Text.SplitJoin | pages/analytics_cuisines.py:37 | Splitting the join of separator-free pieces gives back those pieces. |
| Text.SplitFirst | app.py:80 | The first piece is the prefix before the first separator. |
| Text.SplitLast | app.py:78 | The last piece is the suffix after the last separator. |
| Text.RemoveAll | pages/analytics_cuisines.py:37 | Removing the stopword never lengthens the text. Every character left comes from the input. |
| Text.RemoveAllAbsent | pages/analytics_cuisines.py:37 | Text in which the stopword does not occur is unchanged. |
| Text.RemoveAllRemoves | pages/analytics_cuisines.py:37 | The characters kept are a subsequence of the text, in their original order. The number of removed characters is a multiple of the stopword's length. Something is removed exactly when the stopword occurs in the text. |
| Text.RemoveAllSegments | pages/analytics_cuisines.py:37 | The text is a sequence of segments joined by copies of the stopword, and no segment contains the stopword. The result is those segments one after another, so exactly those copies are removed. The copies are cut from left to right. |
| Text.SegmentsWeave | pages/analytics_cuisines.py:37 | Joining the segments with the stopword between each two gives back the text. |
| Text.SegmentsConcat | pages/analytics_cuisines.py:37 | The removal keeps exactly the segments, in order. |
| Text.SegmentsPatFree | pages/analytics_cuisines.py:37 | No segment contains the stopword. |
| Sequences.SortDesc | pages/analytics_countries.py:44 | The result is a permutation of the input in non-increasing order of the sort key. |
| Sequences.SumOfPermutation | pages/analytics_countries.py:44 | Reordering rows does not change a column sum. |
| Grouping.SelectMultiset | pages/analytics_cuisines.py:32 | A filter on a key keeps every matching row as many times as it occurs, and no other row. |
| Grouping.GroupBy | pages/map.py:32 | Group keys are distinct. |
| Grouping.GroupBySelect | pages/map.py:32 | Each group is non-empty and holds exactly the rows with its key, in dataset order. |
| Grouping.GroupByCovers | pages/analytics_countries.py:33 | Every row with a present key has a group for that key. |
| Grouping.GroupByFirstAppearance | pages/map.py:32 | Groups come in order of their key's first appearance. |
| Grouping.GroupByCount | pages/analytics_countries.py:33 | Counting over all groups equals counting over the rows that have a key. |
| AnalyticsCuisines.SplitWords | pages/analytics_cuisines.py:37 | Stripping and space-splitting comma-free pieces gives words with neither a comma nor a space, at least one per piece. |
| AnalyticsCuisines.CuisineTokens | pages/analytics_cuisines.py:37 | No word of a Cuisine text contains a comma or a space, and every text gives at least one word. |
| AnalyticsCuisines.SplitWordsFlatten | pages/analytics_cuisines.py:37 | The words of comma-free pieces are, in order, the space-split of each stripped piece. |
| AnalyticsCuisines.CuisineTokensMeaning | pages/analytics_cuisines.py:37 | The lower-cased text with the stopword removed is cut at its commas into pieces that join back to it. The words are one run per piece, in order. Each run is non-empty, its words contain no space, and joined with single spaces it gives the stripped piece. |
| AnalyticsCuisines.RowTokens | pages/analytics_cuisines.py:37 | A row gives no words exactly when its Cuisine is missing, as `value_counts` drops the missing value. |
| AnalyticsCuisines.CaseInsensitive | pages/analytics_cuisines.py:32-37 | Texts equal up to case give the same words. |
| AnalyticsCuisines.StopwordAloneIsEmptyWord | pages/analytics_cuisines.py:37 | The text "Cuisine" gives exactly one word, the empty one: empty words are not dropped. |
| AnalyticsCuisines.ValueCounts | pages/analytics_cuisines.py:37 | Each word gets exactly one row, holding its number of occurrences (at least 1), and every word has a row. Rows are in non-increasing count order, and the counts sum to the number of words. |
| AnalyticsCuisines.CountOfValueCounts | pages/analytics_cuisines.py:37 | The count reported for any word is its number of occurrences, and 0 for a word that never occurs. |
| AnalyticsCuisines.WithAward | pages/analytics_cuisines.py:32-36 | A tier table takes exactly the rows whose Award equals that tier string, each as many times as it occurs in the dataset. |
| AnalyticsCuisines.WordCountsMeaning | pages/analytics_cuisines.py:37 | The table of some rows reports, for every word, its number of occurrences among their words, in non-increasing count order. |
| AnalyticsCuisines.UpdateAnalyticsGraph | pages/analytics_cuisines.py:32-37 | Each of the five tier tables counts, for every word, its occurrences among the rows whose Award is exactly that tier. The sixth counts over all rows. Every table is in non-increasing count order. |
| AnalyticsCuisines.TokensSplitByTier | pages/analytics_cuisines.py:32-37 | When every Award is a tier, the words of all rows are, per word, the words of the five tier selections together. |
| AnalyticsCuisines.AllCountsAreTierSums | pages/analytics_cuisines.py:32-37 | When every Award is a tier, a word's all-rows count is the sum of its five tier counts. |
| AnalyticsCountries.ParseSortBy | pages/analytics_countries.py:164 | A radio value selects a sort column exactly when it is one of the three option values, and that column has the value's name. |
| AnalyticsCountries.SortOptionsRoundTrip | pages/analytics_countries.py:173 | Every column's name selects that column. The initial value "stars_3_sum" selects the three-star count. |
| AnalyticsCountries.SortValue | pages/analytics_countries.py:44 | A missing population sorts below every present one. |
| AnalyticsCountries.CountAwardZero | pages/analytics_countries.py:35-39 | A tier count is 0 exactly when no row has that Award. |
| AnalyticsCountries.FirstPopulation | pages/analytics_countries.py:41 | The result is the first present population in row order, or none when no row has one. |
| AnalyticsCountries.RollupRowsAreAggregates | pages/analytics_countries.py:33-43 | Before sorting, the rollup has distinct countries. Each row is the summary (`Aggregate`) of exactly its country's rows, and that set of rows is non-empty. |
| AnalyticsCountries.RollupCovers | pages/analytics_countries.py:33 | Every row with a present country has a rollup row for that country. |
| AnalyticsCountries.UpdateAnalyticsGraph | pages/analytics_countries.py:33-45 | There is one row per distinct present country, so rows with no country are left out. Each row is the summary of exactly that country's rows: the five tier counts, the named-restaurant count, the first population and the price sum and count. Rows are in non-increasing order of the selected column, and the restaurant counts add up to the named rows that have a country. |
| AnalyticsCountries.TierSumsWithinCount | pages/analytics_countries.py:35-40 | When every row has a Name, a country's five tier counts add up to at most its restaurant count. They add up to exactly that count when every Award is a tier. |
| MapPage.UpdateMap | pages/map.py:32-49 | Each trace is non-empty and holds exactly the rows whose Award is its name, in dataset order. |
| MapPage.TracesUniform | pages/map.py:49 | Every marker of a trace is a dataset row carrying the trace's Award. |
| MapPage.TracesCover | pages/map.py:32 | Every row with an Award has a trace named after that Award. |
| MapPage.TracesFirstAppearance | pages/map.py:32 | Traces come in order of their Award's first appearance. |
| MapPage.MarkerInTrace | pages/map.py:32 | A row is in a trace exactly when its Award is the trace's name. |
| MapPage.TraceNamesDistinct | pages/map.py:32 | No two traces share a name, so each awarded row lies in exactly one trace. |
| MapPage.MarkersPartitionAwarded | pages/map.py:32 | The traces together hold as many markers as there are rows with an Award. |
| MapPage.FirstNamed | pages/map.py:75 | Finds the first row with the given Name, or reports that no row has it. |
| MapPage.OnMarkerClick | pages/map.py:70-81 | No click means no update. A click fails when the marker has no text (its row has no Name) or when no row has the clicked Name, as `.iloc[0]` on an empty selection does. Otherwise the modal opens with the clicked name and the Description of the first row bearing it. |
| MapPage.ClickOnMarkerOpens | pages/map.py:70-81 | Clicking any drawn marker of a named row opens the modal for that name. |
| MapPage.ClickOnNamelessMarkerFails | pages/map.py:74-75 | Clicking a drawn marker of a row without a Name makes the lookup fail. |

## Left out

- Chart construction (Plotly subplots, traces, hover templates, axis ranges) and the Dash callbacks, pages and layouts are not modelled. The model stops at the tables and traces the charts are drawn from.
- `pd.read_csv` is not modelled. The loaded table is the input sequence, and each cell is present or missing.
- `modules/country_map` and `modules/helpers` are not part of this model. The three reference maps are parameters.
- `mean_price` is kept as an integer sum and count instead of a floating-point mean.
- `str.title()` on the clicked name is not modelled. `Opened` carries the clicked name as it is.
- Text.Lower: lower-cases ASCII letters only. Python's full Unicode `str.lower` is not modelled.
- Sequences.SortDesc: is a stable insertion sort. The order of rows with equal keys is not stated anywhere in the contracts. pandas `sort_values` and `value_counts` do not fix it either.
- AnalyticsCountries.UpdateAnalyticsGraph: builds the groups in order of first appearance, where `groupby('country')` sorts them by name. The contracts leave the order of rows with equal sort values open. The chart's order of tied bars, for example the many countries with no three-star restaurant, may differ from the model's.
- AnalyticsCountries.ParseSortBy: sorting by a column outside the three radio options is not modelled.
- Latitude, longitude, URLs and facilities are not modelled. They are only passed through to the charts.
- Every marker and table value is modelled as a whole row rather than as the displayed fields only.
- The deployment configuration (`ecosystem.config.js`) is not modelled.
- No fixed literal input is evaluated. Evaluating the text chain on literal strings costs the verifier too much.

## Behaviour of the code that the model keeps

- **Missing Location.** `Location.apply(lambda x: x.split(","))` raises on a missing Location, so `display_page` fails for the whole table instead of substituting a default. `DisplayPage` returns `LocationMissing` for that case.
- **Empty words.** Nothing filters empty words, so the Cuisine "Cuisine" contributes one count to the empty word (`StopwordAloneIsEmptyWord`).
- **The stopword can survive.** `str.replace` removes in one left-to-right pass, so a stopword that its removal brings together remains. For example, "cuicuisinesine" leaves "cuisine".
- **Tie order.** Neither `sort_values` nor `value_counts` is asked for a stable sort, so the order of equal values is not fixed.
- **Three-star column.** `stars_3_sum` counts the rows whose Award is "3 Stars". It is not a sum of star counts: two three-star rows and one one-star row give 2.
