# City lifestyle data: cleaning pipeline and query layer

This project models the two classes at the centre of the city lifestyle
dashboard back end and proves properties of them.

- `DataCleaner` (src/clean_data.py) cleans a table of city rows in place:
  1. it coerces the ten numeric columns to numbers;
  2. it drops repeated (city_name, country) pairs, keeping the first;
  3. it fills missing cells with the column median or "Unknown";
  4. it clips the eight metric columns to fixed ranges;
  5. it adds synthetic coordinates when they are absent;
  6. it reports what each stage did.
- `CityLifestyleDataProcessor` (src/data_processor.py) holds the table the
  API queries. On construction it adds coordinates and coerces the same
  columns. It answers ranking, lookup, filter-option and per-country
  queries, and it swaps its table while filters are applied.

A table is a set of column names and a sequence of rows. Each row maps
column names to cells. A cell is a number, a piece of text, or missing
(pandas' NaN/None). A row lacking a column reads as missing.

Three calls into code outside the model are passed in as a `Platform` value:
- SHA-256, which gives a 32-byte digest;
- the string-to-number parser behind `pd.to_numeric`;
- the rendering of a float inside an f-string.

Files:

- `tables.dfy`: cells, rows, tables, column names, errors.
- `sequences.dfy`: order-preserving selection. This covers first-occurrence
  deduplication, `unique()`, boolean-mask filtering and counting.
- `ordering.dfy`: Python's string order, sorting strings into a strictly
  ascending list, and the median.
- `geocoder.dfy`: the continent boxes and the deterministic point, shared by
  both classes.
- `cleaning.dfy`: each cleaning stage as a function from the table before it
  to the table after it, with its report, plus the stages composed.
- `data_cleaner.dfy`: the `DataCleaner` class. Its methods update `df` and
  `cleaningReport` in place. They are proved to leave exactly the stage
  functions' results.
- `ranking.dfy`: the order behind `nlargest`/`nsmallest` with `keep="first"`.
- `queries.dfy`: the processor's read-only queries.
- `processor.dfy`: the `CityLifestyleDataProcessor` class. It covers
  preprocessing, the filter/restore swap of `df`, and the comparison loop.

Queries report a missing column as `Err(MissingColumn(name))` where pandas
raises `KeyError`.

## Model

| member | source | states |
|---|---|---|
| Geocoder.ContinentBox | src/clean_data.py:147-157 | A known continent name gets its own box. Any other key, a missing value or a number gets the global fallback (-55, 70, -130, 150). Every box has min < max and lies within the global box. |
| Geocoder.BigEndian | src/clean_data.py:162-163 | `int.from_bytes(b, "big")` is below 256 to the power of the byte count. |
| Geocoder.Fraction | src/clean_data.py:162-163 | Eight digest bytes divided by 2^64 give a fraction in [0, 1). |
| Geocoder.Scale | src/clean_data.py:165-166 | `lo + (hi - lo) * f` lies in [lo, hi) for f in [0, 1). |
| Geocoder.DeterministicPoint | src/clean_data.py:159-167 | The point depends only on the seed and the region. It lies inside the region's box and inside the global box. |
| Geocoder.WithCoordinates | src/clean_data.py:169-181 | The table after `ensure_geolocation` has both coordinate columns added to its columns and the same number of rows. |
| Geocoder.WithCoordinatesProperties | src/clean_data.py:169-181 | If either coordinate column is absent, every row gets the point of "city-country" in both columns, inside its country's box. Other cells are unchanged. If both are present, the table is unchanged. |
| Geocoder.WithCoordinatesShape | src/clean_data.py:169-179 | Afterwards the table is well formed, keeps its identity columns, has both coordinate columns, and has the same rows count. |
| Geocoder.WithCoordinatesKeepsOthers | src/clean_data.py:179 | Only the two coordinate columns are written. |
| Geocoder.WithCoordinatesCoerced | src/clean_data.py:173-179 | The written coordinates are numbers, so numeric columns stay free of text. |
| Cleaning.ToNumeric | src/clean_data.py:143 | A number keeps its value and a missing cell stays missing. Text that parses becomes `Num` of the parsed value. Text that does not parse becomes missing. The result is never text. |
| Cleaning.CoerceColumn | src/clean_data.py:143 | One present column is coerced cell by cell; every other cell is unchanged. |
| Cleaning.CoerceNumericColumns | src/clean_data.py:128-143 | The loop over the ten numeric columns, skipping absent ones, yields the converted table. |
| Cleaning.Converted | src/clean_data.py:126-145 | The table after `convert_types` keeps its columns, its row count and each row's keys. |
| Cleaning.ConvertedProperties | src/clean_data.py:126-145 | Only present numeric columns change. Numbers keep their value, and unparsable text becomes missing. Afterwards no numeric column holds text, and all other cells are unchanged. |
| Cleaning.ConvertedShape | src/clean_data.py:141-143 | Conversion keeps the columns, the row count and well-formedness. |
| Cleaning.Deduplicated | src/clean_data.py:41-50 | The table after `drop_duplicates` keeps its columns. It has no more rows than before, and each of its rows is an input row. |
| Cleaning.DeduplicatedProperties | src/clean_data.py:41-50 | Afterwards no two rows share (city_name, country), and every input pair survives. The kept rows are the first occurrences, in their original order. The count removed is zero exactly when the input had no repeated pair. |
| Cleaning.DeduplicatedShape | src/clean_data.py:42 | Deduplication keeps the columns and well-formedness, and keeps numeric columns free of text. |
| Cleaning.Values | src/clean_data.py:76 | The numbers the median is taken over are the column's numbers: as many as the column has, each one from the column, and none when the column has none. |
| Cleaning.ValuesCount | src/clean_data.py:76 | Each number occurs in the median's input exactly as often as the column holds it. |
| Cleaning.FillValue | src/clean_data.py:75-82 | A non-numeric column is filled with "Unknown". There is no fill value exactly when a numeric column has no number (its median is NaN). Otherwise the fill value is a number between two of the column's own numbers. |
| Cleaning.FillValueOfSameNumbers | src/clean_data.py:75-77 | Two numeric columns holding each number equally often get the same fill value, whatever their row order and wherever their gaps are. |
| Cleaning.FillColumn | src/clean_data.py:77-82 | `fillna` writes the value into exactly the missing cells of one column. |
| Cleaning.MissingReport | src/clean_data.py:59-73 | Every column the report names is a table column, mapped to the number of rows in which that column is missing: between 1 and the row count. |
| Cleaning.CountMissingRows | src/clean_data.py:61 | `isnull().sum()` of a column equals the number of rows missing that column. |
| Cleaning.MissingReportProperties | src/clean_data.py:59-73 | The report names exactly the columns with a missing cell, each mapped to its missing count before filling, which is positive. It is empty exactly when nothing was missing. |
| Cleaning.Imputed | src/clean_data.py:52-85 | The table after `handle_missing_values` keeps its columns, its row count and each row's keys. |
| Cleaning.ImputedCells | src/clean_data.py:70-83 | Non-missing cells are unchanged. A numeric column's gaps get the median of its numbers, and any other column's gaps get "Unknown". |
| Cleaning.ImputedComplete | src/clean_data.py:70-83 | No cell is missing afterwards, provided every gapped column has a fill value. |
| Cleaning.FillWithinObserved | src/clean_data.py:76 | The median lies between two of the column's own numbers. |
| Cleaning.ImputedCoerced | src/clean_data.py:75-83 | Imputation puts no text into a numeric column. |
| Cleaning.RangeFor | src/clean_data.py:97-106 | Each of the eight metric columns has its fixed range, with min < max. No other column has one. |
| Cleaning.RangeForEntry | src/clean_data.py:97-108 | Each range in the table is the one its column is looked up with. |
| Cleaning.Clip | src/clean_data.py:118 | `clip(lo, hi)` puts a number into [lo, hi], keeps one already inside, and leaves missing cells missing. |
| Cleaning.ClipColumn | src/clean_data.py:118 | Clipping one column changes no other cell. |
| Cleaning.ClipNoOutliers | src/clean_data.py:111-118 | A column with no number outside its range is left unchanged by clip. |
| Cleaning.Clipped | src/clean_data.py:108-119 | The table after `validate_numeric_ranges` keeps its columns, its row count and each row's keys. |
| Cleaning.ClippedInRange | src/clean_data.py:108-119 | Afterwards every number in a ranged column lies within its range. |
| Cleaning.ClippedKeepsInRange | src/clean_data.py:111-118 | Numbers already in range, and missing cells, are unchanged. |
| Cleaning.ClippedKeepsUnranged | src/clean_data.py:108-109 | Columns without a range are untouched. |
| Cleaning.ClippedKeepsPresent | src/clean_data.py:118 | Clipping keeps numbers as numbers and missing cells missing. |
| Cleaning.ClippedCoerced | src/clean_data.py:118 | Clipping puts no text into a numeric column. |
| Cleaning.OutlierReport | src/clean_data.py:94-124 | Every column the report names is a present ranged column, with a count between 1 and the row count. |
| Cleaning.OutlierReportProperties | src/clean_data.py:108-124 | Every named column is present and ranged, with a positive count. A present ranged column that the report does not name is left untouched by clipping. |
| Cleaning.OutlierReportCounts | src/clean_data.py:111-115 | Each named column maps to the number of its cells holding a number outside its range; a missing cell is never counted. Every present ranged column with such a number is named. |
| Cleaning.StatisticsOf | src/clean_data.py:190-194 | The statistics are the row and column counts and the numbers of distinct countries and cities. |
| Cleaning.CleanedTable | src/clean_data.py:215-243 | The table `clean` leaves has the input's columns plus both coordinate columns, and no more rows than the input. |
| Cleaning.CleanedReport | src/clean_data.py:237-251 | The reported duplicate count equals the input row count minus the cleaned row count, and is never negative. The missing and outlier reports name only input columns. The final row count is the cleaned table's. |
| Cleaning.CleanedShape | src/clean_data.py:231-243 | The cleaned table is well formed, keeps its identity columns, has both coordinate columns, and its numeric columns hold no text. |
| Cleaning.CleanedInRange | src/clean_data.py:237-240 | Every number in a ranged column of the cleaned table lies in its range. |
| Cleaning.CleanedComplete | src/clean_data.py:237-240 | The cleaned table has no missing cell when every column of the deduplicated table has a fill value. |
| Cleaning.CleanedUniqueWhenIdentityPresent | src/clean_data.py:237-240 | When no city name or country of the input is missing, the cleaned table has no repeated pair. |
| Cleaning.CleanedReportDuplicates | src/clean_data.py:237-251 | The reported duplicate count is the number of rows dropped. It is never negative, and it is zero exactly when no two input rows share a pair. |
| Cleaning.CleanedRepeatsKey | src/clean_data.py:42-83 | Two input rows: one has city "Unknown", the other a missing city, and both are in France. As written, clean outputs the pair ("Unknown", "France") twice. |
| Cleaning.CleanedTableRededuplicated | src/clean_data.py:42-83 | The corrected pipeline has the same columns as `clean` and no more rows. |
| Cleaning.CleanedRededuplicatedUnique | src/clean_data.py:237-240 | When deduplication is also run after imputation, no two cleaned rows share a pair, for every input. |
| DataCleaning.DataCleaner.constructor | src/clean_data.py:14-17 | A new cleaner has no table and no report. |
| DataCleaning.DataCleaner.LoadData | src/clean_data.py:19-32 | The loaded table becomes `df` and is returned. |
| DataCleaning.DataCleaner.ConvertTypes | src/clean_data.py:126-145 | `df` becomes the converted table, with no text in numeric columns. |
| DataCleaning.DataCleaner.RemoveDuplicates | src/clean_data.py:34-50 | `df` becomes the deduplicated table. The return value is the old row count minus the new one: never negative, and zero exactly when there were no repeated pairs. |
| DataCleaning.DataCleaner.HandleMissingValues | src/clean_data.py:52-85 | The loop over gapped columns leaves the imputed table and returns the missing-count report. It returns early, unchanged, when nothing is missing. |
| DataCleaning.DataCleaner.ValidateNumericRanges | src/clean_data.py:87-124 | The loop over the eight ranges leaves the clipped table and returns the outlier report. It clips only the columns with outliers. |
| DataCleaning.DataCleaner.EnsureGeolocation | src/clean_data.py:169-181 | `df` gets synthetic coordinates when either column is absent, and is left alone otherwise. |
| DataCleaning.DataCleaner.GenerateStatistics | src/clean_data.py:183-198 | Returns the row and column counts and the numbers of distinct countries and cities. `df` is not changed. |
| DataCleaning.DataCleaner.Clean | src/clean_data.py:215-251 | The stages run in order: convert, deduplicate, impute, clip, geolocate. `df` ends as the cleaned table, and the stored report holds each stage's count and the final statistics. |
| Ordering.SortedDistinct | src/data_processor.py:328-329 | `sorted(set(xs))` is strictly ascending and holds exactly the elements of xs. |
| Ordering.StrictlySortedUnique | src/data_processor.py:328-329 | Two strictly ascending lists with the same elements are equal, so the sorted option list is determined by its values. |
| Ordering.Median | src/clean_data.py:76 | `Series.median()` lies between two of the values it is taken over. |
| Ordering.MedianWithin | src/clean_data.py:76 | The median of values in [lo, hi] is in [lo, hi]. |
| Ordering.SortedSameValues | src/clean_data.py:76 | Two ascending lists holding each value equally often are equal. |
| Ordering.MedianOfSameValues | src/clean_data.py:76 | The median depends only on how often each value occurs, not on the order of the values. |
| Sequences.DedupByProperties | src/clean_data.py:42 | First-occurrence dedup leaves unique keys, and every key of the input keeps a representative. |
| Sequences.DistinctProperties | src/data_processor.py:85 | `unique()` has no repeats, holds the same values as its input, and keeps them in order of first appearance. |
| Sequences.FilterProperties | src/data_processor.py:345-360 | A boolean mask keeps exactly the elements satisfying it, and keeps everything exactly when all do. |
| Sequences.FilterTwice | src/data_processor.py:344-360 | Masking twice is masking once by both conditions. |
| Ranking.AheadTransitive | src/data_processor.py:138-141 | The ranking order is transitive. |
| Ranking.AheadTotal | src/data_processor.py:138-141 | Any two different rows are ranked one way or the other. |
| Ranking.InsertRanked | src/data_processor.py:138-141 | Inserting a row keeps the list ranked and adds exactly that row. |
| Ranking.RankRows | src/data_processor.py:138-141 | All rows appear exactly once, in ranking order. |
| Ranking.Clamp | src/data_processor.py:138-141 | The number of rows `nlargest(n)`/`nsmallest(n)` returns: none for n <= 0, n when n is within the table, and every row for n beyond it. |
| Ranking.TopRows | src/data_processor.py:138-141 | The selection has that clamped length, and each entry is a row index of the table. |
| Ranking.TopRowsProperties | src/data_processor.py:138-141 | The selection holds min(max(n,0), rows) distinct rows in ranking order. Every row left out ranks behind every selected row. |
| Ranking.TopRowsValues | src/data_processor.py:138-141 | Numbers precede missing values. Values descend, or ascend for nsmallest, with equal values in row order. No row left out beats a selected row. |
| Queries.ProjectedColumnsOnce | src/data_processor.py:135-136 | The projection names its five columns once each, even when the metric is avg_income or happiness_score. |
| Queries.GetTopCities | src/data_processor.py:124-150 | An absent metric column is the error. Any error names an absent column. On success the five lists all have the clamped length. |
| Queries.TopCitiesSucceeds | src/data_processor.py:135-141 | The query succeeds exactly when the metric and the four other projected columns exist. |
| Queries.TopCitiesAligned | src/data_processor.py:135-150 | The five lists have the same length, min(max(n,0), rows). Entry k of each list comes from the same selected row, and no row is selected twice. |
| Queries.TopCitiesRanked | src/data_processor.py:138-142 | Metric values are largest first, or smallest first for air_quality_index, with missing values last. No unselected row has a better number. |
| Queries.GetOverview | src/data_processor.py:76-98 | An error names one of the six columns read, and that column is absent. On success `total_cities` is the row count. |
| Queries.OverviewProperties | src/data_processor.py:83-98 | `total_cities` is the row count. The country list holds each country value once, and the query succeeds exactly when the six columns read exist. |
| Queries.SortedOptions | src/data_processor.py:328-329 | One option list is strictly ascending and holds exactly the texts of its column. |
| Queries.GetFilterOptions | src/data_processor.py:320-330 | The query fails exactly when country or city_name is absent, and the error names an absent column. |
| Queries.FilterOptionsProperties | src/data_processor.py:320-330 | Both lists are strictly ascending and hold exactly the countries and cities. The query fails only when a column is missing. |
| Queries.FirstMatch | src/data_processor.py:282-284 | The row found is the first whose city_name equals the name. None means no row matches, and a missing name matches nothing. |
| Queries.CompareOne | src/data_processor.py:282-296 | Without a city_name column the step fails naming it, and any error names an absent column. There is an entry exactly when some row matches the name. The entry carries the requested name, and the country and the eight metrics of the first matching row. |
| Queries.Compare | src/data_processor.py:280-298 | The output has at most as many entries as names requested, and an error names an absent column. |
| Queries.Requested | src/data_processor.py:277-278 | Without a request, the names are the first ten city_name values, or all of them if there are fewer. A given request is used as it is. |
| Queries.GetCityComparison | src/data_processor.py:267-298 | Any error names an absent column. The output has no more entries than the names requested, and at most ten by default. |
| Queries.CompareEntries | src/data_processor.py:280-298 | There is one entry per requested name found in the table, in request order, built from that name's first matching row. Unknown names are skipped. |
| Queries.CompareSucceeds | src/data_processor.py:280-298 | With the city, country and metric columns present, the comparison succeeds. An empty request reads no column. |
| Queries.DefaultRequest | src/data_processor.py:277-284 | With the default request, every non-missing name among the first ten finds a row. |
| Queries.TextsOf | src/data_processor.py:108 | The group keys come from the country texts; missing keys are dropped. |
| Queries.GroupKeys | src/data_processor.py:108-117 | There is one group per distinct country text, in ascending order. |
| Queries.GetCitiesByCountry | src/data_processor.py:101-121 | The query fails exactly when one of the five columns read is absent, and the error names one of them. On success there is one count per country. |
| Queries.CitiesByCountryProperties | src/data_processor.py:108-121 | The query succeeds exactly when the five columns exist. There are as many counts as countries, and each count is the number of that country's rows with a city name. |
| Queries.CityCountsPositive | src/data_processor.py:108-118 | With no city name missing, every country counts at least one city. |
| Queries.CityCountsSum | src/data_processor.py:108-118 | With no country or city name missing, the counts add up to the row count. |
| Queries.SumCityCounts | src/data_processor.py:108-118 | Over distinct keys, the per-group counts add up to the rows that fall in some group. |
| Queries.ApplyStagesProperties | src/data_processor.py:342-360 | The mask steps, run in turn, fail exactly when an active step's column is absent. Otherwise they keep, in order, the rows passing every active step. |
| Queries.StagesKeep | src/data_processor.py:344-360 | Passing the six steps is exactly satisfying each active filter. |
| Queries.FilteredTable | src/data_processor.py:332-364 | On success the filtered table keeps the columns and has no more rows. An error names an absent column. |
| Queries.FilteredTableProperties | src/data_processor.py:342-360 | The result fails exactly when an active filter's column is absent. Otherwise it has the same columns and keeps, in order, exactly the rows satisfying every active filter. |
| Queries.NoActiveFilter | src/data_processor.py:344-360 | With every filter absent, empty or zero, the table is kept whole. |
| Processing.Preprocessed | src/data_processor.py:57-74 | The preprocessed table has the input's columns plus both coordinate columns, and the same number of rows. |
| Processing.PreprocessedProperties | src/data_processor.py:46-74 | Preprocessing adds coordinates before coercion. The table stays well formed, with no text in numeric columns, and other columns unchanged. |
| Processing.FilteredValid | src/data_processor.py:342-363 | The filtered table is well formed and its numeric columns hold no text. |
| Processing.CompareErrorStays | src/data_processor.py:281-296 | An error raised for an earlier name is the error of the whole comparison. |
| Processing.CityLifestyleDataProcessor.constructor | src/data_processor.py:14-22 | `df` is the preprocessed input. |
| Processing.CityLifestyleDataProcessor.EnsureGeolocation | src/data_processor.py:46-55 | `df` gets synthetic coordinates when either column is absent, and is left alone otherwise. |
| Processing.CityLifestyleDataProcessor.PreprocessData | src/data_processor.py:57-74 | `df` becomes the preprocessed table. |
| Processing.CityLifestyleDataProcessor.ApplyFilters | src/data_processor.py:332-364 | On success `df` becomes the filtered table and the previous table is returned. A missing column leaves `df` as it was. |
| Processing.CityLifestyleDataProcessor.RestoreDataframe | src/data_processor.py:366-373 | `df` becomes the given table. |
| Processing.CityLifestyleDataProcessor.WithFilters | src/data_processor.py:362-373 | Restoring what `apply_filters` returned gives back the table exactly as it was. |
| Processing.CityLifestyleDataProcessor.GetCityComparison | src/data_processor.py:267-298 | The loop returns exactly the comparison defined by `Compare`, including the error of the first failing name. |

## Left out

- Reading and writing CSV files, creating directories, and every `print`. The loaded table is a parameter, and `save_cleaned_data` is not part of this model.
- SHA-256, UTF-8 encoding, `pd.to_numeric`'s string parser and float formatting are foreign calls, passed in as `Platform` functions.
- Floating-point statistics are not part of this model:
  - means, std and `describe()` (including the cleaner's `numeric_summary`);
  - correlations;
  - the income, quality-of-life, happiness and insight queries;
  - the per-country means of `get_cities_by_country`.
- `get_geographic_data` is not part of this model. It only projects columns.
- Numbers are exact reals. A median or a clip bound is exact, and no rounding happens.
- Geocoder.Fraction: the exact quotient is below 1. In floating point `int / float(1 << 64)` can round up to 1.0, and the point then sits on the box's upper edge. `Inside` therefore uses a closed box.
- Column order is not modelled, because columns are a set. The order in which `handle_missing_values` visits gapped columns does not matter here, since each column is filled from its own cells.
- DataCleaning.DataCleaner.HandleMissingValues: `fillna(inplace=True)` on a column selection may not write back under pandas copy-on-write. The model writes the fill into the table, as intended.
- Cleaning.FillValue: when a numeric column has no number at all, its median is NaN and `fillna(NaN)` leaves the gaps. The model gives no fill value then, so `ImputedComplete` needs a fill value for every gapped column.
- A column counts as numeric when the cells it holds at that moment are only numbers and missing values. This follows the code's dtype test rather than the fixed list of ten numeric columns. The two agree on the ten numeric columns after conversion and on text columns that still hold text. They can differ elsewhere; see the next line.
- Cleaning.FillValue: pandas fixes a column's dtype when the CSV is read and when `convert_types` runs, and `drop_duplicates` does not re-infer it. A column outside the ten numeric ones (a `notes` column, say) whose only text sits in rows that deduplication drops is still object dtype. src/clean_data.py:80-82 then fills its gaps with "Unknown". The model decides from the remaining cells, finds only missing values, gives no fill value, and leaves those gaps missing.
- Int and bool dtypes are not distinguished from float.
- The cleaner and processor stages require `city_name` and `country` where the source would raise `KeyError` on a missing identity column. This applies to deduplication and to geolocation without coordinates.
- Processing.CityLifestyleDataProcessor.EnsureGeolocation: on an empty table without coordinates, pandas fails to assign the two new columns. The model adds both columns to no rows.
- DataCleaning.DataCleaner.EnsureGeolocation: the same holds for the cleaner (src/clean_data.py:178), and so for DataCleaning.DataCleaner.Clean on an input whose deduplicated table is empty and has no coordinates.
- Queries.GetTopCities: when n is at least the row count, pandas sorts with an unstable sort, so ties may come out in another order. The model always keeps the earlier row first.
- Queries.GetTopCities: the metric column must hold numbers. `nlargest` raises `TypeError` on text; the API's metric whitelist is not part of this model.
- Queries.GetTopCities: when several projected columns are absent, pandas names them all. The model reports the first.
- Queries.GetCitiesByCountry: when several aggregated columns are absent, pandas names them all. The model reports the first absent column of country, city_name, population_density, avg_income, happiness_score.
- Queries.GetFilterOptions: both columns must hold text only, because `sorted` raises on text mixed with NaN.
- Queries.GetCitiesByCountry: the country column must hold no numbers, because group keys are sorted by name.
- Queries.IsIn: filter lists hold strings and bounds are reals. Other JSON values are not modelled.
- Running `clean` twice is not stated to be idempotent. The second run starts from the CSV file written by the first, which is outside this model.
- Concurrent requests around the `apply_filters`/`restore_dataframe` swap are not modelled.

## Findings

| source | as written | input that shows it | evidently intended | confidence | as-written member | corrected member |
|---|---|---|---|---|---|---|
| src/clean_data.py:42-83 | Duplicates are dropped before missing values are filled. A row with a missing city_name is filled with "Unknown" after deduplication. | Two rows in France, one with city "Unknown" and one with a missing city. Both survive deduplication; after imputation the table holds ("Unknown", "France") twice. | After cleaning, no two rows share (city_name, country). | not executed | Cleaning.CleanedRepeatsKey | Cleaning.CleanedRededuplicatedUnique |

`DataCleaning.DataCleaner.Clean` follows the code as written. The corrected
pipeline, `Cleaning.CleanedTableRededuplicated`, runs deduplication again
after imputation.
