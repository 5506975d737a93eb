# Excel insight engine, modelled in Dafny

This project models the analysis engine of the `ExcelInsights` class in
`excel_insights.py`. The engine keeps the sheets of a loaded workbook, a default sheet,
and an insights dictionary. Five analysis passes select a sheet, compute a result over its
columns, and record that result under `insights[kind][sheet]`:

- summary statistics: `describe()` of every numeric column;
- correlations: the pairs of numeric columns whose Pearson correlation reaches a threshold
  in absolute value;
- outliers: by the IQR fences or by z-score; an unknown method name falls back to IQR;
- categorical profiles: value counts, the `top_n` most frequent values with their shares,
  and the unique and missing counts of every text column;
- date profiles: which columns are dates (the 70% rule), each one's earliest date, latest
  date, range and missing dates, and, with more than ten dates, its weekday, month and
  year distributions.

Modules:

- `Tables`: the table, its typed columns with null cells, `dropna`, `isnull().sum()` and
  the selection of columns by type.
- `RealArith`, `Numeric`, `Quantiles`: exact-real arithmetic, mean, sample variance,
  sorting, and quantiles by linear interpolation (the pandas default).
- `Dicts`: building a dictionary by successive `d[k] = v` assignments.
- `Counting`: `value_counts`, `nunique` and `head`.
- `Summary`, `Correlation`, `Outliers`, `Categorical`, `Dates`: one module per pass.
- `Engine`: the `ExcelInsights` class with its fields `filePath`, `data`, `sheets` and
  `insights`.

Each pass follows the same pattern:

- A function (`SummaryOf`, `CorrelationsOf`, `OutliersOf`, `CategoricalOf`, `DatesOf`)
  states what the pass returns for a table. `None` stands for the early `return {}`,
  which records nothing.
- Where the source loops, a method (`ComputeCorrelations`, `ComputeOutliers`,
  `ComputeCategorical`, `ComputeDates`) runs the source's loop and is proved equal to that
  function.
- Lemmas state the properties the source promises about the function.
- The class methods write the result back to `insights` and state the whole new state.

Numbers are exact reals. A null cell is `None`. pandas' NaN results are `None` too: the
missing share of an empty column, the statistics of an empty column, and a Pearson
correlation that is undefined.

Points where the code does something other than what its names or comments suggest; the
model follows the code:

- The 70% date rule divides the converted dates by all cells of the column, nulls
  included (`len(date_col)` at excel_insights.py:353), not by the non-null values; and a
  column with exactly 70% dates is kept, although the comment at :352 says "more than 70%".
- Every column that is not already a timestamp column is tried as dates, numeric ones
  included (excel_insights.py:348-351). Whether a conversion succeeds is up to the
  converter parameter.
- A pass that returns early records nothing. It does not overwrite an earlier record.
- A sheet name that is not loaded still gets analysed: the pass uses the default sheet and
  records the result under the name it was given.
- On `[1, 2, 3, 100]` the IQR method with threshold 1.5 flags 100: linear interpolation
  gives Q1 = 1.75 and Q3 = 27.25, so the upper fence is 65.5. `IqrExampleFourBounds` and
  `IqrExampleFour` prove this.

The passes take their defaults as default parameter values (`threshold := 0.5`,
`method := "iqr"`, `threshold := 1.5`, `top_n := 5`). The parameters that stand for pandas
(`pearson`, `convert`, `cal`) come first; the source's own parameters follow in its order.

## Model

| member | source | states |
|---|---|---|
| Tables.MissingCount | excel_insights.py:302 | the null count and the non-null values together make up the column; the count is zero exactly when no cell is null |
| Tables.PresentAppend | excel_insights.py:208 | `dropna` keeps row order: that of `a + b` is that of `a` followed by that of `b` |
| Tables.PresentCounts | excel_insights.py:208 | `dropna` keeps each value as often as it occurs in a non-null cell |
| Tables.PresentFromCells | excel_insights.py:208 | every value `dropna` keeps is a non-null cell of the column |
| Tables.PresentHasCell | excel_insights.py:208 | the value of every non-null cell is kept by `dropna` |
| Tables.Present | excel_insights.py:208 | `dropna()`: never longer than the column; its values, their multiplicity and their order are stated by `PresentFromCells`, `PresentHasCell`, `PresentCounts` and `PresentAppend` |
| Tables.NumericColumns | excel_insights.py:104 | a column is selected exactly when it is numeric; the order is stated by `NumericColumnsAppend` |
| Tables.TextColumns | excel_insights.py:281 | a column is selected exactly when it is a text column; the order is stated by `TextColumnsAppend` |
| Tables.NumericColumnsAppend | excel_insights.py:104 | the selection keeps sheet order: the numeric columns of `a + b` are those of `a` followed by those of `b` |
| Tables.TextColumnsAppend | excel_insights.py:281 | the selection keeps sheet order: the text columns of `a + b` are those of `a` followed by those of `b` |
| Tables.MissingCountAtMost | excel_insights.py:351 | a conversion that keeps every null cell null has at least as many nulls as its input |
| Tables.NoNumericColumns | excel_insights.py:106-108 | the selection is empty exactly when no column is numeric |
| Tables.NoTextColumns | excel_insights.py:283-285 | the selection is empty exactly when no column is a text column |
| Tables.NumericColumnsDistinct | excel_insights.py:147 | selecting the numeric columns keeps column names unique |
| Tables.TextColumnsDistinct | excel_insights.py:281 | selecting the text columns keeps column names unique |
| Numeric.Sort | excel_insights.py:212-213 | the ascending order quantiles are taken over: sorted, a permutation, same length |
| Numeric.SortedPermutationEnds | excel_insights.py:105-113 | the ends of the sorted values are values of the column and bound all of them |
| Numeric.Mean | excel_insights.py:223 | the mean of the non-null values; `MeanBounds` states that it lies between any bounds of the values |
| Numeric.SampleVariance | excel_insights.py:224 | the square of the sample `std` (one degree of freedom), never negative; `ConstantHasZeroVariance` states that it is zero for a constant column |
| Numeric.MeanBounds | excel_insights.py:223 | the mean lies between any lower and upper bound of the values |
| Numeric.ConstantHasZeroVariance | excel_insights.py:224-227 | a constant column has standard deviation zero |
| Quantiles.Quantile | excel_insights.py:212-213 | `quantile(q)` by linear interpolation at the rank q * (n - 1); its properties are `QuartilesOrdered`, `QuantileEnds` and `QuantileAt` |
| Quantiles.Quartiles | excel_insights.py:212-213 | `quantile(0.25)` and `quantile(0.75)` of the sorted values; `QuartilesOrdered` states Q1 <= Q3, `QuartilesOfFour` and `QuartilesOfFive` give them for four and five values |
| Quantiles.QuantileAt | excel_insights.py:212-213 | the quantile at rank `lo + f` is `s[lo] + f * (s[lo + 1] - s[lo])`, or `s[lo]` at the last rank |
| Quantiles.QuartilesOfFour | excel_insights.py:212-213 | the quartiles of four sorted values lie three quarters of the way from the first to the second, and a quarter of the way from the third to the fourth |
| Quantiles.QuartilesOfFive | excel_insights.py:212-213 | the quartiles of five sorted values are the second and the fourth |
| Quantiles.QuartilesOrdered | excel_insights.py:212-214 | min <= Q1 <= median <= Q3 <= max under linear interpolation |
| Quantiles.QuantileEnds | excel_insights.py:212-213 | the 0-quantile is the minimum and the 1-quantile the maximum |
| Dicts.CollectKeys | excel_insights.py:244 | the keys of a dictionary built by assignments are the keys that were assigned |
| Dicts.CollectLastWins | excel_insights.py:244 | each key holds the last value assigned to it |
| Dicts.CollectValues | excel_insights.py:244 | every stored value is a value assigned under that key |
| Summary.SummaryOf | excel_insights.py:103-114 | the summary of a sheet, `None` for the early return; stated by `SummaryOfColumns` and `SummaryOfStatistics` |
| Summary.Describe | excel_insights.py:110-114 | count is the number of non-null cells; the other statistics exist exactly when the count is positive; the spread exists from two values on |
| Summary.DescribeRange | excel_insights.py:110-114 | min and max are values of the column and bound every non-null cell |
| Summary.DescribeOrder | excel_insights.py:110-114 | min <= 25% <= 50% <= 75% <= max, and the mean lies between min and max |
| Summary.DescribeConstant | excel_insights.py:110-114 | a constant column of two or more values has zero spread |
| Summary.SummaryOfColumns | excel_insights.py:103-114 | no summary without a numeric column; otherwise the numeric column names in order, with statistics for exactly those columns |
| Summary.SummaryOfStatistics | excel_insights.py:110-114 | on a well-formed sheet, each numeric column's statistics are its own `describe()` |
| Correlation.CorrelationsOf | excel_insights.py:146-165 | the reported pairs of a sheet, `None` for the early return; stated by `CorrelationKeys`, `CorrelationValues` and `ThresholdMonotone` |
| Correlation.PairKey | excel_insights.py:165 | the key `f"{col1} - {col2}"`; `CorrelationKeys` states the keys in its terms |
| Correlation.ComputeCorrelations | excel_insights.py:146-165 | the nested `i < j` loop returns exactly `CorrelationsOf`: nothing with fewer than two numeric columns |
| Correlation.Reported | excel_insights.py:164 | `abs(correlation) >= threshold`, false for NaN; `ThresholdMonotone` states that raising the threshold only removes pairs |
| Correlation.Visit | excel_insights.py:160-165 | one pass of the inner loop: the pair's key is assigned exactly when its correlation is reported; stated by `RowMapKeys`, `RowMapValues` and `RowMapLast` |
| Correlation.RowMap | excel_insights.py:159-165 | the inner loop over `j` for one `i`; stated by `RowMapKeys`, `RowMapValues`, `RowMapUntouched` and `RowMapLast` |
| Correlation.LoopMap | excel_insights.py:158-165 | the first `i` rounds of the outer loop; stated by `LoopMapKeys`, `LoopMapValues` and `LoopMapLast` |
| Correlation.RowMapKeys | excel_insights.py:159-165 | one row of the inner loop adds exactly the keys of its reported pairs |
| Correlation.RowMapValues | excel_insights.py:159-165 | every value a row holds was there before it or is the correlation of one of its reported pairs |
| Correlation.RowMapUntouched | excel_insights.py:159-165 | a row none of whose pairs is reported under a key leaves that key as it was |
| Correlation.RowMapLast | excel_insights.py:159-165 | within a row, the last reported pair with a key sets that key's value |
| Correlation.LoopMapKeys | excel_insights.py:158-165 | the first `i` rounds assign exactly the keys of the reported pairs `a < b` with `a < i` |
| Correlation.LoopMapValues | excel_insights.py:158-165 | every value the first `i` rounds hold is the correlation of a reported pair with that key |
| Correlation.LoopMapLast | excel_insights.py:158-165 | after the first `i` rounds, the last reported pair with a key among them sets that key's value |
| Correlation.CorrelationKeys | excel_insights.py:149-165 | there is a result exactly with two numeric columns; a key is present exactly when some pair `a < b` with that key has a correlation whose absolute value reaches the threshold |
| Correlation.CorrelationValues | excel_insights.py:162-165 | every reported value is the correlation of a pair with that key and reaches the threshold |
| Correlation.CorrelationLastWins | excel_insights.py:158-165 | when two pairs give the same `"a - b"` key, the key holds the correlation of the pair the loop visits last |
| Correlation.ThresholdMonotone | excel_insights.py:164 | raising the threshold can only remove pairs |
| Outliers.Outside | excel_insights.py:219 | the values strictly outside the bounds, and all of them; multiplicity and order are stated by `OutsideCounts` and `OutsideAppend` |
| Outliers.OutsideCounts | excel_insights.py:219 | a value outside the bounds is flagged exactly as often as it occurs, any other value never |
| Outliers.OutsideAppend | excel_insights.py:219 | the mask keeps row order: the outside values of `a + b` are those of `a` followed by those of `b` |
| Outliers.OutsideNone | excel_insights.py:219 | nothing is flagged when the bounds enclose every value |
| Outliers.FarFrom | excel_insights.py:229-230 | the values whose z-score test holds, and all of them; multiplicity and order are stated by `FarFromCounts` and `FarFromAppend` |
| Outliers.FarFromCounts | excel_insights.py:229-230 | a value passing the z-score test is flagged exactly as often as it occurs, any other value never |
| Outliers.FarFromAppend | excel_insights.py:229-230 | the mask keeps row order: the flagged values of `a + b` are those of `a` followed by those of `b` |
| Outliers.Fences | excel_insights.py:214-217 | `Q1 - t * IQR` and `Q3 + t * IQR`; `FencesAround` and `IqrFencesEncloseQuartiles` state that they enclose the quartiles for t >= 0 |
| Outliers.IqrBounds | excel_insights.py:212-217 | the fences of the quartiles of the sorted values; `IqrFencesEncloseQuartiles` states that they enclose the quartiles, `IqrExampleFourBounds` gives them for `[1, 2, 3, 100]` |
| Outliers.IqrExampleFourBounds | excel_insights.py:212-217 | `[1, 2, 3, 100]` has quartiles 1.75 and 27.25 and, at 1.5, fences -36.5 and 65.5 |
| Outliers.IqrExampleFiveBounds | excel_insights.py:212-217 | `[1, 2, 3, 4, 1000]` has quartiles 2 and 4 and, at 1.5, fences -1 and 7 |
| Outliers.IqrOutliers | excel_insights.py:210-219 | the IQR method on one column; stated by `IqrOutliersCorrect`, `IqrFencesEncloseQuartiles` and the two examples |
| Outliers.ZScoreOutliers | excel_insights.py:221-230 | the z-score method on one column, `None` for the zero-std `continue`; stated by `ZScoreOutliersCorrect` and `ZScoreOutliersCounts` |
| Outliers.Record | excel_insights.py:243-248 | the record of a column with outliers; stated by `RecordShape` |
| Outliers.OutliersOf | excel_insights.py:198-248 | the outliers of a sheet, `None` for the early return; stated by `OutliersOfColumn`, `OutliersWellShaped` and `UnknownMethodIsIqr` |
| Outliers.ColumnOutliers | excel_insights.py:210-241 | the outliers found are values of the column |
| Outliers.ComputeOutliers | excel_insights.py:198-248 | the column loop, with the zero-std `continue`, returns exactly `OutliersOf` |
| Outliers.ZFarIsZScore | excel_insights.py:229-230 | the test without the square root agrees with `abs((x - mean) / std) > threshold` for std > 0 |
| Outliers.ZScoreOutliersCorrect | excel_insights.py:221-230 | with positive std, the z-score method flags exactly the values whose z-score exceeds the threshold |
| Outliers.ZScoreOutliersCounts | excel_insights.py:221-230 | with positive std, each value whose z-score exceeds the threshold is flagged as often as it occurs, no other value at all |
| Outliers.IqrOutliersCorrect | excel_insights.py:210-219 | the IQR method flags exactly the values outside `[Q1 - t*IQR, Q3 + t*IQR]`, each as often as it occurs |
| Outliers.IqrFencesEncloseQuartiles | excel_insights.py:214-217 | with a non-negative threshold the fences enclose the quartiles |
| Outliers.ConstantColumnHasNoOutliers | excel_insights.py:210-241 | a constant column has no outliers by any method, or it is skipped |
| Outliers.UnknownMethodIsIqr | excel_insights.py:232-241 | an unknown method name gives the same result as "iqr" |
| Outliers.RecordShape | excel_insights.py:243-248 | a record has a positive count, a percentage in (0, 100] and the first min(count, 10) outliers |
| Outliers.OutliersWellShaped | excel_insights.py:243-248 | every recorded column has a well-shaped record |
| Outliers.OutliersOfColumn | excel_insights.py:207-248 | a column is recorded exactly when outliers were found, with its own record |
| Outliers.IqrExampleFour | excel_insights.py:210-219 | on `[1, 2, 3, 100]` the IQR method at 1.5 flags exactly 100 |
| Outliers.IqrExampleFive | excel_insights.py:210-219 | on `[1, 2, 3, 4, 1000]` the IQR method at 1.5 flags exactly 1000 |
| Counting.Uniques | excel_insights.py:301 | the distinct values in first-seen order: no repeats, never more than the values; stated by `UniquesCover`, `UniquesOccur` and `UniquesFirstSeen` |
| Counting.ValueCounts | excel_insights.py:291 | `value_counts()`; stated by `ValueCountsSize`, `ValueCountsOrder`, `ValueCountsTieOrder`, `ValueCountsCount` and `ValueCountsFind` |
| Counting.ValueCountsSize | excel_insights.py:291 | one entry per distinct value, and the counts add up to the number of values |
| Counting.ValueCountsOrder | excel_insights.py:291 | entries are most frequent first, with distinct keys |
| Counting.SortByCountStable | excel_insights.py:291 | sorting by count keeps the entries of each count in their order |
| Counting.ValueCountsTieOrder | excel_insights.py:291-294 | two values with equal counts are listed in the order of the distinct values, first-seen order by `UniquesFirstSeen`; this decides the ties `head(top_n)` keeps |
| Counting.ValueCountsCount | excel_insights.py:291 | each entry's count is the number of occurrences of its value, and at least one |
| Counting.ValueCountsFind | excel_insights.py:291 | every value occurring in the column has an entry with its count |
| Counting.UniquesFirstSeen | excel_insights.py:301 | a value listed among the distinct values comes after every value seen before its first occurrence |
| Counting.UniquesCover | excel_insights.py:301 | every non-null value is among the distinct values |
| Counting.UniquesOccur | excel_insights.py:301 | every distinct value occurs among the non-null values |
| Counting.Head | excel_insights.py:294 | `head(n)` keeps the first n entries, or drops the last -n when n is negative |
| Categorical.Profile | excel_insights.py:289-310 | the record of one text column; stated by `ProfileCounts` and the `Top…` lemmas |
| Categorical.CategoricalOf | excel_insights.py:281-310 | the categorical analysis of a sheet, `None` for the early return; stated by `CategoricalColumns` and `CategoricalOfColumn` |
| Categorical.TopCategories | excel_insights.py:291-294 | `value_counts().head(top_n)`; stated by `TopLength`, `TopOrder`, `TopOccurrences`, `TopMostFrequent`, `TopComplete` and `TopTotal` |
| Categorical.TopLength | excel_insights.py:294 | `top_n` categories are listed, or all of them when there are fewer |
| Categorical.TopOrder | excel_insights.py:291-294 | the listed categories are distinct and most frequent first |
| Categorical.TopOccurrences | excel_insights.py:291-294 | each listed category is a non-null value with its number of occurrences |
| Categorical.TopMostFrequent | excel_insights.py:291-294 | no left-out value occurs more often than any listed one |
| Categorical.TopComplete | excel_insights.py:294 | with `top_n` at least the number of distinct values, every value is listed |
| Categorical.TopTotal | excel_insights.py:294-297 | the listed counts add up to at most the non-null count |
| Categorical.Percentages | excel_insights.py:297-298 | one share per category under its own key, none when there are no non-null values; its values are stated by `TopPercentages` |
| Categorical.TopPercentages | excel_insights.py:297-298 | one share per listed category, under its key, its percentage of the non-null count, in (0, 100] |
| Categorical.ProfileCounts | excel_insights.py:301-307 | missing + non-null = cells; unique <= non-null; no unique value exactly when every cell is null; missing share in [0, 100] over the row count |
| Categorical.ComputeCategorical | excel_insights.py:281-310 | the column loop returns exactly `CategoricalOf`: nothing without a text column |
| Categorical.CategoricalColumns | excel_insights.py:281-310 | no result exactly when there is no text column; otherwise one record per text column |
| Categorical.CategoricalOfColumn | excel_insights.py:289-310 | on a well-formed sheet, each text column's record is the profile of its own cells |
| Dates.MinOfIsLeast | excel_insights.py:360 | the earliest date is a date of the column and no later than any |
| Dates.MaxOfIsGreatest | excel_insights.py:361 | the latest date is a date of the column and no earlier than any |
| Dates.MostlyDates | excel_insights.py:352-354 | the 70% rule over all cells; stated without division by `MostlyDatesIff` |
| Dates.DateCells | excel_insights.py:346-356 | the dates of a column, or `None` when it is skipped; stated by `DateCellsRule` and `DateCellsShape` |
| Dates.Info | excel_insights.py:359-378 | the record of one date column; stated by `InfoRange`, `InfoMissing` and `InfoDistributions` |
| Dates.DatesOf | excel_insights.py:341-378 | the date analysis of a sheet; stated by `DatesKeys`, `DatesOfColumn` and `DatesMissingOfRows` |
| Dates.MostlyDatesIff | excel_insights.py:353 | a converted column is kept exactly when 10 * dates >= 7 * cells |
| Dates.DateCellsRule | excel_insights.py:346-356 | a timestamp column is always kept; any other column is kept exactly when its conversion succeeds and passes the 70% rule |
| Dates.ComputeDates | excel_insights.py:341-378 | the column loop, with its two `continue`s, returns exactly `DatesOf` |
| Dates.InfoRange | excel_insights.py:360-362 | min and max exist exactly when some date is present; they are dates of the column, bound all of them, and the range is max - min >= 0 |
| Dates.InfoMissing | excel_insights.py:363-364 | missing + present = cells; the missing share is in [0, 100], NaN only on an empty column |
| Dates.Distribution | excel_insights.py:368-378 | the weekday, month and year counts of the dates; stated by `InfoDistributions`, `YearCounts` and `YearListed` |
| Dates.InfoDistributions | excel_insights.py:368-378 | the distributions exist exactly when there are more than ten dates, and each counts every date once |
| Dates.YearCounts | excel_insights.py:377-378 | each listed year is the year of that many dates, at least one |
| Dates.YearListed | excel_insights.py:377-378 | the year of every date is listed |
| Dates.DatesKeys | excel_insights.py:344-359 | the keys are exactly the names of the kept columns |
| Dates.DatesOfColumn | excel_insights.py:359-378 | on a well-formed sheet, each kept column's record is the record of its own dates |
| Dates.DateCellsShape | excel_insights.py:351-364 | with a converter that coerces, the dates of a kept column have one cell per row and at least the column's null cells as nulls |
| Dates.DatesMissingOfRows | excel_insights.py:363-364 | with a converter that coerces, on a well-formed sheet, a kept column's missing count lies between its null cells and the rows, and its missing share is over the rows |
| Engine.SelectData | excel_insights.py:95-101 | the named sheet when it is loaded, otherwise the default sheet; `None` when nothing is loaded |
| Engine.RecordKey | excel_insights.py:120-123 | the key a result is recorded under: the sheet name when one is given, "default" otherwise |
| Engine.Recorded | excel_insights.py:116-123 | `setdefault(kind, {})[key] = v`; stated by the `Recorded…` lemmas |
| Engine.RecordedEntry | excel_insights.py:116-123 | a recorded result can be read back under its kind and sheet |
| Engine.RecordedOtherKinds | excel_insights.py:116-123 | recording leaves every other kind of analysis unchanged |
| Engine.RecordedOtherSheets | excel_insights.py:116-123 | recording leaves the other sheets of the same kind unchanged |
| Engine.RecordedLastWins | excel_insights.py:116-123 | running a pass again on the same sheet replaces its earlier result |
| Engine.RecordedCommute | excel_insights.py:116-123 | results recorded in different places do not interfere |
| Engine.Loaded | excel_insights.py:47-49 | the sheets after storing the workbook's sheets one by one; stated by `LoadedKeys` and `LoadedSheet` |
| Engine.LoadedKeys | excel_insights.py:47-48 | loading keeps the sheets already there and adds every sheet of the workbook |
| Engine.LoadedSheet | excel_insights.py:47-48 | with distinct sheet names, each sheet is stored under its own name |
| Engine.ExcelInsights.constructor | excel_insights.py:13-23 | the path is stored; no data, no sheets, no insights |
| Engine.ExcelInsights.LoadExcel | excel_insights.py:25-60 | a path argument replaces the stored one; fails without a path or when reading fails, changing no sheets; otherwise adds the workbook's sheets and makes the first the default |
| Engine.ExcelInsights.GenerateSummaryStatistics | excel_insights.py:95-125 | selects the named sheet or the default; returns `SummaryOf`; records it under the sheet name or "default" unless it returned early |
| Engine.ExcelInsights.FindCorrelations | excel_insights.py:138-176 | selects the sheet; returns `CorrelationsOf`; records it unless it returned early |
| Engine.ExcelInsights.IdentifyOutliers | excel_insights.py:190-259 | selects the sheet; returns `OutliersOf`; records it unless it returned early |
| Engine.ExcelInsights.AnalyzeCategoricalData | excel_insights.py:272-321 | selects the sheet; returns `CategoricalOf`; records it unless it returned early |
| Engine.ExcelInsights.AnalyzeDateColumns | excel_insights.py:333-389 | selects the sheet; returns `DatesOf`; records it whenever there is data |

## Left out

- Reading the workbook (`pd.ExcelFile`, `pd.read_excel`): `LoadExcel` takes the workbook's
  sheets as a parameter, with `None` for a read that raises.
- A read that fails after some sheets were stored is not modelled: a workbook is read
  whole or not at all.
- `get_basic_info`, `generate_insights_report`, `visualize_data`, `main` and
  `create_sample_data.py` are not part of this model: they are reporting, plotting and
  test-data code outside the engine.
- The console messages (`print`) are not modelled.
- Pearson correlation (`DataFrame.corr`) is the parameter `pearson`. It needs a square
  root, and its pairwise-complete statistics are pandas' own code.
- `pd.to_datetime(errors='coerce')` is the parameter `convert`. `day_name`, `month_name`
  and `year` are the parameter `cal`. Dates are whole day numbers, so a time of day is not
  modelled.
- `strftime('%Y-%m-%d')` is not modelled: `min_date` and `max_date` are day numbers.
- The loaded column types (`dtype` strings) are reduced to numeric, text, timestamp and
  boolean. pandas' `category` dtype counts as text.
- A boolean column with blank cells is loaded by pandas with `object` dtype, so
  `analyze_categorical_data` profiles it (excel_insights.py:281). The model has no such
  column: boolean cells are never null, and a column of booleans and blanks cannot be
  written as a text column of strings.
- Summary.Describe: reports the sample variance where `describe()` reports its square root
  `std`, because the model has no square root. `Numeric.ConstantHasZeroVariance` and
  `DescribeConstant` are stated on the variance.
- `pd.to_datetime` is a parameter, so its own guarantees are an assumption:
  `Dates.Coerces` states the two the model relies on (one cell per row, a null cell stays
  null). The lemmas `DateCellsShape` and `DatesMissingOfRows` require it; the operations
  themselves do not. Which non-null cells parse is left open.
- Floating point is not modelled: all arithmetic is over exact reals.
  - The 70% rule is compared exactly, without rounding.
  - A sample variance that rounds to a non-zero value for a constant column is not
    modelled.
- Outliers.ZScoreOutliersCorrect: it takes the square root `std` as an argument, and
  requires a positive variance. Without a square root in the model, the z-score test
  itself is stated on the variance (`ZFar`), and `ZFarIsZScore` ties the two.
- Dictionary order is not modelled. Results are maps, except the `value_counts` lists,
  which are ordered by count. pandas documents only the descending frequency; keeping ties
  in first-seen order (`ValueCountsTieOrder`) is the model's choice.
- Key collisions are modelled as Python's dictionaries behave: the later assignment wins.
  This covers two column-name pairs that give the same `"a - b"` key
  (`CorrelationLastWins`), and a sheet named "default".
- Categorical.TopPercentages: the share is stated as `Percentage(count, total)`. Its
  scaled form, share * total == count * 100, is proved once in `RealArith.PercentOf`.
