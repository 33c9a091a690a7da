# Happiness data loader

This project models the data layer of a set of dashboards over the World
Happiness Report table. The dashboards are built from CSV files. The layer
is the `DataLoader` class, which exists in two versions:

- `data/test.py` is the caching loader. It keeps the last table read in
  `happiness_data` and the file's modification time in `_mtime`. It also
  keeps two indexes derived from the table: `country_list` and `dict_years`.
  `load_data(force)` re-reads the file only when forced, when nothing is
  cached, or when the modification time has changed. A missing file raises.
  The getters filter or sort the cached table, and raise `ValueError` before
  any load.
- `data/data_con.py` is the uncached loader. `load_data()` reads the file
  into `happiness_data`. Each getter derives its answer from that field on
  demand: the country list, the year labels, the shape, the year range, the
  top ten of a year, and the rows of a year or of a country.

The model is in six modules:

- `Wrappers`: `Option` and `Result`.
- `Sequences`: the data-frame operations the getters use. These are
  boolean-mask filtering (`Filter`), `unique()` (`Distinct`, keeping
  first-occurrence order), sorting by a key (`SortBy`, a stable insertion
  sort) and `head(k)` (`Head`).
- `Text`: Python's `str(int)` and its inverse. Also Python's string order
  and the case-fold key.
- `Happiness`: the table and the queries both classes share. Each query
  comes with a specification predicate that describes its result without
  saying how it is computed: `IsYearSlice`, `IsTopN`, `IsCountryHistory`,
  `HasPoint`, `IsShapeText` and `IsRangeText`.
- `CachedLoader`: the class of `data/test.py`. It also has `LoadStep`, the
  pure transition that `load_data` performs on the four fields, and the
  invariant `Consistent` that every load preserves.
- `PlainLoader`: the class of `data/data_con.py`.

A row is `Row(year, country, score, gdp)`. Ladder score and GDP are
`Option<real>`, because a cell can be missing (NaN). Only the order of the
scores matters. The file is not read by the model. It is a parameter,
`CsvFile`, which is either `Missing` or `Present(mtime, parsed)`. `parsed`
is the table `read_csv` would return with the four `usecols`, or `None` when
a required column is absent.

The model follows the code as written:

- `_get_mtime` reports a missing file as -1 and `load_data` tests
  `mtime < 0`. So a file that exists but has a negative modification time is
  also reported as not found.
- The cache-hit test runs before the missing-file test. A cached table is
  therefore served while the file's modification time is unchanged, and the
  file is not read again. Because the invariant keeps the recorded time non-negative, a
  missing file never matches it.
- A load that raises assigns nothing. The previous table, modification time
  and indexes stay in place.
- `head(top)` with a negative `top` keeps all rows but the last `-top`. This
  is pandas' behaviour, and `TopByScore` and `IsTopN` model it.
- `sort_values` puts missing ladder scores last (`ScoreFirst`).
- `get_range_years` on a table with no rows calls `min()` on no years, which
  raises. `YearRange` returns `Failure(EmptyTable)` in that case.
- `_rebuild_country_list` drops only empty names (`""`). It does not strip
  whitespace, although its docstring says it does.
- `sort_values` on the ladder score uses pandas' default sort, which is not
  stable, so the top-N rows promise no order among equal scores.
- The loader keeps no file size. `metadata()` reads it from the file system
  when called (data/test.py:109).

## Model

| member | source | states |
|---|---|---|
| Happiness.ReadCsv | data/test.py:44-50 | Reading the file gives its table when it is present and parses. A missing file is `FileNotFound` and a missing column is `SchemaError`. |
| Sequences.Filter | data/test.py:126 | A boolean mask keeps exactly the elements satisfying the predicate, each as often as in the input, as a subsequence in the original order. |
| Sequences.Distinct | data/data_con.py:14 | `unique()` has no duplicates and holds exactly the input's elements. Each element comes before every later one's first occurrence. |
| Sequences.SortBy | data/test.py:74 | Sorting returns a permutation of its input (same multiset). |
| Sequences.SortBySorted | data/test.py:74 | For a total preorder, the sorted result is ordered: each element may precede every later one. |
| Sequences.SortByNoDuplicates | data/test.py:74 | Sorting a sequence without duplicates gives one without duplicates. |
| Sequences.SortDistinct | data/test.py:105 | Sorting the distinct elements gives each element once, in order, and nothing else. |
| Sequences.SortByStable | data/test.py:74 | The sort is stable: when two elements compare equal, the earlier one in the result also occurs earlier in the input. |
| Sequences.FilterFirstSeen | data/test.py:67-71 | Dropping elements that fail the mask does not change which of two kept elements the sequence shows first. |
| Sequences.SortDistinctStable | data/test.py:74 | After `unique()` and a stable sort, elements that compare equal are in order of first occurrence in the input. |
| Sequences.SortedPrefix | data/test.py:119 | A prefix of a sorted sequence is sorted, and each element after it may follow each element in it. |
| Sequences.Head | data/test.py:119 | `head(k)` is a prefix of length min(k, n), or max(0, n + k) for a negative k. |
| Text.Decimal | data/test.py:105 | `str(y)` is decimal text in the canonical form `str` writes: a minus sign exactly for a negative year, no leading zero, never `-0`. |
| Text.NatTextRoundTrip | data/test.py:105 | Every digit string without a leading zero is the decimal form of the number it denotes. |
| Text.DecimalCanonical | data/test.py:105 | Every string of the canonical form is `str` of its own value: `str(int(s)) == s`. |
| Text.NatToDecimal | data/test.py:105 | The decimal form of a natural number is a non-empty string of digits with no leading zero. |
| Text.ParseNatToDecimal | data/test.py:105 | Parsing the digits back gives the number. |
| Text.DecimalRoundTrip | data/test.py:105 | `str(y)` is well-formed decimal text, and `int(str(y)) == y` for every integer, negative ones included. |
| Text.DecimalInjective | data/test.py:105 | Two years have the same `str` label exactly when they are equal. |
| Text.LexLe | data/test.py:74 | Python's string `<=`: a prefix is ordered before the longer string, and a non-empty string can precede only a non-empty string whose first character is not smaller. |
| Text.LexLeFirstDifference | data/test.py:74 | `a <= b` holds exactly when `a` is a prefix of `b` or, at the first position where they differ, `a` has the smaller code point. |
| Text.LexLeTotal | data/test.py:74 | Python's string order compares any two strings. |
| Text.LexLeTransitive | data/test.py:74 | Python's string order is transitive. |
| Text.LexLeReflexive | data/test.py:74 | Every string is ordered before or with itself. |
| Text.Casefold | data/test.py:74 | The case-fold key keeps the length, lowers every ASCII capital letter and leaves other characters unchanged. |
| Text.CasefoldLeTotalPreorder | data/test.py:74 | Comparing case-fold keys is a total preorder, so `sorted(..., key=casefold)` has a well-defined order. |
| Text.CasefoldIgnoresCase | data/test.py:74 | Two names of the same length whose characters are, position by position, equal or the two cases of one ASCII letter sort as equals under the case-fold key. |
| Happiness.ScoreFirst | data/test.py:119 | The descending ladder-score order: between two present scores the higher may come first, a missing score may follow anything, and a missing score never precedes a present one. |
| Happiness.ScoreFirstTotalPreorder | data/test.py:119 | Descending ladder-score order with missing scores last is a total preorder. |
| Happiness.ByYear | data/test.py:124-128 | Returns exactly the rows of that year, with their multiplicities, in the original order. |
| Happiness.TopOfSorted | data/test.py:116-122 | Filter, sort descending, then `head(top)` meets `IsTopN`. |
| Happiness.TopOfSortedSlice | data/test.py:118-119 | Any score-sorted arrangement of exactly a year's rows, cut by `head(top)`, meets `IsTopN`. |
| Happiness.TopByScore | data/test.py:116-122 | The top-N query: only rows of that year, drawn from the table, `head(top)`'s count of them, ordered by score descending, and no omitted row of that year scores higher than a kept one. |
| Happiness.ByCountry | data/test.py:130-134 | Returns a permutation of the rows with exactly that name, sorted by year ascending. |
| Happiness.SortedHistory | data/test.py:132 | Sorting by year the rows that carry a name, each as often as in the table, meets `IsCountryHistory`. |
| Happiness.AbsentCountryIsEmpty | data/test.py:130-134 | An absent name gives an empty result, not an error. |
| Happiness.ScatterPoints | data/test.py:136-140 | A pair is in the result exactly when some row with both values present has it. There are never more pairs than rows. |
| Happiness.ScatterIsProjection | data/test.py:136-140 | The pairs are the complete rows' (score, GDP), one per complete row, in table order. |
| Happiness.YearsOf | data/test.py:105 | The year column has one entry per row, and a year occurs in it exactly when some row has that year. |
| Happiness.SortedYears | data/test.py:105 | `sorted(unique(years))` is strictly ascending and holds exactly the table's years. |
| Happiness.LabelYears | data/test.py:105 | Labelling strictly ascending years, which are exactly the table's, with their own `str` gives self-labelled decimal keys that read back as distinct ascending years of the table and cover every row. |
| Happiness.YearLabels | data/test.py:105 | `dict_years` maps each label to itself. Its keys are decimal texts whose values strictly ascend (so they are distinct), each one a year of the table, and every row's year has a key. |
| Happiness.ExtremeYears | data/data_con.py:32-33 | The first and last of the table's strictly ascending years are its least and greatest, and there are none exactly when the table is empty. |
| Happiness.YearRange | data/data_con.py:30-35 | An empty table fails. Otherwise the result is a pair of years of the table with every row's year between them. |
| Happiness.NamesOf | data/test.py:68 | The name column has one entry per row, and a name occurs in it exactly when some row carries it. |
| Happiness.CountryList | data/test.py:61-75 | The derived country list has no duplicates and no empty name. It is sorted by case-fold key, and it holds exactly the non-empty names of the table. Names with equal keys keep the order in which the table first shows them. |
| Happiness.CountryTiesFirstSeen | data/test.py:67-74 | After dropping empty names, taking `unique()` and sorting by case-fold key, two names with equal keys appear in the order in which the table first shows them. |
| Happiness.FirstSeenCountries | data/data_con.py:12-16 | `unique().tolist()` of the names: each name of the table once, in order of first occurrence. |
| Happiness.ShapeText | data/data_con.py:26 | The message reads `Rows <a> cols <b>`, where `a` and `b` parse back to the two counts. |
| Happiness.RangeText | data/data_con.py:33 | The message reads `from <a> to <b>`, where `a` and `b` parse back to the two years. |
| CachedLoader.GetMtime | data/test.py:38-42 | The observed time is the file's own time. It is negative exactly when the file is missing or its time is negative. |
| CachedLoader.Consistent | data/test.py:99-105 | The cache invariant: nothing cached means no time, no countries and no labels. A cached table has a non-negative recorded time, a country list holding exactly its non-empty names, and year labels with a key for every row's year. |
| CachedLoader.LoadStep | data/test.py:80-105 | The load is a hit exactly when not forced, a table is cached and the observed time is the recorded one; a hit returns the cached table and changes nothing. It reloads exactly when it is not a hit and the file exists and parses. A needed reload with a missing file raises `FileNotFound`, and an unparsable file raises `SchemaError`. A failure keeps all four fields. A reload stores the new table, the observed time and both indexes recomputed from that table. Every load preserves `Consistent`. |
| CachedLoader.SecondLoadHits | data/test.py:88-92 | After a reload, an unforced load of the unchanged file is a cache hit that changes nothing, so the file is read at most once. |
| CachedLoader.ForcedLoadReads | data/test.py:91-97 | A forced load of an existing file always reads it: it reloads, or the read fails. |
| CachedLoader.ChangedFileReloads | data/test.py:83-92 | For a cache holding a table, an unforced load of a readable file whose time differs from the recorded one reloads and caches that file's table. |
| CachedLoader.MissingFileThenPresent | data/test.py:94-95 | For a consistent cache, a load of a missing file fails with `FileNotFound` and leaves the cache as it was. When nothing was cached, a later load of the present file reloads. |
| CachedLoader.DataLoader.constructor | data/test.py:16-33 | A new loader has no table, no recorded time, an empty country list and no year labels, and it satisfies the invariant. |
| CachedLoader.DataLoader.RebuildCountryList | data/test.py:52-75 | Sets `country_list` from the cached table, or to empty when none is loaded. The list has no duplicates, no empty name, is sorted by case-fold key and holds exactly the table's non-empty names. Names with equal keys are in order of first appearance. |
| CachedLoader.DataLoader.LoadData | data/test.py:80-105 | The new fields and the outcome are those of `LoadStep` on the old fields, and a consistent loader stays consistent. |
| CachedLoader.DataLoader.GetTop10HappiestCountries | data/test.py:116-122 | Raises `NotLoaded` before a load. Otherwise returns rows meeting `IsTopN` for the cached table. |
| CachedLoader.DataLoader.GetDataByYear | data/test.py:124-128 | Raises `NotLoaded` before a load. Otherwise returns exactly that year's rows in their original order. |
| CachedLoader.DataLoader.GetDataByCountry | data/test.py:130-134 | Raises `NotLoaded` before a load. Otherwise returns that country's rows by year ascending, and an empty result for an absent name. |
| CachedLoader.DataLoader.GetCleanDataForScatter | data/test.py:136-140 | Raises `NotLoaded` before a load. Otherwise returns one (score, GDP) pair per row where both are present, in table order, and a pair occurs exactly when such a row has it. |
| PlainLoader.DataLoader.constructor | data/data_con.py:4-5 | A new loader holds no table. |
| PlainLoader.DataLoader.LoadData | data/data_con.py:7-10 | Returns the read result. On success it stores that same table, and on failure the field is unchanged. |
| PlainLoader.DataLoader.GetCountryList | data/data_con.py:12-16 | Raises `NotLoaded` before a load. Otherwise returns each name once, exactly the table's names, in first-occurrence order. |
| PlainLoader.DataLoader.GetDictYears | data/data_con.py:18-22 | Raises `NotLoaded` before a load. Otherwise returns self-labelled keys with strictly ascending year values, each a year of the table, covering every row's year. |
| PlainLoader.DataLoader.GetShape | data/data_con.py:24-28 | Raises `NotLoaded` before a load. Otherwise the message gives the row count and 4 columns. |
| PlainLoader.DataLoader.GetRangeYears | data/data_con.py:30-35 | Raises `NotLoaded` before a load, and fails on an empty table. Otherwise the message names two years of the table, min ≤ max, with every row's year between them. |
| PlainLoader.DataLoader.GetTop10HappiestCountries | data/data_con.py:46-52 | Raises `NotLoaded` before a load. Otherwise returns at most 10 rows meeting `IsTopN` with top = 10. |
| PlainLoader.DataLoader.GetDataByYear | data/data_con.py:54-58 | Raises `NotLoaded` before a load. Otherwise returns exactly that year's rows in their original order. |
| PlainLoader.DataLoader.GetDataByCountry | data/data_con.py:60-64 | Raises `NotLoaded` before a load. Otherwise returns that country's rows by year ascending, and an empty result for an absent name. |

## Left out

- File I/O: `os.path.getmtime`, `pd.read_csv` and `asyncio.to_thread` (data/test.py:38-50) are replaced by the `CsvFile` parameter. The mtime is observed at the same moment the table is read, so a file that changes between the two calls is not modelled.
- `async`: the getters and `load_data` are modelled as synchronous calls. The model does not cover interleaving of concurrent calls.
- `metadata()` (data/test.py:107-114) is left out. It only reports the path, `_mtime` and a file size obtained from the file system.
- `get_range_ladder_score` (data/data_con.py:37-44) is left out. It is floating-point rounding and formatting of the score range.
- Modification times and scores are modelled as `int` and `real`, not floating point.
- The results are row sequences. They are not data frames with index labels and column subsets.
- The country name is always text and the year always an integer. The model does not cover a missing name, which `astype(str)` turns into text in a way that depends on the pandas version, or a missing year.
- The `"Country name" not in columns` branch of `_rebuild_country_list` (data/test.py:62) can only be reached here with no table loaded. `usecols` makes any loaded table carry the column, or the read fails with `SchemaError`.
- Text.Casefold: folds only the ASCII capitals A-Z. Python's `str.casefold` also folds non-ASCII letters (for example "ß" to "ss").
- Happiness.TopByScore: promises no order among rows with equal scores, because pandas' default sort is not stable. The model's own sort happens to be stable.
- Happiness.ByCountry: promises no order among rows of the same year, for the same reason.
- The UI apps, the plotting helpers, the database connector and the icon listing are outside this model.
