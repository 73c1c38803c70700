# Date dimension builder, modelled in Dafny

This project models the batch job in `punto3.py`, which builds a `dim_date` table from the rental fact files of an object-storage prefix. It keeps the listed keys that end in `.parquet` and fails when there are none. For each file it fails when the `rental_date` column is missing. Otherwise it converts that column to timestamps, coercing unparseable values to missing, and drops the missing rows. It then concatenates the tables and deduplicates the timestamps. Each kept timestamp is cut to its calendar date, and the job derives `date_id` (YYYYMMDD as an integer), `day_of_week` (English name), `is_weekend`, `quarter` and `is_holiday`. Finally it lays the columns out as `date_id, rental_date, is_weekend, is_holiday, day_of_week, quarter`.

Modules, one per file:

- `Wrappers` (`wrappers.dfy`): `Option` and `Result`.
- `Seqs` (`seqs.dfy`): subsequences, duplicate-freedom, first occurrences, and `Dedup`, the order-preserving deduplication that `drop_duplicates` performs.
- `Calendar` (`calendar.dfy`): the proleptic Gregorian calendar of Python's `datetime`. It covers validity with the leap-year rule and day numbers with both Python's closed form and a year-by-year count. It also covers the weekday counted from the Thursday 1970-01-01, the English day names, the weekend test, the quarter, and the `Timestamp` type (a valid date plus a nanosecond of the day).
- `DateKey` (`datekey.dfy`): `strftime("%Y%m%d")` read back by `int`, its arithmetic form `y*10000 + m*100 + d`, and the decoding back to a date.
- `Frames` (`frames.dfy`): a table of named columns and the by-name projection `df[[...]]`.
- `Loader` (`loader.dfy`): the key filter, the per-file column check, the datetime normalisation, the dropping of missing values, and the concatenation in key order.
- `Dimension` (`dimension.dfy`): the dimension rows, the table before the reorder, and the reordered table.
- `Etl` (`etl.dfy`): one whole run, from listing to dimension table.

Behaviour of the code that a reader of the job's purpose might not expect, modelled as the code has it:

- A date dimension usually holds one row per calendar date, but this code deduplicates whole timestamps (`punto3.py:50`) before it cuts them to dates (`punto3.py:53`). Two rentals on one day at different times therefore give two rows with the same `rental_date` and `date_id`. `Dimension.SameDayRentalsGiveTwoRows` exhibits this, and `Dimension.DimRowCount` states the actual row count: the number of distinct timestamps.
- An empty listing, or one with no `.parquet` key, is an error (`punto3.py:19-20`), not an empty table. Files that are all empty after dropping missing values give an empty dimension.
- The test fixture's columns (`day`, `month`, `year`, `week_of_year`) are not the ones the script writes. Only its date and key values serve as examples here.

`date_id` equals `y*10000 + m*100 + d` for every year from 1 to 9999, whether or not the platform pads `%Y` to four digits, because month and day are always two digits. The eight-digit form and the range 10000101–99991231 hold for years 1000–9999.

## Model

| member | source | states |
|---|---|---|
| Loader.ParquetKeys | punto3.py:17 | the kept keys are a subsequence of the listing (original order), every kept key ends in ".parquet", and each such key is kept exactly as often as it was listed |
| Loader.SourceKeys | punto3.py:16-20 | fails with NoParquetFiles exactly when no listed key ends in ".parquet"; otherwise yields the non-empty filtered key list |
| Loader.HasParquetSuffixIsEndsWith | punto3.py:17 | a key passes the suffix test exactly when it is some string followed by ".parquet" |
| Loader.AsDatetime | punto3.py:37-38 | a column already of datetime type is used unchanged; any other column is converted cell by cell to a column of the same length, a missing cell becoming a missing timestamp and every other cell being read by the parser the coercion settles on for that column (None when it cannot parse it) |
| Loader.RawTimestampsComeFromCells | punto3.py:38 | a timestamp appears in a converted column exactly when some non-missing cell parses to it |
| Loader.AllMissingLoadsNothing | punto3.py:38-41 | a rental_date column of only missing cells loads no timestamp, whatever the parser |
| Loader.DropMissingAllNone | punto3.py:41 | dropping missing values from a column with no present value leaves nothing |
| Loader.DropMissing | punto3.py:41 | no missing value remains, a timestamp is kept iff it was present, and the result is no longer than the column |
| Loader.DropMissingKeepsOrder | punto3.py:41 | the kept timestamps appear in the column's order (a subsequence of the present values) |
| Loader.DropMissingKeepsCounts | punto3.py:41 | each present timestamp is kept exactly as many times as it occurs |
| Loader.LoadTable | punto3.py:31-43 | fails with MissingRentalDate(key) exactly when the table has no rental_date column; otherwise yields exactly the present values of that column after normalisation |
| Loader.LoadAll | punto3.py:25-46 | succeeds iff every file has rental_date; a failure names the first file without it; on success a timestamp is loaded iff it is a present value of some file's column |
| Seqs.Dedup | punto3.py:50 | the result has no duplicates, holds every input value and only input values, and is no longer than the input |
| Seqs.DedupFirstOccurrenceOrder | punto3.py:50 | kept values appear in the order of their first occurrences in the input (the first occurrence is the one kept) |
| Seqs.DedupLength | punto3.py:50 | deduplication keeps exactly one element per distinct input value |
| Calendar.DateOf | punto3.py:53 | the date part of a timestamp is always a valid calendar date |
| Dimension.DimDates | punto3.py:50-53 | the dimension's dates are valid, at most as many as the timestamps, every input timestamp's date appears, every date is some input timestamp's date, and they follow the deduplicated timestamps one to one |
| Calendar.DaysInMonth | punto3.py:53 | month lengths: 29 days exactly for February in a leap year, 28 for February otherwise, 30 for April, June, September and November |
| Calendar.DaysBeforeYearStep | punto3.py:57 | the closed-form day count grows by exactly the length of each year (leap rule: every 4th, not every 100th, every 400th) |
| Calendar.DaysBeforeYearIsCount | punto3.py:57 | the closed-form day count before a year equals the sum of the lengths of all earlier years |
| Calendar.OrdinalNextDay | punto3.py:57 | the day after any date has the next day number |
| Calendar.OrdinalIncreasing | punto3.py:57 | a chronologically earlier date has a smaller day number |
| Calendar.OrdinalInjective | punto3.py:57 | two valid dates with the same day number are the same date |
| Calendar.WeekdayNextDay | punto3.py:57 | each day's weekday follows the previous day's, Sunday wrapping to Monday |
| Calendar.WeekdayExamples | test/test_dim_date.py:9-14 | 1970-01-01 is a Thursday, 2005-05-24 a Tuesday and 2005-05-25 a Wednesday |
| Calendar.Weekday | punto3.py:57 | the weekday number is in 0..6 (Monday 0); its day-to-day succession and anchor dates are stated by Calendar.WeekdayNextDay and Calendar.WeekdayExamples |
| Calendar.DayName | punto3.py:57 | the day name is one of the seven English weekday names |
| Calendar.WeekendIsSaturdayOrSunday | punto3.py:58 | the name is "Saturday" or "Sunday" exactly on the last two weekdays |
| Calendar.Quarter | punto3.py:59 | the quarter is in 1..4 and is the one whose three months contain the month |
| Calendar.QuarterMonotone | punto3.py:59 | a later month never has an earlier quarter |
| DateKey.DateId | punto3.py:56 | a valid date's key lies in 10101..99991231; that it is the formatted value, decodes back and orders like the dates is stated by the lemmas below |
| DateKey.FormatYmd | punto3.py:56 | the formatted key is digits only; its value and length are stated by DateKey.DateIdIsFormattedValue and DateKey.FormattedLength |
| DateKey.DateIdIsFormattedValue | test/test_dim_date.py:27-31 | the integer read from the formatted "YYYYMMDD" string is y*10000 + m*100 + d, whatever minimum width the platform gives the year |
| DateKey.FormattedLength | punto3.py:56 | for years 1000..9999 the formatted key has exactly eight characters |
| DateKey.DecodeDateId | punto3.py:56 | a key decodes only to a valid date, and only to the date whose key it is |
| DateKey.DecodeDateIdOfDateId | punto3.py:56 | decoding a valid date's key gives the date back |
| DateKey.DateIdInjective | punto3.py:56 | distinct valid dates have distinct keys |
| DateKey.DateIdOrder | punto3.py:56 | keys compare numerically exactly as their dates compare chronologically |
| DateKey.DateIdEightDigits | punto3.py:56 | for years 1000..9999 the key lies in 10000101..99991231 and has eight decimal digits |
| DateKey.DateIdExample | test/test_dim_date.py:9-10 | 2005-05-24 has key 20050524 and formats as "20050524" |
| Dimension.MakeRow | punto3.py:56-63 | a row's key decodes to its date (eight-digit range for four-digit years), its day name is the date's weekday name, is_weekend holds iff that name is "Saturday" or "Sunday" (iff the weekday is one of the last two), its quarter is in 1..4 and contains the month, and is_holiday is membership in the holiday calendar |
| Frames.MissingColumns | punto3.py:66 | the reported names are exactly the requested names that are not columns |
| Frames.Select | punto3.py:66 | the projection succeeds iff every requested name is a column; it then has exactly the requested columns in order, the same number of rows, and each column the same cells as the source column of that name; a failure reports exactly the absent names |
| Dimension.DerivedFrame | punto3.py:50-63 | the table before the reorder is well formed, has the columns in derivation order and one row per distinct timestamp |
| Dimension.BuildDimension | punto3.py:50-66 | the reorder never fails and yields a well-formed table with exactly the published columns and one row per distinct timestamp; its cells are stated by Dimension.BuildDimensionLayout and Dimension.BuildDimensionProvenance |
| Dimension.BuildDimensionLayout | punto3.py:50-66 | the reorder never fails, and the table has exactly the columns date_id, rental_date, is_weekend, is_holiday, day_of_week, quarter, one row per dimension record, with cells in that order |
| Dimension.DimRowCount | punto3.py:50-53 | the dimension has as many rows as the input has distinct timestamps, so never more rows than timestamps |
| Dimension.DimRowsMembership | punto3.py:50-63 | a record is a row iff it is the record of some input timestamp's date |
| Dimension.DimRowsOrderIndependent | punto3.py:50-63 | inputs with the same set of timestamps give the same set of rows, whatever their order and repetitions |
| Dimension.SameDayRentalsGiveTwoRows | punto3.py:50-56 | two timestamps on one day at different times give two rows with the same rental_date and date_id |
| Dimension.MakeRowExamples | test/test_dim_date.py:9-14 | the records of 2005-05-24 and 2005-05-25 have keys 20050524 and 20050525, Tuesday and Wednesday, no weekend, quarter 2 |
| Dimension.DimRowsExample | punto3.py:50-63 | timestamps for 24, 25 and again 24 May 2005 give exactly the two fixture rows, in first-seen order |
| Dimension.BuildDimensionProvenance | punto3.py:50-66 | every row of the built table holds the cells of the record of some input timestamp's date |
| Etl.RunEtl | punto3.py:15-66 | a successful run yields a table with exactly the published columns, each row being the record of a timestamp present in some source file |
| Etl.RunEtlNoSourceFiles | punto3.py:17-20 | a run fails with NoParquetFiles exactly when no listed key ends in ".parquet" |
| Etl.RunEtlSucceeds | punto3.py:15-46 | a run succeeds exactly when some key ends in ".parquet" and every such file has a rental_date column |
| Etl.RunEtlMissingColumn | punto3.py:33-34 | a MissingRentalDate failure names a selected source file that lacks the rental_date column |

## Left out

- Object-storage access (`punto3.py:13`, `16`, `28`, `72-76`). Creating the client, listing, fetching and writing are network I/O. The listing is a parameter (`listing`) and fetching plus decoding one file is a parameter (`fetch`). Writing the result is not modelled. A single listing call returns at most 1000 keys and the code does not page through the rest; the model takes whatever listing it is given. `fetch` always returns a table, so a failing `get_object` or `read_parquet` (`punto3.py:28`, `31`), which ends the run with an exception, is not represented.
- Columnar decoding and encoding with Snappy compression (`punto3.py:31`, `70`). These are foreign library calls, folded into `fetch` for reading and left out for writing.
- String-to-timestamp parsing by `pd.to_datetime(..., errors="coerce")` (`punto3.py:38`). It is a library parser that infers a format from the whole column, so the parameter `coerce` gives, for each column, the cell parser it settles on. The model fixes what the conversion keeps of the column: it works cell by cell, keeps the length, turns a missing cell into a missing timestamp, and a cell the parser cannot read becomes missing too. Which text or number parses to which timestamp is not modelled, and neither are time zones.
- The United States holiday rules of `holidays.US()` (`punto3.py:62`). This is an external calendar. It is the predicate parameter `isHoliday`, so the example 2005-07-04 is not derivable here.
- Progress messages (`punto3.py:22`, `27`, `47`, `78`). Logging has no logic.
- The other columns of the source files. They are concatenated and then discarded at `punto3.py:50`. Only their names take part, in the `rental_date` presence check.
- The storage bounds of nanosecond timestamps (years 1677 to 2262). The model accepts any Python date, years 1 to 9999.
- Loader.LoadAll: its contract states which timestamps are loaded, not their order. The body concatenates the files' columns in key order, and that order fixes which duplicate `Dedup` keeps.
- Etl.RunEtl: its contract relates each row to some loaded timestamp's date rather than restating the whole pipeline. Row order and count follow from `Dimension.DimRowCount`, `Seqs.DedupFirstOccurrenceOrder` and `Dimension.BuildDimensionLayout` applied to the loaded timestamps.
