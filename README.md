# MAVLink log visualiser core, modelled in Dafny

This project models the schema-inference and time-series logic of `core.py`.
That code turns a decoded MAVLink flight log into one table per message type.
It then builds a catalogue of plottable attributes and serves chart data and
summary statistics from those tables.

The SQLite database is modelled as a map from table name to a table. A table
holds its ordered column names and its rows of cells. A cell is an integer, a
real, a text value or a null. An SQL `LIMIT n` is a prefix of the rows.
SQLite compares table and column names ignoring ASCII case. So no two stored
names differ only in case, no table has two such columns, and a table is
found by any spelling of its name (`Store.TableOf`).

Modules, one file each:

- `store.dfy` (`Store`): cells, tables, the store, `LIMIT`, and subsequences.
- `text.dfy` (`Text`): ASCII `lower()`, substring search, `replace`,
  `title()`, and decimal rendering of integers.
- `ingest.dfy` (`Ingest`): the parse loop that groups decoded messages per
  type, the `pd.DataFrame(records)` table, table-name cleaning and the load
  loop.
- `numeric.dfy` (`Numeric`): `detect_numeric_columns`.
- `annotate.dfy` (`Annotate`): `infer_units_and_descriptions`.
- `time_column.dfy` (`TimeColumn`): `get_time_column`.
- `catalog.dfy` (`Catalog`): `get_all_dynamic_attributes`.
- `time_format.dfy` (`TimeFormat`): the inner `format_time` of
  `convert_timeus_to_datetime_and_format`.
- `query.dfy` (`Query`): `get_chart_data` and `calculate_data_statistics`.

The loops of the source are methods proved against specification
functions. These are `GroupMessages`, `LoadCsvsToTempDb`,
`DetectNumericColumns`, `CoerceValues`, `GetAllDynamicAttributes`,
`DescribeTable`, `AnnotateAttributes`, `CalculateDataStatistics` and
`SummariseColumns`. The pattern searches and the formatting are
functions. Lemmas state what the source promises about those functions.

Several behaviours of the real stack that the source relies on are modelled
explicitly:

- SQLite resolves a selected column name ASCII case-insensitively. The result
  is labelled with the column's declared name. So `calculate_data_statistics`
  silently omits an attribute spelled in another case.
- `if limit:` adds no `LIMIT` clause for `None` or `0`. SQLite keeps every row
  for a negative limit.
- A result with two columns of the same label makes `df[label]` a DataFrame.
  The later conversions then raise. This is the `AmbiguousColumn` error.
- A null or text value in a microsecond time column makes the MM:SS
  conversion raise. This is `BadTimeValue`.
- A text value in a summarised column makes `mean`, the first reduction,
  raise. This is `NotNumeric`.
- `to_sql(..., if_exists='replace')` looks for a table of exactly the same
  name and drops it before its `CREATE TABLE`. A table whose name differs only
  in case already exists for SQLite, so the `CREATE TABLE` fails and that
  message type is skipped. A table with two column names that differ only in
  case is refused by SQLite too, after the drop: no table of that name is
  left.
- `pd.DataFrame(records)` takes as columns every key of every record, in the
  order first met. A record lacking a key gets a null
  (`Ingest.MaterializeExample`).

## Model

| member | source | states |
|---|---|---|
| Ingest.GroupMessages | core.py:28-65 | The registered types are the non-sentinel types in first-seen order. Each type's list holds exactly the records its messages carried, in arrival order. No other key is present. |
| Ingest.GroupStep | core.py:33-62 | One more message registers its type only if it is new and not a sentinel, and appends its record to its own type's list only. |
| Ingest.FirstSeenTypes | core.py:33-55 | The registered types are duplicate-free and are exactly the non-sentinel types that occur in the stream. |
| Ingest.RecordsOfAppend | core.py:59-62 | Grouping respects arrival order: the records of a concatenated stream are the first part's followed by the second part's. |
| Ingest.RecordsOfMember | core.py:59-62 | A record is grouped under a type exactly when some message of that type carried it. |
| Ingest.CleanTableNameShape | core.py:98 | The cleaned name has the same length, holds no '-' and no ' ', turns each of those into '_', and keeps every other character. |
| Ingest.CleanTableNameIdempotent | core.py:98 | Cleaning a cleaned name changes nothing. |
| Ingest.AddNames | core.py:71 | Adding a record's keys extends the column list, keeps it duplicate-free, and makes it hold exactly the old names plus the record's keys. |
| Ingest.AddNamesFresh | core.py:71 | Every appended column is a key of the record that was not a column yet. |
| Ingest.AddNamesOrder | core.py:71 | The appended columns follow the order in which the record first names them. |
| Ingest.FieldNamesShape | core.py:71 | The DataFrame's columns are duplicate-free and are exactly the keys some record has. |
| Ingest.MaterializeShape | core.py:71-72 | The table is well formed, has one row per record and every record key as a column, and each cell is the record's value or null. |
| Ingest.MaterializeExample | core.py:71 | A key only a later record has still becomes a column, and is null in the earlier row. |
| Ingest.LoadCsvsToTempDb | core.py:90-106 | The load loop yields exactly the store the specification function gives for the types in registration order: a non-empty table is skipped on a case-variant name, dropped-and-not-created on case-equal columns, and stored otherwise. |
| Ingest.LoadedTables | core.py:90-106 | Every stored table has rows and columns, no two columns equal ignoring case, and is the table of the last type with that cleaned name. No later type of that name held a non-empty table. |
| Ingest.LoadedComplete | core.py:90-106 | A non-empty table with case-distinct columns is stored under its own name or an earlier one equal to it ignoring case, unless a later type of that name was refused and dropped it. |
| Ingest.IngestedTables | core.py:68-106 | Every table the ingest produces has rows, is well formed, has case-distinct columns, and holds the records of one message type under that type's cleaned name. |
| Ingest.ReplacedByLaterType | core.py:98-101 | "GPS-1" and "GPS 1" both become GPS_1, and the later type's table replaces the earlier one. |
| Ingest.SkippedOnCaseCollision | core.py:101-106 | A type named "gps" after "GPS" is not loaded, and the first table stays. |
| Ingest.DroppedOnColumnClash | core.py:101-106 | A second GPS type with columns "a" and "A" drops the first GPS table and is not created, leaving no table. |
| Store.TableOf | core.py:283-285 | A table is found exactly when a stored name equals the asked one ignoring case; it is that table, and its columns are case-distinct. |
| Store.Limit | core.py:157 | `LIMIT n` keeps a prefix of min(n, rows) rows, and every row for a negative n. |
| Numeric.NonNull | core.py:169 | The kept values are non-null cells, and every non-null cell is kept. |
| Numeric.NonNullMultiset | core.py:169 | `dropna` keeps each non-null cell as often as it occurs and removes every null. |
| Numeric.NonNullInOrder | core.py:169 | The kept cells keep the column's order. |
| Numeric.CoerceValues | core.py:175-185 | The inner loop collects exactly the numeric readings of the values that have one, in order. |
| Numeric.DetectNumericColumns | core.py:146-197 | The method returns the numeric columns the classifier defines for the sampled prefix. |
| Numeric.MoreThanOneValueIff | core.py:189 | `len(set(xs)) > 1` holds exactly when two entries differ. |
| Numeric.VariancePositive | core.py:189-191 | Over reals, two different values force a positive population variance. |
| Numeric.IsNumericColumnIff | core.py:171-192 | A column qualifies iff it has at least 5 values, at least four fifths of them (boundary included) are coercible, and two coerced values differ. The variance test never rejects further. |
| Numeric.NumericUpToShape | core.py:168-192 | The selected columns are a subsequence of the table's columns, and each one passed the test on its own sampled values. |
| Numeric.NumericUpToMember | core.py:168-192 | With unique column names, a column is selected exactly when it passes the test. |
| Numeric.NumericColumnsIff | core.py:157-192 | A column of a table with unique names is returned exactly when it passes the test on the first 100 (or sample-size) rows. |
| Numeric.NumericColumnsShape | core.py:157-192 | The result is a duplicate-free subsequence of the column order. It is empty for an empty sample. Every returned column has at least 5 non-null sampled values. |
| Numeric.ConstantColumnRejected | core.py:189-191 | Five equal numbers never qualify. |
| Numeric.FourValuesRejected | core.py:171-172 | Four values never qualify, however varied. |
| Numeric.EightyPercentAccepted | core.py:188-192 | Exactly four fifths coercible, with variation, qualifies. |
| Annotate.FirstPattern | core.py:270-272 | The position found is that of a pattern occurring in the name, with no earlier pattern occurring. None means no pattern occurs. |
| Annotate.AnnotationIsFirstMatch | core.py:270-272 | The annotation is the pair of the first listed pattern occurring in the lower-cased name. |
| Annotate.PatternUnitsNonEmpty | core.py:206-267 | Every listed pattern carries a non-empty unit. |
| Annotate.EmptyUnitIffNoPattern | core.py:270-275 | The unit is empty exactly when no pattern occurs. The description is then the name with '_' turned to spaces and title-cased, character by character. |
| Annotate.ShadowedPatternNeverDecides | core.py:270-272 | A pattern that holds an earlier pattern never decides: a name holding it is annotated through that earlier pattern or one before it. |
| Annotate.RollspeedShadowed | core.py:208-211 | "rollspeed" is annotated ("degrees", "Roll angle"). |
| Annotate.TimestampShadowed | core.py:241-265 | "timestamp" is annotated ("deg/s", "Roll rate"), because 'p' comes first. |
| TimeColumn.FirstMatching | core.py:290-292 | The column found holds the pattern in any case, and no earlier column does. None means no column does. |
| TimeColumn.Search | core.py:289-294 | The hit is the first pattern any column holds, and the first column holding it. None means no column holds any pattern. |
| TimeColumn.GetTimeColumn | core.py:277-294 | A returned name is one of the table's columns. |
| TimeColumn.TimeColumnIsPriorityChoice | core.py:287-294 | The chosen column matches some pattern p. No column matches a pattern before p, and no earlier column matches p. None means no column matches any pattern. |
| TimeColumn.TimeColumnNoneIff | core.py:287-294 | There is no time column exactly when no column name holds "time" in any case. A found name holds it, so it is never empty. |
| TimeColumn.PatternPriorityExample | core.py:287-292 | Given ["foo_time_boot_ms", "TimeUS"], the resolver picks "TimeUS". |
| Catalog.Without | core.py:323 | The time column is removed, and every other name is kept. |
| Catalog.WithoutSubsequence | core.py:323 | The remaining names keep their order. |
| Catalog.AnnotateAttributes | core.py:328-333 | The loop maps each attribute to its inferred unit and its description, and nothing else. |
| Catalog.DescribeTable | core.py:309-341 | One table's descriptor, or None exactly when a gate skips it. |
| Catalog.GetAllDynamicAttributes | core.py:300-345 | The loop over the tables yields exactly the catalogue. |
| Catalog.CatalogComplete | core.py:308-345 | Having visited every table, the collected entries are the catalogue. |
| Catalog.DescriptorInvariants | core.py:308-341 | Each entry's time column is the resolver's choice. Its attributes are non-empty, exclude the time column, and are a subsequence of the numeric columns. The units and descriptions keys are exactly the attributes. The row count is the table's and is positive. |
| Catalog.CatalogMembership | core.py:308-325 | A table is catalogued exactly when it has rows, a time column, and a numeric column other than the time column. |
| Catalog.AttributesAreNumericColumns | core.py:318-323 | Every attribute is a column passing the classifier on its own sample, and the time column is a column. |
| TimeFormat.SecondsRemainder | core.py:361 | The seconds shown lie in 0..59. |
| TimeFormat.Pad2 | core.py:362 | The seconds field has only digits, and exactly two below 100. |
| TimeFormat.Pad2RoundTrip | core.py:362 | The padded seconds read back to their value. |
| TimeFormat.FormatTimeWholeSeconds | core.py:353-362 | minutes*60 + seconds is the floor of the elapsed seconds, for every input. |
| TimeFormat.FormatTimeOfMicroseconds | core.py:353-362 | For whole microseconds t, minutes = floor(t / 60 000 000) and seconds = floor(t / 1 000 000) mod 60, floored as Python does. |
| TimeFormat.ParseFormattedTime | core.py:359-362 | The label splits at its colon into the minutes and the two-digit seconds, and both read back. |
| TimeFormat.FormatTimeExamples | core.py:353-362 | 125 000 000 gives "2:05", 59 000 000 gives "0:59", and 3 600 000 000 gives "60:00" (no hour field). |
| Text.ToLowerIdempotent | core.py:203 | The lower-cased name holds no ASCII capital, so lowering it again changes nothing. |
| Text.ReplaceCharRoundTrip | core.py:275 | After `replace('_', ' ')` no '_' is left, and on a name without spaces replacing back restores it. |
| Text.TitleCaseAt | core.py:275 | `title()` upper-cases a letter after a non-letter, lower-cases one after a letter, and keeps the rest. |
| Query.Resolve | core.py:381-388 | A selected name refers to the first column equal to it ignoring ASCII case. None means no column is. |
| Query.ResolveUnique | core.py:381-388 | Among column names SQLite accepts, a name refers to the one column it matches. |
| Query.ResolveAll | core.py:380-388 | Every name resolves, in order. Otherwise the error names a name that does not. |
| Query.ChartDataOk | core.py:375-411 | A successful call found the time column and resolved every name, and its result is the shaped query. |
| Query.ChartDataNoTimeColumn | core.py:375-377 | "No time column found for <type>" is returned exactly when the resolver finds none among the columns of the table the name finds, in any case. |
| Query.ShapeChartErrors | core.py:388-402 | Past the selection, the call fails only on no data, an ambiguous time label or a bad time value. |
| Query.ChartDataLabels | core.py:380-388 | The selection is [time column] + attributes. Each label is the declared name of the column its name resolves to. |
| Query.ChartDataRows | core.py:383-388 | The rows are those LIMIT keeps, in table order, each holding the selected cells. |
| Query.ShapeRows | core.py:383-388 | A shaped result holds the selected cells of the rows LIMIT keeps. |
| Query.ChartDataRowCount | core.py:384-385 | A positive limit below the row count keeps that many rows. No limit, a zero limit and a negative limit keep every row. |
| Query.ChartDataNoData | core.py:390-391 | "No data found" is returned exactly when the time column exists, every name resolves, and the table has no rows. |
| Query.ShapeNoData | core.py:388-391 | Shaping reports no data exactly when the table has no rows. |
| Query.ChartDataTimeFormatted | core.py:394-402 | The time column is the first label. MM:SS labels are produced exactly when its lower-cased name holds "timeus", and otherwise each label is the raw value's string. |
| Query.ShapeTimeFormatted | core.py:394-402 | With the time column labelled first, each row's first cell is formatted by that branch. |
| Query.ChartDataShaped | core.py:375-411 | Once the time column is found and every name resolves, the call is the shaped query. |
| Query.LabelRefersTo | core.py:380-388 | A selected name is labelled with a column's declared name exactly when it refers to that column. |
| Query.SelectionLabels | core.py:380-395 | The time column labels the first column. It occurs once exactly when no attribute names it again in any case. |
| Query.ChartDataAmbiguous | core.py:380-397 | The call fails on an ambiguous time column exactly when an attribute names the time column again. |
| Query.ShapeAmbiguous | core.py:395-397 | Over a table with rows, shaping fails as ambiguous exactly when the time label does not occur once. |
| Query.ChartDataBadTimeValue | core.py:394-397 | For a microsecond time column, the call fails on a bad time value exactly when a returned row's time is null or text. |
| Query.ShapeBadTimeValue | core.py:394-397 | With the time label once and first, shaping fails on a bad value exactly when a returned row's time cell is null or text. |
| Query.Numbers | core.py:437-439 | The numbers are exactly the numeric cells' values. |
| Query.NumbersCount | core.py:439 | Without text, the count of numbers is the count of non-null cells. |
| Query.MinOf | core.py:437 | The minimum occurs in the values and bounds them from below. It is None exactly for no values. |
| Query.MaxOf | core.py:438 | The maximum occurs in the values and bounds them from above. It is None exactly for no values. |
| Query.ColumnStatsSummary | core.py:434-440 | A text value fails the summary. Otherwise count is the non-null count, and min/max exist iff count > 0, bound every value, occur in the column, and min ≤ max. |
| Query.CalculateDataStatistics | core.py:417-446 | The method returns the statistics the specification function defines. |
| Query.SummariseColumns | core.py:431-442 | The loop over the attributes yields the dictionary, or the first error. |
| Query.StatsFailureSticks | core.py:432-444 | Once an attribute fails, the result is that failure. |
| Query.StatsUpToEntries | core.py:431-442 | The dictionary holds exactly the attributes that are labels. Each occurs once and is summarised from its own column. |
| Query.StatsUpToErrors | core.py:431-446 | The loop fails only on an ambiguous label or a text value. |
| Query.LabelsOfSelection | core.py:423-433 | A selected name is among the labels exactly when it is spelled as declared, and a label leads back to its column. |
| Query.StatisticsOk | core.py:423-429 | A successful call had a table with rows and resolved every name. |
| Query.StatisticsKeys | core.py:432-433 | The statistics cover exactly the requested attributes spelled as the table declares them. |
| Query.StatisticsEntry | core.py:433-440 | Each entry summarises its own column over every row of the table. |
| Query.StatisticsErrors | core.py:423-429 | The error cases, in the order met: empty selection, no table equal to the name ignoring case, unknown column, no rows. |
| Query.StatisticsCaseMismatchExample | core.py:423-433 | "alt" of "gps" against a column "Alt" of table "GPS" is queried, but left out of the statistics. |

## Left out

- pymavlink decoding is left out: `mavlink_connection`, `recv_match`, `get_type` and `to_dict`. The decoder is replaced by the sequence of messages it yields. A failed `to_dict` is a message without a record.
- The CSV files between parsing and loading are left out. Each table is the one `pd.DataFrame(records)` builds, with each record's values unchanged. Pandas' re-inference of column types on `read_csv` is not modelled. Nor are the header-only file from `_fieldnames`, `os.path` checks and file I/O.
- SQL text building, `PRAGMA table_info` and `read_sql_query` are replaced by the abstract store. Bracket quoting of names holding `]` is not modelled.
- `get_database_schema` is not modelled beyond its use. The catalogue reads the row count and column names straight from the store, and a table no stored name matches ignoring case has no columns.
- `pd.to_datetime` and the `'datetime'` column of `get_chart_data` are left out. They are pandas date semantics. `Query.ChartData` keeps the selected rows, their labels, the MM:SS or string labels and the echoed arguments.
- The constant entries `'time_column'` and `'time_formatted_column'` of the chart result are left out.
- `Query.Stats`: `mean` and `std` are left out, because they are floating-point reductions. The model keeps `min`, `max` and `count`.
- Numeric.IsNumericColumn: floating-point arithmetic is modelled over exact reals, including `np.var` and the 80% threshold. Over reals the variance test is implied by the distinct-values test.
- Numeric.Coerce: Python's `float(str)` is the parameter `parse`. Pandas' `astype(str)` is the parameter `show`.
- TimeFormat.FormatTime: the input is an exact real, not a float. A NaN time value is the `BadTimeValue` error.
- Text.ToLower: `lower()` and `title()` are ASCII only. Unicode case mapping is not modelled.
- Logging and the `try/except` wrappers are left out. Failures are `Result`/`Option` values. The error text is given only where the program writes it; the texts of exceptions from SQLite and pandas (such as "Execution failed on sql '…': no such table: t") are not modelled.
- Query.TimeLabels and Query.ShapeChartErrors do not capture three pandas behaviours: `pd.to_datetime` raising out of bounds for microsecond values above about 9.2e15, a time column named exactly "datetime" being overwritten before it is turned into text, and `astype(str)` rendering a whole column by its dtype (an integer column with a null shows "1.0" and "nan"), which a per-cell `show` cannot express.
- Query.Resolve, Store.TableOf and Query.ChartDataRows do not model three SQLite and pandas special cases, which no caller in the program passes since attributes come from the catalogue. A selected name `rowid`, `oid` or `_rowid_` that no declared column matches refers to SQLite's implicit row id, where the model reports `NoSuchColumn`. SQLite finds the schema table `sqlite_master`, where the model reports `NoSuchTable`. An attribute named `datetime` or `time_formatted` has its cells overwritten in the returned chart data, where the model keeps the selected cells.
- The Streamlit UI, the demo script and the launcher script are outside the core.
