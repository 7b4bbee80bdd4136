# Weather CSV loader, row filter and query table — a Dafny model

This project models the core of a small Qt weather application:

- **Record parsing** (`Weather::parse`): one CSV line becomes one observation.
  A line is split on `,` with empty parts kept. It is rejected only when it
  does not have exactly 11 fields. Field 0 is read as a date in the fixed
  format `yyyy-MM-dd HH:mm:ss`. The other ten fields are converted to numbers
  by position. The conversions never fail: whatever they return is stored.
- **Directory loading** (`WeatherUtil::loadFromDirectory`, `checkWeatherExists`,
  `entries`): a missing directory, or one without CSV files, fails and leaves
  the entries alone. Otherwise the entries are cleared and rebuilt. Each file
  that opens has its first line skipped as a header. Each later line that
  parses is appended unless an entry with the same date is already kept, so
  the first record of each date wins. Unopenable files and bad lines are
  skipped, and the load still succeeds.
- **Row filter** (`WeatherProxyModel`): a row passes when the filter text is
  empty, when the filter column is negative (the initial -1), or when the
  cell in that column contains the filter text, ignoring case.
- **Query table** (`QueryModel`): rows are maps from column name to value.
  The column names are the first row's keys in ascending key order. The
  table answers row and column counts, cells and headers.

Modules, one per source file, plus two shared ones:

| file | module | models |
|---|---|---|
| wrappers.dfy | `Wrappers` | `Option`, `Result` |
| qstrings.dfy | `QStrings` | `QString::split`, case-insensitive `contains`, `QMap` key order |
| weather.dfy | `WeatherRecord` | weather.h, weather.cpp |
| weatherutil.dfy | `WeatherUtil` | weatherutil.cpp |
| weatherproxymodel.dfy | `WeatherProxyModel` | weatherproxymodel.cpp |
| querymodel.dfy | `QueryModel` | querymodel.cpp |

How Qt's pieces are represented:

- **Conversions.** `QString::toFloat`, `toInt`, `toShort` and
  `QDateTime::fromString` are the four function fields of a `Conversions`
  value passed to the parser. They are not interpreted. Floats are kept as
  bit patterns with no arithmetic on them. A date is `InvalidDateTime` or an
  instant. All invalid dates compare equal, so lines whose dates do not parse
  are de-duplicated against each other, as in the source.
- **File system.** A directory is `Missing` or the list of its CSV files, in
  listing order. Each file is `None` when it cannot be opened, or the lines
  the reader returns.
- **Exceptions.** The thrown "To many fields in line" error becomes a
  `Failure(WrongFieldCount(n))` result. The message is used even when there
  are too few fields.
- **Getters and `entries()`.** These are the datatype's field destructors.
- **Loops and folds.** The loader's loops are kept as methods
  (`LoadFromDirectory`, `LoadFile`, `CheckWeatherExists`). They are proved
  equal to folds (`Records`, `IngestRecords`). The folds are proved equal to
  an independent reference, `FirstOccurrences`, which keeps each record that
  no earlier record shares a date with.

Facts about the code that shape the model:

- Loading is one sequential loop over an in-memory vector with a linear
  duplicate scan. There are no locks and no persistent store, so the model is
  sequential.
- A line is rejected only for a wrong field count. Whatever the conversions
  return is stored, including an invalid date or a zero from a failed number
  conversion.

## Model

| member | source | states |
|---|---|---|
| QStrings.Split | weather.cpp:8 | Splitting keeps empty parts: there is one more part than there are separators, and no part contains the separator |
| QStrings.JoinSplit | weather.cpp:8 | Splitting loses nothing: joining the parts with the separator gives back the line |
| QStrings.SplitJoin | weather.cpp:8 | Splitting a join of separator-free fields gives back exactly those fields |
| WeatherRecord.Parse | weather.cpp:6-24 | Parsing fails if and only if the line does not have exactly 10 commas (11 fields). The failure carries the field count. A success takes its date from field 0 read with the fixed format |
| WeatherRecord.ParseOfJoinedFields | weather.cpp:12-23 | Any 11 comma-free fields, joined with commas, parse. Each field lands in its own place: date, average, minimum, maximum, precipitation, snow, wind direction, wind speed, peak gust, air pressure, sunshine |
| WeatherRecord.DateDependsOnFirstFieldOnly | weather.cpp:12-13 | Two parsed lines with the same first field have the same date, whatever their other fields hold |
| WeatherRecord.LineOfCommasOnly | weather.cpp:8-10 | A line of n commas and nothing else is accepted if and only if n is 10. Otherwise it fails with n + 1 fields: fewer fields fail as well as more |
| WeatherRecord.EmptyLineRejected | weather.cpp:8-10 | The empty line has one field and is rejected |
| WeatherUtil.CheckWeatherExists | weatherutil.cpp:62-70 | The scan answers true if and only if some entry has the same date as the given record |
| WeatherUtil.LoadFromDirectory | weatherutil.cpp:8-55 | A missing directory or one with no CSV files returns false and leaves the entries unchanged. Otherwise it returns true. The entries are then exactly the first record of each date among the files' records, in encounter order, with no date twice. They do not depend on the entries before the call |
| WeatherUtil.LoadFile | weatherutil.cpp:31-50 | Reading one opened file skips its first line. It offers every later parsed line to the entries in order, appending each only if its date is not yet present |
| WeatherUtil.ParsedRecordsComeFromLines | weatherutil.cpp:41-49 | Every record kept from a file's lines is the parse of one of those lines, and there are no more records than lines |
| WeatherUtil.ParsedLinesAllKept | weatherutil.cpp:41-49 | Every line that parses gives a record among the file's records |
| WeatherUtil.HeaderNeverARecord | weatherutil.cpp:33-39 | A file's records are exactly the parses of its lines after the first. Every record is the parse of such a line, and every such line that parses gives one |
| WeatherUtil.HeaderLineIgnored | weatherutil.cpp:33-39 | Replacing any file's first line by any other text leaves the loaded records unchanged |
| WeatherUtil.UnopenableFileContributesNothing | weatherutil.cpp:26-29 | A file that cannot be opened adds nothing, wherever it is listed, and the files after it are still read |
| WeatherUtil.BadLineContributesNothing | weatherutil.cpp:41-49 | A line that fails to parse, anywhere after the header, adds nothing, and the lines after it are still read |
| WeatherUtil.IngestIsFirstOccurrences | weatherutil.cpp:41-49 | The check-then-append loop from empty entries computes the reference "keep the first record of each date". The kept dates are exactly the dates that occur |
| WeatherUtil.FirstOccurrencesKeepsFirst | weatherutil.cpp:44-46 | No two kept entries share a date. Each kept entry is a record that no earlier record shares a date with |
| WeatherUtil.FirstOccurrencesGrowsAtEnd | weatherutil.cpp:44-46 | Later records only append: the entries kept from a prefix of the records are a prefix of those kept from all of them |
| WeatherUtil.IngestKeepsDatesUnique | weatherutil.cpp:44-46 | Offering records to entries that have no repeated date never creates one |
| WeatherUtil.IngestKnownDatesChangesNothing | weatherutil.cpp:44-46 | Offering records whose dates are all present leaves the entries unchanged |
| WeatherUtil.ReloadChangesNothing | weatherutil.cpp:22-54 | Offering a directory's records again to the result of loading it changes nothing |
| WeatherProxyModel.NewProxy | weatherproxymodel.cpp:5-11 | A fresh proxy has empty filter text and column -1, which means no column |
| WeatherProxyModel.SetFilterString | weatherproxymodel.cpp:13-17 | Sets the filter text and keeps the column |
| WeatherProxyModel.SetFilterColumn | weatherproxymodel.cpp:19-23 | Sets the column and keeps the filter text |
| WeatherProxyModel.FilterAcceptsRow | weatherproxymodel.cpp:25-37 | Empty filter text accepts every row, and so does a negative column. Otherwise a row is accepted if and only if the filter text occurs in its cell text at some position, ignoring case. A missing cell reads as empty text |
| WeatherProxyModel.FreshProxyAcceptsAll | weatherproxymodel.cpp:25-31 | A fresh proxy accepts every row. It still does after only a text is set, or after only a column is set |
| WeatherProxyModel.FilterTextCaseIrrelevant | weatherproxymodel.cpp:36 | Changing the filter text's letters to small letters does not change any verdict |
| WeatherProxyModel.CellCaseIrrelevant | weatherproxymodel.cpp:36 | Changing the row cells' letters to small letters does not change any verdict |
| WeatherProxyModel.MissingColumnRejects | weatherproxymodel.cpp:33-36 | With a filter text set, a column the row does not have rejects the row |
| WeatherProxyModel.CellEqualToTextAccepted | weatherproxymodel.cpp:36 | A cell equal to the filter text up to case is accepted |
| QStrings.ContainsIgnoringCase | weatherproxymodel.cpp:36 | The search answers true if and only if the needle matches, up to case, the slice of the text at some position |
| QueryModel.SortedKeys | querymodel.cpp:16 | The keys of a row are listed once each, in strictly ascending order, and there are as many as the row has keys |
| QueryModel.SetData | querymodel.cpp:8-30 | After setting data, the row count is the number of rows. The column names are the first row's keys in ascending order, or none without rows, and earlier names are gone. The column count is the number of those keys |
| QueryModel.RowCount | querymodel.cpp:22-25 | Every row set is counted. A table with no rows has no columns either |
| QueryModel.ColumnCount | querymodel.cpp:27-30 | There is one column per key of the first row, with no key counted twice or missed, and none when there are no rows |
| QueryModel.Data | querymodel.cpp:32-40 | An invalid index or a non-display role gives the empty value. Otherwise the result is the row's value under the column's name, or the empty value when that row lacks the key |
| QueryModel.HeaderData | querymodel.cpp:42-54 | A horizontal header at a column position gives that column's name. A vertical header gives section + 1. Every other case gives the empty value |
| QueryModel.HeaderDataAsWritten | querymodel.cpp:42-54 | As written, the header goes out of range exactly for a negative horizontal section with the display role. Otherwise it names the column, numbers the row from 1, or gives the empty value for other roles |
| QueryModel.HeaderDataAgreesWhereDefined | querymodel.cpp:42-54 | The header code as written looks up out of range exactly for negative horizontal display sections. Everywhere else it agrees with `HeaderData` |
| QueryModel.NegativeSectionLooksUpOutOfRange | querymodel.cpp:47-48 | Horizontal section -1 passes the written guard and reaches an out-of-range lookup, for every table |
| QueryModel.FirstRowFillsEveryColumn | querymodel.cpp:14-17 | The first row has a key for every column, so its cells are its stored values |
| QueryModel.EveryFirstRowKeyHasOneColumn | querymodel.cpp:14-17 | Every key of the first row names exactly one column, and that column's horizontal header shows it |
| QueryModel.KeyMissingFromFirstRowNotShown | querymodel.cpp:14-17 | A key missing from the first row never becomes a column |

## Left out

- File system: `QDir::exists`, the `*.csv` name filter, the listing order of `entryList`, `QFile::open` and `QTextStream` line splitting are inputs (`Directory`, `CsvFile`), not modelled.
- Number and date conversions: `toFloat`, `toInt`, `toShort` and `QDateTime::fromString` are uninterpreted functions passed in. Floating point is not modelled.
- Logging: the `qWarning` messages are dropped.
- `WeatherProxyModel::lessThan`: not modelled, because it depends on double conversion and locale-aware string comparison.
- `WeatherProxyModel` constructor: the sort and filter case-sensitivity settings are not modelled. The overridden `filterAcceptsRow` does not read them.
- `invalidateFilter`, `beginResetModel` and `endResetModel` are not modelled; they are view notifications only.
- WeatherProxyModel.FilterAcceptsRow: the row is given as cell texts. The source model's conversion of a cell to text (`QVariant::toString`, float formatting) is not modelled.
- QStrings.FoldCase: only ASCII letters are folded. Qt's case-insensitive comparison folds all of Unicode.
- QStrings.Less: orders by Unicode code point. QString orders by UTF-16 code unit, which differs only for characters outside the Basic Multilingual Plane.
- QueryModel.HeaderData: the vertical header's `section + 1` is unbounded here. In C++ it overflows at the largest `int`.
- QueryModel.Data: requires the index to lie inside the table, as every index from the model does. `QModelIndex::isValid` itself checks only for non-negative positions.
- `highestTemp`, `avgTemp`, `lowestTemp` and `createTemperatureChart` are declared in weatherutil.h:15-18. No implementation of them is part of this model.
- weathermodel.cpp (a fixed display table), main.cpp (database and translator setup) and mainwindow.cpp (UI stubs) are presentation and bootstrap. They are not part of this model.
- The `Weather` default constructor leaves the fields uninitialised. It is not modelled; a record exists only as the result of a parse.

## Findings

| source | as written | input that shows it | evidently intended | confidence | as-written member | corrected member |
|---|---|---|---|---|---|---|
| querymodel.cpp:47-48 | the horizontal branch checks only `section < m_columnNames.size()` before `m_columnNames.at(section)` | section -1, horizontal, display role: the guard holds and `at(-1)` is out of range | only sections `0 <= section < size` name a column; others give the empty value | low, not executed: Qt's header views do not request negative sections | QueryModel.HeaderDataAsWritten, QueryModel.NegativeSectionLooksUpOutOfRange | QueryModel.HeaderData |
