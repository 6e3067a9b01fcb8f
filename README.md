# Taiwan aging-population ETL, modelled in Dafny

This project models the extract-and-aggregate step of the Taiwan Aging
Population Trend Analyzer. The step reads a directory of government population
spreadsheets (`.xls`). Each file is named with a Republic-of-China era year
such as `112年`. For each file it:

- finds the reporting year in the file name (the Republic-era year plus 1911);
- writes a CSV mirror of the sheet, whose name is the file name with `.xls`
  rewritten to `.csv`;
- keeps the rows whose region names a county (縣) or a city (市) and whose
  total and 65-and-over counts are present;
- turns each kept row into a population record of that year.

The aggregator runs this over the `.xls` files in listing order. It drops the
files that fail and concatenates the surviving record tables into one combined
table. When no file succeeds it writes nothing.

Files and modules:

- `wrappers.dfy` (`Wrappers`): `Option`, which stands for the `None` results of the Python code.
- `decimal.dfy` (`Decimal`): ASCII digit strings, reading them as numbers and writing numbers as them.
- `file_names.dfy` (`FileNames`): the year token parser, the `.xls` test and the mirror-name rewrite.
- `cells.dfy` (`Cells`): spreadsheet cells and how a population count is read from one.
- `filtering.dfy` (`Filtering`): the indices at which a test holds, with their properties proved once for both filters.
- `extractor.dfy` (`Extractor`): rows, records, the row filter and `ProcessExcel`, the per-file extractor with its row loop.
- `aggregator.dfy` (`Aggregator`): directory entries and `ProcessAllFiles`, the directory loop.

The two loops of the Python code are methods with loop invariants. Each is proved
against a specification function: `Records` for the row loop, and `Successes`
with `Combined` for the file loop. The lemmas then state what those functions
guarantee. Parsing the file name and removing commas are expressions in
`process_excel`, so they are pure functions here.

Abstractions of I/O:

- A sheet is either `Unreadable` (pandas `read_excel` raised) or the sequence
  of its rows below the header.
- Each row is already projected to its region cell (column 0), its total cell
  (column 1) and its 65+ cell (the fourth column from the end).
- A directory is the sequence of its entries in listing order. Each entry is a
  file name paired with what reading that file would give.
- Writing a CSV mirror is recorded as the mirror's file name. Writing the
  combined table is the `Some` result of `ProcessAllFiles`.

Rows that `process_excel` cannot convert:

- `process_excel` skips a row only when its region fails the test or a count
  cell is missing. A present count the code cannot convert raises:
  `int(float(...))` raises `ValueError` on text it rejects, and the aging
  ratio raises `ZeroDivisionError` on a zero total. Nothing catches these
  exceptions, so the whole batch stops. The model does not treat such rows as
  skipped. `ProcessExcel` and `ProcessAllFiles` require every row they would
  convert to hold digit strings and a positive total (`RowsConvert`,
  `EntriesConvert`).

## Model

| member | source | states |
|---|---|---|
| `FileNames.FindYearToken` | data_processing.py:14 | a left-to-right search from a start index returns the first index where three ASCII digits are followed by 年, and None exactly when no such index exists |
| `FileNames.ParseYear` | data_processing.py:14-19 | a year exists iff the name holds a token; it is the leftmost token's three digits read in decimal plus 1911, so it lies in 1911..2910 |
| `FileNames.ParseYearAt` | data_processing.py:14-16 | when the leftmost token starts at i, the year is 100·d0 + 10·d1 + d2 + 1911 for the digits at i, i+1, i+2, whatever tokens follow |
| `FileNames.ParseYearExample` | data_processing.py:14-16 | `人口112年.xls` gives the year 2023 |
| `FileNames.ParseYearLongerRunExample` | data_processing.py:14-16 | in `1112年` the match starts at the second digit, so the year is 112 + 1911 |
| `FileNames.EndsWithXls` | data_processing.py:61 | `filename.endswith('.xls')`: the name has at least four characters and its last four are `.xls` |
| `FileNames.MirrorName` | data_processing.py:22 | rewriting `.xls` to `.csv` keeps the name's length |
| `FileNames.XlsOffset` | data_processing.py:22 | an offset k of 0 to 3 means an occurrence of `.xls` starts k characters earlier and no other occurrence covers the position; -1 means none of the four possible occurrences covers it |
| `FileNames.MirrorNameSpec` | data_processing.py:22 | every occurrence of `.xls` in the name becomes `.csv` in place, and every character outside those occurrences is unchanged |
| `FileNames.MirrorNameHasNoXls` | data_processing.py:22 | no `.xls` is left in the mirror name, and the rewrite creates none |
| `FileNames.MirrorNameWithoutXls` | data_processing.py:22 | a name without `.xls` is its own mirror name |
| `FileNames.MirrorNameIdempotent` | data_processing.py:22 | rewriting a mirror name again changes nothing |
| `FileNames.MirrorOfXlsFileIsCsv` | data_processing.py:22 | the mirror name of a file the aggregator picks up ends in `.csv` |
| `Decimal.DecimalValue` | data_processing.py:16 | `int` on a digit string, most significant digit first; n digits give a value below 10^n |
| `Decimal.DecimalString` | data_processing.py:43 | `str` on a whole number: a nonempty digit string with no leading zero, one digit exactly for values below 10 |
| `Decimal.ThreeDigitValue` | data_processing.py:16 | three digits read as hundreds, tens and units, a value below 1000 |
| `Decimal.DecimalRoundTrip` | data_processing.py:43-44 | `str` of a whole number is a nonempty digit string that reads back in decimal as that number |
| `Cells.CellText` | data_processing.py:43 | `str(cell)`: a numeric cell prints as a nonempty digit string, a text cell as its own text |
| `Cells.IsCount` | data_processing.py:43-44 | the cells this model converts: present, with a nonempty digit string once commas are removed |
| `Cells.CountValue` | data_processing.py:43-44 | the count is the comma-free text read in decimal; a numeric cell gives back the number it holds |
| `Cells.StripCommas` | data_processing.py:43-44 | removing commas keeps exactly the characters other than `,`, and never lengthens the text |
| `Cells.StripCommasAppend` | data_processing.py:43-44 | removing commas from a concatenation removes them from each piece |
| `Cells.StripCommasNoComma` | data_processing.py:43-44 | text without a comma is unchanged |
| `Cells.CommaIgnored` | data_processing.py:43-44 | a thousands separator anywhere in the text does not change what is parsed |
| `Cells.NumCellCount` | data_processing.py:43-44 | a numeric cell holding n is a valid count cell and parses to n |
| `Cells.CommaCountExample` | data_processing.py:43-44 | the text `1,234` is a valid count cell and parses to 1234 |
| `Extractor.HasAdminMarker` | data_processing.py:39 | a region names a county or a city exactly when some character of it is 縣 or 市 |
| `Extractor.Qualifies` | data_processing.py:39-42 | a row is kept when its region is text with a county or city marker and neither count cell is missing |
| `Extractor.RecordOf` | data_processing.py:45-49 | the record of a kept row: the file's year, the region text, and the two parsed counts |
| `Extractor.Records` | data_processing.py:36-51 | a file has at most as many records as rows |
| `Extractor.QualifyingIndices` | data_processing.py:37-42 | at most as many rows qualify as there are rows |
| `Extractor.QualifyingIndicesSpec` | data_processing.py:38-42 | the qualifying indices are exactly the rows with a text region that contains 縣 or 市 and both counts present, each listed once, in increasing order |
| `Extractor.RecordsByIndex` | data_processing.py:36-51 | the k-th record comes from the k-th qualifying row: the file's year, the row's region verbatim, and the parsed total and 65+ counts; nothing else is emitted and row order is kept |
| `Extractor.RecordsHaveFileYear` | data_processing.py:45-46 | every record carries the year of its file |
| `Extractor.RecordsOfOneRow` | data_processing.py:38-51 | a single row yields one record iff it qualifies, and none otherwise |
| `Extractor.RecordsAppend` | data_processing.py:37 | rows are handled independently and in order: the records of a + b are those of a followed by those of b |
| `Extractor.RecordsHavePositiveTotals` | data_processing.py:43-50 | on rows `process_excel` converts without raising, every record has a positive total, so the aging ratio is defined |
| `Extractor.AgingRatioExample` | data_processing.py:50 | 20 people of 65 or over among a total of 100 give a ratio of exactly 20 |
| `Extractor.AgingRatio` | data_processing.py:50 | the exact ratio elderly·100/total is non-negative and at most 100 when the 65+ count does not exceed the total |
| `Extractor.Extracted` | data_processing.py:5-53 | the result of `process_excel` as a value: None for an unreadable sheet or a name without a year token, otherwise the mirror name and the records for the parsed year |
| `Extractor.ExtractedFailsIff` | data_processing.py:6-19 | extraction fails exactly when the sheet is unreadable or the name holds no year token |
| `Extractor.ProcessExcel` | data_processing.py:5-53 | an unreadable sheet gives None whatever the name; a readable sheet whose name has no token gives None, and no mirror is written; otherwise the result is the mirror name with `.csv` and the records of the sheet's rows for the parsed year, all with positive totals |
| `Aggregator.Succeeds` | data_processing.py:61-64 | an entry contributes when its name ends in `.xls` and its extraction is not None |
| `Aggregator.SucceedsIff` | data_processing.py:61-64 | an entry contributes exactly when its name ends in `.xls`, its sheet is readable and its name holds a year token |
| `Aggregator.Successes` | data_processing.py:59-65 | at most one kept result per directory entry |
| `Aggregator.SucceedingIndices` | data_processing.py:60-65 | at most one succeeding index per directory entry |
| `Aggregator.SucceedingIndicesSpec` | data_processing.py:60-65 | the succeeding indices are exactly the entries whose name ends in `.xls` and whose extraction is not None, each listed once, in listing order |
| `Aggregator.SuccessesByIndex` | data_processing.py:59-65 | the k-th kept result is the extraction of the k-th succeeding entry, so non-`.xls` files and failures contribute nothing and listing order is kept |
| `Aggregator.SuccessesAppend` | data_processing.py:60-65 | entries are handled independently and in order: the results of a + b are those of a followed by those of b |
| `Aggregator.NoSuccessNoResult` | data_processing.py:67-74 | a listing in which no entry succeeds, for one with no `.xls` file, keeps no result |
| `Aggregator.Combined` | data_processing.py:68 | `pd.concat`: the records of each kept table, one table after another |
| `Aggregator.Mirrors` | data_processing.py:22-29 | the names of the CSV mirrors written, one per kept table |
| `Aggregator.MirrorsByIndex` | data_processing.py:22-29 | there is one mirror per kept table, and the k-th mirror is the k-th table's |
| `Aggregator.MirrorsOfSuccesses` | data_processing.py:59-65 | the k-th mirror written is the `.xls`-to-`.csv` rewrite of the k-th succeeding file's name, in listing order |
| `Aggregator.CombinedAppend` | data_processing.py:68 | the combined table of two lists of tables is the first combined table followed by the second |
| `Aggregator.CombinedLength` | data_processing.py:68 | the combined table has as many rows as the per-file tables together |
| `Aggregator.TwoFiles` | data_processing.py:59-68 | two succeeding files give the first file's records and then the second's, and the row count is the sum of the two |
| `Aggregator.ProcessAllFiles` | data_processing.py:55-74 | writes nothing exactly when no `.xls` file succeeded; otherwise writes the in-order concatenation of the successful tables; the mirrors written are those of the successful files, in listing order |

## Left out

- `main.py`: the dashboard is Streamlit UI wiring, geopandas/plotly map rendering and a statsmodels ARIMA forecast. These are foreign libraries and floating-point numerics.
- File I/O: pandas `read_excel` and `to_csv`, `os.makedirs`, `os.path.join`, `os.path.dirname`, `os.listdir` and `print`. Reading becomes a `Sheet` value; writing is recorded as a mirror name or a combined table. The CSV contents, the UTF-8 BOM and the output paths are not modelled.
- The header offset and positional column selection (`header=3`, columns 0, 1 and −4): rows arrive already projected to `Row`.
- The directory listing order is taken as given. `os.listdir` fixes no order.
- `Extractor.AgingRatio`: `process_excel` stores `round(elderly / total * 100, 2)`, computed on binary doubles. The model states only the exact rational elderly·100/total and makes no claim about the rounded double.
- Count cells whose comma-free text is not a plain digit string are left out, in both directions:
  - `int(float(...))` also accepts forms the model does not: `"1.5"` gives 1, `"1e3"` gives 1000, `" 12 "` and `"+12"` give 12. These are excluded by the requires clauses, not treated as crashes.
  - `int(float(...))` raises on other text, and the ratio raises on a zero total. The exception ends the whole batch, which the model does not represent; `ProcessExcel` and `ProcessAllFiles` require such rows to be absent.
- `Cells.CountValue`: the code reads a count through a binary double, so digit strings above 2^53 are rounded. The model reads them exactly, and agrees with the code only below 2^53.
- A numeric cell is `Num(n)` for a whole number n. Its text is taken to be the decimal digits of n. A float64 cell would print as `n.0`, which `int(float(...))` reads as the same n.
- Python's `\d` also matches non-ASCII Unicode digits, and `int` accepts them. The model recognises only the ASCII digits 0–9.
- A region cell is text (`Str`), a number or missing. Any other non-string object is treated as not qualifying, as `isinstance(city, str)` does.
