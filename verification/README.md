# Largest-banks ETL pipeline, modelled in Dafny

The modelled program is a one-file batch script. It scrapes the table of the
largest banks from a web page, cleans the market capitalisation column, adds
GBP, EUR and INR columns with fixed conversion factors, saves the table to a
CSV file and a SQLite table, runs three queries, and appends a timestamped
progress line to a log file around every phase.

The model covers the parts of that script that are logic rather than I/O:

- `Text` (`text.dfy`): Python's `str.strip()` and `str.replace(',', '')` on
  cell text.
- `Extraction` (`extraction.dfy`): `extract`. The fetched page is given as its
  first table body: absent (no `tbody`), or the `td` cell texts of each `tr`
  row. The header row is skipped (the helper `DataRows`, `rows_temp[1:]`).
  The loop stops at the first row without cells. Each row before it must have cells 1 and 2, which become the
  stripped Name and MC_USD_Billion. A missing `tbody` and a short non-empty
  row are errors, not sentinels.
- `Transformation` (`transformation.dfy`): `transform`. Commas are removed
  from the USD text and the result is parsed. Each row gets three converted
  columns with factors 0.8, 0.93 and 82.95. The result is all-or-nothing.
- `ProgressLog` (`progress_log.dfy`): `log_progress`. The log file is modelled
  as its text contents, and each call appends one line
  `timestamp — message`. Reading the file back line by line gives the lines
  that were written.
- `Pipeline` (`pipeline.dfy`): the driver at the bottom of the script. It runs
  the phases in order, logs the nine fixed progress messages, and stops at the
  first failure.
- `Wrappers` (`wrappers.dfy`): `Option` and `Result`, used for the Python
  exceptions.

Float parsing (`astype(float)`) and `np.round(x * f, 2)` are kept
uninterpreted. They are the two fields of a `Numerics<F>` value over an
abstract number type `F`. The factors are the decimal literals 0.8, 0.93 and
82.95 as written; Python evaluates them as the nearest doubles, which does not
matter here because `scaleRound` is uninterpreted in its factor argument. Only the structural facts are proved: row count, row order, names,
which value feeds which column, and which factor is used.

Notes on the code's behaviour, which the model follows:

- Only a row with zero `td` cells ends the table. A row with one or two cells
  does not end it: it raises `IndexError` (`MissingCell` here).
- The parse step does not reject negative numbers. The code has no such
  check.
- A missing `tbody` is Python's `AttributeError` on `None.find_all`
  (`NoTableBody` here).

## Model

| member | source | states |
|---|---|---|
| Text.TrimStartSpec | BANKS_project/banks_project.py:33-34 | the leading-whitespace trim keeps a suffix that does not start with whitespace, and everything it drops is whitespace |
| Text.TrimEndSpec | BANKS_project/banks_project.py:33-34 | the trailing-whitespace trim keeps a prefix that does not end with whitespace, and everything it drops is whitespace |
| Text.StripSpec | BANKS_project/banks_project.py:33-34 | `strip()` returns a contiguous piece of the cell text with no whitespace at either end, and only whitespace is dropped on either side |
| Text.StripUnique | BANKS_project/banks_project.py:33-34 | for any whitespace-only prefix and suffix around a trimmed text, stripping returns exactly that text, so `strip()` is fully determined |
| Text.StripIdempotent | BANKS_project/banks_project.py:33-34 | stripping an already stripped text changes nothing |
| Text.RemoveCommasSpec | BANKS_project/banks_project.py:42 | after `replace(',', '')` no comma is left, every other character occurs as often as before, the length drops by the number of commas, and the kept characters form a subsequence of the input (original order) |
| Text.RemoveCommasConcat | BANKS_project/banks_project.py:42 | comma removal distributes over concatenation, so each character is kept or dropped independently of its neighbours |
| Text.RemoveCommasNoComma | BANKS_project/banks_project.py:42 | a text without commas is returned unchanged |
| Text.RemoveCommasIdempotent | BANKS_project/banks_project.py:42 | removing commas twice gives the same text as once |
| Extraction.WalkSpec | BANKS_project/banks_project.py:30-38 | the row loop from any row: on success, all rows it consumed have cells, the next row is the end of the body or has none, and record t is the stripped cells 1 and 2 of row t; on failure, the error names the first row that has cells but fewer than three, and the missing cell index |
| Extraction.Extract | BANKS_project/banks_project.py:23-39 | a missing `tbody` gives `NoTableBody`; otherwise the result is one record per data row up to the first row without cells, in document order and from the fixed cell positions, or the first short row's `MissingCell` error |
| Extraction.ExtractSpec | BANKS_project/banks_project.py:28-38 | for the stopping row n of the data rows: extraction succeeds exactly when every row before n has at least three cells; then it yields exactly n records, record t built from body row t+1; otherwise it fails at the first short row before n |
| Extraction.ExtractStopsAtEmptyRow | BANKS_project/banks_project.py:31-38 | whatever follows the first data row without cells, even rows that have cells, contributes neither records nor errors |
| Extraction.ExtractIgnoresHeader | BANKS_project/banks_project.py:28-29 | replacing the first row of the table body by any other row leaves the extraction result unchanged |
| Extraction.ExtractThreeBanks | BANKS_project/banks_project.py:23-39 | a concrete body (header, three banks with padded texts and an extra cell, an empty trailer, one more row) extracts to the three stripped records in order |
| Extraction.ExtractTable | BANKS_project/banks_project.py:27-39 | the imperative loop, with `break` at the first row without cells and an early error on a short row, computes the same result as the recursive definition |
| Transformation.ParseColumnSpec | BANKS_project/banks_project.py:43 | parsing a column succeeds exactly when every entry parses; then value t is the parse of entry t; otherwise the error names the first entry that does not parse, with its text |
| Transformation.Transform | BANKS_project/banks_project.py:41-47 | transform succeeds exactly when every comma-free USD text parses; then it keeps the row count, order and names, row i's USD is the parse of row i's cleaned text, and each added column is `scaleRound` of that row's own USD value with its own factor (0.8, 0.93, 82.95); otherwise it reports the first unparsable row and yields no rows |
| Transformation.TransformConcat | BANKS_project/banks_project.py:44-46 | transform is row-wise: transforming a table split in two equals transforming the parts and concatenating; a failure in the first part is reported unchanged, and one in the second part is reported at its position in the whole |
| ProgressLog.LinesOfRender | BANKS_project/banks_project.py:21 | a log written as newline-terminated lines reads back, split at line breaks, as exactly those lines |
| ProgressLog.RenderAppend | BANKS_project/banks_project.py:20-21 | writing one more line appends its text and a line break to the file contents |
| ProgressLog.LogProgressAppends | BANKS_project/banks_project.py:16-21 | whatever the file held before, one `log_progress` call makes it strictly longer, leaves the earlier contents as a prefix, and appends exactly `timestamp — message` and a line break |
| ProgressLog.LogProgressSpec | BANKS_project/banks_project.py:16-21 | for a file made of complete lines, one call yields the file holding the earlier lines plus `timestamp — message` |
| ProgressLog.LogAllAppends | BANKS_project/banks_project.py:16-21 | whatever the file held before, n successive calls keep it as a prefix and append exactly n lines, line i being clock reading i, the separator, and message i |
| ProgressLog.LogAllSpec | BANKS_project/banks_project.py:16-21 | for a file made of complete lines, n successive calls yield the file holding the earlier lines followed by the n stamped lines |
| ProgressLog.LogAllLines | BANKS_project/banks_project.py:16-21 | read back, a log of single-line entries after n calls is its earlier lines followed by the n stamped messages |
| Pipeline.Reached | BANKS_project/banks_project.py:61-92 | the number of progress messages logged for each outcome (2 after an extract failure, 4 after a transform failure, 6, 7 and 8 after the CSV, database and query failures, 9 on success), and it is 9 exactly on success |
| Pipeline.Run | BANKS_project/banks_project.py:60-92 | the run succeeds exactly when extract, transform, both writes and the queries succeed; the final table is the transform of the extracted records; an extract or transform error aborts the run with that error |
| Pipeline.RunLaterFailures | BANKS_project/banks_project.py:74-92 | after extract and transform succeed, a failed CSV write stops the run with `CsvWriteFailed` after 6 messages, a failed database write (CSV written) with `DbWriteFailed` after 7, and failed queries (both written) with `QueryFailed` after 8 |
| Pipeline.RunEmits | BANKS_project/banks_project.py:61-92 | the driver's log calls are, in order, the fixed list of nine phase messages up to the last phase boundary the run got past, call i stamped with clock reading i |
| Pipeline.RunAppends | BANKS_project/banks_project.py:61-92 | whatever the log file held before, a run leaves it as a prefix and appends the stamped phase messages up to the last boundary reached, one line per message |
| Pipeline.RunLog | BANKS_project/banks_project.py:61-92 | after a run the previous log contents are a prefix of the file, and the file is the previous lines followed by the stamped phase messages up to the last boundary reached |
| Pipeline.RunLogLines | BANKS_project/banks_project.py:61-92 | read back line by line, the log after a run is the previous lines followed by one `timestamp — message` line per phase message reached, in the fixed order |

## Left out

- The HTTP fetch (`requests.get`) and the HTML parsing with BeautifulSoup. The
  page is given as its first table body: `None` or the `td` texts of each row.
  `.text` of a cell is taken as given.
- Float parsing (`astype(float)`) and `np.round(x * factor, 2)`. These are
  IEEE floating-point behaviour, so they are uninterpreted fields of
  `Numerics<F>`. No rounding result is claimed. The model has pandas report
  the first row that does not parse; pandas reports only the offending text.
- The CSV export (`to_csv`, which also writes the index column), the SQLite
  write (`to_sql` with `if_exists='replace'`), and the three queries
  (`read_sql` and `print`). They have no logic of their own. The driver sees
  only whether each one succeeded, through three flags of `Environment`.
- The `print('Query #k')` lines of the driver are standard output, not log
  contents, and are not modelled.
- Timestamp generation (`datetime.now` and `strftime`). The clock is a
  parameter giving the reading at each `log_progress` call of the run.
- The file encoding and line endings. The log is opened in text mode, so the
  line break is written as the platform's line ending and `—` is encoded with
  the locale's encoding. The model treats the file as a string of characters
  with `'\n'` line breaks.
- Failures of the log file itself and of the fetch are not modelled: every
  `log_progress` call is taken to succeed (a failing `open` or `write` would
  stop the run at that call with fewer lines logged), and a failing
  `requests.get` would also stop the run after two lines, an outcome the
  model does not have.
- The module-level globals and the database connection setup (URL, paths,
  table name, column lists).
- Pipeline.RunLog: stated for a previous log made of complete lines (`Render`
  of its lines); a previous file whose last line has no line break is not
  covered.
- Pipeline.RunLogLines: stated for the same kind of previous log, with no line
  break inside its lines or the clock readings.
