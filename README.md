# Bank report mapper: loader and structure analyzer

A Dafny model of the decision logic of `map.py`, a small web tool that
takes uploaded tabular files (CSV, Excel, tab-delimited text) and shows a
structural report for each: per column its type, distinct-value count,
null count and a few example values, plus a preview of the first rows.

Three pieces are modelled:

- **Suffix dispatch** (`carregar_arquivo`). The lower-cased file name picks
  the spreadsheet reader (`.xlsx`, `.xls`), the CSV path (`.csv`), the
  tab-delimited reader (`.txt`), or fails with an unsupported-format error.
  In `Loader.Dispatch`.
- **Delimiter probe with fallback** (`carregar_arquivo`, CSV path). The
  delimiters `,` `;` and tab are tried in that order. Each try parses 5 rows
  with the detected encoding. When that gives more than one column, the
  whole file is parsed with the same delimiter and encoding and returned.
  When no candidate gets that far, the file is parsed with the detected
  encoding and no separator argument, so the reader uses its default. `Loader.LoadCsv` is the loop, with its early
  return, and `Loader.TryDelimiter` one pass of it. `Loader.FirstAccepted`,
  `Loader.ScanCalls` and `Loader.Load` specify it.
- **Report construction** (`analisar_arquivo`). `Analyzer.Analyze` builds
  the report in a loop over the columns. The entry for each column is
  specified by `Analyzer.Describes`: name, type name, distinct non-null
  count, null count, and examples. The examples are the first at most 5
  distinct non-null values, turned into text for a date/time column. When
  extraction fails they are the single placeholder
  `"ERRO: Não foi possível obter valores"`.

The table library is abstracted:

- Every reader call (`pd.read_excel`, and `pd.read_csv` with its separator,
  encoding and row cap) is a `Loader.ReadCall`.
- The library is one oracle `read: ReadCall<E> -> Option<Table<V>>`, where
  `None` means the call raised.
- `LoadFile` also returns the sequence of calls it made. This is how the
  model states which parsers are reached, and in what order.
- A table (`Frames.Table`) has a row count and ordered, named, typed
  columns of `Option<V>` cells, where `None` is a missing cell.
- For each column the analyzer gets two oracles. `fails` says whether
  extracting its distinct values raises. `show` is the text form of a
  date/time value.

Two details of `map.py` shape the model:

- The full parse at map.py:46 sits inside the same `try` as the probe
  (lines 41-48). So a full parse that raises is swallowed, and the next
  delimiter is tried. `Loader.Accepts` therefore requires both a probe with
  more than one column and a full parse that does not raise (see
  `LoaderProperties.FailedFullParseSkipped`).
- The error at map.py:58 carries a fixed message, not the file name.
  `Loader.LoadError.Unsupported` carries nothing.

## Model

| member | source | states |
|---|---|---|
| `Loader.Lower` | map.py:28 | Lower-casing keeps the length and folds each character on its own (ASCII letters). |
| `LoaderProperties.DispatchSpec` | map.py:28-58 | The spreadsheet reader is chosen iff the lower-cased name ends in `.xlsx` or `.xls`. The CSV path is chosen iff it ends in `.csv`, and the tab reader iff it ends in `.txt`. The name is refused iff it ends in none of the four. |
| `LoaderProperties.DispatchSuffix` | map.py:28-56 | Any stem followed by a recognised suffix in any mix of upper and lower case selects that suffix's format. |
| `LoaderProperties.DispatchIgnoresCase` | map.py:28 | Upper-casing or lower-casing a name never changes the format it selects. |
| `LoaderProperties.UnsupportedSuffixes` | map.py:57-58 | Names ending in `.json` or `.pdf` are refused, whatever their stem. |
| `LoaderProperties.Unrecognised` | map.py:30-58 | A name whose last character folds to none of `x`, `s`, `v`, `t` is refused. |
| `LoaderProperties.UnsupportedNeverReads` | map.py:57-58 | A refused name fails with `Unsupported` and no reader is called, whatever the readers would do. |
| `LoaderProperties.TextIsTabDelimited` | map.py:54-55 | A `.txt` file gets exactly one reader call: tab-delimited, no encoding, all rows. Its outcome is that call's. |
| `Loader.FirstAcceptedSpec` | map.py:40-48 | Returns the index of the first candidate at or after `k` whose probe gives more than one column and whose full parse does not raise. No earlier candidate qualifies. `None` iff no candidate qualifies. |
| `Loader.TryDelimiter` | map.py:41-48 | One pass of the loop: a probe with the delimiter, then a full parse only when the probe gives more than one column. It yields a table iff the candidate is accepted, and that table is the full parse. Its calls equal `AttemptCalls`. |
| `Loader.LoadCsv` | map.py:34-52 | The delimiter loop with early return, then the fallback. Its outcome and the calls it makes equal `CsvOutcome` and `CsvCalls`. |
| `Loader.LoadFile` | map.py:25-62 | The whole loader. Its outcome and the calls it makes equal `Load` and `LoadCalls`. |
| `LoaderProperties.ProbesInOrder` | map.py:40-48 | The probes go through the candidates in list order, one each. They stop at the first accepted candidate, or cover all candidates when none is accepted. |
| `LoaderProperties.ScanCallsShape` | map.py:40-46 | Every call of the delimiter loop names a delimiter and passes the detected encoding. The first call is a probe. |
| `LoaderProperties.FullParseFollowsProbe` | map.py:42-46 | Each full parse in the loop comes right after a probe with the same delimiter and encoding. |
| `LoaderProperties.ScanLast` | map.py:44-46 | When some candidate is accepted, the last call of the loop is the full parse with that delimiter. |
| `LoaderProperties.CsvAccepted` | map.py:40-46 | If candidate `i` is the first accepted one, the loader returns its full parse with the detected encoding. Exactly the candidates up to `i` were probed, in order. The last call is that full parse, and the fallback parse is never issued. |
| `LoaderProperties.CsvFallback` | map.py:50-52 | If no candidate is accepted, all three are probed in order. The result is the fallback parse (no separator argument, detected encoding), and that parse is the last call. |
| `LoaderProperties.FallbackIffNoneAccepted` | map.py:40-52 | The fallback parse is issued iff no candidate is accepted. |
| `LoaderProperties.CsvUsesDetectedEncoding` | map.py:36-52 | Every reader call on the CSV path is a CSV read with the detected encoding. |
| `LoaderProperties.RaisingProbeSkipped` | map.py:41-48 | A probe that raises is passed over. The choice and the later calls are those of the remaining candidates. |
| `LoaderProperties.FailedFullParseSkipped` | map.py:41-48 | A full parse that raises after a splitting probe is passed over the same way. |
| `LoaderProperties.CommaRaisesSemicolonChosen` | map.py:40-48 | If the comma probe raises and the semicolon is accepted, the semicolon's full parse is returned, after probing exactly `,` then `;`. |
| `Analyzer.Dedupe` | map.py:84 | The result has no repeats, holds exactly the input's elements, and is as long as the input has distinct elements. |
| `Analyzer.DropNulls` | map.py:84 | The present values are those `v` with `Some(v)` a cell. There are as many as the cells minus the nulls. |
| `Analyzer.Prefix` | map.py:85 | Slicing to `n` gives the first `min(n, length)` elements. |
| `Analyzer.UniqueSpec` | map.py:77-84 | The distinct values have no repeats and hold exactly the present values. There are as many as the distinct count. |
| `Analyzer.CountsBound` | map.py:77-78 | Null count plus distinct count is at most the number of rows. Equality holds iff no present value repeats. |
| `Analyzer.EntryBounds` | map.py:74-93 | Every column entry has null count plus distinct count at most the rows, and at most 5 examples. On success there are exactly `min(5, distinct)` examples. On success in a non-date column they are pairwise distinct values occurring in the column. In a date/time column every example is text. On success there, each is the text of a value occurring in the column, and when the text form tells values apart the examples are pairwise distinct. |
| `Analyzer.FailureChangesOnlyExamples` | map.py:74-93 | A failed extraction gives the entry a successful one would give, except that the examples are the placeholder alone. |
| `Analyzer.DescribeColumn` | map.py:74-93 | The entry built for one column is described by `Describes`: counts always, then the placeholder on failure, or else the first examples, as text in a date/time column. |
| `Analyzer.Analyze` | map.py:64-97 | The report carries the file name and the table's row count. Its sample is the first `min(3, rows)` rows, unmodified and in column order. It has one entry per column, in column order, each described by `Describes`. |

## Left out

- Encoding detection (`detectar_encoding`, map.py:18-23) is a statistical
  heuristic over a byte prefix, plus a rewind of the file. The detected
  encoding is an opaque value `enc` of type `E`, passed unchanged to every
  CSV read. The heuristic may also return no encoding; that is simply one
  more value of `E`. A failure inside detection is not modelled.
- The parsing done by `pd.read_csv` and `pd.read_excel` is foreign library
  behaviour. It is the oracle `read`. The model does not relate the tables
  of different calls on the same file, e.g. probe and full parse.
- File position and `seek`: the model assumes each reader call starts at
  the beginning of the file. `map.py` rewinds before every CSV read; the
  spreadsheet and `.txt` reads happen on an unread handle.
- `Loader.FallbackCall`: the fallback parse (map.py:52) passes no
  separator, so the reader splits on its default `,`. The model treats it
  as a call distinct from `FullCall(',', enc)`. It therefore does not
  capture that, when a comma full parse raised after a splitting probe,
  the fallback raises again.
- `Loader.Lower`: folds only the ASCII letters `A`-`Z`. Other letters are
  left unchanged, and one-to-many folds such as `İ` are not modelled. No
  character outside ASCII folds onto the letters of the four suffixes.
- The type name `str(df[coluna].dtype)` is an opaque string in the column's
  `DType`. The date/time test is a flag in `DType`. The text form `str(v)`
  is the opaque function `show`. The model only checks that date/time
  examples are text.
- Which columns make value extraction raise is the oracle `fails`. The
  model assumes the distinct and null counts (lines 77-78) never raise,
  since the readers produce hashable scalar cells. Those lines are outside
  the `try`, so a raise there would abort the whole report, and `main`
  would show no report for that file (lines 135-137). `Analyzer.Analyze`
  does not model that abort.
- `Analyzer.Analyze`: requires a well-formed table, where every column has
  one cell per row and names are unique. The readers always produce such
  tables: they rename repeated header names.
- `Analyzer.Describes`: takes the examples from the front of
  `Analyzer.Unique`. The contracts of `Dedupe` and `DropNulls` state no
  order, just as `map.py` promises none, so the model does not say which
  distinct values are the examples when there are more than 5.
- `main()` (map.py:99-137) is UI glue: upload widget, rendering, and the
  per-file error banners.
- Logging configuration and calls (map.py:9-16, 37, 61, 92, 137) write to
  I/O sinks.
- Exception text and the re-raise at map.py:60-62: a failure is the variant
  `LoadFailure` or `Unsupported`, with no message.
