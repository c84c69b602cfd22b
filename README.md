# Fear & Greed dashboard: CSV parser, sentiment buckets, coin column rename

This project models three small pieces of the Fear & Greed dashboard and proves properties of them in Dafny:

- the browser dashboard's CSV parser, `parseCSV` in `docs/script.js`. It turns the text of a CSV file into row objects keyed by the trimmed header names and drops rows whose `date` is empty;
- the fear & greed categoriser, `getFearGreedLabel` and `getFearGreedColor` in `docs/script.js`. They map an index value to one of five ordered buckets, each with a Korean label and a hex colour;
- the coin-file header rewrite in `rename_coin_columns.py`. It builds a rename table from the known columns that are present, renames them, and keeps the columns of a fixed order that exist.

Modules:

- `Wrappers` (`wrappers.dfy`): `Option`. Here `None` stands for JavaScript `undefined`.
- `JsStrings` (`js_strings.dfy`): the JavaScript string built-ins the parser uses.
  - `Trim` removes ECMAScript WhiteSpace and LineTerminator characters from both ends.
  - `Split` splits on one character. `"".split(sep)` is `[""]`, so there is always at least one piece.
  - `Join` is the reference inverse of `Split`.
- `CsvParser` (`csv_parser.dfy`):
  - `ParseCsv` is a method that loops over the data lines. Each row object is filled by the method `FillRow`, which models the `headers.forEach` loop and assigns one key per header, so a repeated trimmed header keeps its last value. The rows are then filtered on `date`.
  - Both methods are proved equal to the specification functions `Parse` and `Row`. The lemmas state what those functions promise.
- `FearGreed` (`fear_greed.dfy`): the bucket datatype, the thresholds 24, 44, 55 and 75 as inclusive upper bounds, and the two if-chains of the source.
- `CoinColumns` (`coin_columns.dfy`):
  - The header of the coin file is modelled as a sequence of column names.
  - `BuildRenameTable` makes the five conditional insertions of the source, one after another.
  - `RenameCoinColumns` renames and then projects. pandas `df[list]` returns every column carrying a selected label, so a label that appears twice after renaming is kept twice. `Select` models this.

On empty or header-only text `parseCSV` returns an empty list: `"".trim().split('\n')` is `[""]` and `slice(1)` of it is empty; `ParseHeaderOnly` states this.

## Model

| member | source | states |
|---|---|---|
| CsvParser.ParseCsv | docs/script.js:52-63 | the records returned are exactly `Parse(text)`: the rows of the data lines after the header line, in line order, that have a non-empty `date` |
| CsvParser.FillRow | docs/script.js:57-61 | the object filled by the `forEach` loop over the headers is `Row(headers, values)`, one assignment per header in header order |
| CsvParser.RowKeys | docs/script.js:58-59 | a row object has exactly the trimmed header names as keys, whatever the line holds |
| CsvParser.RowValue | docs/script.js:56-59 | the value under header `i` (the last header with that trimmed name) is the trimmed `i`-th comma field, or `undefined` when the line has fewer fields |
| CsvParser.ExtraFieldsIgnored | docs/script.js:56-59 | fields beyond the number of headers do not change the row object |
| CsvParser.RowHasDate | docs/script.js:59-62 | with `date` as the trimmed name of header `i`, a row passes the filter if and only if its `i`-th field exists and is non-empty once trimmed |
| CsvParser.RowWithoutDate | docs/script.js:58-62 | without a `date` header, no row passes the filter |
| CsvParser.ParseCount | docs/script.js:53-55 | the header line never becomes a record: there are at most as many records as lines after the first |
| CsvParser.ParseHeaderOnly | docs/script.js:53-55 | empty or header-only text gives no records and no error |
| CsvParser.ParseRowsShape | docs/script.js:58-62 | every record has a non-empty `date` and exactly the trimmed header names as keys |
| CsvParser.ParseSelectsLines | docs/script.js:55-62 | record `k` is the row of data line `idx[k]`, the `idx` increase (source order, no re-sorting), and a data line yields a record if and only if its row has a non-empty `date` |
| CsvParser.Parse | docs/script.js:52-63 | defines what `parseCSV` returns: the data lines mapped to rows, then filtered on `date`; `ParseCsv` is proved equal to it and `ParseCount`, `ParseHeaderOnly`, `ParseRowsShape` and `ParseSelectsLines` state its properties |
| CsvParser.Row | docs/script.js:57-61 | defines the object filled for one line, the successive assignments `header.trim() = values[index]?.trim()`; `FillRow` is proved equal to it and `RowKeys`, `RowValue`, `ExtraFieldsIgnored`, `RowHasDate` and `RowWithoutDate` state its properties |
| CsvParser.Field | docs/script.js:59 | defines `values[index]?.trim()`: the trimmed field, or `undefined` past the end of the line; its use in a row is stated by `RowValue` |
| CsvParser.HasDate | docs/script.js:62 | defines the truthiness test `row => row.date`: `date` is present and a non-empty string; `RowHasDate`, `RowWithoutDate` and `ParseRowsShape` are about it |
| CsvParser.RowsOf | docs/script.js:55-61 | defines `lines.slice(1).map(...)`, the row object of each data line; `ParseSelectsLines` states what its rows are and `RowsOfStep` gives the loop step |
| CsvParser.Filter | docs/script.js:62 | defines `Array.prototype.filter`; `FilterSelects` states that exactly the passing elements are kept, in order |
| CsvParser.Assign | docs/script.js:58-59 | defines the successive assignments `obj[keys[i]] = vals[i]`; `AssignKeys` and `AssignLast` state its keys and its last-assignment-wins values |
| CsvParser.HeaderNames | docs/script.js:59 | defines the keys `header.trim()`; `RowKeys` and `RowValue` state their use |
| CsvParser.Headers | docs/script.js:54 | defines `lines[0].split(',')`, the untrimmed header names; `ParseSelectsLines`, `ParseRowsShape` and `ParseCount` are stated through it |
| CsvParser.DataLines | docs/script.js:55 | defines `lines.slice(1)`, the lines after the header line; `ParseSelectsLines`, `ParseRowsShape` and `ParseCount` are stated through it |
| JsStrings.Trim | docs/script.js:53-59 | defines `String.prototype.trim` (called at lines 53 and 59), removing ECMAScript white space one character at a time from either end; `TrimEnds`, `TrimSplits`, `TrimPadded` and `TrimIdempotent` state its properties |
| CsvParser.FilterSelects | docs/script.js:62 | `filter` keeps an element if and only if it passes, taking the kept elements in increasing positions |
| CsvParser.AssignKeys | docs/script.js:58-59 | after assigning the first `n` keys, the object's keys are exactly those `n` keys |
| CsvParser.AssignLast | docs/script.js:58-59 | a key holds the value of its last assignment |
| CsvParser.RowsOfStep | docs/script.js:55-61 | mapping one more line appends exactly that line's row object |
| CsvParser.Lines | docs/script.js:53 | `text.trim().split('\n')` has at least one line, so `lines[0]` always exists |
| JsStrings.TrimEnds | docs/script.js:53 | a trimmed string is empty or starts and ends with a non-white-space character |
| JsStrings.TrimSplits | docs/script.js:53 | the input is a white-space prefix, then the trimmed string, then a white-space suffix |
| JsStrings.TrimPadded | docs/script.js:53 | trimming white space around a core that does not start or end with white space gives exactly that core |
| JsStrings.TrimIdempotent | docs/script.js:53-59 | a property of the `Trim` definition (`trim` is called at lines 53 and 59): trimming twice is the same as trimming once |
| JsStrings.Split | docs/script.js:53-56 | `split` always gives at least one piece |
| JsStrings.SplitPiecesSeparatorFree | docs/script.js:53-56 | no piece of a split contains the separator |
| JsStrings.SplitJoin | docs/script.js:53-56 | joining the pieces of a split with the separator gives back the original string |
| JsStrings.JoinSplit | docs/script.js:53-56 | splitting a join of separator-free pieces gives back those pieces |
| FearGreed.Classify | docs/script.js:355-369 | a value's bucket rank is the number of thresholds (24, 44, 55, 75) strictly below the value: threshold `i` is below the value if and only if `i` is less than the rank |
| FearGreed.LabelOf | docs/script.js:356-360 | defines the five labels, one per bucket; `LabelsDistinct` states they are distinct and `FearGreedLabel` is specified through it |
| FearGreed.ColorOf | docs/script.js:364-368 | defines the five colours, one per bucket; `ColorsDistinct` states they are distinct and `FearGreedColor` is specified through it |
| FearGreed.FearGreedLabel | docs/script.js:355-361 | the label is the label of the value's bucket |
| FearGreed.FearGreedColor | docs/script.js:363-369 | the colour is the colour of the value's bucket |
| FearGreed.ClassifyMonotone | docs/script.js:356-360 | for `v1 <= v2`, the bucket of `v1` is no greedier than the bucket of `v2` |
| FearGreed.ClassifyBoundaries | docs/script.js:356-360 | 24, 44, 55 and 75 fall in the lower bucket, and 25, 45, 56 and 76 fall in the next one |
| FearGreed.LabelsDistinct | docs/script.js:356-360 | two buckets have the same label if and only if they are the same bucket |
| FearGreed.ColorsDistinct | docs/script.js:364-368 | two buckets have the same colour if and only if they are the same bucket |
| FearGreed.LabelColorAgree | docs/script.js:355-369 | two values share a label if and only if they share a colour, and if and only if they are in the same bucket |
| CoinColumns.Renames | rename_coin_columns.py:11-22 | defines the five known renames, old column name to new one; `BuildRenameTable`, `RenameWithTable` and `RenameCoinColumns` are stated through it |
| CoinColumns.DesiredOrder | rename_coin_columns.py:28 | defines `desired_order`; `DesiredOrderDistinct` states it names no column twice and `RenameCoinColumns` is stated through it |
| CoinColumns.BuildRenameTable | rename_coin_columns.py:8-22 | the table holds exactly the five known columns that are present, each mapped to its new name (`btc`, `eth`, `sol`, `xrp`, `crypto_fear_greed_value`) |
| CoinColumns.TableStep | rename_coin_columns.py:11-22 | one conditional insertion adds its key exactly when the column is present, with the known new name |
| CoinColumns.RenameWithTable | rename_coin_columns.py:24-25 | renaming with the table of present columns gives the same result as renaming with all five known renames |
| CoinColumns.RenameCoinColumns | rename_coin_columns.py:8-36 | the file is rewritten if and only if one of the five known columns is present, and otherwise the columns are unchanged. When it is rewritten: every column is in the desired order; each desired column occurs as often as after renaming; columns come in desired order; with distinct renamed labels, no label is repeated |
| CoinColumns.RenameColumns | rename_coin_columns.py:25 | defines `df.rename(columns=mapping)`: each label passed through the mapping; `RenameWithTable` and `RenameKeepsDistinct` state its properties |
| CoinColumns.ExistingColumns | rename_coin_columns.py:30 | a column is kept if and only if it is both desired and present |
| CoinColumns.Occurrences | rename_coin_columns.py:31 | the columns selected for one label all carry that label, and there are as many as the label occurs |
| CoinColumns.Select | rename_coin_columns.py:31 | every selected column is a selected label and a present column |
| CoinColumns.ProjectionFacts | rename_coin_columns.py:28-31 | after the projection, every column is desired, each desired column keeps all its occurrences, and columns come in desired order |
| CoinColumns.SelectExistingIsSelectAll | rename_coin_columns.py:30-31 | filtering the desired order down to the existing columns first does not change the selection |
| CoinColumns.SelectCounts | rename_coin_columns.py:31 | with distinct keys, each key's columns are all selected and no other column is |
| CoinColumns.SelectOrdered | rename_coin_columns.py:31 | with distinct keys, the selected columns come in key order |
| CoinColumns.NoRepeatsSelected | rename_coin_columns.py:28-31 | when the renamed labels are distinct, the projected columns are in strictly increasing desired order, so they form a subsequence of it |
| CoinColumns.RenameKeepsDistinct | rename_coin_columns.py:11-25 | distinct column labels stay distinct after renaming unless a known column and its new name were both present |
| CoinColumns.DesiredOrderDistinct | rename_coin_columns.py:28 | the desired order names no column twice |

## Left out

- Fetching and rendering are not part of this model. That covers `loadData` and its `fetch` calls, the Highcharts chart builders, the DOM updates and the clock-based time windows in `docs/script.js`. They are I/O and display.
- The file work of `rename_coin_columns.py` is I/O and is left out: the existence check, `read_csv`, `to_csv` and the printed messages. `RenameCoinColumns` returns `rewritten`, which tells whether `to_csv` would run.
- The data collection, consolidation and classification-removal scripts are not part of this model: `data_collector.py`, `consolidate_data.py` and `remove_coin_classification.py`. They are network access and pandas file plumbing.
- FearGreed.Classify: the value is an unbounded `int`. `parseInt` can yield NaN, which fails every `<=` test and lands in the last bucket; that is floating-point behaviour and is not modelled.
- CsvParser.Row: a JavaScript object keeps its keys in insertion order, but a Dafny `map` has no order. The record's key order is not modelled.
- CsvParser.Row: a header named `__proto__` does not become an ordinary key of a JavaScript object. That quirk is not modelled; such a header is treated like any other.
- CsvParser.ParseCsv: the `map` and `filter` are modelled as a loop that builds all row objects, followed by `Filter`. The intermediate arrays are not observable anyway.
- CoinColumns.RenameCoinColumns: only the column header of the frame is modelled. The data columns move with their labels and are not represented.
