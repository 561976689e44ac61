# Delimited-text loading of eelbrain, in Dafny

This project models the text loaders of `eelbrain/load/txt.py`:

- `tsv` reads a delimited text file into a dataset. The header names come from the first line, from a given list, or are generated as `v0`, `v1`, …. Each data line is split on the delimiter, and every cell is stripped of whitespace. An empty cell is replaced by `empty`. Cells go to their columns. When the first data line has one cell more than there are names, the first cell of every line is skipped as a row label; a later line with more cells than that raises. A cell that starts with a quote loses its quotes and turns its column into a factor. The caller's `types` list is written in place. The last stage builds one column per name: a `var` (numeric) when its code is 0 or 2 and every cell converts to a float, otherwise a `factor`.
- `var`, as intended, reads booleans when `isbool` says so, or, without `isbool`, when the file's first line starts with `True` or `False`, and names the result; this is the corrected `Txt.ReadVar`. As written it raises whenever `isbool` is given and always drops the name (see "## Findings"), which `Txt.ReadVarAsWritten` models.

The model has two modules:

- `PyStr` (`pystr.dfy`) holds the Python string builtins `tsv` relies on:
  - `str.strip`;
  - `str.split` with and without a delimiter, and its inverse `join`;
  - `'%i' % n`;
  - `str.startswith`;
  - `os.path.basename`.

  Each has a contract or lemmas that say what it does.
- `Txt` (`txt.dfy`) models the loaders in three layers:
  - Specification functions, stage by stage. `Rows`, `Header`, `Offset` and `InitialTypes` cover the early stages. `QuotePass` through `RowsFrom` follow the distribution loop. `Columns` builds the columns. `TsvOutcome` and `Load` compose the stages.
  - Closed forms, with lemmas proving the loop functions equal to them. `AfterRows`, `ColumnCells` and `ColumnQuoted` say what every column holds once every line has passed.
  - Imperative methods that follow the source's loops, each proved against its specification function: `ReadRow`, `ReadRows`, `ReadCell`, `Distribute`, `BuildColumns` and `Tsv`. The caller's `types` list is an `array<int>` that `Tsv` writes into, so its state after a call, successful or not, is part of the contract.

Each exception `tsv` raises by itself is an `Error` value:

- `NoDataRows`: `lines[0]` on a file without data lines;
- `HeaderMismatch`: the header-count `ValueError`;
- `TypesLength`: the `assert` on `len(types)`;
- `EmptyCell`: `v[0]` on an empty cell;
- `RowTooLong`: `types[i]` or `data[i]` past the last column.

A file is the list of its lines, each with its line terminator, as iterating over a Python file yields them. So with a one-character delimiter other than the newline, the last header name ends with the newline character: only `"` is stripped from names, so `a\tb\n` gives the names `a` and `b` followed by a newline. `Txt.LastHeaderNameKeepsTerminator` states this, and the model keeps it as the code has it.

The docstring of `tsv` promises generated names "v1", "v2", …. The code counts from 0 (`xrange(n_vars)`), and the model follows the code.

## Model

| member | source | states |
|---|---|---|
| PyStr.StripSpec | eelbrain/load/txt.py:61 | `s.strip(cs)` is empty exactly when every character is in `cs`; otherwise it is the piece of `s` between the leading and trailing runs of `cs`, and neither of its ends is in `cs` |
| PyStr.StripIdempotent | eelbrain/load/txt.py:61 | stripping an already stripped string changes nothing |
| PyStr.StripKeepsTrimmed | eelbrain/load/txt.py:61 | a string whose two ends are outside `cs` is returned unchanged |
| PyStr.StripEndKept | eelbrain/load/txt.py:55 | a last character outside `cs` survives stripping as the last character |
| PyStr.SplitOn | eelbrain/load/txt.py:60 | `s.split(d)` gives at least one piece, and no piece holds `d` |
| PyStr.JoinSplitOn | eelbrain/load/txt.py:60 | joining the pieces of `s.split(d)` with `d` gives back `s`, so empty pieces are kept |
| PyStr.SplitOnJoin | eelbrain/load/txt.py:60 | splitting a `d`-join of `d`-free pieces gives back exactly those pieces |
| PyStr.SplitOnPrefix | eelbrain/load/txt.py:60 | a `d`-free prefix is glued onto the first piece of the rest's split |
| PyStr.SplitOnLast | eelbrain/load/txt.py:54 | when `s` ends with a character other than `d`, so does the last piece of `s.split(d)` |
| PyStr.SplitWs | eelbrain/load/txt.py:60 | `s.split()` gives only non-empty pieces free of whitespace, the first starting with the first character of `s` when that is not whitespace |
| PyStr.SplitWsKeepsText | eelbrain/load/txt.py:60 | `s.split()` drops only whitespace: its pieces put together are the non-whitespace characters of `s` in order |
| PyStr.SplitWsSkip | eelbrain/load/txt.py:60 | `s.split()` drops a leading whitespace character; with `SplitWsWord` this fixes the pieces of every string |
| PyStr.SplitWsWord | eelbrain/load/txt.py:60 | a whitespace-free word followed by whitespace splits off as one piece |
| PyStr.SplitWsJoin | eelbrain/load/txt.py:60 | splitting a space-join of non-empty whitespace-free words gives back the words |
| PyStr.Decimal | eelbrain/load/txt.py:70 | `'%i' % n` is a non-empty string of decimal digits with no leading zero |
| PyStr.ParseDecimalInverse | eelbrain/load/txt.py:70 | reading back the digits of `'%i' % n` gives `n` |
| PyStr.DecimalInjective | eelbrain/load/txt.py:70 | different numbers give different digit strings |
| PyStr.StartsWithSpec | eelbrain/load/txt.py:125 | `s.startswith(p)` holds for `p` followed by anything, and only when `s` is `p` followed by the rest of `s` |
| PyStr.Basename | eelbrain/load/txt.py:100 | `os.path.basename(p)` is the suffix of `p` after its last `/`: it holds no `/`, and the character before it, if any, is `/` |
| Txt.Row | eelbrain/load/txt.py:59-64 | the cells of one data line: one per field of the split, and none empty unless `empty` is |
| Txt.RowCells | eelbrain/load/txt.py:57-65 | a data line has one cell per split field; a blank field becomes `empty`, any other field becomes its whitespace-free middle |
| Txt.CellTextEnds | eelbrain/load/txt.py:61-63 | a blank field becomes `empty`; any other field becomes a cell that neither starts nor ends with whitespace |
| Txt.CellTextPlace | eelbrain/load/txt.py:61-63 | a field that is not blank becomes the piece of it between its leading and trailing whitespace |
| Txt.WhitespaceRowIsSplit | eelbrain/load/txt.py:60-64 | when splitting on whitespace no cell is blank, so the cells are exactly the fields |
| Txt.ReadRow | eelbrain/load/txt.py:59-64 | the loop over the fields of one line yields `Row`: one cleaned cell per field, in order |
| Txt.ReadRows | eelbrain/load/txt.py:57-65 | the loop over the data lines yields `Rows`: one cell list per line, in file order |
| Txt.HeaderNames | eelbrain/load/txt.py:54-55 | the names on the header line: exactly one per field of the split; `Txt.HeaderLineConsumed` says what each name is |
| Txt.HeaderLineConsumed | eelbrain/load/txt.py:53-58 | with names read from the file, the first line is the header and only the lines after it are data; name `k` is field `k` without the surrounding `"` |
| Txt.LastHeaderNameKeepsTerminator | eelbrain/load/txt.py:53-55 | with a one-character delimiter other than the newline, the last header name ends with the line terminator |
| Txt.GeneratedNames | eelbrain/load/txt.py:70 | `n` generated names, each `v` followed by at least one character |
| Txt.GeneratedNamesDistinct | eelbrain/load/txt.py:69-70 | the generated names are `v` followed by the numbers 0 to n-1, and no two are equal |
| Txt.FirstGeneratedName | eelbrain/load/txt.py:70 | the first generated name is `v0` |
| Txt.ColumnNames | eelbrain/load/txt.py:69-70 | names read or given are kept as they are; without names, one name is generated per cell of the first data line |
| Txt.GeneratedNamesFit | eelbrain/load/txt.py:67-79 | with generated names and at least one data line, `tsv` never raises the header mismatch error |
| Txt.Offset | eelbrain/load/txt.py:72-79 | the first data line must have as many cells as names (skip none) or one more (skip one); anything else is the header mismatch error |
| Txt.InitialTypes | eelbrain/load/txt.py:81-84 | a keyword gives one code 0 per name; a list must have one code per name and is used as it is; otherwise the assertion fails |
| Txt.QuotePass | eelbrain/load/txt.py:94-97 | one quote check appends nothing and only raises codes to 1; its only exceptions are the empty cell and the missing column |
| Txt.QuotePasses | eelbrain/load/txt.py:94-97 | the same for both quote checks in order |
| Txt.CellStep | eelbrain/load/txt.py:93-98 | one cell only appends cells and raises codes to 1; its only exceptions are the empty cell and the missing column |
| Txt.RowFrom | eelbrain/load/txt.py:93-98 | the same for the cells of one line |
| Txt.RowsFrom | eelbrain/load/txt.py:92-98 | the same for every data line |
| Txt.CellStepSpec | eelbrain/load/txt.py:94-98 | a cell passes exactly when it is not empty, is not emptied by stripping `'`, and its column exists; its unquoted text is then appended to its column, whose code becomes 1 exactly when the cell is quoted |
| Txt.RowFromSpec | eelbrain/load/txt.py:93-98 | a line passes exactly when each of its cells does, and then appends each cell to its own column |
| Txt.RowsFromSpec | eelbrain/load/txt.py:92-98 | all lines pass exactly when every cell does; column `i` then gains cell `start + i` of each line in file order, and its code becomes 1 exactly when some line quotes it |
| Txt.FreshFill | eelbrain/load/txt.py:87-98 | starting from one empty list per name, column `i` ends with exactly its cells, and its code is 1 when some line quotes it and unchanged otherwise |
| Txt.KindOf | eelbrain/load/txt.py:104-111 | code 1 gives a factor; the kind is `var` exactly when the code is 0 or 2 and every cell converts to a float |
| Txt.ColumnKinds | eelbrain/load/txt.py:102-111 | code 1 always gives a factor; a column is a `var` exactly when its code is 0 or 2 and every cell converts to a float |
| Txt.TsvOutcome | eelbrain/load/txt.py:53-114 | what `tsv` returns or raises, and the caller's codes afterwards: `NoDataRows` exactly when no data line follows the header, and codes only ever raised to 1 |
| Txt.Load | eelbrain/load/txt.py:67-114 | `tsv` after the lines are read: it never raises `NoDataRows`; it raises the header mismatch exactly when the first data line has neither as many cells as names nor one more; it names a successful dataset after the file's basename with one column per name, and only raises codes to 1 |
| Txt.LoadSucceeds | eelbrain/load/txt.py:67-114 | with data lines present, loading succeeds exactly when the cell counts match, the codes fit and every cell passes; the dataset is then named after the file's basename and has one column per name |
| Txt.LoadColumn | eelbrain/load/txt.py:87-112 | after a successful load, column `i` has name `i` and cell `start + i` of every line; it is a factor when quoted, and otherwise a `var` exactly when its code is 0 or 2 and every cell converts |
| Txt.TsvEarlyErrors | eelbrain/load/txt.py:57-84 | no data line gives `NoDataRows`; otherwise a first line with the wrong cell count gives the header mismatch, and a list of codes of the wrong length gives the assertion failure |
| Txt.LoadTypesList | eelbrain/load/txt.py:81-97 | the caller's list of codes only ever changes to 1; after a successful load the list has one code per name, and code `i` is 1 exactly when it was 1 or some line quotes column `i` |
| Txt.ReadCell | eelbrain/load/txt.py:94-98 | the quote loop for one cell writes the codes into the array and appends the cell as `CellStep` says, or reports its exception |
| Txt.Distribute | eelbrain/load/txt.py:87-98 | the nested loops leave the caller's array and the columns as `RowsFrom` says, with the codes as they were when an exception stops them |
| Txt.BuildColumns | eelbrain/load/txt.py:102-112 | the `zip` loop builds exactly `Columns`: one column per name, cell list and code, up to the shortest of the three |
| Txt.Tsv | eelbrain/load/txt.py:18-114 | the loader returns what `TsvOutcome` says, and leaves the caller's list of codes as `TsvOutcome` says, on success and on every exception |
| Txt.ReadVarAsWritten | eelbrain/load/txt.py:117-132 | `var` as written: it succeeds exactly when `isbool` is None, and then reads booleans exactly when the first line starts with `True` or `False`, and leaves the result unnamed |
| Txt.ReadVarAsWrittenRejectsFlag | eelbrain/load/txt.py:121-127 | as written, passing `isbool` makes `var` read an unbound `is_bool` and raise |
| Txt.ReadVarAsWrittenDropsName | eelbrain/load/txt.py:132 | as written, a name passed to `var` does not reach the result |
| Txt.ReadVar | eelbrain/load/txt.py:117-132 | corrected `var`: an explicit `isbool` decides, otherwise a first line starting with `True` or `False` does; the name is kept; where the code as written succeeds, both agree |

## Left out

- Opening and reading the file are left out: the file is given as its list of lines. The file dialog asked for when `path` is None, and the early return when it is cancelled, are left out too: the model always has a path.
- Float conversion (`numpy.array(values).astype(float)`) is the parameter `isFloat`. numpy's parsing rules are not modelled.
- The dataset, `var` and `factor` classes of `eelbrain.vessels.data` are not part of this model. A column is its name, its kind and its cell texts; the numeric values are not computed.
- In `var`, reading the data with `numpy.genfromtxt`/`numpy.loadtxt` is left out. The model stops at the decision between booleans and numbers and at the name the result gets.
- Strings are sequences of characters, one per byte of the Python 2 byte strings the code handles. `Whitespace` is the six ASCII characters that `str.strip()` and `str.split()` treat as whitespace. Decoding and universal newlines are left out.
- Paths follow POSIX: `Basename` takes what follows the last `/`. On Windows `os.path` is `ntpath`, which also splits at `\` and after a drive letter; that is not modelled.
- `ds.add` is modelled as appending a column. A name that occurs twice in the header therefore gives two columns with that name; what the dataset class does with a repeated name is not part of this model.
- `empty` is always a string in the model. With `empty=None` the code turns a blank cell into None, and `v[0]` on it raises TypeError; that case is not modelled.
- Multi-character delimiters are left out. `delimiter` is None or a single character.
- A `types` tuple is left out. The code writes `types[i] = 1`, which fails on a tuple; the model takes a list, as the docstring documents.
- `types=0` and `types=1` are left out. They compare equal to False and True and so act as 'auto'; any non-list value that is one of the four keywords is `Auto`.
- The `assert len(types) == n` check is left out under `python -O`, where it is switched off. The model always checks it.
- `names` values other than True, a list, False and None are not modelled. An empty list acts like False, as `not names` makes it.
- Argument defaults are not modelled: `tsv` and `var` take every argument explicitly. The defaults `names=True`, `types='auto'`, `empty='nan'` and `delimiter=None` of `tsv` correspond to `FromHeader`, `Auto`, `"nan"` and `AnyWhitespace`.
- The rest of the repository (sensors, test-data generation, re-export modules) is not part of this model.

## Findings

| source | as written | input that shows it | evidently intended | confidence | as-written member | corrected member |
|---|---|---|---|---|---|---|
| eelbrain/load/txt.py:121-127 | `is_bool` is assigned only inside `if isbool is None`, and read afterwards | `var(path, isbool=True)` raises UnboundLocalError | an explicit `isbool` chooses the reader | high; not executed | Txt.ReadVarAsWrittenRejectsFlag | Txt.ReadVar |
| eelbrain/load/txt.py:132 | the result is built with `name=None` | `var(path, name='x')` returns an unnamed var | the result carries the given `name` | high; not executed | Txt.ReadVarAsWrittenDropsName | Txt.ReadVar |
