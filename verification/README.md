# filebuttons startup layout, in Dafny

filebuttons is a desktop panel with one button per file, grouped under
folder labels. When the button is clicked, the file opens in an editor.
At startup, `src/filebuttons/kv.py` runs a short pipeline over the
`[filebuttons.folders]` settings:

1. **Scan** (`walk_project`). Each configured folder key is handled in one of two modes.
   - **Recursive mode** (empty value): `walk_one_folder` walks the directory tree, entries sorted by name.
     It skips zero-byte files and subdirectories whose name starts with `__`. A folder gets a label only when it
     holds a non-empty file, and its files come before its subdirectories.
   - **Glob mode** (a list of patterns): `emit_from_globs` always emits the label, then one button per distinct
     match, sorted by name.
   - File names containing `;`, `&&`, `||` or a newline get no button (`filename_ok`).
2. **Size** (`compute_heights`). Each title is wrapped at its character midpoint when it is longer than
   the wrap width (`wrap`). The cell gets the tall height when the wrapped text has more than one line, and the short height otherwise.
3. **Pack** (`make_columns`). Cells are placed greedily into fixed-height columns. Room for four control
   buttons is reserved at the top of the first column.

The model is functional: cells, paths and directory trees are immutable
datatypes. Every stage is a pure function over sequences, except the packer,
which is a method with a loop, like the generator it models. The
module-level constants (`TEXT_WRAP_WIDTH`, `SHORT_BUTTON`, `TALL_BUTTON`,
`SPACING`, `BUTTON_WIDTH`) become one `Settings` value passed to each stage.

Modules:

- `Strings` (strings.dfy): the Python `str` operations used: `in`, `startswith`, `count`, code-point order, `splitlines`.
- `Seqs` (seqs.dfy): filtering, a stable sort by a string key, and `list(set(...))` de-duplication.
- `Cells` (cells.dfy): `Cell`, `Path`, `Option` and `Settings`.
- `Filenames` (filenames.dfy): `filename_ok`.
- `Scanner` (scanner.dfy): `walk_one_folder` over a directory-tree datatype; `emit_from_globs` over given glob results;
  `walk_project` over the folder settings and an abstract disk.
- `Layout` (layout.dfy): `wrap` and `compute_heights`.
- `Columns` (columns.dfy): `make_columns`.
- `Startup` (startup.dfy): the module-level pipeline that builds `columns`, `num_columns` and `layout_width`.

Behaviours kept as the code has them:

- Glob mode always emits its label. Recursive mode emits a label only for a folder that holds a non-empty file.
- In recursive mode the label is emitted before the filename check runs. A folder whose only non-empty files are
  rejected still shows its label (`Scanner.RejectedFilesStillLabelled`).
- Glob mode never looks at file sizes, so a zero-byte file matched by a pattern does get a button.
- The label for key `.` is `root` in glob mode. In recursive mode it is the folder's own POSIX text, `.`.
- `make_columns` closes the current column even when it is empty. So the first column is empty exactly when the
  first cell does not fit the reserved room. A cell taller than the window still gets a column of its own.

## Model

| member | source | states |
|---|---|---|
| Strings.Contains | src/filebuttons/kv.py:139 | Python's `sub in s` scan is true exactly when `sub` occurs at some index of `s` |
| Strings.CountChar | src/filebuttons/kv.py:239 | `text.count("\n")` equals the multiset count of the character, and is positive exactly when the character occurs |
| Strings.SplitLines | src/filebuttons/kv.py:195 | `splitlines` yields lines free of line boundaries, and yields at least one line exactly when the value is non-empty |
| Strings.SplitLinesKeepsText | src/filebuttons/kv.py:195 | the lines put back together are the value with its line-boundary characters removed |
| Strings.SplitJoinLines | src/filebuttons/kv.py:195 | `splitlines` gives back exactly the lines of a `"\n"`-joined value whose lines hold no line boundary and whose last line is non-empty, empty lines in between included |
| Strings.StrLeTotal | src/filebuttons/kv.py:153 | the code-point order on names used by the sorts is total |
| Strings.StrLeTransitive | src/filebuttons/kv.py:153 | the code-point order on names is transitive |
| Seqs.SortBy | src/filebuttons/kv.py:152-153 | sorting by name returns a permutation of its input that is ordered by name |
| Seqs.Dedup | src/filebuttons/kv.py:181 | `list(set(paths))` holds each path once and exactly the paths of its input |
| Seqs.PermutationKeepsDistinct | src/filebuttons/kv.py:181-182 | sorting the de-duplicated paths cannot reintroduce a duplicate |
| Filenames.FilenameOk | src/filebuttons/kv.py:133-144 | a name is accepted exactly when none of `;`, `&&`, `\|\|`, newline occurs in it |
| Filenames.FilenameOkCharwise | src/filebuttons/kv.py:138-139 | equivalently: no character is `;` or a newline, and no `&` or `\|` is immediately doubled |
| Filenames.FilenameOkSingleLine | src/filebuttons/kv.py:138 | an accepted name contains no newline |
| Filenames.NoMetaCharsOk | src/filebuttons/kv.py:138-139 | a name containing none of the characters `;`, newline, `&`, `\|` is accepted |
| Filenames.FilenameOkAccepts | tests/test_kivy_startup.py:43-45 | the three names the startup test expects to be accepted are accepted |
| Filenames.FilenameOkRejects | tests/test_kivy_startup.py:46-51 | the six names the startup test expects to be rejected are rejected |
| Layout.Wrap | src/filebuttons/kv.py:219-228 | text of at most `W` characters is unchanged; longer text gains one character, a newline at ceil(n/2), and deleting it gives the text back |
| Layout.WrapBetween | src/filebuttons/kv.py:223-227 | when `front` is exactly the first ceil(n/2) characters of a text longer than `W`, wrapping `front + back` gives `front`, a newline, then `back` |
| Layout.WrapHalves | src/filebuttons/kv.py:223-227 | the first line of a wrapped text is as long as the second or one character longer |
| Layout.WrapNewlines | src/filebuttons/kv.py:227 | wrapping adds exactly one newline to a long text and none to a short one |
| Layout.WrapShortExamples | tests/test_kivy_startup.py:54-58 | the two texts of the startup test that fit width 22, one character and exactly 22, come back unchanged |
| Layout.WrapOddExample | tests/test_kivy_startup.py:60-62 | a 23-character text at width 22 wraps after its twelfth character, so the longer part comes first |
| Layout.WrapEvenExample | tests/test_kivy_startup.py:64-66 | a 24-character text at width 22 wraps into two 12-character lines |
| Layout.SizeCell | src/filebuttons/kv.py:235-244 | a sized cell keeps its target, its text is the wrapped label title or file name, and it is tall exactly when that text is too long or already multi-line |
| Layout.ComputeHeights | src/filebuttons/kv.py:231-244 | same length as the input, and in order: each position holds the sized copy of the input cell at that position |
| Layout.SizedAt | src/filebuttons/kv.py:231-244 | position `i` after sizing keeps its target, holds the wrapped label title or file name, and is tall exactly when that text is too long or already multi-line |
| Layout.ButtonTallWhenLong | src/filebuttons/kv.py:238-243 | a button whose name passed the filename check is tall exactly when its name is longer than the wrap width |
| Columns.MakeColumns | src/filebuttons/kv.py:247-272 | the result is `Packed`: the columns concatenate back to the input. No columns exactly when there are no cells. Only the first column can be empty, and it is empty exactly when the first cell does not fit the reserved room. The first column fits `window_height - 4*(SHORT+SPACING)`. A later column fits the window or holds one cell. Every column but the last was closed because the next cell did not fit the room left |
| Columns.StartStep | src/filebuttons/kv.py:251-256 | before any cell is read, the packing facts hold with no closed column, an empty current column and the room `window_height - 4*(SHORT+SPACING)` |
| Columns.AppendStep | src/filebuttons/kv.py:261-263 | appending a cell that fits keeps every packing fact true and lowers the room left by the cell's space |
| Columns.CloseStep | src/filebuttons/kv.py:264-269 | closing the current column and starting a new one with the cell that did not fit keeps every packing fact true |
| Columns.FinishStep | src/filebuttons/kv.py:270-272 | once every cell is read, closing the current column only when it is non-empty gives columns that are `Packed` for the input |
| Scanner.ScanEntries | src/filebuttons/kv.py:154-166 | the subdirectories queued by one directory's loop are directories among its entries |
| Scanner.ScanEntriesShape | src/filebuttons/kv.py:154-166 | one level yields the label when a non-empty file exists and no label was emitted yet. Then it yields one button per accepted non-empty file in entry order. It queues the subdirectories not starting with `__`, in entry order |
| Scanner.WalkOneFolderShape | src/filebuttons/kv.py:147-170 | a recursive walk is: entries sorted by name; the label if a non-empty file exists; buttons of the accepted non-empty files in name order; then the walks of the kept subdirectories in name order |
| Scanner.LabelIffListedFile | src/filebuttons/kv.py:159-164 | the folder's label is emitted exactly when the folder holds a non-empty file |
| Scanner.NoButtonsNoDirs | src/filebuttons/kv.py:155-166 | the same stated over the folder's entries: when every non-empty file is rejected and no entry is descended into, the walk is the label alone exactly when a non-empty file exists |
| Scanner.NothingVisibleNoLabel | src/filebuttons/kv.py:155-164 | a folder with only empty files and `__` subdirectories yields nothing, not even a label |
| Scanner.RejectedFilesStillLabelled | src/filebuttons/kv.py:162-166 | a folder whose non-empty files are all rejected, with nothing to descend into, yields its label alone |
| Scanner.WalkOneFolderUnsized | src/filebuttons/kv.py:164-166 | every cell of a recursive walk has height 0, and every button is titled with its target's name, which passed the filename check |
| Scanner.WalkOneFolderUnderOwnLabel | src/filebuttons/kv.py:162-170 | in a recursive walk every button comes after the label of the folder its file is in, with no other label in between |
| Scanner.AcceptedMatches | src/filebuttons/kv.py:176-180 | the collected paths are exactly the matches of some pattern whose name passes the filename check |
| Scanner.EmitFromGlobs | src/filebuttons/kv.py:173-184 | the label comes first with no target, even with no matches. The buttons have pairwise distinct targets, are ordered by name, pass the filename check, and cover exactly the accepted matches |
| Scanner.ScanFolder | src/filebuttons/kv.py:190-200 | a missing key contributes nothing. A key with a value is scanned in glob mode and labelled `root` for `.`, else with the key. An empty value is walked recursively. It fails exactly when an empty-valued key names a regular file |
| Scanner.WalkProject | src/filebuttons/kv.py:187-200 | fails exactly when some recursively scanned key names a file, reporting the first such key. Otherwise every cell is unsized with checked button names, and every existing glob-mode folder's label is present |
| Scanner.WalkProjectAppend | src/filebuttons/kv.py:187-200 | scanning keys `a` then keys `b` is scanning `a + b`: the cells are the per-key results in configured order, and the first failing key is the one reported |
| Scanner.WalkProjectSingle | src/filebuttons/kv.py:187-200 | a single configured key contributes exactly what one folder scan gives for it |
| Scanner.WalkProjectSkipsMissing | src/filebuttons/kv.py:189-192 | keys that do not exist contribute nothing: scanning only the existing keys gives the same outcome |
| Startup.SizedButtons | src/filebuttons/kv.py:234-244 | after sizing, a scanned button's text is its wrapped file name and it is tall exactly when the name exceeds the wrap width |
| Startup.Start | src/filebuttons/kv.py:275-280 | the columns are `make_columns`' greedy packing of the sized scan (`Columns.Packed` for `window_height`). `num_columns` is the number of columns. `layout_width = num_columns*BUTTON_WIDTH + SPACING`. Every button's height follows its name's length. It fails exactly when the scan fails |

## Left out

- The Kivy GUI is not modelled: widgets, popups, settings panels and the settings JSON builders (kv.py:283-852). It is composition over a toolkit whose code is not part of this model.
- `run_program` is not modelled. It resolves the program with `shutil.which` and launches it with `subprocess.run`, which is process I/O.
- Argument parsing, reading the settings file and the default settings (kv.py:48-121) are not modelled. The resulting integers are the `Settings` parameter and the `window_height` argument.
- Keys reach the scanner as the settings parser returns them. Its lower-casing of keys and its DEFAULT-section keys are not modelled.
- `walk_project` looks up the `[filebuttons.folders]` section itself and raises `KeyError` when an existing settings file lacks that section. The model takes the section's entries as given, so that crash is not modelled.
- `FolderSetting.value` is the raw text of the setting. `configparser` reads it through interpolation, which substitutes `%(name)s` references and raises an error on a stray `%`. That interpolation is not modelled.
- `show_files` and `show_heights` only print, so they are not modelled. Neither are the diagnostic `print` calls in `filename_ok` and `walk_project`.
- The real file system is replaced by data. A configured key resolves through `Disk.lookup` to a directory tree of `Node`s or to nothing. A regular file is a `File` with a byte size; anything that is not a directory is treated as one. `Path.glob` is a given function from a start folder and a pattern to the matched paths. Pattern matching itself is not modelled. Neither are the errors `Path.glob` raises for an empty or an absolute pattern, permission failures of `iterdir`, symbolic links, or `stat` failures.
- Path handling is simplified. `Cells.Join` renders `folder / name` as `name` under `.` and as `folder/name` elsewhere. A recursive-mode label is the key's raw text. `pathlib` drops `.` components and repeated or trailing slashes, so for the key `./docs` Python labels the folder `docs` where the model labels it `./docs`. Neither `pathlib` nor the model resolves `..`, and Windows separators are not modelled. Path equality is structural, not case-insensitive as on Windows.
- Generators are eager sequences here. The only visible effect of laziness is ordering: `make_columns` checks the window height before the scan runs. Here that check is the `requires` of `Columns.MakeColumns` and `Startup.Start`, because the source treats a failure as fatal.
- Scanner.EmitFromGlobs: the source puts the matches through a `set`, so matches with equal names come out in an unspecified order. The model fixes one order. Its contract states only what every possible order shares: label first, distinct targets, sorted by name, exactly the accepted matches.
- Names are Dafny `string`s, sequences of Unicode scalar values. A file name holding undecodable bytes, which Python carries as lone surrogate code points, has no counterpart here.
- Integer widths need no modelling: Python integers are unbounded, and so are Dafny's `int`.
