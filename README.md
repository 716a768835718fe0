# STAR-file block parser, modelled in Dafny

This project models the block parser of class `StarFile` (`starfile/starfile.py`).
A STAR file is a text file divided into data blocks. Each block begins on a line
whose stripped text starts with `data_`. A block is one of two kinds:

- a flat block of `_key value` lines;
- a table introduced by a `loop_` line, then a header of `_name` lines, then rows
  of whitespace-separated values.

The parser scans the file for block starts and turns each start into the range
of lines up to the next start. It reads every range as a flat block or a table,
and stores the list of blocks in `dataframes`.

The file is held in memory as a sequence of lines. Line `k` is `lines[k - 1]`:
the parser counts lines from 1. A line number outside the file reads as the empty
line, as `linecache.getline` does. That empty line is what stops a loop header
at the end of the file.

Files:

- `wrappers.dfy`: `Option` and `Result`.
- `text.dfy`: the Python string operations the parser relies on:
  - `str.strip` and `str.split()`, over the characters `str.isspace` accepts;
  - `str.startswith`;
  - the slice `s[1:]`.
- `pydict.dfy`: a Python `dict` as its items in insertion order. Assigning to an
  existing key replaces its value in place; a new key goes at the end.
- `star_spec.dfy` (module `StarSpec`): what each parser method computes, as
  functions of the lines. It also holds the lemmas stating what the parser
  promises.
- `star_file.dfy` (module `StarFile`): class `StarFile`. It has the file's lines
  (`const lines`; `NLines()` is `n_lines`) and the field `dataframes`.
  - The methods are imperative, like the parser's loops.
  - Each method is proved to return exactly the corresponding `StarSpec`
    function.
  - `ReadFile` is proved to set `dataframes` to the parsed blocks, or to leave it
    unchanged when reading fails.

Every raised exception is an `Error` value, and each operation returns a
`Result`. The errors are:

- `NoDataBlocks`: the scanner's `ValueError`.
- `InvalidBlockStart` and `InvalidLoopStart`: the two start checks.
- `EmptyTable` and `RaggedTable`: pandas failing to read a table.
- `ColumnMismatch`: assigning a header of the wrong length as column names.
- `MissingValue`: the `IndexError` on a flat-block line without a value.

In four places the code behaves differently from what a reader might expect, and the model follows the code:

- A table carries no block name, because the code never attaches one.
- The block name is everything after `data_` on the stripped line. It is not
  stripped again.
- The flat reader never sees a block's last line, because
  `range(start + 1, end)` stops before `end`.
- A flat key is the first token minus its first character, whatever that
  character is.

## Model

| member | source | states |
|---|---|---|
| Text.TrimLeftSpec | starfile/starfile.py:145 | the left trim of `strip` removes exactly the leading whitespace: the result is a suffix, what it drops is all whitespace, and it starts with a non-space |
| Text.TrimRightSpec | starfile/starfile.py:145 | the right trim removes exactly the trailing whitespace: the result is a prefix, what it drops is all whitespace, and it ends with a non-space |
| Text.StripIsSlice | starfile/starfile.py:145 | `strip` returns a contiguous slice of the line with no whitespace at either end, and only whitespace is cut off on both sides |
| Text.WordEndSpec | starfile/starfile.py:136 | the first word of a line holds no whitespace and is followed by whitespace or the end of the line |
| Text.SplitTokensHaveNoSpace | starfile/starfile.py:168 | every token of `split()` is non-empty and holds no whitespace |
| Text.SplitEmptyIffBlank | starfile/starfile.py:168 | `split()` yields no token exactly when the line is all whitespace |
| Text.FirstTokenIsFirstWord | starfile/starfile.py:136 | on a line starting with a non-space, the first token of `split()` is the line's first word |
| Text.WordStartsFromSpec | starfile/starfile.py:168 | the word starts listed from an index on are exactly the indices from there that hold a non-space at the start of the line or after whitespace, each once, in increasing order |
| Text.SplitWords | starfile/starfile.py:168 | `split()` of the line from an index outside a word has one token per word start from that index on, and token `i` is the maximal non-whitespace run beginning at the `i`-th of them |
| Text.SplitSpec | starfile/starfile.py:168 | `split()` has exactly one token per word start of the line, and token `i` is the maximal non-whitespace run beginning at the `i`-th word start |
| PyDict.PutSpec | starfile/starfile.py:172 | after `d[k] = v`: `k` maps to `v`; other keys keep their values; keys stay unique; the key order changes only by appending a new key |
| PyDict.PutGet | starfile/starfile.py:172 | after `d[k] = v`, `k` maps to `v` and every other key keeps its value |
| PyDict.PutKeys | starfile/starfile.py:172 | `d[k] = v` keeps the key order and appends `k` only when it is new |
| PyDict.PutUnique | starfile/starfile.py:172 | `d[k] = v` keeps keys unique |
| PyDict.GetFindsKeys | starfile/starfile.py:172 | a lookup finds a value exactly for the keys present |
| PyDict.FirstOccurrencesSpec | starfile/starfile.py:172 | keeping each key at its first occurrence gives every key of the list exactly once, ordered by first occurrence: a key placed before another occurs in the list before every occurrence of the other |
| StarSpec.GetLine | starfile/starfile.py:144-145 | a non-empty line can only come from a line number inside the file; outside it, the line reads as empty |
| StarSpec.ScanSpec | starfile/starfile.py:45-49 | the one-pass scan returns exactly the marked line numbers of its window, strictly increasing |
| StarSpec.LinesOfKindSpec | starfile/starfile.py:45-49 | the scan over lines returns exactly the lines of the requested kind in its window, strictly increasing |
| StarSpec.DataBlockStartsSpec | starfile/starfile.py:40-53 | the scanner fails with `NoDataBlocks` exactly when no line starts a block; otherwise it returns exactly the lines whose stripped text starts with `data_`, 1-based and strictly increasing |
| StarSpec.DistinctCount | starfile/starfile.py:61 | a strictly increasing list has as many distinct elements as entries |
| StarSpec.NDataBlocksCounts | starfile/starfile.py:56-62 | the block count equals the number of distinct block-start lines and is positive; it fails exactly when there is none |
| StarSpec.StartsEnds | starfile/starfile.py:147-154 | one range per start, in order: each starts at its start, ends on the line before the next start, and the last ends at `n_lines` |
| StarSpec.StartsEndsDisjoint | starfile/starfile.py:147-154 | for increasing starts ending by `n_lines`, every range is non-empty, ends by `n_lines`, and lies wholly before every later range |
| StarSpec.RangeContaining | starfile/starfile.py:147-154 | every line from the first start to `n_lines` lies in some range |
| StarSpec.TagNameIsRestOfFirstWord | starfile/starfile.py:136 | on a stripped `_` line, the name is the first word minus its leading character; it holds no whitespace |
| StarSpec.BodyLinesSpec | starfile/starfile.py:85-95 | the collected body holds exactly the stripped lines `lo..hi-1`, in order |
| StarSpec.HeaderEnd | starfile/starfile.py:131-141 | the header walk never ends before the line where it starts |
| StarSpec.HeaderEndSpec | starfile/starfile.py:131-141 | the header walk passes only `_` lines and stops at the first line that is not one |
| StarSpec.TagNamesSpec | starfile/starfile.py:134-138 | one name per header line, in order, each the line's first token minus its first character |
| StarSpec.HeaderFromSpec | starfile/starfile.py:131-141 | the header has one entry per `_` line after the `loop_` line; the entry at offset `k - lo` is the name on line `k`; the walk stops at `lo + len(header)` |
| StarSpec.LoopHeader | starfile/starfile.py:116-142 | the header read fails, with `InvalidLoopStart` at the given line, exactly when that line does not start with `loop_` |
| StarSpec.LoopHeaderSpec | starfile/starfile.py:116-142 | on success: the header is the one read from the next line on; the returned data start equals `start + 1 + len(header)`; every line in between starts with `_` and the data-start line does not |
| StarSpec.LoopData | starfile/starfile.py:106-114 | a table that is read has at least one row |
| StarSpec.LoopDataSpec | starfile/starfile.py:106-114 | the table is read exactly when some line of the window holds a token and all such lines hold the same number of tokens; it then holds the token rows of the window's non-blank lines, in file order, all of the same non-zero width; it is empty exactly when no line of the window holds a token; only `EmptyTable` and `RaggedTable` can fail it |
| StarSpec.RowsAgreeWidths | starfile/starfile.py:106-114 | the token lines of the window all have one width exactly when the rows collected from it do |
| StarSpec.LoopBlockSpec | starfile/starfile.py:100-104 | a loop block is read exactly when its first line starts with `loop_`, the table after the header is read, and that table is as wide as the header; it is then the header read at its start over the table read from the data start through the block end; every row has one value per header name; it fails with `InvalidLoopStart` exactly when its first line lacks `loop_` |
| StarSpec.FirstMarkedSpec | starfile/starfile.py:88-93 | the left-to-right search returns the first marked line of its window, or establishes that none is marked |
| StarSpec.FirstLoopLineSpec | starfile/starfile.py:88-93 | the dispatcher's search finds the first `loop_` line of its window, or establishes that there is none |
| StarSpec.ReadEntry | starfile/starfile.py:165-171 | a flat-block line is skipped exactly when it is empty and lacks a value exactly when it has fewer than two tokens; otherwise its key is the first token minus its first character and its value the second token |
| StarSpec.ReadEntrySpec | starfile/starfile.py:165-171 | read by position: a flat-block line is skipped exactly when it is empty and lacks a value exactly when it holds at most one word; otherwise its first word is one character followed by the key, and its second word is the value |
| StarSpec.FieldsFails | starfile/starfile.py:162-172 | building the dictionary succeeds exactly when no line lacks a value, and otherwise reports the first line that does |
| StarSpec.FieldsKeysUnique | starfile/starfile.py:162-172 | the dictionary built holds every key once |
| StarSpec.FieldsLastWins | starfile/starfile.py:162-172 | a key is present exactly when some line assigns it, and it holds the value of the last line that does |
| StarSpec.FieldsKeyOrder | starfile/starfile.py:162-174 | the dictionary's key order, which becomes the column order, is the keys the lines assign, each kept at its first assignment, in line order |
| StarSpec.DataBlockAtErrors | starfile/starfile.py:76-98 | reading a block fails with `InvalidBlockStart` exactly when its first line lacks `data_`, and never fails with `InvalidLoopStart` or `NoDataBlocks` |
| StarSpec.DispatchToLoop | starfile/starfile.py:88-93 | when line `k` is the first `loop_` line among `start+1..end-1`, the block is the table read from line `k` |
| StarSpec.DispatchToFlat | starfile/starfile.py:83-97 | without a `loop_` line among `start+1..end-1`, the block is the flat block of exactly those lines, named by what follows `data_` on the first line |
| StarSpec.FlatBlockIgnoresLastLine | starfile/starfile.py:88 | the flat reader never reads a block's last line: two files that differ only in a block's last line give the same flat block for it |
| StarSpec.FlatBlocksAgree | starfile/starfile.py:83-97 | two files that agree on a flat block's first line and body lines give the same block |
| StarSpec.BodyLinesAgree | starfile/starfile.py:88-95 | the collected body depends only on the lines it covers |
| StarSpec.CollectSpec | starfile/starfile.py:70-72 | reading the ranges in turn succeeds exactly when every range does, then keeps each block in range order; otherwise it reports the first failure |
| StarSpec.ParsedBlocksPerStart | starfile/starfile.py:64-74 | a successful read gives one block per block start, in file order, as many as the block count; each is the block read from that start's range |
| StarSpec.ParsedBlocksErrors | starfile/starfile.py:64-74 | the read fails with `NoDataBlocks` exactly when no line starts a block; the start checks of the block and loop readers never fire |
| StarFile.FieldsKeepsError | starfile/starfile.py:168-170 | once a line lacks its value, the dictionary build fails with that line's error |
| StarFile.CollectKeepsError | starfile/starfile.py:70-72 | once a range fails, the whole read fails with that range's error |
| StarFile.StarFile.constructor | starfile/starfile.py:9-11 | a new parser holds the file's lines and no blocks |
| StarFile.StarFile.DataBlockStarts | starfile/starfile.py:40-53 | the one-pass loop computes the block starts (see `DataBlockStartsSpec`) |
| StarFile.StarFile.NDataBlocks | starfile/starfile.py:56-62 | the method computes the block count (see `NDataBlocksCounts`) |
| StarFile.StarFile.ReadFile | starfile/starfile.py:64-74 | succeeds exactly when the file parses, then sets `dataframes` to the parsed blocks; on failure it reports the parse error and leaves `dataframes` unchanged |
| StarFile.StarFile.ReadBlocks | starfile/starfile.py:68-72 | the loop over the ranges returns the blocks read from each range in order, or the first failure (see `CollectSpec`) |
| StarFile.StarFile.ReadDataBlock | starfile/starfile.py:76-98 | the loop with its early return computes the block of a range, as dispatched (see `DispatchToLoop`, `DispatchToFlat`) |
| StarFile.StarFile.ReadLoopBlock | starfile/starfile.py:100-104 | the method computes the loop block (see `LoopBlockSpec`) |
| StarFile.StarFile.ReadLoopHeader | starfile/starfile.py:116-142 | the `while` loop computes the header and data start (see `LoopHeaderSpec`, `HeaderFromSpec`) |
| StarFile.StarFile.DataBlockClean | starfile/starfile.py:156-176 | the loop filling the dictionary computes the flat block (see `FieldsFails`, `FieldsLastWins`) |

## Left out

- File access (`open`, `Path.exists`, `linecache`) is left out. The file is an in-memory sequence of lines given to the constructor.
- `n_lines` returning `None` for a missing file is left out, since there is no file system in the model.
- The constructor's `data` parameter and its commented-out branch are left out, because that code is dead.
- The `dataframes` getter and setter are not modelled as members. The setter is the assignment to the field in `ReadFile`.
- pandas `DataFrame` construction, the `.name` attribute and dtype inference are left out. A flat block is its name plus its dictionary, and a table is its header plus rows of strings.
- pandas `read_csv` quoting (a quoted value holding spaces) and comment handling are not modelled. A row is the whitespace tokens of a line.
- The model reads a table from the raw lines `first..last` only. It counts `skipfooter` in raw lines before blank lines are dropped, and a blank line gives no row. This window is the model's reading of the `read_csv` call, not a statement of what pandas does in every case.
- LoopData: when the window holds no token line, the model fails with `EmptyTable`. The python engine of pandas takes the column count from the first non-blank line after the skipped rows, even when that line lies in the footer it later cuts off. For a table block followed by another block, pandas may then return a table with no rows instead of an error. That 0-row outcome is not modelled.
- LoopData: rows shorter than the first row are rejected as `RaggedTable`. The python engine of pandas pads them with missing values instead. The model is stricter here, and accepts exactly the tables whose rows all have one width.
- LoopData: the `end_line_number=None` branch of `_read_loop_data` (starfile.py:108-109), which reads to the end of the file on the default engine without `skipfooter`, has no counterpart. `_read_loop_block` always passes an end line, so the parser never takes that branch.
- Text is a sequence of code points. Decoding the file's bytes and Python's universal-newline translation are not modelled.
