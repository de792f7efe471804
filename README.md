# Spectral preprocessing: row assembly, relative reflectance, replicate means

This project is a Dafny model of the table-shaping core of a spectrometer
preprocessing pipeline (`src/preprocess.py`). The pipeline has three stages.

1. **Row assembly** (`creat_row_data_fram`). Every measurement file found under the
   extraction directory becomes one row: its *path key*, then its *sample name*, then
   the second-column value of every non-blank line.
   - The path key is the normalised path components `parts[3:-1]`.
   - The sample name is the file name with the regex `(\d+).txt$` removed.
   - The header is the path key of the **last** file read, then `Name`, then that
     file's first-column labels.
   - Rows are padded with nulls up to the header's width.
2. **Relative reflectance** (`cal_relative`). Rows are grouped by every column before
   `Name`.
   - In each group, the first row whose name contains `ref` is the reference row, and
     the first row whose name contains `dark` is the dark row. Both matches ignore case.
   - A group that lacks either row is skipped.
   - Every row of the group whose name does not *start* with `ref`/`dark` is rescaled
     cell by cell to `round((m - d) * 100 / (r - d), 2)`.
   - The result is sorted by path key.
3. **Replicate aggregation** (`group_and_calculate_mean`). Rows are grouped by path key
   and name. Each content column is replaced by its mean over the group's non-null
   values, rounded to two decimals, and the result is sorted by key and name.

Modules:

- `Wrappers`: `Option` and `Result`.
- `Text`: ASCII digits and the case-insensitive word search behind the `(?i)ref\d*` and
  `(?i)dark\d*` patterns.
- `Floats`: numbers as `Fin(real) | Inf(negative) | NaN`, Python's `float()` on one
  token, two-decimal rounding in both tie modes, and the IEEE operations the formulas
  use, computed on exact reals.
- `Paths`: the path key and the sample name.
- `Order`: the lexicographic order on strings and on key tuples that the sorts use.
- `Table`: rows (`key`, `name`, cells as `Option<Num>`, where `None` is a Polars null),
  frames, the column split around `Name`, grouping, and a sort by key.
- `Assembly`: the file loop of `creat_row_data_fram`, written as methods with loops
  and proved against the function `FileRows`.
- `Relative`: the nested group and row loops of `cal_relative`, written as methods and
  proved against the row-wise specification `RelativeRows`.
- `Replicates`: `group_and_calculate_mean` as functions, with lemmas.

Points of the source that are easy to misread, and what the model does with them:

- **Reference and dark rows are selected by substring, not by prefix.**
  `src/preprocess.py:102-103` select them with `str.contains`. The rows left out of the
  rescaling are picked differently: line 117 uses `re.match`, which only matches at the
  start of the name, although the comment on line 116 speaks of the same patterns. So a
  row named `leafref` is both the reference row and a rescaled output row: see
  `Relative.LeafrefIsReferenceAndOutput`.
- **The dot of the sample-name pattern is not escaped.** Line 48 writes `(\d+).txt$`, so
  any character may stand before `txt`, not only a dot. Also, `$` matches before a final
  newline. The comment on that line ("Remove the last number if it exists") describes
  the intent. The model follows the pattern as written.
- **A null in a row that would be rescaled is an error.** Line 118 builds a NumPy array
  that holds `None`, and the subtraction on line 119 then raises. The model returns
  `NullMeasurement(row)` for such a row. A null in a reference or dark row becomes NaN
  through `to_numpy()`, as in the source.
- **A repeated column name is an error.** The header built on lines 54-61 can repeat a
  name (two directory levels with the same name, a directory or label called `Name`, a
  label that occurs twice), and `pl.DataFrame` on line 69 refuses such a schema. The
  model returns `DuplicateColumns(header)`.

## Model

| member | source | states |
|---|---|---|
| Paths.SliceBound | src/preprocess.py:47 | A Python slice bound lies within the sequence. A bound already inside is kept, a negative bound counts from the end, a bound past the end becomes the length, and a negative bound past the start becomes 0. |
| Paths.PathKey | src/preprocess.py:39-47 | `parts[3:-1]` is empty when the path has at most four components. Otherwise it has four components fewer than the path, and `parts` is its first three components, then the key, then the file name. |
| Paths.SampleName | src/preprocess.py:48 | A file name without a replicate counter is returned unchanged. When the counter is present, at least five characters are removed. |
| Paths.SampleNameSplits | src/preprocess.py:48 | When the substitution fires on a name that does not end in a newline, the name is the result followed by one whole suffix (digits, any character, `txt`). The result does not end in a digit, so the whole digit run is removed. |
| Paths.SampleNameStrips | src/preprocess.py:48 | Conversely, a part that does not end in a digit followed by such a suffix gives back exactly that part. |
| Paths.SampleNameStripsBeforeNewline | src/preprocess.py:48 | Before a final newline the suffix is removed and the newline stays, because `$` also matches there. |
| Paths.SampleNameOfReplicate | src/preprocess.py:48 | `plant12.txt` gives `plant`. |
| Paths.SampleNameOfCalibration | src/preprocess.py:48 | `ref3.txt` gives `ref`. |
| Paths.SampleNameOfUnescapedDot | src/preprocess.py:48 | `plant7_txt` gives `plant`, because the dot is not escaped. |
| Paths.SampleNameWithoutCounter | src/preprocess.py:48 | `plantB.txt` has no trailing digit run and is kept whole, extension included. |
| Text.AsciiLower | src/preprocess.py:44 | The lower-casing that `float()` applies to `inf`/`nan` changes exactly the ASCII capitals and keeps the length. |
| Floats.DigitsOfDecimal | src/preprocess.py:44 | The decimal digits of `n` read back as `n`. |
| Floats.ParseFloatOfDigits | src/preprocess.py:44 | `float()` of a digit string is its value. |
| Floats.ParseFloatOfSignedDigits | src/preprocess.py:44 | A leading `+` or `-` before digits gives the value or its negation. |
| Floats.ParseFloatOfDecimal | src/preprocess.py:44 | Round trip: the decimal string of `n`, and `-` followed by it, parse back to `n` and `-n`. |
| Floats.ParseFloatOfPointed | src/preprocess.py:44 | `whole.frac` parses to `whole` plus `frac` divided by 10 to the power of its digit count. |
| Floats.ParseFloatOfScientific | src/preprocess.py:44 | `m e x` parses to `m * 10^x`. |
| Floats.ParseFloatOfInfinity | src/preprocess.py:44 | `-Inf`, with its mixed-case letters, parses to negative infinity. |
| Floats.ParseFloatRejectsSecondPoint | src/preprocess.py:44 | A literal with a second decimal point is rejected (`ValueError`). |
| Assembly.ReadLine | src/preprocess.py:44 | One line succeeds exactly when it is blank or its second token parses as a float. A blank line adds no value and any other line adds one. A failure names the line. |
| Assembly.ContentSucceeds | src/preprocess.py:44 | A file's comprehension succeeds exactly when every line is readable. |
| Assembly.ContentFailsAtFirstBadLine | src/preprocess.py:44 | The exception comes from the first unreadable line: that line is unreadable and all lines before it are readable. |
| Assembly.ContentMatchesLabels | src/preprocess.py:44-56 | A readable file has exactly one value per first-column label, that is, one per non-blank line. |
| Assembly.Pad | src/preprocess.py:65 | The padded row's length is the larger of the row's length and the header's width. The original row is its prefix, and everything after it is null. |
| Assembly.ReadFile | src/preprocess.py:39-52 | Reading one file succeeds exactly when the file is readable. Its row is `key ++ [sample name] ++ values`. A failure carries the file's first line error. |
| Assembly.ReadFiles | src/preprocess.py:33-52 | The loop over the listing skips directories. It succeeds exactly when every file is readable, and its rows are then `FileRows`, one per file in listing order. `subdirs` is the key of the last entry when that entry is a file. A failure names the first unreadable file and its line error. |
| Assembly.FileRows | src/preprocess.py:51-52 | There is one row per file entry, in order, and each is that file's assembled row. |
| Assembly.CreateRowDataFrame | src/preprocess.py:25-73 | The result succeeds exactly when every file is readable, the listing ends in a file, and the header names no column twice. The header is `Header(last)`. There is one row per file, each padded to the header's width. An empty listing, a final directory, a bad file, or a repeated column name is the matching error. Any unreadable file, wherever it sits in the listing, makes the result a `BadFile` error naming the first unreadable line of the first unreadable file. |
| Assembly.LastRowFillsHeader | src/preprocess.py:55-65 | The last file's own row is exactly as wide as the header, so its padding adds nothing. |
| Assembly.PaddedRowIsTyped | src/preprocess.py:65-69 | A file with the last file's key depth and no more values than labels pads to the layout of a typed row: key, name, its values, then nulls. |
| Assembly.AssembledFrameIsShaped | src/preprocess.py:61-69 | Under those conditions for every file, the typed rows fill the header's columns around a single `Name` column. |
| Table.NameIndex | src/preprocess.py:79 | `columns.index("Name")` is the first position holding `Name`. |
| Table.ColumnSplit | src/preprocess.py:79-85 | The columns are the group-by columns, then `Name`, then the content columns, and `Name` is not a group-by column. So `groupby_cols + ["Name"] + content_cols` is the input schema. |
| Table.Group | src/preprocess.py:88 | A group holds exactly the rows with its key, and nothing else. |
| Table.DistinctKeys | src/preprocess.py:88 | The group keys are pairwise distinct, every row's key is among them, and each comes from some row. |
| Table.RegroupIsPermutation | src/preprocess.py:88-98 | Concatenating the groups of all distinct keys is a permutation of the rows. |
| Table.SortBy | src/preprocess.py:131 | The sort output is sorted by key and is a permutation of its input. |
| Table.SortBySorted | src/preprocess.py:131 | An input that is already sorted and has no two rows with the same key is returned unchanged. |
| Table.SortedUnique | src/preprocess.py:131 | Two sorted sequences of the same rows with unique keys are equal, so with unique keys every sort, stable or not, gives the result `SortBy` gives. |
| Order.KeyLeTotal | src/preprocess.py:131 | Any two key tuples are comparable. |
| Order.KeyLeTransitive | src/preprocess.py:131 | The key order is transitive. |
| Order.KeyLeAntisymmetric | src/preprocess.py:131 | The key order is antisymmetric. |
| Text.StartsWithImpliesContains | src/preprocess.py:102-117 | A name excluded by the prefix test also passes the substring selection. |
| Relative.FirstContaining | src/preprocess.py:102-103 | The result is the first row whose name contains the word, or the group's length when no row does. |
| Relative.Calibration | src/preprocess.py:102-112 | The reference or dark row found is the first row of the group, in input order, whose name contains the word (`FirstMatchAt`, which at most one position satisfies). None is found exactly when no row of the group contains it. |
| Relative.RelativeCellFinite | src/preprocess.py:119-120 | With finite values and `r != d`, a cell is `Round2((m - d) * 100 / (r - d))` and lies within 0.005 of the exact quotient. |
| Relative.CalibrationRowsMapToEnds | src/preprocess.py:119-120 | The reference value maps to 100 and the dark value maps to 0. |
| Relative.EqualCalibration | src/preprocess.py:119 | When `r == d`, the cell is NaN if `m == d` and a signed infinity otherwise. It does not crash. |
| Relative.InfiniteReference | src/preprocess.py:119 | An infinite reference value sends a finite cell to 0. |
| Relative.NaNPropagates | src/preprocess.py:119-120 | A NaN operand gives a NaN cell. |
| Relative.RelativeCells | src/preprocess.py:118-120 | The output row has one cell per input cell, each computed from the same column of the reference and dark rows. |
| Relative.RelativeRow | src/preprocess.py:122 | A rescaled row keeps its key, its name and its width. |
| Relative.EmitSeq | src/preprocess.py:115-123 | Every output row is the rescaling of an emitted input row, and every emitted input row is rescaled into the output. |
| Relative.GroupOfRelativeRows | src/preprocess.py:102-123 | All or none per group. A group without a reference or a dark row yields no output row. Otherwise its output is exactly its rows that do not start with `ref`/`dark`, each rescaled. |
| Relative.ShapedRelativeRows | src/preprocess.py:126-130 | The rescaled rows fit the input's schema. |
| Relative.RescaledIsEmitted | src/preprocess.py:111-123 | Within a group, rescaling against the group's reference and dark rows is what `RelativeRows` does. |
| Relative.RescaleGroup | src/preprocess.py:115-123 | The inner loop succeeds exactly when every non-calibration row of the group has no null. It then appends `Rescaled(g, r, d)`. Otherwise it returns the offending row. |
| Relative.RescaleKey | src/preprocess.py:98-123 | One outer pass extends the output by the regrouped output of the next key and keeps the no-null invariant. A failure is an emitted row with a null. |
| Relative.RescaleGroups | src/preprocess.py:98-123 | The outer loop succeeds exactly when no emitted row holds a null. It then returns a permutation of `RelativeRows`. Otherwise it returns an emitted row with a null. |
| Relative.CalRelative | src/preprocess.py:76-135 | The result is the `MissingName` error exactly when there is no `Name` column. Otherwise the result succeeds exactly when no emitted row holds a null. It keeps the input's columns, is sorted by path key, and holds exactly the rows of `RelativeRows`, each as often. |
| Relative.LeafrefName | src/preprocess.py:94-117 | `leafref` contains `ref`, does not contain `dark`, and does not start with either. |
| Relative.DarkName | src/preprocess.py:95-117 | `dark` contains `dark`, not `ref`, and is a calibration name. |
| Relative.TwoRowCalibration | src/preprocess.py:102-112 | In a two-row group with a reference-like first row and a dark second row, these are the rows selected. |
| Relative.ReferenceRescaledAgainstItself | src/preprocess.py:102-123 | A reference row whose name does not start with `ref` is also emitted, rescaled against itself to 100. |
| Relative.LeafrefIsReferenceAndOutput | src/preprocess.py:102-123 | `leafref` = 80 with `dark` = 20 outputs `leafref` = 100. |
| Floats.ParseFloat | src/preprocess.py:44 | An empty token is rejected. A NaN result comes only from the word `nan` in any case, and an infinite result only from an infinity word, with the token's sign. |
| Floats.Minus | src/preprocess.py:119 | IEEE subtraction: NaN in gives NaN; finite operands give their exact difference; two infinities give NaN exactly when they have the same sign; an infinity minus a finite value is that infinity. |
| Floats.TimesPositive | src/preprocess.py:119 | Multiplying by a positive constant keeps finiteness, NaN and infinities, and keeps the sign and zero-ness of a finite value. |
| Floats.Divide | src/preprocess.py:119 | IEEE division: NaN in gives NaN; finite over a non-zero finite is the exact quotient; over zero the result is NaN exactly when the numerator is zero or NaN; finite over infinite is zero. |
| Assembly.Content | src/preprocess.py:44 | A successful read yields at most one value per line. A failure names a line of the file that is unreadable. |
| Assembly.Labels | src/preprocess.py:56 | There is at most one label per line. When no line is blank there is exactly one per line, and it is that line's first token. |
| Assembly.Header | src/preprocess.py:61 | The header is the file's path key, then `Name`, then the file's labels. |
| Assembly.FileRow | src/preprocess.py:51 | A file's row is its path key as strings, then its sample name, then its values as numbers. |
| Relative.IsCalibration | src/preprocess.py:117 | A name excluded from the output contains the reference or the dark word. |
| Relative.ContributesIff | src/preprocess.py:102-106 | A group contributes output exactly when some row of its key contains the reference word and some row of its key contains the dark word. |
| Relative.RelativeCell | src/preprocess.py:119-120 | A NaN operand gives NaN. Finite operands with different reference and dark values give a finite cell, and every finite cell has at most two decimals. |
| Relative.RelativeRows | src/preprocess.py:98-123 | The output holds exactly the rescaled emitted rows: each output row is the rescaling of an emitted input row, and each emitted input row's rescaling is in the output. |
| Text.ContainsIgnoreCase | src/preprocess.py:102-103 | A word found in a name is no longer than the name. |
| Text.StartsWithIgnoreCase | src/preprocess.py:117 | A prefix found in a name is no longer than the name. |
| Text.ContainsIsCaseBlind | src/preprocess.py:102-103 | Case-insensitive search gives the same answer on a name and on its lower-cased form. |
| Text.StartsWithIsCaseBlind | src/preprocess.py:117 | Case-insensitive prefix matching gives the same answer on a name and on its lower-cased form. |
| Order.StrLe | src/preprocess.py:131 | The string order is lexicographic order: a prefix comes first, otherwise the first differing character decides. |
| Order.KeyLe | src/preprocess.py:131 | A key that is a prefix of another sorts first, and between non-empty keys the order respects the order of their first components. |
| Paths.PySlice | src/preprocess.py:47 | A Python slice within bounds is the Dafny slice. In general the result is no longer than the sequence and its elements are the sequence's elements from the clamped start on. |
| Table.KeyColumns | src/preprocess.py:82 | The group-by columns are the columns before the first `Name`, and `Name` is not among them. |
| Table.ContentColumns | src/preprocess.py:85 | The content columns are the columns after the first `Name`. |
| Replicates.Sum | src/preprocess.py:154 | Finite values sum to a finite value, and an infinite sum needs an infinite value. |
| Replicates.ColumnValues | src/preprocess.py:154 | The non-null values of a column: no more than the group's rows, one per row when none is null, none when all are null. |
| Replicates.Means | src/preprocess.py:150-156 | One mean row per distinct key and name, in the order of the distinct keys, each as wide as the content columns. |
| Replicates.Aggregate | src/preprocess.py:150-159 | The aggregated rows are sorted by key and name and are a permutation of the mean rows. |
| Floats.Round2 | src/preprocess.py:120 | The rounded value has at most two decimals and lies within 0.005 of its input, in either tie mode. |
| Floats.Round2Fixes | src/preprocess.py:120 | A value that already has two decimals is unchanged. |
| Floats.Round2Idempotent | src/preprocess.py:120 | Rounding twice is rounding once. |
| Floats.Round2Ties | src/preprocess.py:120 | Ties: `0.125` goes to `0.12` half to even (NumPy) and to `0.13` half away from zero. |
| Floats.RoundNum | src/preprocess.py:120 | Rounding keeps infinities and NaN and rounds finite values. |
| Replicates.SumOfFinite | src/preprocess.py:154 | Finite values sum to their exact sum. |
| Replicates.SumWithNaN | src/preprocess.py:154 | A NaN in the column makes the sum NaN. |
| Replicates.ColumnMean | src/preprocess.py:154 | The mean is null exactly when the group has no non-null value in the column. A finite mean has two decimals. |
| Replicates.MeanIsAverage | src/preprocess.py:154 | With finite values, the cell is the rounded average of the non-null values. Nulls are skipped, not counted as zero. |
| Replicates.MeanWithNaN | src/preprocess.py:154 | A NaN value makes the mean NaN. |
| Replicates.MeanRow | src/preprocess.py:150-156 | An aggregated row keeps the group's key and name and has one mean per content column. |
| Replicates.MeanRows | src/preprocess.py:150-156 | There is one aggregated row per key, in key order, and each is the mean row of its group. |
| Replicates.GroupAndCalculateMean | src/preprocess.py:137-163 | A missing `Name` column is an error. Otherwise the columns are kept: the group-by columns through `Name`, then the content columns. The rows are `Aggregate` of the input with the rounding mode `MEAN_ROUNDING`: one mean row per key and name, sorted by key and name, with no key and name twice. |
| Replicates.AggregateKeys | src/preprocess.py:144-159 | The output is sorted by key and name, has no two rows with the same key and name, and has exactly the input's keys and names. |
| Replicates.AggregateCells | src/preprocess.py:150-156 | Each output row belongs to a non-empty input group, and its cells are the column means of that group. |
| Replicates.SortByKeepsUnique | src/preprocess.py:159 | Sorting keeps keys unique. |
| Replicates.GroupOfUnique | src/preprocess.py:152 | With unique keys and names, every row is a group of its own. |
| Replicates.DistinctKeysOfUnique | src/preprocess.py:152 | With unique keys and names, the groups are the rows' own keys, in row order. |
| Replicates.MeanRowOfOne | src/preprocess.py:154 | A one-row group whose finite cells have two decimals aggregates to that row. |
| Replicates.MeansOfUnique | src/preprocess.py:150-156 | Rows that are already one per key and name, and already rounded, are their own means. |
| Replicates.AggregateOfUnique | src/preprocess.py:144-159 | Such rows aggregate to themselves, up to sorting. |
| Replicates.AggregateIdempotent | src/preprocess.py:144-159 | Aggregating an aggregated table changes nothing. |

## Left out

- Zip extraction, `glob`, `os.path.isdir`, file opening, `simple_logger`, `preprocess()` and the `__main__` block are all I/O or orchestration. A directory listing is an input: a sequence of `Directory(parts)` or `File(parts, lines)` entries, where each line is already split on white space. `src/bot_api.py` is not part of this model.
- `os.path.normpath` is not modelled. The path components are given already normalised.
- `\d` is read as an ASCII digit. Python's Unicode digits in the sample-name regex are not modelled.
- Floats.ParseFloat: non-ASCII Unicode decimal digits (which `float()` accepts), underscores in numeric literals, surrounding white space inside a token, overflow to infinity, binary rounding of decimal literals and signed zero are not modelled. Numbers are exact reals plus the infinities and NaN.
- Floats.Round2: rounding is on exact reals, not on the binary double nearest the value. So a tie the double representation would break one way is broken by the tie mode.
- Replicates.ColumnMean: `GroupAndCalculateMean` rounds with the constant `MEAN_ROUNDING`, half-away-from-zero, for Polars `.round(2)`. Newer Polars versions default to half-to-even. `ColumnMean`, `MeanRow`, `Means`, `Aggregate` and every lemma about them take the mode as a parameter, so each of those lemmas is proved for both modes; only the top-level operation fixes one.
- Polars schema inference in `pl.DataFrame(..., orient="row")` is not modelled. This covers a file with more values than the header has labels, and key depths that differ. Those cases are stated as preconditions of `Assembly.AssembledFrameIsShaped` instead.
- Table.SortBy: the order of rows with equal keys is not pinned. Polars' sort is not stable, and its group iteration order is unspecified. The model enumerates groups in first-appearance order, and its contracts promise only sortedness and a permutation. Where keys are unique, as in the output of the replicate aggregation, `Table.SortedUnique` shows the order is the same for every sort.
- Relative.CalibrationValue: reads NaN past the end of a shorter calibration row. A rectangular frame never reaches that case.
- Grouping by an empty list of columns (no directory level under the extraction root) is modelled as a single group. Polars' behaviour for an empty `group_by` list is not checked against that.
