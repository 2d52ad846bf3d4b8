# excel-converter, modelled in Dafny

`excel_converter.py` is a small Tk desktop tool. It copies the data of
arbitrary Excel workbooks into the column layout of a template workbook.
The user first maps each template column to a column of the source files
("column mapping"). Each mapped column may also get a delimiter, which
splits one cell into several rows, and a pair of `yyyy-MM-dd`-style date
patterns, which re-format the cell. The tool then converts every sheet of
every chosen workbook and saves each one as a text-only `.xlsx` file.

This project models the two operations that carry the logic.

- `save_mapping` turns the rows of the mapping dialog into the nested
  `column_mapping` dictionary (module `MappingSpec`).
- `convert_excel_files` transforms one sheet read with `dtype=str` into
  the frame that is saved, and names the saved file:
  - column selection and renaming (`ColumnSelector`);
  - re-keying `split_info` from source names to template names (`SplitKeys`);
  - cutting one cell into pieces (`SplitPieces`);
  - row splitting (`RowSplitter`);
  - date-pattern translation and cell conversion (`DateNormalizer`);
  - the in-place date, completion and stringify stages (`WorkingTables`);
  - output file names (`OutputNames`);
  - the sheet and file loops (`Conversion`).

Python dictionaries keep insertion order, and assigning an existing key
keeps its position. They are modelled as sequences of pairs (`Dicts`):
`Put` replaces in place or appends, and `Valid` means the keys are
distinct. A cell is `Null` (pandas' NaN) or `Text(s)`. A frame is a
`Table` of column names and rows. `strptime` and `strftime` are the
parameters `parse` and `format` over an arbitrary date type `D`; `None`
stands for the `ValueError` of a mismatch. Python's `str.strip()`,
`str.lower()`, `str.split(sep)`, `str.replace`, `os.path.basename` and
`os.path.splitext` are written out in `StringOps` and `OutputNames`.

The frame stages that reassign `mapped_df[col]` in place are the class
`WorkingTables.WorkingTable`. Its methods are proved against the functions
`DateColumns`, `Completed` and `RenderedUpTo`. The loops of the source
(the mapping dialog rows, the substitutions of `convert_date_format`, the
`split_info` re-keying, the row splitter's two steps, the sheet and file
loops) are methods with loops. Each is proved equal to a function, and the
properties are proved about those functions.

## Model

| member | source | states |
|---|---|---|
| Dicts.IndexOf | excel_converter.py:257-260 | the position found holds the element, and no earlier position does |
| Dicts.Get | excel_converter.py:254 | a lookup succeeds exactly for the keys present |
| Dicts.Put | excel_converter.py:167 | assignment keeps the key order of an existing key or appends a new one; keys stay distinct; the key then maps to the new value |
| Dicts.PutOther | excel_converter.py:167 | assigning one key leaves every other key's value unchanged |
| Dicts.PutMissing | excel_converter.py:167 | assigning a new key appends it at the end |
| StringOps.StripSpec | excel_converter.py:356 | `strip()` removes exactly the leading and trailing whitespace: the result is a slice of the input with whitespace on both sides only |
| StringOps.StripCharsSpec | excel_converter.py:282 | `strip(chars)` yields a contiguous slice of its input with no character of `chars` at either end, and everything it removed before and after the slice is a character of `chars` |
| StringOps.LowerSpec | excel_converter.py:248 | `lower()` maps every character on its own and keeps the length |
| StringOps.Split | excel_converter.py:280 | `split(sep)` always gives at least one piece |
| StringOps.SplitJoin | excel_converter.py:280 | joining the pieces of a split with the separator gives the original text back |
| StringOps.SplitPiecesAvoidSeparator | excel_converter.py:280 | no piece of a split contains the separator |
| StringOps.SplitCutsLeftmost | excel_converter.py:280 | `split(sep)` cuts at the leftmost occurrence of the separator each time, without overlaps: no occurrence starts inside a piece that a separator follows, not even one running into it |
| StringOps.SplitWithoutSeparator | excel_converter.py:280 | text without the separator splits into itself alone |
| StringOps.FirstPieceIsPrefix | excel_converter.py:280 | the first piece of a split is a prefix of the text |
| StringOps.ReplaceIsJoinOfSplit | excel_converter.py:347 | `replace(old, new)` is the split at `old` joined with `new` |
| MappingSpec.SelectedPairs | excel_converter.py:161-167 | the dialog's selected pairs have template columns as keys and source column names as values |
| MappingSpec.SelectedPairsValid | excel_converter.py:161-167 | with distinct template columns, no key is repeated |
| MappingSpec.SelectedPairsGet | excel_converter.py:166-167 | a template column maps to its selected source column exactly when the selection is not blank |
| MappingSpec.SelectedPairsKeys | excel_converter.py:166-167 | the keys of the mapping are the template columns with a selection, in template order |
| MappingSpec.SelectedView | excel_converter.py:161-167 | the plain column part of the saved mapping, key by key, for every template column |
| MappingSpec.FirstSplitRow | excel_converter.py:161-169 | the first dialog line that selected a column with a non-blank delimiter is such a line |
| MappingSpec.SplitInfoOrder | excel_converter.py:161-169 | the keys of `split_info` are exactly the source columns some line gave a delimiter, ordered by the first such line |
| MappingSpec.SplitInfoForGet | excel_converter.py:168-169 | `split_info` maps a source column to the delimiter of the last dialog row that selected it with a non-blank delimiter |
| MappingSpec.DateInfoForGet | excel_converter.py:170-172 | `date_format_info` holds a template column exactly when both of its patterns are non-blank, with those patterns |
| MappingSpec.Assembled | excel_converter.py:173-174 | storing the two nested dictionaries under their reserved keys keeps the column part and makes them readable back unchanged |
| MappingSpec.SaveMapping | excel_converter.py:158-174 | the saved mapping: its column part, its `split_info` (the dictionary the dialog lines build, so with the key order of `SplitInfoOrder`) and its `date_format_info` as the dialog rows give them |
| MappingSpec.NotEarlier | excel_converter.py:161 | with distinct template columns, no column appears before its own position |
| MappingSpec.SplitInfoLookup | excel_converter.py:210 | `get('split_info', {})` gives the nested dictionary stored under the key, and `{}` when the key is absent; a key holding a plain column also gives `{}` (see Left out) |
| MappingSpec.DateInfoLookup | excel_converter.py:211 | `get('date_format_info', {})` gives the nested dictionary stored under the key, and `{}` when the key is absent; a key holding a plain column also gives `{}` (see Left out) |
| MappingSpec.TemplateToFile | excel_converter.py:215 | `template_to_file_mapping` has only non-reserved keys of the mapping and keeps them distinct |
| MappingSpec.TemplateToFileGet | excel_converter.py:215 | a key's entry is the mapping's column entry unless the key is reserved |
| MappingSpec.TemplateToFileUpdate | excel_converter.py:215 | replacing a dropped entry by another dropped entry does not change the column part |
| MappingSpec.TemplateToFileIgnoresReserved | excel_converter.py:215 | storing a nested dictionary under a reserved key does not change the column part |
| ColumnSelector.MissingColumns | excel_converter.py:230-233 | `missing_columns` holds exactly the wanted columns the sheet lacks |
| ColumnSelector.MissingColumnsAppend | excel_converter.py:230-233 | the comprehension keeps mapping order and repeats: the missing list of a concatenation is the concatenation of the missing lists |
| ColumnSelector.MissingColumnsSingle | excel_converter.py:230-233 | one wanted column contributes itself exactly when the sheet lacks it, so an absent column mapped twice is listed twice |
| ColumnSelector.NothingMissing | excel_converter.py:233-236 | nothing is missing exactly when every mapped source column is in the sheet |
| ColumnSelector.Project | excel_converter.py:239 | `df[file_columns_ordered]` has the same rows and, at each position, the chosen column of the sheet |
| ColumnSelector.KeyPosition | excel_converter.py:243-244 | the position of a template column in the renamed frame is its position in the mapping |
| ColumnSelector.Select | excel_converter.py:230-244 | fails exactly when a mapped source column is missing, with the missing list; otherwise the frame has the template columns of the mapping, in mapping order, each holding its source column |
| SplitKeys.ReverseMapping | excel_converter.py:248 | the reverse mapping has distinct keys |
| SplitKeys.ReverseMappingGet | excel_converter.py:248 | a normalised source name maps to the normalised template name of the last entry whose source normalises to it |
| SplitKeys.LastKeyForIsKey | excel_converter.py:248 | a reverse-mapped name is the normal form of some template column |
| SplitKeys.NormalForms | excel_converter.py:258 | the normal form (stripped, lower-cased) of each column, in order |
| SplitKeys.ResolveUnmapped | excel_converter.py:254-262 | a `split_info` key is reported exactly when the reverse mapping has no entry for it or a blank one |
| SplitKeys.ResolveColumn | excel_converter.py:255-260 | a resolved key goes to the first template column whose normal form is the reverse-mapped name |
| SplitKeys.FirstWithNormalForm | excel_converter.py:257-260 | the search stops at the first column with the wanted normal form |
| SplitKeys.ResolveNeverMisses | excel_converter.py:255-260 | the search for the template column always finds one |
| SplitKeys.FindColumn | excel_converter.py:257-260 | the inner loop returns the first column with the wanted normal form, or the end when there is none |
| SplitKeys.AdjustSplitInfo | excel_converter.py:252-262 | the re-keying loop computes the adjusted dictionary and the warnings |
| SplitKeys.AdjustedEntries | excel_converter.py:252-262 | `adjusted_split_info` has distinct keys, all template columns, each with the delimiter of the last `split_info` entry that resolves to it |
| SplitKeys.AdjustWarnedStep | excel_converter.py:253-262 | one more `split_info` entry adds a report exactly when it does not resolve |
| SplitKeys.AdjustWarnings | excel_converter.py:253-262 | a key is warned about exactly when it is in `split_info` and unmapped |
| SplitKeys.SharedSourceSplitsLast | excel_converter.py:248-259 | when two template columns share a source column, that column's delimiter goes to the template column of the later mapping entry only: `{A: X, B: X}` with `{X: d}` splits `B`, whichever dialog line `d` was set on |
| SplitKeys.AdjustWarningsCount | excel_converter.py:253-262 | every warning names a `split_info` key, and there are no more warnings than entries |
| SplitPieces.CleanPieces | excel_converter.py:282-284 | the cleaned, filtered pieces are non-empty and no more than the fragments |
| SplitPieces.CleanPiecesFrom | excel_converter.py:282-284 | every kept piece is the cleaned form of one fragment |
| SplitPieces.KeptAppend | excel_converter.py:284 | the number of fragments that survive the filter adds up over a concatenation |
| SplitPieces.CleanPiecesCount | excel_converter.py:282-284 | there are exactly as many pieces as fragments whose cleaning is non-blank |
| SplitPieces.CleanPiecesKeep | excel_converter.py:282-284 | every fragment whose cleaning is non-blank is kept, cleaned, at the position given by the surviving fragments before it |
| SplitPieces.KeptOrder | excel_converter.py:282-284 | surviving fragments keep their order |
| SplitPieces.CleanIsTrimmed | excel_converter.py:282 | a cleaned piece has no whitespace at either end |
| SplitPieces.CleanOfClean | excel_converter.py:282 | cleaning a trimmed piece without delimiter characters changes nothing |
| SplitPieces.Pieces | excel_converter.py:278-292 | a missing cell gives one empty piece; a text cell raises exactly for an empty delimiter; there is always at least one piece |
| SplitPieces.PiecesOfText | excel_converter.py:280-290 | a text cell gives its cleaned non-empty fragments, or itself whole when none is left |
| SplitPieces.CleanPiecesAllBlank | excel_converter.py:284 | fragments that all clean to blank leave nothing |
| SplitPieces.AllBlankKeptWhole | excel_converter.py:285-290 | a value whose fragments are all blank is kept whole |
| SplitPieces.SplitOfJoin | excel_converter.py:280 | splitting pieces joined by a delimiter none of whose characters they contain gives the pieces back |
| SplitPieces.CleanPiecesOfClean | excel_converter.py:282-284 | pieces that are already clean are kept as they are |
| SplitPieces.PiecesOfJoin | excel_converter.py:280-286 | round trip: non-empty, trimmed pieces joined by any delimiter none of whose characters they contain (`";"`, `"; "`, ...) split back into the same pieces |
| RowSplitter.Collect | excel_converter.py:272-294 | `split_values_dict` has distinct keys, each a split column the row has |
| RowSplitter.CollectNoneStays | excel_converter.py:314-320 | once a split raises, the rest of the row's collection is abandoned |
| RowSplitter.CollectStep | excel_converter.py:276-286 | a split column is collected once, as a new entry at the end |
| RowSplitter.CollectGet | excel_converter.py:276-292 | the collected list of a split column is the pieces of that cell with that column's delimiter |
| RowSplitter.Width | excel_converter.py:273-287 | `max_length` is at least 1, at least every list's length, and equals one of them unless it is 1 |
| RowSplitter.WidthAppend | excel_converter.py:287 | adding a list raises `max_length` to its length if that is larger |
| RowSplitter.CollectPieces | excel_converter.py:272-294 | the collection loop computes the piece lists and `max_length` |
| RowSplitter.Assign | excel_converter.py:299-306 | a new row has as many cells as the original |
| RowSplitter.AssignCell | excel_converter.py:299-306 | in new row `i`, a split column holds piece `i` or `''`, and every other column the original cell |
| RowSplitter.Copies | excel_converter.py:298-307 | `max_length` new rows, each as wide as the frame |
| RowSplitter.CopiesAt | excel_converter.py:298-307 | new row `i` is the row with piece `i` assigned |
| RowSplitter.EmitRows | excel_converter.py:298-307 | the emitting loop builds exactly those rows |
| RowSplitter.ExpandRow | excel_converter.py:269-320 | each row gives at least one row, as wide as the frame |
| RowSplitter.SplitRow | excel_converter.py:270-320 | the per-row body gives the rows of `ExpandRow` |
| RowSplitter.ExpandRowCells | excel_converter.py:297-307 | in every output row, a split column holds its `i`-th piece (or `''`) and every other column the original cell |
| RowSplitter.EmptyDelimiterKeepsRow | excel_converter.py:280-320 | a row whose split raises on an empty delimiter is kept once, unchanged |
| RowSplitter.ExpandRowLength | excel_converter.py:297-312 | a row gives `max_length` rows, or itself once when no split column was collected |
| RowSplitter.ExpandRowCovers | excel_converter.py:297-307 | no piece is lost: each split column's piece list fits in the rows produced |
| RowSplitter.ExpandRowTight | excel_converter.py:287-298 | a row gives more than one row only as many as some split column has pieces |
| RowSplitter.ExpandAll | excel_converter.py:268-322 | the new frame has at least as many rows, all as wide as the frame |
| RowSplitter.SplitRows | excel_converter.py:268-322 | the loop over `iterrows` builds `new_rows` in row order |
| RowSplitter.ExpandAllAppend | excel_converter.py:269 | splitting is row by row: it distributes over concatenation |
| RowSplitter.ExpandAllBlocks | excel_converter.py:269-320 | the rows produced by one sheet row sit together, between those of earlier and later rows |
| RowSplitter.ExpandAllCount | excel_converter.py:297-322 | the number of rows is the sum of the rows each sheet row produces |
| RowSplitter.SplitTable | excel_converter.py:266-325 | the columns stay; there are at least as many rows; without split entries the frame is untouched |
| DateNormalizer.ConvertDateFormat | excel_converter.py:331-348 | the substitution loop yields the pattern with the tokens replaced in the listed order |
| DateNormalizer.ReplaceAllEmpty | excel_converter.py:347 | replacing with a non-empty string empties nothing and fills nothing |
| DateNormalizer.ApplyAllEmpty | excel_converter.py:346-347 | the substitutions keep a pattern empty exactly when it was |
| DateNormalizer.DatePatternEmpty | excel_converter.py:333-354 | a translated pattern is empty exactly when the saved pattern was |
| DateNormalizer.ApplyAllUntouched | excel_converter.py:346-347 | a pattern without any token is left unchanged |
| DateNormalizer.ReplaceAbsent | excel_converter.py:347 | text without the token's first character is not changed by the replacement |
| DateNormalizer.ApplyAllSettled | excel_converter.py:346-347 | once the later substitutions change nothing, the intermediate result is the final one |
| DateNormalizer.YearTokens | excel_converter.py:335-347 | in any pattern, a `yyyy` run with no other `y` around it becomes `%Y`, never `%y%y`: the four-digit token is replaced before the two-digit one |
| DateNormalizer.LongestTokenFirst | excel_converter.py:335-347 | a pattern whose only token is a `yyyy` run converts to the same text with `%Y` in its place |
| DateNormalizer.ConvertDate | excel_converter.py:355-363 | a missing or blank cell gives `''`; a parse failure keeps the text unstripped; otherwise the parsed date is printed with the output pattern |
| DateNormalizer.ConvertDateStable | excel_converter.py:355-363 | converting the converted cell again with the output pattern on both sides changes nothing, when that pattern round-trips |
| WorkingTables.ConvertColumn | excel_converter.py:364 | `apply` on one column keeps the number of rows and their widths |
| WorkingTables.DateColumns | excel_converter.py:350-365 | the date stage keeps the frame's shape |
| WorkingTables.DateColumnsCell | excel_converter.py:350-364 | each cell is converted with its column's patterns when both translate to non-empty ones, and left as it is otherwise |
| WorkingTables.Extra | excel_converter.py:371-373 | the added columns are exactly the template columns the frame lacks |
| WorkingTables.Blanks | excel_converter.py:373 | an added column is `''` in every row |
| WorkingTables.Completed | excel_converter.py:367-377 | the completed frame has the template columns and the same number of rows |
| WorkingTables.IndexOfAppend | excel_converter.py:372-377 | an added column never shadows a column the frame already had |
| WorkingTables.Reorder | excel_converter.py:377 | `mapped_df[all_template_columns]` has the template's columns and the same rows |
| WorkingTables.CompletedByReorder | excel_converter.py:371-377 | appending blank columns and then selecting the template columns is the completed frame |
| WorkingTables.RenderColumn | excel_converter.py:387-390 | stringifying one column keeps the shape |
| WorkingTables.RenderedUpTo | excel_converter.py:387-390 | stringifying the first columns keeps the shape |
| WorkingTables.RenderNothing | excel_converter.py:387 | before the loop, nothing is stringified |
| WorkingTables.RenderStep | excel_converter.py:387-390 | one more pass of the loop stringifies one more column |
| WorkingTables.RenderFacts | excel_converter.py:388-390 | a stringified cell is never `nan`, keeps any other text, and stringifying twice changes nothing |
| WorkingTables.WorkingTable.constructor | excel_converter.py:239-322 | the working frame starts as the selected (and split) frame |
| WorkingTables.WorkingTable.Snapshot | excel_converter.py:399 | the frame saved is rectangular |
| WorkingTables.WorkingTable.ConvertDates | excel_converter.py:328-365 | the date stage rewrites the rows in place as `DateColumns` says and keeps the columns |
| WorkingTables.WorkingTable.Complete | excel_converter.py:367-377 | the completion stage leaves exactly the template columns, with `Completed`'s rows |
| WorkingTables.WorkingTable.Stringify | excel_converter.py:386-390 | the stringify loop converts every column and keeps the columns |
| OutputNames.BasenameSuffix | excel_converter.py:381 | `basename` is the suffix after the last `/` |
| OutputNames.BasenameNoSeparator | excel_converter.py:381 | `basename` holds no `/` |
| OutputNames.BasenameOf | excel_converter.py:381 | the basename of `dir/base` is `base` |
| OutputNames.LastIndex | excel_converter.py:381 | the last position of the dot, or none exactly when there is none |
| OutputNames.StemOfExtension | excel_converter.py:381 | round trip: the stem of `stem.ext` is `stem` |
| OutputNames.StemOfDotName | excel_converter.py:381 | a name whose only dot leads it has no extension |
| OutputNames.OutputNameOf | excel_converter.py:381-384 | the saved name of `dir/stem.ext` is the stem, `_sheet` exactly when there are several sheets, and `.xlsx` |
| OutputNames.OutputNamesCollide | excel_converter.py:381-384 | two sheets get the same file name exactly when the workbook has one sheet or the names agree |
| Conversion.Convert | excel_converter.py:224-390 | a sheet is skipped exactly when a mapped column is missing, with that list; otherwise it has exactly the template columns, at least the sheet's rows, and the warnings name exactly the unmapped `split_info` keys |
| Conversion.ConvertSheet | excel_converter.py:229-390 | the sheet loop's body, with the frame updated in place, computes `Convert` |
| Conversion.ConvertedText | excel_converter.py:386-390 | every saved cell is text, and never `nan` |
| Conversion.UnmappedColumnsBlank | excel_converter.py:367-377 | a template column the mapping does not fill is `''` in every saved row |
| Conversion.MappedColumnsCopied | excel_converter.py:239-390 | without splitting, row `i` of a mapped template column is its source cell, date-converted and stringified |
| Conversion.ConvertedRowCount | excel_converter.py:266-325 | the saved frame has the sheet's row count, or the split's total when splitting |
| Conversion.Outcomes | excel_converter.py:222 | one outcome per sheet |
| Conversion.Files | excel_converter.py:222-384 | at most one file per sheet |
| Conversion.FilesCount | excel_converter.py:222-236 | one file per converted sheet and none for a skipped one |
| Conversion.FilesAt | excel_converter.py:222-384 | every converted sheet's frame is written under its output name, after the files of the converted sheets before it: a skipped sheet does not stop the later ones |
| Conversion.ConvertedSheetsOrder | excel_converter.py:222-384 | files follow sheet order: a converted sheet's file comes before the file of every later converted sheet |
| Conversion.FilesFrom | excel_converter.py:222-384 | every file written is the frame of one converted sheet under that sheet's output name |
| Conversion.ConvertSheetAt | excel_converter.py:224-390 | one pass of the sheet loop adds the sheet's file exactly when it is converted, so the files written so far are `Files` of the sheets so far |
| Conversion.ConvertWorkbook | excel_converter.py:220-390 | the sheet loop writes exactly the files `Files` lists for the sheets' outcomes, which `FilesCount`, `FilesAt` and `FilesFrom` describe: one per converted sheet, in sheet order, under its output name |
| Conversion.FileNames | excel_converter.py:381-384 | one candidate name per sheet |
| Conversion.FilesNamedAfterSheets | excel_converter.py:381-384 | every file written is named after one of the workbook's sheets |
| Conversion.FilesDistinct | excel_converter.py:381-384 | with several sheets of different names, no two files of a workbook share a name |
| Conversion.WorkbookNamesDistinct | excel_converter.py:220-384 | no sheet of a workbook overwrites another sheet's file |
| Conversion.ConvertFiles | excel_converter.py:217-390 | the file loop writes each workbook's files, workbook after workbook |

## Left out

- The Tk user interface: dialogs, combo boxes, message boxes and the log text. The dialog's values are the `MappingRow` parameters of `SaveMapping`. The only log lines modelled are the missing-column list and the `split_info` warnings.
- The mapping name prompt and the JSON history file (`load_history_mappings`, `json.dump`). `save_mapping`'s early return on an empty name happens before any state changes, so it is not modelled.
- The checks at the start of `convert_excel_files` (no template, no mapping, no save directory, no file chosen). They only return early.
- Reading workbooks (`pd.ExcelFile`, `pd.read_excel`): sheets come in as `Sheet` values with text or missing cells. Writing them (`to_excel`, openpyxl formatting, the file-lock handling) is left out too: a saved file is a `Written` value.
- `datetime.strptime` and `strftime`: they are the parameters `parse` and `format`.
- Conversion.Files: `os.path.join(save_dir, ...)` is not modelled. Names are file names within the save directory.
- OutputNames.Basename: only `/` is a separator (POSIX `os.path`), not the Windows `\`.
- StringOps.LowerSpec: `lower()` is modelled for ASCII letters only. Whitespace for `strip()` is the set of characters Python's `str.isspace` accepts.
- Conversion.WellFormed: a history mapping whose nested entries are not dictionaries is outside the model. A `date_format_info` entry without an `input` or `output` key reads as a blank pattern (`get(..., '')`), which a `DatePair` with `""` represents.
- Template column names are distinct (`Distinct(template)`), as pandas gives them. Pandas' renaming of duplicate headers (`a.1`) is not modelled.
- A sheet with no rows and at least one split entry: pandas builds `DataFrame([])` without columns, and the completion step adds them all back as empty. The saved frame is the same, so the model keeps the columns throughout.
- The per-row `try`/`except`: the only exception modelled there is `split` raising on an empty delimiter, which keeps the row unchanged (`Collect` gives `None`).
- The per-file `try`/`except`: any other exception abandons the remaining sheets of that workbook and goes on with the next file. This is not modelled: every sheet of every workbook is converted or skipped.
- MappingSpec.SplitInfoLookup: a loaded mapping whose `split_info` or `date_format_info` key holds a plain column name gives `{}` in the model. Python raises on `.items()` there, and the per-file handler abandons the file. `save_mapping` always stores the nested dictionaries under these keys, so only a hand-edited history file leads there.
- The row splitter's "column not in row" warning branch is modelled in `Collect`. It cannot be reached, because every adjusted key is a column of the selected frame.
