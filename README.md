# Excel name comparator, modelled in Dafny

The `ExcelComparator` component of excel-checker (`app.js`) loads two
spreadsheets and picks one column in each. It then reports the names of each
column that the other column lacks, ignoring case and surrounding whitespace,
and can export both lists as a two-sheet workbook.

This project models that component:

- `Strings` models `trim` (ECMAScript whitespace and line terminators) and
  `toLowerCase` (ASCII letters).
- `Cells` models the spreadsheet cell values: text, integer, boolean and
  undefined. It also models JavaScript truthiness and `toString`.
- `Sequences` models `[...new Set(xs)]`: deduplication that keeps the first
  occurrence of each value.
- `Comparison` models the `compareFiles` pipeline from `indexOf` to the result
  record. It proves what the result means: which names are listed, the
  totals, order, duplicates and edge cases.
- `Examples` holds small cases of the comparison on literal names ("John"
  against "JOHN"; "Ana", "Beto" and an empty cell against "ana" and "Carla"),
  and the same cases stated for every input that behaves the same way.
- `Export` models `downloadResults` as the rows handed to `aoa_to_sheet`.
  It proves that each sheet reads back as the list it was written from.
- `Session` models the component state as a class. Its methods are the
  upload handler, the column drop-downs and `compareFiles` with its guard.

Three behaviours of the code shape what the lists hold:

- Deduplication is by the exact trimmed text (app.js:81-82), while matching
  is by the lower-case form (app.js:60, 70, 78). So "Ana" and "ANA" in one
  column are both reported (`Examples.CaseVariantsBothReported`).
- A selected column that the header row does not hold is not an error.
  `indexOf` gives -1 (app.js:53-54), every cell then reads as undefined
  (app.js:57-58), and that side counts nothing
  (`Comparison.UnknownColumnCountsNothing`).
- Matching ignores case in both directions (app.js:70 and 78). Swapping the
  two columns swaps the two lists, order included, and the two totals
  (`Comparison.SwappingColumnsSwapsLists`).

## Model

| member | source | states |
|---|---|---|
| Strings.IsSpace | app.js:59-60 | the characters `trim()` removes; none of them is a digit or an ASCII letter |
| Strings.Trim | app.js:59-60 | `trim()`: the result is empty exactly when the text is blank; otherwise it neither starts nor ends with whitespace |
| Strings.TrimIsInfix | app.js:59-60 | what `trim()` keeps is one contiguous piece of the text, and what it removes on either side is whitespace |
| Strings.TrimIdempotent | app.js:59-60 | trimming a trimmed name changes nothing |
| Strings.TrimOfTrimmed | app.js:59-60 | a text that neither starts nor ends with whitespace is its own trim |
| Strings.LowerChar | app.js:60 | lower-casing one character: a capital A-Z becomes the small letter at the same place in the alphabet, every other character is kept, and no capital is left |
| Strings.Lower | app.js:60 | `toLowerCase()` keeps the length and lower-cases each character |
| Strings.LowerIdempotent | app.js:60 | lower-casing a key again gives the same key |
| Strings.LowerTrimCommute | app.js:60 | lower-casing then trimming gives the same key as trimming then lower-casing |
| Strings.LowerCharKeepsSpace | app.js:60 | lower-casing never turns whitespace into text or text into whitespace |
| Cells.Truthy | app.js:59 | a cell is falsy exactly when it is `''`, `0`, `false` or undefined |
| Cells.DigitChar | app.js:59 | the digit character for a value below ten is a digit and reads back as that value |
| Cells.Digits | app.js:59 | the decimal digits of a number are not empty, are all digits, have no leading zero and read back as the number |
| Cells.NumberText | app.js:59 | `toString()` of an integer is not empty, holds no whitespace, starts with '-' exactly when the number is negative, and its digits read back as the number's magnitude |
| Cells.ToText | app.js:59 | `toString()` of a text is the text itself, and of a truthy cell is never empty |
| Sequences.FirstIndex | app.js:81-82 | gives the position of the first occurrence of a value |
| Sequences.Dedup | app.js:81-82 | `[...new Set(xs)]` has no duplicates and holds exactly the values of xs |
| Sequences.DedupFirstOccurrenceOrder | app.js:81-82 | the values of `[...new Set(xs)]` come in the order of their first occurrence in xs |
| Sequences.DedupIsUnique | app.js:81-82 | any duplicate-free list with the same values in first-occurrence order equals `[...new Set(xs)]` |
| Comparison.IndexOf | app.js:53-54 | `indexOf` is -1 exactly when the header row lacks the selection; otherwise it is the first position holding it |
| Comparison.CellAt | app.js:58 | `row[index]` is the cell at the index when it lies within the row; a defined cell is only ever read from within the row |
| Comparison.Column | app.js:57-58 | the column has one cell per data row below the header: the row's cell at the index, or undefined |
| Comparison.Counted | app.js:59 | a cell is kept exactly when it is truthy and its text is not all whitespace |
| Comparison.Display | app.js:66 | the reported form of a kept cell is not empty and neither starts nor ends with whitespace |
| Comparison.Key | app.js:60 | the matching form of a kept cell has the length of its reported form and is already lower-case |
| Comparison.Displays | app.js:63-66 | a string is among the trimmed names of a column exactly when some counted cell of the column shows it |
| Comparison.DisplaysAt | app.js:63-66 | the names come one per counted cell in column order: the counted cell at row p is the name whose index counts the counted cells above p |
| Comparison.LowerAll | app.js:57-60 | `names1` holds, position by position, the lower-case form of each trimmed name |
| Comparison.Unmatched | app.js:69-71 | the filter keeps exactly the names whose lower-case form is not among the keys |
| Comparison.DisplaysCount | app.js:57-66 | the number of names taken from a column equals its number of counted cells |
| Comparison.TotalsCountCountedCells | app.js:83-84 | each total counts the cells of its column that are truthy and not blank, repeats included |
| Comparison.KeysOfColumn | app.js:57-60 | a key is in `names1` exactly when a counted cell of the first column has it |
| Comparison.MissingInFirstIff | app.js:63-71 | a name is in `missingInFirst` exactly when a counted cell of the second column shows it and no counted cell of the first column has its key |
| Comparison.MissingInSecondIff | app.js:74-78 | a name is in `missingInSecond` exactly when a counted cell of the first column shows it and no counted cell of the second column has its key |
| Comparison.CompareColumns | app.js:57-85 | the comparison itself; what it means is stated by MissingInFirstIff, MissingInSecondIff, ListsDistinctInColumnOrder and TotalsCountCountedCells below |
| Comparison.CompareFiles | app.js:53-85 | resolves each selection with `indexOf` and compares the two columns; UnknownColumnCountsNothing and NumericHeaderChosenAsText state its edge cases |
| Comparison.SwappingColumnsSwapsLists | app.js:68-78 | swapping the two columns swaps the two lists, order included, and the two totals |
| Comparison.SharedKeyReportedNowhere | app.js:69-78 | a key that both columns hold appears in neither list |
| Comparison.UnmatchedKeepsOrder | app.js:69-71 | filtering keeps the relative order of first occurrences |
| Comparison.FilteredInFirstOccurrenceOrder | app.js:69-82 | a filtered, deduplicated list holds each name once, in first-occurrence order |
| Comparison.ListsDistinctInColumnOrder | app.js:81-82 | each list holds names of its column, each once, in the order they first appear in the column |
| Comparison.ListsWithinTotals | app.js:81-84 | no list is longer than the total of the column it is drawn from |
| Comparison.UnmatchedNoKeys | app.js:69-71 | with no keys to match, the filter keeps every name |
| Comparison.NothingCountedInFirst | app.js:57-82 | if no cell of the first column counts, its total is 0, nothing is missing in the second file, and every name of the second column is reported once |
| Comparison.NothingCountedInSecond | app.js:57-82 | the mirror image for the second column |
| Comparison.UnknownColumnCountsNothing | app.js:53-60 | a selection the header row lacks makes that side count nothing and leaves the other side's list empty |
| Comparison.NumericHeaderChosenAsText | app.js:53 | when the headers hold no text, a selection given as text is not found and that side counts nothing |
| Comparison.HeaderRowNotCounted | app.js:57 | the header row never contributes a name |
| Comparison.CountedCases | app.js:59 | a cell counts exactly when it is non-blank text, a non-zero number or `true` |
| Comparison.DisplayIsStable | app.js:66-77 | a reported name, read back as a text cell, counts, shows as itself and keeps its key |
| Comparison.NumberMatchesItsNumeral | app.js:59-60 | a non-zero number and the text of its numeral both count, show the same text and have the same key |
| Comparison.KeyIgnoresStepOrder | app.js:60 | the key is the same whether the text is trimmed before or after it is lower-cased |
| Examples.SameNameAnyCase | app.js:69-78 | one counted cell on each side with the same key: both lists are empty and each total is 1 |
| Examples.JohnMatchesJOHN | app.js:57-85 | "John" against "JOHN": both lists are empty and each total is 1 |
| Examples.TextShownAsItself | app.js:59-66 | a text that neither starts nor ends with whitespace counts and is shown as itself |
| Examples.OneMatchedOneReported | app.js:69-71 | of two names, the one whose key the other side holds is dropped and the other is reported |
| Examples.AnaBetoAgainstAnaCarla | app.js:57-85 | "Ana", "Beto" and an empty cell against "ana" and "Carla": "Carla" is missing in the first file, "Beto" in the second, and each side counts two |
| Examples.SpellingsKeptApart | app.js:81-82 | `new Set` keeps "Ana" and "ANA" apart: "Ana", "ANA", "Ana" deduplicates to "Ana", "ANA" |
| Examples.CaseVariantsBothReported | app.js:63-84 | against a column that counts nothing, "Ana", "ANA", "Ana" report both spellings and count three |
| Export.ListSheet | app.js:99-103 | a list sheet has a title row, an empty row, then one row per name in list order: 2 + the list's length rows |
| Export.NameRows | app.js:102 | one single-cell row per name, in list order |
| Export.ListSheetRoundTrip | app.js:99-111 | reading the names back from a list sheet gives exactly the list it was written from |
| Export.DownloadResults | app.js:93-112 | without results there is no workbook; otherwise 'comparacion_resultados.xlsx' with sheets 'Faltan en Archivo 1' and 'Faltan en Archivo 2' in that order, each with its title and exactly the rows of the list sheet for its list |
| Export.DownloadedListsAreResults | app.js:99-111 | the two sheets read back as `missingInFirst` and `missingInSecond` |
| Export.DownloadedComparison | app.js:63-111 | after a comparison, each sheet lists each missing name of its side once and nothing else |
| Session.DefaultColumn | app.js:31 | `headers[0] \|\| ''` is the first header when that is truthy, else the empty text |
| Session.CanCompare | app.js:44 | the guard; an empty or undefined selection never passes it |
| Session.DefaultColumnIsFirst | app.js:31 | a default selection that passes the guard is found by `indexOf` at position 0 |
| Session.FirstComparisonUsesFirstColumns | app.js:25-60 | straight after both uploads, a comparison the guard allows compares the first column of each sheet |
| Session.ExcelComparator.constructor | app.js:6-13 | nothing loaded, nothing selected, no results |
| Session.ExcelComparator.HandleFileUpload | app.js:25-36 | an empty or unread sheet changes nothing; otherwise file 1, or file 2 for any other number, gets the rows, the header row as columns and the default selection; results are kept |
| Session.ExcelComparator.SelectColumn | app.js:159 | for the first drop-down here and the second at line 200, the chosen side's selection becomes the option's text; the other side's is unchanged |
| Session.ExcelComparator.CompareFiles | app.js:44-85 | without both files and both selections the results stay as they were; otherwise they become the comparison of the chosen columns, and with the default selections the comparison of the first column of each sheet |

## Left out

- Reading and writing files (`arrayBuffer`, `XLSX.read`, `sheet_to_json`,
  `aoa_to_sheet`, `book_append_sheet`, `writeFile`) is I/O in a foreign
  library. `HandleFileUpload` takes the parsed rows of the first sheet, or
  None when no file was chosen or reading failed. `DownloadResults` returns
  the rows handed to `aoa_to_sheet` and the file name.
- The `alert` calls and the `try`/`catch` blocks are UI side effects. In the
  model nothing inside `compareFiles` can throw, so its `catch` is never
  taken.
- The `loading` flag is set and then cleared within one `compareFiles` call,
  so its value after the call is unchanged. It only drives a spinner.
- Asynchronous execution is left out. Each handler runs to completion, one
  at a time.
- JSX rendering is left out, except for the two drop-down `onChange`
  handlers.
- Cells.NumberText: numbers are integers. Fractions, exponent notation, NaN
  and dates are not modelled, because JavaScript's floating-point
  `toString` is not part of this model.
- Strings.Lower: only ASCII capitals are lower-cased. Unicode case mapping
  is not modelled.
- Session.ExcelComparator.SelectColumn: the value is any string. The model
  does not require it to be one of the rendered options, since the browser
  enforces that, not the code.
