# PDF statement to spreadsheet converter: a Dafny model

The converter takes the text fragments of each page of a PDF bank statement, where each
fragment is a string with an x/y position. It rebuilds table rows from the y coordinates,
orders each row by x, and collects one table per page. It then exports the tables as a
workbook with one styled sheet per table. This project models that core in Dafny and
proves what it promises.

The model has six modules, one per concern:

- `Util` (`util.dfy`) holds `Option`/`Result`. It also has two JavaScript string
  conversions:
  - decimal printing of a number;
  - `String.prototype.length`, which counts UTF-16 code units.
- `Sorting` (`sorting.dfy`) holds the `Fragment` record and the two comparator sorts of
  `groupIntoRows`.
  - `Array.prototype.sort` is stable, so each sort is specified as a stable insertion sort,
    `SortBy`.
  - The in-place `items.sort` is the array method `SortInPlace`. It is proved to leave
    exactly `SortBy` of the old contents.
- `Rows` (`rows.dfy`) holds `groupIntoRows`.
  - The specification is `GroupRows`: sort top of page first, cut with `Clusters` into
    maximal runs near the y of each run's first fragment, sort each run by x and take the
    texts.
  - `GroupIntoRows` sorts the array in place.
  - `ScanRows` is the `forEach` loop, with the open row and its reference y. It is proved
    to produce `GroupRows`. The proof shows that the loop builds a scan grouping, and that
    `Clusters` is the only scan grouping.
- `Styles` (`styles.dfy`) holds the preset registry `tableStyles`, the lookup
  `tableStyles[styleName]`, and the rule that gives a cell its style from its row index.
  - The lookup has three outcomes. A preset name gives the preset's colours. A property
    every object inherits (`toString`, `constructor`, `__proto__`, ...) gives a palette
    whose colours are all `undefined`. Any other name gives `undefined`.
- `Widths` (`widths.dfy`) holds `calculateColumnWidths`, a doubly nested loop, proved
  against `ColumnWidths`.
- `Sheets` (`sheets.dfy`) models a worksheet:
  - a `Worksheet` class: a map from cell address to cell, plus the `!cols` and `!freeze`
    entries;
  - `applyExcelStyle`, as the nested row and column loops `ApplyExcelStyle`/`StyleRow`,
    proved against `Restyled`.
- `Session` (`session.dfy`) holds the page state. It is a `Converter` class with
  `currentFileName` and `extractedTables` as fields, and these methods:
  - `ExtractPdfData`, the per-page loop;
  - `HandleFile`, covering the type check, decoder failure, no tables, and success;
  - `Reset` (`resetUpload`);
  - `GenerateExcel`, proved to produce the value `Export`. It covers the empty-collection
    refusal, the default sheet name, the one-versus-many naming rule, the failure on a
    style name that looks up `undefined`, and attaching widths and the freeze marker.

Coordinates are `real`. The code uses only subtraction, `Math.abs` and comparisons on them.

## Behaviour that is easy to misread

- **Reference y.** A fragment joins the open row when it lies within 5 units of the y of
  that row's *first* fragment (`currentY` changes only when a row opens, app.js:190).
  - So two fragments less than 5 units apart do not always share a row, and the rows are
    not the chains of neighbours closer than 5.
  - At y = 100, 96 and 92, the fragment at 92 is 4 units from its neighbour at 96, yet it
    starts a new row (`Rows.GroupRowsChainSplit`).
  - The cut is exactly where the first-fragment test fails (`Rows.ScanGroupingUnique`).
- **Width bounds.** Widths lie in 12..50, not 10..50, because the padding of 2 is added to
  a minimum of 10 (`Widths.WidthFor`).
- **Header font colour.** The registry's fills and borders are eight-digit ARGB colours,
  but every header font is the six-digit `FFFFFF` (`Styles.RegistryColours`).
- **Blank sheet name.** `value || 'Estado de Cuenta'` replaces only the empty string. A
  name of spaces is kept as given (`Session.BaseSheetName`).
- **Style names outside the registry.** The style name is not checked up front, and
  `tableStyles[styleName]` also finds the properties every object inherits.
  - An inherited name such as `toString` finds a function or an object without colour
    properties. Every colour is then `undefined`, nothing throws, and the workbook is
    written with those colours (`Session.InheritedStyleExports`).
  - Any other name finds `undefined`. The code throws only when `applyExcelStyle` reaches
    a present cell. Tables loaded from a document always have cells, so for them it
    always throws (`Session.UnknownStyleFails`).
  - The style comes from the value of the `styleSelect` element, which is not part of
    app.js. If that element offers only the four presets, neither case arises.
  - On the thrown path `generateExcel` changes no state (the `GenerateExcel` method has no
    `modifies` clause).

## Model

| member | source | states |
|---|---|---|
| `Util.NatToString` | app.js:162 | The decimal text of a number is non-empty and all digits. It is one character exactly for numbers below 10. It ends in the last digit. |
| `Util.NatToStringInjective` | app.js:162 | Equal decimal texts come from equal numbers. |
| `Util.PrefixedNumbersDistinct` | app.js:289 | One prefix followed by two different numbers gives two different strings. |
| `Util.NatToStringValue` | app.js:162 | Reading the decimal text back as digits gives the number. The text starts with `0` only for zero. |
| `Util.JsLength` | app.js:380 | `.length` is between the number of characters and twice that. It equals the character count when no character lies above U+FFFF. |
| `Sorting.SortInPlace` | app.js:173 | After the in-place sort the array holds the stable sort of its old contents. |
| `Sorting.InsertLast` | app.js:173 | One pass of the in-place sort inserts element `i` into the sorted prefix and leaves the rest of the array alone. |
| `Sorting.SortByPermutation` | app.js:173 | The sort keeps every fragment exactly as often as it occurs. |
| `Sorting.SortBySorted` | app.js:173 | The sort result is ordered by the comparator's key. |
| `Sorting.SortByStable` | app.js:173 | For every key value, the fragments with that key keep their input order. |
| `Rows.RunLengthMaximal` | app.js:180-191 | The open row takes the longest prefix near the reference y, and the next fragment is not near it. |
| `Rows.ClustersAreScanGrouping` | app.js:177-191 | The rows partition the sorted fragments into non-empty runs. Each run lies within 5 of its first fragment. Each new run starts with a fragment that is 5 or more away from the previous run's first fragment. |
| `Rows.ScanGroupingUnique` | app.js:177-191 | Any grouping with those properties is exactly the grouping into rows. |
| `Rows.ClustersDescend` | app.js:173-191 | On a page sorted top first, every row spans less than 5 below its first fragment, and each row starts at least 5 below the previous one. |
| `Rows.GroupIntoRows` | app.js:169-201 | The method leaves the array sorted top first (stably) and returns exactly `GroupRows` of the original fragments. An empty array gives `[]`. |
| `Rows.ScanRows` | app.js:175-198 | The `forEach` scan with `currentRow`/`currentY`, closing each row sorted by x, returns the rows of the grouping. |
| `Rows.GroupRowsPermutes` | app.js:170-198 | There are no rows exactly when there are no fragments. No row is empty. The cells, taken together, are a permutation of the fragments' texts, one cell per fragment. |
| `Rows.GroupRowsNonEmpty` | app.js:170-198 | A page yields rows exactly when it has fragments, and none of its rows is empty. |
| `Rows.GroupRowsLeftToRight` | app.js:186-197 | Row `i` holds the texts of its group sorted by ascending x, as a permutation of the group. Fragments with equal x keep their top-down order. |
| `Rows.GroupRowsTopDown` | app.js:173-191 | The y-sort is ordered and stable. Its grouping is the threshold scan. The rows come top down. |
| `Rows.GroupRowsSingle` | app.js:170-198 | One fragment gives one one-cell row with its text. |
| `Rows.GroupRowsExample` | app.js:178-197 | Fragments A(0,100), B(50,100) and C(0,80) give the rows `[["A","B"],["C"]]`, whatever their heights. |
| `Rows.GroupRowsChainSplit` | app.js:177-190 | Fragments at y 100, 96 and 92 give `[["A","B"],["C"]]`: the reference is the row's first fragment, not its latest one. |
| `Styles.RegistryNames` | app.js:7-36 | Exactly `modern`, `classic`, `minimal` and `colorful` name a preset. |
| `Styles.RegistryColours` | app.js:7-36 | Every preset's fills and border are opaque eight-digit ARGB colours, and its header font is `FFFFFF`. |
| `Styles.StyleNamedCases` | app.js:7-36 | No preset name is an inherited property name. A lookup gives the all-`undefined` palette exactly for inherited names. It gives nothing exactly for names that are neither preset nor inherited. |
| `Styles.StyleForRules` | app.js:340-365 | Row 0 gets the header fill, a bold header-font colour and centring. Rows above 0 get no font or alignment. Even body rows get `rowBg1`, odd rows `rowBg2`. Every row gets thin borders in the border colour on all four sides. |
| `Styles.StyleForPeriodic` | app.js:354-355 | Body rows two apart get the same style. |
| `Widths.MaxLen` | app.js:373 | The result is the length of the longest row: no row is longer, and some row has that length. It is 0 for no rows. |
| `Widths.ColumnMax` | app.js:377-383 | The result bounds the `.length` of every truthy cell of the column and is attained by one of them. It is 0 when the column has none. |
| `Widths.WidthFor` | app.js:376-384 | A width is always between 12 and 50. It is 12 exactly when the longest cell has at most 10 units, and 50 exactly when it has at least 48. In between it is the length plus 2. |
| `Widths.ColumnWidths` | app.js:372-387 | There is one width per column up to the longest row. |
| `Widths.CalculateColumnWidths` | app.js:370-388 | The loops return exactly `ColumnWidths(data)`, and `[]` for empty data. |
| `Widths.LongestCell` | app.js:376-383 | The `forEach` over the rows yields the larger of 10 and the column's longest truthy cell. |
| `Widths.NarrowColumn` | app.js:376-384 | A column whose truthy cells all have at most 10 units, or which has none, gets width 12. |
| `Widths.WideColumn` | app.js:376-384 | One truthy cell of 48 units or more caps its column at 50. |
| `Widths.FittedColumn` | app.js:376-384 | A column whose longest truthy cell has 10 to 48 units gets that length plus 2. |
| `Sheets.GridCells` | app.js:290 | The sheet made of rows has one cell at `(r, c)` for each entry `rows[r][c]` that exists. The cell holds that text and is unstyled. |
| `Sheets.Worksheet.FromRows` | app.js:290 | A new sheet holds the grid of the rows and has no `!cols` or `!freeze`. |
| `Sheets.ApplyExcelStyle` | app.js:328-368 | When the name looks up a palette (a preset's, or the all-`undefined` one of an inherited name), every present cell of the range gets the style of its row and nothing else changes. When it looks up `undefined` the sheet is unchanged. The result is false exactly when the lookup gives `undefined` and the range holds a present cell (the thrown `TypeError`). |
| `Sheets.StyleRow` | app.js:333-366 | The column loop of one row styles that row's present cells. It fails exactly on the first present cell when there is no palette. |
| `Sheets.GridHasCell` | app.js:333-335 | A sheet made of rows has a present cell in its range exactly when some row is non-empty. |
| `Sheets.StyledGrid` | app.js:328-368 | Styling a sheet made of rows keeps exactly its cells and their texts, so reading it back gives the rows. Each cell gets the style of its row index, whatever its content or column. |
| `Sheets.RestyledFrame` | app.js:332-335 | Styling creates and removes no cell and changes no value. Cells outside the range are untouched. |
| `Session.NonEmptyPages` | app.js:144-164 | The page indices listed are exactly the pages with fragments, in ascending order. |
| `Session.PageTablesSpec` | app.js:142-165 | Extraction gives exactly one table per page with fragments, in page order. Each table is named `Página n` with the one-based page number and holds that page's rows. No table and no row is empty. |
| `Session.PageNamesDistinct` | app.js:162 | Different pages get different table names. |
| `Session.ExcelFileName` | app.js:310 | A name ending in `.pdf` in any case gets `.xlsx` in place of it and keeps the rest. Any other name is unchanged. |
| `Session.FileNameExamples` | app.js:88 | `Estado.PDF` is accepted and becomes `Estado.xlsx`. A file of type `application/pdf` is accepted whatever its name. `a.pdf.txt` of another type is refused. |
| `Session.BaseSheetName` | app.js:276 | The base sheet name is never empty, and a non-empty entry is kept verbatim. |
| `Session.ExportOutcome` | app.js:264-311 | Export refuses exactly when nothing is loaded. It fails exactly when the style name looks up `undefined` and some table has a cell. Otherwise it writes one sheet per table to the `.xlsx` name. |
| `Session.UnknownStyleFails` | app.js:328-343 | Tables loaded from a document always make a style name that is neither a preset nor an inherited property fail the export. |
| `Session.InheritedStyleExports` | app.js:328-363 | An inherited property name as style name never fails the export. Every cell of every sheet gets the style of its row with `undefined` fill and border colours. |
| `Session.SheetNamesDistinct` | app.js:289 | The names of two different sheets of one export differ. |
| `Session.SheetNameExamples` | app.js:276-289 | Base name `Report` gives `Report` for one table and `Report 1`, `Report 2` for two. An empty field gives `Estado de Cuenta`. |
| `Session.WorkbookNamesDistinct` | app.js:288-305 | The sheets of a written workbook have pairwise distinct names. |
| `Session.ExportedSheetContents` | app.js:289-304 | Sheet `i` has the `i`-th sheet name. It holds exactly table `i`'s entries and texts, styled by row index when the style name looks up a palette. It has widths exactly when `autoWidth` is set, and then they are `ColumnWidths`. It has the `(0, 1)` freeze exactly when `freezeHeader` is set and the table has rows. |
| `Session.ExportTable` | app.js:290-304 | One table's pass gives its sheet, or fails exactly when the style name looks up `undefined` and the table has a cell. |
| `Session.Converter.constructor` | app.js:2-4 | The page starts with no file name and no tables. |
| `Session.Converter.Reset` | app.js:250-253 | Resetting forgets the file name and the tables. |
| `Session.Converter.ExtractPdfData` | app.js:140-165 | The collection is cleared, then gets the tables of the pages in order, so it ends as `PageTables` of the document. |
| `Session.Converter.HandleFile` | app.js:86-129 | A file that is not a PDF by type or name changes nothing. A decoding failure, or a document without tables, resets the state. Otherwise the file name is kept and the tables are those of the document. |
| `Session.Converter.GenerateExcel` | app.js:264-326 | Exporting changes nothing and returns exactly `Export` of the loaded tables, file name and options. |

## Left out

- The user interface is not modelled: DOM access, event listeners, drag and drop,
  visibility toggles, alerts, console logging, the table list and the preview builder
  (app.js:39-76, 203-247).
- The PDF decoder (pdf.js) is not modelled. `HandleFile` takes the decoded document as a
  parameter, one fragment sequence per page, or `None` when decoding fails.
  - A failure on a later page is treated like a failure of the whole document. Both end in
    `resetUpload`, so the final state is the same.
- The spreadsheet library (SheetJS) is not modelled. `aoa_to_sheet` is modelled by
  `GridCells`. `decode_range` is modelled as the rectangle of the rows.
  - `book_append_sheet`'s own name rules are not modelled: at most 31 characters, forbidden
    characters, duplicates.
  - `writeFile` is not modelled; the workbook is returned as a value. How it writes a
    style whose colours are `undefined` is library behaviour.
  - These libraries are foreign code.
- Sheets.ApplyExcelStyle: on the thrown path the source first writes an empty style record
  into the failing cell. The model leaves the sheet unchanged. That sheet is discarded
  with the exception, so nothing observes the difference.
- Sheets.ApplyExcelStyle: a table with no cell (such as `[]` or `[[]]`) is taken to give
  an empty range. `aoa_to_sheet` then sets no `!ref`, and `decode_range` of the missing
  entry is library behaviour. It cannot arise from loaded tables, because every row of
  one holds a cell.
- Rows.ScanRows: `currentRow.sort` sorts the row array in place. The model sorts the row
  as a value, because the row array is not observable after its texts are taken.
- Util.JsLength: Dafny's `char` cannot hold a surrogate code point, so a fragment text
  holding a lone UTF-16 surrogate, which a JavaScript string can, has no counterpart here.
  The length is stated for well-formed strings only.
- Coordinates are modelled as exact reals. IEEE-754 rounding of `item.y - currentY`, NaN
  and infinities are not modelled.
- The following are scheduling and presentation, and are not modelled: `async`/`await`,
  the 500 ms `setTimeout`, the success toast, its CSS keyframes, and the loading states
  (app.js:313-318, 390-451).
- `formatFileSize` (app.js:131-137) is not modelled, because it relies on floating-point
  `Math.log`, `Math.pow` and `Math.round`.
- Navigation scrolling and section highlighting (app.js:453-511) are not modelled; they
  are pure user interface.
- The following state is never read by the export, so it is not modelled: `currentPdfData`
  (assigned only `null`), `sheetSelect`, the unused `selectedIndex` (app.js:285) and
  `handleTableChange`.
- The `/\.pdf$/i` test is modelled as an ASCII case-insensitive match of the last four
  characters. ECMAScript's non-Unicode case folding maps no other character to `p`, `d` or
  `f`.
