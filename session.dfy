/** The converter's state and its three actions: loading a PDF (`handleFile` and
    `extractPdfData`, app.js:86-165), clearing it (`resetUpload`, app.js:250-261) and
    exporting the tables as a workbook (`generateExcel`, app.js:264-326). */
module Session {
  import opened Util
  import opened Sorting
  import opened Rows
  import opened Styles
  import opened Widths
  import opened Sheets

  /** One extracted table: a page label and its rows of cell texts. */
  datatype Table = Table(name: string, rows: seq<seq<string>>)

  /** The label of page `n` (one-based), the template `Página ${pageNum}`. */
  function PageName(n: nat): string
  {
    "Página " + NatToString(n)
  }

  /** The tables `extractPdfData` collects from `pages`: one per page that yields rows,
      in page order, labelled with the page's one-based number. */
  function PageTables(pages: seq<seq<Fragment>>): seq<Table>
  {
    if pages == [] then []
    else
      var n := |pages|;
      var rows := GroupRows(pages[n - 1]);
      PageTables(pages[..n - 1]) + if rows != [] then [Table(PageName(n), rows)] else []
  }

  /** One more page adds its table, if it yields rows. */
  lemma PageTablesSnoc(pages: seq<seq<Fragment>>, i: nat)
    requires i < |pages|
    ensures var rows := GroupRows(pages[i]);
      PageTables(pages[..i + 1]) ==
        PageTables(pages[..i]) + if rows != [] then [Table(PageName(i + 1), rows)] else []
  {
    assert pages[..i + 1][..i] == pages[..i];
  }

  /** The (zero-based) indices of the pages with at least one fragment, ascending. */
  function NonEmptyPages(pages: seq<seq<Fragment>>): (ks: seq<nat>)
    ensures forall j :: 0 <= j < |ks| ==> ks[j] < |pages| && pages[ks[j]] != []
    ensures forall j, l :: 0 <= j < l < |ks| ==> ks[j] < ks[l]
    ensures forall k :: 0 <= k < |pages| && pages[k] != [] ==> k in ks
  {
    if pages == [] then []
    else
      var n := |pages|;
      assert forall k :: 0 <= k < n - 1 ==> pages[..n - 1][k] == pages[k];
      NonEmptyPages(pages[..n - 1]) + if pages[n - 1] != [] then [n - 1] else []
  }

  /** `ts[j]` is the table of page `ks[j]` of `pages`, for every `j`. */
  ghost predicate Labelled(pages: seq<seq<Fragment>>, ts: seq<Table>, ks: seq<nat>)
  {
    |ts| == |ks| &&
    forall j :: 0 <= j < |ts| ==>
      ks[j] < |pages| && ts[j] == Table(PageName(ks[j] + 1), GroupRows(pages[ks[j]]))
  }

  lemma {:induction false} PageTablesLabelled(pages: seq<seq<Fragment>>)
    ensures Labelled(pages, PageTables(pages), NonEmptyPages(pages))
  {
    if pages != [] {
      var n := |pages|;
      var init, rows := pages[..n - 1], GroupRows(pages[n - 1]);
      PageTablesLabelled(init);
      assert PageTables(pages) == PageTables(init) + if rows != [] then [Table(PageName(n), rows)] else [];
      assert NonEmptyPages(pages) == NonEmptyPages(init) + if pages[n - 1] != [] then [n - 1] else [];
      GroupRowsNonEmpty(pages[n - 1]);
      LabelledSnoc(pages, PageTables(init), NonEmptyPages(init));
    }
  }

  lemma LabelledSnoc(pages: seq<seq<Fragment>>, ts: seq<Table>, ks: seq<nat>)
    requires pages != [] && Labelled(pages[..|pages| - 1], ts, ks)
    ensures var n := |pages|;
      Labelled(pages, ts, ks)
      && (pages[n - 1] != [] ==>
            Labelled(pages, ts + [Table(PageName(n), GroupRows(pages[n - 1]))], ks + [n - 1]))
  {
    var n := |pages|;
    forall j | 0 <= j < |ts|
      ensures pages[ks[j]] == pages[..n - 1][ks[j]]
    {
    }
    if pages[n - 1] != [] {
      var ts1, ks1 := ts + [Table(PageName(n), GroupRows(pages[n - 1]))], ks + [n - 1];
      forall j | 0 <= j < |ts1|
        ensures ks1[j] < n && ts1[j] == Table(PageName(ks1[j] + 1), GroupRows(pages[ks1[j]]))
      {
        if j < |ts| {
          assert ts1[j] == ts[j] && ks1[j] == ks[j];
        }
      }
    }
  }

  /** The tables taken from a document are exactly one per page with fragments, in page
      order, labelled with that page's one-based number, holding that page's rows; no
      table and no row is empty. */
  lemma PageTablesSpec(pages: seq<seq<Fragment>>)
    ensures |PageTables(pages)| == |NonEmptyPages(pages)|
    ensures forall j :: 0 <= j < |PageTables(pages)| ==>
      PageTables(pages)[j] == Table(PageName(NonEmptyPages(pages)[j] + 1), GroupRows(pages[NonEmptyPages(pages)[j]]))
    ensures forall j :: 0 <= j < |PageTables(pages)| ==> PageTables(pages)[j].rows != []
    ensures forall j, r :: 0 <= j < |PageTables(pages)| && 0 <= r < |PageTables(pages)[j].rows| ==>
      PageTables(pages)[j].rows[r] != []
  {
    var ts, ks := PageTables(pages), NonEmptyPages(pages);
    PageTablesLabelled(pages);
    LabelledRowsNonEmpty(pages, ts, ks);
    forall j | 0 <= j < |ts|
      ensures ts[j].rows != []
    {
      GroupRowsNonEmpty(pages[ks[j]]);
    }
  }

  lemma LabelledRowsNonEmpty(pages: seq<seq<Fragment>>, ts: seq<Table>, ks: seq<nat>)
    requires Labelled(pages, ts, ks)
    ensures forall j, r :: 0 <= j < |ts| && 0 <= r < |ts[j].rows| ==> ts[j].rows[r] != []
  {
    forall j | 0 <= j < |ts|
      ensures forall r :: 0 <= r < |ts[j].rows| ==> ts[j].rows[r] != []
    {
      GroupRowsNonEmpty(pages[ks[j]]);
    }
  }

  /** Distinct pages get distinct labels. */
  lemma PageNamesDistinct(n: nat, m: nat)
    requires n != m
    ensures PageName(n) != PageName(m)
  {
    PrefixedNumbersDistinct("Página ", n, m);
  }

  /** Whether `name` matches `/\\.pdf$/i`: it ends in a dot and the letters p, d, f in
      either case. */
  predicate HasPdfSuffix(name: string)
  {
    |name| >= 4 && name[|name| - 4] == '.'
    && name[|name| - 3] in "pP" && name[|name| - 2] in "dD" && name[|name| - 1] in "fF"
  }

  /** The type check of app.js:88: a PDF by its media type or by its name. */
  predicate IsPdfFile(mediaType: string, name: string)
  {
    mediaType == "application/pdf" || HasPdfSuffix(name)
  }

  /** `currentFileName.replace(/\\.pdf$/i, '.xlsx')`. */
  function ExcelFileName(name: string): (r: string)
    ensures HasPdfSuffix(name) ==>
      && |r| == |name| + 1
      && r[..|name| - 4] == name[..|name| - 4]
      && r[|name| - 4..] == ".xlsx"
      && !HasPdfSuffix(r)
    ensures !HasPdfSuffix(name) ==> r == name
  {
    if HasPdfSuffix(name) then name[..|name| - 4] + ".xlsx" else name
  }

  /** The suffix test ignores case and looks only at the end of the name. */
  lemma FileNameExamples()
    ensures IsPdfFile("", "Estado.PDF") && ExcelFileName("Estado.PDF") == "Estado.xlsx"
    ensures IsPdfFile("application/pdf", "scan") && ExcelFileName("scan") == "scan"
    ensures !IsPdfFile("text/plain", "a.pdf.txt") && ExcelFileName("a.pdf.txt") == "a.pdf.txt"
  {
    assert "Estado.PDF"[..6] == "Estado";
  }

  /** The export settings read from the form (app.js:276-279). */
  datatype ExportOptions = ExportOptions(sheetName: string, styleName: string, autoWidth: bool,
                                         freezeHeader: bool)

  /** A sheet appended to the workbook: its name, cells and layout entries. */
  datatype Sheet = Sheet(name: string, cells: map<Addr, Cell>, cols: Option<seq<ColInfo>>,
                         freeze: Option<Freeze>)

  /** The workbook handed to `XLSX.writeFile`, with the name the file is saved under. */
  datatype Workbook = Workbook(fileName: string, sheets: seq<Sheet>)

  /** Why no workbook is written: no tables (the alert of app.js:266), or an exception while
      building the sheets (the catch of app.js:320), which here can only be a style name
      that looks up `undefined`. */
  datatype ExportError = NoData | StyleFailed

  /** The sheet name when the form leaves it empty. */
  const DefaultSheetName: string := "Estado de Cuenta"

  /** `value || 'Estado de Cuenta'`: only the empty string is falsy. */
  function BaseSheetName(input: string): (name: string)
    ensures name != ""
    ensures input != "" ==> name == input
  {
    if input == "" then DefaultSheetName else input
  }

  /** The name of sheet `index` out of `count`: the base name alone for a single table,
      otherwise the base name and the one-based index. */
  function SheetName(base: string, count: nat, index: nat): string
  {
    if count == 1 then base else base + " " + NatToString(index + 1)
  }

  /** The cells of a sheet made from `rows` and styled with `styleName`. */
  function StyledCells(rows: seq<seq<string>>, styleName: string): map<Addr, Cell>
  {
    match StyleNamed(styleName)
    case Some(p) => Restyled(GridCells(rows), p, rows)
    case None => GridCells(rows)
  }

  /** The sheet made of one table (app.js:290-304). */
  function ExportedSheet(t: Table, name: string, opts: ExportOptions): Sheet
  {
    Sheet(name, StyledCells(t.rows, opts.styleName),
          if opts.autoWidth then Some(ColumnWidths(t.rows)) else None,
          if opts.freezeHeader && |t.rows| > 0 then Some(Freeze(0, 1)) else None)
  }

  /** One sheet per table, in table order, named after the base name. */
  function ExportedSheets(tables: seq<Table>, base: string, opts: ExportOptions): (sheets: seq<Sheet>)
    ensures |sheets| == |tables|
    ensures forall i :: 0 <= i < |tables| ==>
      sheets[i] == ExportedSheet(tables[i], SheetName(base, |tables|, i), opts)
  {
    seq(|tables|, i requires 0 <= i < |tables| => ExportedSheet(tables[i], SheetName(base, |tables|, i), opts))
  }

  /** Whether some table has a cell, which is where a style name without an entry throws. */
  predicate AnyCell(tables: seq<Table>)
  {
    exists j, r :: 0 <= j < |tables| && 0 <= r < |tables[j].rows| && tables[j].rows[r] != []
  }

  /** The outcome of `generateExcel` on the loaded tables. */
  function Export(tables: seq<Table>, fileName: string, opts: ExportOptions): Result<Workbook, ExportError>
  {
    if tables == [] then Err(NoData)
    else if StyleNamed(opts.styleName).None? && AnyCell(tables) then Err(StyleFailed)
    else
      var base := BaseSheetName(opts.sheetName);
      Ok(Workbook(ExcelFileName(fileName), ExportedSheets(tables, base, opts)))
  }

  /** What happened to a file offered to the converter. */
  datatype LoadOutcome = NotPdf | ProcessingError | NoTables | Loaded

  class Converter {
    /** `currentFileName`. */
    var fileName: string
    /** `extractedTables`. */
    var tables: seq<Table>

    /** The state when the page loads. */
    constructor ()
      ensures fileName == "" && tables == []
    {
      fileName := "";
      tables := [];
    }

    /** `resetUpload`: forget the file and its tables. */
    method Reset()
      modifies this
      ensures fileName == "" && tables == []
    {
      fileName := "";
      tables := [];
    }

    /** The page loop of `extractPdfData` over a decoded document, one sequence of
        fragments per page. */
    method ExtractPdfData(pages: seq<seq<Fragment>>)
      modifies this`tables
      ensures tables == PageTables(pages)
    {
      tables := [];
      for i := 0 to |pages|
        invariant tables == PageTables(pages[..i])
      {
        var page := pages[i];
        var items := new Fragment[|page|](j requires 0 <= j < |page| => page[j]);
        assert items[..] == page;
        var rows := GroupIntoRows(items);
        PageTablesSnoc(pages, i);
        if |rows| > 0 {
          tables := tables + [Table(PageName(i + 1), rows)];
        }
      }
      assert pages[..|pages|] == pages;
    }

    /** `handleFile` for a file of media type `mediaType` named `name`, whose content the
        PDF decoder turns into `document` (`None` when decoding fails). */
    method HandleFile(mediaType: string, name: string, document: Option<seq<seq<Fragment>>>)
      returns (outcome: LoadOutcome)
      modifies this
      ensures !IsPdfFile(mediaType, name) ==>
        outcome == NotPdf && fileName == old(fileName) && tables == old(tables)
      ensures IsPdfFile(mediaType, name) && document.None? ==>
        outcome == ProcessingError && fileName == "" && tables == []
      ensures IsPdfFile(mediaType, name) && document.Some? && PageTables(document.value) == [] ==>
        outcome == NoTables && fileName == "" && tables == []
      ensures IsPdfFile(mediaType, name) && document.Some? && PageTables(document.value) != [] ==>
        outcome == Loaded && fileName == name && tables == PageTables(document.value)
    {
      if !IsPdfFile(mediaType, name) {
        return NotPdf;
      }
      fileName := name;
      if document.None? {
        Reset();
        return ProcessingError;
      }
      ExtractPdfData(document.value);
      if |tables| == 0 {
        Reset();
        return NoTables;
      }
      return Loaded;
    }

    /** `generateExcel` with the form settings `opts`: the workbook it would write, or why
        it writes none. */
    method GenerateExcel(opts: ExportOptions) returns (r: Result<Workbook, ExportError>)
      ensures r == Export(tables, fileName, opts)
    {
      if |tables| == 0 {
        return Err(NoData);
      }
      var sheetName := BaseSheetName(opts.sheetName);
      var tablesToExport := tables;
      ghost var all := ExportedSheets(tables, sheetName, opts);
      var sheets: seq<Sheet> := [];
      for index := 0 to |tablesToExport|
        invariant sheets == all[..index]
        invariant StyleNamed(opts.styleName).None? ==> !AnyCell(tables[..index])
      {
        var table := tablesToExport[index];
        var wsName := SheetName(sheetName, |tablesToExport|, index);
        var sheet := ExportTable(table, wsName, opts);
        AnyCellSnoc(tables[..index], table);
        PrefixSnoc(tables, index);
        if sheet.None? {
          assert AnyCell(tables) by {
            AnyCellPrefix(tables, index + 1);
          }
          return Err(StyleFailed);
        }
        assert sheet.value == all[index];
        PrefixSnoc(all, index);
        sheets := sheets + [sheet.value];
      }
      assert tables[..|tables|] == tables;
      assert all[..|tables|] == all;
      var excelFileName := ExcelFileName(fileName);
      return Ok(Workbook(excelFileName, sheets));
    }
  }

  /** One pass of the `forEach` of app.js:289-305: the table's sheet, or `None` where the
      styling throws. */
  method ExportTable(table: Table, wsName: string, opts: ExportOptions) returns (sheet: Option<Sheet>)
    ensures sheet.None? <==>
      StyleNamed(opts.styleName).None? && exists q :: 0 <= q < |table.rows| && table.rows[q] != []
    ensures sheet.Some? ==> sheet.value == ExportedSheet(table, wsName, opts)
  {
    var ws := new Worksheet.FromRows(table.rows);
    var ok := ApplyExcelStyle(ws, table.rows, opts.styleName);
    GridHasCell(table.rows);
    if !ok {
      return None;
    }
    if opts.autoWidth {
      var colWidths := CalculateColumnWidths(table.rows);
      ws.cols := Some(colWidths);
    }
    if opts.freezeHeader && |table.rows| > 0 {
      ws.freeze := Some(Freeze(0, 1));
    }
    return Some(Sheet(wsName, ws.cells, ws.cols, ws.freeze));
  }

  lemma AnyCellSnoc(ts: seq<Table>, t: Table)
    ensures AnyCell(ts + [t]) <==> AnyCell(ts) || exists q :: 0 <= q < |t.rows| && t.rows[q] != []
  {
    if exists q :: 0 <= q < |t.rows| && t.rows[q] != [] {
      var q :| 0 <= q < |t.rows| && t.rows[q] != [];
      assert (ts + [t])[|ts|] == t;
    }
    if AnyCell(ts) {
      var j, q :| 0 <= j < |ts| && 0 <= q < |ts[j].rows| && ts[j].rows[q] != [];
      assert (ts + [t])[j] == ts[j];
    }
  }

  lemma AnyCellPrefix(ts: seq<Table>, n: nat)
    requires n <= |ts| && AnyCell(ts[..n])
    ensures AnyCell(ts)
  {
    var j, q :| 0 <= j < n && 0 <= q < |ts[..n][j].rows| && ts[..n][j].rows[q] != [];
    assert ts[j] == ts[..n][j];
  }

  /** `generateExcel` refuses exactly when there is nothing loaded, fails exactly when the
      style name looks up `undefined` and some table has a cell, and otherwise writes one sheet per
      table, in order, to the PDF's name with `.xlsx` in place of `.pdf`. */
  lemma ExportOutcome(tables: seq<Table>, fileName: string, opts: ExportOptions)
    ensures Export(tables, fileName, opts) == Err(NoData) <==> tables == []
    ensures Export(tables, fileName, opts) == Err(StyleFailed) <==>
      tables != [] && StyleNamed(opts.styleName).None? && AnyCell(tables)
    ensures Export(tables, fileName, opts).Ok? ==>
      var wb := Export(tables, fileName, opts).value;
      && wb.fileName == ExcelFileName(fileName)
      && |wb.sheets| == |tables|
  {
  }

  /** Tables loaded from a document always have cells, so with a style name that is
      neither a preset nor an inherited property no workbook is written. */
  lemma UnknownStyleFails(pages: seq<seq<Fragment>>, fileName: string, opts: ExportOptions)
    requires PageTables(pages) != [] && StyleNamed(opts.styleName).None?
    ensures Export(PageTables(pages), fileName, opts) == Err(StyleFailed)
  {
    var ts := PageTables(pages);
    PageTablesSpec(pages);
    assert ts[0].rows != [];
    assert ts[0].rows[0] != [];
  }

  /** Sheet names never collide: a single sheet, or distinct one-based suffixes. */
  lemma SheetNamesDistinct(base: string, count: nat, i: nat, j: nat)
    requires i < count && j < count && i != j
    ensures SheetName(base, count, i) != SheetName(base, count, j)
  {
    PrefixedNumbersDistinct(base + " ", i + 1, j + 1);
  }

  /** The naming scheme on the base name "Report": alone for one table, numbered from 1
      otherwise; an empty form field falls back to the default name. */
  lemma SheetNameExamples()
    ensures SheetName(BaseSheetName("Report"), 1, 0) == "Report"
    ensures SheetName(BaseSheetName("Report"), 2, 0) == "Report 1"
    ensures SheetName(BaseSheetName("Report"), 2, 1) == "Report 2"
    ensures SheetName(BaseSheetName(""), 1, 0) == "Estado de Cuenta"
  {
    assert NatToString(1) == "1" && NatToString(2) == "2";
  }

  /** The sheets of a written workbook have pairwise distinct names. */
  lemma WorkbookNamesDistinct(tables: seq<Table>, fileName: string, opts: ExportOptions, i: nat, j: nat)
    requires Export(tables, fileName, opts).Ok?
    requires i < |tables| && j < |tables| && i != j
    ensures var sheets := Export(tables, fileName, opts).value.sheets;
      sheets[i].name != sheets[j].name
  {
    SheetNamesDistinct(BaseSheetName(opts.sheetName), |tables|, i, j);
  }

  /** Sheet `i` of a written workbook holds table `i`: a cell per entry of its rows with
      that entry's text, styled by row index when the style name looks up an entry; the
      sheet name numbered after the base name when there are several tables; column widths
      exactly when requested; the header frozen exactly when requested and the table has
      rows. */
  lemma ExportedSheetContents(tables: seq<Table>, fileName: string, opts: ExportOptions, i: nat)
    requires Export(tables, fileName, opts).Ok? && i < |tables|
    ensures var sh, rows := Export(tables, fileName, opts).value.sheets[i], tables[i].rows;
      && sh.name == SheetName(BaseSheetName(opts.sheetName), |tables|, i)
      && (forall a :: a in sh.cells <==> a.r < |rows| && a.c < |rows[a.r]|)
      && (forall a :: a in sh.cells ==> sh.cells[a].value == rows[a.r][a.c])
      && (StyleNamed(opts.styleName).Some? ==>
            forall a :: a in sh.cells ==>
              sh.cells[a].style == Some(StyleFor(StyleNamed(opts.styleName).value, a.r)))
      && (sh.cols.Some? <==> opts.autoWidth)
      && (sh.cols.Some? ==> sh.cols.value == ColumnWidths(rows))
      && (sh.freeze.Some? <==> opts.freezeHeader && rows != [])
      && (sh.freeze.Some? ==> sh.freeze.value == Freeze(0, 1))
  {
    var rows := tables[i].rows;
    if StyleNamed(opts.styleName).Some? {
      StyledGrid(rows, StyleNamed(opts.styleName).value);
    }
  }

  /** An inherited property name such as `toString` throws nothing: the workbook is written,
      and every cell of every sheet is styled with `undefined` colours (app.js:329, 342-363). */
  lemma InheritedStyleExports(tables: seq<Table>, fileName: string, opts: ExportOptions, i: nat)
    requires tables != [] && opts.styleName in InheritedNames && i < |tables|
    ensures Export(tables, fileName, opts).Ok?
    ensures var sh := Export(tables, fileName, opts).value.sheets[i];
      forall a :: a in sh.cells ==>
        && sh.cells[a].style == Some(StyleFor(NoColours, a.r))
        && sh.cells[a].style.value.fill == Undefined
        && sh.cells[a].style.value.border.top.color == Undefined
  {
    StyleNamedCases(opts.styleName);
    ExportedSheetContents(tables, fileName, opts, i);
  }
}
