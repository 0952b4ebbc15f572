/** A worksheet as `applyExcelStyle` (app.js:328-368) sees it: a map from cell addresses
    to cells, plus the `!cols` and `!freeze` entries `generateExcel` sets. */
module Sheets {
  import opened Util
  import opened Styles
  import opened Widths

  /** A zero-based cell address, the `{ r, c }` of `encode_cell`. */
  datatype Addr = Addr(r: nat, c: nat)

  /** A cell's value and its `s` record, absent until styled. */
  datatype Cell = Cell(value: string, style: Option<CellStyle>)

  /** A sheet's `!freeze` entry. */
  datatype Freeze = Freeze(xSplit: nat, ySplit: nat)

  /** The cells `aoa_to_sheet` makes of an array of rows: one per entry the rows hold. */
  function GridCells(data: seq<seq<string>>): (m: map<Addr, Cell>)
    ensures forall a :: a in m <==> a.r < |data| && a.c < |data[a.r]|
    ensures forall a :: a in m ==> m[a].value == data[a.r][a.c] && m[a].style.None?
  {
    map r: nat, c: nat | r < |data| && c < |data[r]| :: Addr(r, c) := Cell(data[r][c], None)
  }

  /** Whether `a` is visited before position (`R`, `C`) by the row-major scan of a range
      `nc` columns wide. */
  predicate Before(a: Addr, nc: nat, R: nat, C: nat)
  {
    a.c < nc && (a.r < R || (a.r == R && a.c < C))
  }

  /** The cells after the scan has styled every present cell before (`R`, `C`). */
  function RestyledBefore(cells: map<Addr, Cell>, p: Palette, nc: nat, R: nat, C: nat): map<Addr, Cell>
  {
    map a | a in cells :: if Before(a, nc, R, C) then cells[a].(style := Some(StyleFor(p, a.r))) else cells[a]
  }

  /** The cells after `applyExcelStyle` with the palette `p` has run over the range of `data`:
      rows `0 .. |data|-1`, columns `0 .. MaxLen(data)-1`. */
  function Restyled(cells: map<Addr, Cell>, p: Palette, data: seq<seq<string>>): map<Addr, Cell>
  {
    RestyledBefore(cells, p, MaxLen(data), |data|, 0)
  }

  /** Whether the range of `data` contains a present cell. */
  ghost predicate HasCellIn(cells: map<Addr, Cell>, data: seq<seq<string>>)
  {
    exists a :: a in cells && Before(a, MaxLen(data), |data|, 0)
  }

  class Worksheet {
    var cells: map<Addr, Cell>
    var cols: Option<seq<ColInfo>>
    var freeze: Option<Freeze>

    /** `XLSX.utils.aoa_to_sheet(data)`. */
    constructor FromRows(data: seq<seq<string>>)
      ensures cells == GridCells(data) && cols == None && freeze == None
    {
      cells := GridCells(data);
      cols := None;
      freeze := None;
    }
  }

  /** Styles every present cell in the range of `data` with the colours `styleName` looks
      up, which are all `undefined` for an inherited property name. A name that looks up
      `undefined` itself makes the source throw a `TypeError` at the first present cell,
      before anything is written; that is the `false` result, and then the sheet is
      unchanged. */
  method ApplyExcelStyle(ws: Worksheet, data: seq<seq<string>>, styleName: string) returns (ok: bool)
    modifies ws`cells
    ensures ok <==> StyleNamed(styleName).Some? || !HasCellIn(old(ws.cells), data)
    ensures StyleNamed(styleName).Some? ==>
      ws.cells == Restyled(old(ws.cells), StyleNamed(styleName).value, data)
    ensures StyleNamed(styleName).None? ==> ws.cells == old(ws.cells)
  {
    var style := StyleNamed(styleName);
    var nc := MaxLen(data);
    ghost var cells0 := ws.cells;
    var R := 0;
    while R < |data|
      invariant 0 <= R <= |data|
      invariant ScannedRows(ws.cells, cells0, style, nc, R)
    {
      ok := StyleRow(ws, style, nc, R, cells0);
      if !ok {
        return;
      }
      R := R + 1;
    }
    return true;
  }

  /** What the scan has done once it reaches row `R`: with a palette, it has styled the
      present cells of the earlier rows; without one, it has met no present cell. */
  ghost predicate ScannedRows(cells: map<Addr, Cell>, cells0: map<Addr, Cell>, style: Option<Palette>,
                              nc: nat, R: nat)
  {
    match style
    case Some(p) => cells == RestyledBefore(cells0, p, nc, R, 0)
    case None => cells == cells0 && forall a :: a in cells0 ==> !Before(a, nc, R, 0)
  }

  /** The inner loop of `applyExcelStyle` over the columns of row `R`. It fails exactly
      when there is no palette and the row holds a present cell of the range. */
  method StyleRow(ws: Worksheet, style: Option<Palette>, nc: nat, R: nat, ghost cells0: map<Addr, Cell>)
    returns (ok: bool)
    requires ScannedRows(ws.cells, cells0, style, nc, R)
    modifies ws`cells
    ensures ok ==> ScannedRows(ws.cells, cells0, style, nc, R + 1)
    ensures !ok ==> style.None? && ws.cells == cells0 && exists a :: a in cells0 && Before(a, nc, R + 1, 0)
  {
    var C := 0;
    while C < nc
      invariant 0 <= C <= nc
      invariant style.Some? ==> ws.cells == RestyledBefore(cells0, style.value, nc, R, C)
      invariant style.None? ==> ws.cells == cells0
      invariant style.None? ==> forall a :: a in cells0 ==> !Before(a, nc, R, C)
    {
      var addr := Addr(R, C);
      if addr in ws.cells {
        if style.None? {
          assert Before(addr, nc, R + 1, 0);
          return false;
        }
        var p := style.value;
        var s: CellStyle;
        if R == 0 {
          s := HeaderStyle(p);
        } else {
          var bgColor := RowFill(p, R);
          s := CellStyle(bgColor, None, None, ThinBorder(p.borderColor));
        }
        RestyleStep(cells0, p, nc, R, C);
        ws.cells := ws.cells[addr := ws.cells[addr].(style := Some(s))];
      } else if style.Some? {
        RestyleSkip(cells0, style.value, nc, R, C);
      }
      C := C + 1;
    }
    if style.Some? {
      RestyleRow(cells0, style.value, nc, R);
    }
    return true;
  }

  lemma RestyleStep(cells: map<Addr, Cell>, p: Palette, nc: nat, R: nat, C: nat)
    requires C < nc && Addr(R, C) in cells
    ensures var m := RestyledBefore(cells, p, nc, R, C);
      Addr(R, C) in m && m[Addr(R, C)] == cells[Addr(R, C)] &&
      RestyledBefore(cells, p, nc, R, C + 1) ==
        m[Addr(R, C) := m[Addr(R, C)].(style := Some(StyleFor(p, R)))]
  {
  }

  lemma RestyleSkip(cells: map<Addr, Cell>, p: Palette, nc: nat, R: nat, C: nat)
    requires Addr(R, C) !in cells
    ensures RestyledBefore(cells, p, nc, R, C + 1) == RestyledBefore(cells, p, nc, R, C)
  {
  }

  lemma RestyleRow(cells: map<Addr, Cell>, p: Palette, nc: nat, R: nat)
    ensures RestyledBefore(cells, p, nc, R, nc) == RestyledBefore(cells, p, nc, R + 1, 0)
  {
  }

  /** A sheet made from rows has a present cell in its range exactly when some row is
      non-empty. */
  lemma GridHasCell(data: seq<seq<string>>)
    ensures HasCellIn(GridCells(data), data) <==> exists r :: 0 <= r < |data| && data[r] != []
  {
    if exists r :: 0 <= r < |data| && data[r] != [] {
      var r :| 0 <= r < |data| && data[r] != [];
      assert Before(Addr(r, 0), MaxLen(data), |data|, 0);
    }
  }

  /** Styling a sheet made from rows keeps its cells and their values, so reading the
      sheet back gives the rows, and gives every cell the style of its row. */
  lemma StyledGrid(data: seq<seq<string>>, p: Palette)
    ensures var m := Restyled(GridCells(data), p, data);
      && (forall a :: a in m <==> a.r < |data| && a.c < |data[a.r]|)
      && (forall a :: a in m ==> m[a] == Cell(data[a.r][a.c], Some(StyleFor(p, a.r))))
  {
    var g := GridCells(data);
    forall a | a in g
      ensures Before(a, MaxLen(data), |data|, 0)
    {
      assert |data[a.r]| <= MaxLen(data);
    }
  }

  /** Styling touches only the cells in the range and changes nothing but their style. */
  lemma RestyledFrame(cells: map<Addr, Cell>, p: Palette, data: seq<seq<string>>)
    ensures var m := Restyled(cells, p, data);
      && m.Keys == cells.Keys
      && (forall a :: a in m ==> m[a].value == cells[a].value)
      && (forall a :: a in m && (a.r >= |data| || a.c >= MaxLen(data)) ==> m[a] == cells[a])
  {
  }
}
