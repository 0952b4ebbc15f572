/** `calculateColumnWidths` (app.js:370-388): one width per column of a table, from the
    longest present cell of that column. */
module Widths {
  import opened Util

  /** One entry of a sheet's `!cols`: a width in characters. */
  datatype ColInfo = ColInfo(wch: nat)

  /** `Math.max(...data.map(row => row.length))` for a non-empty table; 0 for none. */
  function MaxLen(data: seq<seq<string>>): (n: nat)
    ensures forall r :: 0 <= r < |data| ==> |data[r]| <= n
    ensures data != [] ==> exists r :: 0 <= r < |data| && |data[r]| == n
    ensures data == [] ==> n == 0
  {
    if data == [] then 0
    else
      var rest := MaxLen(data[1..]);
      assert forall r :: 1 <= r < |data| ==> data[r] == data[1..][r - 1];
      if |data[0]| >= rest then |data[0]| else rest
  }

  /** `if (row[col])`: an index past the end of the row gives `undefined` and the empty
      string is falsy, so only non-empty cells count. */
  predicate Truthy(row: seq<string>, col: nat)
  {
    col < |row| && row[col] != ""
  }

  /** The longest `String(row[col]).length` among the truthy cells of column `col` of the
      rows, and 0 when there are none. */
  function ColumnMax(rows: seq<seq<string>>, col: nat): (m: nat)
    ensures forall r :: 0 <= r < |rows| && Truthy(rows[r], col) ==> JsLength(rows[r][col]) <= m
    ensures m == 0 || exists r :: 0 <= r < |rows| && Truthy(rows[r], col) && JsLength(rows[r][col]) == m
  {
    if rows == [] then 0
    else
      var m0 := ColumnMax(rows[..|rows| - 1], col);
      var last := rows[|rows| - 1];
      assert forall r :: 0 <= r < |rows| - 1 ==> rows[r] == rows[..|rows| - 1][r];
      if Truthy(last, col) && JsLength(last[col]) > m0 then JsLength(last[col]) else m0
  }

  function Max(a: int, b: int): int
  {
    if a >= b then a else b
  }

  function Min(a: int, b: int): int
  {
    if a <= b then a else b
  }

  /** The width given to a column whose longest truthy cell has `longest` code units:
      at least 10, plus 2 of padding, and never above 50. */
  function WidthFor(longest: nat): (w: nat)
    ensures 12 <= w <= 50
    ensures w == 12 <==> longest <= 10
    ensures w == 50 <==> longest >= 48
    ensures 10 <= longest <= 48 ==> w == longest + 2
  {
    Min(Max(10, longest) + 2, 50)
  }

  /** The widths `calculateColumnWidths` returns for `data`, column by column. */
  function ColumnWidths(data: seq<seq<string>>): (ws: seq<ColInfo>)
    ensures |ws| == MaxLen(data)
  {
    seq(MaxLen(data), col requires 0 <= col => ColInfo(WidthFor(ColumnMax(data, col))))
  }

  method CalculateColumnWidths(data: seq<seq<string>>) returns (widths: seq<ColInfo>)
    ensures widths == ColumnWidths(data)
  {
    if |data| == 0 {
      return [];
    }
    var maxCols := MaxLen(data);
    ghost var spec := ColumnWidths(data);
    widths := [];
    for col := 0 to maxCols
      invariant widths == spec[..col]
    {
      var maxWidth := LongestCell(data, col);
      widths := widths + [ColInfo(Min(maxWidth + 2, 50))];
      assert widths[col] == spec[col];
      PrefixSnoc(spec, col);
    }
    assert spec[..maxCols] == spec;
  }

  /** The `data.forEach` pass of one column: the longest truthy cell, but at least 10. */
  method LongestCell(data: seq<seq<string>>, col: nat) returns (maxWidth: nat)
    ensures maxWidth == Max(10, ColumnMax(data, col))
  {
    maxWidth := 10;
    for r := 0 to |data|
      invariant maxWidth == Max(10, ColumnMax(data[..r], col))
    {
      var row := data[r];
      assert data[..r + 1][..r] == data[..r];
      if Truthy(row, col) {
        var cellLength := JsLength(row[col]);
        maxWidth := Max(maxWidth, cellLength);
      }
    }
    assert data[..|data|] == data;
  }

  /** A column whose every present cell has at most 10 code units gets the minimum width
      12, and in particular so does a column with no present cell. */
  lemma NarrowColumn(data: seq<seq<string>>, col: nat)
    requires col < MaxLen(data)
    requires forall r :: 0 <= r < |data| && Truthy(data[r], col) ==> JsLength(data[r][col]) <= 10
    ensures ColumnWidths(data)[col] == ColInfo(12)
  {
  }

  /** A single cell of 48 code units or more caps its column at 50. */
  lemma WideColumn(data: seq<seq<string>>, col: nat, r: nat)
    requires r < |data| && Truthy(data[r], col) && JsLength(data[r][col]) >= 48
    ensures col < |ColumnWidths(data)| && ColumnWidths(data)[col] == ColInfo(50)
  {
  }

  /** Between the bounds the width is the longest present cell plus 2. */
  lemma FittedColumn(data: seq<seq<string>>, col: nat, r: nat)
    requires r < |data| && Truthy(data[r], col) && 10 <= JsLength(data[r][col]) <= 48
    requires forall q :: 0 <= q < |data| && Truthy(data[q], col) ==> JsLength(data[q][col]) <= JsLength(data[r][col])
    ensures col < |ColumnWidths(data)| && ColumnWidths(data)[col] == ColInfo(JsLength(data[r][col]) + 2)
  {
  }
}
