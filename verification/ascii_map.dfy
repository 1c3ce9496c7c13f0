/** The cells of an ASCII map that `createMap` turns into entities: the
    characters that are registered symbols, in row-major order. Each engine's
    `createMap` is proved to spawn exactly these. */
module AsciiMap {

  /** A map cell: the one-character symbol and its column and row. */
  datatype Cell = Cell(symbol: string, col: nat, row: nat)

  /** The registered cells of `row` (row number `y`) from column `x` on. */
  function RowCells(row: string, y: nat, registered: set<string>, x: nat): seq<Cell>
    decreases |row| - x
  {
    if x >= |row| then []
    else if [row[x]] in registered then [Cell([row[x]], x, y)] + RowCells(row, y, registered, x + 1)
    else RowCells(row, y, registered, x + 1)
  }

  /** The registered cells of `rows` from row `y` on. */
  function RowsCells(rows: seq<string>, registered: set<string>, y: nat): seq<Cell>
    decreases |rows| - y
  {
    if y >= |rows| then [] else RowCells(rows[y], y, registered, 0) + RowsCells(rows, registered, y + 1)
  }

  function MapCells(rows: seq<string>, registered: set<string>): seq<Cell> {
    RowsCells(rows, registered, 0)
  }

  /** `c` is a cell of the map whose character is a registered symbol. */
  predicate IsRegisteredCell(rows: seq<string>, registered: set<string>, c: Cell) {
    c.row < |rows| && c.col < |rows[c.row]| && c.symbol == [rows[c.row][c.col]] && c.symbol in registered
  }

  /** Row-major order. */
  predicate Before(a: Cell, b: Cell) {
    a.row < b.row || (a.row == b.row && a.col < b.col)
  }

  lemma {:induction false} RowCellsExact(row: string, y: nat, registered: set<string>, x: nat)
    ensures forall k :: 0 <= k < |RowCells(row, y, registered, x)| ==>
      var c := RowCells(row, y, registered, x)[k];
      c.row == y && x <= c.col < |row| && c.symbol == [row[c.col]] && c.symbol in registered
    ensures forall col :: x <= col < |row| && [row[col]] in registered ==>
      Cell([row[col]], col, y) in RowCells(row, y, registered, x)
    ensures forall k, m :: 0 <= k < m < |RowCells(row, y, registered, x)| ==>
      RowCells(row, y, registered, x)[k].col < RowCells(row, y, registered, x)[m].col
    decreases |row| - x
  {
    if x < |row| {
      RowCellsExact(row, y, registered, x + 1);
    }
  }

  lemma {:induction false} RowsCellsExact(rows: seq<string>, registered: set<string>, y: nat)
    ensures var cs := RowsCells(rows, registered, y);
      && (forall k :: 0 <= k < |cs| ==> y <= cs[k].row && IsRegisteredCell(rows, registered, cs[k]))
      && (forall c: Cell :: y <= c.row && IsRegisteredCell(rows, registered, c) ==> c in cs)
      && (forall k, m :: 0 <= k < m < |cs| ==> Before(cs[k], cs[m]))
    decreases |rows| - y
  {
    if y < |rows| {
      RowCellsExact(rows[y], y, registered, 0);
      RowsCellsExact(rows, registered, y + 1);
      var head := RowCells(rows[y], y, registered, 0);
      var tail := RowsCells(rows, registered, y + 1);
      var cs := head + tail;
      assert cs == RowsCells(rows, registered, y);
      forall c: Cell | y <= c.row && IsRegisteredCell(rows, registered, c)
        ensures c in cs
      {
        if c.row == y {
          assert c == Cell([rows[y][c.col]], c.col, y);
          assert c in head;
        } else {
          assert c in tail;
        }
      }
      forall k, m | 0 <= k < m < |cs|
        ensures Before(cs[k], cs[m])
      {
        if m < |head| {
        } else if k < |head| {
          assert cs[m] == tail[m - |head|];
        } else {
          assert cs[k] == tail[k - |head|] && cs[m] == tail[m - |head|];
        }
      }
    }
  }

  /** The cells `createMap` spawns are exactly the registered cells of the
      map, each once, in row-major order. */
  lemma MapCellsExact(rows: seq<string>, registered: set<string>)
    ensures forall k :: 0 <= k < |MapCells(rows, registered)| ==>
      IsRegisteredCell(rows, registered, MapCells(rows, registered)[k])
    ensures forall c :: IsRegisteredCell(rows, registered, c) ==> c in MapCells(rows, registered)
    ensures forall k, m :: 0 <= k < m < |MapCells(rows, registered)| ==>
      Before(MapCells(rows, registered)[k], MapCells(rows, registered)[m])
  {
    RowsCellsExact(rows, registered, 0);
    var cs := MapCells(rows, registered);
    assert cs == RowsCells(rows, registered, 0);
    assert forall k :: 0 <= k < |cs| ==> IsRegisteredCell(rows, registered, cs[k]);
  }

  /** A 4-by-3 box of walls with a hollow middle has ten wall cells. */
  lemma HollowBoxHasTenWalls()
    ensures |MapCells(["####", "#  #", "####"], {"#"})| == 10
  {
  }
}
