/** The elevation grid and its north/west/east/south adjacency
    (`getNewsSurroundings` and the four edge predicates). */
module Grid {
  import opened JsValues

  /** `{ x, y, skiMap }`: width, height and row-major elevations. */
  datatype SkiMap = SkiMap(x: int, y: int, skiMap: seq<int>)

  /** A neighbour as the helper returns it: `[index, skiMap[index]]`. */
  datatype Neighbour = Neighbour(index: int, elevation: Option<int>)

  /** `isLeftEdge`: note the bound `(y - 1) * 4`, written with the constant
      4 where the width `x` is meant. */
  predicate IsLeftEdge(index: int, x: int, y: int)
  {
    x != 0 && JsRem(index, x) == 0 && 0 <= index && index <= (y - 1) * 4
  }

  predicate IsTopEdge(index: int, x: int)
  {
    0 <= index < x
  }

  predicate IsRightEdge(index: int, x: int, y: int)
  {
    x != 0 && JsRem(index, x) == x - 1 && x - 1 <= index && index <= x * y - 1
  }

  predicate IsBottomEdge(index: int, x: int, y: int)
  {
    (y - 1) * x <= index && index <= x * y - 1
  }

  function Cell(m: SkiMap, i: int): Neighbour
  {
    Neighbour(i, Elem(m.skiMap, i))
  }

  /** `getNewsSurroundings`: the cases are tried in the program's order. */
  function NewsSurroundings(m: SkiMap, index: int): (r: seq<Neighbour>)
    ensures 2 <= |r| <= 4
    ensures forall k :: 0 <= k < |r| ==> r[k].elevation == Elem(m.skiMap, r[k].index)
  {
    var x, y := m.x, m.y;
    if IsLeftEdge(index, x, y) && IsTopEdge(index, x) then
      [Cell(m, index + 1), Cell(m, index + x)]
    else if IsTopEdge(index, x) && IsRightEdge(index, x, y) then
      [Cell(m, index - 1), Cell(m, index + x)]
    else if IsBottomEdge(index, x, y) && IsRightEdge(index, x, y) then
      [Cell(m, index - x), Cell(m, index - 1)]
    else if IsBottomEdge(index, x, y) && IsLeftEdge(index, x, y) then
      [Cell(m, index - x), Cell(m, index + 1)]
    else if IsTopEdge(index, x) then
      [Cell(m, index - 1), Cell(m, index + 1), Cell(m, index + x)]
    else if IsRightEdge(index, x, y) then
      [Cell(m, index - x), Cell(m, index - 1), Cell(m, index + x)]
    else if IsBottomEdge(index, x, y) then
      [Cell(m, index - x), Cell(m, index - 1), Cell(m, index + 1)]
    else if IsLeftEdge(index, x, y) then
      [Cell(m, index - x), Cell(m, index + 1), Cell(m, index + x)]
    else
      [Cell(m, index - x), Cell(m, index - 1), Cell(m, index + 1), Cell(m, index + x)]
  }

  function Indices(ns: seq<Neighbour>): (r: seq<int>)
    ensures |r| == |ns| && forall k :: 0 <= k < |ns| ==> r[k] == ns[k].index
  {
    if ns == [] then [] else [ns[0].index] + Indices(ns[1..])
  }

  // ---------------------------------------------------------------------
  // Reference adjacency, defined from rows and columns.

  /** The shapes on which the edge predicates describe the grid correctly:
      the constant 4 in `isLeftEdge` is harmless only for widths up to 4. */
  predicate GoodGrid(m: SkiMap)
  {
    2 <= m.x <= 4 && 2 <= m.y && |m.skiMap| == m.x * m.y
  }

  /** Cells `i` and `j` of an `x`-wide grid share a side. */
  predicate Adjacent(m: SkiMap, i: int, j: int)
    requires m.x > 0
  {
    && 0 <= i < |m.skiMap| && 0 <= j < |m.skiMap|
    && ((i / m.x == j / m.x && (i % m.x - j % m.x == 1 || j % m.x - i % m.x == 1))
        || (i % m.x == j % m.x && (i / m.x - j / m.x == 1 || j / m.x - i / m.x == 1)))
  }

  /** North, west, east, south, each when it lies inside the grid. */
  function InGridNeighbours(m: SkiMap, i: int): (r: seq<int>)
    requires GoodGrid(m) && 0 <= i < |m.skiMap|
  {
    var x, y := m.x, m.y;
    var row, col := i / x, i % x;
    (if row > 0 then [i - x] else [])
    + (if col > 0 then [i - 1] else [])
    + (if col < x - 1 then [i + 1] else [])
    + (if row < y - 1 then [i + x] else [])
  }

  /** Row and column of a cell, and what the edge predicates say about it. */
  lemma Position(m: SkiMap, i: int) returns (row: int, col: int)
    requires GoodGrid(m) && 0 <= i < |m.skiMap|
    ensures i == row * m.x + col && i / m.x == row && i % m.x == col
    ensures 0 <= row < m.y && 0 <= col < m.x
    ensures IsLeftEdge(i, m.x, m.y) <==> col == 0
    ensures IsTopEdge(i, m.x) <==> row == 0
    ensures IsRightEdge(i, m.x, m.y) <==> col == m.x - 1
    ensures IsBottomEdge(i, m.x, m.y) <==> row == m.y - 1
  {
    var x, y := m.x, m.y;
    row, col := i / x, i % x;
    JsRemNonNegative(i, x);
    if x == 2 {
      PositionOf(i, 2, y);
    } else if x == 3 {
      PositionOf(i, 3, y);
    } else {
      PositionOf(i, 4, y);
    }
  }

  /** `Position` for one width: the edge predicates against row and column. */
  lemma PositionOf(i: int, x: int, y: int)
    requires 2 <= x <= 4 && 2 <= y && 0 <= i < x * y
    ensures i == (i / x) * x + i % x && 0 <= i / x < y && 0 <= i % x < x
    ensures JsRem(i, x) == i % x
    ensures IsLeftEdge(i, x, y) <==> i % x == 0
    ensures IsTopEdge(i, x) <==> i / x == 0
    ensures IsRightEdge(i, x, y) <==> i % x == x - 1
    ensures IsBottomEdge(i, x, y) <==> i / x == y - 1
  {
    JsRemNonNegative(i, x);
    var row, col := i / x, i % x;
    assert i == row * x + col;
    assert x * y == y * x;
    assert (y - 1) * x == y * x - x;
    if row < y - 1 {
      assert (row + 1) * x <= (y - 1) * x;
    }
    if row == y - 1 {
      assert row * x == (y - 1) * x;
    }
  }

  /** The cell at row `r`, column `c` lies in the grid and has that row and column. */
  lemma CellAt(m: SkiMap, r: int, c: int)
    requires GoodGrid(m) && 0 <= r < m.y && 0 <= c < m.x
    ensures 0 <= r * m.x + c < |m.skiMap|
    ensures (r * m.x + c) / m.x == r && (r * m.x + c) % m.x == c
  {
    var x, y := m.x, m.y;
    if x == 2 {
    } else if x == 3 {
    } else {
    }
  }

  /** A cell has one row and one column. */
  lemma SamePosition(x: int, r: int, c: int, r2: int, c2: int)
    requires 2 <= x <= 4 && 0 <= c < x && 0 <= c2 < x && r * x + c == r2 * x + c2
    ensures r == r2 && c == c2
  {
    if x == 2 {
    } else if x == 3 {
    } else {
    }
  }

  /** The border sides a cell touches (0 inside, 1 on an edge, 2 at a corner). */
  function BorderSides(m: SkiMap, i: int): nat
    requires GoodGrid(m)
  {
    (if i / m.x == 0 then 1 else 0) + (if i / m.x == m.y - 1 then 1 else 0)
    + (if i % m.x == 0 then 1 else 0) + (if i % m.x == m.x - 1 then 1 else 0)
  }

  /** The reference neighbours are exactly the adjacent cells: 2 at a corner,
      3 on an edge, 4 inside, none outside the grid. */
  lemma InGridNeighboursAreAdjacent(m: SkiMap, i: int)
    requires GoodGrid(m) && 0 <= i < |m.skiMap|
    ensures |InGridNeighbours(m, i)| == 4 - BorderSides(m, i)
    ensures forall j :: j in InGridNeighbours(m, i) <==> Adjacent(m, i, j)
  {
    var x, y := m.x, m.y;
    var row, col := Position(m, i);
    NeighbourPositions(m, i, row, col);
    forall j
      ensures j in InGridNeighbours(m, i) <==> Adjacent(m, i, j)
    {
      if 0 <= j < |m.skiMap| {
        var r, c := Position(m, j);
        if row > 0 && j == i - x { SamePosition(x, r, c, row - 1, col); }
        if row < y - 1 && j == i + x { SamePosition(x, r, c, row + 1, col); }
        if col > 0 && j == i - 1 { SamePosition(x, r, c, row, col - 1); }
        if col < x - 1 && j == i + 1 { SamePosition(x, r, c, row, col + 1); }
      }
    }
  }

  /** Where the four candidate neighbours of a cell sit. */
  lemma NeighbourPositions(m: SkiMap, i: int, row: int, col: int)
    requires GoodGrid(m) && 0 <= row < m.y && 0 <= col < m.x && i == row * m.x + col
    ensures row > 0 ==> i - m.x == (row - 1) * m.x + col && 0 <= i - m.x < |m.skiMap|
    ensures row < m.y - 1 ==> i + m.x == (row + 1) * m.x + col && 0 <= i + m.x < |m.skiMap|
    ensures col > 0 ==> 0 <= i - 1 < |m.skiMap|
    ensures col < m.x - 1 ==> 0 <= i + 1 < |m.skiMap|
  {
    var x, y := m.x, m.y;
    if row > 0 { CellAt(m, row - 1, col); }
    if row < y - 1 { CellAt(m, row + 1, col); }
    if col > 0 { CellAt(m, row, col - 1); }
    if col < x - 1 { CellAt(m, row, col + 1); }
  }

  /** For the shapes in `GoodGrid`, `getNewsSurroundings` returns exactly the
      in-grid neighbours, in the order north, west, east, south, each with
      its elevation. */
  lemma NewsSurroundingsExact(m: SkiMap, i: int)
    requires GoodGrid(m) && 0 <= i < |m.skiMap|
    ensures Indices(NewsSurroundings(m, i)) == InGridNeighbours(m, i)
    ensures forall n :: n in NewsSurroundings(m, i) ==>
              0 <= n.index < |m.skiMap| && n.elevation == Some(m.skiMap[n.index])
  {
    var x, y := m.x, m.y;
    var row, col := Position(m, i);
    NeighbourPositions(m, i, row, col);
    var top, bottom, left, right := row == 0, row == y - 1, col == 0, col == x - 1;
    assert !(top && bottom) && !(left && right);
    if top && left {
    } else if top && right {
    } else if bottom && right {
    } else if bottom && left {
    } else if top {
    } else if right {
    } else if bottom {
    } else if left {
    } else {
    }
  }

  /** The neighbour indices of a cell are exactly the cells adjacent to it. */
  lemma NeighboursAreAdjacent(m: SkiMap, i: int)
    requires GoodGrid(m) && 0 <= i < |m.skiMap|
    ensures forall j :: j in Indices(NewsSurroundings(m, i)) <==> Adjacent(m, i, j)
    ensures |NewsSurroundings(m, i)| == 4 - BorderSides(m, i)
  {
    NewsSurroundingsExact(m, i);
    InGridNeighboursAreAdjacent(m, i);
  }

  /** With a width above 4 the bound in `isLeftEdge` misses left-edge cells
      below row 4 / x: on a 5 x 3 grid, cell 10 (row 2, column 0) is treated
      as a bottom-edge cell and gets cell 9, the end of row 1, as a
      neighbour. */
  lemma LeftEdgeQuirk(s: seq<int>)
    requires |s| == 15
    ensures Indices(NewsSurroundings(SkiMap(5, 3, s), 10)) == [5, 9, 11]
    ensures !Adjacent(SkiMap(5, 3, s), 10, 9)
  {
  }
}
