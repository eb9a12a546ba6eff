// Integer conversions between grid cells and pixels (SDLGame/Board.cpp:31-56,
// 307-313 and 718-743). All divisions are C++ `int` divisions, which truncate
// toward zero.
module Geometry {
  import opened BoardConfig

  /** C/C++ integer division: the quotient truncated toward zero. */
  function CDiv(a: int, b: int): (q: int)
    requires b != 0
    ensures a >= 0 && b > 0 ==> q == a / b
    ensures b > 0 ==> (if a >= 0 then q * b <= a < q * b + b else q * b - b < a <= q * b)
  {
    if a >= 0 then a / b
    else if b > 0 then -((-a) / b)
    else (-a) / (-b)
  }

  /** The constructor's layout arguments. */
  datatype Layout = Layout(gemW: int, gemH: int, boundsXMin: int, boundsYMin: int, boardW: int, boardH: int)
  {
    function BoundsXMax(): int { boundsXMin + boardW }
    function BoundsYMax(): int { boundsYMin + boardH }
    function PaddingW(): int { CDiv(boardW - Cols * gemW, Cols) }
    function PaddingH(): int { CDiv(boardH - Rows * gemH, Rows) }
    function TileW(): int { gemW + PaddingW() }
    function TileH(): int { gemH + PaddingH() }

    /**
     * What the rest of the board needs of a layout: positive tile sizes, and a
     * board no wider or taller than its tiles, so that mouseEvent's mapping of
     * an in-bounds pixel (which ignores the padding) stays inside the grid.
     */
    predicate WellFormed()
    {
      TileW() > 0 && TileH() > 0 && boardW <= Cols * TileW() && boardH <= Rows * TileH()
    }
  }

  /** The layout Main.cpp builds the board with. */
  const MainLayout: Layout := Layout(35, 35, 315, 95, 360, 352)

  lemma MainLayoutWellFormed()
    ensures MainLayout.PaddingW() == 10 && MainLayout.PaddingH() == 9
    ensures MainLayout.TileW() == 45 && MainLayout.TileH() == 44
    ensures MainLayout.WellFormed()
  {
  }

  function TileCenterX(l: Layout, col: int): int
  {
    l.boundsXMin + CDiv(l.PaddingW(), 2) + col * l.TileW()
  }

  function TileCenterY(l: Layout, row: int): int
  {
    l.boundsYMin + CDiv(l.PaddingH(), 2) + row * l.TileH()
  }

  /** The column whose tile runs from its centre one tile onward, truncating toward column 0 left of column 0's centre. */
  function ColByPos(l: Layout, x: int): (col: int)
    requires l.TileW() != 0
    ensures l.TileW() > 0 && x >= TileCenterX(l, 0) ==> TileCenterX(l, col) <= x < TileCenterX(l, col) + l.TileW()
    ensures l.TileW() > 0 && x < TileCenterX(l, 0) ==> TileCenterX(l, col) - l.TileW() < x <= TileCenterX(l, col)
  {
    CDiv(x - l.boundsXMin - CDiv(l.PaddingW(), 2), l.TileW())
  }

  function RowByPos(l: Layout, y: int): (row: int)
    requires l.TileH() != 0
    ensures l.TileH() > 0 && y >= TileCenterY(l, 0) ==> TileCenterY(l, row) <= y < TileCenterY(l, row) + l.TileH()
    ensures l.TileH() > 0 && y < TileCenterY(l, 0) ==> TileCenterY(l, row) - l.TileH() < y <= TileCenterY(l, row)
  {
    CDiv(y - l.boundsYMin - CDiv(l.PaddingH(), 2), l.TileH())
  }

  lemma MulPositiveSign(a: int, t: int)
    requires t > 0
    ensures a > 0 ==> a * t > 0
    ensures a <= 0 ==> a * t <= 0
  {
  }

  lemma CDivExact(k: int, t: int)
    requires t > 0
    ensures CDiv(k * t, t) == k
  {
    var q := CDiv(k * t, t);
    assert q * t - k * t == (q - k) * t;
    assert (q - k + 1) * t == (q - k) * t + t;
    assert (q - k - 1) * t == (q - k) * t - t;
    MulPositiveSign(q - k, t);
    MulPositiveSign(q - k + 1, t);
    MulPositiveSign(k - q, t);
    MulPositiveSign(k - q + 1, t);
    assert (k - q) * t == -((q - k) * t);
    assert (k - q + 1) * t == t - (q - k) * t;
  }

  /** A tile's centre maps back to its own column, whatever the sign of the column. */
  lemma ColByPosOfTileCenter(l: Layout, col: int)
    requires l.TileW() > 0
    ensures ColByPos(l, TileCenterX(l, col)) == col
  {
    CDivExact(col, l.TileW());
  }

  lemma RowByPosOfTileCenter(l: Layout, row: int)
    requires l.TileH() > 0
    ensures RowByPos(l, TileCenterY(l, row)) == row
  {
    CDivExact(row, l.TileH());
  }

  /** Column under an in-bounds pointer, as mouseEvent computes it (no padding offset). */
  function ClickedCol(l: Layout, x: int): (c: int)
    requires l.WellFormed()
    requires l.boundsXMin <= x < l.BoundsXMax()
    ensures 0 <= c < Cols
  {
    CDiv(x - l.boundsXMin, l.TileW())
  }

  function ClickedRow(l: Layout, y: int): (r: int)
    requires l.WellFormed()
    requires l.boundsYMin <= y < l.BoundsYMax()
    ensures 0 <= r < Rows
  {
    CDiv(y - l.boundsYMin, l.TileH())
  }

  /** Both halves of a swap between different columns of one row move along the x axis. */
  lemma TileCentersSameRow(l: Layout, r1: int, c1: int, r2: int, c2: int)
    requires l.TileW() > 0 && l.TileH() > 0
    ensures (TileCenterY(l, r1) == TileCenterY(l, r2)) <==> r1 == r2
    ensures (TileCenterX(l, c1) == TileCenterX(l, c2)) <==> c1 == c2
  {
    RowByPosOfTileCenter(l, r1);
    RowByPosOfTileCenter(l, r2);
    ColByPosOfTileCenter(l, c1);
    ColByPosOfTileCenter(l, c2);
  }
}
