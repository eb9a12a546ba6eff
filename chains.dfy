// Pure functions over a snapshot of the grid: the run walk done by
// checkLineChain, the run lengths, the cells solveBoardAtPos empties, the gems
// its gravity loops hand to the falling-gem queues, the score, and the
// match-free condition the initial board satisfies (SDLGame/Board.cpp:98-296).
module Chains {
  import opened BoardConfig
  import opened FallQueue

  /** A rows x cols snapshot of cell colours, indexed [row][col]. */
  type Grid = seq<seq<int>>

  predicate IsGrid(g: Grid)
  {
    |g| == Rows && forall i :: 0 <= i < Rows ==> |g[i]| == Cols
  }

  predicate InGrid(row: int, col: int)
  {
    0 <= row < Rows && 0 <= col < Cols
  }

  predicate AllValidColors(g: Grid, numGemTypes: int)
    requires IsGrid(g)
  {
    forall i, j :: 0 <= i < Rows && 0 <= j < Cols ==> ValidColor(g[i][j], numGemTypes)
  }

  /** The grid with cell (r, c) overwritten by v, as one write through Matrix's accessor leaves it. */
  function WithCell(g: Grid, r: int, c: int, v: int): (result: Grid)
    requires IsGrid(g) && InGrid(r, c)
    ensures IsGrid(result)
    ensures forall i, j :: 0 <= i < Rows && 0 <= j < Cols ==> result[i][j] == if i == r && j == c then v else g[i][j]
  {
    g[r := g[r][c := v]]
  }

  // ---------------------------------------------------------------------------
  // checkLineChain

  /** The length of the axis a walk runs along. */
  function UpperLimit(axisX: bool): int
  {
    if axisX then Cols else Rows
  }

  /** The cell at index k along the walk's axis through (startRow, startCol). */
  function CellOnAxis(g: Grid, startRow: int, startCol: int, axisX: bool, k: int): int
    requires IsGrid(g) && InGrid(startRow, startCol)
    requires 0 <= k < UpperLimit(axisX)
  {
    if axisX then g[startRow][k] else g[k][startCol]
  }

  /** Index k along the axis holds a static gem of the given colour. */
  predicate Continues(g: Grid, startRow: int, startCol: int, axisX: bool, k: int, color: int)
  {
    IsGrid(g) && InGrid(startRow, startCol) && 0 <= k < UpperLimit(axisX) &&
    CellOnAxis(g, startRow, startCol, axisX, k) == color &&
    IsStaticGem(CellOnAxis(g, startRow, startCol, axisX, k))
  }

  /** The index of the cell a walk starts from, along its axis. */
  function StartIndex(startRow: int, startCol: int, axisX: bool): int
  {
    if axisX then startCol else startRow
  }

  function StartColor(g: Grid, startRow: int, startCol: int): int
    requires IsGrid(g) && InGrid(startRow, startCol)
  {
    g[startRow][startCol]
  }

  /** Every index strictly after the start on the walk's side, up to `limit`, continues the run. */
  predicate PassedCellsMatch(g: Grid, startRow: int, startCol: int, axisX: bool, positiveDir: bool, limit: int)
    requires IsGrid(g) && InGrid(startRow, startCol)
  {
    var start := StartIndex(startRow, startCol, axisX);
    var color := StartColor(g, startRow, startCol);
    if positiveDir then forall k :: start < k <= limit ==> Continues(g, startRow, startCol, axisX, k, color)
    else forall k :: limit <= k < start ==> Continues(g, startRow, startCol, axisX, k, color)
  }

  /** What a walk result satisfies: on the requested side, over matching cells, stopped at a cell that does not continue. */
  predicate IsRunLimit(g: Grid, startRow: int, startCol: int, axisX: bool, positiveDir: bool, limit: int)
    requires IsGrid(g) && InGrid(startRow, startCol)
  {
    var start := StartIndex(startRow, startCol, axisX);
    var color := StartColor(g, startRow, startCol);
    var inc := if positiveDir then 1 else -1;
    0 <= limit < UpperLimit(axisX) &&
    (if positiveDir then start <= limit else limit <= start) &&
    PassedCellsMatch(g, startRow, startCol, axisX, positiveDir, limit) &&
    !Continues(g, startRow, startCol, axisX, limit + inc, color)
  }

  /** The walk itself, one step past `pos` at a time. */
  function Walk(g: Grid, startRow: int, startCol: int, axisX: bool, positiveDir: bool, pos: int): (limit: int)
    requires IsGrid(g) && InGrid(startRow, startCol)
    requires 0 <= pos < UpperLimit(axisX)
    requires (if positiveDir then StartIndex(startRow, startCol, axisX) <= pos else pos <= StartIndex(startRow, startCol, axisX))
    requires PassedCellsMatch(g, startRow, startCol, axisX, positiveDir, pos)
    ensures IsRunLimit(g, startRow, startCol, axisX, positiveDir, limit)
    ensures if positiveDir then pos <= limit else limit <= pos
    decreases if positiveDir then UpperLimit(axisX) - pos else pos
  {
    var next := if positiveDir then pos + 1 else pos - 1;
    if Continues(g, startRow, startCol, axisX, next, StartColor(g, startRow, startCol)) then
      Walk(g, startRow, startCol, axisX, positiveDir, next)
    else
      pos
  }

  /** checkLineChain as a function of the grid: the last index of the run from the start cell in one direction. */
  function RunLimit(g: Grid, startRow: int, startCol: int, axisX: bool, positiveDir: bool): (limit: int)
    requires IsGrid(g) && InGrid(startRow, startCol)
    ensures IsRunLimit(g, startRow, startCol, axisX, positiveDir, limit)
  {
    Walk(g, startRow, startCol, axisX, positiveDir, StartIndex(startRow, startCol, axisX))
  }

  /** The properties of a walk result pin it down: any index satisfying them is RunLimit. */
  lemma RunLimitUnique(g: Grid, startRow: int, startCol: int, axisX: bool, positiveDir: bool, limit: int)
    requires IsGrid(g) && InGrid(startRow, startCol)
    requires IsRunLimit(g, startRow, startCol, axisX, positiveDir, limit)
    ensures limit == RunLimit(g, startRow, startCol, axisX, positiveDir)
  {
    var other := RunLimit(g, startRow, startCol, axisX, positiveDir);
    var color := StartColor(g, startRow, startCol);
    // the shorter of two different results would stop at a cell the longer one passes
    assert positiveDir && limit < other ==> Continues(g, startRow, startCol, axisX, limit + 1, color);
    assert positiveDir && other < limit ==> Continues(g, startRow, startCol, axisX, other + 1, color);
    assert !positiveDir && limit < other ==> Continues(g, startRow, startCol, axisX, other - 1, color);
    assert !positiveDir && other < limit ==> Continues(g, startRow, startCol, axisX, limit - 1, color);
  }

  /** A run starting on an Empty or Locked cell has length one: the walk does not move. */
  lemma RunFromNonStaticIsTrivial(g: Grid, startRow: int, startCol: int, axisX: bool, positiveDir: bool)
    requires IsGrid(g) && InGrid(startRow, startCol)
    requires !IsStaticGem(g[startRow][startCol])
    ensures RunLimit(g, startRow, startCol, axisX, positiveDir) == StartIndex(startRow, startCol, axisX)
  {
    var start := StartIndex(startRow, startCol, axisX);
    var limit := RunLimit(g, startRow, startCol, axisX, positiveDir);
    var k := if positiveDir then start + 1 else start - 1;
    var color := StartColor(g, startRow, startCol);
    assert limit != start ==> Continues(g, startRow, startCol, axisX, k, color);
  }

  // ---------------------------------------------------------------------------
  // Run lengths through a pivot cell (solveBoardAtPos, lines 198-209)

  function RowStart(g: Grid, r: int, c: int): int
    requires IsGrid(g) && InGrid(r, c)
  {
    RunLimit(g, r, c, false, false)
  }

  function RowEnd(g: Grid, r: int, c: int): int
    requires IsGrid(g) && InGrid(r, c)
  {
    RunLimit(g, r, c, false, true)
  }

  function ColStart(g: Grid, r: int, c: int): int
    requires IsGrid(g) && InGrid(r, c)
  {
    RunLimit(g, r, c, true, false)
  }

  function ColEnd(g: Grid, r: int, c: int): int
    requires IsGrid(g) && InGrid(r, c)
  {
    RunLimit(g, r, c, true, true)
  }

  function VerticalLen(g: Grid, r: int, c: int): (n: int)
    requires IsGrid(g) && InGrid(r, c)
    ensures 1 <= n <= Rows
  {
    RowEnd(g, r, c) - RowStart(g, r, c) + 1
  }

  function HorizontalLen(g: Grid, r: int, c: int): (n: int)
    requires IsGrid(g) && InGrid(r, c)
    ensures 1 <= n <= Cols
  {
    ColEnd(g, r, c) - ColStart(g, r, c) + 1
  }

  predicate EraseVertical(g: Grid, r: int, c: int)
    requires IsGrid(g) && InGrid(r, c)
  {
    VerticalLen(g, r, c) >= 3
  }

  predicate EraseHorizontal(g: Grid, r: int, c: int)
    requires IsGrid(g) && InGrid(r, c)
  {
    HorizontalLen(g, r, c) >= 3
  }

  predicate Erases(g: Grid, r: int, c: int)
    requires IsGrid(g) && InGrid(r, c)
  {
    EraseVertical(g, r, c) || EraseHorizontal(g, r, c)
  }

  /** Three equal static gems in a line through the pivot make it erase. */
  lemma ThreeInAColumnErases(g: Grid, r: int, c: int, top: int)
    requires IsGrid(g) && InGrid(r, c)
    requires 0 <= top && top + 2 < Rows && top <= r <= top + 2
    requires IsStaticGem(g[r][c])
    requires g[top][c] == g[r][c] && g[top + 1][c] == g[r][c] && g[top + 2][c] == g[r][c]
    ensures EraseVertical(g, r, c)
  {
    var s, e := RowStart(g, r, c), RowEnd(g, r, c);
    var color := g[r][c];
    assert s > top ==> Continues(g, r, c, false, s - 1, color);
    assert e < top + 2 ==> Continues(g, r, c, false, e + 1, color);
  }

  lemma ThreeInARowErases(g: Grid, r: int, c: int, left: int)
    requires IsGrid(g) && InGrid(r, c)
    requires 0 <= left && left + 2 < Cols && left <= c <= left + 2
    requires IsStaticGem(g[r][c])
    requires g[r][left] == g[r][c] && g[r][left + 1] == g[r][c] && g[r][left + 2] == g[r][c]
    ensures EraseHorizontal(g, r, c)
  {
    var s, e := ColStart(g, r, c), ColEnd(g, r, c);
    var color := g[r][c];
    assert s > left ==> Continues(g, r, c, true, s - 1, color);
    assert e < left + 2 ==> Continues(g, r, c, true, e + 1, color);
  }

  // ---------------------------------------------------------------------------
  // Score (lines 210-293)

  /**
   * The score solveBoardAtPos adds, as lines 278 and 285 write it: a
   * horizontal erase adds the VERTICAL run length.
   */
  function ChainScoreAsWritten(verticalLen: int, horizontalLen: int): (score: int)
    requires 1 <= verticalLen && 1 <= horizontalLen
    ensures verticalLen < 3 && horizontalLen < 3 ==> score == 0
    ensures verticalLen >= 3 && horizontalLen < 3 ==> score == verticalLen
    ensures verticalLen < 3 && horizontalLen >= 3 ==> score == verticalLen
    ensures verticalLen >= 3 && horizontalLen >= 3 ==> score == 2 * (2 * verticalLen - 1)
    ensures score >= 0
  {
    var eraseV, eraseH := verticalLen >= 3, horizontalLen >= 3;
    var score := (if eraseV then verticalLen else 0) + (if eraseH then verticalLen else 0);
    if eraseV && eraseH then (score - 1) * 2 else score
  }

  /** The score as evidently intended: a horizontal erase adds the horizontal run length. */
  function ChainScore(verticalLen: int, horizontalLen: int): (score: int)
    requires 1 <= verticalLen && 1 <= horizontalLen
    ensures verticalLen < 3 && horizontalLen < 3 ==> score == 0
    ensures verticalLen >= 3 && horizontalLen < 3 ==> score == verticalLen
    ensures verticalLen < 3 && horizontalLen >= 3 ==> score == horizontalLen
    ensures verticalLen >= 3 && horizontalLen >= 3 ==> score == 2 * (verticalLen + horizontalLen - 1)
    ensures score >= 0
  {
    var eraseV, eraseH := verticalLen >= 3, horizontalLen >= 3;
    var score := (if eraseV then verticalLen else 0) + (if eraseH then horizontalLen else 0);
    if eraseV && eraseH then (score - 1) * 2 else score
  }

  /** A straight run of three scores 3, of four scores 4, two crossing runs of three score 10. */
  lemma ChainScoreExamples()
    ensures ChainScore(3, 1) == 3 && ChainScore(1, 3) == 3
    ensures ChainScore(4, 1) == 4 && ChainScore(1, 4) == 4
    ensures ChainScore(3, 3) == 10
  {
  }

  /** As written, a horizontal-only run of three scores 1 and a 3-by-5 cross scores 10, not 14. */
  lemma ChainScoreAsWrittenDiffers()
    ensures ChainScoreAsWritten(1, 3) == 1 && ChainScore(1, 3) == 3
    ensures ChainScoreAsWritten(3, 5) == 10 && ChainScore(3, 5) == 14
    ensures ChainScoreAsWritten(3, 3) == ChainScore(3, 3) == 10
  {
  }

  /** Both scorings agree whenever no horizontal run of three or more fires alone or at a different length. */
  lemma ChainScoresAgreeUnlessHorizontal(verticalLen: int, horizontalLen: int)
    requires 1 <= verticalLen && 1 <= horizontalLen
    ensures horizontalLen < 3 || horizontalLen == verticalLen ==>
            ChainScoreAsWritten(verticalLen, horizontalLen) == ChainScore(verticalLen, horizontalLen)
  {
  }

  // ---------------------------------------------------------------------------
  // Gravity loops (lines 177-196, 218-237, 257-276)

  /**
   * The topmost row of the contiguous block of static gems ending at `top` in
   * column `col`: the gravity loop walks up from `top` and stops at the first
   * Empty or Locked cell. Top + 1 when `top` itself is not static; 0 when the
   * block reaches the top of the board.
   */
  function StaticTop(g: Grid, col: int, top: int): (s: int)
    requires IsGrid(g) && 0 <= col < Cols && -1 <= top < Rows
    ensures 0 <= s <= top + 1
    ensures forall i :: s <= i <= top ==> IsStaticGem(g[i][col])
    ensures s > 0 ==> !IsStaticGem(g[s - 1][col])
    decreases top + 1
  {
    if top < 0 then 0
    else if !IsStaticGem(g[top][col]) then top + 1
    else StaticTop(g, col, top - 1)
  }

  /** Cell (i, col) exists and holds a static gem. */
  predicate StaticAt(g: Grid, i: int, col: int)
  {
    0 <= i < |g| && 0 <= col < |g[i]| && IsStaticGem(g[i][col])
  }

  lemma StaticTopUnique(g: Grid, col: int, top: int, s: int)
    requires IsGrid(g) && 0 <= col < Cols && -1 <= top < Rows
    requires 0 <= s <= top + 1
    requires forall i :: s <= i <= top ==> IsStaticGem(g[i][col])
    requires s > 0 ==> !IsStaticGem(g[s - 1][col])
    ensures s == StaticTop(g, col, top)
  {
    var t := StaticTop(g, col, top);
    assert s < t ==> StaticAt(g, t - 1, col);
    assert t < s ==> StaticAt(g, s - 1, col);
  }

  /** The colour rand() % numGemTypes gives on its draw-th call. */
  function RandColor(rand: nat -> nat, numGemTypes: int, draw: nat): (c: int)
    requires numGemTypes > 0
    ensures 0 <= c < numGemTypes
  {
    rand(draw) % numGemTypes
  }

  /**
   * The gems one gravity loop enqueues into column `col`, for rows `top` down
   * to `limit`: each static gem of the block above the gap falls from its own
   * row, and, only when that block reaches row 0, rows -1 down to `limit` get
   * fresh colours from successive draws starting at `draw`.
   */
  function LiftedGems(g: Grid, col: int, top: int, limit: int, rand: nat -> nat, numGemTypes: int, draw: nat): (gems: seq<FallingGem>)
    requires IsGrid(g) && 0 <= col < Cols && -1 <= top < Rows && limit < 0 && numGemTypes > 0
    ensures |gems| == LiftedCount(g, col, top, limit)
    ensures forall k :: 0 <= k < |gems| ==> gems[k].row == top - k
    ensures forall k :: 0 <= k < |gems| && top - k >= 0 ==> gems[k].color == g[top - k][col]
    ensures forall k :: 0 <= k < |gems| && top - k < 0 ==>
              gems[k].color == RandColor(rand, numGemTypes, draw + (k - top - 1))
  {
    seq(LiftedCount(g, col, top, limit), k requires 0 <= k => LiftedGem(g, col, top, k, rand, numGemTypes, draw))
  }

  /** The k-th gem a gravity loop from `top` enqueues, if it gets that far: the gem of row top - k, or a fresh colour above the board. */
  function LiftedGem(g: Grid, col: int, top: int, k: int, rand: nat -> nat, numGemTypes: int, draw: nat): (gem: FallingGem)
    requires IsGrid(g) && 0 <= col < Cols && -1 <= top < Rows && 0 <= k && numGemTypes > 0
    ensures gem.row == top - k
  {
    if top - k >= 0 then FallingGem(top - k, g[top - k][col])
    else FallingGem(top - k, RandColor(rand, numGemTypes, draw + (k - top - 1)))
  }

  /** The first n gems a gravity loop from `top` enqueues, whether or not the walk gets that far. */
  function LiftedPrefix(g: Grid, col: int, top: int, n: nat, rand: nat -> nat, numGemTypes: int, draw: nat): (gems: seq<FallingGem>)
    requires IsGrid(g) && 0 <= col < Cols && -1 <= top < Rows && numGemTypes > 0
    ensures |gems| == n
    ensures forall k :: 0 <= k < n ==> gems[k] == LiftedGem(g, col, top, k, rand, numGemTypes, draw)
  {
    if n == 0 then [] else LiftedPrefix(g, col, top, n - 1, rand, numGemTypes, draw) + [LiftedGem(g, col, top, n - 1, rand, numGemTypes, draw)]
  }

  /** A gravity loop enqueues the prefix whose length is LiftedCount. */
  lemma LiftedGemsIsPrefix(g: Grid, col: int, top: int, limit: int, rand: nat -> nat, numGemTypes: int, draw: nat)
    requires IsGrid(g) && 0 <= col < Cols && -1 <= top < Rows && limit < 0 && numGemTypes > 0
    ensures LiftedGems(g, col, top, limit, rand, numGemTypes, draw) ==
            LiftedPrefix(g, col, top, LiftedCount(g, col, top, limit), rand, numGemTypes, draw)
  {
  }

  /** The grid with rows lo .. hi of column col emptied. */
  function ColumnEmptied(g: Grid, col: int, lo: int, hi: int): (result: Grid)
    requires IsGrid(g) && 0 <= col < Cols
    ensures IsGrid(result)
    ensures forall i, j :: InGrid(i, j) ==> result[i][j] == (if j == col && lo <= i <= hi then Empty else g[i][j])
  {
    seq(Rows, i requires 0 <= i < Rows =>
      seq(Cols, j requires 0 <= j < Cols => if j == col && lo <= i <= hi then Empty else g[i][j]))
  }

  /** Emptying one more row at the bottom of the emptied block. */
  lemma ColumnEmptiedStep(g: Grid, col: int, lo: int, hi: int)
    requires IsGrid(g) && 0 <= col < Cols && 0 <= lo < Rows && lo <= hi
    ensures ColumnEmptied(g, col, lo, hi) ==
            ColumnEmptied(g, col, lo + 1, hi)[lo := ColumnEmptied(g, col, lo + 1, hi)[lo][col := Empty]]
  {
    var a, b := ColumnEmptied(g, col, lo, hi), ColumnEmptied(g, col, lo + 1, hi);
    var c := b[lo := b[lo][col := Empty]];
    forall i | 0 <= i < Rows
      ensures a[i] == c[i]
    {
      assert forall j :: 0 <= j < Cols ==> a[i][j] == c[i][j];
    }
  }

  /** Emptying no rows leaves the grid as it is. */
  lemma ColumnEmptiedNone(g: Grid, col: int, lo: int, hi: int)
    requires IsGrid(g) && 0 <= col < Cols && hi < lo
    ensures ColumnEmptied(g, col, lo, hi) == g
  {
    var a := ColumnEmptied(g, col, lo, hi);
    assert forall i :: 0 <= i < Rows ==> a[i] == g[i];
  }

  /** Emptying one more row at the top end of the emptied block. */
  lemma ColumnEmptiedExtend(g: Grid, col: int, lo: int, hi: int)
    requires IsGrid(g) && 0 <= col < Cols && 0 <= hi + 1 < Rows && lo <= hi + 1
    ensures ColumnEmptied(g, col, lo, hi + 1) ==
            ColumnEmptied(g, col, lo, hi)[hi + 1 := ColumnEmptied(g, col, lo, hi)[hi + 1][col := Empty]]
  {
    var a, b := ColumnEmptied(g, col, lo, hi + 1), ColumnEmptied(g, col, lo, hi);
    var c := b[hi + 1 := b[hi + 1][col := Empty]];
    forall i | 0 <= i < Rows
      ensures a[i] == c[i]
    {
      assert forall j :: 0 <= j < Cols ==> a[i][j] == c[i][j];
    }
  }

  /** Emptying rows lo .. mid - 1 after rows mid .. hi empties rows lo .. hi. */
  lemma ColumnEmptiedMerge(g: Grid, col: int, lo: int, mid: int, hi: int)
    requires IsGrid(g) && 0 <= col < Cols && lo <= mid <= hi + 1
    ensures ColumnEmptied(ColumnEmptied(g, col, mid, hi), col, lo, mid - 1) == ColumnEmptied(g, col, lo, hi)
  {
    var a, b := ColumnEmptied(ColumnEmptied(g, col, mid, hi), col, lo, mid - 1), ColumnEmptied(g, col, lo, hi);
    forall i | 0 <= i < Rows
      ensures a[i] == b[i]
    {
      assert forall j :: 0 <= j < Cols ==> a[i][j] == b[i][j];
    }
  }

  /** The grid with columns lo .. hi of row `row` emptied. */
  function RowEmptied(g: Grid, row: int, lo: int, hi: int): (result: Grid)
    requires IsGrid(g) && 0 <= row < Rows
    ensures IsGrid(result)
    ensures forall i, j :: InGrid(i, j) ==> result[i][j] == (if i == row && lo <= j <= hi then Empty else g[i][j])
  {
    g[row := seq(Cols, j requires 0 <= j < Cols => if lo <= j <= hi then Empty else g[row][j])]
  }

  lemma RowEmptiedExtend(g: Grid, row: int, lo: int, hi: int)
    requires IsGrid(g) && 0 <= row < Rows && 0 <= hi + 1 < Cols && lo <= hi + 1
    ensures RowEmptied(g, row, lo, hi + 1) == RowEmptied(g, row, lo, hi)[row := RowEmptied(g, row, lo, hi)[row][hi + 1 := Empty]]
  {
    var a, b := RowEmptied(g, row, lo, hi + 1), RowEmptied(g, row, lo, hi);
    assert a[row] == b[row][hi + 1 := Empty];
  }

  lemma RowEmptiedNone(g: Grid, row: int, lo: int, hi: int)
    requires IsGrid(g) && 0 <= row < Rows && hi < lo
    ensures RowEmptied(g, row, lo, hi) == g
  {
    assert RowEmptied(g, row, lo, hi)[row] == g[row];
  }

  /** Rows above the board are not cells: emptying from lo < 0 empties the same cells as from lo + 1. */
  lemma ColumnEmptiedAboveBoard(g: Grid, col: int, lo: int, hi: int)
    requires IsGrid(g) && 0 <= col < Cols && lo < 0
    ensures ColumnEmptied(g, col, lo, hi) == ColumnEmptied(g, col, lo + 1, hi)
  {
    var a, b := ColumnEmptied(g, col, lo, hi), ColumnEmptied(g, col, lo + 1, hi);
    assert forall i :: 0 <= i < Rows ==> a[i] == b[i];
  }

  /**
   * Where a gravity loop from `top` down to `limit` ends: it stops at `row`,
   * either at a non-static cell or one past `limit`. The rows it emptied, the
   * gems it enqueued and the colours it drew are then those LiftedGems and
   * LiftedDraws give.
   */
  lemma LiftStopsAt(g: Grid, col: int, top: int, limit: int, row: int, rand: nat -> nat, numGemTypes: int, draw: nat)
    requires IsGrid(g) && 0 <= col < Cols && -1 <= top < Rows && limit < 0 && numGemTypes > 0
    requires limit - 1 <= row <= top
    requires forall i :: row < i <= top && 0 <= i ==> IsStaticGem(g[i][col])
    requires row >= limit ==> row >= 0 && !IsStaticGem(g[row][col])
    ensures ColumnEmptied(g, col, row + 1, top) == ColumnEmptied(g, col, StaticTop(g, col, top), top)
    ensures LiftedPrefix(g, col, top, top - row, rand, numGemTypes, draw) == LiftedGems(g, col, top, limit, rand, numGemTypes, draw)
    ensures (if row < 0 then -1 - row else 0) == LiftedDraws(g, col, top, limit)
  {
    if row >= limit {
      StaticTopUnique(g, col, top, row + 1);
    } else {
      StaticTopUnique(g, col, top, 0);
      var a, b := ColumnEmptied(g, col, row + 1, top), ColumnEmptied(g, col, 0, top);
      assert forall i :: 0 <= i < Rows ==> a[i] == b[i];
    }
    LiftedGemsIsPrefix(g, col, top, limit, rand, numGemTypes, draw);
  }

  /**
   * The state of a gravity loop on column col once rows row + 1 .. top are
   * done: g, q, e and d are the grid, the column's ring, its tail and the
   * draw count, starting from g0, q0, e0 and d0.
   */
  ghost predicate LiftedUpTo(g0: Grid, col: int, top: int, row: int, q0: seq<FallingGem>, e0: int, d0: nat,
                             rand: nat -> nat, numGemTypes: int, g: Grid, q: seq<FallingGem>, e: int, d: nat)
  {
    IsGrid(g0) && 0 <= col < Cols && -1 <= top < Rows && row <= top && numGemTypes > 0 &&
    IsRing(q0) && IsRingIndex(e0) &&
    (forall i :: row < i <= top && 0 <= i ==> IsStaticGem(g0[i][col])) &&
    g == ColumnEmptied(g0, col, row + 1, top) &&
    EnqueuedAll(q0, e0, LiftedPrefix(g0, col, top, top - row, rand, numGemTypes, d0), q, e) &&
    d == d0 + (if row < 0 then -1 - row else 0)
  }

  lemma LiftedUpToStart(g0: Grid, col: int, top: int, q0: seq<FallingGem>, e0: int, d0: nat, rand: nat -> nat, numGemTypes: int)
    requires IsGrid(g0) && 0 <= col < Cols && -1 <= top < Rows && numGemTypes > 0 && IsRing(q0) && IsRingIndex(e0)
    ensures LiftedUpTo(g0, col, top, top, q0, e0, d0, rand, numGemTypes, g0, q0, e0, d0)
  {
    ColumnEmptiedNone(g0, col, top + 1, top);
  }

  /** A static gem at `row` moves the loop one row up: its cell is emptied and the gem enqueued. */
  lemma LiftedUpToOnBoard(g0: Grid, col: int, top: int, row: int, q0: seq<FallingGem>, e0: int, d0: nat,
                          rand: nat -> nat, numGemTypes: int, g: Grid, q: seq<FallingGem>, e: int, d: nat)
    requires LiftedUpTo(g0, col, top, row, q0, e0, d0, rand, numGemTypes, g, q, e, d) && row >= 0
    ensures IsRing(q) && IsRingIndex(e) && IsGrid(g)
    ensures g[row][col] == g0[row][col]
    ensures IsStaticGem(g[row][col]) ==>
              var r := Enqueue(q, e, FallingGem(row, g[row][col]));
              LiftedUpTo(g0, col, top, row - 1, q0, e0, d0, rand, numGemTypes, g[row := g[row][col := Empty]], r.0, r.1, d)
  {
    if IsStaticGem(g[row][col]) {
      var gem := FallingGem(row, g[row][col]);
      var lifted := LiftedPrefix(g0, col, top, top - row, rand, numGemTypes, d0);
      assert LiftedGem(g0, col, top, top - row, rand, numGemTypes, d0) == gem;
      assert LiftedPrefix(g0, col, top, top - (row - 1), rand, numGemTypes, d0) == lifted + [gem];
      ColumnEmptiedStep(g0, col, row, top);
      EnqueueAllSnoc(q0, e0, lifted, gem);
    }
  }

  /** Above the board the loop moves up with a gem of the next fresh colour. */
  lemma LiftedUpToAboveBoard(g0: Grid, col: int, top: int, row: int, q0: seq<FallingGem>, e0: int, d0: nat,
                             rand: nat -> nat, numGemTypes: int, g: Grid, q: seq<FallingGem>, e: int, d: nat)
    requires LiftedUpTo(g0, col, top, row, q0, e0, d0, rand, numGemTypes, g, q, e, d) && row < 0
    ensures IsRing(q) && IsRingIndex(e)
    ensures var r := Enqueue(q, e, FallingGem(row, RandColor(rand, numGemTypes, d)));
            LiftedUpTo(g0, col, top, row - 1, q0, e0, d0, rand, numGemTypes, g, r.0, r.1, d + 1)
  {
    var gem := FallingGem(row, RandColor(rand, numGemTypes, d));
    var lifted := LiftedPrefix(g0, col, top, top - row, rand, numGemTypes, d0);
    assert LiftedGem(g0, col, top, top - row, rand, numGemTypes, d0) == gem;
    assert LiftedPrefix(g0, col, top, top - (row - 1), rand, numGemTypes, d0) == lifted + [gem];
    ColumnEmptiedAboveBoard(g0, col, row, top);
    EnqueueAllSnoc(q0, e0, lifted, gem);
  }

  /** Where the loop ends, its state is the one StaticTop, LiftedGems and LiftedDraws describe. */
  lemma LiftedUpToEnd(g0: Grid, col: int, top: int, limit: int, row: int, q0: seq<FallingGem>, e0: int, d0: nat,
                      rand: nat -> nat, numGemTypes: int, g: Grid, q: seq<FallingGem>, e: int, d: nat)
    requires LiftedUpTo(g0, col, top, row, q0, e0, d0, rand, numGemTypes, g, q, e, d)
    requires limit < 0 && limit - 1 <= row
    requires row >= limit ==> row >= 0 && !IsStaticGem(g0[row][col])
    ensures g == ColumnEmptied(g0, col, StaticTop(g0, col, top), top)
    ensures (q, e) == EnqueueAll(q0, e0, LiftedGems(g0, col, top, limit, rand, numGemTypes, d0))
    ensures d == d0 + LiftedDraws(g0, col, top, limit)
  {
    LiftStopsAt(g0, col, top, limit, row, rand, numGemTypes, d0);
  }

  lemma ColumnEmptiedValid(g: Grid, col: int, lo: int, hi: int, numGemTypes: int)
    requires IsGrid(g) && 0 <= col < Cols && AllValidColors(g, numGemTypes)
    ensures AllValidColors(ColumnEmptied(g, col, lo, hi), numGemTypes)
  {
  }

  function LiftedCount(g: Grid, col: int, top: int, limit: int): (n: nat)
    requires IsGrid(g) && 0 <= col < Cols && -1 <= top < Rows && limit < 0
    ensures n <= top + 1 - limit
  {
    var s := StaticTop(g, col, top);
    if s == 0 then top + 1 - limit else top + 1 - s
  }

  /** How many fresh colours a gravity loop draws. */
  function LiftedDraws(g: Grid, col: int, top: int, limit: int): (n: nat)
    requires IsGrid(g) && 0 <= col < Cols && -1 <= top < Rows && limit < 0
    ensures n <= -limit
  {
    if StaticTop(g, col, top) == 0 then -limit else 0
  }

  /** Every gem a gravity loop enqueues has a real colour and starts inside or above the board, at or above `top`. */
  lemma LiftedGemsAreGems(g: Grid, col: int, top: int, limit: int, rand: nat -> nat, numGemTypes: int, draw: nat)
    requires IsGrid(g) && 0 <= col < Cols && -1 <= top < Rows && limit < 0 && numGemTypes > 0
    requires AllValidColors(g, numGemTypes)
    ensures forall k :: 0 <= k < |LiftedGems(g, col, top, limit, rand, numGemTypes, draw)| ==>
              var gem := LiftedGems(g, col, top, limit, rand, numGemTypes, draw)[k];
              gem.row <= top && limit <= gem.row && 0 <= gem.color < numGemTypes
  {
    var gems := LiftedGems(g, col, top, limit, rand, numGemTypes, draw);
    var s := StaticTop(g, col, top);
    forall k | 0 <= k < |gems|
      ensures gems[k].row <= top && limit <= gems[k].row && 0 <= gems[k].color < numGemTypes
    {
      if top - k >= 0 {
        assert s <= top - k;
        assert IsStaticGem(g[top - k][col]);
      }
    }
  }

  // ---------------------------------------------------------------------------
  // The grid solveBoardAtPos leaves behind

  /** Cell (i, j) is emptied by solveBoardAtPos at the pivot (r, c). */
  predicate ErasedBy(g: Grid, r: int, c: int, i: int, j: int)
    requires IsGrid(g) && InGrid(r, c) && InGrid(i, j)
  {
    var eraseV, eraseH := EraseVertical(g, r, c), EraseHorizontal(g, r, c);
    // the runs themselves
    (eraseV && j == c && RowStart(g, r, c) <= i <= RowEnd(g, r, c)) ||
    (eraseH && i == r && ColStart(g, r, c) <= j <= ColEnd(g, r, c)) ||
    // the static gems above them, which are handed to the falling queues
    (eraseV && j == c && StaticTop(g, c, RowStart(g, r, c) - 1) <= i < RowStart(g, r, c)) ||
    (eraseH && ColStart(g, r, c) <= j <= ColEnd(g, r, c) && !(eraseV && j == c) &&
     StaticTop(g, j, r - 1) <= i < r)
  }

  /** The grid after solveBoardAtPos at (r, c). */
  function SolvedGrid(g: Grid, r: int, c: int): (result: Grid)
    requires IsGrid(g) && InGrid(r, c)
    ensures IsGrid(result)
    ensures forall i, j :: InGrid(i, j) ==> result[i][j] == (if ErasedBy(g, r, c, i, j) then Empty else g[i][j])
  {
    seq(Rows, i requires 0 <= i < Rows =>
      seq(Cols, j requires 0 <= j < Cols => if ErasedBy(g, r, c, i, j) then Empty else g[i][j]))
  }

  /** solveBoardAtPos only ever empties cells; it never writes a colour or a Locked marker. */
  lemma SolvedGridOnlyEmpties(g: Grid, r: int, c: int, i: int, j: int)
    requires IsGrid(g) && InGrid(r, c) && InGrid(i, j)
    ensures SolvedGrid(g, r, c)[i][j] == g[i][j] || SolvedGrid(g, r, c)[i][j] == Empty
    ensures g[i][j] == Locked ==> SolvedGrid(g, r, c)[i][j] == Locked
  {
    if g[i][j] == Locked {
      var color := g[r][c];
      // a run through a Locked pivot has length one, and a run never passes a Locked cell
      if !IsStaticGem(color) {
        RunFromNonStaticIsTrivial(g, r, c, false, false);
        RunFromNonStaticIsTrivial(g, r, c, false, true);
        RunFromNonStaticIsTrivial(g, r, c, true, false);
        RunFromNonStaticIsTrivial(g, r, c, true, true);
      }
      assert j == c && i != r && RowStart(g, r, c) <= i <= RowEnd(g, r, c) ==> Continues(g, r, c, false, i, color);
      assert i == r && j != c && ColStart(g, r, c) <= j <= ColEnd(g, r, c) ==> Continues(g, r, c, true, j, color);
    }
  }

  /** Without a run of three through the pivot the grid is left exactly as it was. */
  lemma SolvedGridWithoutEraseIsIdentity(g: Grid, r: int, c: int)
    requires IsGrid(g) && InGrid(r, c)
    requires !Erases(g, r, c)
    ensures SolvedGrid(g, r, c) == g
  {
    var result := SolvedGrid(g, r, c);
    assert forall i :: 0 <= i < Rows ==> result[i] == g[i];
  }

  /** With an erase, the pivot and every cell of each qualifying run are Empty afterwards. */
  lemma SolvedGridEmptiesRuns(g: Grid, r: int, c: int)
    requires IsGrid(g) && InGrid(r, c)
    ensures Erases(g, r, c) ==> SolvedGrid(g, r, c)[r][c] == Empty
    ensures EraseVertical(g, r, c) ==>
              forall i :: RowStart(g, r, c) <= i <= RowEnd(g, r, c) ==> SolvedGrid(g, r, c)[i][c] == Empty
    ensures EraseHorizontal(g, r, c) ==>
              forall j :: ColStart(g, r, c) <= j <= ColEnd(g, r, c) ==> SolvedGrid(g, r, c)[r][j] == Empty
  {
  }

  /** Cells outside the pivot's row span and column span are never touched. */
  lemma SolvedGridIsLocal(g: Grid, r: int, c: int, i: int, j: int)
    requires IsGrid(g) && InGrid(r, c) && InGrid(i, j)
    requires j < ColStart(g, r, c) || j > ColEnd(g, r, c) || (i > r && (j != c || i > RowEnd(g, r, c)))
    ensures SolvedGrid(g, r, c)[i][j] == g[i][j]
  {
  }

  // ---------------------------------------------------------------------------
  // The match-free initial board (lines 98-122)

  /** No three equal static gems in a row or a column anywhere in the grid. */
  predicate NoRunOfThree(g: Grid)
    requires IsGrid(g)
  {
    (forall i, j :: 0 <= i < Rows && 2 <= j < Cols && IsStaticGem(g[i][j]) ==>
       !(g[i][j - 1] == g[i][j] && g[i][j - 2] == g[i][j])) &&
    (forall i, j :: 2 <= i < Rows && 0 <= j < Cols && IsStaticGem(g[i][j]) ==>
       !(g[i - 1][j] == g[i][j] && g[i - 2][j] == g[i][j]))
  }

  /**
   * The test init's do/while repeats until it passes for cell (r, c): the runs
   * from (r, c) upwards and leftwards are shorter than three. It only reads
   * cells before (r, c) in row-major order.
   */
  predicate PassesInitCheck(g: Grid, r: int, c: int)
    requires IsGrid(g) && InGrid(r, c)
  {
    r - RunLimit(g, r, c, false, false) + 1 < 3 && c - RunLimit(g, r, c, true, false) + 1 < 3
  }

  /** A cell that passes the check ends no run of three upwards or leftwards. */
  lemma PassesInitCheckNoRunEndingHere(g: Grid, r: int, c: int)
    requires IsGrid(g) && InGrid(r, c) && IsStaticGem(g[r][c])
    requires PassesInitCheck(g, r, c)
    ensures c >= 2 ==> !(g[r][c - 1] == g[r][c] && g[r][c - 2] == g[r][c])
    ensures r >= 2 ==> !(g[r - 1][c] == g[r][c] && g[r - 2][c] == g[r][c])
  {
    var color := g[r][c];
    var s, t := RunLimit(g, r, c, true, false), RunLimit(g, r, c, false, false);
    assert c >= 2 && g[r][c - 1] == color && g[r][c - 2] == color && s > c - 2 ==>
           Continues(g, r, c, true, s - 1, color);
    assert r >= 2 && g[r - 1][c] == color && g[r - 2][c] == color && t > r - 2 ==>
           Continues(g, r, c, false, t - 1, color);
  }

  /** The colour init's rejection loop can settle on: it clashes with neither the left pair nor the upper pair. */
  predicate PassingColor(g: Grid, r: int, c: int, color: int)
    requires IsGrid(g) && InGrid(r, c)
  {
    !(c >= 2 && g[r][c - 1] == color && g[r][c - 2] == color) &&
    !(r >= 2 && g[r - 1][c] == color && g[r - 2][c] == color)
  }

  /** With at least three gem types some colour always passes, so the rejection sampling can end. */
  lemma PassingColorExists(g: Grid, r: int, c: int, numGemTypes: int)
    requires IsGrid(g) && InGrid(r, c) && numGemTypes >= 3
    ensures exists color :: 0 <= color < numGemTypes && PassingColor(g, r, c, color)
  {
    var left := if c >= 1 then g[r][c - 1] else -1;
    var up := if r >= 1 then g[r - 1][c] else -1;
    var color := if left != 0 && up != 0 then 0 else if left != 1 && up != 1 then 1 else 2;
    assert PassingColor(g, r, c, color);
  }

  /** A passing colour placed at (r, c) passes init's checkLineChain test. */
  lemma PassingColorPassesCheck(g: Grid, r: int, c: int)
    requires IsGrid(g) && InGrid(r, c)
    requires IsStaticGem(g[r][c]) && PassingColor(g, r, c, g[r][c])
    ensures PassesInitCheck(g, r, c)
  {
    var color := g[r][c];
    var s := RunLimit(g, r, c, false, false);
    assert r - s + 1 >= 3 ==> Continues(g, r, c, false, r - 1, color) && Continues(g, r, c, false, r - 2, color);
    var t := RunLimit(g, r, c, true, false);
    assert c - t + 1 >= 3 ==> Continues(g, r, c, true, c - 1, color) && Continues(g, r, c, true, c - 2, color);
  }

  /** Cell (i, j) ends no run of three leftwards or upwards. */
  predicate EndsNoRun(g: Grid, i: int, j: int)
    requires IsGrid(g) && InGrid(i, j)
  {
    IsStaticGem(g[i][j]) ==>
      !(j >= 2 && g[i][j - 1] == g[i][j] && g[i][j - 2] == g[i][j]) &&
      !(i >= 2 && g[i - 1][j] == g[i][j] && g[i - 2][j] == g[i][j])
  }

  /** The cells init has already sampled, those before (r, c) in row-major order, hold gem colours and end no run. */
  predicate MatchFreeBefore(g: Grid, r: int, c: int, numGemTypes: int)
    requires IsGrid(g)
  {
    forall i, j :: 0 <= i < Rows && 0 <= j < Cols && (i < r || (i == r && j < c)) ==>
      0 <= g[i][j] < numGemTypes && EndsNoRun(g, i, j)
  }

  /** Placing a passing colour at (r, c) extends the sampled prefix by one cell. */
  lemma MatchFreeStep(g: Grid, r: int, c: int, color: int, numGemTypes: int)
    requires IsGrid(g) && InGrid(r, c) && 0 <= color < numGemTypes
    requires MatchFreeBefore(g, r, c, numGemTypes) && PassingColor(g, r, c, color)
    ensures IsGrid(g[r := g[r][c := color]])
    ensures MatchFreeBefore(g[r := g[r][c := color]], r, c + 1, numGemTypes)
  {
    var h := g[r := g[r][c := color]];
    forall i, j | 0 <= i < Rows && 0 <= j < Cols && (i < r || (i == r && j < c + 1))
      ensures 0 <= h[i][j] < numGemTypes && EndsNoRun(h, i, j)
    {
      if i != r || j != c {
        assert EndsNoRun(g, i, j);
      }
    }
  }

  /** Once every cell is sampled the whole grid is match-free. */
  lemma MatchFreeComplete(g: Grid, numGemTypes: int)
    requires IsGrid(g) && MatchFreeBefore(g, Rows, 0, numGemTypes)
    ensures NoRunOfThree(g)
    ensures forall i, j :: 0 <= i < Rows && 0 <= j < Cols ==> 0 <= g[i][j] < numGemTypes
  {
    forall i, j | 0 <= i < Rows && 0 <= j < Cols
      ensures EndsNoRun(g, i, j)
    {
    }
  }
}
