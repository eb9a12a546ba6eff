// One frame of the falling gems (SDLGame/Board.cpp:526-587) as functions of
// the grid: when a gem lands, the cell it lands in, and the column re-solve
// that follows the last landing after a player move.
module Falling {
  import opened BoardConfig
  import opened FallQueue
  import opened Chains
  import opened Batches

  // ---------------------------------------------------------------------------
  // One tick of one falling gem

  /**
   * A gem in row `row` of column c stops this frame when the row below it is
   * on the board or past its bottom, and is either past the bottom or not
   * Empty (lines 548-550).
   */
  predicate Blocked(g: Grid, c: int, row: int)
    requires IsGrid(g) && 0 <= c < Cols && row < Rows
  {
    row + 1 >= 0 && (row + 1 >= Rows || g[row + 1][c] != Empty)
  }

  /** The grid after a gem lands in row gem.row of column c: its colour is written when that row is on the board (lines 561-564). */
  function Landed(g: Grid, c: int, gem: FallingGem): (result: Grid)
    requires IsGrid(g) && 0 <= c < Cols && gem.row < Rows
    ensures IsGrid(result)
    ensures forall i, j :: InGrid(i, j) ==> result[i][j] == if i == gem.row && j == c then gem.color else g[i][j]
  {
    if gem.row >= 0 then WithCell(g, gem.row, c, gem.color) else g
  }

  /** A gem that is not blocked moves one row down; it stays above the bottom row's floor. */
  function Fallen(gem: FallingGem): (next: FallingGem)
  {
    gem.(row := gem.row + 1)
  }

  lemma FallenStaysQueueable(g: Grid, c: int, gem: FallingGem, numGemTypes: int)
    requires IsGrid(g) && 0 <= c < Cols && gem.row < Rows && 0 <= gem.color < numGemTypes
    requires !Blocked(g, c, gem.row)
    ensures Fallen(gem).row < Rows && Fallen(gem).color == gem.color
    ensures Fallen(gem).row >= 0 ==> g[Fallen(gem).row][c] == Empty
  {
  }

  /** The row in which a gem starting at `row` comes to rest when the grid does not change while it falls. */
  function LandingRow(g: Grid, c: int, row: int): (r: int)
    requires IsGrid(g) && 0 <= c < Cols && row < Rows
    ensures row <= r < Rows && Blocked(g, c, r)
    decreases Rows - row
  {
    if Blocked(g, c, row) then row else LandingRow(g, c, row + 1)
  }

  /**
   * On an unchanging grid a gem on the board comes to rest exactly at the
   * bottom of the gap of Empty cells below it, the gap solveFallAtPos counts;
   * a gem above the board rests at the bottom of the top row's gap.
   */
  lemma {:induction false} LandingRowIsGap(g: Grid, c: int, row: int)
    requires IsGrid(g) && 0 <= c < Cols && row < Rows
    ensures row >= -1 ==> LandingRow(g, c, row) == row + GapBelow(g, row, c)
    ensures row < -1 ==> LandingRow(g, c, row) == -1 + GapBelow(g, -1, c)
    decreases Rows - row
  {
    if !Blocked(g, c, row) {
      LandingRowIsGap(g, c, row + 1);
    }
  }

  // ---------------------------------------------------------------------------
  // The column re-solve after the last landing (lines 566-578)

  /** h differs from g only in cells that became Empty. */
  predicate OnlyEmptied(g: Grid, h: Grid)
    requires IsGrid(g) && IsGrid(h)
  {
    forall i, j :: 0 <= i < Rows && 0 <= j < Cols ==> h[i][j] == g[i][j] || h[i][j] == Empty
  }

  /** The grid after solveBoardAtPos was called, bottom row first, on every static gem of rows Rows - 1 down to lo of column c. */
  function ColumnResolved(g: Grid, c: int, lo: int): (result: Grid)
    requires IsGrid(g) && 0 <= c < Cols && 0 <= lo <= Rows
    ensures IsGrid(result)
    decreases Rows - lo
  {
    if lo == Rows then g
    else
      var h := ColumnResolved(g, c, lo + 1);
      if IsStaticGem(h[lo][c]) then SolvedGrid(h, lo, c) else h
  }

  /** Each later stage of the re-solve only empties cells of the earlier one. */
  lemma {:induction false} ColumnResolvedOnlyEmpties(g: Grid, c: int, lo: int, hi: int)
    requires IsGrid(g) && 0 <= c < Cols && 0 <= lo <= hi <= Rows
    ensures OnlyEmptied(ColumnResolved(g, c, hi), ColumnResolved(g, c, lo))
    decreases hi - lo
  {
    if lo < hi {
      ColumnResolvedOnlyEmpties(g, c, lo + 1, hi);
      var h := ColumnResolved(g, c, lo + 1);
      if IsStaticGem(h[lo][c]) {
        forall i, j | 0 <= i < Rows && 0 <= j < Cols
          ensures ColumnResolved(g, c, lo)[i][j] == ColumnResolved(g, c, hi)[i][j] || ColumnResolved(g, c, lo)[i][j] == Empty
        {
          SolvedGridOnlyEmpties(h, lo, c, i, j);
        }
      }
    }
  }

  /**
   * The feed the re-solve of column c leaves, stage by stage alongside
   * ColumnResolved: each static gem from row lo down is solved on the grid
   * the stages below it left. Score, draws and sounds only grow, by at most
   * one sound per row.
   */
  function ResolvedFeed(g: Grid, c: int, lo: int, q: Feed, rand: nat -> nat, numGemTypes: int): (result: Feed)
    requires IsGrid(g) && 0 <= c < Cols && 0 <= lo <= Rows && IsFeed(q) && numGemTypes > 0
    ensures IsFeed(result)
    ensures result.score >= q.score && result.draws >= q.draws
    ensures q.sounds <= result.sounds <= q.sounds + (Rows - lo)
    decreases Rows - lo
  {
    if lo == Rows then q
    else
      var h := ColumnResolved(g, c, lo + 1);
      var p := ResolvedFeed(g, c, lo + 1, q, rand, numGemTypes);
      if IsStaticGem(h[lo][c]) then SolvedFeed(h, lo, c, p, rand, numGemTypes) else p
  }

  /** A re-solve that plays no erase sound has erased nothing: grid and feed are as they were. */
  lemma {:induction false} SilentResolveChangesNothing(g: Grid, c: int, lo: int, q: Feed, rand: nat -> nat, numGemTypes: int)
    requires IsGrid(g) && 0 <= c < Cols && 0 <= lo <= Rows && IsFeed(q) && numGemTypes > 0
    requires ResolvedFeed(g, c, lo, q, rand, numGemTypes).sounds == q.sounds
    ensures ResolvedFeed(g, c, lo, q, rand, numGemTypes) == q
    ensures ColumnResolved(g, c, lo) == g
    decreases Rows - lo
  {
    if lo < Rows {
      var h := ColumnResolved(g, c, lo + 1);
      var p := ResolvedFeed(g, c, lo + 1, q, rand, numGemTypes);
      if IsStaticGem(h[lo][c]) {
        assert !Erases(h, lo, c);
        SolvedFeedWithoutErase(h, lo, c, p, rand, numGemTypes);
        SolvedGridWithoutEraseIsIdentity(h, lo, c);
      }
      SilentResolveChangesNothing(g, c, lo + 1, q, rand, numGemTypes);
    }
  }

  /** Three equal static gems at the three given cells. */
  predicate ThreeEqual(g: Grid, i1: int, j1: int, i2: int, j2: int, i3: int, j3: int)
    requires IsGrid(g) && InGrid(i1, j1) && InGrid(i2, j2) && InGrid(i3, j3)
  {
    IsStaticGem(g[i1][j1]) && g[i2][j2] == g[i1][j1] && g[i3][j3] == g[i1][j1]
  }

  /** Three equal static gems in rows top .. top + 2 of column c. */
  predicate VerticalTriple(g: Grid, top: int, c: int)
    requires IsGrid(g) && 0 <= top && top + 2 < Rows && 0 <= c < Cols
  {
    ThreeEqual(g, top, c, top + 1, c, top + 2, c)
  }

  /** Three equal static gems in columns left .. left + 2 of row i. */
  predicate HorizontalTriple(g: Grid, i: int, left: int)
    requires IsGrid(g) && 0 <= i < Rows && 0 <= left && left + 2 < Cols
  {
    ThreeEqual(g, i, left, i, left + 1, i, left + 2)
  }

  /** A triple of equal static gems that survives to a later stage was there, unchanged, at every earlier stage. */
  lemma TripleWasThere(g: Grid, h: Grid, i1: int, j1: int, i2: int, j2: int, i3: int, j3: int)
    requires IsGrid(g) && IsGrid(h) && OnlyEmptied(g, h)
    requires InGrid(i1, j1) && InGrid(i2, j2) && InGrid(i3, j3)
    requires ThreeEqual(h, i1, j1, i2, j2, i3, j3)
    ensures ThreeEqual(g, i1, j1, i2, j2, i3, j3)
    ensures g[i1][j1] == h[i1][j1]
  {
    assert h[i1][j1] == g[i1][j1];
    assert h[i2][j2] == g[i2][j2];
    assert h[i3][j3] == g[i3][j3];
  }

  /**
   * After the re-solve no three equal static gems sit in a line through a
   * cell of column c: the one taken last in the bottom-up order was solved
   * with the other two still in place and would have been erased.
   */
  lemma ColumnResolvedLeavesNoRun(g: Grid, c: int)
    requires IsGrid(g) && 0 <= c < Cols
    ensures forall top :: 0 <= top && top + 2 < Rows ==> !VerticalTriple(ColumnResolved(g, c, 0), top, c)
    ensures forall i, left :: 0 <= i < Rows && 0 <= left <= c <= left + 2 < Cols ==>
              !HorizontalTriple(ColumnResolved(g, c, 0), i, left)
  {
    var f := ColumnResolved(g, c, 0);
    forall top | 0 <= top && top + 2 < Rows
      ensures !VerticalTriple(f, top, c)
    {
      if VerticalTriple(f, top, c) {
        var h := ColumnResolved(g, c, top + 1);
        ColumnResolvedOnlyEmpties(g, c, 0, top + 1);
        TripleWasThere(h, f, top, c, top + 1, c, top + 2, c);
        ThreeInAColumnErases(h, top, c, top);
        SolvedGridEmptiesRuns(h, top, c);
        ColumnResolvedOnlyEmpties(g, c, 0, top);
        assert false;
      }
    }
    forall i, left | 0 <= i < Rows && 0 <= left <= c <= left + 2 < Cols
      ensures !HorizontalTriple(f, i, left)
    {
      if HorizontalTriple(f, i, left) {
        var h := ColumnResolved(g, c, i + 1);
        ColumnResolvedOnlyEmpties(g, c, 0, i + 1);
        TripleWasThere(h, f, i, left, i, left + 1, i, left + 2);
        ThreeInARowErases(h, i, c, left);
        SolvedGridEmptiesRuns(h, i, c);
        ColumnResolvedOnlyEmpties(g, c, 0, i);
        assert false;
      }
    }
  }
}
