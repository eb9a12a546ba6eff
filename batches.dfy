// The falling gems each board operation hands to the column queues, as pure
// functions of the grid it starts from: solveBoardAtPos (SDLGame/Board.cpp:
// 198-296), solveFallAtPos (164-197) and the refill at the top of update
// (599-619). The board's methods are proved to enqueue exactly these.
module Batches {
  import opened BoardConfig
  import opened FallQueue
  import opened Chains

  // ---------------------------------------------------------------------------
  // Gravity loops only read the column they lift, at and above their top row.

  predicate SameColumnUpTo(g1: Grid, g2: Grid, col: int, top: int)
    requires IsGrid(g1) && IsGrid(g2) && 0 <= col < Cols && -1 <= top < Rows
  {
    forall i :: 0 <= i <= top ==> g1[i][col] == g2[i][col]
  }

  lemma {:induction false} StaticTopDetermined(g1: Grid, g2: Grid, col: int, top: int)
    requires IsGrid(g1) && IsGrid(g2) && 0 <= col < Cols && -1 <= top < Rows
    requires SameColumnUpTo(g1, g2, col, top)
    ensures StaticTop(g1, col, top) == StaticTop(g2, col, top)
    decreases top + 1
  {
    if top >= 0 && IsStaticGem(g1[top][col]) {
      StaticTopDetermined(g1, g2, col, top - 1);
    }
  }

  lemma LiftDetermined(g1: Grid, g2: Grid, col: int, top: int, limit: int, rand: nat -> nat, numGemTypes: int, draw: nat)
    requires IsGrid(g1) && IsGrid(g2) && 0 <= col < Cols && -1 <= top < Rows && limit < 0 && numGemTypes > 0
    requires SameColumnUpTo(g1, g2, col, top)
    ensures StaticTop(g1, col, top) == StaticTop(g2, col, top)
    ensures LiftedDraws(g1, col, top, limit) == LiftedDraws(g2, col, top, limit)
    ensures LiftedGems(g1, col, top, limit, rand, numGemTypes, draw) == LiftedGems(g2, col, top, limit, rand, numGemTypes, draw)
  {
    StaticTopDetermined(g1, g2, col, top);
  }

  /** Every gem of a batch can sit in a queue slot: above the bottom row's floor, with a real colour. */
  predicate AreQueueable(gems: seq<FallingGem>, numGemTypes: int)
  {
    forall k :: 0 <= k < |gems| ==> gems[k].row < Rows && 0 <= gems[k].color < numGemTypes
  }

  // ---------------------------------------------------------------------------
  // solveBoardAtPos

  /** Fresh colours the vertical gravity loop draws. */
  function VerticalDraws(g: Grid, r: int, c: int): (n: nat)
    requires IsGrid(g) && InGrid(r, c)
  {
    if EraseVertical(g, r, c) then LiftedDraws(g, c, RowStart(g, r, c) - 1, -VerticalLen(g, r, c)) else 0
  }

  /** Fresh colours the horizontal gravity loop draws for column j (none for the pivot column after a vertical erase). */
  function ColumnDraws(g: Grid, r: int, c: int, j: int): (n: nat)
    requires IsGrid(g) && InGrid(r, c) && 0 <= j < Cols
  {
    if EraseVertical(g, r, c) && j == c then 0 else LiftedDraws(g, j, r - 1, -1)
  }

  /** Fresh colours the horizontal gravity loops draw for columns ColStart .. j - 1. */
  function HorizontalDraws(g: Grid, r: int, c: int, j: int): (n: nat)
    requires IsGrid(g) && InGrid(r, c) && ColStart(g, r, c) <= j <= ColEnd(g, r, c) + 1
    decreases j - ColStart(g, r, c)
  {
    if j == ColStart(g, r, c) then 0 else HorizontalDraws(g, r, c, j - 1) + ColumnDraws(g, r, c, j - 1)
  }

  /** The draw counter when the horizontal gravity loop reaches column j, the first draw being `draw`. */
  function DrawsAtColumn(g: Grid, r: int, c: int, j: int, draw: nat): nat
    requires IsGrid(g) && InGrid(r, c) && ColStart(g, r, c) <= j <= ColEnd(g, r, c) + 1
  {
    draw + VerticalDraws(g, r, c) + HorizontalDraws(g, r, c, j)
  }

  /** All fresh colours one solveBoardAtPos draws. */
  function SolveDraws(g: Grid, r: int, c: int): (n: nat)
    requires IsGrid(g) && InGrid(r, c)
    ensures !Erases(g, r, c) ==> n == 0
  {
    VerticalDraws(g, r, c) + (if EraseHorizontal(g, r, c) then HorizontalDraws(g, r, c, ColEnd(g, r, c) + 1) else 0)
  }

  /**
   * The gems solveBoardAtPos at (r, c) enqueues into column j, with the
   * colour source's draw counter at `draw` when it starts. The pivot column
   * gets the vertical gravity loop (from above the vertical run, down to
   * -verticalGemChain) when the vertical run is erased; each other column of
   * an erased horizontal run gets the loop from above row r down to -1.
   */
  function SolveBatch(g: Grid, r: int, c: int, j: int, rand: nat -> nat, numGemTypes: int, draw: nat): (gems: seq<FallingGem>)
    requires IsGrid(g) && InGrid(r, c) && 0 <= j < Cols && numGemTypes > 0
    ensures gems != [] ==> (EraseVertical(g, r, c) && j == c) ||
                           (EraseHorizontal(g, r, c) && ColStart(g, r, c) <= j <= ColEnd(g, r, c))
  {
    if EraseVertical(g, r, c) && j == c then
      LiftedGems(g, c, RowStart(g, r, c) - 1, -VerticalLen(g, r, c), rand, numGemTypes, draw)
    else if EraseHorizontal(g, r, c) && ColStart(g, r, c) <= j <= ColEnd(g, r, c) then
      LiftedGems(g, j, r - 1, -1, rand, numGemTypes, DrawsAtColumn(g, r, c, j, draw))
    else []
  }

  /** Without a run of three through the pivot nothing is enqueued and nothing is drawn. */
  lemma NoEraseNoBatch(g: Grid, r: int, c: int, j: int, rand: nat -> nat, numGemTypes: int, draw: nat)
    requires IsGrid(g) && InGrid(r, c) && 0 <= j < Cols && numGemTypes > 0
    requires !Erases(g, r, c)
    ensures SolveBatch(g, r, c, j, rand, numGemTypes, draw) == []
    ensures SolveDraws(g, r, c) == 0
  {
  }

  /** The gems a gravity loop lifts from inside the board are exactly the rows of the static block ending at top. */
  lemma LiftedRowsAreBlock(g: Grid, col: int, top: int, limit: int, rand: nat -> nat, numGemTypes: int, draw: nat)
    requires IsGrid(g) && 0 <= col < Cols && -1 <= top < Rows && limit < 0 && numGemTypes > 0
    ensures InsideRowsWithin(LiftedGems(g, col, top, limit, rand, numGemTypes, draw), StaticTop(g, col, top), top)
    ensures top + 1 - StaticTop(g, col, top) <= |LiftedGems(g, col, top, limit, rand, numGemTypes, draw)|
  {
  }

  /** The gems that start inside the board start in rows lo .. hi. */
  predicate InsideRowsWithin(gems: seq<FallingGem>, lo: int, hi: int)
  {
    forall k :: 0 <= k < |gems| && gems[k].row >= 0 ==> lo <= gems[k].row <= hi
  }

  /** The gems of a batch for column j that start inside the board are cells solveBoardAtPos empties, with their colours. */
  predicate CarriesErased(gems: seq<FallingGem>, g: Grid, r: int, c: int, j: int)
    requires IsGrid(g) && InGrid(r, c) && 0 <= j < Cols
  {
    forall k :: 0 <= k < |gems| && 0 <= gems[k].row < Rows ==>
      ErasedBy(g, r, c, gems[k].row, j) && gems[k].color == g[gems[k].row][j]
  }

  /**
   * What solveBoardAtPos enqueues is what it took off the grid: the gems of
   * column j's batch that start inside the board are cells of that column it
   * emptied above the runs, each with its own colour; the rest start above
   * the board with fresh colours.
   */
  lemma SolveBatchCarriesErasedGems(g: Grid, r: int, c: int, j: int, rand: nat -> nat, numGemTypes: int, draw: nat)
    requires IsGrid(g) && InGrid(r, c) && 0 <= j < Cols && numGemTypes > 0
    requires AllValidColors(g, numGemTypes)
    ensures AreQueueable(SolveBatch(g, r, c, j, rand, numGemTypes, draw), numGemTypes)
    ensures CarriesErased(SolveBatch(g, r, c, j, rand, numGemTypes, draw), g, r, c, j)
  {
    if EraseVertical(g, r, c) && j == c {
      VerticalBatchCarries(g, r, c, rand, numGemTypes, draw);
    } else if EraseHorizontal(g, r, c) && ColStart(g, r, c) <= j <= ColEnd(g, r, c) {
      HorizontalBatchCarries(g, r, c, j, rand, numGemTypes, DrawsAtColumn(g, r, c, j, draw));
    }
  }

  lemma VerticalBatchCarries(g: Grid, r: int, c: int, rand: nat -> nat, numGemTypes: int, draw: nat)
    requires IsGrid(g) && InGrid(r, c) && numGemTypes > 0
    requires AllValidColors(g, numGemTypes)
    requires EraseVertical(g, r, c)
    ensures AreQueueable(LiftedGems(g, c, RowStart(g, r, c) - 1, -VerticalLen(g, r, c), rand, numGemTypes, draw), numGemTypes)
    ensures CarriesErased(LiftedGems(g, c, RowStart(g, r, c) - 1, -VerticalLen(g, r, c), rand, numGemTypes, draw), g, r, c, c)
  {
    var top, limit := RowStart(g, r, c) - 1, -VerticalLen(g, r, c);
    var gems := LiftedGems(g, c, top, limit, rand, numGemTypes, draw);
    LiftedGemsAreGems(g, c, top, limit, rand, numGemTypes, draw);
    LiftedRowsAreBlock(g, c, top, limit, rand, numGemTypes, draw);
    forall k | 0 <= k < |gems| && 0 <= gems[k].row < Rows
      ensures ErasedBy(g, r, c, gems[k].row, c)
    {
      assert StaticTop(g, c, top) <= gems[k].row < RowStart(g, r, c);
    }
  }

  lemma HorizontalBatchCarries(g: Grid, r: int, c: int, j: int, rand: nat -> nat, numGemTypes: int, draw: nat)
    requires IsGrid(g) && InGrid(r, c) && 0 <= j < Cols && numGemTypes > 0
    requires AllValidColors(g, numGemTypes)
    requires EraseHorizontal(g, r, c) && ColStart(g, r, c) <= j <= ColEnd(g, r, c) && !(EraseVertical(g, r, c) && j == c)
    ensures AreQueueable(LiftedGems(g, j, r - 1, -1, rand, numGemTypes, draw), numGemTypes)
    ensures CarriesErased(LiftedGems(g, j, r - 1, -1, rand, numGemTypes, draw), g, r, c, j)
  {
    var gems := LiftedGems(g, j, r - 1, -1, rand, numGemTypes, draw);
    LiftedGemsAreGems(g, j, r - 1, -1, rand, numGemTypes, draw);
    forall k | 0 <= k < |gems| && 0 <= gems[k].row < Rows
      ensures ErasedBy(g, r, c, gems[k].row, j) && gems[k].color == g[gems[k].row][j]
    {
      HorizontalGemIsErased(g, r, c, j, rand, numGemTypes, draw, k);
    }
  }

  /** The k-th gem of that loop, when it starts inside the board, is an erased cell with its colour. */
  lemma HorizontalGemIsErased(g: Grid, r: int, c: int, j: int, rand: nat -> nat, numGemTypes: int, draw: nat, k: int)
    requires IsGrid(g) && InGrid(r, c) && 0 <= j < Cols && numGemTypes > 0
    requires EraseHorizontal(g, r, c) && ColStart(g, r, c) <= j <= ColEnd(g, r, c) && !(EraseVertical(g, r, c) && j == c)
    requires var gems := LiftedGems(g, j, r - 1, -1, rand, numGemTypes, draw);
             0 <= k < |gems| && 0 <= gems[k].row < Rows
    ensures var gems := LiftedGems(g, j, r - 1, -1, rand, numGemTypes, draw);
            ErasedBy(g, r, c, gems[k].row, j) && gems[k].color == g[gems[k].row][j]
  {
    var gems := LiftedGems(g, j, r - 1, -1, rand, numGemTypes, draw);
    LiftedRowsAreBlock(g, j, r - 1, -1, rand, numGemTypes, draw);
    assert gems[k].row == r - 1 - k;
    assert StaticTop(g, j, r - 1) <= gems[k].row < r;
    AboveRowRunIsErased(g, r, c, gems[k].row, j);
  }

  /** A cell of the static block above the row run, outside the pivot column of a vertical erase, is erased. */
  lemma AboveRowRunIsErased(g: Grid, r: int, c: int, i: int, j: int)
    requires IsGrid(g) && InGrid(r, c) && InGrid(i, j)
    requires EraseHorizontal(g, r, c) && ColStart(g, r, c) <= j <= ColEnd(g, r, c) && !(EraseVertical(g, r, c) && j == c)
    requires StaticTop(g, j, r - 1) <= i < r
    ensures ErasedBy(g, r, c, i, j)
  {
  }

  /** The row column j's gravity loop starts from: above the vertical run in the pivot column, above row r elsewhere. */
  function BatchTop(g: Grid, r: int, c: int, j: int): int
    requires IsGrid(g) && InGrid(r, c)
  {
    if EraseVertical(g, r, c) && j == c then RowStart(g, r, c) - 1 else r - 1
  }

  /** Conversely, every cell solveBoardAtPos empties above a run is in its column's batch, bottom first. */
  lemma ErasedGemsAreInBatch(g: Grid, r: int, c: int, i: int, j: int, rand: nat -> nat, numGemTypes: int, draw: nat)
    requires IsGrid(g) && InGrid(r, c) && InGrid(i, j) && numGemTypes > 0
    requires ErasedBy(g, r, c, i, j)
    requires if EraseVertical(g, r, c) && j == c then i < RowStart(g, r, c) else i < r
    ensures var gems := SolveBatch(g, r, c, j, rand, numGemTypes, draw);
            0 <= BatchTop(g, r, c, j) - i < |gems| && gems[BatchTop(g, r, c, j) - i] == FallingGem(i, g[i][j])
  {
    if EraseVertical(g, r, c) && j == c {
      assert StaticTop(g, c, RowStart(g, r, c) - 1) <= i < RowStart(g, r, c);
      ErasedGemInPivotBatch(g, r, c, i, rand, numGemTypes, draw);
    } else {
      assert EraseHorizontal(g, r, c) && ColStart(g, r, c) <= j <= ColEnd(g, r, c);
      assert StaticTop(g, j, r - 1) <= i < r;
      ErasedGemInRunBatch(g, r, c, i, j, rand, numGemTypes, draw);
    }
  }

  lemma ErasedGemInPivotBatch(g: Grid, r: int, c: int, i: int, rand: nat -> nat, numGemTypes: int, draw: nat)
    requires IsGrid(g) && InGrid(r, c) && InGrid(i, c) && numGemTypes > 0 && EraseVertical(g, r, c)
    requires StaticTop(g, c, RowStart(g, r, c) - 1) <= i < RowStart(g, r, c)
    ensures var gems := SolveBatch(g, r, c, c, rand, numGemTypes, draw);
            0 <= BatchTop(g, r, c, c) - i < |gems| && gems[BatchTop(g, r, c, c) - i] == FallingGem(i, g[i][c])
  {
    var top := RowStart(g, r, c) - 1;
    var gems := LiftedGems(g, c, top, -VerticalLen(g, r, c), rand, numGemTypes, draw);
    LiftedCoversBlock(g, c, top, -VerticalLen(g, r, c), i, rand, numGemTypes, draw);
    assert 0 <= top - i < |gems| && gems[top - i] == FallingGem(i, g[i][c]);
    assert BatchTop(g, r, c, c) == top;
    assert SolveBatch(g, r, c, c, rand, numGemTypes, draw) == gems;
  }

  lemma ErasedGemInRunBatch(g: Grid, r: int, c: int, i: int, j: int, rand: nat -> nat, numGemTypes: int, draw: nat)
    requires IsGrid(g) && InGrid(r, c) && InGrid(i, j) && numGemTypes > 0
    requires EraseHorizontal(g, r, c) && ColStart(g, r, c) <= j <= ColEnd(g, r, c) && !(EraseVertical(g, r, c) && j == c)
    requires StaticTop(g, j, r - 1) <= i < r
    ensures var gems := SolveBatch(g, r, c, j, rand, numGemTypes, draw);
            0 <= BatchTop(g, r, c, j) - i < |gems| && gems[BatchTop(g, r, c, j) - i] == FallingGem(i, g[i][j])
  {
    var d := DrawsAtColumn(g, r, c, j, draw);
    var gems := LiftedGems(g, j, r - 1, -1, rand, numGemTypes, d);
    LiftedCoversBlock(g, j, r - 1, -1, i, rand, numGemTypes, d);
    assert 0 <= r - 1 - i < |gems| && gems[r - 1 - i] == FallingGem(i, g[i][j]);
    assert BatchTop(g, r, c, j) == r - 1;
    assert SolveBatch(g, r, c, j, rand, numGemTypes, draw) == gems;
  }

  /** Row i of the static block ending at top is the (top - i)-th gem a gravity loop from top lifts. */
  lemma LiftedCoversBlock(g: Grid, col: int, top: int, limit: int, i: int, rand: nat -> nat, numGemTypes: int, draw: nat)
    requires IsGrid(g) && 0 <= col < Cols && -1 <= top < Rows && limit < 0 && numGemTypes > 0
    requires StaticTop(g, col, top) <= i <= top && 0 <= i
    ensures var gems := LiftedGems(g, col, top, limit, rand, numGemTypes, draw);
            0 <= top - i < |gems| && gems[top - i] == FallingGem(i, g[i][col])
  {
    LiftedRowsAreBlock(g, col, top, limit, rand, numGemTypes, draw);
  }

  // ---------------------------------------------------------------------------
  // The stages of solveBoardAtPos: after the vertical part, after the row
  // erase, and after the gravity loops of the columns before j.

  /** The grid after the vertical part: the run and the static block above it emptied. */
  function VerticalGrid(g: Grid, r: int, c: int): (result: Grid)
    requires IsGrid(g) && InGrid(r, c)
    ensures IsGrid(result)
  {
    if EraseVertical(g, r, c) then ColumnEmptied(g, c, StaticTop(g, c, RowStart(g, r, c) - 1), RowEnd(g, r, c)) else g
  }

  /** Cell (i, j') is empty once the runs are erased and the columns before j are lifted. */
  predicate ErasedSoFar(g: Grid, r: int, c: int, j: int, i: int, j': int)
    requires IsGrid(g) && InGrid(r, c) && InGrid(i, j')
  {
    ErasedBy(g, r, c, i, j') && (i >= r || j' < j || (EraseVertical(g, r, c) && j' == c))
  }

  function StageGrid(g: Grid, r: int, c: int, j: int): (result: Grid)
    requires IsGrid(g) && InGrid(r, c)
    ensures IsGrid(result)
    ensures forall i, j' :: InGrid(i, j') ==> result[i][j'] == (if ErasedSoFar(g, r, c, j, i, j') then Empty else g[i][j'])
  {
    seq(Rows, i requires 0 <= i < Rows =>
      seq(Cols, j' requires 0 <= j' < Cols => if ErasedSoFar(g, r, c, j, i, j') then Empty else g[i][j']))
  }

  /** What column j' has received once the columns before j are lifted. */
  function BatchSoFar(g: Grid, r: int, c: int, j: int, j': int, rand: nat -> nat, numGemTypes: int, draw: nat): seq<FallingGem>
    requires IsGrid(g) && InGrid(r, c) && 0 <= j' < Cols && numGemTypes > 0
  {
    if j' < j || (EraseVertical(g, r, c) && j' == c) then SolveBatch(g, r, c, j', rand, numGemTypes, draw) else []
  }

  /** One ring per column, and a tail index per slot of the index array. */
  predicate AreRings(f: seq<seq<FallingGem>>, e: seq<int>)
  {
    |f| == Cols && |e| == RowsPlusOne &&
    (forall j :: 0 <= j < Cols ==> IsRing(f[j])) && (forall j :: 0 <= j < RowsPlusOne ==> IsRingIndex(e[j]))
  }

  function StageQueues(f: seq<seq<FallingGem>>, e: seq<int>, g: Grid, r: int, c: int, j: int,
                       rand: nat -> nat, numGemTypes: int, draw: nat): (result: seq<seq<FallingGem>>)
    requires AreRings(f, e) && IsGrid(g) && InGrid(r, c) && numGemTypes > 0
    ensures |result| == Cols
    ensures forall j' :: 0 <= j' < Cols ==>
              result[j'] == EnqueueAll(f[j'], e[j'], BatchSoFar(g, r, c, j, j', rand, numGemTypes, draw)).0
  {
    seq(Cols, j' requires 0 <= j' < Cols => EnqueueAll(f[j'], e[j'], BatchSoFar(g, r, c, j, j', rand, numGemTypes, draw)).0)
  }

  function StageEnds(f: seq<seq<FallingGem>>, e: seq<int>, g: Grid, r: int, c: int, j: int,
                     rand: nat -> nat, numGemTypes: int, draw: nat): (result: seq<int>)
    requires AreRings(f, e) && IsGrid(g) && InGrid(r, c) && numGemTypes > 0
    ensures |result| == RowsPlusOne
    ensures forall j' :: 0 <= j' < Cols ==>
              result[j'] == EnqueueAll(f[j'], e[j'], BatchSoFar(g, r, c, j, j', rand, numGemTypes, draw)).1
    ensures forall j' :: Cols <= j' < RowsPlusOne ==> result[j'] == e[j']
  {
    seq(RowsPlusOne, j' requires 0 <= j' < RowsPlusOne =>
      if j' < Cols then EnqueueAll(f[j'], e[j'], BatchSoFar(g, r, c, j, j', rand, numGemTypes, draw)).1 else e[j'])
  }

  /**
   * The vertical part: emptying the run and then lifting the column from
   * above it leaves VerticalGrid and enqueues the pivot column's batch; the
   * run's own cells do not change what the gravity loop sees.
   */
  lemma VerticalStageGrid(g: Grid, r: int, c: int, rand: nat -> nat, numGemTypes: int, draw: nat)
    requires IsGrid(g) && InGrid(r, c) && numGemTypes > 0 && EraseVertical(g, r, c)
    ensures var top, g1 := RowStart(g, r, c) - 1, ColumnEmptied(g, c, RowStart(g, r, c), RowEnd(g, r, c));
            StaticTop(g1, c, top) == StaticTop(g, c, top) &&
            LiftedGems(g1, c, top, -VerticalLen(g, r, c), rand, numGemTypes, draw) == SolveBatch(g, r, c, c, rand, numGemTypes, draw) &&
            LiftedDraws(g1, c, top, -VerticalLen(g, r, c)) == VerticalDraws(g, r, c) &&
            ColumnEmptied(g1, c, StaticTop(g, c, top), top) == VerticalGrid(g, r, c)
  {
    var top, g1 := RowStart(g, r, c) - 1, ColumnEmptied(g, c, RowStart(g, r, c), RowEnd(g, r, c));
    var limit := -VerticalLen(g, r, c);
    assert SameColumnUpTo(g1, g, c, top);
    LiftDetermined(g1, g, c, top, limit, rand, numGemTypes, draw);
    assert SolveBatch(g, r, c, c, rand, numGemTypes, draw) == LiftedGems(g, c, top, limit, rand, numGemTypes, draw);
    assert VerticalDraws(g, r, c) == LiftedDraws(g, c, top, limit);
    ColumnEmptiedMerge(g, c, StaticTop(g, c, top), RowStart(g, r, c), RowEnd(g, r, c));
    assert VerticalGrid(g, r, c) == ColumnEmptied(g, c, StaticTop(g, c, top), RowEnd(g, r, c));
  }

  /** Before the horizontal loops only the pivot column has its batch, and only after a vertical erase. */
  lemma VerticalStageQueues(f: seq<seq<FallingGem>>, e: seq<int>, g: Grid, r: int, c: int, rand: nat -> nat, numGemTypes: int, draw: nat)
    requires AreRings(f, e) && IsGrid(g) && InGrid(r, c) && numGemTypes > 0
    ensures var j := ColStart(g, r, c);
            if EraseVertical(g, r, c) then
              var q := EnqueueAll(f[c], e[c], SolveBatch(g, r, c, c, rand, numGemTypes, draw));
              StageQueues(f, e, g, r, c, j, rand, numGemTypes, draw) == f[c := q.0] &&
              StageEnds(f, e, g, r, c, j, rand, numGemTypes, draw) == e[c := q.1]
            else
              StageQueues(f, e, g, r, c, j, rand, numGemTypes, draw) == f &&
              StageEnds(f, e, g, r, c, j, rand, numGemTypes, draw) == e
  {
    var j := ColStart(g, r, c);
    forall j' | 0 <= j' < Cols && !(EraseVertical(g, r, c) && j' == c)
      ensures BatchSoFar(g, r, c, j, j', rand, numGemTypes, draw) == []
    {
    }
  }

  /** The row erase after the vertical part gives the first horizontal stage. */
  lemma RowStage(g: Grid, r: int, c: int)
    requires IsGrid(g) && InGrid(r, c) && EraseHorizontal(g, r, c)
    ensures RowEmptied(VerticalGrid(g, r, c), r, ColStart(g, r, c), ColEnd(g, r, c)) == StageGrid(g, r, c, ColStart(g, r, c))
  {
    var a, b := RowEmptied(VerticalGrid(g, r, c), r, ColStart(g, r, c), ColEnd(g, r, c)), StageGrid(g, r, c, ColStart(g, r, c));
    forall i, j | InGrid(i, j)
      ensures a[i][j] == b[i][j]
    {
      RowStageCell(g, r, c, i, j);
    }
    assert forall i :: 0 <= i < Rows ==> a[i] == b[i];
  }

  lemma RowStageCell(g: Grid, r: int, c: int, i: int, j: int)
    requires IsGrid(g) && InGrid(r, c) && InGrid(i, j) && EraseHorizontal(g, r, c)
    ensures ErasedSoFar(g, r, c, ColStart(g, r, c), i, j) <==>
            (i == r && ColStart(g, r, c) <= j <= ColEnd(g, r, c)) ||
            (EraseVertical(g, r, c) && j == c && StaticTop(g, c, RowStart(g, r, c) - 1) <= i <= RowEnd(g, r, c))
  {
  }

  /** Without a horizontal erase the vertical part is all solveBoardAtPos does to the grid. */
  lemma VerticalIsAll(g: Grid, r: int, c: int)
    requires IsGrid(g) && InGrid(r, c) && !EraseHorizontal(g, r, c)
    ensures VerticalGrid(g, r, c) == SolvedGrid(g, r, c)
  {
    var a, b := VerticalGrid(g, r, c), SolvedGrid(g, r, c);
    forall i | 0 <= i < Rows
      ensures a[i] == b[i]
    {
      assert forall j :: 0 <= j < Cols ==> a[i][j] == b[i][j];
    }
  }

  /**
   * One horizontal gravity loop, for a column j of the run other than a
   * vertically erased pivot: it sees the same column as in g, enqueues that
   * column's batch and moves the stage on by one column.
   */
  lemma HorizontalStageGrid(g: Grid, r: int, c: int, j: int, rand: nat -> nat, numGemTypes: int, draw: nat)
    requires IsGrid(g) && InGrid(r, c) && numGemTypes > 0
    requires EraseHorizontal(g, r, c) && ColStart(g, r, c) <= j <= ColEnd(g, r, c) && !(EraseVertical(g, r, c) && j == c)
    ensures var gj, d := StageGrid(g, r, c, j), DrawsAtColumn(g, r, c, j, draw);
            StaticTop(gj, j, r - 1) == StaticTop(g, j, r - 1) &&
            LiftedGems(gj, j, r - 1, -1, rand, numGemTypes, d) == SolveBatch(g, r, c, j, rand, numGemTypes, draw) &&
            LiftedDraws(gj, j, r - 1, -1) == ColumnDraws(g, r, c, j) &&
            ColumnEmptied(gj, j, StaticTop(g, j, r - 1), r - 1) == StageGrid(g, r, c, j + 1)
  {
    HorizontalStageLift(g, r, c, j, rand, numGemTypes, draw);
    HorizontalStageEmptied(g, r, c, j);
  }

  /** The stage at column j agrees with g above row r in column j, so the lift there is the one SolveBatch describes. */
  lemma HorizontalStageLift(g: Grid, r: int, c: int, j: int, rand: nat -> nat, numGemTypes: int, draw: nat)
    requires IsGrid(g) && InGrid(r, c) && numGemTypes > 0
    requires EraseHorizontal(g, r, c) && ColStart(g, r, c) <= j <= ColEnd(g, r, c) && !(EraseVertical(g, r, c) && j == c)
    ensures StaticTop(StageGrid(g, r, c, j), j, r - 1) == StaticTop(g, j, r - 1)
    ensures LiftedGems(StageGrid(g, r, c, j), j, r - 1, -1, rand, numGemTypes, DrawsAtColumn(g, r, c, j, draw)) ==
            SolveBatch(g, r, c, j, rand, numGemTypes, draw)
    ensures LiftedDraws(StageGrid(g, r, c, j), j, r - 1, -1) == ColumnDraws(g, r, c, j)
  {
    var gj, d := StageGrid(g, r, c, j), DrawsAtColumn(g, r, c, j, draw);
    forall i | 0 <= i <= r - 1
      ensures gj[i][j] == g[i][j]
    {
      HorizontalStageCell(g, r, c, j, i, j);
    }
    LiftDetermined(gj, g, j, r - 1, -1, rand, numGemTypes, d);
    assert SolveBatch(g, r, c, j, rand, numGemTypes, draw) == LiftedGems(g, j, r - 1, -1, rand, numGemTypes, d);
  }

  /** Emptying the lifted part of column j moves the stage on by one column. */
  lemma HorizontalStageEmptied(g: Grid, r: int, c: int, j: int)
    requires IsGrid(g) && InGrid(r, c)
    requires EraseHorizontal(g, r, c) && ColStart(g, r, c) <= j <= ColEnd(g, r, c) && !(EraseVertical(g, r, c) && j == c)
    ensures ColumnEmptied(StageGrid(g, r, c, j), j, StaticTop(g, j, r - 1), r - 1) == StageGrid(g, r, c, j + 1)
  {
    var gj := StageGrid(g, r, c, j);
    var a, b := ColumnEmptied(gj, j, StaticTop(g, j, r - 1), r - 1), StageGrid(g, r, c, j + 1);
    forall i, j' | InGrid(i, j')
      ensures a[i][j'] == b[i][j']
    {
      HorizontalStageCell(g, r, c, j, i, j');
    }
    assert forall i :: 0 <= i < Rows ==> a[i] == b[i];
  }

  lemma HorizontalStageCell(g: Grid, r: int, c: int, j: int, i: int, j': int)
    requires IsGrid(g) && InGrid(r, c) && InGrid(i, j')
    requires EraseHorizontal(g, r, c) && ColStart(g, r, c) <= j <= ColEnd(g, r, c) && !(EraseVertical(g, r, c) && j == c)
    ensures j' == j && i < r ==> !ErasedSoFar(g, r, c, j, i, j')
    ensures ErasedSoFar(g, r, c, j + 1, i, j') <==>
            ErasedSoFar(g, r, c, j, i, j') || (j' == j && StaticTop(g, j, r - 1) <= i <= r - 1)
  {
  }

  lemma HorizontalStageQueues(f: seq<seq<FallingGem>>, e: seq<int>, g: Grid, r: int, c: int, j: int,
                              rand: nat -> nat, numGemTypes: int, draw: nat)
    requires AreRings(f, e) && IsGrid(g) && InGrid(r, c) && numGemTypes > 0
    requires EraseHorizontal(g, r, c) && ColStart(g, r, c) <= j <= ColEnd(g, r, c) && !(EraseVertical(g, r, c) && j == c)
    ensures var fj, ej := StageQueues(f, e, g, r, c, j, rand, numGemTypes, draw), StageEnds(f, e, g, r, c, j, rand, numGemTypes, draw);
            var q := EnqueueAll(f[j], e[j], SolveBatch(g, r, c, j, rand, numGemTypes, draw));
            fj[j] == f[j] && ej[j] == e[j] &&
            fj[j := q.0] == StageQueues(f, e, g, r, c, j + 1, rand, numGemTypes, draw) &&
            ej[j := q.1] == StageEnds(f, e, g, r, c, j + 1, rand, numGemTypes, draw)
  {
  }

  /** The pivot column of a cross was lifted by the vertical part; the horizontal loop skips it. */
  lemma SkippedStage(f: seq<seq<FallingGem>>, e: seq<int>, g: Grid, r: int, c: int, rand: nat -> nat, numGemTypes: int, draw: nat)
    requires AreRings(f, e) && IsGrid(g) && InGrid(r, c) && numGemTypes > 0 && EraseVertical(g, r, c)
    requires ColStart(g, r, c) <= c <= ColEnd(g, r, c)
    ensures HorizontalDraws(g, r, c, c + 1) == HorizontalDraws(g, r, c, c)
    ensures StageGrid(g, r, c, c + 1) == StageGrid(g, r, c, c)
    ensures StageQueues(f, e, g, r, c, c + 1, rand, numGemTypes, draw) == StageQueues(f, e, g, r, c, c, rand, numGemTypes, draw)
    ensures StageEnds(f, e, g, r, c, c + 1, rand, numGemTypes, draw) == StageEnds(f, e, g, r, c, c, rand, numGemTypes, draw)
  {
    var a, b := StageGrid(g, r, c, c + 1), StageGrid(g, r, c, c);
    forall i | 0 <= i < Rows
      ensures a[i] == b[i]
    {
      assert forall j' :: 0 <= j' < Cols ==> a[i][j'] == b[i][j'];
    }
  }

  /** Once every column of the run is lifted, the stage's grid is solveBoardAtPos's whole effect on the grid. */
  lemma StagesCompleteGrid(g: Grid, r: int, c: int)
    requires IsGrid(g) && InGrid(r, c) && EraseHorizontal(g, r, c)
    ensures StageGrid(g, r, c, ColEnd(g, r, c) + 1) == SolvedGrid(g, r, c)
  {
    var a, b := StageGrid(g, r, c, ColEnd(g, r, c) + 1), SolvedGrid(g, r, c);
    forall i | 0 <= i < Rows
      ensures a[i] == b[i]
    {
      assert forall j' :: 0 <= j' < Cols ==> a[i][j'] == b[i][j'];
    }
  }

  /** Once every column of the run is lifted, each column has received its whole batch. */
  lemma StagesComplete(f: seq<seq<FallingGem>>, e: seq<int>, g: Grid, r: int, c: int, j: int,
                       rand: nat -> nat, numGemTypes: int, draw: nat)
    requires AreRings(f, e) && IsGrid(g) && InGrid(r, c) && numGemTypes > 0
    requires if EraseHorizontal(g, r, c) then j == ColEnd(g, r, c) + 1 else j == ColStart(g, r, c)
    ensures forall j' :: 0 <= j' < Cols ==>
              StageQueues(f, e, g, r, c, j, rand, numGemTypes, draw)[j'] ==
                EnqueueAll(f[j'], e[j'], SolveBatch(g, r, c, j', rand, numGemTypes, draw)).0 &&
              StageEnds(f, e, g, r, c, j, rand, numGemTypes, draw)[j'] ==
                EnqueueAll(f[j'], e[j'], SolveBatch(g, r, c, j', rand, numGemTypes, draw)).1
  {
    forall j' | 0 <= j' < Cols
      ensures BatchSoFar(g, r, c, j, j', rand, numGemTypes, draw) == SolveBatch(g, r, c, j', rand, numGemTypes, draw)
    {
    }
  }

  // ---------------------------------------------------------------------------
  // solveFallAtPos

  /**
   * The number of Empty cells directly below (r, c), as solveFallAtPos counts
   * them: the loop stops at the first non-Empty cell or the bottom of the board.
   */
  function GapBelow(g: Grid, r: int, c: int): (n: nat)
    requires IsGrid(g) && -1 <= r < Rows && 0 <= c < Cols
    ensures r + 1 + n <= Rows
    ensures forall i :: r < i <= r + n ==> g[i][c] == Empty
    ensures r + 1 + n < Rows ==> g[r + 1 + n][c] != Empty
    decreases Rows - r
  {
    if r + 1 >= Rows || g[r + 1][c] != Empty then 0 else 1 + GapBelow(g, r + 1, c)
  }

  /** The gems solveFallAtPos at (r, c) enqueues: the block ending at (r, c), lifted down to -gap. */
  function FallBatch(g: Grid, r: int, c: int, rand: nat -> nat, numGemTypes: int, draw: nat): (gems: seq<FallingGem>)
    requires IsGrid(g) && InGrid(r, c) && numGemTypes > 0
    ensures GapBelow(g, r, c) == 0 ==> gems == []
  {
    var gap := GapBelow(g, r, c);
    if gap == 0 then [] else LiftedGems(g, c, r, -(gap as int), rand, numGemTypes, draw)
  }

  /** The grid solveFallAtPos at (r, c) leaves: with a gap below, the static block ending at (r, c) is emptied. */
  function FallenGrid(g: Grid, r: int, c: int): (result: Grid)
    requires IsGrid(g) && InGrid(r, c)
    ensures IsGrid(result)
    ensures forall i, j :: InGrid(i, j) ==> result[i][j] == g[i][j] || (result[i][j] == Empty && j == c && i <= r)
  {
    if GapBelow(g, r, c) == 0 then g else ColumnEmptied(g, c, StaticTop(g, c, r), r)
  }

  /** The colours solveFallAtPos draws: one per row of the gap when the lifted block reaches the top row. */
  function FallDraws(g: Grid, r: int, c: int): (n: nat)
    requires IsGrid(g) && InGrid(r, c)
    ensures n <= GapBelow(g, r, c)
  {
    if GapBelow(g, r, c) == 0 then 0 else LiftedDraws(g, c, r, -(GapBelow(g, r, c) as int))
  }

  /** solveFallAtPos only lifts when there is a gap, and then lifts exactly the static block ending at (r, c). */
  lemma FallBatchLiftsBlock(g: Grid, r: int, c: int, rand: nat -> nat, numGemTypes: int, draw: nat)
    requires IsGrid(g) && InGrid(r, c) && numGemTypes > 0
    requires AllValidColors(g, numGemTypes)
    ensures AreQueueable(FallBatch(g, r, c, rand, numGemTypes, draw), numGemTypes)
    ensures GapBelow(g, r, c) == 0 ==> FallBatch(g, r, c, rand, numGemTypes, draw) == []
    ensures GapBelow(g, r, c) > 0 ==> HoldsBlock(FallBatch(g, r, c, rand, numGemTypes, draw), g, c, StaticTop(g, c, r), r)
  {
    if GapBelow(g, r, c) > 0 {
      LiftedGemsAreGems(g, c, r, -(GapBelow(g, r, c) as int), rand, numGemTypes, draw);
      LiftedRowsAreBlock(g, c, r, -(GapBelow(g, r, c) as int), rand, numGemTypes, draw);
    }
  }

  /** Rows lo .. top of column c lead the batch, top first, each with its own colour. */
  predicate HoldsBlock(gems: seq<FallingGem>, g: Grid, c: int, lo: int, top: int)
    requires IsGrid(g) && 0 <= c < Cols && top < Rows
  {
    forall i :: 0 <= lo <= i <= top ==> top - i < |gems| && gems[top - i] == FallingGem(i, g[i][c])
  }

  // ---------------------------------------------------------------------------
  // The refill in update

  /**
   * The gems the refill enqueues into an idle column for rows Rows - 1 down
   * to lo: one per Empty cell, bottom first, each starting one board height
   * above its cell, with successive draws from `draw`.
   */
  function RefillGems(g: Grid, col: int, lo: int, rand: nat -> nat, numGemTypes: int, draw: nat): (gems: seq<FallingGem>)
    requires IsGrid(g) && 0 <= col < Cols && 0 <= lo <= Rows && numGemTypes > 0
    ensures AreQueueable(gems, numGemTypes)
    decreases Rows - lo
  {
    if lo == Rows then []
    else
      var below := RefillGems(g, col, lo + 1, rand, numGemTypes, draw);
      if g[lo][col] == Empty then below + [FallingGem(lo - Rows, RandColor(rand, numGemTypes, draw + |below|))]
      else below
  }

  /** Each gem starts one board height above an Empty cell of rows lo .. Rows - 1 of column col. */
  predicate StandForEmpties(gems: seq<FallingGem>, g: Grid, col: int, lo: int)
    requires IsGrid(g) && 0 <= col < Cols
  {
    forall k :: 0 <= k < |gems| ==> 0 <= lo <= gems[k].row + Rows < Rows && g[gems[k].row + Rows][col] == Empty
  }

  /** Each gem starts strictly above the one before it. */
  predicate RowsFall(gems: seq<FallingGem>)
  {
    forall k :: 0 < k < |gems| ==> gems[k].row < gems[k - 1].row
  }

  /** Every refill gem stands for an Empty cell of rows lo .. Rows - 1, and their rows strictly fall. */
  lemma {:induction false} RefillGemsAreEmpties(g: Grid, col: int, lo: int, rand: nat -> nat, numGemTypes: int, draw: nat)
    requires IsGrid(g) && 0 <= col < Cols && 0 <= lo <= Rows && numGemTypes > 0
    ensures StandForEmpties(RefillGems(g, col, lo, rand, numGemTypes, draw), g, col, lo)
    ensures RowsFall(RefillGems(g, col, lo, rand, numGemTypes, draw))
    decreases Rows - lo
  {
    if lo < Rows {
      RefillGemsAreEmpties(g, col, lo + 1, rand, numGemTypes, draw);
      var below := RefillGems(g, col, lo + 1, rand, numGemTypes, draw);
      var gems := RefillGems(g, col, lo, rand, numGemTypes, draw);
      if g[lo][col] == Empty {
        var gem := FallingGem(lo - Rows, RandColor(rand, numGemTypes, draw + |below|));
        assert gems == below + [gem];
        forall k | 0 <= k < |gems|
          ensures lo <= gems[k].row + Rows < Rows && g[gems[k].row + Rows][col] == Empty
        {
          if k < |below| { assert gems[k] == below[k]; }
        }
      } else {
        assert gems == below;
      }
    }
  }

  /** Every Empty cell of rows lo .. Rows - 1 gets a refill gem. */
  lemma {:induction false} RefillGemsCoverEmpties(g: Grid, col: int, lo: int, i: int, rand: nat -> nat, numGemTypes: int, draw: nat)
    requires IsGrid(g) && 0 <= col < Cols && 0 <= lo <= i < Rows && numGemTypes > 0
    requires g[i][col] == Empty
    ensures exists k :: 0 <= k < |RefillGems(g, col, lo, rand, numGemTypes, draw)| &&
                        RefillGems(g, col, lo, rand, numGemTypes, draw)[k].row == i - Rows
    decreases Rows - lo
  {
    var gems := RefillGems(g, col, lo, rand, numGemTypes, draw);
    var below := RefillGems(g, col, lo + 1, rand, numGemTypes, draw);
    if i == lo {
      assert gems == below + [FallingGem(lo - Rows, RandColor(rand, numGemTypes, draw + |below|))];
      var k := |below|;
      assert 0 <= k < |gems| && gems[k].row == i - Rows;
    } else {
      RefillGemsCoverEmpties(g, col, lo + 1, i, rand, numGemTypes, draw);
      var k :| 0 <= k < |below| && below[k].row == i - Rows;
      assert gems[k] == below[k];
    }
  }

  /** How many gems a refill of rows lo .. Rows - 1 enqueues: the number of Empty cells there. */
  function EmptyCount(g: Grid, col: int, lo: int): (n: nat)
    requires IsGrid(g) && 0 <= col < Cols && 0 <= lo <= Rows
    ensures n <= Rows - lo
    decreases Rows - lo
  {
    if lo == Rows then 0 else EmptyCount(g, col, lo + 1) + (if g[lo][col] == Empty then 1 else 0)
  }

  lemma {:induction false} RefillGemsCount(g: Grid, col: int, lo: int, rand: nat -> nat, numGemTypes: int, draw: nat)
    requires IsGrid(g) && 0 <= col < Cols && 0 <= lo <= Rows && numGemTypes > 0
    ensures |RefillGems(g, col, lo, rand, numGemTypes, draw)| == EmptyCount(g, col, lo)
    decreases Rows - lo
  {
    if lo < Rows {
      RefillGemsCount(g, col, lo + 1, rand, numGemTypes, draw);
    }
  }

  /** Column j is refilled exactly when its queue is empty. */
  predicate IsIdle(starts: seq<int>, ends: seq<int>, j: int)
    requires 0 <= j < |starts| && j < |ends|
    requires IsRingIndex(starts[j]) && IsRingIndex(ends[j])
  {
    PendingCount(starts[j], ends[j]) == 0
  }

  predicate AreRingIndices(starts: seq<int>, ends: seq<int>)
  {
    |starts| == RowsPlusOne && |ends| == RowsPlusOne &&
    (forall j :: 0 <= j < RowsPlusOne ==> IsRingIndex(starts[j])) &&
    (forall j :: 0 <= j < RowsPlusOne ==> IsRingIndex(ends[j]))
  }

  /** The draws the refill makes for the idle columns before column j. */
  function RefillDraws(g: Grid, starts: seq<int>, ends: seq<int>, j: int): (n: nat)
    requires IsGrid(g) && AreRingIndices(starts, ends) && 0 <= j <= Cols
    decreases j
  {
    if j == 0 then 0
    else RefillDraws(g, starts, ends, j - 1) +
         (if IsIdle(starts, ends, j - 1) then EmptyCount(g, j - 1, 0) else 0)
  }

  /** The refill loop's state after rows Rows - 1 down to row + 1 of column col: their gems enqueued, one draw each. */
  predicate RefilledRows(g: Grid, col: int, row: int, slots0: seq<FallingGem>, end0: int, d0: nat,
                         rand: nat -> nat, numGemTypes: int, slots: seq<FallingGem>, end: int, d: nat)
    requires IsGrid(g) && 0 <= col < Cols && -1 <= row < Rows && numGemTypes > 0 && IsRing(slots0) && IsRingIndex(end0)
  {
    EnqueuedAll(slots0, end0, RefillGems(g, col, row + 1, rand, numGemTypes, d0), slots, end) &&
    d == d0 + |RefillGems(g, col, row + 1, rand, numGemTypes, d0)|
  }

  /** One turn of the refill loop: an Empty cell enqueues a gem of the next draw, any other cell nothing. */
  lemma RefillStep(g: Grid, col: int, row: int, slots0: seq<FallingGem>, end0: int, d0: nat,
                   rand: nat -> nat, numGemTypes: int, slots: seq<FallingGem>, end: int, d: nat)
    requires IsGrid(g) && 0 <= col < Cols && 0 <= row < Rows && numGemTypes > 0 && IsRing(slots0) && IsRingIndex(end0)
    requires RefilledRows(g, col, row, slots0, end0, d0, rand, numGemTypes, slots, end, d)
    ensures IsRing(slots) && IsRingIndex(end)
    ensures g[row][col] == Empty ==>
              var r := Enqueue(slots, end, FallingGem(row - Rows, RandColor(rand, numGemTypes, d)));
              RefilledRows(g, col, row - 1, slots0, end0, d0, rand, numGemTypes, r.0, r.1, d + 1)
    ensures g[row][col] != Empty ==> RefilledRows(g, col, row - 1, slots0, end0, d0, rand, numGemTypes, slots, end, d)
  {
    var below := RefillGems(g, col, row + 1, rand, numGemTypes, d0);
    if g[row][col] == Empty {
      var gem := FallingGem(row - Rows, RandColor(rand, numGemTypes, d));
      assert RefillGems(g, col, row, rand, numGemTypes, d0) == below + [gem];
      EnqueueAllSnoc(slots0, end0, below, gem);
    }
  }

  /** A column's ring and tail after the refill: the refill gems enqueued when the column is idle, as it was otherwise. */
  function RefillResult(g: Grid, col: int, slots: seq<FallingGem>, end: int, idle: bool,
                        rand: nat -> nat, numGemTypes: int, draw: nat): (r: (seq<FallingGem>, int))
    requires IsGrid(g) && 0 <= col < Cols && numGemTypes > 0 && IsRing(slots) && IsRingIndex(end)
    ensures IsRing(r.0) && IsRingIndex(r.1)
  {
    if idle then EnqueueAll(slots, end, RefillGems(g, col, 0, rand, numGemTypes, draw)) else (slots, end)
  }

  /**
   * An idle column's queue after the refill holds exactly the refill gems,
   * bottom row first: there are at most Rows of them, so the ring does not
   * overflow.
   */
  lemma RefillFillsIdleColumn(g: Grid, col: int, slots: seq<FallingGem>, start: int, end: int,
                              rand: nat -> nat, numGemTypes: int, draw: nat)
    requires IsGrid(g) && 0 <= col < Cols && numGemTypes > 0
    requires IsRing(slots) && IsRingIndex(start) && IsRingIndex(end) && PendingCount(start, end) == 0
    ensures var r := EnqueueAll(slots, end, RefillGems(g, col, 0, rand, numGemTypes, draw));
            Pending(r.0, start, r.1) == RefillGems(g, col, 0, rand, numGemTypes, draw)
  {
    var gems := RefillGems(g, col, 0, rand, numGemTypes, draw);
    RefillGemsCount(g, col, 0, rand, numGemTypes, draw);
    EnqueueAllAppends(slots, start, end, gems);
    assert Pending(slots, start, end) == [];
  }

  /** The draw counter when the refill reaches column j, having started at d0. */
  function DrawsBefore(g: Grid, starts: seq<int>, e0: seq<int>, d0: nat, j: int): nat
    requires IsGrid(g) && AreRingIndices(starts, e0) && 0 <= j <= Cols
  {
    d0 + RefillDraws(g, starts, e0, j)
  }

  /** Column j's ring and tail after the refill, with the draws of the idle columns before it already made. */
  predicate RefilledColumn(g: Grid, starts: seq<int>, f0: seq<seq<FallingGem>>, e0: seq<int>, d0: nat,
                         rand: nat -> nat, numGemTypes: int, fj: seq<FallingGem>, ej: int, j: int)
    requires IsGrid(g) && numGemTypes > 0 && 0 <= j < Cols
    requires AreRingIndices(starts, e0) && AreRings(f0, e0)
  {
    var r := RefillResult(g, j, f0[j], e0[j], IsIdle(starts, e0, j), rand, numGemTypes, DrawsBefore(g, starts, e0, d0, j));
    fj == r.0 && ej == r.1
  }

  /** The refill's state after the columns before col: each has its RefillResult, the rest are as they were. */
  predicate RefilledUpTo(g: Grid, starts: seq<int>, f0: seq<seq<FallingGem>>, e0: seq<int>, d0: nat,
                         rand: nat -> nat, numGemTypes: int, f: seq<seq<FallingGem>>, e: seq<int>, d: nat, col: int)
    requires IsGrid(g) && numGemTypes > 0 && 0 <= col <= Cols
    requires AreRingIndices(starts, e0) && AreRings(f0, e0)
  {
    |f| == Cols && |e| == RowsPlusOne &&
    d == DrawsBefore(g, starts, e0, d0, col) &&
    (forall j :: 0 <= j < col ==>
       RefilledColumn(g, starts, f0, e0, d0, rand, numGemTypes, f[j], e[j], j)) &&
    (forall j :: col <= j < Cols ==> f[j] == f0[j]) &&
    (forall j :: col <= j < RowsPlusOne ==> e[j] == e0[j])
  }

  /** Column col refilled from its state before the refill, with the draws the earlier columns left, is RefilledColumn. */
  lemma RefilledColumnHere(g: Grid, starts: seq<int>, f0: seq<seq<FallingGem>>, e0: seq<int>, d0: nat,
                           rand: nat -> nat, numGemTypes: int, fc: seq<FallingGem>, ec: int, idle: bool, d: nat, col: int)
    requires IsGrid(g) && numGemTypes > 0 && 0 <= col < Cols
    requires AreRingIndices(starts, e0) && AreRings(f0, e0)
    requires fc == f0[col] && ec == e0[col] && idle == IsIdle(starts, e0, col) && d == DrawsBefore(g, starts, e0, d0, col)
    ensures RefilledColumn(g, starts, f0, e0, d0, rand, numGemTypes,
                           RefillResult(g, col, fc, ec, idle, rand, numGemTypes, d).0,
                           RefillResult(g, col, fc, ec, idle, rand, numGemTypes, d).1, col)
  {
  }

  /** Refilling column col, from the state RefilledUpTo describes, moves it on to the next column. */
  lemma RefilledUpToStep(g: Grid, starts: seq<int>, f0: seq<seq<FallingGem>>, e0: seq<int>, d0: nat,
                         rand: nat -> nat, numGemTypes: int, f: seq<seq<FallingGem>>, e: seq<int>, d: nat, col: int)
    requires IsGrid(g) && numGemTypes > 0 && 0 <= col < Cols
    requires AreRingIndices(starts, e0) && AreRings(f0, e0)
    requires RefilledUpTo(g, starts, f0, e0, d0, rand, numGemTypes, f, e, d, col)
    ensures IsRing(f[col]) && IsRingIndex(e[col]) && AreRingIndices(starts, e)
    ensures var idle := IsIdle(starts, e, col);
            var r := RefillResult(g, col, f[col], e[col], idle, rand, numGemTypes, d);
            RefilledUpTo(g, starts, f0, e0, d0, rand, numGemTypes, f[col := r.0], e[col := r.1],
                         d + (if idle then EmptyCount(g, col, 0) else 0), col + 1)
  {
    var idle := IsIdle(starts, e, col);
    var r := RefillResult(g, col, f[col], e[col], idle, rand, numGemTypes, d);
    assert f[col] == f0[col] && e[col] == e0[col] && idle == IsIdle(starts, e0, col);
    DrawsBeforeStep(g, starts, e0, d0, col);
    RefilledColumnsStep(g, starts, f0, e0, d0, rand, numGemTypes, f, e, d, col, f[col := r.0], e[col := r.1]);
  }

  /** The idle column col adds its Empty cells to the draws before it. */
  lemma DrawsBeforeStep(g: Grid, starts: seq<int>, e0: seq<int>, d0: nat, col: int)
    requires IsGrid(g) && AreRingIndices(starts, e0) && 0 <= col < Cols
    ensures DrawsBefore(g, starts, e0, d0, col + 1) ==
            DrawsBefore(g, starts, e0, d0, col) + (if IsIdle(starts, e0, col) then EmptyCount(g, col, 0) else 0)
  {
  }

  /** The columns part of RefilledUpToStep: column col joins the refilled ones. */
  lemma RefilledColumnsStep(g: Grid, starts: seq<int>, f0: seq<seq<FallingGem>>, e0: seq<int>, d0: nat,
                            rand: nat -> nat, numGemTypes: int, f: seq<seq<FallingGem>>, e: seq<int>, d: nat, col: int,
                            f': seq<seq<FallingGem>>, e': seq<int>)
    requires IsGrid(g) && numGemTypes > 0 && 0 <= col < Cols
    requires AreRingIndices(starts, e0) && AreRings(f0, e0)
    requires RefilledUpTo(g, starts, f0, e0, d0, rand, numGemTypes, f, e, d, col)
    requires var r := RefillResult(g, col, f0[col], e0[col], IsIdle(starts, e0, col), rand, numGemTypes, d);
             f' == f[col := r.0] && e' == e[col := r.1]
    ensures forall j :: 0 <= j < col + 1 ==> RefilledColumn(g, starts, f0, e0, d0, rand, numGemTypes, f'[j], e'[j], j)
  {
    var r := RefillResult(g, col, f0[col], e0[col], IsIdle(starts, e0, col), rand, numGemTypes, d);
    RefilledColumnHere(g, starts, f0, e0, d0, rand, numGemTypes, f0[col], e0[col], IsIdle(starts, e0, col), d, col);
    forall j | 0 <= j < col + 1
      ensures RefilledColumn(g, starts, f0, e0, d0, rand, numGemTypes, f'[j], e'[j], j)
    {
      if j < col {
        assert f'[j] == f[j] && e'[j] == e[j];
      } else {
        assert f'[j] == r.0 && e'[j] == r.1;
      }
    }
  }

  // ---------------------------------------------------------------------------
  // The initial drop in init

  /**
   * The gems init enqueues into column col: the sampled colours, bottom row
   * first, each starting 2 * Rows + col rows above its own cell, so that each
   * column starts further up than the one before it.
   */
  function InitialDrops(g: Grid, col: int): (gems: seq<FallingGem>)
    requires IsGrid(g) && 0 <= col < Cols
    ensures |gems| == Rows
  {
    seq(Rows, k requires 0 <= k < Rows => FallingGem(Rows - 1 - k - 2 * Rows - col, g[Rows - 1 - k][col]))
  }

  /** The initial gems all start above the board, bottom row first, and carry the sampled colours. */
  lemma InitialDropsAboveBoard(g: Grid, col: int, numGemTypes: int)
    requires IsGrid(g) && 0 <= col < Cols
    requires forall i :: 0 <= i < Rows ==> 0 <= g[i][col] < numGemTypes
    ensures AreQueueable(InitialDrops(g, col), numGemTypes)
    ensures RowsFall(InitialDrops(g, col))
    ensures forall k :: 0 <= k < Rows ==> InitialDrops(g, col)[k].row < 0
    ensures forall i :: 0 <= i < Rows ==> InitialDrops(g, col)[Rows - 1 - i].color == g[i][col]
  {
  }

  /** Enqueueing a column's initial drops into a fresh ring leaves exactly those Rows gems pending, in order. */
  lemma InitialQueueHoldsDrops(g: Grid, col: int)
    requires IsGrid(g) && 0 <= col < Cols
    ensures PendingCount(0, EnqueueAll(FreshRing(), 0, InitialDrops(g, col)).1) == Rows
    ensures Pending(EnqueueAll(FreshRing(), 0, InitialDrops(g, col)).0, 0, EnqueueAll(FreshRing(), 0, InitialDrops(g, col)).1) == InitialDrops(g, col)
  {
    assert Pending(FreshRing(), 0, 0) == [];
    EnqueueAllAppends(FreshRing(), 0, 0, InitialDrops(g, col));
  }

  /** How many of column j's initial drops init has enqueued when its bottom-up, left-to-right walk reaches cell (row, col). */
  function DropsDone(row: int, col: int, j: int): int
  {
    Rows - 1 - row + (if j < col then 1 else 0)
  }

  /** Column j's ring and tail once its first n initial drops went into a fresh ring at tail 0. */
  predicate DroppedColumn(g0: Grid, fj: seq<FallingGem>, ej: int, j: int, n: int)
    requires IsGrid(g0) && 0 <= j < Cols && 0 <= n <= Rows
  {
    var r := EnqueueAll(FreshRing(), 0, InitialDrops(g0, j)[..n]);
    fj == r.0 && ej == r.1
  }

  /** The rings and tails of init's drop loop at cell (row, col): each column holds its drops so far. */
  predicate DroppedUpTo(g0: Grid, f: seq<seq<FallingGem>>, e: seq<int>, row: int, col: int)
    requires IsGrid(g0) && -1 <= row < Rows && 0 <= col <= Cols && (row == -1 ==> col == 0)
  {
    |f| == Cols && |e| == RowsPlusOne && e[Cols] == 0 &&
    forall j :: 0 <= j < Cols ==> DroppedColumn(g0, f[j], e[j], j, DropsDone(row, col, j))
  }

  /** Enqueueing cell (row, col)'s gem moves the drop loop on by one cell. */
  lemma DropStep(g0: Grid, f: seq<seq<FallingGem>>, e: seq<int>, row: int, col: int, gem: FallingGem)
    requires IsGrid(g0) && 0 <= row < Rows && 0 <= col < Cols
    requires DroppedUpTo(g0, f, e, row, col)
    requires gem == FallingGem(row - 2 * Rows - col, g0[row][col])
    ensures IsRing(f[col]) && IsRingIndex(e[col])
    ensures DroppedUpTo(g0, f[col := Enqueue(f[col], e[col], gem).0], e[col := Enqueue(f[col], e[col], gem).1], row, col + 1)
  {
    var n := DropsDone(row, col, col);
    var drops := InitialDrops(g0, col);
    assert drops[..n + 1] == drops[..n] + [gem];
    EnqueueAllSnoc(FreshRing(), 0, drops[..n], gem);
    var f', e' := f[col := Enqueue(f[col], e[col], gem).0], e[col := Enqueue(f[col], e[col], gem).1];
    forall j | 0 <= j < Cols
      ensures DroppedColumn(g0, f'[j], e'[j], j, DropsDone(row, col + 1, j))
    {
      if j != col {
        assert DropsDone(row, col + 1, j) == DropsDone(row, col, j);
      }
    }
  }

  /** Once the walk has passed the top row every column holds all Rows of its drops, in order. */
  lemma DroppedAll(g0: Grid, f: seq<seq<FallingGem>>, e: seq<int>)
    requires IsGrid(g0) && DroppedUpTo(g0, f, e, -1, 0)
    ensures forall j :: 0 <= j < Cols ==>
              IsRing(f[j]) && IsRingIndex(e[j]) && PendingCount(0, e[j]) == Rows && Pending(f[j], 0, e[j]) == InitialDrops(g0, j)
  {
    forall j | 0 <= j < Cols
      ensures IsRing(f[j]) && IsRingIndex(e[j]) && PendingCount(0, e[j]) == Rows && Pending(f[j], 0, e[j]) == InitialDrops(g0, j)
    {
      assert DroppedColumn(g0, f[j], e[j], j, DropsDone(-1, 0, j));
      assert InitialDrops(g0, j)[..Rows] == InitialDrops(g0, j);
      InitialQueueHoldsDrops(g0, j);
    }
  }

  /** The grid during init's drop loop at cell (row, col): the cells already passed are Empty, the rest still hold the sampled colours. */
  predicate EmptiedFrom(g0: Grid, g: Grid, row: int, col: int)
    requires IsGrid(g0) && IsGrid(g)
  {
    forall i, j :: 0 <= i < Rows && 0 <= j < Cols ==>
      g[i][j] == if i > row || (i == row && j < col) then Empty else g0[i][j]
  }

  // ---------------------------------------------------------------------------
  // What an operation leaves besides the grid

  /**
   * The queues' contents and tails, the colour source's draw counter, the
   * score and the number of erase sounds played: the state solveBoardAtPos
   * and solveFallAtPos change besides the grid.
   */
  datatype Feed = Feed(rings: seq<seq<FallingGem>>, ends: seq<int>, draws: nat, score: int, sounds: nat)

  predicate IsFeed(q: Feed)
  {
    AreRings(q.rings, q.ends)
  }

  /**
   * The feed after solveBoardAtPos at (r, c) on g: each column has received
   * its SolveBatch, the draws are counted, the chain is scored and one sound
   * is played when anything was erased.
   */
  function SolvedFeed(g: Grid, r: int, c: int, q: Feed, rand: nat -> nat, numGemTypes: int): (result: Feed)
    requires IsGrid(g) && InGrid(r, c) && IsFeed(q) && numGemTypes > 0
    ensures IsFeed(result)
    ensures forall j :: 0 <= j < Cols ==>
              result.rings[j] == EnqueueAll(q.rings[j], q.ends[j], SolveBatch(g, r, c, j, rand, numGemTypes, q.draws)).0 &&
              result.ends[j] == EnqueueAll(q.rings[j], q.ends[j], SolveBatch(g, r, c, j, rand, numGemTypes, q.draws)).1
    ensures forall j :: Cols <= j < RowsPlusOne ==> result.ends[j] == q.ends[j]
    ensures result.score >= q.score && result.draws >= q.draws
    ensures result.score > q.score <==> Erases(g, r, c)
    ensures result.sounds == q.sounds + (if Erases(g, r, c) then 1 else 0)
  {
    Feed(seq(Cols, j requires 0 <= j < Cols =>
           EnqueueAll(q.rings[j], q.ends[j], SolveBatch(g, r, c, j, rand, numGemTypes, q.draws)).0),
         seq(RowsPlusOne, j requires 0 <= j < RowsPlusOne =>
           if j < Cols then EnqueueAll(q.rings[j], q.ends[j], SolveBatch(g, r, c, j, rand, numGemTypes, q.draws)).1 else q.ends[j]),
         q.draws + SolveDraws(g, r, c),
         q.score + ChainScore(VerticalLen(g, r, c), HorizontalLen(g, r, c)),
         q.sounds + (if Erases(g, r, c) then 1 else 0))
  }

  /** Once every column of the run is lifted, drawn for and scored, the state is SolvedFeed's. */
  lemma StagesMakeSolvedFeed(g: Grid, r: int, c: int, j: int, q: Feed, rand: nat -> nat, numGemTypes: int, after: Feed)
    requires IsGrid(g) && InGrid(r, c) && IsFeed(q) && numGemTypes > 0
    requires if EraseHorizontal(g, r, c) then j == ColEnd(g, r, c) + 1 else j == ColStart(g, r, c)
    requires after.rings == StageQueues(q.rings, q.ends, g, r, c, j, rand, numGemTypes, q.draws)
    requires after.ends == StageEnds(q.rings, q.ends, g, r, c, j, rand, numGemTypes, q.draws)
    requires after.draws == q.draws + SolveDraws(g, r, c)
    requires after.score == q.score + ChainScore(VerticalLen(g, r, c), HorizontalLen(g, r, c))
    requires after.sounds == q.sounds + (if Erases(g, r, c) then 1 else 0)
    ensures after == SolvedFeed(g, r, c, q, rand, numGemTypes)
  {
    StagesComplete(q.rings, q.ends, g, r, c, j, rand, numGemTypes, q.draws);
  }

  /** The feed after solveFallAtPos at (r, c) on g: column c has received its FallBatch and its draws are counted; nothing is scored. */
  function FallFeed(g: Grid, r: int, c: int, q: Feed, rand: nat -> nat, numGemTypes: int): (result: Feed)
    requires IsGrid(g) && InGrid(r, c) && IsFeed(q) && numGemTypes > 0
    ensures IsFeed(result)
    ensures result.score == q.score && result.sounds == q.sounds && result.draws >= q.draws
    ensures forall j :: 0 <= j < Cols && j != c ==> result.rings[j] == q.rings[j]
    ensures forall j :: 0 <= j < RowsPlusOne && j != c ==> result.ends[j] == q.ends[j]
  {
    var (ring, end) := EnqueueAll(q.rings[c], q.ends[c], FallBatch(g, r, c, rand, numGemTypes, q.draws));
    Feed(q.rings[c := ring], q.ends[c := end], q.draws + FallDraws(g, r, c), q.score, q.sounds)
  }

  /** With no gap below (r, c), solveFallAtPos leaves the feed as it was. */
  lemma FallFeedWithoutGap(g: Grid, r: int, c: int, q: Feed, rand: nat -> nat, numGemTypes: int)
    requires IsGrid(g) && InGrid(r, c) && IsFeed(q) && numGemTypes > 0 && GapBelow(g, r, c) == 0
    ensures FallFeed(g, r, c, q, rand, numGemTypes) == q
  {
    assert q.rings[c := q.rings[c]] == q.rings;
    assert q.ends[c := q.ends[c]] == q.ends;
  }

  /** A feed that received the gravity loop over the gap below (r, c) in column c is FallFeed. */
  lemma LiftMakesFallFeed(g: Grid, r: int, c: int, q: Feed, rand: nat -> nat, numGemTypes: int, after: Feed)
    requires IsGrid(g) && InGrid(r, c) && IsFeed(q) && numGemTypes > 0 && GapBelow(g, r, c) > 0
    requires var lifted := LiftedGems(g, c, r, -(GapBelow(g, r, c) as int), rand, numGemTypes, q.draws);
             after.rings == q.rings[c := EnqueueAll(q.rings[c], q.ends[c], lifted).0] &&
             after.ends == q.ends[c := EnqueueAll(q.rings[c], q.ends[c], lifted).1]
    requires after.draws == q.draws + LiftedDraws(g, c, r, -(GapBelow(g, r, c) as int))
    requires after.score == q.score && after.sounds == q.sounds
    ensures after == FallFeed(g, r, c, q, rand, numGemTypes)
  {
  }

  /** Without a run of three through (r, c), solveBoardAtPos leaves the feed as it was. */
  lemma SolvedFeedWithoutErase(g: Grid, r: int, c: int, q: Feed, rand: nat -> nat, numGemTypes: int)
    requires IsGrid(g) && InGrid(r, c) && IsFeed(q) && numGemTypes > 0 && !Erases(g, r, c)
    ensures SolvedFeed(g, r, c, q, rand, numGemTypes) == q
  {
    var result := SolvedFeed(g, r, c, q, rand, numGemTypes);
    forall j | 0 <= j < Cols
      ensures result.rings[j] == q.rings[j] && result.ends[j] == q.ends[j]
    {
      NoEraseNoBatch(g, r, c, j, rand, numGemTypes, q.draws);
    }
    assert result.rings == q.rings;
    assert result.ends == q.ends;
  }
}
