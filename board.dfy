// The board simulation itself (SDLGame/Board.h, SDLGame/Board.cpp): the grid
// of cells, the pool of swapping gems and their pairs, the per-column
// falling-gem ring buffers, the selection state machine and the score and
// clock. The methods that do one board operation (SolveBoardAtPos,
// SolveFallAtPos, SettleGem, FallTick, Refill and their parts) are proved to
// leave the board as the pure functions of Chains, Batches, Falling, FallQueue
// and SwapPool describe; the frame-level methods (UpdateSwappingGems,
// UpdateFallingColumn, UpdateFallingGems, MoveGems, Update) are proved only to
// keep the board's invariants and a few facts each.
module GameBoard {
  import opened BoardConfig
  import opened Geometry
  import Matrix
  import opened FallQueue
  import opened Chains
  import opened Batches
  import opened SwapPool
  import opened Selection
  import opened Falling

  /** Writing a ring or tail slot twice keeps only the second write. */
  lemma UpdateOverwrites<T>(s: seq<T>, i: int, a: T, b: T)
    requires 0 <= i < |s|
    ensures s[i := a][i := b] == s[i := b]
  {
  }

  class Board {
    // Fixed at construction
    const mat: Matrix.Matrix<int>
    const numGemTypes: int
    const layout: Layout
    /** The colour source: rand() on its n-th call returns rand(n). */
    const rand: nat -> nat

    // The swap pool
    var swappingGems: seq<SwappingGem>
    var swappingGemPairs: seq<SwappingGemsPair>

    // One ring buffer of RowsPlusOne slots per column, with head and tail indices
    var fallingGems: seq<seq<FallingGem>>
    var fallingGemsStartIdx: seq<int>
    var fallingGemsEndIdx: seq<int>

    // Selection
    var boardState: BoardState
    var lastClickedRow: int
    var lastClickedCol: int
    var lastClickedColor: int

    var score: int
    var timeMs: int
    var gameRunning: bool
    var playerHasMoved: bool

    /** How many times rand() has been called since construction. */
    var draws: nat
    /** How many times the erase and move sounds were requested. */
    var erasedSounds: nat
    var movedSounds: nat

    // -------------------------------------------------------------------------
    // Invariants

    /** The grid is Rows x Cols, the gem count fits int8_t colours and allows a match-free board, the layout maps the board onto the grid. */
    ghost predicate Shape()
      reads mat, mat.data
    {
      mat.Valid() && mat.numRows == Rows && mat.numCols == Cols &&
      3 <= numGemTypes <= 128 && layout.WellFormed()
    }

    /** The grid as a snapshot. */
    ghost function Grid(): (g: Grid)
      reads mat, mat.data
      requires Shape()
      ensures IsGrid(g)
    {
      mat.cells
    }

    ghost predicate GridValid()
      reads mat, mat.data
    {
      Shape() && AllValidColors(Grid(), numGemTypes)
    }

    /** One ring of RowsPlusOne slots per column, head and tail arrays of RowsPlusOne ring indices, every slot a gem that can land. */
    ghost predicate QueuesValid()
      reads this`fallingGems, this`fallingGemsStartIdx, this`fallingGemsEndIdx
    {
      |fallingGems| == Cols && AreRingIndices(fallingGemsStartIdx, fallingGemsEndIdx) &&
      (forall j :: 0 <= j < Cols ==> IsRing(fallingGems[j])) &&
      (forall j :: 0 <= j < Cols ==> AreQueueable(fallingGems[j], numGemTypes))
    }

    /** Pair and gem indices point at each other, and every swapping gem heads for a board cell carrying a valid cell colour. */
    ghost predicate PoolValid()
      reads this`swappingGems, this`swappingGemPairs
    {
      Linked(swappingGems, swappingGemPairs) &&
      forall k :: 0 <= k < |swappingGems| ==>
        InGrid(swappingGems[k].destRow, swappingGems[k].destCol) && ValidColor(swappingGems[k].color, numGemTypes)
    }

    /** Between frames every gem still in the pool is moving and no pair has finished. */
    ghost predicate Quiescent()
      reads this`swappingGems, this`swappingGemPairs
    {
      AllMoving(swappingGems) && NoneFinished(swappingGemPairs)
    }

    /** In the second selection state the captured cell is on the board and its remembered colour is a gem colour. */
    ghost predicate SelectionValid()
      reads this`boardState, this`lastClickedRow, this`lastClickedCol, this`lastClickedColor
    {
      boardState == SecondSelection ==> InGrid(lastClickedRow, lastClickedCol) && 0 <= lastClickedColor < numGemTypes
    }

    ghost predicate Valid()
      reads this, mat, mat.data
    {
      GridValid() && QueuesValid() && PoolValid() && Quiescent() && SelectionValid() &&
      0 <= timeMs < Uint32Modulus
    }

    // -------------------------------------------------------------------------
    // Construction and init (Board.cpp:31-134)

    /** The state init leaves: nothing selected, no score or time, an Empty grid, no swap, and Rows gems above the board queued in every column. */
    ghost predicate Initialized()
      reads this, mat, mat.data
      requires Shape()
    {
      boardState == FirstSelection && lastClickedRow == -1 && lastClickedCol == -1 && lastClickedColor == -1 &&
      timeMs == 0 && score == 0 && !playerHasMoved &&
      swappingGems == [] && swappingGemPairs == [] &&
      (forall i, j :: 0 <= i < Rows && 0 <= j < Cols ==> Grid()[i][j] == Empty) &&
      |fallingGems| == Cols && AreRingIndices(fallingGemsStartIdx, fallingGemsEndIdx) &&
      forall j :: 0 <= j < Cols ==> IsRing(fallingGems[j]) && DropsQueued(fallingGems[j], fallingGemsStartIdx[j], fallingGemsEndIdx[j])
    }

    /** A column's queue holds Rows pending gems, all above the board. */
    ghost predicate DropsQueued(slots: seq<FallingGem>, start: int, end: int)
      requires IsRing(slots) && IsRingIndex(start) && IsRingIndex(end)
    {
      PendingCount(start, end) == Rows &&
      forall k :: 0 <= k < Rows ==> Pending(slots, start, end)[k].row < 0
    }

    /** The source's constructor stores the dimensions and calls init; the gem count and layout are fixed here. */
    constructor (numGemTypes: int, layout: Layout, rand: nat -> nat)
      requires 3 <= numGemTypes <= 128 && layout.WellFormed()
      ensures Valid() && Initialized()
      ensures this.numGemTypes == numGemTypes && this.layout == layout && this.rand == rand
      ensures !gameRunning && draws == 0 && erasedSounds == 0 && movedSounds == 0
    {
      this.mat := new Matrix.Matrix(Rows, Cols, Empty);
      this.numGemTypes := numGemTypes;
      this.layout := layout;
      this.rand := rand;
      swappingGems, swappingGemPairs := [], [];
      fallingGems := [];
      fallingGemsStartIdx, fallingGemsEndIdx := [], [];
      boardState := FirstSelection;
      lastClickedRow, lastClickedCol, lastClickedColor := -1, -1, -1;
      score, timeMs := 0, 0;
      gameRunning, playerHasMoved := false, false;
      draws, erasedSounds, movedSounds := 0, 0, 0;
      new;
      assert Shape();
      ghost var sampled := Init();
    }

    /**
     * init: reset the selection, score, clock and pools; give every column a
     * fresh ring with head and tail 0; sample a match-free board; then queue
     * every sampled gem above the board, bottom row first, and empty the grid.
     * `sampled` is the board the first pass produced.
     */
    method Init() returns (ghost sampled: Grid)
      requires Shape()
      modifies this`boardState, this`lastClickedRow, this`lastClickedCol, this`lastClickedColor, this`timeMs, this`score,
               this`swappingGems, this`swappingGemPairs, this`fallingGems, this`fallingGemsStartIdx, this`fallingGemsEndIdx,
               this`playerHasMoved, mat, mat.data
      ensures Valid() && Initialized()
      ensures gameRunning == old(gameRunning) && draws == old(draws) && erasedSounds == old(erasedSounds) && movedSounds == old(movedSounds)
      ensures IsGrid(sampled) && NoRunOfThree(sampled)
      ensures forall i, j :: 0 <= i < Rows && 0 <= j < Cols ==> 0 <= sampled[i][j] < numGemTypes
      ensures forall j :: 0 <= j < Cols ==> Pending(fallingGems[j], fallingGemsStartIdx[j], fallingGemsEndIdx[j]) == InitialDrops(sampled, j)
    {
      ResetState();
      sampled := FillBoard();
    }

    /** The resets at the head of init (Board.cpp:60-94): selection, clock, score, pools, and a fresh ring with head and tail 0 per column. */
    method ResetState()
      requires Shape()
      modifies this`boardState, this`lastClickedRow, this`lastClickedCol, this`lastClickedColor, this`timeMs, this`score,
               this`swappingGems, this`swappingGemPairs, this`fallingGems, this`fallingGemsStartIdx, this`fallingGemsEndIdx,
               this`playerHasMoved
      ensures boardState == FirstSelection && lastClickedRow == -1 && lastClickedCol == -1 && lastClickedColor == -1
      ensures timeMs == 0 && score == 0 && !playerHasMoved && swappingGems == [] && swappingGemPairs == []
      ensures fallingGems == seq(Cols, j => FreshRing())
      ensures fallingGemsStartIdx == seq(RowsPlusOne, j => 0) && fallingGemsEndIdx == seq(RowsPlusOne, j => 0)
      ensures QueuesValid() && PoolValid() && Quiescent() && SelectionValid()
    {
      boardState := FirstSelection;
      lastClickedRow, lastClickedCol, lastClickedColor := -1, -1, -1;
      timeMs, score := 0, 0;
      swappingGemPairs, swappingGems := [], [];
      fallingGems := seq(Cols, j => FreshRing());
      fallingGemsStartIdx := seq(RowsPlusOne, j => 0);
      fallingGemsEndIdx := seq(RowsPlusOne, j => 0);
      playerHasMoved := false;
    }

    /** The two passes of init over the freshly reset queues: the grid ends Empty and each column queues its sampled drops. */
    method FillBoard() returns (ghost sampled: Grid)
      requires Shape() && QueuesValid() && fallingGems == seq(Cols, j => FreshRing())
      requires fallingGemsStartIdx == seq(RowsPlusOne, j => 0) && fallingGemsEndIdx == seq(RowsPlusOne, j => 0)
      modifies mat, mat.data, this`fallingGems, this`fallingGemsEndIdx
      ensures GridValid() && QueuesValid()
      ensures forall i, j :: 0 <= i < Rows && 0 <= j < Cols ==> Grid()[i][j] == Empty
      ensures IsGrid(sampled) && NoRunOfThree(sampled)
      ensures forall i, j :: 0 <= i < Rows && 0 <= j < Cols ==> 0 <= sampled[i][j] < numGemTypes
      ensures forall j :: 0 <= j < Cols ==> DropsQueued(fallingGems[j], fallingGemsStartIdx[j], fallingGemsEndIdx[j])
      ensures forall j :: 0 <= j < Cols ==> Pending(fallingGems[j], fallingGemsStartIdx[j], fallingGemsEndIdx[j]) == InitialDrops(sampled, j)
    {
      SampleBoard();
      sampled := Grid();
      DropSampled();
      QueueDrops(sampled);
      assert forall i, j :: 0 <= i < Rows && 0 <= j < Cols ==> Grid()[i][j] == Empty;
    }

    /** After the second pass every column's queue, headed at 0, holds exactly that column's initial drops. */
    method QueueDrops(ghost sampled: Grid)
      requires Shape() && QueuesValid() && IsGrid(sampled)
      requires forall i, j :: 0 <= i < Rows && 0 <= j < Cols ==> 0 <= sampled[i][j] < numGemTypes
      requires fallingGemsStartIdx == seq(RowsPlusOne, j => 0) && DroppedUpTo(sampled, fallingGems, fallingGemsEndIdx, -1, 0)
      ensures forall j :: 0 <= j < Cols ==> DropsQueued(fallingGems[j], fallingGemsStartIdx[j], fallingGemsEndIdx[j])
      ensures forall j :: 0 <= j < Cols ==> Pending(fallingGems[j], fallingGemsStartIdx[j], fallingGemsEndIdx[j]) == InitialDrops(sampled, j)
    {
      DroppedAll(sampled, fallingGems, fallingGemsEndIdx);
      forall j | 0 <= j < Cols
        ensures DropsQueued(fallingGems[j], fallingGemsStartIdx[j], fallingGemsEndIdx[j])
      {
        assert fallingGemsStartIdx[j] == 0;
        InitialDropsAboveBoard(sampled, j, numGemTypes);
      }
    }

    /** init's first pass (Board.cpp:98-122): every cell, in row-major order, gets a colour that passes the run check. */
    method SampleBoard()
      requires Shape()
      modifies mat, mat.data
      ensures Shape() && NoRunOfThree(Grid())
      ensures forall i, j :: 0 <= i < Rows && 0 <= j < Cols ==> 0 <= Grid()[i][j] < numGemTypes
    {
      var row := 0;
      while row < Rows
        invariant 0 <= row <= Rows && Shape()
        invariant MatchFreeBefore(Grid(), row, 0, numGemTypes)
      {
        var col := 0;
        while col < Cols
          invariant 0 <= col <= Cols && Shape()
          invariant MatchFreeBefore(Grid(), row, col, numGemTypes)
        {
          SampleCell(row, col);
          col := col + 1;
        }
        assert MatchFreeBefore(Grid(), row + 1, 0, numGemTypes);
        row := row + 1;
      }
      MatchFreeComplete(Grid(), numGemTypes);
    }

    /**
     * The do/while of one cell (Board.cpp:104-120). The source redraws rand()
     * until the runs upward and leftward from the cell are shorter than three;
     * here the colour is any of those the loop can stop on, and checkLineChain
     * then confirms the loop's exit test.
     */
    method SampleCell(row: int, col: int)
      requires Shape() && InGrid(row, col) && MatchFreeBefore(Grid(), row, col, numGemTypes)
      modifies mat, mat.data
      ensures Shape()
      ensures 0 <= Grid()[row][col] < numGemTypes && Grid() == WithCell(old(Grid()), row, col, Grid()[row][col])
      ensures PassesInitCheck(Grid(), row, col)
      ensures MatchFreeBefore(Grid(), row, col + 1, numGemTypes)
    {
      ghost var g0 := Grid();
      var color := PickColor(row, col);
      MatchFreeStep(g0, row, col, color, numGemTypes);
      mat.Set(row, col, color);
      assert Grid() == WithCell(g0, row, col, color);
      var rowStart := CheckLineChain(row, col, false, false);
      var colStart := CheckLineChain(row, col, true, false);
      var eraseVertical := row - rowStart + 1 >= 3;
      var eraseHorizontal := col - colStart + 1 >= 3;
      PassingColorPassesCheck(Grid(), row, col);
      assert !eraseVertical && !eraseHorizontal;
    }

    /** A colour the rejection loop at (row, col) can stop on: it repeats neither the two cells to the left nor the two above. */
    method PickColor(row: int, col: int) returns (color: int)
      requires Shape() && InGrid(row, col)
      ensures 0 <= color < numGemTypes && PassingColor(Grid(), row, col, color)
    {
      var left1 := if col >= 1 then mat.Get(row, col - 1) else Empty;
      var left2 := if col >= 2 then mat.Get(row, col - 2) else Empty;
      var up1 := if row >= 1 then mat.Get(row - 1, col) else Empty;
      var up2 := if row >= 2 then mat.Get(row - 2, col) else Empty;
      PassingColorExists(Grid(), row, col, numGemTypes);
      ghost var passing :| 0 <= passing < numGemTypes && PassingColor(Grid(), row, col, passing);
      assert ClashesWithNone(passing, row >= 2, up1, up2, col >= 2, left1, left2);
      color :| 0 <= color < numGemTypes && ClashesWithNone(color, row >= 2, up1, up2, col >= 2, left1, left2);
      assert ClashesWithNone(color, row >= 2, up1, up2, col >= 2, left1, left2);
      assert col >= 2 ==> left1 == Grid()[row][col - 1] && left2 == Grid()[row][col - 2];
      assert row >= 2 ==> up1 == Grid()[row - 1][col] && up2 == Grid()[row - 2][col];
    }

    /** The colour differs from the pair above when there is one, and from the pair to the left when there is one. */
    predicate ClashesWithNone(color: int, hasUp: bool, up1: int, up2: int, hasLeft: bool, left1: int, left2: int)
    {
      !(hasLeft && left1 == color && left2 == color) && !(hasUp && up1 == color && up2 == color)
    }

    /**
     * init's second pass (Board.cpp:124-133): from the bottom row up, each
     * sampled gem is queued in its column 2 * Rows + col rows above its own
     * cell, and the cell is emptied.
     */
    method DropSampled()
      requires Shape() && forall i, j :: 0 <= i < Rows && 0 <= j < Cols ==> 0 <= Grid()[i][j] < numGemTypes
      requires QueuesValid() && fallingGems == seq(Cols, j => FreshRing()) && fallingGemsEndIdx == seq(RowsPlusOne, j => 0)
      modifies mat, mat.data, this`fallingGems, this`fallingGemsEndIdx
      ensures Shape() && QueuesValid()
      ensures EmptiedFrom(old(Grid()), Grid(), -1, 0)
      ensures DroppedUpTo(old(Grid()), fallingGems, fallingGemsEndIdx, -1, 0)
    {
      ghost var g0 := Grid();
      forall j | 0 <= j < Cols
        ensures DroppedColumn(g0, fallingGems[j], fallingGemsEndIdx[j], j, DropsDone(Rows - 1, 0, j))
      {
        assert InitialDrops(g0, j)[..0] == [];
      }
      var row := Rows - 1;
      while row >= 0
        invariant -1 <= row < Rows && Shape() && QueuesValid()
        invariant EmptiedFrom(g0, Grid(), row, 0)
        invariant DroppedUpTo(g0, fallingGems, fallingGemsEndIdx, row, 0)
      {
        var col := 0;
        while col < Cols
          invariant 0 <= col <= Cols && Shape() && QueuesValid()
          invariant EmptiedFrom(g0, Grid(), row, col)
          invariant DroppedUpTo(g0, fallingGems, fallingGemsEndIdx, row, col)
        {
          DropCell(row, col, g0);
          col := col + 1;
        }
        assert DroppedUpTo(g0, fallingGems, fallingGemsEndIdx, row - 1, 0) by {
          forall j | 0 <= j < Cols
            ensures DropsDone(row - 1, 0, j) == DropsDone(row, Cols, j)
          {
          }
        }
        row := row - 1;
      }
    }

    /** One cell of init's second pass: queue its gem, then empty it. */
    method DropCell(row: int, col: int, ghost g0: Grid)
      requires Shape() && QueuesValid() && InGrid(row, col) && IsGrid(g0)
      requires forall i, j :: 0 <= i < Rows && 0 <= j < Cols ==> 0 <= g0[i][j] < numGemTypes
      requires EmptiedFrom(g0, Grid(), row, col) && DroppedUpTo(g0, fallingGems, fallingGemsEndIdx, row, col)
      modifies mat, mat.data, this`fallingGems, this`fallingGemsEndIdx
      ensures Shape() && QueuesValid()
      ensures EmptiedFrom(g0, Grid(), row, col + 1) && DroppedUpTo(g0, fallingGems, fallingGemsEndIdx, row, col + 1)
    {
      var color := mat.Get(row, col);
      DropStep(g0, fallingGems, fallingGemsEndIdx, row, col, FallingGem(row - 2 * Rows - col, color));
      AddFallingGem(col, row - 2 * Rows - col, color);
      mat.Set(row, col, Empty);
    }

    // -------------------------------------------------------------------------
    // checkLineChain (Board.cpp:141-163)

    /** The last index of the run through the start cell in one direction, walking the live grid. */
    method CheckLineChain(startRow: int, startCol: int, axisX: bool, positiveDir: bool) returns (limit: int)
      requires Shape() && InGrid(startRow, startCol)
      ensures limit == RunLimit(Grid(), startRow, startCol, axisX, positiveDir)
    {
      ghost var g := Grid();
      ghost var start := StartIndex(startRow, startCol, axisX);
      var upperLimit := if axisX then Cols else Rows;
      var inc := if positiveDir then 1 else -1;
      limit := if axisX then startCol else startRow;
      var color := mat.Get(startRow, startCol);
      while true
        invariant 0 <= limit < upperLimit
        invariant if positiveDir then start <= limit else limit <= start
        invariant PassedCellsMatch(g, startRow, startCol, axisX, positiveDir, limit)
        decreases if positiveDir then upperLimit - limit else limit
      {
        limit := limit + inc;
        if (if positiveDir then limit >= upperLimit else limit < 0) {
          break;
        }
        var cell := if axisX then mat.Get(startRow, limit) else mat.Get(limit, startCol);
        if cell != color || !IsStaticGem(cell) {
          break;
        }
      }
      limit := limit - inc;
      RunLimitUnique(g, startRow, startCol, axisX, positiveDir, limit);
    }

    // -------------------------------------------------------------------------
    // addFallingGem (Board.cpp:589-593)

    /**
     * Enqueue a gem starting at `row` into column col's ring. The source takes
     * the pixel y of that row's tile centre; RowByPosOfTileCenter shows the
     * row is recovered from it exactly.
     */
    method AddFallingGem(col: int, row: int, color: int)
      requires QueuesValid() && 0 <= col < Cols
      requires row < Rows && 0 <= color < numGemTypes
      modifies this`fallingGems, this`fallingGemsEndIdx
      ensures QueuesValid()
      ensures fallingGems == old(fallingGems)[col := Enqueue(old(fallingGems[col]), old(fallingGemsEndIdx[col]), FallingGem(row, color)).0]
      ensures fallingGemsEndIdx == old(fallingGemsEndIdx)[col := Enqueue(old(fallingGems[col]), old(fallingGemsEndIdx[col]), FallingGem(row, color)).1]
    {
      var end := fallingGemsEndIdx[col];
      fallingGems := fallingGems[col := fallingGems[col][end := FallingGem(row, color)]];
      fallingGemsEndIdx := fallingGemsEndIdx[col := (end + 1) % RowsPlusOne];
    }

    // -------------------------------------------------------------------------
    // The gravity loop (Board.cpp:177-196, 218-237, 257-276)

    /**
     * Walk column col up from `top` to `limit`: each static gem is emptied and
     * enqueued from its own row; the walk stops at the first Empty or Locked
     * cell; above the board each row gets a gem of a fresh colour.
     */
    method LiftColumn(col: int, top: int, limit: int)
      requires GridValid() && QueuesValid()
      requires 0 <= col < Cols && -1 <= top < Rows && limit < 0
      modifies mat, mat.data, this`fallingGems, this`fallingGemsEndIdx, this`draws
      ensures GridValid() && QueuesValid()
      ensures Grid() == ColumnEmptied(old(Grid()), col, StaticTop(old(Grid()), col, top), top)
      ensures fallingGems == old(fallingGems)[col := EnqueueAll(old(fallingGems[col]), old(fallingGemsEndIdx[col]),
                LiftedGems(old(Grid()), col, top, limit, rand, numGemTypes, old(draws))).0]
      ensures fallingGemsEndIdx == old(fallingGemsEndIdx)[col := EnqueueAll(old(fallingGems[col]), old(fallingGemsEndIdx[col]),
                LiftedGems(old(Grid()), col, top, limit, rand, numGemTypes, old(draws))).1]
      ensures draws == old(draws) + LiftedDraws(old(Grid()), col, top, limit)
    {
      ghost var g0, f0, e0, d0 := Grid(), fallingGems, fallingGemsEndIdx, draws;
      LiftedUpToStart(g0, col, top, f0[col], e0[col], d0, rand, numGemTypes);
      var row := top;
      while row >= limit
        invariant limit - 1 <= row
        invariant LiftInv(col, top, row, g0, f0, e0, d0)
      {
        var stop := LiftStep(col, top, row, g0, f0, e0, d0);
        if stop {
          break;
        }
        row := row - 1;
      }
      LiftedUpToEnd(g0, col, top, limit, row, f0[col], e0[col], d0, rand, numGemTypes, Grid(), fallingGems[col], fallingGemsEndIdx[col], draws);
    }

    /** The gravity loop's state, with every other column's queue as it was. */
    ghost predicate LiftInv(col: int, top: int, row: int, g0: Grid, f0: seq<seq<FallingGem>>, e0: seq<int>, d0: nat)
      reads mat, mat.data, this`fallingGems, this`fallingGemsStartIdx, this`fallingGemsEndIdx, this`draws
    {
      GridValid() && QueuesValid() && 0 <= col < Cols && |f0| == Cols && |e0| == RowsPlusOne &&
      fallingGems == f0[col := fallingGems[col]] && fallingGemsEndIdx == e0[col := fallingGemsEndIdx[col]] &&
      LiftedUpTo(g0, col, top, row, f0[col], e0[col], d0, rand, numGemTypes, Grid(), fallingGems[col], fallingGemsEndIdx[col], draws)
    }

    /** One turn of the gravity loop: it either stops at `row` or moves the loop state one row up. */
    method LiftStep(col: int, top: int, row: int, ghost g0: Grid, ghost f0: seq<seq<FallingGem>>, ghost e0: seq<int>, ghost d0: nat)
      returns (stop: bool)
      requires LiftInv(col, top, row, g0, f0, e0, d0)
      modifies mat, mat.data, this`fallingGems, this`fallingGemsEndIdx, this`draws
      ensures stop ==> LiftInv(col, top, row, g0, f0, e0, d0) && row >= 0 && !IsStaticGem(g0[row][col])
      ensures !stop ==> LiftInv(col, top, row - 1, g0, f0, e0, d0)
    {
      if row >= 0 {
        stop := LiftOnBoard(col, top, row, g0, f0, e0, d0);
      } else {
        LiftAboveBoard(col, top, row, g0, f0, e0, d0);
        stop := false;
      }
    }

    /** On the board: an Empty or Locked cell stops the walk; a gem is taken off the grid and enqueued from its row. */
    method LiftOnBoard(col: int, top: int, row: int, ghost g0: Grid, ghost f0: seq<seq<FallingGem>>, ghost e0: seq<int>, ghost d0: nat)
      returns (stop: bool)
      requires LiftInv(col, top, row, g0, f0, e0, d0) && row >= 0
      modifies mat, mat.data, this`fallingGems, this`fallingGemsEndIdx
      ensures stop ==> LiftInv(col, top, row, g0, f0, e0, d0) && !IsStaticGem(g0[row][col])
      ensures !stop ==> LiftInv(col, top, row - 1, g0, f0, e0, d0)
    {
      ghost var g, q, e := Grid(), fallingGems[col], fallingGemsEndIdx[col];
      LiftedUpToOnBoard(g0, col, top, row, f0[col], e0[col], d0, rand, numGemTypes, g, q, e, draws);
      var color := mat.Get(row, col);
      if color == Empty || color == Locked {
        return true;
      }
      ghost var r := Enqueue(q, e, FallingGem(row, color));
      mat.Set(row, col, Empty);
      assert Grid() == g[row := g[row][col := Empty]];
      ghost var f1, e1 := fallingGems, fallingGemsEndIdx;
      AddFallingGem(col, row, color);
      assert fallingGems == f1[col := r.0] && fallingGemsEndIdx == e1[col := r.1];
      UpdateOverwrites(f0, col, q, r.0);
      UpdateOverwrites(e0, col, e, r.1);
      stop := false;
    }

    /** Above the board every row yields a gem of a fresh colour. */
    method LiftAboveBoard(col: int, top: int, row: int, ghost g0: Grid, ghost f0: seq<seq<FallingGem>>, ghost e0: seq<int>, ghost d0: nat)
      requires LiftInv(col, top, row, g0, f0, e0, d0) && row < 0
      modifies this`fallingGems, this`fallingGemsEndIdx, this`draws
      ensures LiftInv(col, top, row - 1, g0, f0, e0, d0)
    {
      LiftedUpToAboveBoard(g0, col, top, row, f0[col], e0[col], d0, rand, numGemTypes, Grid(), fallingGems[col], fallingGemsEndIdx[col], draws);
      var color := RandColor(rand, numGemTypes, draws);
      draws := draws + 1;
      AddFallingGem(col, row, color);
    }

    // -------------------------------------------------------------------------
    // solveBoardAtPos (Board.cpp:198-296)

    /**
     * Erase the runs of three or more through (r, c), hand the static gems
     * above them to the falling queues, and add the score. Reports whether
     * anything was erased.
     */
    method SolveBoardAtPos(r: int, c: int) returns (erased: bool)
      requires GridValid() && QueuesValid() && InGrid(r, c)
      modifies mat, mat.data, this`fallingGems, this`fallingGemsEndIdx, this`draws, this`score, this`erasedSounds
      ensures GridValid() && QueuesValid()
      ensures erased == Erases(old(Grid()), r, c)
      ensures Grid() == SolvedGrid(old(Grid()), r, c)
      ensures IsFeed(old(CurrentFeed())) && CurrentFeed() == SolvedFeed(old(Grid()), r, c, old(CurrentFeed()), rand, numGemTypes)
    {
      ghost var g0, f0, e0, d0, q0 := Grid(), fallingGems, fallingGemsEndIdx, draws, CurrentFeed();
      var rowStart := CheckLineChain(r, c, false, false);
      var rowEnd := CheckLineChain(r, c, false, true);
      var colStart := CheckLineChain(r, c, true, false);
      var colEnd := CheckLineChain(r, c, true, true);
      var verticalGemChain := rowEnd - rowStart + 1;
      var horizontalGemChain := colEnd - colStart + 1;
      var eraseVertical := verticalGemChain >= 3;
      var eraseHorizontal := horizontalGemChain >= 3;
      SolveRuns(r, c, rowStart, rowEnd, colStart, colEnd, eraseVertical, eraseHorizontal);
      var gained := 0;
      if eraseVertical {
        gained := gained + verticalGemChain;
      }
      if eraseHorizontal {
        gained := gained + horizontalGemChain;
      }
      if eraseHorizontal && eraseVertical {
        gained := (gained - 1) * 2;
      }
      erased := eraseHorizontal || eraseVertical;
      if erased {
        erasedSounds := erasedSounds + 1;
      }
      score := score + gained;
      StagesMakeSolvedFeed(g0, r, c, SolvedColumns(g0, r, c), q0, rand, numGemTypes, CurrentFeed());
    }

    /** The queues, tails, draw counter, score and sound count as one Feed value. */
    ghost function CurrentFeed(): Feed
      reads this`fallingGems, this`fallingGemsEndIdx, this`draws, this`score, this`erasedSounds
    {
      Feed(fallingGems, fallingGemsEndIdx, draws, score, erasedSounds)
    }

    /** How far the horizontal loop of solveBoardAtPos gets: past the run when it erases, otherwise it does not start. */
    ghost function SolvedColumns(g: Grid, r: int, c: int): int
      requires IsGrid(g) && InGrid(r, c)
    {
      if EraseHorizontal(g, r, c) then ColEnd(g, r, c) + 1 else ColStart(g, r, c)
    }

    /** The erasing and lifting of solveBoardAtPos, once the four run limits are known. */
    method SolveRuns(r: int, c: int, rowStart: int, rowEnd: int, colStart: int, colEnd: int, eraseVertical: bool, eraseHorizontal: bool)
      requires GridValid() && QueuesValid() && InGrid(r, c)
      requires rowStart == RowStart(Grid(), r, c) && rowEnd == RowEnd(Grid(), r, c)
      requires colStart == ColStart(Grid(), r, c) && colEnd == ColEnd(Grid(), r, c)
      requires eraseVertical == EraseVertical(Grid(), r, c) && eraseHorizontal == EraseHorizontal(Grid(), r, c)
      modifies mat, mat.data, this`fallingGems, this`fallingGemsEndIdx, this`draws
      ensures GridValid() && QueuesValid() && AreRings(old(fallingGems), old(fallingGemsEndIdx))
      ensures Grid() == SolvedGrid(old(Grid()), r, c)
      ensures fallingGems == StageQueues(old(fallingGems), old(fallingGemsEndIdx), old(Grid()), r, c,
                                         SolvedColumns(old(Grid()), r, c), rand, numGemTypes, old(draws))
      ensures fallingGemsEndIdx == StageEnds(old(fallingGems), old(fallingGemsEndIdx), old(Grid()), r, c,
                                             SolvedColumns(old(Grid()), r, c), rand, numGemTypes, old(draws))
      ensures draws == old(draws) + SolveDraws(old(Grid()), r, c)
    {
      ghost var g0, f0, e0, d0 := Grid(), fallingGems, fallingGemsEndIdx, draws;
      VerticalStageQueues(f0, e0, g0, r, c, rand, numGemTypes, d0);
      if eraseVertical {
        SolveVertical(r, c, rowStart, rowEnd);
      }
      assert VerticalDone(r, c, g0, f0, e0, d0);
      SolveRow(r, c, colStart, colEnd, eraseVertical, eraseHorizontal, g0, f0, e0, d0);
    }

    /** The state of solveBoardAtPos at (r, c) on the grid g0 after its vertical part. */
    ghost predicate VerticalDone(r: int, c: int, g0: Grid, f0: seq<seq<FallingGem>>, e0: seq<int>, d0: nat)
      reads mat, mat.data, this`fallingGems, this`fallingGemsStartIdx, this`fallingGemsEndIdx, this`draws
    {
      GridValid() && QueuesValid() && IsGrid(g0) && InGrid(r, c) && AreRings(f0, e0) &&
      Grid() == VerticalGrid(g0, r, c) &&
      fallingGems == StageQueues(f0, e0, g0, r, c, ColStart(g0, r, c), rand, numGemTypes, d0) &&
      fallingGemsEndIdx == StageEnds(f0, e0, g0, r, c, ColStart(g0, r, c), rand, numGemTypes, d0) &&
      draws == d0 + VerticalDraws(g0, r, c)
    }

    /** After the vertical part: with a horizontal erase, empty the row run and lift its columns; without one, nothing is left to do. */
    method SolveRow(r: int, c: int, colStart: int, colEnd: int, eraseVertical: bool, eraseHorizontal: bool,
                    ghost g0: Grid, ghost f0: seq<seq<FallingGem>>, ghost e0: seq<int>, ghost d0: nat)
      requires VerticalDone(r, c, g0, f0, e0, d0)
      requires colStart == ColStart(g0, r, c) && colEnd == ColEnd(g0, r, c)
      requires eraseVertical == EraseVertical(g0, r, c) && eraseHorizontal == EraseHorizontal(g0, r, c)
      modifies mat, mat.data, this`fallingGems, this`fallingGemsEndIdx, this`draws
      ensures GridValid() && QueuesValid()
      ensures Grid() == SolvedGrid(g0, r, c)
      ensures fallingGems == StageQueues(f0, e0, g0, r, c, SolvedColumns(g0, r, c), rand, numGemTypes, d0)
      ensures fallingGemsEndIdx == StageEnds(f0, e0, g0, r, c, SolvedColumns(g0, r, c), rand, numGemTypes, d0)
      ensures draws == d0 + SolveDraws(g0, r, c)
    {
      if eraseHorizontal {
        SolveRowRun(r, c, colStart, colEnd, eraseVertical, g0, f0, e0, d0);
      } else {
        VerticalIsAll(g0, r, c);
      }
    }

    /** The row run is erased and its columns lifted. */
    method SolveRowRun(r: int, c: int, colStart: int, colEnd: int, eraseVertical: bool,
                       ghost g0: Grid, ghost f0: seq<seq<FallingGem>>, ghost e0: seq<int>, ghost d0: nat)
      requires VerticalDone(r, c, g0, f0, e0, d0) && EraseHorizontal(g0, r, c)
      requires colStart == ColStart(g0, r, c) && colEnd == ColEnd(g0, r, c) && eraseVertical == EraseVertical(g0, r, c)
      modifies mat, mat.data, this`fallingGems, this`fallingGemsEndIdx, this`draws
      ensures SolvedUpTo(r, c, colEnd + 1, g0, f0, e0, d0) && Grid() == SolvedGrid(g0, r, c)
    {
      RowStage(g0, r, c);
      EmptyRowCols(r, colStart, colEnd);
      SolveHorizontal(r, c, colStart, colEnd, eraseVertical, g0, f0, e0, d0);
      StagesCompleteGrid(g0, r, c);
    }

    /** The vertical part: empty rows rowStart .. rowEnd of column c, then lift the column from above the run down to -verticalGemChain. */
    method SolveVertical(r: int, c: int, rowStart: int, rowEnd: int)
      requires GridValid() && QueuesValid() && InGrid(r, c) && EraseVertical(Grid(), r, c)
      requires rowStart == RowStart(Grid(), r, c) && rowEnd == RowEnd(Grid(), r, c)
      modifies mat, mat.data, this`fallingGems, this`fallingGemsEndIdx, this`draws
      ensures GridValid() && QueuesValid()
      ensures Grid() == VerticalGrid(old(Grid()), r, c)
      ensures fallingGems == old(fallingGems)[c := EnqueueAll(old(fallingGems[c]), old(fallingGemsEndIdx[c]),
                SolveBatch(old(Grid()), r, c, c, rand, numGemTypes, old(draws))).0]
      ensures fallingGemsEndIdx == old(fallingGemsEndIdx)[c := EnqueueAll(old(fallingGems[c]), old(fallingGemsEndIdx[c]),
                SolveBatch(old(Grid()), r, c, c, rand, numGemTypes, old(draws))).1]
      ensures draws == old(draws) + VerticalDraws(old(Grid()), r, c)
    {
      ghost var g0, d0 := Grid(), draws;
      ghost var q := EnqueueAll(fallingGems[c], fallingGemsEndIdx[c], SolveBatch(g0, r, c, c, rand, numGemTypes, d0));
      ghost var f0, e0 := fallingGems, fallingGemsEndIdx;
      VerticalStageGrid(g0, r, c, rand, numGemTypes, d0);
      ghost var g1 := ColumnEmptied(g0, c, rowStart, rowEnd);
      EmptyColumnRows(c, rowStart, rowEnd);
      assert Grid() == g1;
      assert LiftedGems(g1, c, rowStart - 1, -(rowEnd - rowStart + 1), rand, numGemTypes, d0) == SolveBatch(g0, r, c, c, rand, numGemTypes, d0);
      LiftColumn(c, rowStart - 1, -(rowEnd - rowStart + 1));
      assert Grid() == ColumnEmptied(g1, c, StaticTop(g0, c, rowStart - 1), rowStart - 1);
      assert fallingGems == f0[c := q.0] && fallingGemsEndIdx == e0[c := q.1];
    }

    /**
     * The state of solveBoardAtPos at (r, c) on the grid g0 once the runs are
     * erased and the columns of the horizontal run before j are lifted.
     */
    ghost predicate SolvedUpTo(r: int, c: int, j: int, g0: Grid, f0: seq<seq<FallingGem>>, e0: seq<int>, d0: nat)
      reads mat, mat.data, this`fallingGems, this`fallingGemsStartIdx, this`fallingGemsEndIdx, this`draws
    {
      GridValid() && QueuesValid() && IsGrid(g0) && InGrid(r, c) && AreRings(f0, e0) &&
      ColStart(g0, r, c) <= j <= ColEnd(g0, r, c) + 1 &&
      Grid() == StageGrid(g0, r, c, j) &&
      fallingGems == StageQueues(f0, e0, g0, r, c, j, rand, numGemTypes, d0) &&
      fallingGemsEndIdx == StageEnds(f0, e0, g0, r, c, j, rand, numGemTypes, d0) &&
      draws == DrawsAtColumn(g0, r, c, j, d0)
    }

    /**
     * The horizontal part after the row erase: lift every column of the run
     * from above row r down to -1, skipping the pivot column when the
     * vertical part already lifted it.
     */
    method SolveHorizontal(r: int, c: int, colStart: int, colEnd: int, eraseVertical: bool,
                           ghost g0: Grid, ghost f0: seq<seq<FallingGem>>, ghost e0: seq<int>, ghost d0: nat)
      requires SolvedUpTo(r, c, colStart, g0, f0, e0, d0)
      requires EraseHorizontal(g0, r, c) && colStart == ColStart(g0, r, c) && colEnd == ColEnd(g0, r, c)
      requires eraseVertical == EraseVertical(g0, r, c)
      modifies mat, mat.data, this`fallingGems, this`fallingGemsEndIdx, this`draws
      ensures SolvedUpTo(r, c, colEnd + 1, g0, f0, e0, d0)
    {
      var col := colStart;
      while col <= colEnd
        invariant colStart <= col <= colEnd + 1
        invariant SolvedUpTo(r, c, col, g0, f0, e0, d0)
      {
        col := SolveHorizontalStep(r, c, col, eraseVertical, g0, f0, e0, d0);
      }
    }

    /** One turn of the horizontal loop: skip the pivot column of a cross, lift any other column. */
    method SolveHorizontalStep(r: int, c: int, col: int, eraseVertical: bool,
                               ghost g0: Grid, ghost f0: seq<seq<FallingGem>>, ghost e0: seq<int>, ghost d0: nat)
      returns (next: int)
      requires SolvedUpTo(r, c, col, g0, f0, e0, d0)
      requires EraseHorizontal(g0, r, c) && col <= ColEnd(g0, r, c) && eraseVertical == EraseVertical(g0, r, c)
      modifies mat, mat.data, this`fallingGems, this`fallingGemsEndIdx, this`draws
      ensures next == col + 1
      ensures SolvedUpTo(r, c, next, g0, f0, e0, d0)
    {
      if eraseVertical && col == c {
        SkipPivot(r, c, g0, f0, e0, d0);
      } else {
        SolveHorizontalColumn(r, c, col, g0, f0, e0, d0);
      }
      next := col + 1;
    }

    /** The horizontal loop skips the pivot column of a cross; the stage moves past it unchanged. */
    lemma SkipPivot(r: int, c: int, g0: Grid, f0: seq<seq<FallingGem>>, e0: seq<int>, d0: nat)
      requires SolvedUpTo(r, c, c, g0, f0, e0, d0)
      requires EraseVertical(g0, r, c) && c <= ColEnd(g0, r, c)
      ensures SolvedUpTo(r, c, c + 1, g0, f0, e0, d0)
    {
      SkippedStage(f0, e0, g0, r, c, rand, numGemTypes, d0);
    }

    /** The gravity loop for one column of the horizontal run moves the stage on by that column. */
    method SolveHorizontalColumn(r: int, c: int, col: int, ghost g0: Grid, ghost f0: seq<seq<FallingGem>>, ghost e0: seq<int>, ghost d0: nat)
      requires SolvedUpTo(r, c, col, g0, f0, e0, d0)
      requires EraseHorizontal(g0, r, c) && col <= ColEnd(g0, r, c) && !(EraseVertical(g0, r, c) && col == c)
      modifies mat, mat.data, this`fallingGems, this`fallingGemsEndIdx, this`draws
      ensures SolvedUpTo(r, c, col + 1, g0, f0, e0, d0)
    {
      ghost var batch := SolveBatch(g0, r, c, col, rand, numGemTypes, d0);
      ghost var q := EnqueueAll(f0[col], e0[col], batch);
      HorizontalStageGrid(g0, r, c, col, rand, numGemTypes, d0);
      HorizontalStageQueues(f0, e0, g0, r, c, col, rand, numGemTypes, d0);
      assert LiftedGems(Grid(), col, r - 1, -1, rand, numGemTypes, draws) == batch;
      assert fallingGems[col] == f0[col] && fallingGemsEndIdx[col] == e0[col];
      assert DrawsAtColumn(g0, r, c, col + 1, d0) == draws + ColumnDraws(g0, r, c, col);
      ghost var f1, e1 := fallingGems, fallingGemsEndIdx;
      LiftColumn(col, r - 1, -1);
      assert fallingGems == f1[col := q.0] && fallingGemsEndIdx == e1[col := q.1];
      assert draws == DrawsAtColumn(g0, r, c, col + 1, d0);
      assert Grid() == StageGrid(g0, r, c, col + 1);
    }

    // -------------------------------------------------------------------------
    // solveFallAtPos (Board.cpp:164-197)

    /**
     * Count the Empty cells directly below (r, c); when there are any, lift the
     * static block ending at (r, c) and refill from above the board for the
     * rows the gap leaves free there.
     */
    method SolveFallAtPos(r: int, c: int)
      requires GridValid() && QueuesValid() && InGrid(r, c)
      modifies mat, mat.data, this`fallingGems, this`fallingGemsEndIdx, this`draws
      ensures GridValid() && QueuesValid()
      ensures Grid() == FallenGrid(old(Grid()), r, c)
      ensures IsFeed(old(CurrentFeed())) && CurrentFeed() == FallFeed(old(Grid()), r, c, old(CurrentFeed()), rand, numGemTypes)
    {
      ghost var g0, q0 := Grid(), CurrentFeed();
      var positionsToFall := CountGapBelow(r, c);
      if positionsToFall == 0 {
        FallFeedWithoutGap(g0, r, c, q0, rand, numGemTypes);
        return;
      }
      LiftColumn(c, r, -positionsToFall);
      LiftMakesFallFeed(g0, r, c, q0, rand, numGemTypes, CurrentFeed());
    }

    /** The positionsToFall loop of solveFallAtPos (Board.cpp:166-172): the number of Empty cells right below (r, c). */
    method CountGapBelow(r: int, c: int) returns (positionsToFall: int)
      requires GridValid() && InGrid(r, c)
      ensures positionsToFall == GapBelow(Grid(), r, c)
    {
      positionsToFall := 0;
      var row := r + 1;
      while row < Rows
        invariant r + 1 <= row <= Rows && positionsToFall == row - r - 1
        invariant GapBelow(Grid(), r, c) == positionsToFall + GapBelow(Grid(), row - 1, c)
      {
        if mat.Get(row, c) != Empty {
          break;
        }
        positionsToFall := positionsToFall + 1;
        row := row + 1;
      }
    }

    // -------------------------------------------------------------------------
    // solveSelectionValidity, mouseEvent, swapGems (Board.cpp:297-403)

    /** A captured cell whose colour has changed since it was captured is dropped. */
    method SolveSelectionValidity() returns (valid: bool)
      requires GridValid() && SelectionValid()
      modifies this`boardState
      ensures SelectionValid()
      ensures valid <==> !(old(boardState) == SecondSelection && Grid()[lastClickedRow][lastClickedCol] != lastClickedColor)
      ensures boardState == if valid then old(boardState) else FirstSelection
    {
      if boardState == SecondSelection && mat.Get(lastClickedRow, lastClickedCol) != lastClickedColor {
        boardState := FirstSelection;
        return false;
      }
      return true;
    }

    /** The pointer is inside the board's pixel bounds. */
    predicate InBounds(x: int, y: int)
    {
      layout.boundsXMin <= x < layout.BoundsXMax() && layout.boundsYMin <= y < layout.BoundsYMax()
    }

    /** The event lands on a static gem of the board g: the only events mouseEvent acts on. */
    ghost predicate ClickHits(g: Grid, x: int, y: int)
      requires IsGrid(g) && layout.WellFormed()
    {
      InBounds(x, y) && IsStaticGem(g[ClickedRow(layout, y)][ClickedCol(layout, x)])
    }

    /** The cell a press or release at (x, y) would swap the captured cell (lastRow, lastCol) with. */
    ghost function TargetOf(lastRow: int, lastCol: int, state: BoardState, x: int, y: int, mouseDown: bool): (int, int)
      requires layout.WellFormed()
    {
      if InBounds(x, y) then SwapTarget(lastRow, lastCol, ClickedRow(layout, y), ClickedCol(layout, x), state, mouseDown)
      else (-1, -1)
    }

    /**
     * A press or release at pixel (x, y). Events off the board or on a cell
     * that is not a static gem change nothing. A press without a captured
     * cell captures the clicked one; otherwise a swap with the clicked
     * neighbour, or with the neighbour a drag snaps to, is started, and the
     * selection resets unless the button was released over the captured cell.
     */
    method MouseEvent(x: int, y: int, mouseDown: bool)
      requires Valid()
      modifies mat, mat.data, this`swappingGems, this`swappingGemPairs, this`boardState,
               this`lastClickedRow, this`lastClickedCol, this`lastClickedColor, this`playerHasMoved, this`movedSounds
      ensures Valid()
      ensures !ClickHits(old(Grid()), x, y) ==>
                Grid() == old(Grid()) && swappingGems == old(swappingGems) && swappingGemPairs == old(swappingGemPairs) &&
                boardState == old(boardState) && lastClickedRow == old(lastClickedRow) &&
                lastClickedCol == old(lastClickedCol) && lastClickedColor == old(lastClickedColor) &&
                playerHasMoved == old(playerHasMoved) && movedSounds == old(movedSounds)
      // the selection survives only a release over the captured cell, and a press captures the clicked cell
      ensures boardState == SecondSelection ==>
                (old(boardState) == FirstSelection && mouseDown && InBounds(x, y) &&
                 lastClickedRow == ClickedRow(layout, y) && lastClickedCol == ClickedCol(layout, x) &&
                 lastClickedColor == old(Grid())[lastClickedRow][lastClickedCol]) ||
                (old(boardState) == SecondSelection && lastClickedRow == old(lastClickedRow) &&
                 lastClickedCol == old(lastClickedCol) && lastClickedColor == old(lastClickedColor) &&
                 (!ClickHits(old(Grid()), x, y) ||
                  (!mouseDown && ClickedRow(layout, y) == lastClickedRow && ClickedCol(layout, x) == lastClickedCol)))
      // a press without a captured cell captures the clicked one
      ensures ClickHits(old(Grid()), x, y) && old(boardState) == FirstSelection && mouseDown ==>
                boardState == SecondSelection && lastClickedRow == ClickedRow(layout, y) && lastClickedCol == ClickedCol(layout, x) &&
                lastClickedColor == old(Grid())[lastClickedRow][lastClickedCol] &&
                Grid() == old(Grid()) && swappingGems == old(swappingGems) && swappingGemPairs == old(swappingGemPairs) &&
                playerHasMoved == old(playerHasMoved) && movedSounds == old(movedSounds)
      // a captured cell whose colour has changed is dropped, and nothing else happens
      ensures ClickHits(old(Grid()), x, y) && old(boardState) == SecondSelection &&
              old(Grid())[old(lastClickedRow)][old(lastClickedCol)] != old(lastClickedColor) ==>
                boardState == FirstSelection && Grid() == old(Grid()) && swappingGems == old(swappingGems) &&
                swappingGemPairs == old(swappingGemPairs) && lastClickedRow == old(lastClickedRow) &&
                lastClickedCol == old(lastClickedCol) && lastClickedColor == old(lastClickedColor) &&
                playerHasMoved == old(playerHasMoved) && movedSounds == old(movedSounds)
      // any other event on a static gem swaps with its target when that holds a static gem, then updates the selection
      ensures ClickHits(old(Grid()), x, y) && !(old(boardState) == FirstSelection && mouseDown) &&
              (old(boardState) == SecondSelection ==> old(Grid())[old(lastClickedRow)][old(lastClickedCol)] == old(lastClickedColor)) ==>
                lastClickedRow == old(lastClickedRow) && lastClickedCol == old(lastClickedCol) && lastClickedColor == old(lastClickedColor) &&
                boardState == StateAfterClick(old(boardState), mouseDown,
                                              Distance(lastClickedRow, lastClickedCol, ClickedRow(layout, y), ClickedCol(layout, x)) == 0) &&
                var t := TargetOf(lastClickedRow, lastClickedCol, old(boardState), x, y, mouseDown);
                if t != (-1, -1) && InGrid(t.0, t.1) && IsStaticGem(old(Grid())[t.0][t.1]) then
                  StartedSwap(old(Grid()), old(swappingGems), old(swappingGemPairs), lastClickedRow, lastClickedCol, t.0, t.1) &&
                  playerHasMoved && movedSounds == old(movedSounds) + 1
                else
                  Grid() == old(Grid()) && swappingGems == old(swappingGems) && swappingGemPairs == old(swappingGemPairs) &&
                  playerHasMoved == old(playerHasMoved) && movedSounds == old(movedSounds)
      // a swap is only ever started between the captured gem and a static neighbour
      ensures |swappingGems| != |old(swappingGems)| ==>
                var t := TargetOf(old(lastClickedRow), old(lastClickedCol), old(boardState), x, y, mouseDown);
                old(boardState) == SecondSelection && InGrid(t.0, t.1) &&
                Distance(old(lastClickedRow), old(lastClickedCol), t.0, t.1) == 1 &&
                IsStaticGem(old(Grid())[old(lastClickedRow)][old(lastClickedCol)]) && IsStaticGem(old(Grid())[t.0][t.1]) &&
                StartedSwap(old(Grid()), old(swappingGems), old(swappingGemPairs), old(lastClickedRow), old(lastClickedCol), t.0, t.1) &&
                playerHasMoved && movedSounds == old(movedSounds) + 1
      ensures |swappingGems| == |old(swappingGems)| ==>
                Grid() == old(Grid()) && swappingGems == old(swappingGems) && swappingGemPairs == old(swappingGemPairs) &&
                playerHasMoved == old(playerHasMoved) && movedSounds == old(movedSounds)
    {
      if !InBounds(x, y) {
        return;
      }
      var colClicked := ClickedCol(layout, x);
      var rowClicked := ClickedRow(layout, y);
      if !IsStaticGem(mat.Get(rowClicked, colClicked)) {
        return;
      }
      var valid := SolveSelectionValidity();
      if !valid {
        return;
      }
      if boardState == FirstSelection && mouseDown {
        Capture(rowClicked, colClicked);
      } else {
        SecondClick(rowClicked, colClicked, mouseDown);
      }
    }

    /** A press with nothing captured captures the clicked gem (Board.cpp:322-327). */
    method Capture(row: int, col: int)
      requires Valid() && InGrid(row, col) && IsStaticGem(Grid()[row][col])
      modifies this`boardState, this`lastClickedRow, this`lastClickedCol, this`lastClickedColor
      ensures Valid()
      ensures boardState == SecondSelection && lastClickedRow == row && lastClickedCol == col &&
              lastClickedColor == Grid()[row][col]
    {
      lastClickedRow := row;
      lastClickedCol := col;
      lastClickedColor := mat.Get(row, col);
      boardState := SecondSelection;
    }

    /** The pool and the grid as swapGems(r1, c1, r2, c2, true) leaves the grid g0 and the pool (gems0, pairs0). */
    ghost predicate StartedSwap(g0: Grid, gems0: seq<SwappingGem>, pairs0: seq<SwappingGemsPair>, r1: int, c1: int, r2: int, c2: int)
      reads mat, mat.data, this`swappingGems, this`swappingGemPairs
      requires Shape() && IsGrid(g0) && Linked(gems0, pairs0) && InGrid(r1, c1) && InGrid(r2, c2)
    {
      var s := StartSwap(gems0, pairs0, layout, r1, c1, r2, c2, g0[r1][c1], g0[r2][c2], true);
      Grid() == WithCell(WithCell(g0, r1, c1, Locked), r2, c2, Locked) && swappingGems == s.0 && swappingGemPairs == s.1
    }

    /**
     * The part of mouseEvent after the checks, for any event but a press
     * without a captured cell: swap with the target when it is a static
     * gem, then reset the selection unless the button was released over the
     * captured cell.
     */
    method SecondClick(rowClicked: int, colClicked: int, mouseDown: bool)
      requires Valid() && InGrid(rowClicked, colClicked) && !(boardState == FirstSelection && mouseDown)
      requires boardState == SecondSelection ==> Grid()[lastClickedRow][lastClickedCol] == lastClickedColor
      modifies mat, mat.data, this`swappingGems, this`swappingGemPairs, this`boardState, this`playerHasMoved, this`movedSounds
      ensures Valid()
      ensures boardState == StateAfterClick(old(boardState), mouseDown, Distance(lastClickedRow, lastClickedCol, rowClicked, colClicked) == 0)
      ensures var t := SwapTarget(lastClickedRow, lastClickedCol, rowClicked, colClicked, old(boardState), mouseDown);
              if t != (-1, -1) && InGrid(t.0, t.1) && IsStaticGem(old(Grid())[t.0][t.1]) then
                old(boardState) == SecondSelection && Distance(lastClickedRow, lastClickedCol, t.0, t.1) == 1 &&
                IsStaticGem(old(Grid())[lastClickedRow][lastClickedCol]) &&
                StartedSwap(old(Grid()), old(swappingGems), old(swappingGemPairs), lastClickedRow, lastClickedCol, t.0, t.1) &&
                playerHasMoved && movedSounds == old(movedSounds) + 1
              else
                Grid() == old(Grid()) && swappingGems == old(swappingGems) && swappingGemPairs == old(swappingGemPairs) &&
                playerHasMoved == old(playerHasMoved) && movedSounds == old(movedSounds)
    {
      ClickSwap(rowClicked, colClicked, mouseDown);
      var isSelf := Distance(lastClickedRow, lastClickedCol, rowClicked, colClicked) == 0;
      if mouseDown || !isSelf {
        boardState := FirstSelection;
      }
    }

    /** The swap half of the second click: a swap with the target, when there is one and it holds a static gem. */
    method ClickSwap(rowClicked: int, colClicked: int, mouseDown: bool)
      requires Valid() && InGrid(rowClicked, colClicked) && !(boardState == FirstSelection && mouseDown)
      requires boardState == SecondSelection ==> Grid()[lastClickedRow][lastClickedCol] == lastClickedColor
      modifies mat, mat.data, this`swappingGems, this`swappingGemPairs, this`playerHasMoved, this`movedSounds
      ensures Valid()
      ensures var t := SwapTarget(lastClickedRow, lastClickedCol, rowClicked, colClicked, boardState, mouseDown);
              if t != (-1, -1) && InGrid(t.0, t.1) && IsStaticGem(old(Grid())[t.0][t.1]) then
                boardState == SecondSelection && Distance(lastClickedRow, lastClickedCol, t.0, t.1) == 1 &&
                IsStaticGem(old(Grid())[lastClickedRow][lastClickedCol]) &&
                StartedSwap(old(Grid()), old(swappingGems), old(swappingGemPairs), lastClickedRow, lastClickedCol, t.0, t.1) &&
                playerHasMoved && movedSounds == old(movedSounds) + 1
              else
                Grid() == old(Grid()) && swappingGems == old(swappingGems) && swappingGemPairs == old(swappingGemPairs) &&
                playerHasMoved == old(playerHasMoved) && movedSounds == old(movedSounds)
    {
      var target := SwapTarget(lastClickedRow, lastClickedCol, rowClicked, colClicked, boardState, mouseDown);
      if boardState == SecondSelection {
        SwapTargetIsNeighbour(lastClickedRow, lastClickedCol, rowClicked, colClicked, boardState, mouseDown);
      } else {
        FirstSelectionReleaseNeverSwaps(lastClickedRow, lastClickedCol, rowClicked, colClicked);
      }
      if target.0 >= 0 && target.1 >= 0 && IsStaticGem(mat.Get(target.0, target.1)) {
        PlayerSwap(target.0, target.1);
      }
    }

    /** The player's move: swap the captured gem with the static gem at (row, col), and play the moved sound. */
    method PlayerSwap(row: int, col: int)
      requires Valid() && boardState == SecondSelection && InGrid(row, col)
      requires IsStaticGem(Grid()[row][col]) && Grid()[lastClickedRow][lastClickedCol] == lastClickedColor
      modifies mat, mat.data, this`swappingGems, this`swappingGemPairs, this`playerHasMoved, this`movedSounds
      ensures Valid()
      ensures StartedSwap(old(Grid()), old(swappingGems), old(swappingGemPairs), lastClickedRow, lastClickedCol, row, col)
      ensures playerHasMoved && movedSounds == old(movedSounds) + 1
    {
      StartSwapKeepsQuiescent(swappingGems, swappingGemPairs, layout, lastClickedRow, lastClickedCol, row, col,
                              Grid()[lastClickedRow][lastClickedCol], Grid()[row][col], true);
      SwapGems(lastClickedRow, lastClickedCol, row, col, true);
      assert Quiescent() && QueuesValid() && SelectionValid();
      playerHasMoved := true;
      movedSounds := movedSounds + 1;
    }

    /**
     * swapGems: both cells become Locked and two moving gems, each bound for
     * the other cell with its own colour, join the pool; with addPair a pair
     * linking them joins too.
     */
    method SwapGems(row1: int, col1: int, row2: int, col2: int, addPair: bool)
      requires GridValid() && PoolValid() && InGrid(row1, col1) && InGrid(row2, col2)
      modifies mat, mat.data, this`swappingGems, this`swappingGemPairs
      ensures GridValid() && PoolValid()
      ensures Grid() == WithCell(WithCell(old(Grid()), row1, col1, Locked), row2, col2, Locked)
      ensures var s := StartSwap(old(swappingGems), old(swappingGemPairs), layout, row1, col1, row2, col2,
                                 old(Grid())[row1][col1], old(Grid())[row2][col2], addPair);
              swappingGems == s.0 && swappingGemPairs == s.1
    {
      var colorGem1 := mat.Get(row1, col1);
      var colorGem2 := mat.Get(row2, col2);
      var x1, y1 := TileCenterX(layout, col1), TileCenterY(layout, row1);
      var x2, y2 := TileCenterX(layout, col2), TileCenterY(layout, row2);
      var pairIdx := -1;
      if addPair {
        pairIdx := |swappingGemPairs|;
        var gem1Idx := |swappingGems|;
        var gem2Idx := gem1Idx + 1;
        swappingGemPairs := swappingGemPairs + [NewPair(gem1Idx, gem2Idx)];
      }
      swappingGems := swappingGems + [NewSwappingGem(x1, y1, x2, y2, pairIdx, row2, col2, colorGem1),
                                      NewSwappingGem(x2, y2, x1, y1, pairIdx, row1, col1, colorGem2)];
      mat.Set(row1, col1, Locked);
      mat.Set(row2, col2, Locked);
    }

    // -------------------------------------------------------------------------
    // releasePair, removeSwappingGem (Board.cpp:405-440)

    /** The pool invariant while updateSwappingGems runs: links intact, finished pairs have a gem that arrived, no pair returning. */
    ghost predicate ArrivalInv()
      reads this`swappingGems, this`swappingGemPairs
    {
      PoolValid() && FinishedHaveLanded(swappingGems, swappingGemPairs) && NoneReturning(swappingGemPairs)
    }

    /** releasePair, with the moved pair always re-pointed (see SwapPool.ReleasePairAsWritten for the code as written). */
    method ReleasePair(swapPairIdx: int)
      requires Linked(swappingGems, swappingGemPairs) && 0 <= swapPairIdx < |swappingGemPairs|
      modifies this`swappingGems, this`swappingGemPairs
      ensures (swappingGems, swappingGemPairs) == SwapPool.ReleasePair(old(swappingGems), old(swappingGemPairs), swapPairIdx)
    {
      var pair := swappingGemPairs[swapPairIdx];
      swappingGems := Unpair(swappingGems, pair.gem1Idx, pair.gem2Idx);
      var lastIdx := |swappingGemPairs| - 1;
      swappingGemPairs := RemoveElement(swappingGemPairs, swapPairIdx);
      if swapPairIdx != lastIdx {
        var moved := swappingGemPairs[swapPairIdx];
        swappingGems := Repoint(swappingGems, moved.gem1Idx, moved.gem2Idx, swapPairIdx);
      }
    }

    /** removeSwappingGem: the unpaired gem at idx leaves the pool and the gem moved into its slot has its pair re-pointed. */
    method RemoveSwappingGem(idx: int)
      requires Linked(swappingGems, swappingGemPairs) && 0 <= idx < |swappingGems| && !swappingGems[idx].HasValidPair()
      modifies this`swappingGems, this`swappingGemPairs
      ensures (swappingGems, swappingGemPairs) == SwapPool.RemoveSwappingGem(old(swappingGems), old(swappingGemPairs), idx)
    {
      var lastIdx := |swappingGems| - 1;
      swappingGems := RemoveElement(swappingGems, idx);
      if idx != lastIdx && swappingGems[idx].HasValidPair() {
        var p := swappingGems[idx].swapPairIdx;
        var pair := swappingGemPairs[p];
        if pair.gem1Idx == lastIdx {
          swappingGemPairs := swappingGemPairs[p := pair.SetGem1Idx(idx)];
        } else {
          swappingGemPairs := swappingGemPairs[p := pair.SetGem2Idx(idx)];
        }
      }
    }

    // -------------------------------------------------------------------------
    // updateSwappingGems (Board.cpp:441-524)

    /**
     * One frame of the swap animation, with the float motion replaced by the
     * set of gem indices that reach their cell this frame. Afterwards every
     * gem left in the pool is moving, no pair has finished, and every gem
     * that did not arrive is still in the pool.
     */
    method UpdateSwappingGems(arriving: set<int>)
      requires GridValid() && QueuesValid() && PoolValid() && Quiescent()
      modifies mat, mat.data, this`swappingGems, this`swappingGemPairs, this`fallingGems, this`fallingGemsEndIdx,
               this`draws, this`score, this`erasedSounds
      ensures GridValid() && QueuesValid() && PoolValid() && Quiescent()
      ensures forall k :: 0 <= k < |old(swappingGems)| && k !in arriving ==>
                Detached(old(swappingGems)[k]) in multiset(DetachedAll(swappingGems))
    {
      ghost var g0 := swappingGems;
      var n := |swappingGems|;
      var i := 0;
      while i < n
        invariant 0 <= i <= n <= |swappingGems|
        invariant GridValid() && QueuesValid() && ArrivalInv()
        invariant forall k :: 0 <= k < n && !(k < i && k in arriving) ==> Detached(swappingGems[k]) == Detached(g0[k])
      {
        if swappingGems[i].moving && i in arriving {
          var _, _ := LandSwappingGem(i);
        }
        i := i + 1;
      }
      ghost var g1 := swappingGems;
      RemoveArrivedGems();
      forall k | 0 <= k < n && k !in arriving
        ensures Detached(g0[k]) in multiset(DetachedAll(swappingGems))
      {
        assert DetachedAll(g1)[k] == Detached(g0[k]);
      }
    }

    /**
     * The arrival of gem i: it lands, its cell is settled (written, solved,
     * the gap below filled when due) and its pair is resolved on the
     * settled grid. hasChained says whether its cell erased a run; settled
     * is the grid before the pair is resolved.
     */
    method LandSwappingGem(i: int) returns (hasChained: bool, ghost settled: Grid)
      requires GridValid() && QueuesValid() && ArrivalInv() && 0 <= i < |swappingGems| && swappingGems[i].moving
      modifies mat, mat.data, this`swappingGems, this`swappingGemPairs, this`fallingGems, this`fallingGemsEndIdx,
               this`draws, this`score, this`erasedSounds
      ensures GridValid() && QueuesValid() && ArrivalInv()
      ensures |swappingGems| >= |old(swappingGems)|
      ensures forall k :: 0 <= k < |old(swappingGems)| && k != i ==> Detached(swappingGems[k]) == Detached(old(swappingGems)[k])
      ensures var gem := old(swappingGems)[i];
              hasChained == Erases(WithCell(old(Grid()), gem.destRow, gem.destCol, gem.color), gem.destRow, gem.destCol) &&
              settled == SettledGrid(old(Grid()), gem.destRow, gem.destCol, gem.color, SolvesFallOnLanding(gem, old(swappingGemPairs))) &&
              IsFeed(old(CurrentFeed())) &&
              CurrentFeed() == SettledFeed(old(Grid()), old(CurrentFeed()), gem.destRow, gem.destCol, gem.color, SolvesFallOnLanding(gem, old(swappingGemPairs)))
      ensures IsGrid(settled) && PairResolved(settled, Land(old(swappingGems), i), old(swappingGemPairs), i, hasChained)
    {
      ghost var s0 := swappingGems;
      hasChained := PlaceArrivedGem(i);
      settled := Grid();
      ghost var feed := CurrentFeed();
      ResolvePair(i, hasChained);
      assert CurrentFeed() == feed;
      DetachedAfterLanding(s0, swappingGems, i);
    }

    /**
     * Gem i stops, its colour is written into its cell and the cell is
     * solved; when nothing chained and the gem is unpaired or its partner
     * chained, the gap below the cell is filled.
     */
    method PlaceArrivedGem(i: int) returns (hasChained: bool)
      requires GridValid() && QueuesValid() && ArrivalInv() && 0 <= i < |swappingGems| && swappingGems[i].moving
      modifies mat, mat.data, this`swappingGems, this`fallingGems, this`fallingGemsEndIdx, this`draws, this`score, this`erasedSounds
      ensures GridValid() && QueuesValid() && ArrivalInv()
      ensures swappingGems == Land(old(swappingGems), i)
      ensures var gem := old(swappingGems)[i];
              hasChained == Erases(WithCell(old(Grid()), gem.destRow, gem.destCol, gem.color), gem.destRow, gem.destCol) &&
              Grid() == SettledGrid(old(Grid()), gem.destRow, gem.destCol, gem.color, SolvesFallOnLanding(gem, swappingGemPairs)) &&
              IsFeed(old(CurrentFeed())) &&
              CurrentFeed() == SettledFeed(old(Grid()), old(CurrentFeed()), gem.destRow, gem.destCol, gem.color, SolvesFallOnLanding(gem, swappingGemPairs))
    {
      var gem := swappingGems[i];
      StopGem(i);
      var shouldSolveFall := SolvesFallOnLanding(gem, swappingGemPairs);
      hasChained := SettleGem(gem.destRow, gem.destCol, gem.color, shouldSolveFall);
    }

    /** The arriving gem i stops moving; it keeps its pair. */
    method StopGem(i: int)
      requires ArrivalInv() && 0 <= i < |swappingGems| && swappingGems[i].moving
      modifies this`swappingGems
      ensures ArrivalInv() && swappingGems == Land(old(swappingGems), i)
    {
      LandKeepsPool(swappingGems, swappingGemPairs, i);
      swappingGems := Land(swappingGems, i);
    }

    /**
     * The grid g0 after a gem of colour color is written at (r, c) and that
     * cell is solved: when a run was erased, the solved grid; otherwise,
     * when solveFall holds, the grid with the gap below the cell filled.
     */
    ghost function SettledGrid(g0: Grid, r: int, c: int, color: int, solveFall: bool): (g: Grid)
      requires IsGrid(g0) && InGrid(r, c)
      ensures IsGrid(g)
      ensures Erases(WithCell(g0, r, c, color), r, c) ==> g[r][c] == Empty
      ensures g[r][c] == color || g[r][c] == Empty
      ensures forall i, j :: InGrid(i, j) && !(i == r && j == c) ==> g[i][j] == g0[i][j] || g[i][j] == Empty
    {
      var g1 := WithCell(g0, r, c, color);
      if Erases(g1, r, c) then
        SolvedGridEmptiesRuns(g1, r, c);
        SolvedGrid(g1, r, c)
      else if solveFall then FallenGrid(g1, r, c) else g1
    }

    /**
     * The queues, draw counter, score and erase-sound count after that cell
     * work, from q before it: an erase feeds every column its SolveBatch,
     * scores and plays the erase sound; otherwise nothing is scored and,
     * when solveFall holds, column c receives its FallBatch.
     */
    ghost function SettledFeed(g0: Grid, q: Feed, r: int, c: int, color: int, solveFall: bool): (result: Feed)
      requires IsGrid(g0) && InGrid(r, c) && IsFeed(q) && numGemTypes > 0
      ensures IsFeed(result)
      ensures result.score >= q.score && result.draws >= q.draws
      ensures result.score > q.score <==> Erases(WithCell(g0, r, c, color), r, c)
      ensures result.sounds == q.sounds + (if Erases(WithCell(g0, r, c, color), r, c) then 1 else 0)
    {
      var g1 := WithCell(g0, r, c, color);
      if Erases(g1, r, c) then SolvedFeed(g1, r, c, q, rand, numGemTypes)
      else if solveFall then FallFeed(g1, r, c, q, rand, numGemTypes)
      else q
    }

    /**
     * The cell work of an arrival (Board.cpp:454-479): write the colour,
     * solve the cell, and fill the gap below when asked and nothing was
     * erased. hasChained says whether a run was erased.
     */
    method SettleGem(r: int, c: int, color: int, solveFall: bool) returns (hasChained: bool)
      requires GridValid() && QueuesValid() && InGrid(r, c) && ValidColor(color, numGemTypes)
      modifies mat, mat.data, this`fallingGems, this`fallingGemsEndIdx, this`draws, this`score, this`erasedSounds
      ensures GridValid() && QueuesValid()
      ensures hasChained == Erases(WithCell(old(Grid()), r, c, color), r, c)
      ensures Grid() == SettledGrid(old(Grid()), r, c, color, solveFall)
      ensures IsFeed(old(CurrentFeed())) && CurrentFeed() == SettledFeed(old(Grid()), old(CurrentFeed()), r, c, color, solveFall)
    {
      ghost var g0, q0 := Grid(), CurrentFeed();
      mat.Set(r, c, color);
      ghost var g1 := Grid();
      assert g1 == WithCell(g0, r, c, color);
      hasChained := SolveBoardAtPos(r, c);
      if !hasChained {
        SolvedGridWithoutEraseIsIdentity(g1, r, c);
        SolvedFeedWithoutErase(g1, r, c, q0, rand, numGemTypes);
      }
      if !hasChained && solveFall {
        SolveFallAtPos(r, c);
      }
    }

    /**
     * The grid and pool after the pair of the stopped gem i is resolved,
     * from the grid g0 and the pool (gems0, pairs0): an unpaired gem changes
     * nothing; the first gem of a pair to arrive records whether it chained;
     * when the second arrives, nothing changes if either chained, and
     * otherwise the swap is reverted.
     */
    ghost predicate PairResolved(g0: Grid, gems0: seq<SwappingGem>, pairs0: seq<SwappingGemsPair>, i: int, hasChained: bool)
      reads mat, mat.data, this`swappingGems, this`swappingGemPairs
      requires Shape() && IsGrid(g0) && 0 <= i < |gems0|
    {
      Linked(gems0, pairs0) && FinishedHaveLanded(gems0, pairs0) &&
      (forall k :: 0 <= k < |gems0| ==> InGrid(gems0[k].destRow, gems0[k].destCol)) &&
      if !gems0[i].HasValidPair() then
        Grid() == g0 && swappingGems == gems0 && swappingGemPairs == pairs0
      else
        var p := gems0[i].swapPairIdx;
        if !pairs0[p].HasFinished() then
          Grid() == g0 && swappingGems == gems0 && swappingGemPairs == pairs0[p := pairs0[p].SetHasChained(hasChained)]
        else if hasChained || pairs0[p].HasChained() then
          Grid() == g0 && swappingGems == gems0 && swappingGemPairs == pairs0
        else
          Reverted(g0, gems0, pairs0, i)
    }

    /**
     * The pair of arrived gem i: the first gem of a pair to arrive records
     * whether it chained; when the second arrives and neither chained, the
     * swap is reverted.
     */
    method ResolvePair(i: int, hasChained: bool)
      requires GridValid() && ArrivalInv() && 0 <= i < |swappingGems| && !swappingGems[i].moving
      modifies mat, mat.data, this`swappingGems, this`swappingGemPairs
      ensures GridValid() && ArrivalInv()
      ensures |swappingGems| >= |old(swappingGems)|
      ensures forall k :: 0 <= k < |old(swappingGems)| ==> Detached(swappingGems[k]) == Detached(old(swappingGems)[k])
      ensures PairResolved(old(Grid()), old(swappingGems), old(swappingGemPairs), i, hasChained)
    {
      if !swappingGems[i].HasValidPair() {
        return;
      }
      var p := swappingGems[i].swapPairIdx;
      var pair := swappingGemPairs[p];
      if pair.HasFinished() && !pair.IsReturning() {
        if !hasChained && !pair.HasChained() {
          RevertSwap(i);
        }
      } else {
        SetHasChainedKeepsPool(swappingGems, swappingGemPairs, i, hasChained);
        swappingGemPairs := swappingGemPairs[p := pair.SetHasChained(hasChained)];
      }
    }

    /**
     * The pool after the swap of gem i and its partner is reverted: the pair
     * is marked returning and released, and an unpaired swap of the two
     * destination cells starts, each gem taking the colour now in its cell.
     */
    ghost predicate Reverted(g0: Grid, gems0: seq<SwappingGem>, pairs0: seq<SwappingGemsPair>, i: int)
      reads mat, mat.data, this`swappingGems, this`swappingGemPairs
      requires Shape() && IsGrid(g0) && Linked(gems0, pairs0) && FinishedHaveLanded(gems0, pairs0)
      requires 0 <= i < |gems0| && gems0[i].HasValidPair()
      requires forall k :: 0 <= k < |gems0| ==> InGrid(gems0[k].destRow, gems0[k].destCol)
    {
      var p := gems0[i].swapPairIdx;
      var pair := pairs0[p];
      var gem := gems0[i];
      var other := gems0[pair.gem1Idx + pair.gem2Idx - i];
      MarkReturningKeepsLinks(gems0, pairs0, p);
      ReleasePairKeepsLinks(gems0, pairs0[p := pair.SetIsReturning()], p);
      var released := SwapPool.ReleasePair(gems0, pairs0[p := pair.SetIsReturning()], p);
      Grid() == WithCell(WithCell(g0, gem.destRow, gem.destCol, Locked), other.destRow, other.destCol, Locked) &&
      (swappingGems, swappingGemPairs) ==
        StartSwap(released.0, released.1, layout, gem.destRow, gem.destCol, other.destRow, other.destCol,
                  g0[gem.destRow][gem.destCol], g0[other.destRow][other.destCol], false)
    }

    /** pair.setIsReturning() and releasePair (Board.cpp:491-492): the pair leaves the pool, and every pool invariant holds again. */
    method ReleaseReturningPair(p: int)
      requires ArrivalInv() && 0 <= p < |swappingGemPairs|
      modifies this`swappingGems, this`swappingGemPairs
      ensures ArrivalInv()
      ensures (swappingGems, swappingGemPairs) ==
                SwapPool.ReleasePair(old(swappingGems), old(swappingGemPairs)[p := old(swappingGemPairs)[p].SetIsReturning()], p)
      ensures DetachedAll(swappingGems) == DetachedAll(old(swappingGems))
    {
      ghost var gems0 := swappingGems;
      MarkReturningKeepsLinks(swappingGems, swappingGemPairs, p);
      swappingGemPairs := swappingGemPairs[p := swappingGemPairs[p].SetIsReturning()];
      ReleasePairKeepsInvariants(swappingGems, swappingGemPairs, p);
      ReleasePairKeepsLinks(swappingGems, swappingGemPairs, p);
      ReleasePair(p);
      forall k | 0 <= k < |swappingGems|
        ensures InGrid(swappingGems[k].destRow, swappingGems[k].destCol) && ValidColor(swappingGems[k].color, numGemTypes)
      {
        assert SameButPair(swappingGems[k], gems0[k]);
      }
    }

    /** The revert of Board.cpp:488-495: neither gem of a finished pair chained, so both swap back, unpaired. */
    method RevertSwap(i: int)
      requires GridValid() && ArrivalInv() && 0 <= i < |swappingGems| && !swappingGems[i].moving && swappingGems[i].HasValidPair()
      requires swappingGemPairs[swappingGems[i].swapPairIdx].HasFinished()
      modifies mat, mat.data, this`swappingGems, this`swappingGemPairs
      ensures GridValid() && ArrivalInv()
      ensures |swappingGems| >= |old(swappingGems)|
      ensures forall k :: 0 <= k < |old(swappingGems)| ==> Detached(swappingGems[k]) == Detached(old(swappingGems)[k])
      ensures Reverted(old(Grid()), old(swappingGems), old(swappingGemPairs), i)
    {
      var p := swappingGems[i].swapPairIdx;
      var pair := swappingGemPairs[p];
      var otherGemIdx := pair.gem1Idx + pair.gem2Idx - i;
      ghost var g0, gems0, pairs0 := Grid(), swappingGems, swappingGemPairs;
      var gem, other := swappingGems[i], swappingGems[otherGemIdx];
      ghost var color1, color2 := g0[gem.destRow][gem.destCol], g0[other.destRow][other.destCol];
      ReleaseReturningPair(p);
      ghost var released := (swappingGems, swappingGemPairs);
      StartUnpairedSwapKeepsInvariants(swappingGems, swappingGemPairs, layout, gem.destRow, gem.destCol, other.destRow, other.destCol,
                                       color1, color2);
      SwapGems(gem.destRow, gem.destCol, other.destRow, other.destCol, false);
      assert (swappingGems, swappingGemPairs) ==
               StartSwap(released.0, released.1, layout, gem.destRow, gem.destCol, other.destRow, other.destCol, color1, color2, false);
      assert Grid() == WithCell(WithCell(g0, gem.destRow, gem.destCol, Locked), other.destRow, other.destCol, Locked);
      assert Reverted(g0, gems0, pairs0, i);
      forall k | 0 <= k < |gems0|
        ensures Detached(swappingGems[k]) == Detached(gems0[k])
      {
        assert swappingGems[k] == swappingGems[..|released.0|][k];
        assert DetachedAll(released.0)[k] == DetachedAll(gems0)[k];
      }
    }

    /**
     * The removal loop: every gem that has stopped leaves the pool, its pair
     * released first; after a removal the same index is looked at again,
     * since the last gem has moved into it.
     */
    method RemoveArrivedGems()
      requires ArrivalInv()
      modifies this`swappingGems, this`swappingGemPairs
      ensures PoolValid() && Quiescent()
      ensures forall x: SwappingGem :: x.moving ==>
                multiset(DetachedAll(swappingGems))[x] == multiset(DetachedAll(old(swappingGems)))[x]
    {
      ghost var d0 := DetachedAll(swappingGems);
      var i := 0;
      while i < |swappingGems|
        invariant 0 <= i <= |swappingGems|
        invariant ArrivalInv()
        invariant forall k :: 0 <= k < i ==> swappingGems[k].moving
        invariant forall x: SwappingGem :: x.moving ==> multiset(DetachedAll(swappingGems))[x] == multiset(d0)[x]
        decreases |swappingGems| - i
      {
        if !swappingGems[i].moving {
          RemoveArrivedGem(i);
          i := i - 1;
        }
        i := i + 1;
      }
      LandedRemovedMeansQuiescent(swappingGems, swappingGemPairs);
    }

    /** One removal: release the stopped gem's pair, if any, then remove the gem. */
    method RemoveArrivedGem(i: int)
      requires ArrivalInv() && 0 <= i < |swappingGems| && !swappingGems[i].moving
      modifies this`swappingGems, this`swappingGemPairs
      ensures ArrivalInv() && |swappingGems| == |old(swappingGems)| - 1
      ensures forall k :: 0 <= k < i ==> Detached(swappingGems[k]) == Detached(old(swappingGems)[k])
      ensures forall x: SwappingGem :: x.moving ==>
                multiset(DetachedAll(swappingGems))[x] == multiset(DetachedAll(old(swappingGems)))[x]
    {
      if swappingGems[i].HasValidPair() {
        ReleaseArrivedPair(i);
      }
      ghost var gems1 := swappingGems;
      RemoveSwappingGemKeepsInvariants(swappingGems, swappingGemPairs, i);
      RemoveSwappingGem(i);
      forall k | 0 <= k < |swappingGems|
        ensures InGrid(swappingGems[k].destRow, swappingGems[k].destCol) && ValidColor(swappingGems[k].color, numGemTypes)
      {
        assert swappingGems[k] == RemoveElement(gems1, i)[k];
      }
    }

    /** releasePair on the pair of the stopped gem i (Board.cpp:513-516): the gem becomes unpaired, and the pool invariants hold again. */
    method ReleaseArrivedPair(i: int)
      requires ArrivalInv() && 0 <= i < |swappingGems| && !swappingGems[i].moving && swappingGems[i].HasValidPair()
      modifies this`swappingGems, this`swappingGemPairs
      ensures ArrivalInv() && |swappingGems| == |old(swappingGems)| && !swappingGems[i].moving && !swappingGems[i].HasValidPair()
      ensures DetachedAll(swappingGems) == DetachedAll(old(swappingGems))
      ensures (swappingGems, swappingGemPairs) == SwapPool.ReleasePair(old(swappingGems), old(swappingGemPairs), old(swappingGems)[i].swapPairIdx)
    {
      ghost var gems0 := swappingGems;
      var p := swappingGems[i].swapPairIdx;
      ReleasePairKeepsInvariants(swappingGems, swappingGemPairs, p);
      ReleasePairKeepsLinks(swappingGems, swappingGemPairs, p);
      ReleasePair(p);
      forall k | 0 <= k < |swappingGems|
        ensures InGrid(swappingGems[k].destRow, swappingGems[k].destCol) && ValidColor(swappingGems[k].color, numGemTypes)
      {
        assert SameButPair(swappingGems[k], gems0[k]);
      }
    }


    // -------------------------------------------------------------------------
    // updateFallingGems (Board.cpp:526-587)

    /** One frame of every column's falling gems, columns left to right. */
    method UpdateFallingGems()
      requires GridValid() && QueuesValid()
      modifies mat, mat.data, this`fallingGems, this`fallingGemsStartIdx, this`fallingGemsEndIdx, this`draws, this`score, this`erasedSounds
      ensures GridValid() && QueuesValid()
    {
      var fallCol := 0;
      while fallCol < Cols
        invariant 0 <= fallCol <= Cols && GridValid() && QueuesValid()
      {
        UpdateFallingColumn(fallCol);
        fallCol := fallCol + 1;
      }
    }

    /**
     * One frame of column c: every slot from the head up to the tail as they
     * were when the frame started takes one tick, read afresh from the ring
     * (a landing's re-solve may have enqueued over it). Only column c's head moves.
     */
    method UpdateFallingColumn(c: int)
      requires GridValid() && QueuesValid() && 0 <= c < Cols
      modifies mat, mat.data, this`fallingGems, this`fallingGemsStartIdx, this`fallingGemsEndIdx, this`draws, this`score, this`erasedSounds
      ensures GridValid() && QueuesValid()
      ensures forall j :: 0 <= j < RowsPlusOne && j != c ==> fallingGemsStartIdx[j] == old(fallingGemsStartIdx[j])
    {
      var endIdx := fallingGemsEndIdx[c];
      if endIdx < fallingGemsStartIdx[c] {
        endIdx := endIdx + RowsPlusOne;
      }
      var i := fallingGemsStartIdx[c];
      while i < endIdx
        invariant GridValid() && QueuesValid()
        invariant forall j :: 0 <= j < RowsPlusOne && j != c ==> fallingGemsStartIdx[j] == old(fallingGemsStartIdx[j])
        decreases endIdx - i
      {
        FallTick(c, i % RowsPlusOne);
        i := i + 1;
      }
    }

    /**
     * One tick of the gem in slot idx of column c: when the row below it is
     * blocked it lands, the column's head moves on (whichever slot landed),
     * and its colour is written in its row when that is on the board; a
     * landing in the top row after a player move re-solves the column.
     * Otherwise it falls one row.
     */
    method FallTick(c: int, idx: int)
      requires GridValid() && QueuesValid() && 0 <= c < Cols && IsRingIndex(idx)
      modifies mat, mat.data, this`fallingGems, this`fallingGemsStartIdx, this`fallingGemsEndIdx, this`draws, this`score, this`erasedSounds
      ensures GridValid() && QueuesValid()
      ensures forall j :: 0 <= j < RowsPlusOne && j != c ==> fallingGemsStartIdx[j] == old(fallingGemsStartIdx[j])
      ensures Blocked(old(Grid()), c, old(fallingGems[c][idx]).row) ==>
                fallingGemsStartIdx[c] == AdvanceStart(old(fallingGemsStartIdx[c])) &&
                if old(fallingGems[c][idx]).row == 0 && playerHasMoved then
                  Grid() == ColumnResolved(Landed(old(Grid()), c, old(fallingGems[c][idx])), c, 0) &&
                  IsFeed(old(CurrentFeed())) &&
                  CurrentFeed() == ResolvedFeed(Landed(old(Grid()), c, old(fallingGems[c][idx])), c, 0, old(CurrentFeed()), rand, numGemTypes)
                else
                  Grid() == Landed(old(Grid()), c, old(fallingGems[c][idx])) && CurrentFeed() == old(CurrentFeed())
      ensures !Blocked(old(Grid()), c, old(fallingGems[c][idx]).row) ==>
                Grid() == old(Grid()) && fallingGemsStartIdx == old(fallingGemsStartIdx) &&
                CurrentFeed() == old(CurrentFeed()).(rings := old(fallingGems)[c := old(fallingGems[c])[idx := Fallen(old(fallingGems[c][idx]))]])
    {
      var gem := fallingGems[c][idx];
      var nextRow := gem.row + 1;
      if nextRow >= 0 {
        if nextRow >= Rows || mat.Get(nextRow, c) != Empty {
          LandFallingGem(c, gem);
          return;
        }
      }
      fallingGems := fallingGems[c := fallingGems[c][idx := Fallen(gem)]];
    }

    /**
     * A blocked gem lands (Board.cpp:553-581): the column's head advances, the
     * colour is written into the gem's row when that row is on the board, and
     * a landing in the top row after a player move re-solves the column.
     */
    method LandFallingGem(c: int, gem: FallingGem)
      requires GridValid() && QueuesValid() && 0 <= c < Cols && gem.row < Rows && 0 <= gem.color < numGemTypes
      modifies mat, mat.data, this`fallingGems, this`fallingGemsStartIdx, this`fallingGemsEndIdx, this`draws, this`score, this`erasedSounds
      ensures GridValid() && QueuesValid()
      ensures fallingGemsStartIdx == old(fallingGemsStartIdx)[c := AdvanceStart(old(fallingGemsStartIdx[c]))]
      ensures if gem.row == 0 && playerHasMoved then
                Grid() == ColumnResolved(Landed(old(Grid()), c, gem), c, 0) &&
                IsFeed(old(CurrentFeed())) &&
                CurrentFeed() == ResolvedFeed(Landed(old(Grid()), c, gem), c, 0, old(CurrentFeed()), rand, numGemTypes)
              else
                Grid() == Landed(old(Grid()), c, gem) && CurrentFeed() == old(CurrentFeed())
    {
      var lastEmptyRow := gem.row;
      fallingGemsStartIdx := fallingGemsStartIdx[c := (fallingGemsStartIdx[c] + 1) % RowsPlusOne];
      if lastEmptyRow >= 0 {
        mat.Set(lastEmptyRow, c, gem.color);
      }
      if lastEmptyRow == 0 && playerHasMoved {
        ResolveColumn(c);
      }
    }

    /** The re-solve of column c, bottom row first: solveBoardAtPos on each of its static gems. */
    method ResolveColumn(c: int)
      requires GridValid() && QueuesValid() && 0 <= c < Cols
      modifies mat, mat.data, this`fallingGems, this`fallingGemsEndIdx, this`draws, this`score, this`erasedSounds
      ensures GridValid() && QueuesValid()
      ensures Grid() == ColumnResolved(old(Grid()), c, 0)
      ensures IsFeed(old(CurrentFeed())) && CurrentFeed() == ResolvedFeed(old(Grid()), c, 0, old(CurrentFeed()), rand, numGemTypes)
    {
      ghost var g0, q0 := Grid(), CurrentFeed();
      var checkedRow := Rows - 1;
      while checkedRow >= 0
        invariant -1 <= checkedRow < Rows && GridValid() && QueuesValid()
        invariant Grid() == ColumnResolved(g0, c, checkedRow + 1)
        invariant CurrentFeed() == ResolvedFeed(g0, c, checkedRow + 1, q0, rand, numGemTypes)
      {
        if IsStaticGem(mat.Get(checkedRow, c)) {
          var _ := SolveBoardAtPos(checkedRow, c);
        }
        checkedRow := checkedRow - 1;
      }
    }

    // -------------------------------------------------------------------------
    // update (Board.cpp:595-631)

    /**
     * One frame: refill the idle columns, run the clock while the game runs
     * (m_time_ms is a uint32_t, so it wraps), move the swapping and the
     * falling gems, and drop a captured cell whose colour has changed. The
     * float frame time is given already truncated to whole milliseconds, and
     * the swap animation's progress as the gems that arrive this frame.
     */
    method Update(dtMs: int, arriving: set<int>)
      requires Valid()
      modifies mat, mat.data, this`fallingGems, this`fallingGemsStartIdx, this`fallingGemsEndIdx, this`draws,
               this`swappingGems, this`swappingGemPairs, this`score, this`erasedSounds, this`boardState, this`timeMs
      ensures Valid()
      ensures timeMs == if gameRunning then (old(timeMs) + dtMs) % Uint32Modulus else old(timeMs)
    {
      StartFrame(dtMs);
      MoveGems(arriving);
      var _ := SolveSelectionValidity();
    }

    /** The first two steps of update: the refill of the idle columns, then the clock. */
    method StartFrame(dtMs: int)
      requires GridValid() && QueuesValid() && 0 <= timeMs < Uint32Modulus
      modifies this`fallingGems, this`fallingGemsEndIdx, this`draws, this`timeMs
      ensures QueuesValid() && 0 <= timeMs < Uint32Modulus
      ensures RefilledUpTo(Grid(), fallingGemsStartIdx, old(fallingGems), old(fallingGemsEndIdx), old(draws),
                           rand, numGemTypes, fallingGems, fallingGemsEndIdx, draws, Cols)
      ensures timeMs == if gameRunning then (old(timeMs) + dtMs) % Uint32Modulus else old(timeMs)
    {
      Refill();
      if gameRunning {
        timeMs := (timeMs + dtMs) % Uint32Modulus;
      }
    }

    /** The two animation steps of update: the swapping gems, then the falling gems. */
    method MoveGems(arriving: set<int>)
      requires GridValid() && QueuesValid() && PoolValid() && Quiescent()
      modifies mat, mat.data, this`swappingGems, this`swappingGemPairs, this`fallingGems, this`fallingGemsStartIdx,
               this`fallingGemsEndIdx, this`draws, this`score, this`erasedSounds
      ensures GridValid() && QueuesValid() && PoolValid() && Quiescent()
      ensures forall k :: 0 <= k < |old(swappingGems)| && k !in arriving ==>
                Detached(old(swappingGems)[k]) in multiset(DetachedAll(swappingGems))
    {
      UpdateSwappingGems(arriving);
      UpdateFallingGems();
    }

    /** The refill at the top of update: every column with no falling gem gets one for each of its Empty cells. */
    method Refill()
      requires GridValid() && QueuesValid()
      modifies this`fallingGems, this`fallingGemsEndIdx, this`draws
      ensures QueuesValid()
      ensures RefilledUpTo(Grid(), fallingGemsStartIdx, old(fallingGems), old(fallingGemsEndIdx), old(draws),
                           rand, numGemTypes, fallingGems, fallingGemsEndIdx, draws, Cols)
    {
      ghost var f0, e0, d0 := fallingGems, fallingGemsEndIdx, draws;
      var col := 0;
      while col < Cols
        invariant 0 <= col <= Cols && QueuesValid()
        invariant RefilledUpTo(Grid(), fallingGemsStartIdx, f0, e0, d0, rand, numGemTypes, fallingGems, fallingGemsEndIdx, draws, col)
      {
        RefilledUpToStep(Grid(), fallingGemsStartIdx, f0, e0, d0, rand, numGemTypes, fallingGems, fallingGemsEndIdx, draws, col);
        RefillColumn(col);
        col := col + 1;
      }
    }

    /**
     * Lines 601-617 for column col: when its queue is empty, each Empty cell,
     * bottom row first, gets a gem of a fresh colour starting one board
     * height above it.
     */
    method RefillColumn(col: int)
      requires GridValid() && QueuesValid() && 0 <= col < Cols
      modifies this`fallingGems, this`fallingGemsEndIdx, this`draws
      ensures QueuesValid()
      ensures var r := RefillResult(Grid(), col, old(fallingGems[col]), old(fallingGemsEndIdx[col]),
                                    IsIdle(fallingGemsStartIdx, old(fallingGemsEndIdx), col), rand, numGemTypes, old(draws));
              fallingGems == old(fallingGems)[col := r.0] && fallingGemsEndIdx == old(fallingGemsEndIdx)[col := r.1]
      ensures draws == old(draws) + if IsIdle(fallingGemsStartIdx, old(fallingGemsEndIdx), col) then EmptyCount(Grid(), col, 0) else 0
    {
      var endIdx := fallingGemsEndIdx[col];
      if endIdx < fallingGemsStartIdx[col] {
        endIdx := endIdx + RowsPlusOne;
      }
      var totalFalling := endIdx - fallingGemsStartIdx[col];
      if totalFalling != 0 {
        assert fallingGems == fallingGems[col := fallingGems[col]];
        assert fallingGemsEndIdx == fallingGemsEndIdx[col := fallingGemsEndIdx[col]];
        return;
      }
      ghost var g, f0, e0, d0 := Grid(), fallingGems, fallingGemsEndIdx, draws;
      var row := Rows - 1;
      while row >= 0
        invariant -1 <= row < Rows
        invariant RefillInv(col, row, g, f0, e0, d0)
      {
        RefillRow(col, row, g, f0, e0, d0);
        row := row - 1;
      }
      RefillGemsCount(g, col, 0, rand, numGemTypes, d0);
    }

    /** The refill loop's state, with every other column's queue as it was. */
    ghost predicate RefillInv(col: int, row: int, g: Grid, f0: seq<seq<FallingGem>>, e0: seq<int>, d0: nat)
      reads mat, mat.data, this`fallingGems, this`fallingGemsStartIdx, this`fallingGemsEndIdx, this`draws
      requires -1 <= row < Rows
    {
      GridValid() && QueuesValid() && 0 <= col < Cols && |f0| == Cols && |e0| == RowsPlusOne && g == Grid() &&
      IsRing(f0[col]) && IsRingIndex(e0[col]) &&
      fallingGems == f0[col := fallingGems[col]] && fallingGemsEndIdx == e0[col := fallingGemsEndIdx[col]] &&
      RefilledRows(g, col, row, f0[col], e0[col], d0, rand, numGemTypes, fallingGems[col], fallingGemsEndIdx[col], draws)
    }

    /** One turn of the refill loop: an Empty cell of row `row` enqueues a gem of the next fresh colour. */
    method RefillRow(col: int, row: int, ghost g: Grid, ghost f0: seq<seq<FallingGem>>, ghost e0: seq<int>, ghost d0: nat)
      requires 0 <= row < Rows && RefillInv(col, row, g, f0, e0, d0)
      modifies this`fallingGems, this`fallingGemsEndIdx, this`draws
      ensures RefillInv(col, row - 1, g, f0, e0, d0)
    {
      ghost var q, e := fallingGems[col], fallingGemsEndIdx[col];
      RefillStep(g, col, row, f0[col], e0[col], d0, rand, numGemTypes, q, e, draws);
      if mat.Get(row, col) == Empty {
        var color := RandColor(rand, numGemTypes, draws);
        ghost var r := Enqueue(q, e, FallingGem(row - Rows, color));
        draws := draws + 1;
        ghost var f1, e1 := fallingGems, fallingGemsEndIdx;
        AddFallingGem(col, row - Rows, color);
        assert fallingGems == f1[col := r.0] && fallingGemsEndIdx == e1[col := r.1];
        UpdateOverwrites(f0, col, q, r.0);
        UpdateOverwrites(e0, col, e, r.1);
      }
    }

    function GetScore(): (s: int)
      reads this`score
      ensures s == score
    {
      score
    }

    /** getSecondsLeft: whole seconds left on the clock, never negative. */
    function GetSecondsLeft(): (s: int)
      reads this`timeMs
      requires 0 <= timeMs < Uint32Modulus
      ensures 0 <= s <= TotalTimeSeconds && s == SecondsLeft(timeMs)
    {
      SecondsLeftBounds(timeMs);
      SecondsLeft(timeMs)
    }

    method SetGameRunning(running: bool)
      modifies this`gameRunning
      ensures gameRunning == running
    {
      gameRunning := running;
    }

    // -------------------------------------------------------------------------
    // The erase loops of solveBoardAtPos (Board.cpp:213-216, 244-247)

    method EmptyColumnRows(col: int, from: int, to: int)
      requires GridValid() && 0 <= col < Cols && 0 <= from <= to + 1 <= Rows
      modifies mat, mat.data
      ensures GridValid()
      ensures Grid() == ColumnEmptied(old(Grid()), col, from, to)
    {
      ghost var g0 := Grid();
      ColumnEmptiedNone(g0, col, from, from - 1);
      var row := from;
      while row <= to
        invariant from <= row <= to + 1
        invariant GridValid()
        invariant Grid() == ColumnEmptied(g0, col, from, row - 1)
      {
        ColumnEmptiedExtend(g0, col, from, row - 1);
        mat.Set(row, col, Empty);
        row := row + 1;
      }
    }

    method EmptyRowCols(row: int, from: int, to: int)
      requires GridValid() && 0 <= row < Rows && 0 <= from <= to + 1 <= Cols
      modifies mat, mat.data
      ensures GridValid()
      ensures Grid() == RowEmptied(old(Grid()), row, from, to)
    {
      ghost var g0 := Grid();
      RowEmptiedNone(g0, row, from, from - 1);
      var col := from;
      while col <= to
        invariant from <= col <= to + 1
        invariant GridValid()
        invariant Grid() == RowEmptied(g0, row, from, col - 1)
      {
        RowEmptiedExtend(g0, row, from, col - 1);
        mat.Set(row, col, Empty);
        col := col + 1;
      }
    }
  }
}
