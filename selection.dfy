// The click-and-drag selection logic of mouseEvent (SDLGame/Board.cpp:307-382)
// as pure functions of the captured cell, the cell under the pointer and the
// button: which cell a swap is started with, and the selection state after
// the event.
module Selection {
  import opened BoardConfig

  datatype BoardState = FirstSelection | SecondSelection

  function Abs(x: int): (a: nat)
    ensures a == x || a == -x
  {
    if x < 0 then -x else x
  }

  /** The Manhattan distance between two cells. */
  function Distance(r1: int, c1: int, r2: int, c2: int): nat
  {
    Abs(r1 - r2) + Abs(c1 - c2)
  }

  /** The offset toward the clicked cell: -1 when the captured index minus the clicked one is positive, +1 otherwise. */
  function Toward(dist: int): (step: int)
    ensures step == 1 || step == -1
    ensures dist != 0 ==> Abs(dist + step) + 1 == Abs(dist)
  {
    if dist > 0 then -1 else 1
  }

  predicate OnBoard(row: int, col: int)
  {
    0 <= row < Rows && 0 <= col < Cols
  }

  /**
   * The cell mouseEvent swaps the captured cell (lastRow, lastCol) with, or
   * (-1, -1) for none: the clicked cell itself when it is a neighbour and the
   * button went down; on a release in the second selection state away from
   * the captured cell along its row or column, the captured cell's neighbour
   * in that direction.
   */
  function SwapTarget(lastRow: int, lastCol: int, rowClicked: int, colClicked: int,
                      state: BoardState, mouseDown: bool): (t: (int, int))
    ensures t == (-1, -1) || Distance(lastRow, lastCol, t.0, t.1) == 1
    ensures mouseDown ==> t == (-1, -1) || t == (rowClicked, colClicked)
    ensures state == FirstSelection && !mouseDown ==> t == (-1, -1)
  {
    var distRow := lastRow - rowClicked;
    var distCol := lastCol - colClicked;
    var dist := Abs(distRow) + Abs(distCol);
    if dist == 1 && mouseDown then (rowClicked, colClicked)
    else if state == SecondSelection && !mouseDown && dist != 0 && (Abs(distRow) == 0 || Abs(distCol) == 0) then
      if Abs(distRow) == 0 then (lastRow, lastCol + Toward(distCol))
      else (lastRow + Toward(distRow), lastCol)
    else (-1, -1)
  }

  /**
   * Every swap target is a cell of the board next to the captured cell; the
   * source's test `rowToSwapWith >= 0 && colToSwapWith >= 0` tells a target
   * from the (-1, -1) of no target.
   */
  lemma SwapTargetIsNeighbour(lastRow: int, lastCol: int, rowClicked: int, colClicked: int,
                              state: BoardState, mouseDown: bool)
    requires OnBoard(lastRow, lastCol) && OnBoard(rowClicked, colClicked)
    ensures var t := SwapTarget(lastRow, lastCol, rowClicked, colClicked, state, mouseDown);
            (t.0 >= 0 && t.1 >= 0) == (t != (-1, -1))
    ensures var t := SwapTarget(lastRow, lastCol, rowClicked, colClicked, state, mouseDown);
            t != (-1, -1) ==> OnBoard(t.0, t.1) && Distance(lastRow, lastCol, t.0, t.1) == 1
  {
  }

  /**
   * A drag released along the captured cell's row or column snaps to the
   * captured cell's immediate neighbour toward the release point: one step
   * closer to it than the captured cell.
   */
  lemma DragSnapsTowardRelease(lastRow: int, lastCol: int, rowClicked: int, colClicked: int)
    requires OnBoard(lastRow, lastCol) && OnBoard(rowClicked, colClicked)
    requires (lastRow == rowClicked) != (lastCol == colClicked)
    ensures var t := SwapTarget(lastRow, lastCol, rowClicked, colClicked, SecondSelection, false);
            Distance(lastRow, lastCol, t.0, t.1) == 1 &&
            Distance(t.0, t.1, rowClicked, colClicked) + 1 == Distance(lastRow, lastCol, rowClicked, colClicked)
  {
  }

  /** Releasing the button without a captured cell never swaps. */
  lemma FirstSelectionReleaseNeverSwaps(lastRow: int, lastCol: int, rowClicked: int, colClicked: int)
    ensures SwapTarget(lastRow, lastCol, rowClicked, colClicked, FirstSelection, false) == (-1, -1)
  {
  }

  /**
   * The selection state after a click on a static gem that passed the
   * validity check: a press in the first state captures the cell; otherwise
   * the state resets unless the button was released over the captured cell.
   */
  function StateAfterClick(state: BoardState, mouseDown: bool, isSelf: bool): (s: BoardState)
    ensures s == SecondSelection <==>
              (state == FirstSelection && mouseDown) || (state == SecondSelection && !mouseDown && isSelf)
  {
    if state == FirstSelection && mouseDown then SecondSelection
    else if mouseDown || !isSelf then FirstSelection
    else state
  }
}
