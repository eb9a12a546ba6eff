// The fixed-size, bounds-checked matrix the board stores its cells in
// (SDLGame/Matrix.h). The template dimensions ROWS and COLS become constant
// fields fixed at construction; `cells` is the ghost view of the array the
// contracts speak about.
module Matrix {

  class Matrix<T> {
    const numRows: nat
    const numCols: nat
    const data: array2<T>
    /** The contents, row by row. */
    ghost var cells: seq<seq<T>>

    ghost predicate Valid()
      reads this, data
    {
      data.Length0 == numRows && data.Length1 == numCols &&
      |cells| == numRows && (forall i :: 0 <= i < numRows ==> |cells[i]| == numCols) &&
      forall i, j :: 0 <= i < numRows && 0 <= j < numCols ==> cells[i][j] == data[i, j]
    }

    constructor (rows: nat, cols: nat, init: T)
      ensures Valid() && fresh(data)
      ensures numRows == rows && numCols == cols
      ensures forall i, j :: 0 <= i < rows && 0 <= j < cols ==> cells[i][j] == init
    {
      numRows, numCols := rows, cols;
      data := new T[rows, cols]((i, j) => init);
      cells := seq(rows, i => seq(cols, j => init));
    }

    /** GetNumRows: the template's ROWS. */
    function GetNumRows(): (n: nat)
      reads this, data
      requires Valid()
      ensures n == data.Length0 == |cells|
    {
      numRows
    }

    /** GetNumCols: the template's COLS. */
    function GetNumCols(): (n: nat)
      reads this, data
      requires Valid()
      ensures n == data.Length1
      ensures forall i :: 0 <= i < |cells| ==> n == |cells[i]|
    {
      numCols
    }

    /** The const accessor: a copy of one cell; the matrix is left as it is. */
    function Get(row: int, col: int): (v: T)
      reads this, data
      requires Valid()
      requires 0 <= row < numRows && 0 <= col < numCols
      ensures v == cells[row][col]
    {
      data[row, col]
    }

    /** A write through the reference the mutable accessor returns: only cell (row, col) changes. */
    method Set(row: int, col: int, v: T)
      requires Valid()
      requires 0 <= row < numRows && 0 <= col < numCols
      modifies this, data
      ensures Valid()
      ensures cells == old(cells)[row := old(cells)[row][col := v]]
    {
      data[row, col] := v;
      cells := cells[row := cells[row][col := v]];
    }
  }
}
