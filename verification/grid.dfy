/**
 The playfield: a ROWS x COLS matrix of cells, 0 for empty and 1..7 for a
 settled block of palette colour `value - 1`. This module holds the
 collision test and the write that locks a piece into the field.
 */
module Grid {
  import opened Catalog

  type Board = seq<seq<int>>

  /** A fresh, all-empty row. */
  function EmptyRow(): seq<int> {
    seq(COLS, _ => 0)
  }

  /** The field at the start of a game. */
  function EmptyBoard(): Board {
    seq(ROWS, _ => EmptyRow())
  }

  /** ROWS rows of COLS cells each: the only shape the field ever has. */
  predicate Framed(b: Board) {
    |b| == ROWS && forall i :: 0 <= i < |b| ==> |b[i]| == COLS
  }

  /** A row of the field: COLS cells, each empty or a palette colour plus one. */
  predicate GoodRow(row: seq<int>) {
    |row| == COLS && forall j :: 0 <= j < |row| ==> 0 <= row[j] <= 7
  }

  /** A field in its invariant state. */
  predicate WellFormedBoard(b: Board) {
    |b| == ROWS && forall i :: 0 <= i < |b| ==> GoodRow(b[i])
  }

  /** Every filled cell of `s`, shifted by `(x, y)`, lies on the field. */
  predicate InBounds(x: int, y: int, s: Matrix) {
    forall row, col :: 0 <= row < |s| && 0 <= col < |s[row]| && s[row][col] != 0 ==>
      0 <= y + row < ROWS && 0 <= x + col < COLS
  }

  /**
   Cell `(row, col)` of `s`, placed at `(x, y)`, is filled and lands left of
   the field, right of it, below it, or on a non-empty cell. The disjuncts
   are ordered so that the field is only read at valid indices.
   */
  predicate Hits(b: Board, x: int, y: int, s: Matrix, row: int, col: int)
    requires Framed(b) && y >= 0
    requires 0 <= row < |s| && 0 <= col < |s[row]|
  {
    s[row][col] != 0 &&
    (x + col < 0 || x + col >= COLS || y + row >= ROWS || b[y + row][x + col] != 0)
  }

  /** Scan of row `row` of the shape from column `col` rightwards. */
  function CollidesInRow(b: Board, x: int, y: int, s: Matrix, row: int, col: int): (r: bool)
    requires Framed(b) && y >= 0
    requires 0 <= row < |s| && 0 <= col <= |s[row]|
    ensures r <==> exists c :: col <= c < |s[row]| && Hits(b, x, y, s, row, c)
    decreases |s[row]| - col
  {
    if col == |s[row]| then false
    else Hits(b, x, y, s, row, col) || CollidesInRow(b, x, y, s, row, col + 1)
  }

  /** Scan of the shape from row `row` downwards. */
  function CollidesFrom(b: Board, x: int, y: int, s: Matrix, row: int): (r: bool)
    requires Framed(b) && y >= 0
    requires 0 <= row <= |s|
    ensures r <==> exists rw, c :: row <= rw < |s| && 0 <= c < |s[rw]| && Hits(b, x, y, s, rw, c)
    decreases |s| - row
  {
    if row == |s| then false
    else CollidesInRow(b, x, y, s, row, 0) || CollidesFrom(b, x, y, s, row + 1)
  }

  /**
   The collision test: does some filled cell of `s`, placed with its top-left
   corner at column `x` and row `y`, fall outside the field to the left, right
   or bottom, or onto a settled block? Rows above the field are not checked;
   callers never pass a negative `y`.
   */
  function Collides(b: Board, x: int, y: int, s: Matrix): (r: bool)
    requires Framed(b) && y >= 0
    ensures r <==> exists row, col :: 0 <= row < |s| && 0 <= col < |s[row]| && Hits(b, x, y, s, row, col)
  {
    CollidesFrom(b, x, y, s, 0)
  }

  /** Some filled cell of `s` at `(x, y)` lies on the field over a settled block. */
  predicate Overlaps(b: Board, x: int, y: int, s: Matrix)
    requires Framed(b)
  {
    exists row, col :: 0 <= row < |s| && 0 <= col < |s[row]| && s[row][col] != 0
      && 0 <= y + row < ROWS && 0 <= x + col < COLS && b[y + row][x + col] != 0
  }

  /** With `y >= 0`, a collision is exactly "leaves the field" or "overlaps a block". */
  lemma CollidesIffBlocked(b: Board, x: int, y: int, s: Matrix)
    requires Framed(b) && y >= 0
    ensures Collides(b, x, y, s) <==> !InBounds(x, y, s) || Overlaps(b, x, y, s)
  {
    if Collides(b, x, y, s) {
      var row, col :| 0 <= row < |s| && 0 <= col < |s[row]| && Hits(b, x, y, s, row, col);
      if InBounds(x, y, s) {
        assert b[y + row][x + col] != 0;
      }
    }
    if !InBounds(x, y, s) {
      var row, col :| 0 <= row < |s| && 0 <= col < |s[row]| && s[row][col] != 0 &&
        !(0 <= y + row < ROWS && 0 <= x + col < COLS);
      assert Hits(b, x, y, s, row, col);
    }
    if Overlaps(b, x, y, s) {
      var row, col :| 0 <= row < |s| && 0 <= col < |s[row]| && s[row][col] != 0
        && 0 <= y + row < ROWS && 0 <= x + col < COLS && b[y + row][x + col] != 0;
      assert Hits(b, x, y, s, row, col);
    }
  }

  /** A position that passes the collision test is inside the field. */
  lemma NoCollisionInBounds(b: Board, x: int, y: int, s: Matrix)
    requires Framed(b) && y >= 0 && !Collides(b, x, y, s)
    ensures InBounds(x, y, s)
  {
    CollidesIffBlocked(b, x, y, s);
  }

  /** On the empty field, a shape collides exactly when it sticks out of the field. */
  lemma EmptyBoardCollision(x: int, y: int, s: Matrix)
    requires y >= 0
    ensures Collides(EmptyBoard(), x, y, s) <==> !InBounds(x, y, s)
  {
    CollidesIffBlocked(EmptyBoard(), x, y, s);
  }

  /** Cell `(i, j)` of the field lies under cell `(row, c)` of `s` at `(x, y)` for a filled `c >= col`. */
  predicate CoversInRow(x: int, y: int, s: Matrix, row: int, col: int, i: int, j: int)
    requires 0 <= row < |s|
  {
    i == y + row && 0 <= col <= j - x < |s[row]| && s[row][j - x] != 0
  }

  /** Cell `(i, j)` of the field lies under a filled cell of `s` at `(x, y)` in shape row `row` or later. */
  predicate CoversFrom(x: int, y: int, s: Matrix, row: int, i: int, j: int) {
    0 <= row <= i - y < |s| && 0 <= j - x < |s[i - y]| && s[i - y][j - x] != 0
  }

  /** The field with cell `(i, j)` set to `v`. */
  function Put(b: Board, i: int, j: int, v: int): Board
    requires 0 <= i < |b| && 0 <= j < |b[i]|
  {
    b[i := b[i][j := v]]
  }

  /** Writes `v` under the filled cells of shape row `row`, from column `col` on. */
  function LockRow(b: Board, x: int, y: int, s: Matrix, v: int, row: int, col: int): (r: Board)
    requires Framed(b) && InBounds(x, y, s)
    requires 0 <= row < |s| && 0 <= col <= |s[row]|
    ensures Framed(r)
    ensures forall i, j :: 0 <= i < ROWS && 0 <= j < COLS ==>
      r[i][j] == (if CoversInRow(x, y, s, row, col, i, j) then v else b[i][j])
    decreases |s[row]| - col
  {
    if col == |s[row]| then b
    else
      var b' := if s[row][col] != 0 then Put(b, y + row, x + col, v) else b;
      LockRow(b', x, y, s, v, row, col + 1)
  }

  /** Writes `v` under the filled cells of shape rows `row` and later. */
  function LockFrom(b: Board, x: int, y: int, s: Matrix, v: int, row: int): (r: Board)
    requires Framed(b) && InBounds(x, y, s)
    requires 0 <= row <= |s|
    ensures Framed(r)
    ensures forall i, j :: 0 <= i < ROWS && 0 <= j < COLS ==>
      r[i][j] == (if CoversFrom(x, y, s, row, i, j) then v else b[i][j])
    decreases |s| - row
  {
    if row == |s| then b
    else LockFrom(LockRow(b, x, y, s, v, row, 0), x, y, s, v, row + 1)
  }

  /**
   Locks shape `s` at `(x, y)` into the field in colour `colour`: exactly the
   cells under its filled cells become `colour + 1`, every other cell keeps
   its value.
   */
  function Lock(b: Board, x: int, y: int, s: Matrix, colour: ColourIndex): (r: Board)
    requires Framed(b) && InBounds(x, y, s)
    ensures Framed(r)
    ensures forall i, j :: 0 <= i < ROWS && 0 <= j < COLS ==>
      r[i][j] == (if CoversFrom(x, y, s, 0, i, j) then colour + 1 else b[i][j])
  {
    LockFrom(b, x, y, s, colour + 1, 0)
  }

  /** Locking keeps every cell of the field in 0..7. */
  lemma LockKeepsWellFormed(b: Board, x: int, y: int, s: Matrix, colour: ColourIndex)
    requires WellFormedBoard(b) && InBounds(x, y, s)
    ensures WellFormedBoard(Lock(b, x, y, s, colour))
  {
    var r := Lock(b, x, y, s, colour);
    forall i | 0 <= i < ROWS
      ensures GoodRow(r[i])
    {
      forall j | 0 <= j < COLS
        ensures 0 <= r[i][j] <= 7
      {
        assert 0 <= b[i][j] <= 7;
      }
    }
  }
}
