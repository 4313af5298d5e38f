/**
 The fixed data of the falling-block game: the playfield size, the colour
 palette and the seven piece shapes. Shapes are 0/1 matrices indexed
 `shape[row][col]`.
 */
module Catalog {

  const ROWS: nat := 20
  const COLS: nat := 15

  /** A row-major matrix of cell values: `m[row][col]`. */
  type Matrix = seq<seq<int>>

  /** The palette, in the order the game looks colours up. */
  const Colours: seq<string> := ["cyan", "blue", "orange", "yellow", "green", "purple", "red"]

  /** A colour is carried as its position in `Colours`; a shape as its position in `Shapes`. */
  type ColourIndex = i: nat | i < 7
  type ShapeIndex = i: nat | i < 7

  /** I, T, S, Z, O, L and J, in that order. */
  const Shapes: seq<Matrix> := [
    [[1, 1, 1, 1]],
    [[1, 1, 1], [0, 1, 0]],
    [[1, 1, 0], [0, 1, 1]],
    [[0, 1, 1], [1, 1, 0]],
    [[1, 1], [1, 1]],
    [[1, 1, 1], [1, 0, 0]],
    [[1, 1, 1], [0, 0, 1]]
  ]

  /** At least one row, and every row as long as the first. */
  predicate Rectangular(s: Matrix) {
    |s| > 0 && forall row :: 0 <= row < |s| ==> |s[row]| == |s[0]|
  }

  /** A shape the game can hold: a non-degenerate rectangle of 0/1 cells. */
  predicate WellFormedShape(s: Matrix) {
    && Rectangular(s)
    && |s[0]| > 0
    && forall row, col :: 0 <= row < |s| && 0 <= col < |s[row]| ==> s[row][col] == 0 || s[row][col] == 1
  }

  /** Number of columns of a shape (the length of its first row). */
  function Width(s: Matrix): nat
    requires |s| > 0
  {
    |s[0]|
  }

  /** The coordinates of the filled cells of a matrix. */
  function FilledCells(s: Matrix): set<(int, int)> {
    set row, col | 0 <= row < |s| && 0 <= col < |s[row]| && s[row][col] != 0 :: (row, col)
  }

  /** Every catalogue shape is well formed, at most 2 rows tall and at most 4 columns wide. */
  lemma CatalogShapes(i: ShapeIndex)
    ensures WellFormedShape(Shapes[i])
    ensures |Shapes[i]| <= 2 && Width(Shapes[i]) <= 4
  {
  }

  /**
   Position of the first occurrence of `name` in `names`, or -1 when it does
   not occur (the lookup the game uses to turn a colour name into a number).
   */
  function IndexOf(names: seq<string>, name: string): (r: int)
    ensures -1 <= r < |names|
    ensures r == -1 <==> name !in names
    ensures r >= 0 ==> names[r] == name && forall j :: 0 <= j < r ==> names[j] != name
  {
    if |names| == 0 then -1
    else if names[0] == name then 0
    else
      var k := IndexOf(names[1..], name);
      if k == -1 then -1 else k + 1
  }

  /** No name occurs twice in `names`. */
  predicate Distinct(names: seq<string>) {
    forall a, b :: 0 <= a < b < |names| ==> names[a] != names[b]
  }

  /** In a list without repeats, looking up the name at position `i` gives back `i`. */
  lemma IndexOfDistinct(names: seq<string>, i: int)
    requires Distinct(names) && 0 <= i < |names|
    ensures IndexOf(names, names[i]) == i
  {
    assert names[i] in names;
  }

  /** The palette has no repeated name, so looking up the colour at position `i` gives back `i`. */
  lemma ColourIndexRoundTrip(i: ColourIndex)
    ensures IndexOf(Colours, Colours[i]) == i
  {
    // the seven names already differ in their first letter
    var initials := "cboygpr";
    forall a | 0 <= a < |Colours|
      ensures Colours[a][0] == initials[a]
    {
    }
    IndexOfDistinct(Colours, i);
  }
}
