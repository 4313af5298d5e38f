/**
 Quarter-turn rotation of a shape. An R x C shape becomes a C x R shape
 whose cell `[y][x]` is the original cell `[R-1-x][y]`: a clockwise turn.
 */
module Rotation {
  import opened Catalog

  /** The shape turned 90 degrees clockwise; no bounds or collision checks. */
  function Rotate(s: Matrix): (r: Matrix)
    requires Rectangular(s)
    ensures |r| == |s[0]|
    ensures forall y :: 0 <= y < |r| ==> |r[y]| == |s|
  {
    seq(|s[0]|, y requires 0 <= y < |s[0]| =>
      seq(|s|, x requires 0 <= x < |s| => s[|s| - 1 - x][y]))
  }

  /** Rotation keeps a well-formed shape well formed, with the dimensions swapped. */
  lemma RotateWellFormed(s: Matrix)
    requires WellFormedShape(s)
    ensures WellFormedShape(Rotate(s))
    ensures |Rotate(s)| == Width(s) && Width(Rotate(s)) == |s|
  {
  }

  /** Two quarter turns make a half turn: rows and columns are both read backwards. */
  lemma RotateTwice(s: Matrix)
    requires Rectangular(s) && |s[0]| > 0
    ensures Rectangular(Rotate(s))
    ensures var h := Rotate(Rotate(s));
      && |h| == |s|
      && (forall a :: 0 <= a < |h| ==> |h[a]| == |s[0]|)
      && (forall a, b :: 0 <= a < |s| && 0 <= b < |s[0]| ==> h[a][b] == s[|s| - 1 - a][|s[0]| - 1 - b])
  {
    var r := Rotate(s);
    var h := Rotate(r);
    forall a, b | 0 <= a < |s| && 0 <= b < |s[0]|
      ensures h[a][b] == s[|s| - 1 - a][|s[0]| - 1 - b]
    {
      assert h[a][b] == r[|s[0]| - 1 - b][a];
    }
  }

  /** Rotation has period four: four quarter turns give back the original shape. */
  lemma RotateFourTimes(s: Matrix)
    requires Rectangular(s) && |s[0]| > 0
    ensures Rectangular(Rotate(s))
    ensures Rectangular(Rotate(Rotate(s)))
    ensures Rectangular(Rotate(Rotate(Rotate(s))))
    ensures Rotate(Rotate(Rotate(Rotate(s)))) == s
  {
    RotateTwice(s);
    var h := Rotate(Rotate(s));
    RotateTwice(h);
    var f := Rotate(Rotate(h));
    assert |f| == |s|;
    forall a | 0 <= a < |s|
      ensures f[a] == s[a]
    {
      forall b | 0 <= b < |s[0]|
        ensures f[a][b] == s[a][b]
      {
        assert f[a][b] == h[|s| - 1 - a][|s[0]| - 1 - b];
      }
    }
  }

  /** Where a filled cell `(row, col)` of an R-row shape lands after a quarter turn. */
  function Turn(p: (int, int), rows: int): (int, int) {
    (p.1, rows - 1 - p.0)
  }

  /** Rotation moves every filled cell along `Turn` and creates no other filled cell. */
  lemma RotateMovesCells(s: Matrix)
    requires Rectangular(s)
    ensures FilledCells(Rotate(s)) == set p | p in FilledCells(s) :: Turn(p, |s|)
  {
    var r := Rotate(s);
    forall q | q in FilledCells(r)
      ensures q in set p | p in FilledCells(s) :: Turn(p, |s|)
    {
      var p := (|s| - 1 - q.1, q.0);
      assert p in FilledCells(s);
      assert Turn(p, |s|) == q;
    }
  }

  /** `Turn` is one-to-one, so it maps a set of cells onto a set of the same size. */
  lemma {:induction false} TurnKeepsCount(cells: set<(int, int)>, rows: int)
    ensures |set p | p in cells :: Turn(p, rows)| == |cells|
    decreases |cells|
  {
    if cells != {} {
      var p :| p in cells;
      var rest := cells - {p};
      TurnKeepsCount(rest, rows);
      var image := set q | q in rest :: Turn(q, rows);
      assert (set q | q in cells :: Turn(q, rows)) == image + {Turn(p, rows)};
      assert Turn(p, rows) !in image;
    }
  }

  /** Rotation keeps the number of filled cells. */
  lemma RotateKeepsFilledCount(s: Matrix)
    requires Rectangular(s)
    ensures |FilledCells(Rotate(s))| == |FilledCells(s)|
  {
    RotateMovesCells(s);
    TurnKeepsCount(FilledCells(s), |s|);
  }
}
