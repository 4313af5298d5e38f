/**
 Clearing of completed rows. The game scans the field from the bottom row
 up; a full row is spliced out, an empty row is pushed on top, and the scan
 moves on to the next index up. The row that has just slid down into the
 cleared index is therefore never looked at in the same pass: one pass
 never removes both of two adjacent full rows, and a full row stays exactly
 when the row just below it was removed.

 `ClearFrom` is that scan, step by step on the changing field. `Removed`,
 `KeptFrom` and `CountBelow` describe the same outcome directly in terms
 of the field as it was before the pass; `ClearLines` ties the two together.
 */
module Lines {
  import opened Catalog
  import opened Grid
  import opened Scoring

  /** Every cell of the row is non-empty. */
  predicate Full(row: seq<int>) {
    forall j :: 0 <= j < |row| ==> row[j] != 0
  }

  /** `k` empty rows. */
  function Zeros(k: nat): Board {
    seq(k, _ => EmptyRow())
  }

  datatype Settled = Settled(board: Board, progress: Progress)

  /** The scan as the game runs it, from index `row` upwards, on the field as it changes. */
  function ClearFrom(b: Board, row: int, p: Progress): Settled
    requires -1 <= row < |b|
    decreases row + 1
  {
    if row < 0 then Settled(b, p)
    else if Full(b[row]) then ClearFrom([EmptyRow()] + b[..row] + b[row + 1..], row - 1, AddRow(p))
    else ClearFrom(b, row - 1, p)
  }

  /**
   Row `i` of the field before the pass is removed by it: it is full, and the
   row just below it was not removed (a removal makes the scan skip the row
   above it).
   */
  predicate Removed(rows: Board, i: int)
    requires 0 <= i < |rows|
    decreases |rows| - i
  {
    Full(rows[i]) && (i + 1 == |rows| || !Removed(rows, i + 1))
  }

  /** The rows at index `m` and later that the pass keeps, top to bottom. */
  function KeptFrom(rows: Board, m: nat): Board
    requires m <= |rows|
    decreases |rows| - m
  {
    if m == |rows| then []
    else (if Removed(rows, m) then [] else [rows[m]]) + KeptFrom(rows, m + 1)
  }

  /** How many of the rows above index `m` the pass removes. */
  function CountBelow(rows: Board, m: nat): nat
    requires m <= |rows|
  {
    if m == 0 then 0
    else CountBelow(rows, m - 1) + (if Removed(rows, m - 1) then 1 else 0)
  }

  /** The scan leaves a field whose rows `0..row` are all empty exactly as it is. */
  lemma {:induction false} ScanOverEmptyRows(b: Board, row: int, p: Progress)
    requires -1 <= row < |b|
    requires forall i :: 0 <= i <= row ==> b[i] == EmptyRow()
    ensures ClearFrom(b, row, p) == Settled(b, p)
    decreases row + 1
  {
    if row >= 0 {
      assert b[row][0] == 0;
      ScanOverEmptyRows(b, row - 1, p);
    }
  }

  /**
   The field in the middle of the scan: `k` empty rows pushed on top, then the
   rows of `orig` above index `m` that the scan has not reached yet, then the
   rows the reference keeps from `m` on.
   */
  function Scanned(orig: Board, k: nat, m: nat): Board
    requires m <= |orig|
  {
    Zeros(k) + orig[..m] + KeptFrom(orig, m)
  }

  /**
   The rest of the scan, standing on row `row == k + m - 1` of `Scanned(orig, k, m)`.
   The row is passed alongside `k` and `m` so that each step names the next row
   `row - 1`, exactly as the scan itself does.
   */
  function Resume(orig: Board, k: nat, m: nat, row: int, p: Progress): Settled
    requires m <= |orig| && row == k + m - 1
  {
    ClearFrom(Scanned(orig, k, m), row, p)
  }

  /**
   The reference outcome seen from the middle of the scan: `k` plus the rows
   removed above index `m` empty rows on top, the kept rows below them, and
   one bookkeeping step per row removed above index `m`.
   */
  function Target(orig: Board, k: nat, m: nat, p: Progress): Settled
    requires m <= |orig|
  {
    Settled(Zeros(k + CountBelow(orig, m)) + KeptFrom(orig, 0), AddRows(p, CountBelow(orig, m)))
  }

  /**
   The scan invariant: the scan, standing on row `k + m - 1` of
   `Scanned(orig, k, m)`, produces the reference outcome.
   */
  lemma {:induction false} ScanMatches(orig: Board, k: nat, m: nat, row: int, p: Progress)
    requires m <= |orig| && row == k + m - 1
    requires m == |orig| || !Removed(orig, m)
    ensures Resume(orig, k, m, row, p) == Target(orig, k, m, p)
    decreases m, 1
  {
    if m == 0 {
      StepAtTop(orig, k, row, p);
      TargetAtTop(orig, k, p);
    } else if Full(orig[m - 1]) {
      ScanFullRow(orig, k, m, row, p);
    } else {
      ScanKeptRow(orig, k, m, row, p);
    }
  }

  /** The scan invariant, for a step where the scanned row is not full. */
  lemma {:induction false} ScanKeptRow(orig: Board, k: nat, m: nat, row: int, p: Progress)
    requires 1 <= m <= |orig| && row == k + m - 1 && !Full(orig[m - 1])
    ensures Resume(orig, k, m, row, p) == Target(orig, k, m, p)
    decreases m, 0
  {
    StepKeep(orig, k, m, row, p);
    TargetKeep(orig, k, m, p);
    ScanMatches(orig, k, m - 1, row - 1, p);
  }

  /** The scan invariant, for a step where the scanned row is full. */
  lemma {:induction false} ScanFullRow(orig: Board, k: nat, m: nat, row: int, p: Progress)
    requires 1 <= m <= |orig| && row == k + m - 1 && Full(orig[m - 1])
    requires m == |orig| || !Removed(orig, m)
    ensures Resume(orig, k, m, row, p) == Target(orig, k, m, p)
    decreases m, 0
  {
    if m == 1 {
      StepRemoveTop(orig, k, row, p);
      TargetTop(orig, k, p);
    } else {
      StepRemove(orig, k, m, row, p);
      TargetRemove(orig, k, m, p);
      ScanMatches(orig, k + 1, m - 2, row - 1, AddRow(p));
    }
  }

  /** Once every row of `orig` has been passed, only empty rows are left to scan. */
  lemma StepAtTop(orig: Board, k: nat, row: int, p: Progress)
    requires row == k - 1
    ensures Resume(orig, k, 0, row, p) == Settled(Zeros(k) + KeptFrom(orig, 0), p)
  {
    assert orig[..0] == [];
    assert Scanned(orig, k, 0) == Zeros(k) + KeptFrom(orig, 0);
    ScanOverEmptyRows(Scanned(orig, k, 0), row, p);
  }

  /** A scanned row that is not full stays; the invariant moves up one row. */
  lemma StepKeep(orig: Board, k: nat, m: nat, row: int, p: Progress)
    requires 1 <= m <= |orig| && row == k + m - 1 && !Full(orig[m - 1])
    ensures !Removed(orig, m - 1)
    ensures Resume(orig, k, m, row, p) == Resume(orig, k, m - 1, row - 1, p)
  {
    Layout(orig, k, m, row);
    KeepRow(orig, k, m);
  }

  /**
   A scanned full row goes and an empty row is pushed on top; the row above it
   slides into its place and is passed over, so the invariant moves up two rows.
   */
  lemma StepRemove(orig: Board, k: nat, m: nat, row: int, p: Progress)
    requires 2 <= m <= |orig| && row == k + m - 1 && Full(orig[m - 1])
    requires m == |orig| || !Removed(orig, m)
    ensures !Removed(orig, m - 2)
    ensures Resume(orig, k, m, row, p) == Resume(orig, k + 1, m - 2, row - 1, AddRow(p))
  {
    Layout(orig, k, m, row);
    ShiftDown(orig, k, m);
  }

  /** The same step on the top row of `orig`: the rest of the scan only meets empty rows. */
  lemma StepRemoveTop(orig: Board, k: nat, row: int, p: Progress)
    requires 1 <= |orig| && row == k && Full(orig[0])
    requires 1 == |orig| || !Removed(orig, 1)
    ensures Resume(orig, k, 1, row, p) == Settled(Zeros(k + 1) + KeptFrom(orig, 0), AddRow(p))
  {
    Layout(orig, k, 1, row);
    ShiftDownTop(orig, k);
    ScanOverEmptyRows(Zeros(k + 1) + KeptFrom(orig, 0), row - 1, AddRow(p));
  }

  /** With nothing of `orig` left to scan, the reference outcome is the field as it stands. */
  lemma TargetAtTop(orig: Board, k: nat, p: Progress)
    ensures Target(orig, k, 0, p) == Settled(Zeros(k) + KeptFrom(orig, 0), p)
  {
  }

  /** A kept row adds nothing to the reference outcome. */
  lemma TargetKeep(orig: Board, k: nat, m: nat, p: Progress)
    requires 1 <= m <= |orig| && !Full(orig[m - 1])
    ensures Target(orig, k, m, p) == Target(orig, k, m - 1, p)
  {
    assert !Removed(orig, m - 1);
  }

  /** A removed row moves one empty row and one bookkeeping step into the reference outcome. */
  lemma TargetRemove(orig: Board, k: nat, m: nat, p: Progress)
    requires 2 <= m <= |orig| && Full(orig[m - 1])
    requires m == |orig| || !Removed(orig, m)
    ensures Target(orig, k, m, p) == Target(orig, k + 1, m - 2, AddRow(p))
  {
    RemovedAbove(orig, m);
    var c := CountBelow(orig, m - 2);
    assert k + CountBelow(orig, m) == k + 1 + c;
    assert AddRows(p, c + 1) == AddRows(AddRow(p), c);
  }

  /** The same on the top row of `orig`. */
  lemma TargetTop(orig: Board, k: nat, p: Progress)
    requires 1 <= |orig| && Full(orig[0])
    requires 1 == |orig| || !Removed(orig, 1)
    ensures Target(orig, k, 1, p) == Settled(Zeros(k + 1) + KeptFrom(orig, 0), AddRow(p))
  {
    assert Removed(orig, 0);
    assert CountBelow(orig, 1) == 1;
    assert AddRows(p, 1) == AddRow(p);
  }

  /** Where the scanned row, and what lies above and below it, sit in `Scanned(orig, k, m)`. */
  lemma Layout(orig: Board, k: nat, m: nat, row: int)
    requires 1 <= m <= |orig| && row == k + m - 1
    ensures 0 <= row < |Scanned(orig, k, m)|
    ensures Scanned(orig, k, m)[row] == orig[m - 1]
    ensures Scanned(orig, k, m)[..row] == Zeros(k) + orig[..m - 1]
    ensures Scanned(orig, k, m)[row + 1..] == KeptFrom(orig, m)
  {
  }

  /** The field is the same whether the not-full row `m - 1` counts as unscanned or as kept. */
  lemma KeepRow(orig: Board, k: nat, m: nat)
    requires 1 <= m <= |orig| && !Full(orig[m - 1])
    ensures Scanned(orig, k, m) == Scanned(orig, k, m - 1)
    ensures !Removed(orig, m - 1)
    ensures CountBelow(orig, m) == CountBelow(orig, m - 1)
  {
    assert KeptFrom(orig, m - 1) == [orig[m - 1]] + KeptFrom(orig, m);
    assert orig[..m] == orig[..m - 1] + [orig[m - 1]];
  }

  /** Pushing an empty row on top of `k` empty rows gives `k + 1` of them. */
  lemma PushEmpty(k: nat)
    ensures [EmptyRow()] + Zeros(k) == Zeros(k + 1)
  {
  }

  /** The field after splicing out full row `m - 1` and pushing an empty row on top. */
  lemma ShiftDown(orig: Board, k: nat, m: nat)
    requires 2 <= m <= |orig| && Full(orig[m - 1])
    requires m == |orig| || !Removed(orig, m)
    ensures Removed(orig, m - 1) && !Removed(orig, m - 2)
    ensures [EmptyRow()] + (Zeros(k) + orig[..m - 1]) + KeptFrom(orig, m) == Scanned(orig, k + 1, m - 2)
    ensures CountBelow(orig, m) == CountBelow(orig, m - 2) + 1
  {
    RemovedAbove(orig, m);
    var tail := KeptFrom(orig, m);
    assert orig[..m - 1] == orig[..m - 2] + [orig[m - 2]];
    PushEmpty(k);
    Regroup(EmptyRow(), Zeros(k), orig[..m - 2], orig[m - 2], tail);
  }

  /** Row `m - 1` is removed, so row `m - 2` is passed over and kept. */
  lemma RemovedAbove(orig: Board, m: nat)
    requires 2 <= m <= |orig| && Full(orig[m - 1])
    requires m == |orig| || !Removed(orig, m)
    ensures Removed(orig, m - 1) && !Removed(orig, m - 2)
    ensures KeptFrom(orig, m - 2) == [orig[m - 2]] + KeptFrom(orig, m)
    ensures CountBelow(orig, m) == CountBelow(orig, m - 2) + 1
  {
    assert KeptFrom(orig, m - 1) == KeptFrom(orig, m);
  }

  /** Re-bracketing of the spliced field. */
  lemma Regroup(e: seq<int>, z: Board, a: Board, x: seq<int>, t: Board)
    ensures [e] + (z + (a + [x])) + t == ([e] + z) + a + ([x] + t)
  {
  }

  /** The same splice on the top row of `orig`: nothing of `orig` is left above the empty rows. */
  lemma ShiftDownTop(orig: Board, k: nat)
    requires 1 <= |orig| && Full(orig[0])
    requires 1 == |orig| || !Removed(orig, 1)
    ensures Removed(orig, 0)
    ensures [EmptyRow()] + (Zeros(k) + orig[..0]) + KeptFrom(orig, 1) == Zeros(k + 1) + KeptFrom(orig, 0)
    ensures CountBelow(orig, 1) == 1
  {
    assert Removed(orig, 0);
    assert KeptFrom(orig, 0) == KeptFrom(orig, 1);
    assert CountBelow(orig, 1) == CountBelow(orig, 0) + 1;
    var tail := KeptFrom(orig, 1);
    PushEmpty(k);
    calc {
      [EmptyRow()] + (Zeros(k) + orig[..0]) + tail;
      { assert Zeros(k) + orig[..0] == Zeros(k); }
      ([EmptyRow()] + Zeros(k)) + tail;
      Zeros(k + 1) + tail;
    }
  }

  /** The scan started on the bottom row computes the reference outcome. */
  lemma ClearLinesMatchesScan(b: Board, p: Progress)
    requires |b| == ROWS
    ensures ClearFrom(b, ROWS - 1, p) == Settled(Zeros(CountBelow(b, ROWS)) + KeptFrom(b, 0), AddRows(p, CountBelow(b, ROWS)))
  {
    assert Scanned(b, 0, ROWS) == b;
    ScanMatches(b, 0, ROWS, ROWS - 1, p);
  }

  /**
   One pass of row clearing as the game runs it. The result is the reference
   outcome: one empty row on top per removed row, then the kept rows in their
   original order; and the score/level bookkeeping is run once per removed row.
   */
  function ClearLines(b: Board, p: Progress): (r: Settled)
    requires |b| == ROWS
    ensures |r.board| == ROWS
    ensures r.board == Zeros(CountBelow(b, ROWS)) + KeptFrom(b, 0)
    ensures r.progress == AddRows(p, CountBelow(b, ROWS))
  {
    ClearLinesMatchesScan(b, p);
    KeptFromLength(b, 0);
    ClearFrom(b, ROWS - 1, p)
  }

  /** Only full rows are removed, and never two adjacent ones. */
  lemma RemovedRowsAreFullAndApart(rows: Board, i: int)
    requires 0 <= i < |rows| && Removed(rows, i)
    ensures Full(rows[i])
    ensures i + 1 < |rows| ==> !Removed(rows, i + 1)
    ensures i > 0 ==> !Removed(rows, i - 1)
  {
  }

  /** A full row survives the pass only when the row below it was removed. */
  lemma FullRowKeptOnlyAboveRemoved(rows: Board, i: int)
    requires 0 <= i < |rows| && Full(rows[i]) && !Removed(rows, i)
    ensures i + 1 < |rows| && Removed(rows, i + 1)
  {
  }

  /** The kept rows and the removed rows from index `m` on account for every one of those rows. */
  lemma {:induction false} KeptFromLength(rows: Board, m: nat)
    requires m <= |rows|
    ensures |KeptFrom(rows, m)| + CountBelow(rows, |rows|) == |rows| - m + CountBelow(rows, m)
    decreases |rows| - m
  {
    if m < |rows| {
      KeptFromLength(rows, m + 1);
    }
  }

  /** Every kept row is a row of the original field. */
  lemma {:induction false} KeptRowsComeFromField(rows: Board, m: nat)
    requires m <= |rows|
    ensures forall i :: 0 <= i < |KeptFrom(rows, m)| ==> exists j :: m <= j < |rows| && KeptFrom(rows, m)[i] == rows[j]
    decreases |rows| - m
  {
    if m < |rows| {
      KeptRowsComeFromField(rows, m + 1);
      var head := if Removed(rows, m) then [] else [rows[m]];
      var tail := KeptFrom(rows, m + 1);
      assert KeptFrom(rows, m) == head + tail;
      forall i | 0 <= i < |KeptFrom(rows, m)|
        ensures exists j :: m <= j < |rows| && KeptFrom(rows, m)[i] == rows[j]
      {
        if i < |head| {
          assert KeptFrom(rows, m)[i] == rows[m];
        } else {
          var j :| m + 1 <= j < |rows| && tail[i - |head|] == rows[j];
          assert KeptFrom(rows, m)[i] == rows[j];
        }
      }
    } else {
      assert KeptFrom(rows, m) == [];
    }
  }

  /** Clearing keeps the field at ROWS rows of COLS cells with every cell in 0..7. */
  lemma ClearLinesKeepsWellFormed(b: Board, p: Progress)
    requires WellFormedBoard(b)
    ensures WellFormedBoard(ClearLines(b, p).board)
  {
    var n := CountBelow(b, ROWS);
    var r := ClearLines(b, p).board;
    KeptFromLength(b, 0);
    KeptRowsComeFromField(b, 0);
    assert |r| == ROWS;
    forall i | 0 <= i < ROWS
      ensures GoodRow(r[i])
    {
      if i < n {
        assert r[i] == EmptyRow();
      } else {
        assert r[i] == KeptFrom(b, 0)[i - n];
      }
    }
  }

  /** Clearing keeps a ROWS x COLS field ROWS x COLS. */
  lemma ClearLinesKeepsFramed(b: Board, p: Progress)
    requires Framed(b)
    ensures Framed(ClearLines(b, p).board)
  {
    var n := CountBelow(b, ROWS);
    var r := ClearLines(b, p).board;
    KeptFromLength(b, 0);
    KeptRowsComeFromField(b, 0);
    forall i | 0 <= i < ROWS
      ensures |r[i]| == COLS
    {
      if i < n {
        assert r[i] == EmptyRow();
      } else {
        assert r[i] == KeptFrom(b, 0)[i - n];
      }
    }
  }

  /** A field with no full row comes out of the pass unchanged, with the score untouched. */
  lemma {:induction false} NothingFullNothingCleared(b: Board, p: Progress)
    requires |b| == ROWS
    requires forall i :: 0 <= i < |b| ==> !Full(b[i])
    ensures ClearLines(b, p) == Settled(b, p)
  {
    NoneRemovedBelow(b, ROWS);
    NoneRemovedKeepsAll(b, 0);
  }

  /** With no full row, nothing is counted as removed. */
  lemma {:induction false} NoneRemovedBelow(b: Board, m: nat)
    requires m <= |b|
    requires forall i :: 0 <= i < |b| ==> !Full(b[i])
    ensures CountBelow(b, m) == 0
  {
    if m > 0 {
      NoneRemovedBelow(b, m - 1);
    }
  }

  /** With no full row at index `m` or later, every one of those rows is kept. */
  lemma {:induction false} NoneRemovedKeepsAll(b: Board, m: nat)
    requires m <= |b|
    requires forall i :: m <= i < |b| ==> !Full(b[i])
    ensures KeptFrom(b, m) == b[m..]
    decreases |b| - m
  {
    if m < |b| {
      NoneRemovedKeepsAll(b, m + 1);
      assert !Removed(b, m);
      assert b[m..] == [b[m]] + b[m + 1..];
    }
  }

  /**
   The skip in the scan: when the two bottom rows are full and no other row is,
   one pass removes exactly one row and the bottom row of the result is
   still full.
   */
  lemma {:induction false} AdjacentFullRowsClearOnlyOne(b: Board, p: Progress)
    requires |b| == ROWS
    requires Full(b[ROWS - 1]) && Full(b[ROWS - 2])
    requires forall i :: 0 <= i < ROWS - 2 ==> !Full(b[i])
    ensures CountBelow(b, ROWS) == 1
    ensures ClearLines(b, p).progress.score == p.score + RowPoints
    ensures Full(ClearLines(b, p).board[ROWS - 1])
    ensures ClearLines(b, p).board[ROWS - 1] == b[ROWS - 2]
  {
    assert Removed(b, ROWS - 1);
    assert !Removed(b, ROWS - 2);
    OnlyBottomRemoved(b, ROWS - 2);
    assert CountBelow(b, ROWS) == 1;
    assert KeptFrom(b, ROWS - 1) == [];
    assert KeptFrom(b, ROWS - 2) == [b[ROWS - 2]];
    KeptEndsWith(b, 0, ROWS - 2);
  }

  /** In the situation above, nothing above the two bottom rows is counted. */
  lemma {:induction false} OnlyBottomRemoved(b: Board, m: nat)
    requires |b| == ROWS && m <= ROWS - 2
    requires forall i :: 0 <= i < ROWS - 2 ==> !Full(b[i])
    ensures CountBelow(b, m) == 0
  {
    if m > 0 {
      OnlyBottomRemoved(b, m - 1);
    }
  }

  /** When the kept rows from `j` on end with row `t`, so do the kept rows from any `m <= j`. */
  lemma {:induction false} KeptEndsWith(b: Board, m: nat, j: nat)
    requires m <= j < |b|
    requires KeptFrom(b, j) != []
    ensures KeptFrom(b, m) != []
    ensures KeptFrom(b, m)[|KeptFrom(b, m)| - 1] == KeptFrom(b, j)[|KeptFrom(b, j)| - 1]
    decreases j - m
  {
    if m < j {
      KeptEndsWith(b, m + 1, j);
      LastOfAppend(if Removed(b, m) then [] else [b[m]], KeptFrom(b, m + 1));
    }
  }

  /** The last element of `h + t` is the last element of a non-empty `t`. */
  lemma LastOfAppend(h: Board, t: Board)
    requires |t| > 0
    ensures |h + t| > 0 && (h + t)[|h + t| - 1] == t[|t| - 1]
  {
  }

  /**
   With exactly one full row `r`, one pass removes exactly that row, pushes
   one empty row on top, keeps every other row in order and books 100 points.
   */
  lemma SingleFullRow(b: Board, r: nat, p: Progress)
    requires |b| == ROWS && r < ROWS && Full(b[r])
    requires forall i :: 0 <= i < ROWS && i != r ==> !Full(b[i])
    ensures ClearLines(b, p) == Settled([EmptyRow()] + b[..r] + b[r + 1..], AddRow(p))
  {
    SingleKept(b, r, 0);
    SingleCount(b, r, ROWS);
    assert b[0..r] == b[..r];
    assert Zeros(1) == [EmptyRow()];
  }

  /** With only row `r` full, the kept rows from `m <= r` on are those rows minus row `r`. */
  lemma {:induction false} SingleKept(b: Board, r: nat, m: nat)
    requires r < |b| && Full(b[r])
    requires forall i :: 0 <= i < |b| && i != r ==> !Full(b[i])
    requires m <= r
    ensures KeptFrom(b, m) == b[m..r] + b[r + 1..]
    decreases r - m
  {
    if m == r {
      SingleKeptAt(b, r);
      assert b[m..r] == [];
    } else {
      SingleKept(b, r, m + 1);
      KeepHead(b, m);
      SliceCons(b, m, r, b[r + 1..]);
    }
  }

  /** With only row `r` full, that row is removed and every row below it is kept. */
  lemma SingleKeptAt(b: Board, r: nat)
    requires r < |b| && Full(b[r])
    requires forall i :: 0 <= i < |b| && i != r ==> !Full(b[i])
    ensures KeptFrom(b, r) == b[r + 1..]
  {
    NoneRemovedKeepsAll(b, r + 1);
    assert r + 1 == |b| || !Removed(b, r + 1);
    assert KeptFrom(b, r) == KeptFrom(b, r + 1);
  }

  /** A row that is not full is kept, in front of the rows kept below it. */
  lemma KeepHead(b: Board, m: nat)
    requires m < |b| && !Full(b[m])
    ensures KeptFrom(b, m) == [b[m]] + KeptFrom(b, m + 1)
  {
    assert !Removed(b, m);
  }

  /** Taking the first row off a slice. */
  lemma SliceCons(b: Board, m: nat, r: nat, t: Board)
    requires m < r <= |b|
    ensures b[m..r] + t == [b[m]] + (b[m + 1..r] + t)
  {
    assert b[m..r] == [b[m]] + b[m + 1..r];
  }

  /** With only row `r` full, exactly one removal is counted above any index past `r`. */
  lemma {:induction false} SingleCount(b: Board, r: nat, m: nat)
    requires r < |b| && Full(b[r])
    requires forall i :: 0 <= i < |b| && i != r ==> !Full(b[i])
    requires m <= |b|
    ensures CountBelow(b, m) == if m > r then 1 else 0
  {
    if m > 0 {
      SingleCount(b, r, m - 1);
      if m - 1 == r {
        assert r + 1 == |b| || !Removed(b, r + 1);
      } else {
        assert !Removed(b, m - 1);
      }
    }
  }
}
