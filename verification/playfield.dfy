/** The playfield: a fixed grid of cells, the placement rule every move and
    rotation is checked against, and the removal of full rows.
 */
module Playfield {
  import opened Catalog

  /** A cell is empty or holds the colour of the piece that locked there. */
  datatype Cell = Empty | Block(color: Color)

  type Row = seq<Cell>

  /** Row-major grid; row 0 is the top row. */
  type Grid = seq<Row>

  const ScreenWidth := 200
  const ScreenHeight := 300
  const CellSize := 25

  /** The cell counts of the window, doubled (see Dimensions). */
  const GridWidth := 16
  const GridHeight := 24

  function EmptyRow(): Row { seq(GridWidth, _ => Empty) }
  function EmptyGrid(): Grid { seq(GridHeight, _ => EmptyRow()) }

  /** The grid has the configured dimensions; every operation keeps them. */
  predicate WellFormed(g: Grid)
  {
    |g| == GridHeight && forall y :: 0 <= y < |g| ==> |g[y]| == GridWidth
  }

  lemma Dimensions()
    ensures GridWidth == ScreenWidth / CellSize * 2
    ensures GridHeight == ScreenHeight / CellSize * 2
    ensures WellFormed(EmptyGrid())
    ensures forall y, x :: 0 <= y < GridHeight && 0 <= x < GridWidth ==> EmptyGrid()[y][x] == Empty
  {
  }

  /** Grid column x, row y exists and holds no block. */
  predicate CellOpen(g: Grid, x: int, y: int)
    requires WellFormed(g)
  {
    0 <= x < GridWidth && 0 <= y < GridHeight && g[y][x] == Empty
  }

  /** The placement rule: every occupied cell (i, j) of `s`, with the shape's
      top-left corner at column x, row y, lands on an open cell. */
  predicate Fits(g: Grid, s: Shape, x: int, y: int)
    requires WellFormed(g)
  {
    forall i, j :: 0 <= i < |s| && 0 <= j < |s[i]| && s[i][j] ==> CellOpen(g, x + j, y + i)
  }

  /** Scan of row i of the shape from column j on, stopping at the first
      occupied cell that leaves the grid or hits a block. */
  function ScanRow(g: Grid, s: Shape, x: int, y: int, i: int, j: int): (ok: bool)
    requires WellFormed(g) && 0 <= i < |s| && 0 <= j <= |s[i]|
    ensures ok <==> forall j' :: j <= j' < |s[i]| && s[i][j'] ==> CellOpen(g, x + j', y + i)
    decreases |s[i]| - j
  {
    if j == |s[i]| then true
    else if s[i][j] && !CellOpen(g, x + j, y + i) then false
    else ScanRow(g, s, x, y, i, j + 1)
  }

  /** Scan of the shape's rows from row i on, in order. */
  function ScanRows(g: Grid, s: Shape, x: int, y: int, i: int): (ok: bool)
    requires WellFormed(g) && 0 <= i <= |s|
    ensures ok <==> forall i', j :: i <= i' < |s| && 0 <= j < |s[i']| && s[i'][j] ==> CellOpen(g, x + j, y + i')
    decreases |s| - i
  {
    if i == |s| then true
    else if !ScanRow(g, s, x, y, i, 0) then false
    else ScanRows(g, s, x, y, i + 1)
  }

  /** The row-by-row, cell-by-cell check of a placement decides exactly the
      placement rule. */
  function IsValidPlacement(g: Grid, s: Shape, x: int, y: int): (ok: bool)
    requires WellFormed(g)
    ensures ok <==> Fits(g, s, x, y)
  {
    ScanRows(g, s, x, y, 0)
  }

  /** A row is full when none of its cells is empty. */
  predicate IsFull(row: Row)
  {
    forall x :: 0 <= x < |row| ==> row[x].Block?
  }

  /** What a clearing pass leaves behind: no row is full. */
  predicate NoFullRow(g: Grid)
  {
    forall y :: 0 <= y < |g| ==> !IsFull(g[y])
  }

  predicate StrictlyIncreasing(ys: seq<int>)
  {
    forall a, b :: 0 <= a < b < |ys| ==> ys[a] < ys[b]
  }

  /** Every index in ys is at least 0 and leaves room below it, in a grid of
      n rows, for the indices that follow it. Deleting the rows bottom index
      first keeps every remaining index inside the shrinking grid. */
  predicate RoomBelow(ys: seq<int>, n: int)
  {
    forall k :: 0 <= k < |ys| ==> 0 <= ys[k] && ys[k] + |ys| - k <= n
  }

  // Finding the full rows and removing them never looks inside a row beyond
  // asking whether it is full, so that part is stated for any row type and
  // any fullness test `full`; the grid's own versions pass IsFull.

  /** The indices of the rows among the top n that are full, top to bottom. */
  function FullRowsAbove<T>(g: seq<T>, full: T -> bool, n: int): (ys: seq<int>)
    requires 0 <= n <= |g|
    ensures RoomBelow(ys, n)
    decreases n
  {
    if n == 0 then []
    else FullRowsAbove(g, full, n - 1) + (if full(g[n - 1]) then [n - 1] else [])
  }

  /** The indices of all full rows, found before any row is removed. */
  function FullRows(g: Grid): (ys: seq<int>)
    ensures RoomBelow(ys, |g|)
  {
    FullRowsAbove(g, IsFull, |g|)
  }

  lemma {:induction false} FullRowsAboveExact<T>(g: seq<T>, full: T -> bool, n: int)
    requires 0 <= n <= |g|
    ensures StrictlyIncreasing(FullRowsAbove(g, full, n))
    ensures forall k :: 0 <= k < |FullRowsAbove(g, full, n)| ==> full(g[FullRowsAbove(g, full, n)[k]])
    ensures forall y :: 0 <= y < n && full(g[y]) ==> y in FullRowsAbove(g, full, n)
    decreases n
  {
    if n > 0 {
      FullRowsAboveExact(g, full, n - 1);
    }
  }

  /** The recorded indices are, in ascending order, exactly the rows of the
      grid that are full. */
  lemma {:induction false} FullRowsExact(g: Grid)
    ensures StrictlyIncreasing(FullRows(g))
    ensures forall k :: 0 <= k < |FullRows(g)| ==> 0 <= FullRows(g)[k] < |g| && IsFull(g[FullRows(g)[k]])
    ensures forall y :: 0 <= y < |g| && IsFull(g[y]) ==> y in FullRows(g)
  {
    FullRowsAboveExact(g, IsFull, |g|);
  }

  /** The rows that are not full among the top n rows, in their order. */
  function SurvivorsAbove<T>(g: seq<T>, full: T -> bool, n: int): (rows: seq<T>)
    requires 0 <= n <= |g|
    ensures |rows| + |FullRowsAbove(g, full, n)| == n
    decreases n
  {
    if n == 0 then []
    else SurvivorsAbove(g, full, n - 1) + (if full(g[n - 1]) then [] else [g[n - 1]])
  }

  /** Every survivor is a row of the grid, and none is full. */
  lemma {:induction false} SurvivorsAboveRows<T>(g: seq<T>, full: T -> bool, n: int)
    requires 0 <= n <= |g|
    ensures forall k :: 0 <= k < |SurvivorsAbove(g, full, n)| ==>
      SurvivorsAbove(g, full, n)[k] in g && !full(SurvivorsAbove(g, full, n)[k])
    decreases n
  {
    if n > 0 {
      SurvivorsAboveRows(g, full, n - 1);
      var s := SurvivorsAbove(g, full, n - 1);
      assert SurvivorsAbove(g, full, n) == s + (if full(g[n - 1]) then [] else [g[n - 1]]);
    }
  }

  /** The grid's rows that are not full, in their original order. */
  function Survivors(g: Grid): (rows: seq<Row>)
  {
    SurvivorsAbove(g, IsFull, |g|)
  }

  function EmptyRows(k: int): (rows: seq<Row>)
    requires 0 <= k
    ensures |rows| == k && forall i :: 0 <= i < k ==> rows[i] == EmptyRow()
  {
    seq(k, _ => EmptyRow())
  }

  /** Deleting row y; the rows below keep their index, the rows above too. */
  function DeleteRow<T>(g: seq<T>, y: int): (r: seq<T>)
    requires 0 <= y < |g|
  {
    g[..y] + g[y + 1..]
  }

  /** One step of the game's clearing loop: delete row y, then insert an
      empty row at the top, which moves every row above y down by one. */
  function ReplaceWithTopRow<T>(g: seq<T>, y: int, top: T): (r: seq<T>)
    requires 0 <= y < |g|
    ensures |r| == |g|
  {
    [top] + DeleteRow(g, y)
  }

  /** The clearing loop as written: the recorded indices are visited bottom
      row first, and each step deletes the row at the recorded index of the
      grid as the previous steps left it. */
  function ClearAsWritten<T>(g: seq<T>, ys: seq<int>, top: T): (r: seq<T>)
    requires forall k :: 0 <= k < |ys| ==> 0 <= ys[k] < |g|
    ensures |r| == |g|
    decreases |ys|
  {
    if ys == [] then g
    else ClearAsWritten(ReplaceWithTopRow(g, ys[|ys| - 1], top), ys[..|ys| - 1], top)
  }

  function ClearRowsAsWritten(g: Grid): (r: Grid)
    ensures |r| == |g|
  {
    ClearAsWritten(g, FullRows(g), EmptyRow())
  }

  /** Deleting the recorded rows bottom row first, before any row is
      inserted, so that every index still names the row it was recorded for. */
  function DeleteRows<T>(g: seq<T>, ys: seq<int>): (r: seq<T>)
    requires RoomBelow(ys, |g|)
    decreases |ys|
  {
    if ys == [] then g
    else DeleteRows(DeleteRow(g, ys[|ys| - 1]), ys[..|ys| - 1])
  }

  /** The loop as written takes the last recorded index first. */
  lemma {:induction false} ClearAsWrittenLast<T>(g: seq<T>, ys: seq<int>, y: int, top: T)
    requires 0 <= y < |g| && forall k :: 0 <= k < |ys| ==> 0 <= ys[k] < |g|
    ensures ClearAsWritten(g, ys + [y], top) == ClearAsWritten(ReplaceWithTopRow(g, y, top), ys, top)
  {
    var zs := ys + [y];
    assert zs[|zs| - 1] == y && zs[..|zs| - 1] == ys;
  }

  /** So does the deletion of the recorded rows. */
  lemma {:induction false} DeleteRowsLast<T>(g: seq<T>, ys: seq<int>, y: int)
    requires 0 <= y < |g| && RoomBelow(ys + [y], |g|)
    ensures RoomBelow(ys, |g| - 1)
    ensures DeleteRows(g, ys + [y]) == DeleteRows(DeleteRow(g, y), ys)
  {
    var zs := ys + [y];
    assert zs[|zs| - 1] == y && zs[..|zs| - 1] == ys;
  }

  /** The outcome of a clearing pass: the new grid and how many rows went. */
  datatype Cleared = Cleared(grid: Grid, count: nat)

  /** Removes every full row and inserts one empty row at the top for each:
      the result is `count` empty rows followed by the rows that were not
      full, in their original order. */
  function ClearRows(g: Grid): (r: Cleared)
    ensures r.count == |FullRows(g)|
    ensures r.grid == EmptyRows(r.count) + Survivors(g)
    ensures |r.grid| == |g|
    ensures WellFormed(g) ==> WellFormed(r.grid)
    ensures NoFullRow(r.grid)
  {
    var ys := FullRows(g);
    DeletingFullRowsLeavesSurvivors(g);
    EmptyRowsThenSurvivors(g, |ys|);
    Cleared(EmptyRows(|ys|) + DeleteRows(g, ys), |ys|)
  }

  /** k empty rows over the survivors of g is a grid of g's height with no
      full row, when k is the number of rows that were full. */
  lemma {:induction false} EmptyRowsThenSurvivors(g: Grid, k: int)
    requires k == |FullRows(g)|
    ensures |EmptyRows(k) + Survivors(g)| == |g|
    ensures WellFormed(g) ==> WellFormed(EmptyRows(k) + Survivors(g))
    ensures NoFullRow(EmptyRows(k) + Survivors(g))
  {
    var r := EmptyRows(k) + Survivors(g);
    SurvivorsAboveRows(g, IsFull, |g|);
    assert EmptyRow()[0] == Empty;
    forall y | 0 <= y < |r|
      ensures !IsFull(r[y]) && (WellFormed(g) ==> |r[y]| == GridWidth)
    {
      if y < k {
        assert r[y] == EmptyRow();
      } else {
        assert r[y] == Survivors(g)[y - k];
      }
    }
  }

  /** The full rows among the top n rows, and the survivors among them,
      depend on those rows only. */
  lemma {:induction false} AboveDependsOnTop<T>(g: seq<T>, h: seq<T>, full: T -> bool, n: int)
    requires 0 <= n <= |g| && n <= |h|
    requires forall k :: 0 <= k < n ==> g[k] == h[k]
    ensures FullRowsAbove(g, full, n) == FullRowsAbove(h, full, n)
    ensures SurvivorsAbove(g, full, n) == SurvivorsAbove(h, full, n)
    decreases n
  {
    if n > 0 {
      AboveDependsOnTop(g, h, full, n - 1);
      assert g[n - 1] == h[n - 1];
    }
  }

  /** Deleting a full row m, then the full rows above it, is deleting the
      full rows among the top m + 1 rows. */
  lemma {:induction false} DeleteFullRowsStep<T>(g: seq<T>, full: T -> bool, m: int)
    requires 0 <= m < |g| && full(g[m])
    ensures DeleteRows(g, FullRowsAbove(g, full, m + 1))
         == DeleteRows(DeleteRow(g, m), FullRowsAbove(DeleteRow(g, m), full, m))
  {
    var d := DeleteRow(g, m);
    var f := FullRowsAbove(g, full, m);
    assert FullRowsAbove(g, full, m + 1) == f + [m];
    DeleteRowsLast(g, f, m);
    assert forall k :: 0 <= k < m ==> d[k] == g[k];
    AboveDependsOnTop(g, d, full, m);
  }

  /** Deleting, bottom first, the full rows among the top n rows leaves the
      survivors among them followed by the untouched rows below. */
  lemma {:induction false} DeleteFullRows<T>(g: seq<T>, full: T -> bool, n: int)
    requires 0 <= n <= |g|
    ensures DeleteRows(g, FullRowsAbove(g, full, n)) == SurvivorsAbove(g, full, n) + g[n..]
    decreases n
  {
    if n > 0 {
      var m := n - 1;
      var d := DeleteRow(g, m);
      DeleteFullRows(d, full, m);
      DeleteFullRows(g, full, m);
      if full(g[m]) {
        DeleteFullRowsFull(g, full, m);
      } else {
        DeleteFullRowsPartial(g, full, m);
      }
    }
  }

  lemma {:induction false} DeleteFullRowsFull<T>(g: seq<T>, full: T -> bool, m: int)
    requires 0 <= m < |g| && full(g[m])
    requires DeleteRows(DeleteRow(g, m), FullRowsAbove(DeleteRow(g, m), full, m))
          == SurvivorsAbove(DeleteRow(g, m), full, m) + DeleteRow(g, m)[m..]
    ensures DeleteRows(g, FullRowsAbove(g, full, m + 1)) == SurvivorsAbove(g, full, m + 1) + g[m + 1..]
  {
    var d := DeleteRow(g, m);
    DeleteRowParts(g, m);
    calc {
      DeleteRows(g, FullRowsAbove(g, full, m + 1));
      { DeleteFullRowsStep(g, full, m); }
      DeleteRows(d, FullRowsAbove(d, full, m));
      SurvivorsAbove(d, full, m) + d[m..];
      { AboveDependsOnTop(g, d, full, m); }
      SurvivorsAbove(g, full, m) + g[m + 1..];
      { assert SurvivorsAbove(g, full, m + 1) == SurvivorsAbove(g, full, m) + []; }
      SurvivorsAbove(g, full, m + 1) + g[m + 1..];
    }
  }

  /** Deleting row m keeps the rows above it in place and moves the rows
      below it up by one. */
  lemma {:induction false} DeleteRowParts<T>(g: seq<T>, m: int)
    requires 0 <= m < |g|
    ensures |DeleteRow(g, m)| == |g| - 1
    ensures forall k :: 0 <= k < m ==> DeleteRow(g, m)[k] == g[k]
    ensures DeleteRow(g, m)[m..] == g[m + 1..]
  {
  }

  lemma {:induction false} DeleteFullRowsPartial<T>(g: seq<T>, full: T -> bool, m: int)
    requires 0 <= m < |g| && !full(g[m])
    requires DeleteRows(g, FullRowsAbove(g, full, m)) == SurvivorsAbove(g, full, m) + g[m..]
    ensures DeleteRows(g, FullRowsAbove(g, full, m + 1)) == SurvivorsAbove(g, full, m + 1) + g[m + 1..]
  {
    assert FullRowsAbove(g, full, m + 1) == FullRowsAbove(g, full, m) + [];
    assert FullRowsAbove(g, full, m) + [] == FullRowsAbove(g, full, m);
    assert g[m..] == [g[m]] + g[m + 1..];
    assert SurvivorsAbove(g, full, m + 1) == SurvivorsAbove(g, full, m) + [g[m]];
    calc {
      SurvivorsAbove(g, full, m) + g[m..];
      SurvivorsAbove(g, full, m) + ([g[m]] + g[m + 1..]);
      (SurvivorsAbove(g, full, m) + [g[m]]) + g[m + 1..];
    }
  }

  /** The survivors are what deleting the recorded full rows leaves. */
  lemma {:induction false} DeletingFullRowsLeavesSurvivors(g: Grid)
    ensures DeleteRows(g, FullRows(g)) == Survivors(g)
  {
    DeleteFullRows(g, IsFull, |g|);
    assert g[|g|..] == [];
  }

  lemma {:induction false} SingleRow<T>(g: seq<T>, y: int, top: T)
    requires 0 <= y < |g|
    ensures ClearAsWritten(g, [y], top) == ReplaceWithTopRow(g, y, top)
    ensures DeleteRows(g, [y]) == DeleteRow(g, y)
  {
    assert [] + [y] == [y];
    ClearAsWrittenLast(g, [], y, top);
    DeleteRowsLast(g, [], y);
  }

  /** While at most one row is full the loop as written removes exactly the
      full rows, agreeing with ClearRows. */
  lemma {:induction false} AsWrittenAgreesOnOneRow(g: Grid)
    requires |FullRows(g)| <= 1
    ensures ClearRowsAsWritten(g) == ClearRows(g).grid
  {
    var ys := FullRows(g);
    ClearRowsIsDeletion(g);
    AtMostOneIndex(g, ys, EmptyRow());
    if |ys| == 1 {
      assert EmptyRows(1) == [EmptyRow()];
    } else {
      assert EmptyRows(0) == [];
    }
  }

  /** The corrected clearing deletes the recorded rows and puts one empty
      row on top for each. */
  lemma {:induction false} ClearRowsIsDeletion(g: Grid)
    ensures ClearRows(g).grid == EmptyRows(|FullRows(g)|) + DeleteRows(g, FullRows(g))
  {
    DeletingFullRowsLeavesSurvivors(g);
  }

  /** With at most one index the loop as written is the deletion with one
      row put on top per index. */
  lemma {:induction false} AtMostOneIndex<T>(g: seq<T>, ys: seq<int>, top: T)
    requires |ys| <= 1 && RoomBelow(ys, |g|)
    ensures |ys| == 1 ==> ClearAsWritten(g, ys, top) == [top] + DeleteRows(g, ys)
    ensures |ys| == 0 ==> ClearAsWritten(g, ys, top) == DeleteRows(g, ys)
  {
    if |ys| == 1 {
      assert ys == [ys[0]];
      SingleRow(g, ys[0], top);
    }
  }

  lemma {:induction false} NoFullRowAbove<T>(g: seq<T>, full: T -> bool, n: int)
    requires 0 <= n <= |g|
    requires forall y :: 0 <= y < n ==> !full(g[y])
    ensures FullRowsAbove(g, full, n) == []
    ensures SurvivorsAbove(g, full, n) == g[..n]
    decreases n
  {
    if n > 0 {
      NoFullRowAbove(g, full, n - 1);
      assert !full(g[n - 1]);
      assert g[..n] == g[..n - 1] + [g[n - 1]];
    }
  }

  /** A grid without a full row comes out of a clearing pass unchanged. */
  lemma {:induction false} ClearRowsKeepsClearGrid(g: Grid)
    requires NoFullRow(g)
    ensures ClearRows(g) == Cleared(g, 0)
  {
    NoFullRowAbove(g, IsFull, |g|);
    assert g[..|g|] == g;
    assert EmptyRows(0) + g == g;
  }

  const SomeBlock := Block(Rgb(255, 100, 100))
  function FullRow(): Row { seq(GridWidth, _ => SomeBlock) }
  function PartialRow(): Row { [SomeBlock] + seq(GridWidth - 1, _ => Empty) }

  /** Rows 22 and 23 full and a single block at the left end of row 21. */
  function TwoFullRows(): Grid
  {
    seq(GridHeight, y => if y >= 22 then FullRow() else if y == 21 then PartialRow() else EmptyRow())
  }

  /** TwoFullRows has the shape the lemmas below need: the bottom two rows
      full, no full row above them, and a block in row 21. */
  lemma TwoFullRowsRows()
    ensures WellFormed(TwoFullRows())
    ensures BottomTwoFull(TwoFullRows())
    ensures TwoFullRows()[21] == PartialRow() && TwoFullRows()[22] == FullRow()
    ensures forall y :: 0 <= y < 21 ==> TwoFullRows()[y] == EmptyRow()
  {
    var g := TwoFullRows();
    assert |FullRow()| == |PartialRow()| == |EmptyRow()| == GridWidth;
    assert PartialRow()[1] == EmptyRow()[1] == Empty;
    assert forall y :: 0 <= y < 22 ==> g[y][1] == Empty;
  }

  /** Rows 22 and 23 are full and no row above them is. */
  predicate BottomTwoFull(g: Grid)
  {
    && |g| == GridHeight
    && IsFull(g[22]) && IsFull(g[23])
    && forall y :: 0 <= y < 22 ==> !IsFull(g[y])
  }

  lemma {:induction false} BottomTwoFullFound(g: Grid)
    requires BottomTwoFull(g)
    ensures FullRows(g) == [22, 23]
  {
    LastTwoFound(g, IsFull);
  }

  lemma {:induction false} LastTwoFound<T>(g: seq<T>, full: T -> bool)
    requires |g| >= 2 && full(g[|g| - 2]) && full(g[|g| - 1])
    requires forall y :: 0 <= y < |g| - 2 ==> !full(g[y])
    ensures FullRowsAbove(g, full, |g|) == [|g| - 2, |g| - 1]
  {
    var n := |g|;
    NoFullRowAbove(g, full, n - 2);
    var upper := FullRowsAbove(g, full, n - 1);
    assert upper == FullRowsAbove(g, full, n - 2) + [n - 2];
    assert upper == [n - 2];
    assert FullRowsAbove(g, full, n) == upper + [n - 1];
  }

  /** When rows 22 and 23 are the full rows, the loop as written deletes
      row 23 and then the row at index 22, which by then is row 21 moved down
      by the first insertion: row 21 is lost and the full row 22 stays at the
      bottom. */
  lemma {:induction false} ClearRowsAsWrittenLosesRow(g: Grid)
    requires |g| == GridHeight && FullRows(g) == [22, 23]
    ensures ClearRowsAsWritten(g) == EmptyRows(2) + g[..21] + [g[22]]
  {
    AsWrittenTwoRows(g, 22, 23, EmptyRow());
    InsertAfterDeleteTwice(g, EmptyRow());
    TwoEmptyRows();
  }

  lemma {:induction false} AsWrittenTwoRows<T>(g: seq<T>, a: int, b: int, top: T)
    requires 0 <= a < b < |g|
    ensures ClearAsWritten(g, [a, b], top) == ReplaceWithTopRow(ReplaceWithTopRow(g, b, top), a, top)
  {
    ClearAsWrittenLast(g, [a], b, top);
    assert [a] + [b] == [a, b];
    SingleRow(ReplaceWithTopRow(g, b, top), a, top);
  }

  /** With two recorded rows a < b, the loop as written deletes row b and
      then whatever row the first insertion moved to index a: row a - 1
      when a > 0, which is lost while the full row a stays at index a + 1;
      or, when a = 0, the empty row it has just put on top, so that no old
      row is lost but full row 0 stays, under a single empty row. */
  lemma {:induction false} AsWrittenTwoIndices<T>(g: seq<T>, a: int, b: int, top: T)
    requires 0 <= a < b < |g|
    ensures a == 0 ==> ClearAsWritten(g, [a, b], top) == [top] + g[..b] + g[b + 1..]
    ensures 0 < a ==>
      ClearAsWritten(g, [a, b], top) == [top, top] + g[..a - 1] + g[a..b] + g[b + 1..]
    ensures 0 < a ==> ClearAsWritten(g, [a, b], top)[a + 1] == g[a]
  {
    AsWrittenTwoRows(g, a, b, top);
    var s1 := ReplaceWithTopRow(g, b, top);
    assert s1 == [top] + g[..b] + g[b + 1..];
    if a == 0 {
      assert ReplaceWithTopRow(s1, 0, top) == [top] + s1[1..];
      assert s1[1..] == g[..b] + g[b + 1..];
    } else {
      assert s1[..a] == [top] + g[..a - 1];
      assert s1[a + 1..] == g[a..b] + g[b + 1..];
      var r := [top, top] + g[..a - 1] + g[a..b] + g[b + 1..];
      assert ReplaceWithTopRow(s1, a, top) == [top] + s1[..a] + s1[a + 1..];
      assert r[a + 1] == g[a];
    }
  }

  lemma TwoEmptyRows()
    ensures EmptyRows(2) == [EmptyRow(), EmptyRow()]
  {
  }

  /** Sequence arithmetic of two delete-then-insert-on-top steps, at the
      last index and then at the one before it. */
  lemma {:induction false} InsertAfterDeleteTwice<T>(s: seq<T>, top: T)
    requires |s| >= 3
    ensures var n := |s|;
      var s1 := [top] + (s[..n - 1] + s[n..]);
      [top] + (s1[..n - 2] + s1[n - 1..]) == [top, top] + s[..n - 3] + [s[n - 2]]
  {
  }

  /** On such a grid ClearRows removes exactly rows 22 and 23 and keeps row
      21, now at the bottom. */
  lemma {:induction false} ClearRowsKeepsRowAbove(g: Grid)
    requires |g| == GridHeight && FullRows(g) == [22, 23]
    ensures ClearRows(g).grid == EmptyRows(2) + g[..22]
  {
    DeletingFullRowsLeavesSurvivors(g);
    DeleteRowsLast(g, [22], 23);
    assert [22] + [23] == [22, 23];
    SingleRow(DeleteRow(g, 23), 22, EmptyRow());
    DeleteTwice(g);
  }

  lemma {:induction false} DeleteTwice<T>(s: seq<T>)
    requires |s| >= 2
    ensures var n := |s|;
      var s1 := s[..n - 1] + s[n..];
      s1[..n - 2] + s1[n - 1..] == s[..n - 2]
  {
  }

  /** On a grid whose only full rows are 22 and 23, with a row 21 that is
      not empty and empty rows above it, the loop as written leaves a full
      row at the bottom and drops row 21, which ClearRows keeps. */
  lemma {:induction false} LosesPartialRow(g: Grid)
    requires |g| == GridHeight && FullRows(g) == [22, 23]
    requires g[21] != EmptyRow()
    requires forall y :: 0 <= y < 21 ==> g[y] == EmptyRow()
    ensures IsFull(ClearRowsAsWritten(g)[23])
    ensures ClearRows(g).grid[23] == g[21]
    ensures g[21] !in ClearRowsAsWritten(g)
  {
    FullRowsExact(g);
    assert FullRows(g)[0] == 22 && 21 !in FullRows(g);
    assert IsFull(g[22]) && !IsFull(g[21]);
    AsWrittenEndsFull(g);
    AsWrittenDropsRow(g);
    CorrectedKeepsBlock(g);
  }

  lemma {:induction false} AsWrittenEndsFull(g: Grid)
    requires |g| == GridHeight && FullRows(g) == [22, 23] && IsFull(g[22])
    ensures IsFull(ClearRowsAsWritten(g)[23])
  {
    var w := ClearRowsAsWritten(g);
    ClearRowsAsWrittenLosesRow(g);
    assert w[23] == g[22];
  }

  lemma {:induction false} AsWrittenDropsRow(g: Grid)
    requires |g| == GridHeight && FullRows(g) == [22, 23] && g[21] != g[22]
    requires g[21] != EmptyRow()
    requires forall y :: 0 <= y < 21 ==> g[y] == EmptyRow()
    ensures g[21] !in ClearRowsAsWritten(g)
  {
    ClearRowsAsWrittenLosesRow(g);
    AsWrittenLacks(EmptyRows(2), g[..21], g[22], g[21]);
  }

  lemma {:induction false} CorrectedKeepsBlock(g: Grid)
    requires |g| == GridHeight && FullRows(g) == [22, 23]
    ensures ClearRows(g).grid[23] == g[21]
  {
    ClearRowsKeepsRowAbove(g);
    assert (EmptyRows(2) + g[..22])[23] == g[21];
  }

  /** The sample rows differ from each other, and FullRow is full. */
  lemma SampleRows()
    ensures IsFull(FullRow())
    ensures PartialRow() != EmptyRow() && PartialRow() != FullRow()
  {
    assert PartialRow()[1] == Empty;
    assert FullRow()[1] == SomeBlock;
    assert EmptyRow()[0] == Empty;
  }

  /** A row that is neither an empty row, nor one of the kept rows, nor the
      last row is not among them. */
  lemma {:induction false} AsWrittenLacks(top: seq<Row>, kept: seq<Row>, last: Row, row: Row)
    requires forall i :: 0 <= i < |top| ==> top[i] == EmptyRow()
    requires forall i :: 0 <= i < |kept| ==> kept[i] == EmptyRow()
    requires row != EmptyRow() && row != last
    ensures row !in top + kept + [last]
  {
  }

  /** The grid TwoFullRows shows the difference. */
  lemma TwoFullRowsDiffer()
    ensures IsFull(ClearRowsAsWritten(TwoFullRows())[23])
    ensures ClearRows(TwoFullRows()).grid[23] == PartialRow()
    ensures PartialRow() !in ClearRowsAsWritten(TwoFullRows())
  {
    TwoFullRowsRows();
    SampleRows();
    BottomTwoFullFound(TwoFullRows());
    LosesPartialRow(TwoFullRows());
  }
}
