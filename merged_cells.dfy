/**
 * The merged-cell fill of empty_lecture_room.py (`unmerge_cells`): a spreadsheet stores a merged
 * region's value only in its top-left cell, so every missing cell is filled with the last value above
 * it in its column (`ffill(axis=0)`), and what is still missing with the last value to its left in
 * its row (`ffill(axis=1)`).
 */
module MergedCells {
  import opened Wrappers

  /** A sheet as rows of cells; `None` is a missing (NaN) cell. */
  type Grid<T> = seq<seq<Option<T>>>

  function Width<T>(g: Grid<T>): nat {
    if g == [] then 0 else |g[0]|
  }

  /** A pandas frame: every row has the same number of columns. */
  predicate IsRect<T>(g: Grid<T>) {
    forall i :: 0 <= i < |g| ==> |g[i]| == Width(g)
  }

  /** The value cell (i, j) has after the downward fill: its own, else the nearest one above it. */
  function Above<T>(g: Grid<T>, i: nat, j: nat): Option<T>
    requires IsRect(g) && i < |g| && j < Width(g)
  {
    if g[i][j].Some? || i == 0 then g[i][j] else Above(g, i - 1, j)
  }

  /** The value cell j of a row has after the rightward fill: its own, else the nearest one to its left. */
  function Left<T>(row: seq<Option<T>>, j: nat): Option<T>
    requires j < |row|
  {
    if row[j].Some? || j == 0 then row[j] else Left(row, j - 1)
  }

  /** `df.ffill(axis=0)`. */
  function FillDown<T>(g: Grid<T>): (r: Grid<T>)
    requires IsRect(g)
    ensures IsRect(r) && |r| == |g| && Width(r) == Width(g)
  {
    seq(|g|, i requires 0 <= i < |g| => seq(Width(g), j requires 0 <= j < Width(g) => Above(g, i, j)))
  }

  /** `ffill` along one row. */
  function FillRow<T>(row: seq<Option<T>>): (r: seq<Option<T>>)
    ensures |r| == |row|
  {
    seq(|row|, j requires 0 <= j < |row| => Left(row, j))
  }

  /** `df.ffill(axis=1)`. */
  function FillRight<T>(g: Grid<T>): (r: Grid<T>)
    requires IsRect(g)
    ensures IsRect(r) && |r| == |g| && Width(r) == Width(g)
  {
    seq(|g|, i requires 0 <= i < |g| => FillRow(g[i]))
  }

  /** `unmerge_cells`: down each column first, then along each row. */
  function Unmerged<T>(g: Grid<T>): (r: Grid<T>)
    requires IsRect(g)
    ensures IsRect(r) && |r| == |g| && Width(r) == Width(g)
  {
    FillRight(FillDown(g))
  }

  // ---------------------------------------------------------------------------------------------
  // The fill as the source runs it: a pass down every column, then a pass along every row.

  /** `ffill(axis=0)`, column by column, top to bottom. */
  method FillColumns<T>(g: Grid<T>) returns (r: Grid<T>)
    requires IsRect(g)
    ensures r == FillDown(g)
  {
    r := g;
    var w := Width(g);
    for j := 0 to w
      invariant |r| == |g| && forall i :: 0 <= i < |g| ==> |r[i]| == w
      invariant forall i, c :: 0 <= i < |g| && 0 <= c < w ==> r[i][c] == if c < j then Above(g, i, c) else g[i][c]
    {
      for i := 0 to |g|
        invariant |r| == |g| && forall a :: 0 <= a < |g| ==> |r[a]| == w
        invariant forall a, c :: 0 <= a < |g| && 0 <= c < w && c != j ==>
                    r[a][c] == if c < j then Above(g, a, c) else g[a][c]
        invariant forall a :: 0 <= a < |g| ==> r[a][j] == if a < i then Above(g, a, j) else g[a][j]
      {
        if i > 0 && r[i][j].None? {
          r := r[i := r[i][j := r[i - 1][j]]];
        }
      }
    }
    assert forall i :: 0 <= i < |g| ==> r[i] == FillDown(g)[i];
  }

  /** `ffill(axis=1)`, row by row, left to right. */
  method FillRows<T>(g: Grid<T>) returns (r: Grid<T>)
    requires IsRect(g)
    ensures r == FillRight(g)
  {
    r := g;
    var w := Width(g);
    for i := 0 to |g|
      invariant |r| == |g| && forall a :: 0 <= a < |g| ==> |r[a]| == w
      invariant forall a :: 0 <= a < |g| ==> r[a] == if a < i then FillRow(g[a]) else g[a]
    {
      var row := r[i];
      for j := 0 to w
        invariant |row| == w
        invariant forall c :: 0 <= c < w ==> row[c] == if c < j then Left(g[i], c) else g[i][c]
      {
        if j > 0 && row[j].None? {
          row := row[j := row[j - 1]];
        }
      }
      assert row == FillRow(g[i]);
      r := r[i := row];
    }
  }

  /** `unmerge_cells`. */
  method Unmerge<T>(g: Grid<T>) returns (r: Grid<T>)
    requires IsRect(g)
    ensures r == Unmerged(g)
  {
    var down := FillColumns(g);
    r := FillRows(down);
  }

  // ---------------------------------------------------------------------------------------------
  // What the fill does to each cell.

  /** After the downward fill a cell is still missing exactly when it and everything above it is. */
  lemma {:induction false} AboveMissing<T>(g: Grid<T>, i: nat, j: nat)
    requires IsRect(g) && i < |g| && j < Width(g)
    ensures Above(g, i, j).None? <==> forall m :: 0 <= m <= i ==> g[m][j].None?
  {
    if i > 0 && g[i][j].None? {
      AboveMissing(g, i - 1, j);
    }
  }

  /** A missing cell takes the nearest value above it: the one at row k with only gaps in between. */
  lemma {:induction false} AboveNearest<T>(g: Grid<T>, i: nat, j: nat, k: nat)
    requires IsRect(g) && k <= i < |g| && j < Width(g)
    requires g[k][j].Some? && forall m :: k < m <= i ==> g[m][j].None?
    ensures Above(g, i, j) == g[k][j]
  {
    if k < i {
      AboveNearest(g, i - 1, j, k);
    }
  }

  /** After the rightward fill a cell is still missing exactly when it and everything to its left is. */
  lemma {:induction false} LeftMissing<T>(row: seq<Option<T>>, j: nat)
    requires j < |row|
    ensures Left(row, j).None? <==> forall c :: 0 <= c <= j ==> row[c].None?
  {
    if j > 0 && row[j].None? {
      LeftMissing(row, j - 1);
    }
  }

  /** A missing cell takes the nearest value to its left: the one at column k with only gaps in between. */
  lemma {:induction false} LeftNearest<T>(row: seq<Option<T>>, j: nat, k: nat)
    requires k <= j < |row|
    requires row[k].Some? && forall c :: k < c <= j ==> row[c].None?
    ensures Left(row, j) == row[k]
  {
    if k < j {
      LeftNearest(row, j - 1, k);
    }
  }

  /** Cells that have a value keep it. */
  lemma UnmergedKeepsValues<T>(g: Grid<T>, i: nat, j: nat)
    requires IsRect(g) && i < |g| && j < Width(g) && g[i][j].Some?
    ensures Unmerged(g)[i][j] == g[i][j]
  {
  }

  /**
   * A missing cell with a value somewhere above it in its column ends up with the nearest such value;
   * the other missing cells are described by UnmergedStaysMissing and LeftNearest.
   */
  lemma UnmergedMissingCell<T>(g: Grid<T>, i: nat, j: nat)
    requires IsRect(g) && i < |g| && j < Width(g) && g[i][j].None?
    ensures (exists k :: 0 <= k < i && g[k][j].Some?) ==>
              exists k :: 0 <= k < i && g[k][j].Some? && Unmerged(g)[i][j] == g[k][j]
                          && forall m :: k < m <= i ==> g[m][j].None?
  {
    if k :| 0 <= k < i && g[k][j].Some? {
      var n := NearestAboveRow(g, i, j, k);
      AboveNearest(g, i, j, n);
    }
  }

  /**
   * A missing cell with nothing above it in its column takes what its left neighbour ends up with:
   * the second pass carries the row's values rightwards.
   */
  lemma UnmergedNothingAbove<T>(g: Grid<T>, i: nat, j: nat)
    requires IsRect(g) && i < |g| && 0 < j < Width(g)
    requires forall m :: 0 <= m <= i ==> g[m][j].None?
    ensures Unmerged(g)[i][j] == Unmerged(g)[i][j - 1]
  {
    var d := FillDown(g);
    AboveMissing(g, i, j);
    assert d[i][j] == Above(g, i, j);
    assert Unmerged(g)[i][j] == Left(d[i], j);
    assert Unmerged(g)[i][j - 1] == Left(d[i], j - 1);
  }

  /** A cell stays missing exactly when nothing above it or to its left, diagonally included, has a value. */
  lemma UnmergedStaysMissing<T>(g: Grid<T>, i: nat, j: nat)
    requires IsRect(g) && i < |g| && j < Width(g)
    ensures Unmerged(g)[i][j].None? <==> forall m, c :: 0 <= m <= i && 0 <= c <= j ==> g[m][c].None?
  {
    var d := FillDown(g);
    assert Unmerged(g)[i][j] == Left(d[i], j);
    LeftMissing(d[i], j);
    forall c | 0 <= c <= j
      ensures d[i][c].None? <==> forall m :: 0 <= m <= i ==> g[m][c].None?
    {
      assert d[i][c] == Above(g, i, c);
      AboveMissing(g, i, c);
    }
    if Unmerged(g)[i][j].None? {
      forall m, c | 0 <= m <= i && 0 <= c <= j
        ensures g[m][c].None?
      {
        assert d[i][c].None?;
      }
    }
  }

  /** The last row at or above i, at or below k, with a value in column j. */
  function NearestAboveRow<T>(g: Grid<T>, i: nat, j: nat, k: nat): (n: nat)
    requires IsRect(g) && k <= i < |g| && j < Width(g) && g[k][j].Some?
    ensures k <= n <= i && g[n][j].Some? && forall m :: n < m <= i ==> g[m][j].None?
    decreases i - k
  {
    if g[i][j].Some? then i
    else if k == i then k
    else NearestAboveRow(g, i - 1, j, k)
  }

  // ---------------------------------------------------------------------------------------------
  // Filling a filled sheet changes nothing.

  /** Every missing cell has only missing cells above it. */
  ghost predicate GapsOnlyAtTop<T>(g: Grid<T>)
    requires IsRect(g)
  {
    forall i, m, j :: 0 <= m <= i < |g| && 0 <= j < Width(g) && g[i][j].None? ==> g[m][j].None?
  }

  /** Every missing cell has only missing cells to its left. */
  ghost predicate GapsOnlyAtStart<T>(row: seq<Option<T>>) {
    forall j, c :: 0 <= c <= j < |row| && row[j].None? ==> row[c].None?
  }

  lemma FillDownFixed<T>(g: Grid<T>)
    requires IsRect(g) && GapsOnlyAtTop(g)
    ensures FillDown(g) == g
  {
    forall i, j | 0 <= i < |g| && 0 <= j < Width(g)
      ensures Above(g, i, j) == g[i][j]
    {
      AboveMissing(g, i, j);
    }
    assert forall i :: 0 <= i < |g| ==> FillDown(g)[i] == g[i];
  }

  lemma FillRowFixed<T>(row: seq<Option<T>>)
    requires GapsOnlyAtStart(row)
    ensures FillRow(row) == row
  {
    forall j | 0 <= j < |row|
      ensures Left(row, j) == row[j]
    {
      LeftMissing(row, j);
    }
  }

  /** The fill leaves gaps only at the top-left corner of the sheet. */
  lemma UnmergedGaps<T>(g: Grid<T>)
    requires IsRect(g)
    ensures GapsOnlyAtTop(Unmerged(g))
    ensures forall i :: 0 <= i < |g| ==> GapsOnlyAtStart(Unmerged(g)[i])
  {
    var d: Grid<T>, r: Grid<T> := FillDown(g), Unmerged(g);
    forall i, m, j | 0 <= m <= i < |g| && 0 <= j < Width(g) && r[i][j].None?
      ensures r[m][j].None?
    {
      assert r[i][j] == Left(d[i], j);
      LeftMissing(d[i], j);
      forall c | 0 <= c <= j
        ensures d[m][c].None?
      {
        assert d[i][c] == Above(g, i, c);
        AboveMissing(g, i, c);
        AboveMissing(g, m, c);
        assert d[m][c] == Above(g, m, c);
      }
      assert r[m][j] == Left(d[m], j);
      LeftMissing(d[m], j);
    }
    forall i, j, c | 0 <= i < |g| && 0 <= c <= j < Width(g) && r[i][j].None?
      ensures r[i][c].None?
    {
      LeftMissing(d[i], j);
      LeftMissing(d[i], c);
    }
  }

  /** Unmerging an unmerged sheet gives it back unchanged. */
  lemma UnmergeIdempotent<T>(g: Grid<T>)
    requires IsRect(g)
    ensures Unmerged(Unmerged(g)) == Unmerged(g)
  {
    var r := Unmerged(g);
    UnmergedGaps(g);
    FillDownFixed(r);
    forall i | 0 <= i < |r|
      ensures FillRight(r)[i] == r[i]
    {
      FillRowFixed(r[i]);
    }
  }
}
