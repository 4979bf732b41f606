/**
 * Boards as values: a rectangular grid of integer cells, the bounds-checked lookup shared
 * by both board classes, counting of cells holding a value, and the eight neighbour offsets.
 */
module Grids {
  import opened Results

  type Grid = seq<seq<int>>

  predicate Shape<T>(g: seq<seq<T>>, rows: int, columns: int)
  {
    |g| == rows && forall i :: 0 <= i < |g| ==> |g[i]| == columns
  }

  /** At least one row and one column, every row as long as the first. */
  predicate Rect(g: Grid)
  {
    |g| >= 1 && |g[0]| >= 1 && Shape(g, |g|, |g[0]|)
  }

  predicate SameShape<T, U>(g: seq<seq<T>>, h: seq<seq<U>>)
  {
    |g| == |h| && forall i :: 0 <= i < |g| ==> |g[i]| == |h[i]|
  }

  predicate InBounds<T>(g: seq<seq<T>>, row: int, column: int)
  {
    0 <= row < |g| && 0 <= column < |g[row]|
  }

  /** The grid with one cell replaced. */
  function Set(g: Grid, row: int, column: int, v: int): (h: Grid)
    requires InBounds(g, row, column)
    ensures SameShape(g, h) && h[row][column] == v
    ensures forall i, j :: InBounds(g, i, j) && (i, j) != (row, column) ==> h[i][j] == g[i][j]
  {
    g[row := g[row][column := v]]
  }

  /** The contents of a two-dimensional array, row by row. */
  ghost function ToGrid<T>(a: array2<T>): (g: seq<seq<T>>)
    reads a
    ensures Shape(g, a.Length0, a.Length1)
    ensures forall i, j :: 0 <= i < a.Length0 && 0 <= j < a.Length1 ==> g[i][j] == a[i, j]
  {
    seq(a.Length0, i requires 0 <= i < a.Length0 reads a =>
      seq(a.Length1, j requires 0 <= j < a.Length1 reads a => a[i, j]))
  }

  /** Two grids of one shape with equal cells are equal. */
  lemma GridExt<T>(g: seq<seq<T>>, h: seq<seq<T>>)
    requires SameShape(g, h)
    requires forall i, j :: InBounds(g, i, j) ==> g[i][j] == h[i][j]
    ensures g == h
  {
    forall i | 0 <= i < |g| ensures g[i] == h[i] {
      assert forall j :: 0 <= j < |g[i]| ==> g[i][j] == h[i][j];
    }
  }

  /** A write of v at one cell of an array whose grid was g yields Set(g, row, column, v). */
  lemma SetArray(a: array2<int>, g: Grid, row: int, column: int)
    requires Shape(g, a.Length0, a.Length1) && 0 <= row < a.Length0 && 0 <= column < a.Length1
    requires forall i, j :: 0 <= i < a.Length0 && 0 <= j < a.Length1 && (i, j) != (row, column) ==> a[i, j] == g[i][j]
    ensures ToGrid(a) == Set(g, row, column, a[row, column])
  {
    GridExt(ToGrid(a), Set(g, row, column, a[row, column]));
  }

  // Counting the cells that hold a value.

  function CountRow(row: seq<int>, v: int): (n: nat)
    ensures n <= |row|
  {
    if |row| == 0 then 0
    else CountRow(row[..|row| - 1], v) + (if row[|row| - 1] == v then 1 else 0)
  }

  function Count(g: Grid, v: int): nat
  {
    if |g| == 0 then 0 else Count(g[..|g| - 1], v) + CountRow(g[|g| - 1], v)
  }

  /** No cell holds v exactly when v is counted zero times. */
  lemma {:induction false} CountRowZero(row: seq<int>, v: int)
    ensures CountRow(row, v) == 0 <==> forall j :: 0 <= j < |row| ==> row[j] != v
  {
    if |row| > 0 {
      CountRowZero(row[..|row| - 1], v);
      assert forall j :: 0 <= j < |row| - 1 ==> row[..|row| - 1][j] == row[j];
    }
  }

  lemma {:induction false} CountZero(g: Grid, v: int)
    ensures Count(g, v) == 0 <==> forall i, j :: InBounds(g, i, j) ==> g[i][j] != v
  {
    if |g| > 0 {
      CountZero(g[..|g| - 1], v);
      CountRowZero(g[|g| - 1], v);
      assert forall i :: 0 <= i < |g| - 1 ==> g[..|g| - 1][i] == g[i];
    }
  }

  /** Replacing one entry changes the count by what left and what came in. */
  lemma {:induction false} CountRowUpdate(row: seq<int>, j: int, x: int, v: int)
    requires 0 <= j < |row|
    ensures CountRow(row[j := x], v)
         == CountRow(row, v) - (if row[j] == v then 1 else 0) + (if x == v then 1 else 0)
  {
    var last := |row| - 1;
    if j < last {
      CountRowUpdate(row[..last], j, x, v);
      assert row[j := x][..last] == row[..last][j := x];
    } else {
      assert row[j := x][..last] == row[..last];
    }
  }

  lemma {:induction false} CountUpdate(g: Grid, row: int, column: int, x: int, v: int)
    requires InBounds(g, row, column)
    ensures Count(Set(g, row, column, x), v)
         == Count(g, v) - (if g[row][column] == v then 1 else 0) + (if x == v then 1 else 0)
  {
    var last := |g| - 1;
    var h := Set(g, row, column, x);
    if row < last {
      CountUpdate(g[..last], row, column, x, v);
      assert h[..last] == Set(g[..last], row, column, x);
    } else {
      assert h[..last] == g[..last];
      CountRowUpdate(g[row], column, x, v);
    }
  }

  /** If every cell holding v in b held v in a, then b holds v no more often than a. */
  lemma {:induction false} CountRowMono(a: seq<int>, b: seq<int>, v: int)
    requires |a| == |b|
    requires forall j :: 0 <= j < |b| && b[j] == v ==> a[j] == v
    ensures CountRow(b, v) <= CountRow(a, v)
  {
    if |a| > 0 {
      var last := |a| - 1;
      CountRowMono(a[..last], b[..last], v);
    }
  }

  lemma {:induction false} CountMono(a: Grid, b: Grid, v: int)
    requires SameShape(a, b)
    requires forall i, j :: InBounds(b, i, j) && b[i][j] == v ==> a[i][j] == v
    ensures Count(b, v) <= Count(a, v)
  {
    if |a| > 0 {
      var last := |a| - 1;
      CountMono(a[..last], b[..last], v);
      CountRowMono(a[last], b[last], v);
    }
  }

  /** Extending a prefix of rows by the next row, as a row-major scan does. */
  lemma CountPrefix(g: Grid, i: int, v: int)
    requires 0 <= i < |g|
    ensures Count(g[..i + 1], v) == Count(g[..i], v) + CountRow(g[i], v)
  {
    assert g[..i + 1][..i] == g[..i];
  }

  lemma CountRowPrefix(row: seq<int>, j: int, v: int)
    requires 0 <= j < |row|
    ensures CountRow(row[..j + 1], v) == CountRow(row[..j], v) + (if row[j] == v then 1 else 0)
  {
    assert row[..j + 1][..j] == row[..j];
  }

  // Bounds-checked access (Game.get and Board.get share these checks and their order).

  datatype IndexError = NegativeRow | RowTooBig(rows: int) | NegativeColumn | ColumnTooBig(columns: int)

  function Lookup(g: Grid, row: int, column: int): (r: Result<int, IndexError>)
    requires Rect(g)
    ensures r.Ok? <==> InBounds(g, row, column)
    ensures r.Ok? ==> r.value == g[row][column]
    ensures row < 0 ==> r == Err(NegativeRow)
    ensures row >= |g| ==> r == Err(RowTooBig(|g|))
    ensures 0 <= row < |g| && column < 0 ==> r == Err(NegativeColumn)
    ensures 0 <= row < |g| && column >= |g[0]| ==> r == Err(ColumnTooBig(|g[0]|))
  {
    if row < 0 then Err(NegativeRow)
    else if row >= |g| then Err(RowTooBig(|g|))
    else if column < 0 then Err(NegativeColumn)
    else if column >= |g[0]| then Err(ColumnTooBig(|g[0]|))
    else Ok(g[row][column])
  }

  // The neighbourhood of a cell, in the order the Java code visits it:
  // left, up, up-left, up-right, down, right, down-right, down-left.

  const Offsets: seq<(int, int)> := [(0, -1), (-1, 0), (-1, -1), (-1, 1), (1, 0), (0, 1), (1, 1), (1, -1)]

  /** The offsets are the eight distinct non-zero steps of at most one row and one column. */
  lemma OffsetsAreTheNeighbourhood()
    ensures |Offsets| == 8
    ensures forall k, l :: 0 <= k < l < |Offsets| ==> Offsets[k] != Offsets[l]
    ensures forall dr, dc :: (dr, dc) in Offsets <==> -1 <= dr <= 1 && -1 <= dc <= 1 && (dr, dc) != (0, 0)
  {
  }

  /** The offsets one by one. */
  lemma OffsetsInOrder()
    ensures Offsets[0] == (0, -1) && Offsets[1] == (-1, 0) && Offsets[2] == (-1, -1) && Offsets[3] == (-1, 1)
    ensures Offsets[4] == (1, 0) && Offsets[5] == (0, 1) && Offsets[6] == (1, 1) && Offsets[7] == (1, -1)
  {
  }

  /** isNotAtFirst of Game and BoardBuilder: index n has a predecessor. */
  predicate IsNotAtFirst(n: int)
  {
    n != 0
  }

  /** The neighbour of (row, column) at offset k lies on the board. */
  predicate NeighbourInBounds(g: Grid, row: int, column: int, k: int)
    requires 0 <= k < |Offsets|
  {
    InBounds(g, row + Offsets[k].0, column + Offsets[k].1)
  }
}
