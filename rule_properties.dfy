/**
 * What the game actions guarantee: finished games and revealed cells are left alone, a mine
 * loses without touching the board, a safe cell is revealed with its count, the flood fill
 * reveals the whole zero region with its border, nothing beyond it and never a mine, the
 * status is WON exactly when every safe cell is revealed, and flag and unflag undo each other.
 */
module RuleProperties {
  import opened Results
  import opened Cells
  import opened Grids
  import opened Rules

  // The flood fill reaches every neighbour of every zero cell it opens.

  /** Every on-board neighbour Offsets[k..] of (row, column) is revealed or a mine in h. */
  ghost predicate NeighboursSettled(h: Grid, row: int, column: int, k: nat)
  {
    forall l :: k <= l < |Offsets| && InBounds(h, row + Offsets[l].0, column + Offsets[l].1) ==>
      !IsHiddenSafe(h[row + Offsets[l].0][column + Offsets[l].1])
  }

  /** Every cell coded 0 or 10 in g that h reveals has all its neighbours settled in h. */
  ghost predicate Closed(g: Grid, h: Grid)
  {
    forall i, j :: InBounds(g, i, j) && InBounds(h, i, j) && DoesntHaveAdjacentMines(g[i][j]) && IsRevealed(h[i][j]) ==>
      NeighboursSettled(h, i, j, 0)
  }

  /** A cell that is not hidden and safe is never changed again. */
  lemma SettledStays(g: Grid, h: Grid, i: int, j: int)
    requires Advances(g, h) && InBounds(g, i, j) && !IsHiddenSafe(g[i][j])
    ensures h[i][j] == g[i][j]
  {
    assert Reveals(g[i][j], h[i][j]);
  }

  lemma NeighboursStaySettled(g: Grid, h: Grid, row: int, column: int)
    requires Advances(g, h) && NeighboursSettled(g, row, column, 0)
    ensures NeighboursSettled(h, row, column, 0)
  {
    forall l | 0 <= l < |Offsets| && InBounds(h, row + Offsets[l].0, column + Offsets[l].1)
      ensures !IsHiddenSafe(h[row + Offsets[l].0][column + Offsets[l].1])
    {
      SettledStays(g, h, row + Offsets[l].0, column + Offsets[l].1);
    }
  }

  lemma ClosedTrans(a: Grid, b: Grid, c: Grid)
    requires Advances(a, b) && Advances(b, c) && Closed(a, b) && Closed(b, c)
    ensures Closed(a, c)
  {
    forall i, j | InBounds(a, i, j) && InBounds(c, i, j) && DoesntHaveAdjacentMines(a[i][j]) && IsRevealed(c[i][j])
      ensures NeighboursSettled(c, i, j, 0)
    {
      assert Reveals(a[i][j], b[i][j]);
      if IsRevealed(b[i][j]) {
        NeighboursStaySettled(b, c, i, j);
      } else {
        assert b[i][j] == a[i][j];
      }
    }
  }

  lemma {:induction false} CellAtClosed(g: Grid, row: int, column: int)
    requires Rect(g) && InBounds(g, row, column)
    ensures Closed(g, CellAt(g, row, column)) && !IsHiddenSafe(CellAt(g, row, column)[row][column])
    decreases Zeros(g), 1, 0
  {
    var cell := g[row][column];
    if DoesntHaveAdjacentMines(cell) {
      FloodAtClosed(g, row, column);
    }
  }

  lemma {:induction false} FloodAtClosed(g: Grid, row: int, column: int)
    requires Rect(g) && InBounds(g, row, column) && DoesntHaveAdjacentMines(g[row][column])
    ensures Closed(g, FloodAt(g, row, column))
    decreases Zeros(g), 0, 0
  {
    var g0 := Set(g, row, column, -1);
    ClearZero(g, row, column);
    var h := RevealAround(g0, row, column, 0);
    assert h == FloodAt(g, row, column);
    RevealAroundClosed(g0, row, column, 0);
    forall i, j | InBounds(g, i, j) && InBounds(h, i, j) && DoesntHaveAdjacentMines(g[i][j]) && IsRevealed(h[i][j])
      ensures NeighboursSettled(h, i, j, 0)
    {
      if (i, j) != (row, column) {
        assert g0[i][j] == g[i][j];
      }
    }
  }

  /** Extending the settled neighbours by offset k. */
  lemma NeighboursSettledStep(h: Grid, row: int, column: int, k: nat)
    requires k < |Offsets| && NeighboursSettled(h, row, column, k + 1)
    requires InBounds(h, row + Offsets[k].0, column + Offsets[k].1) ==>
      !IsHiddenSafe(h[row + Offsets[k].0][column + Offsets[k].1])
    ensures NeighboursSettled(h, row, column, k)
  {
  }

  /** One step of the walk: what the visit of neighbour k and the rest of the walk establish. */
  lemma WalkStep(g: Grid, g1: Grid, h: Grid, row: int, column: int, k: nat)
    requires k < |Offsets| && Advances(g, g1) && Advances(g1, h)
    requires Closed(g1, h) && NeighboursSettled(h, row, column, k + 1)
    requires NeighbourInBounds(g, row, column, k) ==>
      Closed(g, g1) && !IsHiddenSafe(g1[row + Offsets[k].0][column + Offsets[k].1])
    requires !NeighbourInBounds(g, row, column, k) ==> g1 == g
    ensures Closed(g, h) && NeighboursSettled(h, row, column, k)
  {
    var r, c := row + Offsets[k].0, column + Offsets[k].1;
    if NeighbourInBounds(g, row, column, k) {
      SettledStays(g1, h, r, c);
      ClosedTrans(g, g1, h);
    }
    NeighboursSettledStep(h, row, column, k);
  }

  lemma WalkUnfold(g: Grid, row: int, column: int, k: nat)
    requires Rect(g) && InBounds(g, row, column) && k < |Offsets|
    ensures RevealAround(g, row, column, k) == RevealAround(Visit(g, row, column, k), row, column, k + 1)
  {
  }

  /** Visiting neighbour k closes what it reveals and leaves that neighbour settled. */
  lemma {:induction false} VisitClosed(g: Grid, row: int, column: int, k: nat)
    requires Rect(g) && InBounds(g, row, column) && k < |Offsets|
    ensures Closed(g, Visit(g, row, column, k))
    ensures NeighbourInBounds(g, row, column, k) ==>
      !IsHiddenSafe(Visit(g, row, column, k)[row + Offsets[k].0][column + Offsets[k].1])
    ensures !NeighbourInBounds(g, row, column, k) ==> Visit(g, row, column, k) == g
    decreases Zeros(g), 1, 1
  {
    var r, c := row + Offsets[k].0, column + Offsets[k].1;
    if NeighbourInBounds(g, row, column, k) {
      assert Visit(g, row, column, k) == CellAt(g, r, c);
      CellAtClosed(g, r, c);
    } else {
      assert Visit(g, row, column, k) == g;
    }
  }

  /** The walk from step k is closed once the visit of neighbour k and the rest of the walk are. */
  lemma WalkClosed(g: Grid, g1: Grid, row: int, column: int, k: nat)
    requires Rect(g) && InBounds(g, row, column) && k < |Offsets| && g1 == Visit(g, row, column, k)
    requires Closed(g, g1)
    requires NeighbourInBounds(g, row, column, k) ==> !IsHiddenSafe(g1[row + Offsets[k].0][column + Offsets[k].1])
    requires !NeighbourInBounds(g, row, column, k) ==> g1 == g
    requires Closed(g1, RevealAround(g1, row, column, k + 1))
    requires NeighboursSettled(RevealAround(g1, row, column, k + 1), row, column, k + 1)
    ensures Closed(g, RevealAround(g, row, column, k))
    ensures NeighboursSettled(RevealAround(g, row, column, k), row, column, k)
  {
    WalkUnfold(g, row, column, k);
    WalkStep(g, g1, RevealAround(g1, row, column, k + 1), row, column, k);
  }

  lemma {:induction false} RevealAroundClosed(g: Grid, row: int, column: int, k: nat)
    requires Rect(g) && InBounds(g, row, column) && k <= |Offsets|
    ensures Closed(g, RevealAround(g, row, column, k))
    ensures NeighboursSettled(RevealAround(g, row, column, k), row, column, k)
    decreases Zeros(g), 2, |Offsets| - k
  {
    if k < |Offsets| {
      var g1 := Visit(g, row, column, k);
      VisitClosed(g, row, column, k);
      RevealAroundClosed(g1, row, column, k + 1);
      WalkClosed(g, g1, row, column, k);
    }
  }

  // The flood fill opens nothing beyond the zero region and its border.

  /** a and b are at most one row and one column apart (a cell is adjacent to itself). */
  predicate Adjacent(a: (int, int), b: (int, int))
  {
    -1 <= a.0 - b.0 <= 1 && -1 <= a.1 - b.1 <= 1
  }

  /** p walks through cells of g coded 0 or 10, each step to an adjacent cell. */
  ghost predicate ZeroPath(g: Grid, p: seq<(int, int)>)
  {
    && (forall n :: 0 <= n < |p| ==> InBounds(g, p[n].0, p[n].1) && DoesntHaveAdjacentMines(g[p[n].0][p[n].1]))
    && (forall n :: 0 < n < |p| ==> Adjacent(p[n - 1], p[n]))
  }

  /** (i, j) is reached from (row, column) through cells of g without adjacent mines. */
  ghost predicate Reached(g: Grid, row: int, column: int, i: int, j: int)
  {
    exists p {:trigger ZeroPath(g, p)} :: ZeroPath(g, p) && |p| >= 1 && p[0] == (row, column) && p[|p| - 1] == (i, j)
  }

  /** (i, j) is a reached cell or borders one: the most a flood from (row, column) may open. */
  ghost predicate Near(g: Grid, row: int, column: int, i: int, j: int)
  {
    exists a, b {:trigger Reached(g, row, column, a, b)} :: Reached(g, row, column, a, b) && Adjacent((a, b), (i, j))
  }

  /** Every cell where h differs from g is near (row, column) in the board origin. */
  ghost predicate ChangesNear(origin: Grid, row: int, column: int, g: Grid, h: Grid)
  {
    forall i, j :: InBounds(g, i, j) && InBounds(h, i, j) && h[i][j] != g[i][j] ==> Near(origin, row, column, i, j)
  }

  /** Changes near (row, column) in two steps are changes near it. */
  lemma ChangesNearTrans(origin: Grid, row: int, column: int, g: Grid, g1: Grid, h: Grid)
    requires SameShape(g, g1) && ChangesNear(origin, row, column, g, g1) && ChangesNear(origin, row, column, g1, h)
    ensures ChangesNear(origin, row, column, g, h)
  {
    forall i, j | InBounds(g, i, j) && InBounds(h, i, j) && h[i][j] != g[i][j]
      ensures Near(origin, row, column, i, j)
    {
      assert InBounds(g1, i, j);
      if g1[i][j] == g[i][j] {
        assert h[i][j] != g1[i][j];
      }
    }
  }

  lemma ReachedStart(g: Grid, row: int, column: int)
    requires InBounds(g, row, column) && DoesntHaveAdjacentMines(g[row][column])
    ensures Reached(g, row, column, row, column)
  {
    var p := [(row, column)];
    assert ZeroPath(g, p);
  }

  lemma NearOf(g: Grid, row: int, column: int, a: int, b: int, i: int, j: int)
    requires Reached(g, row, column, a, b) && Adjacent((a, b), (i, j))
    ensures Near(g, row, column, i, j)
  {
  }

  lemma OffsetIsAdjacent(row: int, column: int, k: nat)
    requires k < |Offsets|
    ensures Adjacent((row, column), (row + Offsets[k].0, column + Offsets[k].1))
  {
    OffsetsAreTheNeighbourhood();
    assert Offsets[k] in Offsets;
  }

  /** A cell without adjacent mines stays one while the flood advances, so a zero path of the
    * advanced board h is one of g. */
  lemma ZeroPathBack(g: Grid, h: Grid, p: seq<(int, int)>)
    requires Advances(g, h) && ZeroPath(h, p)
    ensures ZeroPath(g, p)
  {
    forall n | 0 <= n < |p|
      ensures InBounds(g, p[n].0, p[n].1) && DoesntHaveAdjacentMines(g[p[n].0][p[n].1])
    {
      assert Reveals(g[p[n].0][p[n].1], h[p[n].0][p[n].1]);
    }
  }

  /** A zero path extends backwards by an adjacent cell without adjacent mines. */
  lemma ZeroPathCons(g: Grid, x: (int, int), p: seq<(int, int)>)
    requires ZeroPath(g, p) && |p| >= 1 && Adjacent(x, p[0])
    requires InBounds(g, x.0, x.1) && DoesntHaveAdjacentMines(g[x.0][x.1])
    ensures ZeroPath(g, [x] + p)
  {
    var q := [x] + p;
    assert forall n :: 0 < n < |q| ==> q[n] == p[n - 1];
  }

  /** Reached on a board the flood has advanced, one step from (row, column), is reached from it on g. */
  lemma ReachedFromNeighbour(g: Grid, h: Grid, row: int, column: int, r: int, c: int, i: int, j: int)
    requires Advances(g, h) && InBounds(g, row, column) && DoesntHaveAdjacentMines(g[row][column])
    requires Adjacent((row, column), (r, c)) && Reached(h, r, c, i, j)
    ensures Reached(g, row, column, i, j)
  {
    var p: seq<(int, int)> :| ZeroPath(h, p) && |p| >= 1 && p[0] == (r, c) && p[|p| - 1] == (i, j);
    ZeroPathBack(g, h, p);
    ZeroPathCons(g, (row, column), p);
    var q := [(row, column)] + p;
    assert q[0] == (row, column) && q[|q| - 1] == (i, j);
  }

  lemma NearFromNeighbour(g: Grid, h: Grid, row: int, column: int, r: int, c: int, i: int, j: int)
    requires Advances(g, h) && InBounds(g, row, column) && DoesntHaveAdjacentMines(g[row][column])
    requires Adjacent((row, column), (r, c)) && Near(h, r, c, i, j)
    ensures Near(g, row, column, i, j)
  {
    var a, b :| Reached(h, r, c, a, b) && Adjacent((a, b), (i, j));
    ReachedFromNeighbour(g, h, row, column, r, c, a, b);
  }

  /** revealCell changes the cell itself, and when it floods, only cells near it. */
  lemma {:induction false} CellAtBounded(g: Grid, row: int, column: int)
    requires Rect(g) && InBounds(g, row, column)
    ensures forall i, j :: InBounds(g, i, j) && CellAt(g, row, column)[i][j] != g[i][j] ==>
      (i, j) == (row, column) || (DoesntHaveAdjacentMines(g[row][column]) && Near(g, row, column, i, j))
    decreases Zeros(g), 1, 0
  {
    if DoesntHaveAdjacentMines(g[row][column]) {
      FloodAtBounded(g, row, column);
    }
  }

  /** revealSorroundings changes only cells reached from the start through cells without
    * adjacent mines, and their neighbours. */
  lemma {:induction false} FloodAtBounded(g: Grid, row: int, column: int)
    requires Rect(g) && InBounds(g, row, column) && DoesntHaveAdjacentMines(g[row][column])
    ensures ChangesNear(g, row, column, g, FloodAt(g, row, column))
    decreases Zeros(g), 0, 0
  {
    var g0 := Set(g, row, column, -1);
    ClearZero(g, row, column);
    assert Advances(g, g0) by {
      forall i, j | InBounds(g, i, j) ensures Reveals(g[i][j], g0[i][j]) {
      }
    }
    var h := RevealAround(g0, row, column, 0);
    assert h == FloodAt(g, row, column);
    RevealAroundBounded(g, g0, row, column, 0);
    ReachedStart(g, row, column);
    forall i, j | InBounds(g, i, j) && InBounds(h, i, j) && h[i][j] != g[i][j]
      ensures Near(g, row, column, i, j)
    {
      if (i, j) == (row, column) {
        NearOf(g, row, column, row, column, i, j);
      } else {
        assert g0[i][j] == g[i][j];
      }
    }
  }

  /** The walk over the neighbours of (row, column), on a board the flood from there has
    * advanced, changes only cells near (row, column) on the flood's original board. */
  lemma {:induction false} RevealAroundBounded(origin: Grid, g: Grid, row: int, column: int, k: nat)
    requires Rect(g) && InBounds(g, row, column) && k <= |Offsets|
    requires Advances(origin, g) && DoesntHaveAdjacentMines(origin[row][column])
    ensures ChangesNear(origin, row, column, g, RevealAround(g, row, column, k))
    decreases Zeros(g), 2, |Offsets| - k
  {
    if k < |Offsets| {
      var g1 := Visit(g, row, column, k);
      VisitBounded(origin, g, row, column, k);
      AdvancesTrans(origin, g, g1);
      RevealAroundBounded(origin, g1, row, column, k + 1);
      WalkBounded(origin, g, g1, row, column, k);
    }
  }

  /** The walk from step k changes only cells near (row, column) once the visit of neighbour k
    * and the rest of the walk do. */
  lemma WalkBounded(origin: Grid, g: Grid, g1: Grid, row: int, column: int, k: nat)
    requires Rect(g) && InBounds(g, row, column) && k < |Offsets| && g1 == Visit(g, row, column, k)
    requires ChangesNear(origin, row, column, g, g1)
    requires ChangesNear(origin, row, column, g1, RevealAround(g1, row, column, k + 1))
    ensures ChangesNear(origin, row, column, g, RevealAround(g, row, column, k))
  {
    WalkUnfold(g, row, column, k);
    ChangesNearTrans(origin, row, column, g, g1, RevealAround(g1, row, column, k + 1));
  }

  /** A revealCell on the neighbour (r, c) of (row, column), whose changes are that cell or
    * near it, changes only cells near (row, column) on the flood's original board. */
  lemma NeighbourChangesNear(origin: Grid, g: Grid, h: Grid, row: int, column: int, r: int, c: int)
    requires Advances(origin, g) && InBounds(origin, row, column) && DoesntHaveAdjacentMines(origin[row][column])
    requires InBounds(g, r, c) && Adjacent((row, column), (r, c))
    requires forall i, j :: InBounds(g, i, j) && InBounds(h, i, j) && h[i][j] != g[i][j] ==>
      (i, j) == (r, c) || (DoesntHaveAdjacentMines(g[r][c]) && Near(g, r, c, i, j))
    ensures ChangesNear(origin, row, column, g, h)
  {
    ReachedStart(origin, row, column);
    forall i, j | InBounds(g, i, j) && InBounds(h, i, j) && h[i][j] != g[i][j]
      ensures Near(origin, row, column, i, j)
    {
      if (i, j) == (r, c) {
        NearOf(origin, row, column, row, column, r, c);
      } else {
        NearFromNeighbour(origin, g, row, column, r, c, i, j);
      }
    }
  }

  /** revealCell on the neighbour (r, c) changes only cells near (row, column). */
  lemma {:induction false} CellAtNearNeighbour(origin: Grid, g: Grid, row: int, column: int, r: int, c: int)
    requires Rect(g) && InBounds(g, r, c) && Adjacent((row, column), (r, c))
    requires Advances(origin, g) && InBounds(origin, row, column) && DoesntHaveAdjacentMines(origin[row][column])
    ensures ChangesNear(origin, row, column, g, CellAt(g, r, c))
    decreases Zeros(g), 1, 1
  {
    CellAtBounded(g, r, c);
    NeighbourChangesNear(origin, g, CellAt(g, r, c), row, column, r, c);
  }

  /** Visiting neighbour k changes that neighbour, or cells near it, all near (row, column). */
  lemma {:induction false} VisitBounded(origin: Grid, g: Grid, row: int, column: int, k: nat)
    requires Rect(g) && InBounds(g, row, column) && k < |Offsets|
    requires Advances(origin, g) && DoesntHaveAdjacentMines(origin[row][column])
    ensures ChangesNear(origin, row, column, g, Visit(g, row, column, k))
    decreases Zeros(g), 1, 2
  {
    var r, c := row + Offsets[k].0, column + Offsets[k].1;
    if NeighbourInBounds(g, row, column, k) {
      assert Visit(g, row, column, k) == CellAt(g, r, c);
      OffsetIsAdjacent(row, column, k);
      CellAtNearNeighbour(origin, g, row, column, r, c);
    } else {
      assert Visit(g, row, column, k) == g;
    }
  }

  // The flood fill opens everything it reaches.

  /** The index in Offsets of a non-zero step of at most one row and one column. */
  function OffsetIndex(dr: int, dc: int): (l: nat)
    requires -1 <= dr <= 1 && -1 <= dc <= 1 && (dr, dc) != (0, 0)
    ensures l < |Offsets| && Offsets[l] == (dr, dc)
  {
    if dr == 0 then (if dc == -1 then 0 else 5)
    else if dr == -1 then (if dc == 0 then 1 else if dc == -1 then 2 else 3)
    else (if dc == 0 then 4 else if dc == 1 then 6 else 7)
  }

  /** A cell without adjacent mines next to a zero cell that h reveals is revealed too, when h
    * closes g. */
  lemma NeighbourOpened(g: Grid, h: Grid, a: (int, int), b: (int, int))
    requires Advances(g, h) && Closed(g, h)
    requires InBounds(g, a.0, a.1) && DoesntHaveAdjacentMines(g[a.0][a.1]) && IsRevealed(h[a.0][a.1])
    requires InBounds(g, b.0, b.1) && DoesntHaveAdjacentMines(g[b.0][b.1]) && Adjacent(a, b)
    ensures IsRevealed(h[b.0][b.1])
  {
    if a != b {
      var l := OffsetIndex(b.0 - a.0, b.1 - a.1);
      assert InBounds(h, a.0, a.1) && InBounds(h, b.0, b.1);
      assert NeighboursSettled(h, a.0, a.1, 0);
      assert !IsHiddenSafe(h[a.0 + Offsets[l].0][a.1 + Offsets[l].1]);
      assert Reveals(g[b.0][b.1], h[b.0][b.1]);
    }
  }

  /** Along a zero path of g whose first cell h reveals, h reveals the last cell too. */
  lemma {:induction false} PathOpened(g: Grid, h: Grid, p: seq<(int, int)>)
    requires Advances(g, h) && Closed(g, h) && ZeroPath(g, p) && |p| >= 1
    requires IsRevealed(h[p[0].0][p[0].1])
    ensures IsRevealed(h[p[|p| - 1].0][p[|p| - 1].1])
    decreases |p|
  {
    if |p| > 1 {
      NeighbourOpened(g, h, p[0], p[1]);
      var q := p[1..];
      assert ZeroPath(g, q) by {
        assert forall n :: 0 <= n < |q| ==> q[n] == p[n + 1];
      }
      PathOpened(g, h, q);
      assert q[|q| - 1] == p[|p| - 1];
    }
  }

  /** revealSorroundings reveals every cell reached from the start through cells without
    * adjacent mines, and settles every neighbour of it: the lower bound matching
    * FloodAtBounded. */
  lemma FloodAtOpensReached(g: Grid, row: int, column: int, i: int, j: int)
    requires Rect(g) && InBounds(g, row, column) && DoesntHaveAdjacentMines(g[row][column])
    requires Reached(g, row, column, i, j)
    ensures InBounds(FloodAt(g, row, column), i, j)
    ensures IsRevealed(FloodAt(g, row, column)[i][j]) && NeighboursSettled(FloodAt(g, row, column), i, j, 0)
  {
    var h := FloodAt(g, row, column);
    FloodAtClosed(g, row, column);
    var p: seq<(int, int)> :| ZeroPath(g, p) && |p| >= 1 && p[0] == (row, column) && p[|p| - 1] == (i, j);
    PathOpened(g, h, p);
  }

  // The actions.

  /** A finished game ignores every action, before any coordinate check. */
  lemma FinishedGameIgnoresActions(status: GameStatus, g: Grid, row: int, column: int)
    requires Rect(g) && IsFinished(status)
    ensures Reveal(status, g, row, column) == Ok(NoChange)
    ensures Flag(status, g, row, column) == Ok(NoChange)
    ensures Unflag(status, g, row, column) == Ok(NoChange)
  {
  }

  /** On an unfinished game a coordinate off the board is the lookup's error. */
  lemma OutOfBoundsIsError(status: GameStatus, g: Grid, row: int, column: int)
    requires Rect(g) && !IsFinished(status) && !InBounds(g, row, column)
    ensures Reveal(status, g, row, column) == Err(Lookup(g, row, column).error)
    ensures Flag(status, g, row, column) == Err(Lookup(g, row, column).error)
    ensures Unflag(status, g, row, column) == Err(Lookup(g, row, column).error)
  {
  }

  /** Revealing a revealed cell changes nothing. */
  lemma RevealRevealedCell(status: GameStatus, g: Grid, row: int, column: int)
    requires Rect(g) && InBounds(g, row, column) && IsRevealed(g[row][column])
    ensures Reveal(status, g, row, column) == Ok(NoChange)
  {
  }

  /** Revealing a mine loses, and the board comes back exactly as it was. */
  lemma RevealMine(status: GameStatus, g: Grid, row: int, column: int)
    requires Rect(g) && !IsFinished(status) && InBounds(g, row, column) && HasMine(g[row][column])
    ensures Reveal(status, g, row, column) == Ok(Changed(LOOSE, g))
  {
  }

  /**
   * Revealing a hidden safe cell reveals it with its count (clearing a flag). A cell with a
   * count is the only cell that changes; from a cell without adjacent mines the whole zero
   * region and its border are opened, and nothing else. The game is won exactly when no safe
   * cell is left hidden.
   */
  lemma RevealSafeCell(status: GameStatus, g: Grid, row: int, column: int)
    requires Rect(g) && !IsFinished(status) && InBounds(g, row, column) && IsHiddenSafe(g[row][column])
    ensures Reveal(status, g, row, column).Ok?
    ensures var o := Reveal(status, g, row, column).value;
      && o.Changed?
      && Advances(g, o.board)
      && o.board[row][column] == DoReveal(g[row][column])
      && Decode(o.board[row][column]) == Some(Cell(Decode(g[row][column]).value.content, Revealed))
      && (o.status == WON <==> AllSafeRevealed(o.board))
      && (o.status == WON || o.status == PLAYING)
      && (DoesntHaveAdjacentMines(g[row][column]) ==> Closed(g, o.board) && NeighboursSettled(o.board, row, column, 0))
      && (DoesntHaveAdjacentMines(g[row][column]) ==> ChangesNear(g, row, column, g, o.board))
      && (HasAdjacentMines(g[row][column]) ==> o.board == Set(g, row, column, DoReveal(g[row][column])))
  {
    var cell := g[row][column];
    if DoesntHaveAdjacentMines(cell) {
      FloodAtClosed(g, row, column);
      FloodAtBounded(g, row, column);
      var h := FloodAt(g, row, column);
      assert InBounds(h, row, column) && IsRevealed(h[row][column]);
    } else {
      var h := Set(g, row, column, DoReveal(cell));
      assert Advances(g, h) by {
        forall i, j | InBounds(g, i, j) ensures Reveals(g[i][j], h[i][j]) {
        }
      }
    }
  }

  /** Revealing a cell a second time changes nothing. */
  lemma RevealIsIdempotent(status: GameStatus, g: Grid, row: int, column: int)
    requires Rect(g) && InBounds(g, row, column) && ValidCode(g[row][column])
    requires Reveal(status, g, row, column).Ok? && Reveal(status, g, row, column).value.Changed?
    ensures var o := Reveal(status, g, row, column).value;
      Rect(o.board) && Reveal(o.status, o.board, row, column) == Ok(NoChange)
  {
    if IsHiddenSafe(g[row][column]) {
      RevealSafeCell(status, g, row, column);
    }
  }

  /** Advancing keeps every mine where it is, and every revealed cell as it is. */
  lemma AdvancesKeepsMines(g: Grid, h: Grid)
    requires Advances(g, h)
    ensures MinesCount(h) == MinesCount(g)
    ensures forall i, j :: InBounds(g, i, j) && (HasMine(g[i][j]) || IsRevealed(g[i][j])) ==> h[i][j] == g[i][j]
  {
    forall i, j | InBounds(g, i, j) ensures Reveals(g[i][j], h[i][j]) {}
    CountMono(g, h, MINE);
    CountMono(h, g, MINE);
    CountMono(g, h, MARKED_MINE);
    CountMono(h, g, MARKED_MINE);
  }

  /**
   * Flagging a hidden cell makes it the flagged cell with the same content and changes nothing
   * else; a cell already flagged or revealed is left alone, and so is any code outside the
   * encoding.
   */
  lemma FlagCell(status: GameStatus, g: Grid, row: int, column: int)
    requires Rect(g) && !IsFinished(status) && InBounds(g, row, column)
    ensures ValidCode(g[row][column]) ==> var c := Decode(g[row][column]).value;
      Flag(status, g, row, column) ==
        if c.visibility == Hidden then Ok(Changed(PLAYING, Set(g, row, column, Encode(Cell(c.content, Flagged)))))
        else Ok(NoChange)
    ensures !ValidCode(g[row][column]) ==> Flag(status, g, row, column) == Ok(NoChange)
  {
  }

  /**
   * Unflagging a flagged cell makes it the hidden cell with the same content and changes
   * nothing else; a hidden or revealed cell is left alone. Of the codes outside the encoding,
   * those above 19 count as flagged and lose 10, the others are left alone.
   */
  lemma UnflagCell(status: GameStatus, g: Grid, row: int, column: int)
    requires Rect(g) && !IsFinished(status) && InBounds(g, row, column)
    ensures ValidCode(g[row][column]) ==> var c := Decode(g[row][column]).value;
      Unflag(status, g, row, column) ==
        if c.visibility == Flagged then Ok(Changed(PLAYING, Set(g, row, column, Encode(Cell(c.content, Hidden)))))
        else Ok(NoChange)
    ensures !ValidCode(g[row][column]) ==>
      Unflag(status, g, row, column) ==
        if g[row][column] > MARKED_MINE then Ok(Changed(PLAYING, Set(g, row, column, g[row][column] - FLAG)))
        else Ok(NoChange)
  {
  }

  /** Unflagging what flag produced restores the board exactly. */
  lemma UnflagUndoesFlag(status: GameStatus, g: Grid, row: int, column: int)
    requires Rect(g) && Flag(status, g, row, column).Ok? && Flag(status, g, row, column).value.Changed?
    ensures var o := Flag(status, g, row, column).value;
      Rect(o.board) && Unflag(o.status, o.board, row, column) == Ok(Changed(PLAYING, g))
  {
    var cell := g[row][column];
    var h := Set(g, row, column, cell + FLAG);
    assert Set(h, row, column, cell) == g by {
      GridExt(Set(h, row, column, cell), g);
    }
  }

  /** Flagging what unflag produced restores the board exactly. */
  lemma FlagUndoesUnflag(status: GameStatus, g: Grid, row: int, column: int)
    requires Rect(g) && InBounds(g, row, column) && ValidCode(g[row][column])
    requires Unflag(status, g, row, column).Ok? && Unflag(status, g, row, column).value.Changed?
    ensures var o := Unflag(status, g, row, column).value;
      Rect(o.board) && Flag(o.status, o.board, row, column) == Ok(Changed(PLAYING, g))
  {
    var cell := g[row][column];
    var h := Set(g, row, column, cell - FLAG);
    assert Set(h, row, column, cell) == g by {
      GridExt(Set(h, row, column, cell), g);
    }
  }

  /** A flag does not block a reveal: revealing a flagged cell yields what revealing it unflagged does. */
  lemma FlagIsAdvisory(g: Grid, row: int, column: int)
    requires Rect(g) && InBounds(g, row, column) && IsHiddenSafe(g[row][column]) && !IsFlagged(g[row][column])
    ensures var h := Set(g, row, column, g[row][column] + FLAG);
      Reveal(PLAYING, h, row, column) == Reveal(PLAYING, g, row, column)
  {
    var cell := g[row][column];
    var h := Set(g, row, column, cell + FLAG);
    assert Set(h, row, column, DoReveal(cell + FLAG)) == Set(g, row, column, DoReveal(cell)) by {
      GridExt(Set(h, row, column, DoReveal(cell + FLAG)), Set(g, row, column, DoReveal(cell)));
    }
    if DoesntHaveAdjacentMines(cell) {
      assert Set(h, row, column, -1) == Set(g, row, column, -1) by {
        GridExt(Set(h, row, column, -1), Set(g, row, column, -1));
      }
      assert FloodAt(h, row, column) == FloodAt(g, row, column);
    }
  }

  /** Flag and unflag never decide the game. */
  lemma FlaggingNeverDecides(status: GameStatus, g: Grid, row: int, column: int)
    requires Rect(g)
    ensures Flag(status, g, row, column).Ok? && Flag(status, g, row, column).value.Changed? ==>
      Flag(status, g, row, column).value.status == PLAYING
    ensures Unflag(status, g, row, column).Ok? && Unflag(status, g, row, column).value.Changed? ==>
      Unflag(status, g, row, column).value.status == PLAYING
  {
  }

  // The cell codes are kept valid, and every cell keeps its content.

  ghost predicate ValidGrid(g: Grid)
  {
    forall i, j :: InBounds(g, i, j) ==> ValidCode(g[i][j])
  }

  /** The board's contents (mine or count) are the same in g and h; only visibility differs. */
  ghost predicate SameContents(g: Grid, h: Grid)
  {
    SameShape(g, h) &&
    forall i, j :: InBounds(g, i, j) ==>
      Decode(g[i][j]).Some? && Decode(h[i][j]).Some? && Decode(h[i][j]).value.content == Decode(g[i][j]).value.content
  }

  lemma AdvancesKeepsContents(g: Grid, h: Grid)
    requires ValidGrid(g) && Advances(g, h)
    ensures ValidGrid(h) && SameContents(g, h)
  {
    forall i, j | InBounds(g, i, j)
      ensures Decode(g[i][j]).Some? && Decode(h[i][j]).Some? && Decode(h[i][j]).value.content == Decode(g[i][j]).value.content
    {
      assert Reveals(g[i][j], h[i][j]);
    }
  }

  /** Revealing on a valid board gives a valid board with the same mines and counts. */
  lemma RevealKeepsContents(status: GameStatus, g: Grid, row: int, column: int)
    requires Rect(g) && ValidGrid(g)
    requires Reveal(status, g, row, column).Ok? && Reveal(status, g, row, column).value.Changed?
    ensures var h := Reveal(status, g, row, column).value.board;
      SameContents(g, h) && MinesCount(h) == MinesCount(g)
  {
    var h := Reveal(status, g, row, column).value.board;
    if IsHiddenSafe(g[row][column]) {
      RevealSafeCell(status, g, row, column);
    } else {
      assert h == g;
      assert Advances(g, g);
    }
    AdvancesKeepsContents(g, h);
    AdvancesKeepsMines(g, h);
  }

  /** Replacing one cell by a code for the same content keeps the board's contents. */
  lemma SetKeepsContents(g: Grid, row: int, column: int, v: int)
    requires Rect(g) && ValidGrid(g) && InBounds(g, row, column)
    requires Decode(v).Some? && Decode(v).value.content == Decode(g[row][column]).value.content
    ensures SameContents(g, Set(g, row, column, v))
  {
  }

  /** Replacing one cell by a code that has a mine exactly when the old one had keeps the mine count. */
  lemma SetKeepsMinesCount(g: Grid, row: int, column: int, v: int)
    requires InBounds(g, row, column) && (HasMine(v) <==> HasMine(g[row][column]))
    ensures MinesCount(Set(g, row, column, v)) == MinesCount(g)
  {
    CountUpdate(g, row, column, v, MINE);
    CountUpdate(g, row, column, v, MARKED_MINE);
  }

  /** Flagging on a valid board gives a valid board with the same mines and counts. */
  lemma FlagKeepsContents(status: GameStatus, g: Grid, row: int, column: int)
    requires Rect(g) && ValidGrid(g)
    requires Flag(status, g, row, column).Ok? && Flag(status, g, row, column).value.Changed?
    ensures var h := Flag(status, g, row, column).value.board;
      SameContents(g, h) && MinesCount(h) == MinesCount(g)
  {
    var cell := g[row][column];
    assert Flag(status, g, row, column).value.board == Set(g, row, column, cell + FLAG);
    SetKeepsContents(g, row, column, cell + FLAG);
    SetKeepsMinesCount(g, row, column, cell + FLAG);
  }

  /** Unflagging on a valid board gives a valid board with the same mines and counts. */
  lemma UnflagKeepsContents(status: GameStatus, g: Grid, row: int, column: int)
    requires Rect(g) && ValidGrid(g)
    requires Unflag(status, g, row, column).Ok? && Unflag(status, g, row, column).value.Changed?
    ensures var h := Unflag(status, g, row, column).value.board;
      SameContents(g, h) && MinesCount(h) == MinesCount(g)
  {
    var cell := g[row][column];
    assert Unflag(status, g, row, column).value.board == Set(g, row, column, cell - FLAG);
    SetKeepsContents(g, row, column, cell - FLAG);
    SetKeepsMinesCount(g, row, column, cell - FLAG);
  }

  /** A game that can be paused is never finished. */
  lemma PausableIsUnfinished(status: GameStatus)
    ensures CanBePaused(status) ==> !IsFinished(status)
    ensures IsFinished(status) <==> status in {WON, LOOSE}
  {
  }
}
