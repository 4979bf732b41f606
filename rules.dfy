/**
 * The game actions as functions on board values: what reveal, flag and unflag compute from
 * (status, board, row, column).  The class Game (game.dfy) performs the same steps on a cloned
 * array and is proved to produce exactly these results.
 */
module Rules {
  import opened Results
  import opened Cells
  import opened Grids

  datatype GameStatus = CREATED | PLAYING | PAUSED | WON | LOOSE

  predicate IsFinished(status: GameStatus) { status == WON || status == LOOSE }

  predicate CanBePaused(status: GameStatus) { status == PLAYING }

  /** What one action did: nothing (the "none" change), or a new status and a new board. */
  datatype Outcome = NoChange | Changed(status: GameStatus, board: Grid)

  // Reveal steps and the class of boards they lead to.

  /** y is x, or x is a hidden safe cell and y is its revealed code. */
  predicate Reveals(x: int, y: int) { y == x || (IsHiddenSafe(x) && y == DoReveal(x)) }

  /** h comes from g by revealing some hidden safe cells and touching nothing else. */
  ghost predicate Advances(g: Grid, h: Grid)
  {
    SameShape(g, h) && forall i, j :: InBounds(g, i, j) ==> Reveals(g[i][j], h[i][j])
  }

  lemma AdvancesTrans(a: Grid, b: Grid, c: Grid)
    requires Advances(a, b) && Advances(b, c)
    ensures Advances(a, c)
  {
    forall i, j | InBounds(a, i, j) ensures Reveals(a[i][j], c[i][j]) {
      assert Reveals(a[i][j], b[i][j]) && Reveals(b[i][j], c[i][j]);
    }
  }

  /** The number of cells still coded 0 or 10: the flood fill's termination measure. */
  function Zeros(g: Grid): nat { Count(g, 0) + Count(g, 10) }

  lemma AdvancesZeros(a: Grid, b: Grid)
    requires Advances(a, b)
    ensures Zeros(b) <= Zeros(a)
  {
    CountMono(a, b, 0);
    CountMono(a, b, 10);
  }

  /** Writing -1 over a cell coded 0 or 10 removes one zero cell. */
  lemma ClearZero(g: Grid, row: int, column: int)
    requires InBounds(g, row, column) && DoesntHaveAdjacentMines(g[row][column])
    ensures Zeros(Set(g, row, column, -1)) == Zeros(g) - 1
  {
    CountUpdate(g, row, column, -1, 0);
    CountUpdate(g, row, column, -1, 10);
  }

  // The flood fill: revealCell, revealSorroundings and the walk over the eight neighbours.

  /** revealCell: reveal a cell with a count, flood from a cell without one, leave the rest. */
  function CellAt(g: Grid, row: int, column: int): (h: Grid)
    requires Rect(g) && InBounds(g, row, column)
    ensures Advances(g, h) && Zeros(h) <= Zeros(g)
    decreases Zeros(g), 1, 0
  {
    var cell := g[row][column];
    if HasAdjacentMines(cell) then
      var h := Set(g, row, column, DoReveal(cell));
      AdvancesZeros(g, h);
      h
    else if DoesntHaveAdjacentMines(cell) then
      FloodAt(g, row, column)
    else
      g
  }

  /** revealSorroundings: mark the zero cell revealed (-1), then visit its in-bounds neighbours. */
  function FloodAt(g: Grid, row: int, column: int): (h: Grid)
    requires Rect(g) && InBounds(g, row, column) && DoesntHaveAdjacentMines(g[row][column])
    ensures Advances(g, h) && Zeros(h) < Zeros(g) && h[row][column] == -1
    decreases Zeros(g), 0, 0
  {
    var g0 := Set(g, row, column, -1);
    ClearZero(g, row, column);
    var h := RevealAround(g0, row, column, 0);
    AdvancesTrans(g, g0, h);
    h
  }

  /** Visit the neighbours Offsets[k..] of (row, column) that lie on the board, in order. */
  function RevealAround(g: Grid, row: int, column: int, k: nat): (h: Grid)
    requires Rect(g) && InBounds(g, row, column) && k <= |Offsets|
    ensures Advances(g, h) && Zeros(h) <= Zeros(g)
    decreases Zeros(g), 2, |Offsets| - k
  {
    if k == |Offsets| then g
    else
      var g1 := Visit(g, row, column, k);
      var h := RevealAround(g1, row, column, k + 1);
      AdvancesTrans(g, g1, h);
      h
  }

  /** Step k of the walk: revealCell on the k-th neighbour, skipped when it is off the board. */
  function Visit(g: Grid, row: int, column: int, k: nat): (g1: Grid)
    requires Rect(g) && InBounds(g, row, column) && k < |Offsets|
    ensures Advances(g, g1) && Rect(g1) && InBounds(g1, row, column) && Zeros(g1) <= Zeros(g)
    decreases Zeros(g), 1, 1
  {
    if NeighbourInBounds(g, row, column, k) then CellAt(g, row + Offsets[k].0, column + Offsets[k].1) else g
  }

  // The win scan.

  /** Every cell that is not a mine is revealed. */
  predicate AllSafeRevealed(g: Grid)
  {
    forall i, j :: 0 <= i < |g| && 0 <= j < |g[i]| && !HasMine(g[i][j]) ==> IsRevealed(g[i][j])
  }

  // The three actions.

  function Reveal(status: GameStatus, g: Grid, row: int, column: int): Result<Outcome, IndexError>
    requires Rect(g)
  {
    if IsFinished(status) then Ok(NoChange)
    else match Lookup(g, row, column)
      case Err(e) => Err(e)
      case Ok(cell) =>
        if IsRevealed(cell) then Ok(NoChange)
        else if HasMine(cell) then Ok(Changed(LOOSE, g))
        else
          var h1 := if HasAdjacentMines(cell) then Set(g, row, column, DoReveal(cell)) else g;
          var h := if DoesntHaveAdjacentMines(cell) then FloodAt(h1, row, column) else h1;
          Ok(Changed(if AllSafeRevealed(h) then WON else PLAYING, h))
  }

  function Flag(status: GameStatus, g: Grid, row: int, column: int): Result<Outcome, IndexError>
    requires Rect(g)
  {
    if IsFinished(status) then Ok(NoChange)
    else match Lookup(g, row, column)
      case Err(e) => Err(e)
      case Ok(cell) =>
        if IsFlagged(cell) then Ok(NoChange)
        else if IsRevealed(cell) then Ok(NoChange)
        else Ok(Changed(PLAYING, Set(g, row, column, cell + FLAG)))
  }

  function Unflag(status: GameStatus, g: Grid, row: int, column: int): Result<Outcome, IndexError>
    requires Rect(g)
  {
    if IsFinished(status) then Ok(NoChange)
    else match Lookup(g, row, column)
      case Err(e) => Err(e)
      case Ok(cell) =>
        if IsRevealed(cell) then Ok(NoChange)
        else if !IsFlagged(cell) then Ok(NoChange)
        else Ok(Changed(PLAYING, Set(g, row, column, cell - FLAG)))
  }

  /** The number of cells holding a mine, flagged or not (getMinesCount). */
  function MinesCount(g: Grid): nat { Count(g, MINE) + Count(g, MARKED_MINE) }
}
