/**
 * Board generation as functions on board values, shared by both generators (BoardBuilder,
 * whose mine code is 9, and the older Board, whose mine code is Integer.MIN_VALUE): the
 * validation of the requested dimensions, rejection placement of mines driven by the random
 * draws, and the neighbour counts written into every cell that is not a mine.
 */
module Generation {
  import opened Results
  import opened Grids

  // Java int arithmetic.

  const INT_MIN: int := -0x8000_0000
  const INT_MAX: int := 0x7fff_ffff

  predicate IsInt32(x: int) { INT_MIN <= x <= INT_MAX }

  /** x reduced to a 32-bit two's complement value, as a Java int expression evaluates it. */
  function Wrap32(x: int): (w: int)
    ensures IsInt32(w)
    ensures IsInt32(x) ==> w == x
    ensures (x - w) % 0x1_0000_0000 == 0
  {
    var m := x % 0x1_0000_0000;
    if m <= INT_MAX then m else m - 0x1_0000_0000
  }

  /** A wrapped non-negative product never exceeds the real one, so a mine count below the
    * wrapped cell count is below the real cell count as well. */
  lemma WrapNeverGrows(x: int)
    requires x >= 0
    ensures Wrap32(x) <= x
  {
  }

  /** The product of two positive ints that wraps to 0 shows the wrapped check may reject boards. */
  lemma WrapCanReject()
    ensures IsInt32(65536) && Wrap32(65536 * 65536) == 0
  {
  }

  // Validation.

  datatype BoardError = NoRows | NoColumns | NegativeMines | TooManyMines

  /** The checks on the dimensions, in the order the constructors make them. */
  function CheckSize(rows: int, columns: int): (r: Option<BoardError>)
    ensures r == Nothing <==> rows >= 1 && columns >= 1
    ensures rows < 1 ==> r == Some(NoRows)
    ensures rows >= 1 && columns < 1 ==> r == Some(NoColumns)
  {
    if rows < 1 then Some(NoRows)
    else if columns < 1 then Some(NoColumns)
    else Nothing
  }

  /** The checks on the mine count, the cell count computed as a Java int product. */
  function CheckMines(rows: int, columns: int, mines: int): (r: Option<BoardError>)
    ensures r == Nothing <==> 0 <= mines < Wrap32(rows * columns)
    ensures mines < 0 ==> r == Some(NegativeMines)
    ensures 0 <= mines && Wrap32(rows * columns) <= mines ==> r == Some(TooManyMines)
    ensures r == Nothing && rows >= 0 && columns >= 0 ==> mines < rows * columns
  {
    if mines < 0 then Some(NegativeMines)
    else if mines >= Wrap32(rows * columns) then
      Some(TooManyMines)
    else
      WrapNeverGrows(if rows >= 0 && columns >= 0 then rows * columns else 0);
      Nothing
  }

  // Placing mines.

  /** Every draw of the random generator is a cell of a rows-by-columns board (nextInt's range). */
  predicate DrawsFit(rows: int, columns: int, draws: seq<(int, int)>)
  {
    forall d :: 0 <= d < |draws| ==> 0 <= draws[d].0 < rows && 0 <= draws[d].1 < columns
  }

  /** The board after placement, and how many mines were still to place when the draws ran out. */
  datatype Placement = Placement(board: Grid, remaining: int)

  /** The rejection loop: a draw landing on a 0 cell places a mine there, any other draw is
    * ignored; the loop stops as soon as no mine is left to place. */
  function Place(g: Grid, toPlace: int, draws: seq<(int, int)>, mine: int): (p: Placement)
    requires Rect(g) && DrawsFit(|g|, |g[0]|, draws)
    ensures SameShape(g, p.board) && Rect(p.board)
    decreases |draws|
  {
    if toPlace <= 0 || |draws| == 0 then Placement(g, toPlace)
    else
      var row, column := draws[0].0, draws[0].1;
      assert DrawsFit(|g|, |g[0]|, draws[1..]) by {
        forall d | 0 <= d < |draws| - 1 ensures 0 <= draws[1..][d].0 < |g| && 0 <= draws[1..][d].1 < |g[0]| {
          assert draws[1..][d] == draws[d + 1];
        }
      }
      if g[row][column] == 0 then Place(Set(g, row, column, mine), toPlace - 1, draws[1..], mine)
      else Place(g, toPlace, draws[1..], mine)
  }

  /** Placement only turns 0 cells into mines, one per mine placed, and never places more
    * mines than were asked for. */
  lemma {:induction false} PlaceCounts(g: Grid, toPlace: int, draws: seq<(int, int)>, mine: int)
    requires Rect(g) && DrawsFit(|g|, |g[0]|, draws) && mine != 0
    ensures var p := Place(g, toPlace, draws, mine);
      && (toPlace <= 0 ==> p == Placement(g, toPlace))
      && (toPlace > 0 ==> 0 <= p.remaining <= toPlace)
      && (forall i, j :: InBounds(g, i, j) ==> p.board[i][j] == g[i][j] || (g[i][j] == 0 && p.board[i][j] == mine))
      && Count(p.board, mine) == Count(g, mine) + (toPlace - p.remaining)
      && Count(p.board, 0) == Count(g, 0) - (toPlace - p.remaining)
    decreases |draws|
  {
    if toPlace > 0 && |draws| > 0 {
      var row, column := draws[0].0, draws[0].1;
      assert forall d :: 0 <= d < |draws| - 1 ==> draws[1..][d] == draws[d + 1];
      if g[row][column] == 0 {
        var h := Set(g, row, column, mine);
        PlaceCounts(h, toPlace - 1, draws[1..], mine);
        CountUpdate(g, row, column, mine, mine);
        CountUpdate(g, row, column, mine, 0);
      } else {
        PlaceCounts(g, toPlace, draws[1..], mine);
      }
    }
  }

  /** A board with every cell holding v. */
  ghost predicate Filled(g: Grid, v: int)
  {
    forall i, j :: InBounds(g, i, j) ==> g[i][j] == v
  }

  /** On a fresh board of zeros, placement leaves exactly the placed mines and zeros elsewhere. */
  lemma PlaceOnEmpty(g: Grid, toPlace: int, draws: seq<(int, int)>, mine: int)
    requires Rect(g) && DrawsFit(|g|, |g[0]|, draws) && mine != 0 && Filled(g, 0) && toPlace >= 0
    ensures var p := Place(g, toPlace, draws, mine);
      && 0 <= p.remaining <= toPlace
      && Count(p.board, mine) == toPlace - p.remaining
      && (forall i, j :: InBounds(p.board, i, j) ==> p.board[i][j] == 0 || p.board[i][j] == mine)
  {
    PlaceCounts(g, toPlace, draws, mine);
    CountZero(g, mine);
  }

  /** A rows-by-columns board filled with v has rows * columns cells holding v. */
  lemma {:induction false} CountFilled(g: Grid, columns: int, v: int)
    requires Shape(g, |g|, columns) && columns >= 0 && Filled(g, v)
    ensures Count(g, v) == |g| * columns
  {
    if |g| > 0 {
      var p := g[..|g| - 1];
      assert Filled(p, v) by {
        forall i, j | InBounds(p, i, j) ensures p[i][j] == v { assert p[i] == g[i]; }
      }
      CountFilled(p, columns, v);
      CountRowFilled(g[|g| - 1], v);
    }
  }

  lemma {:induction false} CountRowFilled(row: seq<int>, v: int)
    requires forall j :: 0 <= j < |row| ==> row[j] == v
    ensures CountRow(row, v) == |row|
  {
    if |row| > 0 {
      CountRowFilled(row[..|row| - 1], v);
    }
  }

  /** While mines remain to be placed on a board of zeros with fewer mines than cells,
    * some cell is still 0, so a later draw can still place one. */
  lemma PlacementCanContinue(g: Grid, toPlace: int, draws: seq<(int, int)>, mine: int)
    requires Rect(g) && DrawsFit(|g|, |g[0]|, draws) && mine != 0 && Filled(g, 0)
    requires 0 <= toPlace < |g| * |g[0]|
    ensures var p := Place(g, toPlace, draws, mine);
      p.remaining > 0 ==> exists i, j :: InBounds(p.board, i, j) && p.board[i][j] == 0
  {
    var p := Place(g, toPlace, draws, mine);
    PlaceCounts(g, toPlace, draws, mine);
    CountFilled(g, |g[0]|, 0);
    if p.remaining > 0 {
      assert Count(p.board, 0) > 0;
      CountZero(p.board, 0);
    }
  }

  // Neighbour counts.

  /** 1 when the k-th neighbour of (row, column) is on the board and holds a mine, else 0. */
  function Hit(g: Grid, row: int, column: int, mine: int, k: int): (n: nat)
    requires 0 <= k < |Offsets|
    ensures n == 1 <==> NeighbourInBounds(g, row, column, k) && g[row + Offsets[k].0][column + Offsets[k].1] == mine
    ensures n <= 1
  {
    if NeighbourInBounds(g, row, column, k) && g[row + Offsets[k].0][column + Offsets[k].1] == mine then 1 else 0
  }

  /** The mines among the neighbours Offsets[k..]. */
  function MinesFrom(g: Grid, row: int, column: int, mine: int, k: nat): nat
    requires k <= |Offsets|
    decreases |Offsets| - k
  {
    if k == |Offsets| then 0 else Hit(g, row, column, mine, k) + MinesFrom(g, row, column, mine, k + 1)
  }

  /** surroundingMinesOf: the mines among the in-bounds neighbours of (row, column). */
  function MinesAround(g: Grid, row: int, column: int, mine: int): nat
  {
    MinesFrom(g, row, column, mine, 0)
  }

  /** The count as the sum of the eight checks, one per neighbour. */
  lemma MinesAroundIsSum(g: Grid, row: int, column: int, mine: int)
    ensures MinesAround(g, row, column, mine)
         == Hit(g, row, column, mine, 0) + Hit(g, row, column, mine, 1) + Hit(g, row, column, mine, 2)
          + Hit(g, row, column, mine, 3) + Hit(g, row, column, mine, 4) + Hit(g, row, column, mine, 5)
          + Hit(g, row, column, mine, 6) + Hit(g, row, column, mine, 7)
  {
    assert MinesFrom(g, row, column, mine, 6) == Hit(g, row, column, mine, 6) + Hit(g, row, column, mine, 7);
    assert MinesFrom(g, row, column, mine, 4) == Hit(g, row, column, mine, 4) + MinesFrom(g, row, column, mine, 5);
    assert MinesFrom(g, row, column, mine, 2) == Hit(g, row, column, mine, 2) + MinesFrom(g, row, column, mine, 3);
  }

  /** The number of neighbours Offsets[k..] that lie on the board. */
  function NeighboursFrom(g: Grid, row: int, column: int, k: nat): nat
    requires k <= |Offsets|
    decreases |Offsets| - k
  {
    if k == |Offsets| then 0
    else (if NeighbourInBounds(g, row, column, k) then 1 else 0) + NeighboursFrom(g, row, column, k + 1)
  }

  /** At most one mine per in-bounds neighbour, so at most 8, and none only when no
    * neighbour on the board holds a mine. */
  lemma {:induction false} MinesFromBounds(g: Grid, row: int, column: int, mine: int, k: nat)
    requires k <= |Offsets|
    ensures MinesFrom(g, row, column, mine, k) <= NeighboursFrom(g, row, column, k) <= |Offsets| - k
    ensures MinesFrom(g, row, column, mine, k) == 0 <==>
      forall l :: k <= l < |Offsets| ==> Hit(g, row, column, mine, l) == 0
    decreases |Offsets| - k
  {
    if k < |Offsets| {
      MinesFromBounds(g, row, column, mine, k + 1);
    }
  }

  lemma MinesAroundBounds(g: Grid, row: int, column: int, mine: int)
    ensures MinesAround(g, row, column, mine) <= NeighboursFrom(g, row, column, 0) <= 8
    ensures MinesAround(g, row, column, mine) == 0 <==>
      forall k :: 0 <= k < |Offsets| ==> !(NeighbourInBounds(g, row, column, k) && g[row + Offsets[k].0][column + Offsets[k].1] == mine)
  {
    MinesFromBounds(g, row, column, mine, 0);
  }

  /** The cells of g and h holding a mine are the same. */
  ghost predicate SameMines(g: Grid, h: Grid, mine: int)
  {
    SameShape(g, h) && forall i, j :: InBounds(g, i, j) ==> (g[i][j] == mine <==> h[i][j] == mine)
  }

  /** The count reads nothing but where the mines are. */
  lemma {:induction false} MinesFromSameMines(g: Grid, h: Grid, row: int, column: int, mine: int, k: nat)
    requires SameMines(g, h, mine) && k <= |Offsets|
    ensures MinesFrom(g, row, column, mine, k) == MinesFrom(h, row, column, mine, k)
    decreases |Offsets| - k
  {
    if k < |Offsets| {
      MinesFromSameMines(g, h, row, column, mine, k + 1);
      assert NeighbourInBounds(g, row, column, k) == NeighbourInBounds(h, row, column, k);
    }
  }

  /** calculateSurroundingMines as a whole: mines stay, every other cell gets its count. */
  function Labelled(g: Grid, mine: int): (h: Grid)
    ensures SameShape(g, h)
  {
    seq(|g|, i requires 0 <= i < |g| =>
      seq(|g[i]|, j requires 0 <= j < |g[i]| => if g[i][j] == mine then mine else MinesAround(g, i, j, mine)))
  }

  /** A mine code outside 0..8 is never produced as a count, so the labelled board has its
    * mines exactly where g has them, and as many of them. */
  lemma LabelledKeepsMines(g: Grid, mine: int)
    requires mine < 0 || mine > 8
    ensures SameMines(g, Labelled(g, mine), mine)
    ensures Count(Labelled(g, mine), mine) == Count(g, mine)
    ensures forall i, j :: InBounds(g, i, j) && g[i][j] != mine ==> 0 <= Labelled(g, mine)[i][j] <= 8
  {
    var h := Labelled(g, mine);
    forall i, j | InBounds(g, i, j) && g[i][j] != mine ensures 0 <= h[i][j] <= 8 {
      MinesAroundBounds(g, i, j, mine);
    }
    CountMono(g, h, mine);
    CountMono(h, g, mine);
  }

  /** The row-major traversal part way: cells before (row, column) from l, the rest from g. */
  function LabelledUpTo(g: Grid, l: Grid, row: int, column: int): (h: Grid)
    requires SameShape(g, l)
    ensures SameShape(g, h)
  {
    seq(|g|, i requires 0 <= i < |g| =>
      seq(|g[i]|, j requires 0 <= j < |g[i]| => if i < row || (i == row && j < column) then l[i][j] else g[i][j]))
  }

  lemma LabelledUpToEnds(g: Grid, l: Grid)
    requires SameShape(g, l)
    ensures LabelledUpTo(g, l, 0, 0) == g && LabelledUpTo(g, l, |g|, 0) == l
  {
    GridExt(LabelledUpTo(g, l, 0, 0), g);
    GridExt(LabelledUpTo(g, l, |g|, 0), l);
  }

  /** Writing l's value at (row, column) moves the traversal one cell on. */
  lemma LabelledUpToStep(g: Grid, l: Grid, row: int, column: int)
    requires SameShape(g, l) && InBounds(g, row, column)
    ensures LabelledUpTo(g, l, row, column)[row][column] == g[row][column]
    ensures Set(LabelledUpTo(g, l, row, column), row, column, l[row][column]) == LabelledUpTo(g, l, row, column + 1)
  {
    GridExt(Set(LabelledUpTo(g, l, row, column), row, column, l[row][column]), LabelledUpTo(g, l, row, column + 1));
  }

  /** Where l agrees with g the traversal moves on without a write. */
  lemma LabelledUpToSkip(g: Grid, l: Grid, row: int, column: int)
    requires SameShape(g, l) && InBounds(g, row, column) && l[row][column] == g[row][column]
    ensures LabelledUpTo(g, l, row, column + 1) == LabelledUpTo(g, l, row, column)
  {
    GridExt(LabelledUpTo(g, l, row, column + 1), LabelledUpTo(g, l, row, column));
  }

  /** The end of one row is the start of the next. */
  lemma LabelledUpToRow(g: Grid, l: Grid, row: int, columns: int)
    requires SameShape(g, l) && Shape(g, |g|, columns)
    ensures LabelledUpTo(g, l, row, columns) == LabelledUpTo(g, l, row + 1, 0)
  {
    GridExt(LabelledUpTo(g, l, row, columns), LabelledUpTo(g, l, row + 1, 0));
  }

  /** Part way through, the mines are still where g has them. */
  lemma LabelledUpToSameMines(g: Grid, l: Grid, row: int, column: int, mine: int)
    requires SameMines(g, l, mine)
    ensures SameMines(g, LabelledUpTo(g, l, row, column), mine)
  {
  }

  // The whole generator.

  /** A new rows-by-columns board, every cell 0 (the contents of new int[rows][columns]). */
  function Empty(rows: nat, columns: nat): (g: Grid)
    ensures Shape(g, rows, columns) && Filled(g, 0)
  {
    seq(rows, i => seq(columns, j => 0))
  }

  /** createCells: mines placed by the draws on an empty board, then every count written. */
  function Generate(rows: int, columns: int, mines: int, draws: seq<(int, int)>, mine: int): (g: Grid)
    requires rows >= 1 && columns >= 1 && DrawsFit(rows, columns, draws)
    ensures Shape(g, rows, columns)
  {
    Labelled(Place(Empty(rows, columns), mines, draws, mine).board, mine)
  }

  /** The generated board holds the mines placement put there: all of the requested ones once
    * the draws have placed every mine. */
  lemma GenerateMines(rows: int, columns: int, mines: int, draws: seq<(int, int)>, mine: int)
    requires rows >= 1 && columns >= 1 && DrawsFit(rows, columns, draws)
    requires mine < 0 || mine > 8
    ensures var p := Place(Empty(rows, columns), mines, draws, mine);
      var g := Generate(rows, columns, mines, draws, mine);
      && Count(g, mine) == Count(p.board, mine)
      && (mines >= 0 ==> Count(g, mine) == mines - p.remaining)
      && (mines >= 0 && p.remaining == 0 ==> Count(g, mine) == mines)
  {
    var e := Empty(rows, columns);
    var p := Place(e, mines, draws, mine);
    LabelledKeepsMines(p.board, mine);
    if mines >= 0 {
      PlaceOnEmpty(e, mines, draws, mine);
    }
  }

  /** Every cell of the generated board that is not a mine holds a count in 0..8, the number of
    * mines among its in-bounds neighbours on that same board. */
  lemma GenerateCounts(rows: int, columns: int, mines: int, draws: seq<(int, int)>, mine: int)
    requires rows >= 1 && columns >= 1 && DrawsFit(rows, columns, draws)
    requires mine < 0 || mine > 8
    ensures var g := Generate(rows, columns, mines, draws, mine);
      forall i, j :: InBounds(g, i, j) && g[i][j] != mine ==> 0 <= g[i][j] <= 8 && g[i][j] == MinesAround(g, i, j, mine)
  {
    var p := Place(Empty(rows, columns), mines, draws, mine);
    var g := Labelled(p.board, mine);
    LabelledKeepsMines(p.board, mine);
    forall i, j | InBounds(g, i, j) && g[i][j] != mine ensures g[i][j] == MinesAround(g, i, j, mine) {
      MinesFromSameMines(p.board, g, i, j, mine, 0);
    }
  }
}
