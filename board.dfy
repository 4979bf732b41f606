/**
 * Board: the older board generator.  The same rejection placement and neighbour counts as
 * BoardBuilder, with a mine stored as Integer.MIN_VALUE, a bounds-checked read, the queries
 * built on it, a counting scan, and the three level presets.
 */
module Boards {
  import opened Results
  import opened Grids
  import opened Generation

  /** The mine code (Integer.MIN_VALUE) and what sorroundingMines reports for a mine. */
  const MINE: int := INT_MIN
  const UNKNOWN: int := 9

  /** The presets: rows, columns and mines of each level. */
  datatype Level = EASY | INTERMEDIATE | EXPERT
  {
    function Rows(): int
    {
      match this
      case EASY => 8
      case INTERMEDIATE => 16
      case EXPERT => 16
    }

    function Columns(): int
    {
      match this
      case EASY => 8
      case INTERMEDIATE => 16
      case EXPERT => 30
    }

    function Mines(): int
    {
      match this
      case EASY => 10
      case INTERMEDIATE => 40
      case EXPERT => 99
    }
  }

  /** Every preset passes the checks custom makes: at least one row and column, and fewer
    * mines than cells. */
  lemma LevelsAreValid(level: Level)
    ensures CheckSize(level.Rows(), level.Columns()) == Nothing
    ensures CheckMines(level.Rows(), level.Columns(), level.Mines()) == Nothing
    ensures 0 <= level.Mines() < level.Rows() * level.Columns()
  {
  }

  /** Once the draws have placed every mine, a generated board holds exactly the requested
    * number of mines: the property the tests check for the presets and for a custom 40 by 50
    * board with 100 mines. */
  lemma GeneratedMinesCount(rows: int, columns: int, mines: int, draws: seq<(int, int)>)
    requires rows >= 1 && columns >= 1 && mines >= 0 && DrawsFit(rows, columns, draws)
    requires Place(Empty(rows, columns), mines, draws, MINE).remaining == 0
    ensures Count(Generate(rows, columns, mines, draws, MINE), MINE) == mines
  {
    GenerateMines(rows, columns, mines, draws, MINE);
  }

  /** isNotAtFirst as written, (n - 1) != -1 in int arithmetic, holds exactly for n != 0. */
  lemma IsNotAtFirstIsNonZero(n: int)
    requires IsInt32(n)
    ensures Board.IsNotAtFirst(n) <==> n != 0
  {
  }

  /** On a generated board the queries tell mines from counts: sorroundingMines reports UNKNOWN
    * exactly where hasMine is true, and elsewhere the number of mines around the cell, at most 8. */
  lemma QueriesOnGeneratedBoard(b: Board, rows: int, columns: int, mines: int, draws: seq<(int, int)>, row: int, column: int)
    requires b.Valid() && rows >= 1 && columns >= 1 && DrawsFit(rows, columns, draws)
    requires ToGrid(b.cells) == Generate(rows, columns, mines, draws, MINE)
    requires 0 <= row < rows && 0 <= column < columns
    ensures b.SorroundingMines(row, column).Ok? && b.HasMine(row, column).Ok?
    ensures b.SorroundingMines(row, column).value == UNKNOWN <==> b.HasMine(row, column).value
    ensures !b.HasMine(row, column).value ==>
      b.SorroundingMines(row, column).value == MinesAround(ToGrid(b.cells), row, column, MINE) <= 8
  {
    GenerateCounts(rows, columns, mines, draws, MINE);
    assert InBounds(ToGrid(b.cells), row, column);
  }

  /** A Java int[rows][columns]: at least one row and one column, each dimension an int. */
  predicate IsIntBoard(a: array2<int>)
  {
    1 <= a.Length0 <= INT_MAX && 1 <= a.Length1 <= INT_MAX
  }

  class Board {
    const cells: array2<int>

    predicate Valid()
    {
      IsIntBoard(cells)
    }

    constructor (cells: array2<int>)
      ensures this.cells == cells
    {
      this.cells := cells;
    }

    function Rows(): int
    {
      cells.Length0
    }

    function Columns(): int
    {
      cells.Length1
    }

    /** minesCount(): the number of cells holding a mine. */
    method MinesCount() returns (detectedMines: int)
      requires Valid()
      ensures detectedMines == Count(ToGrid(cells), MINE)
    {
      ghost var g := ToGrid(cells);
      var rows := Rows();
      var columns := Columns();
      detectedMines := 0;
      for row := 0 to rows
        invariant detectedMines == Count(g[..row], MINE)
      {
        for column := 0 to columns
          invariant detectedMines == Count(g[..row], MINE) + CountRow(g[row][..column], MINE)
        {
          CountRowPrefix(g[row], column, MINE);
          if MineAt(cells, row, column) {
            detectedMines := detectedMines + 1;
          }
        }
        assert g[row][..columns] == g[row];
        CountPrefix(g, row, MINE);
      }
      assert g[..rows] == g;
    }

    /** sorroundingMines(row, column): UNKNOWN for a mine, the stored count otherwise. */
    function SorroundingMines(row: int, column: int): (r: Result<int, IndexError>)
      requires Valid()
      reads cells
      ensures r.Ok? <==> InBounds(ToGrid(cells), row, column)
      ensures r.Err? ==> r == Err(Lookup(ToGrid(cells), row, column).error)
      ensures r.Ok? && cells[row, column] == MINE ==> r.value == UNKNOWN
      ensures r.Ok? && cells[row, column] != MINE ==> r.value == cells[row, column]
    {
      match Get(row, column)
      case Err(e) => Err(e)
      case Ok(cell) => Ok(if cell == MINE then UNKNOWN else cells[row, column])
    }

    /** hasMine(row, column): the cell holds the mine code. */
    function HasMine(row: int, column: int): (r: Result<bool, IndexError>)
      requires Valid()
      reads cells
      ensures r.Ok? <==> InBounds(ToGrid(cells), row, column)
      ensures r.Err? ==> r == Err(Lookup(ToGrid(cells), row, column).error)
      ensures r.Ok? ==> (r.value <==> cells[row, column] == MINE)
    {
      match Get(row, column)
      case Err(e) => Err(e)
      case Ok(cell) => Ok(cell == MINE)
    }

    /** get(row, column): the four bounds checks in order, then the cell. */
    function Get(row: int, column: int): (r: Result<int, IndexError>)
      requires Valid()
      reads cells
      ensures r == Lookup(ToGrid(cells), row, column)
    {
      if row < 0 then Err(NegativeRow)
      else if row >= Rows() then Err(RowTooBig(Rows()))
      else if column < 0 then Err(NegativeColumn)
      else if column >= Columns() then Err(ColumnTooBig(Columns()))
      else Ok(cells[row, column])
    }

    static method Easy(draws: seq<(int, int)>) returns (b: Board)
      requires DrawsFit(EASY.Rows(), EASY.Columns(), draws)
      ensures fresh(b) && b.Valid() && ToGrid(b.cells) == Generate(8, 8, 10, draws, MINE)
    {
      var cells := CreateLevelCells(EASY, draws);
      b := new Board(cells);
    }

    static method Intermediate(draws: seq<(int, int)>) returns (b: Board)
      requires DrawsFit(INTERMEDIATE.Rows(), INTERMEDIATE.Columns(), draws)
      ensures fresh(b) && b.Valid() && ToGrid(b.cells) == Generate(16, 16, 40, draws, MINE)
    {
      var cells := CreateLevelCells(INTERMEDIATE, draws);
      b := new Board(cells);
    }

    static method Expert(draws: seq<(int, int)>) returns (b: Board)
      requires DrawsFit(EXPERT.Rows(), EXPERT.Columns(), draws)
      ensures fresh(b) && b.Valid() && ToGrid(b.cells) == Generate(16, 30, 99, draws, MINE)
    {
      var cells := CreateLevelCells(EXPERT, draws);
      b := new Board(cells);
    }

    /** createCells(level): the cells of a board of that level. */
    static method CreateLevelCells(desiredLevel: Level, draws: seq<(int, int)>) returns (board: array2<int>)
      requires DrawsFit(desiredLevel.Rows(), desiredLevel.Columns(), draws)
      ensures fresh(board) && board.Length0 == desiredLevel.Rows() && board.Length1 == desiredLevel.Columns()
      ensures ToGrid(board) == Generate(desiredLevel.Rows(), desiredLevel.Columns(), desiredLevel.Mines(), draws, MINE)
    {
      board := CreateCells(desiredLevel.Rows(), desiredLevel.Columns(), desiredLevel.Mines(), draws);
    }

    /** custom(rows, columns, mines): rows, columns, then the mine count, each its own error. */
    static method Custom(rows: int, columns: int, mines: int, draws: seq<(int, int)>) returns (r: Result<Board, BoardError>)
      requires IsInt32(rows) && IsInt32(columns) && DrawsFit(rows, columns, draws)
      ensures r.Err? <==> CheckSize(rows, columns).Some? || CheckMines(rows, columns, mines).Some?
      ensures CheckSize(rows, columns).Some? ==> r == Err(CheckSize(rows, columns).value)
      ensures CheckSize(rows, columns) == Nothing && CheckMines(rows, columns, mines).Some? ==>
                r == Err(CheckMines(rows, columns, mines).value)
      ensures r.Ok? ==> fresh(r.value) && r.value.Valid() && r.value.Rows() == rows && r.value.Columns() == columns
      ensures r.Ok? ==> ToGrid(r.value.cells) == Generate(rows, columns, mines, draws, MINE)
    {
      if rows < 1 {
        return Err(NoRows);
      }
      if columns < 1 {
        return Err(NoColumns);
      }
      if mines < 0 {
        return Err(NegativeMines);
      }
      var totalCells := Wrap32(rows * columns);
      if mines >= totalCells {
        return Err(TooManyMines);
      }
      var cells := CreateCells(rows, columns, mines, draws);
      var b := new Board(cells);
      return Ok(b);
    }

    /** createCells(rows, columns, mines): an empty board, the mines, then the counts. */
    static method CreateCells(rows: int, columns: int, mines: int, draws: seq<(int, int)>) returns (board: array2<int>)
      requires 1 <= rows <= INT_MAX && 1 <= columns <= INT_MAX && DrawsFit(rows, columns, draws)
      ensures fresh(board) && board.Length0 == rows && board.Length1 == columns
      ensures ToGrid(board) == Generate(rows, columns, mines, draws, MINE)
    {
      board := new int[rows, columns]((i, j) => 0);
      GridExt(ToGrid(board), Empty(rows, columns));
      RandomlyPlaceMinesAt(board, mines, draws);
      CalculateSurroundingMinesAt(board);
    }

    /** randomlyPlaceMinesAt(cells, mines): draws are taken until the mines sit on cells that held 0. */
    static method RandomlyPlaceMinesAt(cells: array2<int>, mines: int, draws: seq<(int, int)>)
      requires IsIntBoard(cells) && DrawsFit(cells.Length0, cells.Length1, draws)
      modifies cells
      ensures ToGrid(cells) == Place(old(ToGrid(cells)), mines, draws, MINE).board
    {
      ghost var g0 := ToGrid(cells);
      var minesToPlace := mines;
      var d := 0;
      while minesToPlace > 0 && d < |draws|
        invariant 0 <= d <= |draws|
        invariant Place(ToGrid(cells), minesToPlace, draws[d..], MINE) == Place(g0, mines, draws, MINE)
        decreases |draws| - d
      {
        var row, column := draws[d].0, draws[d].1;
        ghost var g := ToGrid(cells);
        assert draws[d..][0] == draws[d] && draws[d..][1..] == draws[d + 1..];
        var cell := cells[row, column];
        if cell == 0 {
          cells[row, column] := MINE;
          SetArray(cells, g, row, column);
          minesToPlace := minesToPlace - 1;
        }
        d := d + 1;
      }
    }

    /** calculateSurroundingMinesAt(cells): every cell without a mine gets its count, row by row. */
    static method CalculateSurroundingMinesAt(cells: array2<int>)
      requires IsIntBoard(cells)
      modifies cells
      ensures ToGrid(cells) == Labelled(old(ToGrid(cells)), MINE)
    {
      ghost var g := ToGrid(cells);
      ghost var l := Labelled(g, MINE);
      LabelledKeepsMines(g, MINE);
      LabelledUpToEnds(g, l);
      var rows := cells.Length0;
      var columns := cells.Length1;
      for row := 0 to rows
        invariant ToGrid(cells) == LabelledUpTo(g, l, row, 0)
      {
        LabelRow(cells, row, g, l);
        LabelledUpToRow(g, l, row, columns);
      }
    }

    /** The inner loop of calculateSurroundingMinesAt: the cells of one row, left to right. */
    static method LabelRow(cells: array2<int>, row: int, ghost g: Grid, ghost l: Grid)
      requires IsIntBoard(cells) && 0 <= row < cells.Length0
      requires Shape(g, cells.Length0, cells.Length1) && SameMines(g, l, MINE) && l == Labelled(g, MINE)
      requires ToGrid(cells) == LabelledUpTo(g, l, row, 0)
      modifies cells
      ensures ToGrid(cells) == LabelledUpTo(g, l, row, cells.Length1)
    {
      for column := 0 to cells.Length1
        invariant ToGrid(cells) == LabelledUpTo(g, l, row, column)
      {
        LabelCell(cells, row, column, g, l);
      }
    }

    /** The body of the inner loop: a cell without a mine gets its count, a mine stays. */
    static method LabelCell(cells: array2<int>, row: int, column: int, ghost g: Grid, ghost l: Grid)
      requires IsIntBoard(cells) && 0 <= row < cells.Length0 && 0 <= column < cells.Length1
      requires Shape(g, cells.Length0, cells.Length1) && SameMines(g, l, MINE) && l == Labelled(g, MINE)
      requires ToGrid(cells) == LabelledUpTo(g, l, row, column)
      modifies cells
      ensures ToGrid(cells) == LabelledUpTo(g, l, row, column + 1)
    {
      LabelledUpToStep(g, l, row, column);
      ghost var before := ToGrid(cells);
      if !MineAt(cells, row, column) {
        LabelledUpToSameMines(g, l, row, column, MINE);
        MinesFromSameMines(g, before, row, column, MINE, 0);
        var count := SurroundingMinesOf(cells, row, column);
        cells[row, column] := count;
        SetArray(cells, before, row, column);
      } else {
        LabelledUpToSkip(g, l, row, column);
      }
    }

    /** surroundingMinesOf(cells, row, column): the eight guarded checks, in the source's order. */
    static method SurroundingMinesOf(cells: array2<int>, row: int, column: int) returns (surroundingMines: int)
      requires IsIntBoard(cells) && 0 <= row < cells.Length0 && 0 <= column < cells.Length1
      ensures surroundingMines == MinesAround(ToGrid(cells), row, column, MINE)
    {
      ghost var g := ToGrid(cells);
      var isNotAtLastRow := (row + 1) != cells.Length0;
      var isNotAtLastColumn := (column + 1) != cells.Length1;
      IsNotAtFirstIsNonZero(row);
      IsNotAtFirstIsNonZero(column);
      OffsetsInOrder();
      surroundingMines := 0;
      surroundingMines := CountIf(cells, IsNotAtFirst(column), row, column, 0, row, column - 1, surroundingMines, g);
      surroundingMines := CountIf(cells, IsNotAtFirst(row), row, column, 1, row - 1, column, surroundingMines, g);
      surroundingMines := CountIf(cells, IsNotAtFirst(row) && IsNotAtFirst(column), row, column, 2, row - 1, column - 1, surroundingMines, g);
      surroundingMines := CountIf(cells, IsNotAtFirst(row) && isNotAtLastColumn, row, column, 3, row - 1, column + 1, surroundingMines, g);
      surroundingMines := CountIf(cells, isNotAtLastRow, row, column, 4, row + 1, column, surroundingMines, g);
      surroundingMines := CountIf(cells, isNotAtLastColumn, row, column, 5, row, column + 1, surroundingMines, g);
      surroundingMines := CountIf(cells, isNotAtLastRow && isNotAtLastColumn, row, column, 6, row + 1, column + 1, surroundingMines, g);
      surroundingMines := CountIf(cells, isNotAtLastRow && IsNotAtFirst(column), row, column, 7, row + 1, column - 1, surroundingMines, g);
      MinesAroundIsSum(g, row, column, MINE);
    }

    /** One of the eight checks: when the guard says the k-th neighbour (r, c) is on the board,
      * count it if it holds a mine. */
    static method CountIf(cells: array2<int>, guard: bool, row: int, column: int, k: nat, r: int, c: int, n: int,
                          ghost g: Grid) returns (n': int)
      requires g == ToGrid(cells) && 0 <= row < cells.Length0 && 0 <= column < cells.Length1
      requires k < |Offsets| && r == row + Offsets[k].0 && c == column + Offsets[k].1
      requires guard <==> 0 <= r < cells.Length0 && 0 <= c < cells.Length1
      ensures n' == n + Hit(g, row, column, MINE, k)
    {
      n' := n;
      if guard {
        if MineAt(cells, r, c) {
          n' := n + 1;
        }
      }
    }

    /** mineAt(cells, row, column). */
    static predicate MineAt(cells: array2<int>, row: int, column: int)
      requires 0 <= row < cells.Length0 && 0 <= column < cells.Length1
      reads cells
    {
      cells[row, column] == MINE
    }

    /** isNotAtFirst(n): (n - 1) != -1, the subtraction in 32-bit int arithmetic. */
    static predicate IsNotAtFirst(n: int)
    {
      Wrap32(n - 1) != -1
    }
  }
}
