/**
 * BoardBuilder: the generator of Game boards.  It validates the dimensions, places mines
 * (code 9) by rejection into cells still holding 0, and then writes into every other cell
 * the number of mines around it, in place.  The random generator is the sequence of draws
 * it would return, each a cell of the board.
 */
module Builders {
  import opened Results
  import opened Cells
  import opened Grids
  import opened Generation

  class BoardBuilder {
    const rows: int
    const columns: int
    const cells: array2<int>

    predicate Valid()
    {
      rows >= 1 && columns >= 1 && cells.Length0 == rows && cells.Length1 == columns
    }

    /** The constructor after its checks have passed: a rows-by-columns board of zeros. */
    constructor (rows: int, columns: int)
      requires rows >= 1 && columns >= 1
      ensures Valid() && this.rows == rows && this.columns == columns
      ensures fresh(cells) && ToGrid(cells) == Empty(rows, columns)
    {
      this.rows := rows;
      this.columns := columns;
      cells := new int[rows, columns]((i, j) => 0);
      new;
      GridExt(ToGrid(cells), Empty(rows, columns));
    }

    /** new BoardBuilder(rows, columns): at least one row, then at least one column. */
    static method Create(rows: int, columns: int) returns (r: Result<BoardBuilder, BoardError>)
      ensures r.Err? <==> CheckSize(rows, columns).Some?
      ensures r.Err? ==> r.error == CheckSize(rows, columns).value
      ensures r.Ok? ==> fresh(r.value) && fresh(r.value.cells) && r.value.Valid()
      ensures r.Ok? ==> r.value.rows == rows && r.value.columns == columns
      ensures r.Ok? ==> ToGrid(r.value.cells) == Empty(rows, columns)
    {
      if rows < 1 {
        return Err(NoRows);
      }
      if columns < 1 {
        return Err(NoColumns);
      }
      var builder := new BoardBuilder(rows, columns);
      return Ok(builder);
    }

    /** build(): the board itself. */
    function Build(): array2<int>
    {
      cells
    }

    /** randomlyPlaceMines(amount): the mine count is checked against the cell count as a Java
      * int product; then draws are taken until amount mines sit on cells that held 0. */
    method RandomlyPlaceMines(amount: int, draws: seq<(int, int)>) returns (r: Option<BoardError>)
      requires Valid() && DrawsFit(rows, columns, draws)
      modifies cells
      ensures r == CheckMines(rows, columns, amount)
      ensures r.Some? ==> unchanged(cells)
      ensures r == Nothing ==> ToGrid(cells) == Place(old(ToGrid(cells)), amount, draws, MINE).board
    {
      if amount < 0 {
        return Some(NegativeMines);
      }
      var totalCells := Wrap32(rows * columns);
      if amount >= totalCells {
        return Some(TooManyMines);
      }
      ghost var g0 := ToGrid(cells);
      var minesToPlace := amount;
      var d := 0;
      while minesToPlace > 0 && d < |draws|
        invariant 0 <= d <= |draws|
        invariant Place(ToGrid(cells), minesToPlace, draws[d..], MINE) == Place(g0, amount, draws, MINE)
        decreases |draws| - d
      {
        var row, column := draws[d].0, draws[d].1;
        ghost var g := ToGrid(cells);
        assert draws[d..][0] == draws[d] && draws[d..][1..] == draws[d + 1..];
        var cell := cells[row, column];
        if cell == 0 {
          cells[row, column] := MINE;
          SetArray(cells, g, row, column);
          minesToPlace := minesToPlace - 1;
        }
        d := d + 1;
      }
      return Nothing;
    }

    /** calculateSurroundingMines(): every cell without a mine gets its count, row by row. */
    method CalculateSurroundingMines()
      requires Valid()
      modifies cells
      ensures ToGrid(cells) == Labelled(old(ToGrid(cells)), MINE)
    {
      ghost var g := ToGrid(cells);
      ghost var l := Labelled(g, MINE);
      LabelledKeepsMines(g, MINE);
      LabelledUpToEnds(g, l);
      for row := 0 to rows
        invariant ToGrid(cells) == LabelledUpTo(g, l, row, 0)
      {
        LabelRow(row, g, l);
        LabelledUpToRow(g, l, row, columns);
      }
    }

    /** The inner loop of calculateSurroundingMines: the cells of one row, left to right. */
    method LabelRow(row: int, ghost g: Grid, ghost l: Grid)
      requires Valid() && 0 <= row < rows && Shape(g, rows, columns) && SameMines(g, l, MINE)
      requires l == Labelled(g, MINE)
      requires ToGrid(cells) == LabelledUpTo(g, l, row, 0)
      modifies cells
      ensures ToGrid(cells) == LabelledUpTo(g, l, row, columns)
    {
      for column := 0 to columns
        invariant ToGrid(cells) == LabelledUpTo(g, l, row, column)
      {
        LabelCell(row, column, g, l);
      }
    }

    /** The body of the inner loop: a cell without a mine gets its count, a mine stays. */
    method LabelCell(row: int, column: int, ghost g: Grid, ghost l: Grid)
      requires Valid() && 0 <= row < rows && 0 <= column < columns
      requires Shape(g, rows, columns) && SameMines(g, l, MINE)
      requires l == Labelled(g, MINE)
      requires ToGrid(cells) == LabelledUpTo(g, l, row, column)
      modifies cells
      ensures ToGrid(cells) == LabelledUpTo(g, l, row, column + 1)
    {
      LabelledUpToStep(g, l, row, column);
      ghost var before := ToGrid(cells);
      if !MineAt(row, column) {
        LabelledUpToSameMines(g, l, row, column, MINE);
        MinesFromSameMines(g, before, row, column, MINE, 0);
        var count := SurroundingMinesOf(row, column);
        cells[row, column] := count;
        SetArray(cells, before, row, column);
      } else {
        LabelledUpToSkip(g, l, row, column);
      }
    }

    /** surroundingMinesOf(row, column): the source's eight guarded checks, in its order. */
    method SurroundingMinesOf(row: int, column: int) returns (surroundingMines: int)
      requires Valid() && 0 <= row < rows && 0 <= column < columns
      ensures surroundingMines == MinesAround(ToGrid(cells), row, column, MINE)
    {
      ghost var g := ToGrid(cells);
      var isNotAtLastRow := (row + 1) != rows;
      var isNotAtLastColumn := (column + 1) != columns;
      OffsetsInOrder();
      surroundingMines := 0;
      surroundingMines := CountIf(IsNotAtFirst(column), row, column, 0, row, column - 1, surroundingMines, g);
      surroundingMines := CountIf(IsNotAtFirst(row), row, column, 1, row - 1, column, surroundingMines, g);
      surroundingMines := CountIf(IsNotAtFirst(row) && IsNotAtFirst(column), row, column, 2, row - 1, column - 1, surroundingMines, g);
      surroundingMines := CountIf(IsNotAtFirst(row) && isNotAtLastColumn, row, column, 3, row - 1, column + 1, surroundingMines, g);
      surroundingMines := CountIf(isNotAtLastRow, row, column, 4, row + 1, column, surroundingMines, g);
      surroundingMines := CountIf(isNotAtLastColumn, row, column, 5, row, column + 1, surroundingMines, g);
      surroundingMines := CountIf(isNotAtLastRow && isNotAtLastColumn, row, column, 6, row + 1, column + 1, surroundingMines, g);
      surroundingMines := CountIf(isNotAtLastRow && IsNotAtFirst(column), row, column, 7, row + 1, column - 1, surroundingMines, g);
      MinesAroundIsSum(g, row, column, MINE);
    }

    /** One of the eight checks: when the guard says the k-th neighbour (r, c) is on the board,
      * count it if it holds a mine. */
    method CountIf(guard: bool, row: int, column: int, k: nat, r: int, c: int, n: int, ghost g: Grid)
      returns (n': int)
      requires Valid() && g == ToGrid(cells) && 0 <= row < rows && 0 <= column < columns
      requires k < |Offsets| && r == row + Offsets[k].0 && c == column + Offsets[k].1
      requires guard <==> 0 <= r < rows && 0 <= c < columns
      ensures n' == n + Hit(g, row, column, MINE, k)
    {
      n' := n;
      if guard {
        if MineAt(r, c) {
          n' := n + 1;
        }
      }
    }

    /** mineAt(row, column): the cell holds an unflagged mine. */
    predicate MineAt(row: int, column: int)
      requires Valid() && 0 <= row < rows && 0 <= column < columns
      reads cells
    {
      cells[row, column] == MINE
    }
  }
}
