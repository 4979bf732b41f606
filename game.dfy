/**
 * The game object: an id, a status and the board of cell codes.  Its actions never write to
 * the game's own board; they copy it, work on the copy in place, and hand the copy back in a
 * GameChange.  Each method is proved to compute exactly what the functions of Rules and
 * Tables describe.
 */
module Games {
  import opened Results
  import opened Cells
  import opened Grids
  import opened Rules
  import opened Tables

  /** The result of an action: nothing to change, or the new status and board of game id. */
  datatype GameChange = None | Change(id: int, status: GameStatus, board: array2<int>)

  /** The value a change stands for, with its board read as a grid. */
  ghost function Meaning(r: Result<GameChange, IndexError>): Result<Outcome, IndexError>
    reads if r.Ok? && r.value.Change? then {r.value.board} else {}
  {
    match r
    case Err(e) => Err(e)
    case Ok(None) => Ok(NoChange)
    case Ok(Change(_, s, b)) => Ok(Changed(s, ToGrid(b)))
  }

  /** A change that carries a board carries a new array, tagged with the game's id. */
  predicate FreshChange(r: Result<GameChange, IndexError>, id: int)
  {
    r.Ok? && r.value.Change? ==> r.value.id == id
  }

  class Game {
    const id: int
    const status: GameStatus
    const board: array2<int>

    /** getColumns reads row 0, so a game has at least one row and one column. */
    predicate Valid()
    {
      board.Length0 >= 1 && board.Length1 >= 1
    }

    constructor (id: int, status: GameStatus, board: array2<int>)
      requires board.Length0 >= 1 && board.Length1 >= 1
      ensures Valid() && this.id == id && this.status == status && this.board == board
    {
      this.id := id;
      this.status := status;
      this.board := board;
    }

    /** b has the shape of the game's board (the flood fill bounds its walk with getRows and getColumns). */
    predicate Fits(b: array2<int>)
    {
      b.Length0 == board.Length0 && b.Length1 == board.Length1
    }

    /** get: the checks in order, then the cell. */
    function Get(row: int, column: int): (r: Result<int, IndexError>)
      requires Valid()
      reads board
      ensures r == Lookup(ToGrid(board), row, column)
    {
      if row < 0 then Err(NegativeRow)
      else if row >= board.Length0 then Err(RowTooBig(board.Length0))
      else if column < 0 then Err(NegativeColumn)
      else if column >= board.Length1 then Err(ColumnTooBig(board.Length1))
      else Ok(board[row, column])
    }

    method Reveal(row: int, column: int) returns (r: Result<GameChange, IndexError>)
      requires Valid()
      ensures Meaning(r) == Rules.Reveal(status, ToGrid(board), row, column)
      ensures FreshChange(r, id) && (r.Ok? && r.value.Change? ==> fresh(r.value.board))
    {
      if IsFinished(status) {
        return Ok(None);
      }
      var got := Get(row, column);
      if got.Err? {
        return Err(got.error);
      }
      var cell := got.value;
      if IsRevealed(cell) {
        return Ok(None);
      }
      var resultBoard := CloneBoard();
      if HasMine(cell) {
        return Ok(Change(id, LOOSE, resultBoard));
      }
      ghost var g := ToGrid(board);
      if HasAdjacentMines(cell) {
        resultBoard[row, column] := DoReveal(cell);
        SetArray(resultBoard, g, row, column);
      }
      ghost var h1 := ToGrid(resultBoard);
      if DoesntHaveAdjacentMines(cell) {
        RevealSorroundings(resultBoard, row, column);
      }
      var won := AllCellsWithoutMinesAreRevealed(resultBoard);
      if won {
        return Ok(Change(id, WON, resultBoard));
      } else {
        return Ok(Change(id, PLAYING, resultBoard));
      }
    }

    /** revealSorroundings: mark the zero cell revealed, then reveal its neighbours in the fixed order. */
    method RevealSorroundings(b: array2<int>, row: int, column: int)
      requires Valid() && Fits(b)
      requires 0 <= row < b.Length0 && 0 <= column < b.Length1 && DoesntHaveAdjacentMines(b[row, column])
      modifies b
      ensures ToGrid(b) == FloodAt(old(ToGrid(b)), row, column)
      decreases Zeros(ToGrid(b)), 0
    {
      ghost var g := ToGrid(b);
      b[row, column] := -1;
      SetArray(b, g, row, column);
      ClearZero(g, row, column);
      ghost var g0 := ToGrid(b);
      assert FloodAt(g, row, column) == RevealAround(g0, row, column, 0);

      var isNotAtLastRow := (row + 1) != board.Length0;
      var isNotAtLastColumn := (column + 1) != board.Length1;
      OffsetsInOrder();
      ghost var target := FloodAt(g, row, column);
      RevealCellIf(b, IsNotAtFirst(column), row, column, 0, 1, row, column - 1, target, Zeros(g0));
      RevealCellIf(b, IsNotAtFirst(row), row, column, 1, 2, row - 1, column, target, Zeros(g0));
      RevealCellIf(b, IsNotAtFirst(row) && IsNotAtFirst(column), row, column, 2, 3, row - 1, column - 1, target, Zeros(g0));
      RevealCellIf(b, IsNotAtFirst(row) && isNotAtLastColumn, row, column, 3, 4, row - 1, column + 1, target, Zeros(g0));
      RevealCellIf(b, isNotAtLastRow, row, column, 4, 5, row + 1, column, target, Zeros(g0));
      RevealCellIf(b, isNotAtLastColumn, row, column, 5, 6, row, column + 1, target, Zeros(g0));
      RevealCellIf(b, isNotAtLastRow && isNotAtLastColumn, row, column, 6, 7, row + 1, column + 1, target, Zeros(g0));
      RevealCellIf(b, isNotAtLastRow && IsNotAtFirst(column), row, column, 7, 8, row + 1, column - 1, target, Zeros(g0));
    }

    /**
     * One of the eight guarded calls of revealSorroundings: revealCell on the neighbour (r, c)
     * at offset k when the guard holds.  The guard holds exactly when (r, c) is on the board,
     * so this is step k of the walk, and the walk still ends at target.
     */
    method RevealCellIf(b: array2<int>, guard: bool, row: int, column: int, k: nat, next: nat, r: int, c: int,
                        ghost target: Grid, ghost bound: nat)
      requires Valid() && Fits(b)
      requires 0 <= row < b.Length0 && 0 <= column < b.Length1 && k < |Offsets| && next == k + 1
      requires r == row + Offsets[k].0 && c == column + Offsets[k].1
      requires guard <==> 0 <= r < b.Length0 && 0 <= c < b.Length1
      requires RevealAround(ToGrid(b), row, column, k) == target && Zeros(ToGrid(b)) <= bound
      modifies b
      ensures RevealAround(ToGrid(b), row, column, next) == target && Zeros(ToGrid(b)) <= bound
      decreases bound, 2
    {
      ghost var before := ToGrid(b);
      if guard {
        RevealCell(b, r, c);
      }
      assert ToGrid(b) == Visit(before, row, column, k);
    }

    /** revealCell: reveal a cell with a count, flood from a cell without one, leave the rest. */
    method RevealCell(b: array2<int>, row: int, column: int)
      requires Valid() && Fits(b)
      requires 0 <= row < b.Length0 && 0 <= column < b.Length1
      modifies b
      ensures ToGrid(b) == CellAt(old(ToGrid(b)), row, column)
      decreases Zeros(ToGrid(b)), 1
    {
      ghost var g := ToGrid(b);
      var cell := b[row, column];
      if HasAdjacentMines(cell) {
        b[row, column] := DoReveal(cell);
        SetArray(b, g, row, column);
      }
      if DoesntHaveAdjacentMines(cell) {
        RevealSorroundings(b, row, column);
      }
    }

    /** allCellsWithoutMinesAreRevealed: as many discoverable cells as mines means no hidden safe cell. */
    method AllCellsWithoutMinesAreRevealed(b: array2<int>) returns (won: bool)
      requires Valid() && Fits(b)
      ensures won == AllSafeRevealed(ToGrid(b))
    {
      var rows := board.Length0;
      var columns := board.Length1;
      var mines := 0;
      var discoverableCells := 0;
      for row := 0 to rows
        invariant mines <= discoverableCells
        invariant mines == discoverableCells <==>
          forall i, j :: 0 <= i < row && 0 <= j < columns && !HasMine(b[i, j]) ==> IsRevealed(b[i, j])
      {
        for column := 0 to columns
          invariant mines <= discoverableCells
          invariant mines == discoverableCells <==>
            && (forall i, j :: 0 <= i < row && 0 <= j < columns && !HasMine(b[i, j]) ==> IsRevealed(b[i, j]))
            && (forall j :: 0 <= j < column && !HasMine(b[row, j]) ==> IsRevealed(b[row, j]))
        {
          var cell := b[row, column];
          if HasMine(cell) {
            mines := mines + 1;
            discoverableCells := discoverableCells + 1;
          } else {
            if IsDiscoverable(cell) {
              discoverableCells := discoverableCells + 1;
            }
          }
        }
      }
      won := mines == discoverableCells;
    }

    /** cloneBoard: a new array with the same cells. */
    method CloneBoard() returns (c: array2<int>)
      requires Valid()
      ensures fresh(c) && ToGrid(c) == ToGrid(board)
    {
      var columns := board.Length1;
      c := new int[board.Length0, columns];
      for row := 0 to board.Length0
        invariant forall i, j :: 0 <= i < row && 0 <= j < columns ==> c[i, j] == board[i, j]
      {
        for column := 0 to columns
          invariant forall i, j :: 0 <= i < row && 0 <= j < columns ==> c[i, j] == board[i, j]
          invariant forall j :: 0 <= j < column ==> c[row, j] == board[row, j]
        {
          c[row, column] := board[row, column];
        }
      }
      GridExt(ToGrid(c), ToGrid(board));
    }

    method Flag(row: int, column: int) returns (r: Result<GameChange, IndexError>)
      requires Valid()
      ensures Meaning(r) == Rules.Flag(status, ToGrid(board), row, column)
      ensures FreshChange(r, id) && (r.Ok? && r.value.Change? ==> fresh(r.value.board))
    {
      if IsFinished(status) {
        return Ok(None);
      }
      var got := Get(row, column);
      if got.Err? {
        return Err(got.error);
      }
      var cell := got.value;
      if IsFlagged(cell) {
        return Ok(None);
      }
      if IsRevealed(cell) {
        return Ok(None);
      }
      var resultBoard := CloneBoard();
      ghost var g := ToGrid(board);
      resultBoard[row, column] := cell + FLAG;
      SetArray(resultBoard, g, row, column);
      return Ok(Change(id, PLAYING, resultBoard));
    }

    method Unflag(row: int, column: int) returns (r: Result<GameChange, IndexError>)
      requires Valid()
      ensures Meaning(r) == Rules.Unflag(status, ToGrid(board), row, column)
      ensures FreshChange(r, id) && (r.Ok? && r.value.Change? ==> fresh(r.value.board))
    {
      if IsFinished(status) {
        return Ok(None);
      }
      var got := Get(row, column);
      if got.Err? {
        return Err(got.error);
      }
      var cell := got.value;
      if IsRevealed(cell) {
        return Ok(None);
      }
      if !IsFlagged(cell) {
        return Ok(None);
      }
      var resultBoard := CloneBoard();
      ghost var g := ToGrid(board);
      resultBoard[row, column] := cell - FLAG;
      SetArray(resultBoard, g, row, column);
      return Ok(Change(id, PLAYING, resultBoard));
    }

    /** getMinesCount: the cells holding a mine, flagged or not. */
    method GetMinesCount() returns (detectedMines: nat)
      requires Valid()
      ensures detectedMines == MinesCount(ToGrid(board))
    {
      ghost var g := ToGrid(board);
      var rows := board.Length0;
      var columns := board.Length1;
      detectedMines := 0;
      for row := 0 to rows
        invariant detectedMines == Count(g[..row], MINE) + Count(g[..row], MARKED_MINE)
      {
        for column := 0 to columns
          invariant detectedMines == Count(g[..row], MINE) + Count(g[..row], MARKED_MINE)
                                   + CountRow(g[row][..column], MINE) + CountRow(g[row][..column], MARKED_MINE)
        {
          var cell := board[row, column];
          CountRowPrefix(g[row], column, MINE);
          CountRowPrefix(g[row], column, MARKED_MINE);
          if HasMine(cell) {
            detectedMines := detectedMines + 1;
          }
        }
        assert g[row][..columns] == g[row];
        CountPrefix(g, row, MINE);
        CountPrefix(g, row, MARKED_MINE);
      }
      assert g[..rows] == g;
    }

    /** buildBoard: the glyph of every cell, or the first cell that is not a code. */
    method BuildBoard(showCells: bool) returns (r: Result<array2<char>, RenderError>)
      requires Valid()
      ensures r.Ok? <==> AllValid(ToGrid(board))
      ensures r.Ok? ==> fresh(r.value) && AllValid(ToGrid(board)) && ToGrid(r.value) == Glyphs(showCells, ToGrid(board))
      ensures r.Err? ==> exists i, j :: FirstInvalid(ToGrid(board), i, j) && r.error == UnexpectedCellValue(board[i, j])
    {
      ghost var g := ToGrid(board);
      var rows := board.Length0;
      var columns := board.Length1;
      var cells := new char[rows, columns];
      for row := 0 to rows
        invariant forall i, j :: 0 <= i < row && 0 <= j < columns ==> Glyph(showCells, board[i, j]) == Ok(cells[i, j])
      {
        for column := 0 to columns
          invariant forall i, j :: 0 <= i < row && 0 <= j < columns ==> Glyph(showCells, board[i, j]) == Ok(cells[i, j])
          invariant forall j :: 0 <= j < column ==> Glyph(showCells, board[row, j]) == Ok(cells[row, j])
        {
          var glyph := Glyph(showCells, board[row, column]);
          if glyph.Err? {
            assert FirstInvalid(g, row, column);
            return Err(UnexpectedCellValue(board[row, column]));
          }
          cells[row, column] := glyph.value;
        }
      }
      assert AllValid(g);
      GridExt(ToGrid(cells), Glyphs(showCells, g));
      return Ok(cells);
    }

    /** getBoard: the solution once the game is over, the player's view before. */
    method GetBoard() returns (r: Result<array2<char>, RenderError>)
      requires Valid()
      ensures r.Ok? <==> AllValid(ToGrid(board))
      ensures r.Ok? ==> fresh(r.value) && AllValid(ToGrid(board)) &&
                        ToGrid(r.value) == Glyphs(IsFinished(status), ToGrid(board))
      ensures r.Err? ==> exists i, j :: FirstInvalid(ToGrid(board), i, j) && r.error == UnexpectedCellValue(board[i, j])
    {
      if IsFinished(status) {
        r := BuildBoard(true);
      } else {
        r := BuildBoard(false);
      }
    }

    /** toAsciiTable(): the table of the view getBoard shows. */
    method AsciiTable() returns (r: Result<string, RenderError>)
      requires Valid()
      ensures r.Ok? <==> AllValid(ToGrid(board))
      ensures r.Ok? ==> AllValid(ToGrid(board)) && r.value == Table(Glyphs(IsFinished(status), ToGrid(board)))
      ensures r.Err? ==> exists i, j :: FirstInvalid(ToGrid(board), i, j) && r.error == UnexpectedCellValue(board[i, j])
    {
      r := ToAsciiTable(IsFinished(status));
    }

    /** toAsciiTable(showCells): the rows of glyphs joined by '|' with a separator line between rows. */
    method ToAsciiTable(showCells: bool) returns (r: Result<string, RenderError>)
      requires Valid()
      ensures r.Ok? <==> AllValid(ToGrid(board))
      ensures r.Ok? ==> AllValid(ToGrid(board)) && r.value == Table(Glyphs(showCells, ToGrid(board)))
      ensures r.Err? ==> exists i, j :: FirstInvalid(ToGrid(board), i, j) && r.error == UnexpectedCellValue(board[i, j])
    {
      var columns := board.Length1;
      var rows := board.Length0;
      var rowSeparator := BuildRowSeparatorUsing(columns);
      var built := BuildBoard(showCells);
      if built.Err? {
        return Err(built.error);
      }
      var cells := built.value;
      assert Layout(ToGrid(cells));
      var table := AddRowsTo(cells, rowSeparator);
      return Ok(table);
    }

    /** The loop of toAsciiTable: the first row's line, then the separator and the line of each
      * further row. */
    method AddRowsTo(cells: array2<char>, rowSeparator: array<char>) returns (table: string)
      requires Layout(ToGrid(cells)) && rowSeparator[..] == Separator(cells.Length1)
      ensures table == Table(ToGrid(cells))
    {
      ghost var v := ToGrid(cells);
      table := AddRowTo("", cells, 0);
      TableFirst(v);
      for row := 1 to cells.Length0
        invariant Layout(v[..row]) && table == Table(v[..row])
      {
        ghost var before := table;
        table := table + rowSeparator[..];
        table := AddRowTo(table, cells, row);
        assert table == before + Separator(|v[0]|) + RowLine(v[row]);
        TableStep(v, row);
      }
      assert v[..cells.Length0] == v;
    }

    /** buildRowSeparatorUsing: '-' and '+' alternating, the last '-' overwritten by a line break. */
    method BuildRowSeparatorUsing(columns: int) returns (separator: array<char>)
      requires columns >= 1
      ensures fresh(separator) && separator[..] == Separator(columns)
    {
      var length := 2 * columns;
      separator := new char[length];
      separator[0] := '-';
      var i := 0;
      while i < length - 2
        invariant 0 <= i <= length - 2 && i % 2 == 0
        invariant forall p :: 0 <= p <= i ==> separator[p] == if p % 2 == 0 then '-' else '+'
      {
        i := i + 1;
        separator[i] := '+';
        i := i + 1;
        separator[i] := '-';
      }
      i := i + 1;
      separator[i] := '-';
      separator[i] := '\n';
      SeparatorChars(columns);
      assert separator[..] == Separator(columns);
    }

    /** addRowTo: the table so far, then the row's glyphs joined by '|' and a line break. */
    method AddRowTo(table: string, cells: array2<char>, row: int) returns (t: string)
      requires 0 <= row < cells.Length0 && cells.Length1 >= 1
      ensures t == table + RowLine(ToGrid(cells)[row])
    {
      ghost var line := ToGrid(cells)[row];
      t := table + [cells[row, 0]];
      assert line[..1] == [line[0]];
      for column := 1 to cells.Length1
        invariant t == table + Joined(line[..column])
      {
        assert cells[row, column] == line[column];
        JoinedSnoc(line[..column], line[column]);
        assert line[..column] + [line[column]] == line[..column + 1];
        t := t + ['|', cells[row, column]];
      }
      assert line[..cells.Length1] == line;
      t := t + "\n";
    }

  }
}
