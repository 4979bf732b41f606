/**
 * The scalar cell code of a game board and its meaning.
 *
 *    0 ..  8  hidden safe cell, the code is its number of neighbouring mines
 *          9  hidden mine
 *   10 .. 18  flagged safe cell (hidden code + 10)
 *         19  flagged mine
 *   -1 .. -9  revealed safe cell, -(count) - 1
 *
 * Every other integer is not a cell code; rendering such a value is an error.
 */
module Cells {
  import opened Results

  const MINE: int := 9
  const FLAG: int := 10
  const MARKED_MINE: int := MINE + FLAG

  const UNDISCOVERED: char := '#'
  const FLAG_MARK: char := '?'

  // The code predicates, as the engine tests them.

  predicate HasMine(cell: int) { cell == MINE || cell == MARKED_MINE }

  predicate IsRevealed(cell: int) { cell < 0 }

  predicate IsFlagged(cell: int) { cell > MINE }

  predicate IsDiscoverable(cell: int) { cell >= 0 }

  predicate HasAdjacentMines(cell: int) { (0 < cell < MINE) || (10 < cell < MARKED_MINE) }

  predicate DoesntHaveAdjacentMines(cell: int) { cell == 0 || cell == 10 }

  /** A hidden or flagged cell without a mine: the cells a reveal turns negative. */
  predicate IsHiddenSafe(cell: int) { HasAdjacentMines(cell) || DoesntHaveAdjacentMines(cell) }

  predicate ValidCode(cell: int) { -9 <= cell <= 19 }

  // The conceptual cell that a code stands for.

  datatype Content = Mine | Safe(count: nat)
  datatype Visibility = Hidden | Flagged | Revealed
  datatype Cell = Cell(content: Content, visibility: Visibility)

  /** The cells the encoding can represent: counts up to 8, and no revealed mine. */
  predicate Legal(c: Cell)
  {
    (c.content.Safe? ==> c.content.count <= 8) && !(c.content.Mine? && c.visibility == Revealed)
  }

  function Encode(c: Cell): (code: int)
    requires Legal(c)
    ensures ValidCode(code)
  {
    if c.content.Mine? then
      (if c.visibility == Hidden then MINE else MARKED_MINE)
    else
      var n: int := c.content.count;
      if c.visibility == Hidden then n
      else if c.visibility == Flagged then n + FLAG
      else -n - 1
  }

  function Decode(code: int): (r: Option<Cell>)
    ensures r.Some? <==> ValidCode(code)
    ensures r.Some? ==> Legal(r.value) && Encode(r.value) == code
  {
    if 0 <= code <= 8 then Some(Cell(Safe(code), Hidden))
    else if code == MINE then Some(Cell(Mine, Hidden))
    else if 10 <= code <= 18 then Some(Cell(Safe(code - FLAG), Flagged))
    else if code == MARKED_MINE then Some(Cell(Mine, Flagged))
    else if -9 <= code <= -1 then Some(Cell(Safe(-code - 1), Revealed))
    else Nothing
  }

  /** Encoding then decoding a legal cell gives it back. */
  lemma DecodeEncode(c: Cell)
    requires Legal(c)
    ensures Decode(Encode(c)) == Some(c)
  {
  }

  /** Each predicate the engine tests on a code asks one question about the decoded cell. */
  lemma PredicatesDecode(code: int)
    requires ValidCode(code)
    ensures var c := Decode(code).value;
      && (HasMine(code) <==> c.content == Mine)
      && (IsRevealed(code) <==> c.visibility == Revealed)
      && (IsFlagged(code) <==> c.visibility == Flagged)
      && (HasAdjacentMines(code) <==> c.visibility != Revealed && c.content.Safe? && c.content.count > 0)
      && (DoesntHaveAdjacentMines(code) <==> c.visibility != Revealed && c.content == Safe(0))
      && (IsHiddenSafe(code) <==> c.visibility != Revealed && c.content.Safe?)
  {
  }

  /** The revealed code of a cell: -(count) - 1, with the flag removed first. */
  function DoReveal(cell: int): (r: int)
    ensures IsHiddenSafe(cell) ==>
      && Decode(r) == Some(Cell(Decode(cell).value.content, Revealed))
      && IsRevealed(r)
  {
    if IsFlagged(cell) then -(cell - 10) - 1 else -cell - 1
  }

  /** The glyph of an adjacency count: a blank for 0, otherwise its decimal digit. */
  function Digit(n: nat): (ch: char)
    requires n <= 8
  {
    if n == 0 then ' ' else ('0' as int + n) as char
  }

  /** Why a code could not be rendered. */
  datatype RenderError = UnexpectedCellValue(cell: int)

  /** The glyph of a cell while the game is being played. */
  function TranslateCell(cell: int): (r: Result<char, RenderError>)
    ensures r.Ok? <==> Decode(cell).Some?
    ensures r.Err? ==> r.error == UnexpectedCellValue(cell)
    ensures r.Ok? ==> var c := Decode(cell).value;
      r.value == match c.visibility
        case Hidden => UNDISCOVERED
        case Flagged => FLAG_MARK
        case Revealed => Digit(c.content.count)
  {
    match cell
    case -1 => Ok(' ')
    case -2 => Ok('1')
    case -3 => Ok('2')
    case -4 => Ok('3')
    case -5 => Ok('4')
    case -6 => Ok('5')
    case -7 => Ok('6')
    case -8 => Ok('7')
    case -9 => Ok('8')
    case 0 | 1 | 2 | 3 | 4 | 5 | 6 | 7 | 8 | 9 => Ok(UNDISCOVERED)
    case 10 | 11 | 12 | 13 | 14 | 15 | 16 | 17 | 18 | 19 => Ok(FLAG_MARK)
    case _ => Err(UnexpectedCellValue(cell))
  }

  /** The glyph of a cell once the game is over: the whole solution. */
  function ShowCell(cell: int): (r: Result<char, RenderError>)
    ensures r.Ok? <==> Decode(cell).Some?
    ensures r.Err? ==> r.error == UnexpectedCellValue(cell)
    ensures r.Ok? ==> var c := Decode(cell).value;
      r.value == match c.content
        case Mine => '*'
        case Safe(n) => Digit(n)
  {
    match cell
    case 0 | -1 | 10 => Ok(' ')
    case 1 | -2 | 11 => Ok('1')
    case 2 | -3 | 12 => Ok('2')
    case 3 | -4 | 13 => Ok('3')
    case 4 | -5 | 14 => Ok('4')
    case 5 | -6 | 15 => Ok('5')
    case 6 | -7 | 16 => Ok('6')
    case 7 | -8 | 17 => Ok('7')
    case 8 | -9 | 18 => Ok('8')
    case 9 | 19 => Ok('*')
    case _ => Err(UnexpectedCellValue(cell))
  }

  /** The cell translator the board view uses: the solution once finished, else the player's view. */
  function Glyph(showCells: bool, cell: int): (r: Result<char, RenderError>)
    ensures r.Ok? <==> ValidCode(cell)
  {
    if showCells then ShowCell(cell) else TranslateCell(cell)
  }
}
