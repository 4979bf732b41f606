# Minesweeper engine: a Dafny model

This project models the game engine of the minesweeper API service and proves what it computes.

- **Game** holds a board of integer cell codes. It reveals, flags and unflags cells, floods
  open the region around a cell without adjacent mines, decides when the game is won, and
  renders the board as a grid of glyphs or as an ASCII table.
- **BoardBuilder** generates a Game board. It checks the dimensions, places mines by
  rejection on cells that still hold 0, and writes every other cell's neighbour count in
  place.
- **Board** is the older generator. It stores a mine as `Integer.MIN_VALUE`. It has the same
  placement and counting loops, a bounds-checked read with the queries built on it, and three
  level presets.
- **sanitizeJsonErrorMessage** is the helper of the HTTP error handler that removes internal
  type names from JSON parse errors.

## Layout

- `cells.dfy` (module `Cells`): the cell code.
  - 0..8 is a hidden count and 9 a hidden mine.
  - +10 marks a flagged cell.
  - -(count)-1 is a revealed cell.
  - `Decode` and `Encode` relate a code to a conceptual cell (content and visibility).
  - The module also holds the code predicates and the two glyph translators.
- `grids.dfy` (module `Grids`):
  - `Grid = seq<seq<int>>`, the value a board stands for;
  - `ToGrid`, which reads an `array2` as a grid;
  - counting of cells and the bounds-checked `Lookup`;
  - the eight neighbour offsets, in the order the Java code visits them.
- `rules.dfy` (module `Rules`):
  - reveal, flag and unflag as functions on board values;
  - the flood fill as the mutual recursion `CellAt` / `FloodAt` / `RevealAround` / `Visit`. It terminates because each flood turns one more 0/10 cell into -1.
- `rule_properties.dfy` (module `RuleProperties`): lemmas about those functions.
  - the flood fill opens the whole zero region and its border, nothing beyond them, and never touches a mine;
  - WON is returned exactly when every safe cell is revealed;
  - flag and unflag undo each other;
  - every action keeps the mines and the counts.
- `tables.dfy` (module `Tables`): the glyph grid and the ASCII table as values:
  - each row's glyphs joined by `|`;
  - a `-+-+…` separator between rows;
  - every line ended by `\n`.
- `game.dfy` (module `Games`): class `Game` over an `array2<int>` board.
  - Every method performs the source's steps on the arrays.
  - Each is proved to compute the function of `Rules` or `Tables` it stands for.
- `generation.dfy` (module `Generation`), generation as functions on board values:
  - Java int arithmetic (`Wrap32`);
  - the dimension and mine-count checks;
  - rejection placement driven by the random draws;
  - the neighbour count (`MinesAround`) and the labelled board.
- `board_builder.dfy` (module `Builders`): class `BoardBuilder`. Its in-place methods are proved to compute `Place` and `Labelled`.
- `board.dfy` (module `Boards`): class `Board`, its level presets and its static generators.
- `json_errors.dfy` (module `JsonErrors`):
  - Java's `indexOf` and `substring`;
  - `sanitizeJsonErrorMessage` as written;
  - a corrected version, and four inputs on which the two differ (see Findings).

### Non-source inputs

- The random generators become a parameter `draws: seq<(int, int)>`: the positions the generator would return, each on the board.
- Exceptions become `Err` values of small error datatypes (`IndexError`, `BoardError`, `RenderError`, `StringIndexOutOfBounds`).

## Model

| member | source | states |
|---|---|---|
| `Cells.Encode` | src/main/java/minesweeper/games/Game.java:51-74 | every legal cell (a count of at most 8 or a mine; hidden, flagged or revealed, but no revealed mine) has a code in -9..19 |
| `Cells.Decode` | src/main/java/minesweeper/games/Game.java:51-74 | a code stands for a cell exactly when it lies in -9..19, and that cell is legal and encodes back to the same code |
| `Cells.DecodeEncode` | src/main/java/minesweeper/games/Game.java:51-74 | decoding the code of a legal cell gives that cell back |
| `Cells.PredicatesDecode` | src/main/java/minesweeper/games/Game.java:309-311 | hasMine, isRevealed, isFlagged, hasAdjacentMines, doesntHaveAdjacentMines and "hidden safe" each ask one question about the cell the code stands for |
| `Cells.DoReveal` | src/main/java/minesweeper/games/Game.java:270-277 | doReveal turns a hidden or flagged safe cell into the revealed cell with the same count |
| `Cells.TranslateCell` | src/main/java/minesweeper/games/Game.java:125-141 | defined on exactly the valid codes: '#' for a hidden cell, '?' for a flagged one, the count's digit (blank for 0) for a revealed one; any other value is UnexpectedCellValue of that value |
| `Cells.ShowCell` | src/main/java/minesweeper/games/Game.java:143-158 | defined on exactly the valid codes: '*' for a mine, the count's digit (blank for 0) for a safe cell whatever its visibility; any other value is UnexpectedCellValue |
| `Grids.Lookup` | src/main/java/minesweeper/games/Game.java:87-102 | the cell when the position is on the board, otherwise the first failing check in the order negative row, row too big (with the row count), negative column, column too big (with the column count) |
| `Grids.OffsetsAreTheNeighbourhood` | src/main/java/minesweeper/games/Game.java:320-343 | the eight positions revealSorroundings visits are distinct and are exactly the cells at most one row and one column away |
| `Rules.CellAt` | src/main/java/minesweeper/games/Game.java:346-355 | revealCell only reveals hidden safe cells and never increases the number of cells coded 0 or 10 |
| `Rules.FloodAt` | src/main/java/minesweeper/games/Game.java:313-344 | revealSorroundings only reveals hidden safe cells, leaves the starting cell at -1 and strictly decreases the number of 0/10 cells (so the recursion ends) |
| `Rules.RevealAround` | src/main/java/minesweeper/games/Game.java:320-343 | the walk over the neighbours only reveals hidden safe cells |
| `RuleProperties.CellAtClosed` | src/main/java/minesweeper/games/Game.java:346-355 | after revealCell the cell is not hidden-safe any more, and every 0/10 cell it revealed has all its on-board neighbours revealed or mines |
| `RuleProperties.FloodAtClosed` | src/main/java/minesweeper/games/Game.java:313-344 | every 0/10 cell the flood fill reveals has all its on-board neighbours revealed or mines: the whole zero region and its border are opened |
| `RuleProperties.FloodAtBounded` | src/main/java/minesweeper/games/Game.java:313-344 | every cell revealSorroundings changes is reached from the start through cells coded 0 or 10, each step to an adjacent cell, or is adjacent to such a cell: the flood stops at the border of the zero region |
| `RuleProperties.CellAtBounded` | src/main/java/minesweeper/games/Game.java:346-355 | revealCell changes only the cell itself, and, when that cell has no adjacent mines, cells reached from it through cells coded 0 or 10 or adjacent to one |
| `RuleProperties.RevealAroundBounded` | src/main/java/minesweeper/games/Game.java:320-343 | on a board the flood has advanced, the walk over the neighbours changes only cells that, on the flood's original board, are reached from the start through cells coded 0 or 10 or are adjacent to one |
| `RuleProperties.FloodAtOpensReached` | src/main/java/minesweeper/games/Game.java:313-355 | every cell reached from the start through cells coded 0 or 10, each step to an adjacent cell, is revealed by revealSorroundings, and none of its on-board neighbours is left hidden and safe: with FloodAtBounded, the flood opens exactly the zero region and its border |
| `RuleProperties.PathOpened` | src/main/java/minesweeper/games/Game.java:346-355 | on a board closed under revealCell's flood, a zero path whose first cell is revealed has its last cell revealed |
| `RuleProperties.NeighbourOpened` | src/main/java/minesweeper/games/Game.java:346-355 | on such a board, a cell coded 0 or 10 adjacent to a revealed zero cell is revealed |
| `RuleProperties.RevealAroundClosed` | src/main/java/minesweeper/games/Game.java:320-343 | after the walk every visited neighbour is settled and every 0/10 cell revealed on the way is closed |
| `RuleProperties.FinishedGameIgnoresActions` | src/main/java/minesweeper/games/Game.java:238-242 | in a WON or LOOSE game reveal, flag and unflag return no change, even for positions off the board |
| `RuleProperties.OutOfBoundsIsError` | src/main/java/minesweeper/games/Game.java:238-244 | in an unfinished game every action on a position off the board fails with get's error |
| `RuleProperties.RevealRevealedCell` | src/main/java/minesweeper/games/Game.java:245-247 | revealing a revealed cell returns no change |
| `RuleProperties.RevealMine` | src/main/java/minesweeper/games/Game.java:249-253 | revealing a mine, flagged or not, loses and returns the board unchanged |
| `RuleProperties.RevealSafeCell` | src/main/java/minesweeper/games/Game.java:255-267 | revealing a hidden safe cell shows it with its count and gives WON exactly when every safe cell is revealed (PLAYING otherwise); a cell with a count is the only cell that changes; from a cell without adjacent mines only hidden safe cells change, the whole zero region and its border are opened, and every changed cell is reached from the start through cells without adjacent mines or borders such a cell |
| `RuleProperties.RevealIsIdempotent` | src/main/java/minesweeper/games/Game.java:238-268 | after a reveal that changed the board, revealing the same cell again on the resulting board returns no change |
| `RuleProperties.AdvancesKeepsMines` | src/main/java/minesweeper/games/Game.java:313-355 | revealing never moves or removes a mine and never changes a revealed cell, so the mine count is kept |
| `RuleProperties.FlagCell` | src/main/java/minesweeper/games/Game.java:375-392 | a hidden cell becomes the flagged cell with the same content, and no other cell changes; a flagged or revealed cell, or a code outside the encoding, gives no change |
| `RuleProperties.UnflagCell` | src/main/java/minesweeper/games/Game.java:396-413 | a flagged cell becomes the hidden cell with the same content, and no other cell changes; a hidden or revealed cell gives no change; a code above 19 counts as flagged and loses 10 |
| `RuleProperties.UnflagUndoesFlag` | src/main/java/minesweeper/games/Game.java:375-413 | unflagging the cell a flag changed restores the original board |
| `RuleProperties.FlagUndoesUnflag` | src/main/java/minesweeper/games/Game.java:375-413 | flagging the cell an unflag changed restores the original board |
| `RuleProperties.FlagIsAdvisory` | src/main/java/minesweeper/games/Game.java:270-277 | revealing a flagged safe cell gives the same result as revealing it unflagged: a flag does not protect a cell |
| `RuleProperties.FlaggingNeverDecides` | src/main/java/minesweeper/games/Game.java:389-412 | a flag or unflag that changes the board always leaves the game PLAYING |
| `RuleProperties.AdvancesKeepsContents` | src/main/java/minesweeper/games/Game.java:313-355 | revealing cells keeps every code valid and every cell's content (mine or count); only visibility changes |
| `RuleProperties.RevealKeepsContents` | src/main/java/minesweeper/games/Game.java:238-268 | on a board of valid codes reveal keeps every cell's content and the number of mines |
| `RuleProperties.FlagKeepsContents` | src/main/java/minesweeper/games/Game.java:375-392 | on a board of valid codes flag keeps every cell's content and the number of mines |
| `RuleProperties.UnflagKeepsContents` | src/main/java/minesweeper/games/Game.java:396-413 | on a board of valid codes unflag keeps every cell's content and the number of mines |
| `RuleProperties.PausableIsUnfinished` | src/main/java/minesweeper/games/Game.java:415 | a game that can be paused (PLAYING) is not finished, and finished means WON or LOOSE |
| `Tables.FirstInvalidExists` | src/main/java/minesweeper/games/Game.java:115-120 | a board with a value that is not a code has exactly one first such cell in row-major order, the one buildBoard fails on |
| `Tables.JoinedChars` | src/main/java/minesweeper/games/Game.java:229-234 | the joined row has the row's glyphs at the even positions and '\|' at the odd ones |
| `Tables.RowLineChars` | src/main/java/minesweeper/games/Game.java:229-236 | a table line is two characters per column: the glyphs alternating with '\|', ended by a line break |
| `Tables.SeparatorChars` | src/main/java/minesweeper/games/Game.java:214-227 | the separator line is two characters per column: '-' and '+' alternating, ended by a line break in place of the last '-' |
| `Tables.LinesAt` | src/main/java/minesweeper/games/Game.java:206-210 | the table's lines are the row lines at the even line numbers and the separator at the odd ones, 2 * rows - 1 lines in all |
| `Tables.TableLength` | src/main/java/minesweeper/games/Game.java:198-212 | the table text has (2 * rows - 1) * (2 * columns) characters |
| `Games.Game.constructor` | src/main/java/minesweeper/games/Game.java:77-85 | the game keeps the id, status and board it is given |
| `Games.Game.Get` | src/main/java/minesweeper/games/Game.java:87-102 | get is the bounds-checked Lookup of the board |
| `Games.Game.Reveal` | src/main/java/minesweeper/games/Game.java:238-268 | the change returned has exactly the status and board of the Rules.Reveal function (whose properties are the RuleProperties lemmas), on a new array tagged with the game's id |
| `Games.Game.RevealSorroundings` | src/main/java/minesweeper/games/Game.java:313-344 | the array ends holding FloodAt of its old contents |
| `Games.Game.RevealCellIf` | src/main/java/minesweeper/games/Game.java:320-343 | one guarded call: its guard holds exactly when the neighbour is on the board, and the array moves one step along the walk to the same final board |
| `Games.Game.RevealCell` | src/main/java/minesweeper/games/Game.java:346-355 | the array ends holding CellAt of its old contents |
| `Games.Game.AllCellsWithoutMinesAreRevealed` | src/main/java/minesweeper/games/Game.java:284-307 | counting mines against discoverable cells answers true exactly when every cell without a mine is revealed |
| `Games.Game.CloneBoard` | src/main/java/minesweeper/games/Game.java:364-373 | a new array with the same cells as the board |
| `Games.Game.Flag` | src/main/java/minesweeper/games/Game.java:375-392 | the change returned has exactly the status and board of Rules.Flag, on a new array tagged with the game's id |
| `Games.Game.Unflag` | src/main/java/minesweeper/games/Game.java:396-413 | the change returned has exactly the status and board of Rules.Unflag, on a new array tagged with the game's id |
| `Games.Game.GetMinesCount` | src/main/java/minesweeper/games/Game.java:164-181 | the number of cells holding a mine, flagged or not |
| `Games.Game.BuildBoard` | src/main/java/minesweeper/games/Game.java:109-123 | succeeds exactly when every cell is a valid code, with every cell's glyph under the chosen translator; otherwise fails on the first invalid cell in row-major order |
| `Games.Game.GetBoard` | src/main/java/minesweeper/games/Game.java:104-123 | the solution view for a finished game and the player's view otherwise; on error, the value of the first cell in row-major order that is not a cell code |
| `Games.Game.AsciiTable` | src/main/java/minesweeper/games/Game.java:196 | the table of the view getBoard shows; on error, the value of the first cell in row-major order that is not a cell code |
| `Games.Game.ToAsciiTable` | src/main/java/minesweeper/games/Game.java:198-212 | succeeds exactly when every cell is a valid code, with the Table of the glyph grid; otherwise fails on the first invalid cell |
| `Games.Game.AddRowsTo` | src/main/java/minesweeper/games/Game.java:206-210 | the first row's line, then a separator and a line for each further row, is the whole Table |
| `Games.Game.BuildRowSeparatorUsing` | src/main/java/minesweeper/games/Game.java:214-227 | the array built is the separator line for that many columns |
| `Games.Game.AddRowTo` | src/main/java/minesweeper/games/Game.java:229-236 | appends exactly the row's table line |
| `Generation.Wrap32` | src/main/java/minesweeper/games/BoardBuilder.java:54 | the 32-bit two's complement value of the product: an int, congruent to it modulo 2^32, and equal to it when it fits |
| `Generation.WrapNeverGrows` | src/main/java/minesweeper/games/BoardBuilder.java:54-57 | the wrapped cell count never exceeds the real one, so the check never lets through more mines than cells |
| `Generation.WrapCanReject` | src/main/java/minesweeper/games/BoardBuilder.java:54-57 | 65536 rows and 65536 columns wrap to a cell count of 0, so even 0 mines are refused |
| `Generation.CheckSize` | src/main/java/minesweeper/games/BoardBuilder.java:32-39 | accepted exactly when there is at least one row and one column; otherwise the first failing check, rows before columns |
| `Generation.CheckMines` | src/main/java/minesweeper/games/BoardBuilder.java:49-57 | accepted exactly when 0 <= mines < the wrapped cell count, which implies fewer mines than cells; a negative count and too many mines are separate errors, in that order |
| `Generation.PlaceCounts` | src/main/java/minesweeper/games/BoardBuilder.java:59-69 | placement only turns cells holding 0 into mines, one per mine placed, never places more than requested, and reports how many are left when the draws run out |
| `Generation.PlaceOnEmpty` | src/main/java/minesweeper/games/BoardBuilder.java:42-69 | on a new board of zeros the result holds only zeros and mines, and as many mines as were placed |
| `Generation.PlacementCanContinue` | src/main/java/minesweeper/games/BoardBuilder.java:55-69 | with fewer mines than cells, while mines remain to be placed some cell still holds 0, so the loop can always still place one |
| `Generation.MinesAroundIsSum` | src/main/java/minesweeper/games/BoardBuilder.java:86-134 | the neighbour count is the sum of the eight guarded checks |
| `Generation.MinesAroundBounds` | src/main/java/minesweeper/games/BoardBuilder.java:86-134 | the count is at most the number of on-board neighbours, hence at most 8, and it is 0 exactly when no on-board neighbour holds a mine |
| `Generation.MinesFromSameMines` | src/main/java/minesweeper/games/BoardBuilder.java:76-82 | the count depends only on where the mines are, so counts already written do not disturb later ones |
| `Generation.LabelledKeepsMines` | src/main/java/minesweeper/games/BoardBuilder.java:74-84 | labelling keeps every mine where it is and the number of mines, and writes a count in 0..8 into every other cell |
| `Generation.GenerateMines` | src/main/java/minesweeper/Board.java:119-125 | the generated board holds the mines placement put there, all requested ones once the draws have placed every mine |
| `Generation.GenerateCounts` | src/main/java/minesweeper/Board.java:144-156 | every cell of the generated board that is not a mine holds the number of mines around it on that same board, in 0..8 |
| `Builders.BoardBuilder.constructor` | src/main/java/minesweeper/games/BoardBuilder.java:32-43 | a rows by columns board of zeros |
| `Builders.BoardBuilder.Create` | src/main/java/minesweeper/games/BoardBuilder.java:32-43 | fails exactly when CheckSize does, with its error; otherwise a new builder over a board of zeros |
| `Builders.BoardBuilder.RandomlyPlaceMines` | src/main/java/minesweeper/games/BoardBuilder.java:49-72 | fails exactly as CheckMines does and then changes nothing; otherwise the board becomes Place of its old contents with mine code 9 |
| `Builders.BoardBuilder.CalculateSurroundingMines` | src/main/java/minesweeper/games/BoardBuilder.java:74-84 | the board becomes the Labelled board of its old contents |
| `Builders.BoardBuilder.LabelRow` | src/main/java/minesweeper/games/BoardBuilder.java:77-81 | one row of the traversal: the board moves from the start to the end of that row of the labelled board |
| `Builders.BoardBuilder.LabelCell` | src/main/java/minesweeper/games/BoardBuilder.java:78-80 | one cell of the traversal: a cell without a mine gets its count, a mine stays |
| `Builders.BoardBuilder.SurroundingMinesOf` | src/main/java/minesweeper/games/BoardBuilder.java:86-134 | the eight guarded checks count exactly the mines among the on-board neighbours |
| `Builders.BoardBuilder.CountIf` | src/main/java/minesweeper/games/BoardBuilder.java:92-96 | one check adds 1 exactly when its neighbour is on the board and holds a mine |
| `Boards.LevelsAreValid` | src/main/java/minesweeper/Board.java:212-226 | every preset passes custom's checks: at least one row and column, and fewer mines than cells |
| `Boards.GeneratedMinesCount` | src/main/java/minesweeper/Board.java:119-125 | once the draws have placed every mine, a generated board holds exactly the requested number of mines |
| `Boards.IsNotAtFirstIsNonZero` | src/main/java/minesweeper/Board.java:210 | (n - 1) != -1 in int arithmetic holds exactly for n != 0, as it does in the Game's version |
| `Boards.QueriesOnGeneratedBoard` | src/main/java/minesweeper/Board.java:66-72 | on a generated board sorroundingMines reports UNKNOWN exactly where hasMine is true, and elsewhere the number of mines around the cell, at most 8 |
| `Boards.Board.constructor` | src/main/java/minesweeper/Board.java:39-43 | the board keeps the cells it is given |
| `Boards.Board.MinesCount` | src/main/java/minesweeper/Board.java:49-64 | the number of cells holding the mine code |
| `Boards.Board.SorroundingMines` | src/main/java/minesweeper/Board.java:66-70 | get's error off the board; UNKNOWN for a mine and the stored value otherwise |
| `Boards.Board.HasMine` | src/main/java/minesweeper/Board.java:72 | get's error off the board; otherwise whether the cell holds the mine code |
| `Boards.Board.Get` | src/main/java/minesweeper/Board.java:74-89 | get is the bounds-checked Lookup of the cells |
| `Boards.Board.Easy` | src/main/java/minesweeper/Board.java:91 | a valid 8 by 8 board generated with 10 mines |
| `Boards.Board.Intermediate` | src/main/java/minesweeper/Board.java:93 | a valid 16 by 16 board generated with 40 mines |
| `Boards.Board.Expert` | src/main/java/minesweeper/Board.java:95 | a valid 16 by 30 board generated with 99 mines |
| `Boards.Board.CreateLevelCells` | src/main/java/minesweeper/Board.java:97 | the generated board of the level's size and mine count |
| `Boards.Board.Custom` | src/main/java/minesweeper/Board.java:99-117 | fails exactly when CheckSize or CheckMines does, with the first failing check's error; otherwise a valid board of that size generated with that many mines |
| `Boards.Board.CreateCells` | src/main/java/minesweeper/Board.java:119-125 | a new array holding Generate of the size, the mine count and the draws |
| `Boards.Board.RandomlyPlaceMinesAt` | src/main/java/minesweeper/Board.java:127-142 | the cells become Place of their old contents with the mine code Integer.MIN_VALUE |
| `Boards.Board.CalculateSurroundingMinesAt` | src/main/java/minesweeper/Board.java:144-156 | the cells become the Labelled board of their old contents |
| `Boards.Board.LabelRow` | src/main/java/minesweeper/Board.java:149-155 | one row of the traversal: the cells move from the start to the end of that row of the labelled board |
| `Boards.Board.LabelCell` | src/main/java/minesweeper/Board.java:150-154 | one cell of the traversal: a cell without a mine gets its count, a mine stays |
| `Boards.Board.SurroundingMinesOf` | src/main/java/minesweeper/Board.java:158-206 | the eight guarded checks, with isNotAtFirst in int arithmetic, count exactly the mines among the on-board neighbours |
| `Boards.Board.CountIf` | src/main/java/minesweeper/Board.java:164-168 | one check adds 1 exactly when its neighbour is on the board and holds a mine |
| `JsonErrors.IndexOfChar` | src/main/java/minesweeper/GlobalExceptionHandler.java:88 | indexOf(c, from) is -1 or a position at or after from that holds c |
| `JsonErrors.IndexOfCharIsFirst` | src/main/java/minesweeper/GlobalExceptionHandler.java:91 | indexOf(c, from) is the first such position, and -1 exactly when there is none |
| `JsonErrors.IndexOf` | src/main/java/minesweeper/GlobalExceptionHandler.java:84 | indexOf(t) is -1 or a position where t occurs |
| `JsonErrors.IndexOfIsFirst` | src/main/java/minesweeper/GlobalExceptionHandler.java:84 | indexOf(t) is the first occurrence, and -1 exactly when t does not occur |
| `JsonErrors.Substring` | src/main/java/minesweeper/GlobalExceptionHandler.java:96 | substring succeeds exactly when 0 <= begin <= end <= length, with the characters in between; otherwise it throws with those indices |
| `JsonErrors.TypeNameEnd` | src/main/java/minesweeper/GlobalExceptionHandler.java:84-89 | the closing backtick is searched only after a marker that was found, and lies after that marker |
| `JsonErrors.DescriptionEnd` | src/main/java/minesweeper/GlobalExceptionHandler.java:91 | -1 or a ':' at or after position 17, the length of "JSON parse error:" |
| `JsonErrors.Sanitize` | src/main/java/minesweeper/GlobalExceptionHandler.java:82-98 | the message itself when neither the closing backtick nor the ':' was found; otherwise it succeeds exactly when the marker was found and the position after the closing backtick (0 when there is none) is at most the ':', and then it is the text before the marker followed by the text from that position up to the ':' |
| `JsonErrors.NoMarkerButColonThrows` | src/main/java/minesweeper/GlobalExceptionHandler.java:93-96 | without the marker, any ':' after the prefix makes substring(0, -1) throw |
| `JsonErrors.TypeNameButNoColonThrows` | src/main/java/minesweeper/GlobalExceptionHandler.java:93-96 | a complete type name with no ':' after the prefix throws |
| `JsonErrors.ColonInsideTypeNameThrows` | src/main/java/minesweeper/GlobalExceptionHandler.java:96 | a ':' after the prefix that comes before the closing backtick throws |
| `JsonErrors.UnclosedMarkerRepeats` | src/main/java/minesweeper/GlobalExceptionHandler.java:93-96 | a marker without a closing backtick, plus a ':', returns the text before the marker followed by the message from its start up to the ':' |
| `JsonErrors.NoMarkerExample` | src/main/java/minesweeper/GlobalExceptionHandler.java:93-96 | "JSON parse error: bad: token" throws substring(0, -1) |
| `JsonErrors.NoColonExample` | src/main/java/minesweeper/GlobalExceptionHandler.java:93-96 | " of type \`T\`" throws |
| `JsonErrors.ColonBeforeTypeNameExample` | src/main/java/minesweeper/GlobalExceptionHandler.java:96 | "JSON parse error: x: of type \`T\`" throws |
| `JsonErrors.UnclosedMarkerExample` | src/main/java/minesweeper/GlobalExceptionHandler.java:93-96 | `JsonErrors.UNCLOSED` ("JSON parse error: a of type ", a backtick, then "b: c") comes back with its first 19 characters twice |
| `JsonErrors.SanitizeIntended` | src/main/java/minesweeper/GlobalExceptionHandler.java:76-98 | the corrected method never fails and never lengthens the message; it returns the message itself exactly when the closing backtick and a later ':' were not both found; otherwise it keeps the text before the marker in place and shifts the text after the backtick left over the marker and the type name, ending where the ':' was |
| `JsonErrors.SanitizeIntendedAgrees` | src/main/java/minesweeper/GlobalExceptionHandler.java:93-97 | wherever the method as written returns, the corrected method returns the same value, except for the garbled unclosed-marker case |
| `JsonErrors.SanitizeIntendedDropsTypeName` | src/main/java/minesweeper/GlobalExceptionHandler.java:76-81 | when it cuts, the result is shorter than the message by exactly the marker with the type name and its backtick plus the text from the ':' on, so by more than the marker's length |
| `JsonErrors.SanitizeIntendedOnFindings` | src/main/java/minesweeper/GlobalExceptionHandler.java:93-96 | on the four messages of the findings the corrected method returns the message unchanged |

## Left out

- I/O and framework code is not modelled.
  - In Game: the JSON annotations, `equals`, `hashCode`, `toString`, and the timestamps and play time (`creation`, `finishedAt`, `playTime`), which no modelled operation reads.
  - In BoardBuilder: the `randomlyPlaceMines(GameLevel)` overload (BoardBuilder.java:47), which only passes the level's mine count on.
  - In the error handler: the logger, the other handlers and the HTTP response.
- `ThreadLocalRandom` (BoardBuilder.java:59) and `java.util.Random` (Board.java:129) become the finite sequence of positions they would return. Each draw lies on the board, as `nextInt(bound)` guarantees.
  - The source loops until every mine is placed.
  - The model stops when the draws run out and reports how many mines are still to place.
  - Given enough draws, the exact mine count holds (`Generation.GenerateMines`, `Boards.GeneratedMinesCount`), and the loop can always go on (`Generation.PlacementCanContinue`).
  - Whether a random generator eventually supplies such draws is not modelled.
- `Games.Game.RevealSorroundings`, `Rules.FloodAt`: the source recurses on the JVM call stack. `revealSorroundings` calls `revealCell`, which calls `revealSorroundings` again (Game.java:313-355), to a depth of up to the number of zero cells. On a large custom board with few mines that can end in a `StackOverflowError`. The model's recursion always returns a board; the stack overflow is not modelled.
- `JsonErrors.Sanitize`, `JsonErrors.DescriptionEnd`, `JsonErrors.IndexOf`, `JsonErrors.IndexOfChar`, `JsonErrors.Substring`: positions count Unicode scalar values (a Dafny `string` is a sequence of them). Java's `indexOf`, `substring` and `length()` count UTF-16 code units (GlobalExceptionHandler.java:84-96).
  - On text inside the Basic Multilingual Plane the two counts agree.
  - A character outside it takes two code units in Java. If one comes before code unit 17 or before a cut position, the model and Java differ. For example, eight U+1F600 characters followed by `a:` put the ':' at unit 17 in Java, so `substring(0, -1)` throws; in the model it is at index 9, before the search start 17, so `Sanitize` returns the message unchanged.
  - `StringIndexOutOfBounds.length` is the length in scalars, not Java's `length()`.
- `JsonErrors.Sanitize`: the message is a string, never null. `ex.getMessage()` can be null (GlobalExceptionHandler.java:73), and `indexOf` then throws a `NullPointerException` (line 84). That failure is not modelled.
- `Games.Game.constructor`: requires at least one row and one column. The Java constructor (Game.java:77-85) accepts any array, and `get` or `getColumns` then fails on an empty board. That case is not modelled; every board the engine creates comes from BoardBuilder, which has at least one row and one column.
- Exception messages are left out. Each exception becomes an error constructor, and its position in the order of checks is kept.
- `int[][]` becomes a rectangular `array2<int>`.
  - Jagged arrays are not modelled (`getColumns` reads only row 0).
  - Neither is aliasing between row arrays; `cloneBoard`'s shallow clone followed by fresh rows is modelled as a fresh copy.
- `Games.Game.Reveal`, `Games.Game.Flag`, `Games.Game.Unflag`: `GameChange.none()` is the constructor `None`. Its id and board are not modelled.
- `Builders.BoardBuilder.Build`: `build()` returns the array. It is modelled as a plain accessor without a contract.
- Counters are unbounded integers; only the `rows * columns` products are reduced with `Wrap32`.
  - The mine counters (`detectedMines` in `getMinesCount`, `mines` in `minesCount` and in `allCellsWithoutMinesAreRevealed`) never exceed the requested mine count, which is a Java `int`.
  - `discoverableCells` (Game.java:290-301) counts every hidden cell. It overflows only on a board of more than 2^31 - 1 cells, over 8 GiB of `int`. The wrapped cell-count check does let such a board through: 65537 x 65536 cells wrap to 65536, so up to 65535 mines are accepted. The model counts such a board without wrap-around; its Java overflow is not modelled.
- `Boards.Board.Custom`: requires `rows` and `columns` to be Java ints, as the parameter types say. The draws are a parameter.
- `Boards.Board.CreateCells`, `Boards.Board.RandomlyPlaceMinesAt`, `Boards.Board.CalculateSurroundingMinesAt`: these require a board with at least one row and one column.
  - The source's package-level `createCells(rows, columns, mines)` can be called with an empty board directly. None of these outcomes is modelled:
    - with zero rows, `cells[0]` throws `ArrayIndexOutOfBoundsException` (Board.java:131);
    - with zero columns and at least one mine, `r.nextInt(0)` throws `IllegalArgumentException` (Board.java:134);
    - with zero columns and no mines, both loops are skipped and the empty-column board is returned;
    - a negative dimension throws `NegativeArraySizeException` at `new int[rows][columns]` (Board.java:121).
  - The same goes for the endless loop when `mines` exceeds the number of cells. With exactly as many mines as cells the loop ends once every cell is a mine. Only a direct `createCells` call can ask for more, because `custom` rejects `mines >= totalCells` (Board.java:111-114) and the wrapped product never exceeds the real one (`Generation.WrapNeverGrows`).
- The `StringBuilder` capacity hint at Game.java:202 is smaller than the text, but it does not affect the result, so it is not modelled. The actual length is `Tables.TableLength`.
- Several loops are split into helper methods, each proved against the same specification function:
  - the inner loops `LabelRow` and `LabelCell`;
  - the single guarded checks `CountIf` and `RevealCellIf`;
  - the rows loop `AddRowsTo`.

## Findings

Below, the type-name marker is the text " of type " followed by a backtick, which the error handler searches for.

| source | as written | input that shows it | evidently intended | confidence | as-written member | corrected member |
|---|---|---|---|---|---|---|
| src/main/java/minesweeper/GlobalExceptionHandler.java:93-96 | the guard `typeNameEnd == -1 && descriptionEnd == -1` lets a message without the type-name marker but with a ':' after position 17 reach `substring(0, -1)`, which throws | "JSON parse error: bad: token" | return such a message unchanged (the guard should require both positions) | not executed | `JsonErrors.NoMarkerExample` | `JsonErrors.SanitizeIntended` |
| src/main/java/minesweeper/GlobalExceptionHandler.java:93-96 | a complete type name with no ':' after the prefix reaches `substring(typeNameEnd + 1, -1)`, which throws | " of type \`T\`" | return the message unchanged | not executed | `JsonErrors.NoColonExample` | `JsonErrors.SanitizeIntended` |
| src/main/java/minesweeper/GlobalExceptionHandler.java:96 | a ':' after the prefix but before the closing backtick gives `substring` a begin index past its end index, which throws | "JSON parse error: x: of type \`T\`" | cut only when the ':' follows the type name, otherwise return the message unchanged | not executed | `JsonErrors.ColonBeforeTypeNameExample` | `JsonErrors.SanitizeIntended` |
| src/main/java/minesweeper/GlobalExceptionHandler.java:93-96 | a marker without a closing backtick, plus a ':', returns the text before the marker followed by the message again from position 0 up to the ':' | `JsonErrors.UNCLOSED`: "JSON parse error: a of type ", a backtick, then "b: c" | return the message unchanged | not executed | `JsonErrors.UnclosedMarkerExample` | `JsonErrors.SanitizeIntended` |

`JsonErrors.SanitizeIntended` agrees with the method as written wherever that method returns anything but the repeated text (`JsonErrors.SanitizeIntendedAgrees`). On all four inputs it returns the message unchanged (`JsonErrors.SanitizeIntendedOnFindings`).
