# Connect Four rules (4Gewinnt), modelled in Dafny

This project models the game logic of a Unity Connect Four game. It covers two
components and leaves out the engine calls.

- **Board** (`Board.cs`) owns a 7×6 array `boardSlots` of `PlayerEnum` values
  (`NONE`, `red`, `yellow`). It is indexed `[column, row]`, with row 0 at the
  bottom. It clears the array, drops a stone into the lowest free row of a
  column, and scans for four in a row.
- **GameController** (`GameController.cs`) holds `currentPlayer`, `usedStones`
  and `gameDone`. Once per frame it reads the keys (R restarts, 1–7 choose a
  column), drives the board, and ends the game on a win or a draw.

The files:

- `grid.dfy` (module `Grids`): the grid as a value, `seq<seq<Player>>` indexed
  `g[column][row]`. It holds the drop rule (`Drop`) and the three per-cell
  checks exactly as written, including the C# exception behaviour. A read outside
  the array raises `IndexOutOfRangeException`, and the `catch` turns that into
  "no match". `Chain` evaluates a `&&` chain of reads the way C# does. The file
  also holds the lemmas about these definitions.
- `board.dfy` (module `Boards`): class `Board` over an `array2<Player>`. Its
  methods use the source's loops, and a ghost field `grid` mirrors the array.
  Each method is proved against the definitions in `Grids`.
- `turns.dfy` (module `Turns`): the controller's state as a value, one `Update`
  frame as the function `Step`, the key mapping, and the lemmas about turns,
  wins and draws.
- `game_controller.dfy` (module `Controllers`): class `GameController`, whose
  `Update` is proved to perform exactly one `Step`.

## Where the code and the intended rules differ (the model follows the code)

- **Only rising diagonals are detected.** `CheckConnectedFourDiagonal` tests the
  (+1,+1) run from a cell and then its mirror (−1,−1). Both lie on the same
  rising line, so a falling (+1,−1) diagonal never wins.
  `ConnectFour` is the rule as written. `AnyLineFour` is the rule with all four
  lines. `FallingDiagonalIsMissed` exhibits a gravity-consistent grid on which
  red has a falling four and `ConnectFour` is false.
- **The mirror test sometimes does not run.** Both diagonal tests share one
  `try` block. If a read in the (+1,+1) test raises, the mirror test is never
  tried. This changes no result, because the scan reaches the same run from
  its lower-left end (`MirrorRunIsRisingRun`, `ScanHitIffConnectFour`).
- **Column 7 gets past the guard.** `DropStone` rejects `column < 0 ||
  column > boardWidth`, which lets column 7 through.
  `GetFreeRowInColumn(7)` then reads `boardSlots[7, 0]` and raises before anything
  is written. The model keeps this as the distinct outcome `IndexOutOfRange`,
  with the grid unchanged. The controller never passes 7, because its key
  mapping yields only −1..6.
- **A draw is declared one frame late.** The draw test runs at the start of
  `Update`, before the stone of that frame is placed. After the 42nd stone the
  game goes on for one more frame, which then ends it as a draw. A four made
  with the 42nd stone ends the game at once as a win (`LastStoneWinBeatsDraw`).
  The draw path does not `return`, so that frame still reads the selected
  column. On a full board that column is always full, so the frame only shows
  "not free" (`FullBoardIsDraw`).
- **`DropStone` returns nothing.** It only logs its errors. The model returns a
  status (`Dropped(row)`, `ColumnOutOfRange`, `IndexOutOfRange`, `ColumnFull`,
  `ImpossiblePlayer`) so that contracts can name each case.

## Model

| member | source | states |
|---|---|---|
| `Boards.Board.constructor` | Source/Assets/Scripts/Board.cs:20 | The component starts with a 7×6 array whose contents are not yet defined. |
| `Boards.Board.Initialize` | Source/Assets/Scripts/Board.cs:22-31 | A fresh 7×6 array is allocated and the nested loops leave every one of the 42 slots `NONE`. |
| `Grids.EmptyGrid` | Source/Assets/Scripts/Board.cs:24-31 | The cleared grid has 7 columns of 6 rows, and every slot is empty. |
| `Boards.Board.GetFreeRowInColumn` | Source/Assets/Scripts/Board.cs:79-89 | Returns the lowest row whose slot is `NONE`, with every row below it occupied, or −1 exactly when all 6 slots are occupied. |
| `Grids.FreeRowFrom` | Source/Assets/Scripts/Board.cs:81-88 | The reference definition of that search: the first empty row at or above the start, or −1 iff none is empty. `FreeRow` applies it from row 0 to column c of a grid, as `GetFreeRowInColumn` does on the array. |
| `Boards.Board.HasSlotFreeRows` | Source/Assets/Scripts/Board.cs:74-77 | True exactly when the free-row search does not give −1, that is, when some slot of the column is `NONE`. |
| `Boards.Board.DropStone` | Source/Assets/Scripts/Board.cs:39-67 | The new grid and the status are those of `Drop` on the old grid, in the source's order of checks. The array object is unchanged. |
| `Grids.Drop` | Source/Assets/Scripts/Board.cs:39-67 | DropStone as a value: the range guard, then column 7's raise, then the full column, then the player test, then the write. The result grid is always 7×6, and a drop succeeds only for a real player in a column 0..6, at a row 0..5. `DropWritesLowestFreeSlot`, `DropFailuresLeaveGrid`, `DropPreservesGravity` and `DropAddsOneStone` state its properties. The write itself is `Place`, which sets the one slot as Board.cs:66 does. |
| `Grids.DropWritesLowestFreeSlot` | Source/Assets/Scripts/Board.cs:47-66 | For a red or yellow stone and a column 0..6 with room, exactly slot [column, lowest free row] becomes the player. Every other slot keeps its value. |
| `Grids.DropFailuresLeaveGrid` | Source/Assets/Scripts/Board.cs:41-64 | The grid is unchanged exactly when the drop fails. The drop fails as out of range iff column < 0 or > 7, raises iff column = 7, finds the column full iff it has no free row, and rejects the player iff that player is `NONE`. |
| `Grids.DropPreservesGravity` | Source/Assets/Scripts/Board.cs:47-66 | If every slot below an occupied slot is occupied before a drop, the same holds after it. |
| `Grids.DropAddsOneStone` | Source/Assets/Scripts/Board.cs:66 | A successful drop adds exactly one stone to the grid's count, and a failed one adds none. |
| `Grids.FullGridHasNoFreeRow` | Source/Assets/Scripts/GameController.cs:16 | A grid holds at most 42 stones, and with 42 stones no column has a free row. |
| `Grids.StonesBound` | Source/Assets/Scripts/GameController.cs:16 | Columns of 6 slots hold at most 6 stones each, and they are all full when they hold that many. |
| `Grids.At` | Source/Assets/Scripts/Board.cs:110-113 | One read of `boardSlots[x, y]`: it raises exactly when (x, y) lies outside the 7×6 array. |
| `Grids.Chain` | Source/Assets/Scripts/Board.cs:110-123 | The `&&` chain of reads with its `catch`, evaluated left to right: it stops at the first mismatch and raises at the first read outside the array. A chain that does not raise starts inside the array, and one that holds starts on a stone of the player. `ChainHoldsIffRun` states its meaning for four reads. |
| `Grids.ChainHoldsIffRun` | Source/Assets/Scripts/Board.cs:108-123 | A chain of four reads, where a read outside the array counts as no match, holds exactly when the four slots are inside the grid and all hold the player. |
| `Grids.CheckConnectedFourRow` | Source/Assets/Scripts/Board.cs:106-124 | True exactly when (i,j)…(i+3,j) are in bounds and all hold the player. |
| `Grids.CheckConnectedFourColumn` | Source/Assets/Scripts/Board.cs:126-146 | True exactly when (i,j)…(i,j+3) are in bounds and all hold the player. |
| `Grids.CheckConnectedFourDiagonal` | Source/Assets/Scripts/Board.cs:148-174 | A (+1,+1) run from (i,j) makes it true. When true, there is a (+1,+1) or a (−1,−1) run from (i,j). |
| `Boards.Board.CheckConnectFour` | Source/Assets/Scripts/Board.cs:91-104 | The scan with early return is true exactly when the player is not `NONE` and some in-bounds anchor starts four of that player going right, up or up-right. It is always false for `NONE`. |
| `Grids.ScanHit` | Source/Assets/Scripts/Board.cs:95-100 | The scan's test at one cell: skipped for `NONE`, otherwise the row, column and diagonal checks joined by `||`. A hit needs a real player, and a four anchored at the cell going right, up or up-right is always a hit. |
| `Grids.ScanHitIffConnectFour` | Source/Assets/Scripts/Board.cs:93-103 | Some cell passes the scan's test iff the grid has a four of the player in one of the three directions. |
| `Grids.ScanHitMeansConnectFour` | Source/Assets/Scripts/Board.cs:98-100 | A hit at any single cell, the mirror test included, is a four from some in-bounds anchor. |
| `Grids.FourFromIsScanHit` | Source/Assets/Scripts/Board.cs:98-100 | A four anchored at a cell is found by the scan at that very cell. |
| `Grids.MirrorRunIsRisingRun` | Source/Assets/Scripts/Board.cs:160-163 | A (−1,−1) run from (i,j) is the (+1,+1) run from (i−3,j−3), which is inside the grid. So the mirror test adds no win. |
| `Grids.ConnectFourIsAnyLineFour` | Source/Assets/Scripts/Board.cs:148-174 | Every four the source detects is a four on one of the four lines. |
| `Grids.FallingDiagonalIsMissed` | Source/Assets/Scripts/Board.cs:148-174 | A grid that obeys gravity has red four on a falling diagonal, yet `ConnectFour` is false for red and for yellow. The grid holds seven red and six yellow stones, so red-first alternate play can produce it. |
| `Turns.GetSelectedSlot` | Source/Assets/Scripts/GameController.cs:80-114 | Gives −1..6. The result is −1 only when no key 1..7 is pressed. Otherwise key (slot+1) is pressed and no lower-numbered key is. |
| `Turns.Opponent` | Source/Assets/Scripts/GameController.cs:116-131 | Red and yellow swap, and `NONE` stays `NONE`. |
| `Turns.Step` | Source/Assets/Scripts/GameController.cs:43-78 | One `Update`: R resets, a finished game ignores the frame, otherwise `DrawCheck` then `SelectColumn`. A frame shows at most two notices, adds at most one stone to usedStones, and changes nothing once the game is over. `ResetFromAnyState`, `GameOverIgnoresInput`, `StepPreservesInv`, `DropStep`, `FullColumnChangesNothing`, `FullBoardIsDraw` and `LastStoneWinBeatsDraw` state its properties. |
| `Turns.DrawCheck` | Source/Assets/Scripts/GameController.cs:51-54 | The draw test only ever sets gameDone: it does so, and shows a notice, exactly when usedStones has reached 42, and that notice is the draw, `GameOver(NONE)`. The grid, the mover and the count stay. |
| `Turns.SelectColumn` | Source/Assets/Scripts/GameController.cs:56-77 | The rest of the frame for the selected slot. It keeps the notices already shown and adds exactly one when a slot is selected. It never reopens a finished game, and usedStones rises by at most one, by exactly one whenever the grid changes. `SelectColumnWins`, `SelectColumnSwitches` and `DropStep` state its two drop cases. |
| `Turns.InitialState` | Source/Assets/Scripts/GameController.cs:35-38 | InitializeGame's state: a well-formed empty grid holding no stones, usedStones 0, red to move and the game running. |
| `Turns.InitialStateIsValid` | Source/Assets/Scripts/GameController.cs:33-41 | The reset state has an empty grid, red to move, 0 stones used and the game running, and it satisfies the invariant. |
| `Turns.ResetFromAnyState` | Source/Assets/Scripts/GameController.cs:45-48 | With R pressed, any state goes to the reset state and the turn text shows red. |
| `Turns.GameOverIgnoresInput` | Source/Assets/Scripts/GameController.cs:50 | Once the game is over, a frame without R changes nothing and shows nothing. |
| `Turns.InvBoundsStones` | Source/Assets/Scripts/GameController.cs:59-63 | Under the invariant, usedStones lies between 0 and 42. |
| `Turns.StepPreservesInv` | Source/Assets/Scripts/GameController.cs:43-78 | Every frame keeps the invariant. Stones obey gravity, the player to move is red or yellow, and usedStones equals the number of occupied slots. |
| `Turns.FullColumnChangesNothing` | Source/Assets/Scripts/GameController.cs:71-75 | Before all 42 stones are used, selecting a full column leaves the grid, currentPlayer, usedStones and gameDone as they were, and only shows "not free". |
| `Turns.DropStep` | Source/Assets/Scripts/GameController.cs:59-70 | Selecting a column with room drops the mover's stone in its lowest free slot and adds 1 to usedStones. A four ends the game with the mover as winner, and the turn does not switch. Otherwise the game goes on with the other player. |
| `Turns.SelectColumnWins` | Source/Assets/Scripts/GameController.cs:64-68 | When the dropped stone completes a four, the frame ends the game, keeps currentPlayer and announces that player. |
| `Turns.SelectColumnSwitches` | Source/Assets/Scripts/GameController.cs:69 | When the dropped stone completes no four, the frame passes the turn to the other player and shows it. |
| `Turns.FullBoardIsDraw` | Source/Assets/Scripts/GameController.cs:51-54 | With 42 stones used and the game running, a frame ends the game as a draw and changes nothing else. A selected column then only shows "not free". |
| `Turns.LastStoneWinBeatsDraw` | Source/Assets/Scripts/GameController.cs:51-68 | With the 42nd stone, a four ends the game at once as a win with no draw shown. Without a four, the game runs one more frame, which declares the draw. |
| `Controllers.GameController.constructor` | Source/Assets/Scripts/GameController.cs:25-31 | Start runs InitializeGame, which gives the reset state on the given board. |
| `Controllers.GameController.InitializeGame` | Source/Assets/Scripts/GameController.cs:33-41 | The board is cleared, red moves, usedStones is 0 and gameDone is false. The invariant holds, and the turn text shows red. |
| `Controllers.GameController.SwitchPlayer` | Source/Assets/Scripts/GameController.cs:116-131 | currentPlayer becomes its opponent (`NONE` is kept) and nothing else changes. The turn text shows the new player. |
| `Controllers.GameController.SetWinner` | Source/Assets/Scripts/GameController.cs:145-160 | gameDone becomes true and nothing else changes. The result shown is the player, or a draw for `NONE`. |
| `Controllers.GameController.Update` | Source/Assets/Scripts/GameController.cs:43-78 | One frame performs exactly `Step` on the old state and the pressed keys, and keeps the invariant. So every `Turns` lemma about `Step` holds of it. |

## Left out

- Rendering: `Instantiate` and `Destroy` of stone objects, `FindGameObjectsWithTag`, and the float positions in `SetStoneInRow` (Board.cs:15-18, 33-36, 69-72). They draw the board and do not affect the rules.
- `highliteConnectedFour` (Board.cs:176-193): a cosmetic dimming of the other stones with `Vector2` floats. Win detection is modelled as a pure predicate without it.
- Audio, `Debug.Log`/`LogError`, the `StopAllCoroutines` call and the `ClearPlayerInfo` coroutine with its 1.5 s timer. The texts are kept only as `Notice` values: the turn text, the "not free" text and the result text.
- `Input.GetKeyDown` polling: the keys pressed in a frame are a parameter, a `set<KeyCode>`, of `Update` and `GetSelectedSlot`.
- The exceptions of the three check methods: each read outside the array is an explicit range test (`At`, `Chain`) that gives the same booleans.
- `PlayerEnum.cs` is not part of this model. Its three values are inferred from their uses.
- Unity's lifecycle: `Start` is the `GameController` constructor, and the serialized `board` reference is its argument. The `Board` constructor models the component before its first `Initialize`.
- Grids.CheckConnectedFourDiagonal: the contract states the two implications the scan needs, not the exact case in which a read that raises stops the mirror test. That case is in the function's body, and `MirrorRunIsRisingRun` shows it changes no result of `CheckConnectFour`.
- Integer widths: `usedStones` and the indices are unbounded integers. `usedStones` stays within 0..42, the selected slot within −1..6, and the scan's reads compute indices from `i − 3` to `i + 3` and `j − 3` to `j + 3`, that is −3..9. So the source's 32-bit `int` never wraps.
- Boards.Board.constructor: `boardSlots` (Board.cs:20) has no initializer, so in the source the array is null until `Initialize`, and `DropStone`, `HasSlotFreeRows` or `CheckConnectFour` called before it would throw `NullReferenceException`. The model starts with an allocated 7×6 array of unspecified contents instead. The only caller, `Start`, runs `InitializeGame` and so `Initialize` first (GameController.cs:30, 35), and the `GameController` constructor does the same.
- Boards.Board.HasSlotFreeRows: it requires a column 0..6. The public C# method accepts any `int`, and for a column outside 0..6 the read at Board.cs:83 raises `IndexOutOfRangeException`; that raise is not modelled. The controller passes only 0..6 (GameController.cs:56-59).
- Boards.Board.GetFreeRowInColumn: it requires a column 0..6, for the same reason. Its only other caller, `DropStone`, reaches it for column 7, and the model's `DropStone` returns `IndexOutOfRange` for that case instead of calling it.
