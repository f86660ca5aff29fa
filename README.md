# red-tetris game engine in Dafny

This project models the server-side engine of red-tetris, a multiplayer falling-block game. Each room is a `Game` object in back/Game.js. It holds:

- the roster of players;
- one shared queue of piece templates, dealt in shuffled bags of seven;
- one 20 x 10 grid and one falling piece per player, keyed by socket id;
- a count of pending penalty rows per player.

The model also covers:

- the Piece and Player records;
- the two copies of the piece table, back/Pieces.js and back/tetris/pieces.js;
- the two Redux slices of the web client, for the room and the user.

Each source file keeps its own form. The pure parts are datatypes, functions and lemmas:

- shapes and grids (`Board`);
- rotation (`Rotation`, `Pieces`, `TetrisPieces`);
- the collision check (`Placement`);
- line clearing (`LineClear`);
- penalties (`Penalty`);
- the spectrum (`Spectrum`);
- the bag shuffle (`Bag`).

State that the source updates in place lives in classes: `Piece.Position`, `Piece.Piece`, `Player.Player`, `Game.Game`, `RoomSlice.RoomStore` and `UserSlice.UserStore`. Their methods carry `modifies` clauses. The loops of the source are methods with loop invariants, and each is proved against the function that specifies it:

- the cell-writing loops of updateGrid (`Drawing`);
- the row loop of clearFullLines;
- the loop of addPenaltyLines;
- the bag loops of generatePieces;
- the roster walks;
- the hard-drop slide.

### How the model represents the source

- **Grids are values.** A player's grid is stored by socket id in `Game.grids`. Where the source mutates a grid object it was handed, the model writes the new grid back under the same key.
- **Randomness is an oracle.** `Math.random` is replaced by a sequence `oracle` of naturals. Draw `k` of a call reads `oracle[k]`, and the index it picks in a bag of `b` templates is `oracle[k] % b`.
- **Timers are values.** A player's `updateInterval` is a `Timer`: `Stopped`, or `Every(ms)` for an interval running every `ms` milliseconds.
- **Room deletion is counted.** The `onDelete` callback is modelled as a counter, `deleteCalls`.

### Behaviour worth knowing

- **The collision check only tests the leading edge.** isValidPlacement tests only one cell of the shape per column or row:
  - 'down' tests the lowest 1 of each shape column;
  - 'left' tests the first 1 of each shape row;
  - 'right' tests the last 1 of each shape row, and does not reject a cell left of column 0.

  A full collision check would test every occupied cell of the shape; this one tests only the leading cell of each column or row. `Placement.DownCheckMissesUpperCells` and `Placement.RightCheckMissesLeftEdge` exhibit inputs where the two differ.

  The `...CheckOnDrawnPiece` lemmas cover one case: a drawn piece that fits and moves one step, with a shape that has no gap inside a column or row. `Bag.TemplatesGapFree` and `Bag.RotateKeepsGapFree` show that every template, however it is turned, has no such gap.

  Rotation and spawning fall outside that case. Rotation runs the 'down' check on the grid with the piece lifted, at the same position. Spawning runs it before the piece is drawn. Both can accept a shape that overlaps the stack. One example is the purple T turned clockwise, `[[1,0],[1,1],[1,0]]`, at (4, 0), over a filled cell at row 0, column 4, with the cells under its lowest 1s free: `Bag.TurnedTOverlapsStack` shows that the 'down' check accepts it although it overlaps that cell.
- **Scoring is simpler.** Scores are 100 per row plus 400 for four rows. There is no multiplier, no level, no perfect-clear bonus and no rotation counter.
- **stopFall sets `fall` to true**, as the code does, not back to false.
- **The previous owner keeps its flag.** addPlayer with `isOwner` gives the room a new owner, but the previous owner's own `isOwner` flag is left set.

## Model

| member | source | states |
|---|---|---|
| Board.CreateEmptyGrid | back/Game.js:121-124 | a 20 x 10 grid whose every cell is empty, transparent and destructible |
| Board.RedrawFrame | back/Game.js:149-172 | lifting a piece and painting it elsewhere fills the new footprint with the piece's colour, empties cells only in the old footprint, leaves every other cell alone and never changes an indestructible flag |
| Board.RedrawInPlace | back/Game.js:149-172 | lifting and repainting at the same position is the same as painting once |
| Board.EraseUndoesStamp | back/Game.js:149-172 | a piece painted over empty cells can be lifted off without a trace |
| Rotation.RotateMatrix | back/Game.js:99-115 | an r x c shape becomes a rectangular c x r shape |
| Rotation.ClockwiseEntry | back/Game.js:106-107 | clockwise, entry (row, col) moves to (col, r-1-row) |
| Rotation.CounterClockwiseEntry | back/Game.js:108-109 | counter-clockwise, entry (row, col) moves to (c-1-col, row) |
| Rotation.CounterClockwiseUndoesClockwise | back/Game.js:99-115 | a counter-clockwise turn undoes a clockwise one |
| Rotation.ClockwiseUndoesCounterClockwise | back/Game.js:99-115 | a clockwise turn undoes a counter-clockwise one |
| Rotation.RotateTwice | back/Game.js:99-115 | two clockwise turns turn the shape upside down, entry by entry |
| Rotation.RotateFourTimes | back/Game.js:99-115 | four clockwise turns give back the shape |
| Rotation.RotateKeepsBlock | back/Game.js:99-115 | a rotated shape still has a 1 |
| Pieces.FormsWellFormed | back/Pieces.js:1-9 | seven rectangular forms, each with a block and a colour of its own |
| Pieces.Rotate | back/Pieces.js:16-20 | row i of the result is column i read bottom-up: `out[i][j] == p[r-1-j][i]` |
| Pieces.RotateIsClockwise | back/Pieces.js:16-20 | this rotate is the engine's clockwise rotateMatrix |
| Pieces.RotateFourTimes | back/Pieces.js:16-20 | four turns give back the shape |
| Pieces.GetRandomPiece | back/Pieces.js:26-34 | the shape and colour of a table form, at (5, 0) |
| TetrisPieces.SameForms | back/tetris/pieces.js:2-10 | the second table equals the first |
| TetrisPieces.AgreesWithPieces | back/tetris/pieces.js:17-22 | transpose-then-reverse-rows equals the other rotate and the clockwise rotateMatrix |
| TetrisPieces.RotateExample | back/tests/pieces.test.js:17-29 | the tested T-like shape turns into the expected one |
| TetrisPieces.GetRandomPiece | back/tetris/pieces.js:30-36 | always a copy of the cyan I form at (5, 0), whatever the draw |
| Placement.LowestIsLowest | back/Game.js:326-333 | the scan finds the lowest 1 of a column, or -1 for a column of 0s |
| Placement.LeftmostIsLeftmost | back/Game.js:347-355 | the scan finds the first 1 of a row, or -1 |
| Placement.RightmostIsRightmost | back/Game.js:368-376 | the scan finds the last 1 of a row, or -1 |
| Placement.DownCheckTestsLowestCells | back/Game.js:325-345 | 'down' holds iff the lowest 1 of every shape column lands on a free in-grid cell |
| Placement.LeftCheckTestsLeftmostCells | back/Game.js:346-367 | 'left' holds iff the first 1 of every shape row lands on a free in-grid cell |
| Placement.RightCheckTestsRightmostCells | back/Game.js:367-388 | 'right' holds iff the last 1 of every shape row lands on a free in-grid cell or left of the grid within its rows |
| Placement.ValidDownIsAboveBottom | back/Game.js:335-344 | a valid 'down' placement of a shape with a block starts above the bottom row |
| Placement.StampDrawsOver | back/Game.js:161-172 | painting a piece keeps the grid's size and frees no cell |
| Placement.DownCheckOnDrawnPiece | back/Game.js:325-345 | on a grid with the piece drawn, 'down' one row lower holds iff every 1 of a gap-free-column shape fits on the stack there |
| Placement.LeftCheckOnDrawnPiece | back/Game.js:346-367 | the same for 'left' one column left and a gap-free-row shape |
| Placement.RightCheckOnDrawnPiece | back/Game.js:367-388 | the same for 'right' one column right |
| Placement.DownCheckMissesUpperCells | back/Game.js:335-344 | on a grid without the piece, 'down' accepts a vertical domino whose upper cell is filled |
| Placement.RightCheckMissesLeftEdge | back/Game.js:379-388 | 'right' accepts a one-cell shape left of column 0 |
| LineClear.Points | back/Game.js:413-418 | 100 points a row when the count is not four (so 0 for no row), and 800 for four rows |
| LineClear.ClearKeepsGrid | back/Game.js:400-412 | clearing keeps a 20 x 10 grid |
| LineClear.NoFullRowsLeft | back/Game.js:403-411 | after clearing no row is full |
| LineClear.NothingToClear | back/Game.js:403-411 | a grid without full rows is left as it is, with 0 cleared |
| LineClear.ClearIdempotent | back/Game.js:400-412 | clearing twice is clearing once |
| LineClear.ClearKeepsHardCells | back/Game.js:404 | no indestructible cell is ever cleared |
| LineClear.ClearStep | back/Game.js:404-410 | each iteration keeps the unexamined row in place and advances the partial result by one spliced or kept row |
| LineClear.ClearRows | back/Game.js:400-412 | the loop leaves one empty row on top per full row, then the other rows in order, and counts the full rows |
| Penalty.PenaltyRowsPushUp | back/Game.js:451-458 | n rounds of shift-and-push give the grid followed by n penalty rows, minus its first n rows |
| Penalty.PenaltyRowsLayout | back/Game.js:451-458 | the old rows from n down move to the top and the bottom n rows are gray indestructible rows (all rows when n >= 20); the grid stays 20 x 10 |
| Penalty.AddPenaltyLines | back/Game.js:451-458 | the loop computes that grid; a count <= 0 changes nothing |
| Penalty.QueuedCount | back/Game.js:434-444 | every roster id but the clearer's gets k more pending lines per occurrence; the others keep theirs |
| Penalty.QueuedKeys | back/Game.js:434-444 | queueing drops no entry and adds exactly the other roster ids |
| Spectrum.FilledAtOrAbove | back/Game.js:483-488 | the column flag is set at a row iff a filled cell lies at or above it |
| Spectrum.Spectrum | back/Game.js:479-492 | the spectrum is a 20 x 10 grid |
| Spectrum.ColumnFromTop | back/Game.js:479-492 | a column is gray from its topmost filled cell down, keeping indestructible flags, and empty above |
| Spectrum.EmptyColumn | back/Game.js:479-492 | a column with no filled cell stays empty |
| Spectrum.CoversGrid | back/Game.js:479-492 | every filled cell of the grid is filled in the spectrum |
| Bag.TemplatesWellFormed | back/Game.js:27-35 | seven rectangular templates with a block, spawning at (5, 0) |
| Bag.TemplatesAreForms | back/Game.js:27-35 | the templates are the FORMS table with the I piece turned upright |
| Bag.RemoveTakesOne | back/Game.js:40 | splicing removes exactly the drawn template from the bag |
| Bag.DrawnAndRest | back/Game.js:38-43 | the templates drawn and the bag left over together are the whole bag |
| Bag.FullBagIsPermutation | back/Game.js:38-43 | a bag drawn empty deals each template exactly once |
| Bag.FillStep | back/Game.js:37-44 | dealing j more pieces after m whole bags appends the draws of bag m + 1 |
| Bag.FillPrefix | back/Game.js:37-44 | pieces already dealt stay in front when more are dealt |
| Bag.AlignedBlockIsPermutation | back/Game.js:37-44 | every aligned block of seven dealt pieces is a permutation of the templates |
| Bag.FillFromBag | back/Game.js:37-44 | only templates are dealt |
| Bag.TemplatesGapFree | back/Game.js:27-35 | no template has a 0 between two 1s of a column or of a row |
| Bag.TurnedTOverlapsStack | back/Game.js:325-345 | the clockwise-turned T at (4, 0) over a filled cell at row 0, column 4 passes the 'down' check yet does not fit |
| Bag.RotateKeepsGapFree | back/Game.js:99-115 | a quarter turn of a shape with no gap in its columns and rows has none either |
| Drawing.ErasePiece | back/Game.js:150-159 | the first loop of updateGrid empties every in-grid cell under a 1, keeping indestructible flags |
| Drawing.DrawPiece | back/Game.js:161-172 | the second loop paints every in-grid cell under a 1, keeping indestructible flags |
| Piece.Piece.constructor | back/Piece.js:72-76 | shape and colour as given, the position a fresh copy |
| Piece.Piece.CreateFromTemplate | back/Piece.js:81-83 | a new piece with the template's shape, colour and a fresh copy of its position |
| Piece.ConstructorCopiesPosition | back/Piece.js:75 | moving the position object after construction does not move the piece |
| Piece.TemplatePiecesAreIndependent | back/Piece.js:81-83 | two pieces from one template do not share a position |
| Player.Player.constructor | back/Player.js:2-13 | the given names, no ownership, cursor 0, score 0, not dropped or falling, no interval |
| Roster.WithoutSocket | back/Game.js:609 | the filter keeps exactly the players with another socket id |
| Roster.WithoutSocketTwice | back/Game.js:294-296 | filtering the roster again after removePlayer changes nothing |
| Roster.WithoutSocketDistinct | back/Game.js:609 | filtering keeps the players distinct |
| Roster.SocketIndex | back/Game.js:466 | the first index with the socket id, or -1 when none has it |
| Roster.FindBySocket | back/Game.js:466 | `find` returns the first player with the socket id, or null |
| Roster.FindPlayer | back/Game.js:195-197 | findPlayer returns the first player with the username, or null |
| Game.SlideDown | back/Game.js:566-568 | the hard-drop loop stops at the last row the down check accepts, one row above the first it rejects |
| Game.DealBag | back/Game.js:38-43 | the inner loop pushes the first min(7, count - length) draws of a fresh bag |
| Game.Deal | back/Game.js:37-44 | the outer loop pushes whole bags and a cut-short last bag until count pieces |
| Game.RefillReachesCursor | back/Game.js:633-636 | after the refill the player's cursor is inside the queue of 1000 |
| Game.Game.constructor | back/Game.js:8-20 | an empty room with no owner |
| Game.Game.AddPlayer | back/Game.js:205-213 | appends a fresh player; it becomes owner iff flagged or the room was empty |
| Game.Game.RemovePlayer | back/Game.js:608-615 | drops the id from roster, grids and pieces; pending counts stay; onDelete fires iff the roster is then empty |
| Game.Game.GetRoomData | back/Game.js:644-654 | room name, each player's name, id and flag in roster order, and the owner's name |
| Game.Game.GeneratePieces | back/Game.js:26-46 | appends bag-shuffled templates until the queue holds count pieces |
| Game.Game.GetNextPiece | back/Game.js:632-638 | refills when the cursor is past the end, deals a fresh copy of the template under the cursor and advances it |
| Game.Game.StartPlayer | back/Game.js:232-237 | one turn of startGame's loop: the player's grid key holds a new empty grid, its current piece is a fresh copy of the template under its cursor (not painted), the cursor moves on, and the interval runs at 1000 ms (startPlayerInterval, 245-255); every other key is unchanged |
| Game.Game.StartingDone | back/Game.js:232-237 | after the loop over the whole roster, every player's id holds an empty grid, its cursor has moved on by one, its interval runs, the last player with an id holds a copy of the template under that player's starting cursor, and ids outside the roster keep their grids and pieces |
| Game.Game.StartAll | back/Game.js:232-237 | the forEach of startGame: the same facts about the roster, stated against the state before the loop, with the queue unchanged |
| Game.Game.StartGame | back/Game.js:229-238 | the queue is filled to 1000 pieces by the bag shuffle, then every player is started as StartAll states |
| Game.Game.CheckSommet | back/Game.js:479-499 | the spectrum of the player's grid |
| Game.Game.UpdateGrid | back/Game.js:149-175 | the grid with the piece lifted at its position and painted at the new one; the new position object becomes the piece's |
| Game.Game.Rotate | back/Game.js:54-91 | the turned shape is kept iff the down check at the same position passes on the lifted grid; the piece is repainted; no piece, no change |
| Game.Game.MovePiece | back/Game.js:465-518 | movePlayerPieceLeft (465-477) and movePlayerPieceRight (506-518): the piece moves one column left or right iff the 'left' or 'right' check passes there, else nothing changes; no such player, no change |
| Game.Game.SendPenaltyLines | back/Game.js:434-444 | for k > 0, every other player in the roster gets k more pending lines; otherwise nothing |
| Game.Game.ApplyPendingPenalties | back/Game.js:182-188 | a positive pending count pushes that many penalty rows into the grid and resets the count; otherwise nothing |
| Game.Game.ClearFullLines | back/Game.js:400-426 | the grid is cleared, the count returned, drop interval 150 iff rows cleared, score raised by the points, and n - 1 penalty lines queued for the others when n > 1 |
| Game.Game.EndGameFor | back/Game.js:290-303 | the player's interval stops and it leaves; when exactly one other remains, it leaves too with its interval stopped |
| Game.Game.PlacePiece | back/Game.js:304-309 | pending penalties applied, the piece made current and painted where it spawned |
| Game.Game.SpawnNext | back/Game.js:289-309 | the next piece is dealt; placed iff it fits at its spawn position; then placed as above or game over as above |
| Game.Game.HandlePieceLanding | back/Game.js:285-310 | rows cleared, spectrum of the cleared grid, then the next piece spawned on the cleared grid with the newly queued penalties |
| Game.Game.MovePieceDown | back/Game.js:263-277 | the piece moves one row down to a new position iff the down check passes, with nothing else changed; otherwise it lands |
| Game.Game.DropPiece | back/Game.js:557-571 | the player is marked as dropped, its interval stops, and its piece is hard-dropped |
| Game.Game.HardDrop | back/Game.js:562-571 | the piece rests on the last row the down check accepts, is painted there, and the full rows are cleared with scores and penalties |
| Game.Game.FinishDrop | back/Game.js:573-601 | the spectrum, then the next piece spawned; when placed, the interval restarts at 1000 ms |
| Game.Game.Fall | back/Game.js:525-534 | a found player falls, with its interval at 70 ms |
| Game.Game.StopFall | back/Game.js:541-550 | a found player's interval is back at 1000 ms, and its fall flag is set |
| Game.Game.HandleDisconnect | back/Game.js:662-676 | every interval stops, queue and roster emptied, and true returned |
| RoomSlice.Update | front/src/features/room/roomSlice.js:15-21 | the payload's room name, players, owner and owner id; isOwner iff the owner id is the current user's |
| RoomSlice.Clear | front/src/features/room/roomSlice.js:22-28 | the initial state |
| RoomSlice.UpdateForgetsPriorState | front/src/features/room/roomSlice.js:15-21 | the result does not depend on the previous state |
| RoomSlice.ClearIdempotent | front/src/features/room/roomSlice.js:22-28 | clearing twice is clearing once |
| RoomSlice.ClearUndoesUpdate | front/src/features/room/roomSlice.js:3-28 | clearing after an update gives back the initial state |
| RoomSlice.RoomStore.constructor | front/src/features/room/roomSlice.js:3-9 | the initial state |
| RoomSlice.RoomStore.UpdateRoomInfo | front/src/features/room/roomSlice.js:15-21 | the store holds Update of its old state |
| RoomSlice.RoomStore.ClearRoomInfo | front/src/features/room/roomSlice.js:22-28 | the store holds the initial state |
| UserSlice.Set | front/src/features/user/userSlice.js:11-13 | the name is the payload |
| UserSlice.Clear | front/src/features/user/userSlice.js:14-16 | the name is the initial '' |
| UserSlice.SetForgetsPriorName | front/src/features/user/userSlice.js:11-13 | setUsername does not depend on the previous name |
| UserSlice.ClearIdempotent | front/src/features/user/userSlice.js:14-16 | clearing twice is clearing once |
| UserSlice.SetThenClearIsInitial | front/src/features/user/userSlice.js:3-16 | set then clear gives back the initial name |
| UserSlice.UserStore.constructor | front/src/features/user/userSlice.js:3-5 | the initial name '' |
| UserSlice.UserStore.SetUsername | front/src/features/user/userSlice.js:11-13 | the store holds the payload |
| UserSlice.UserStore.ClearUsername | front/src/features/user/userSlice.js:14-16 | the store holds '' |

## Left out

- **Socket.io and logging.** Emissions (`grid_update`, `update_spectrums`, `game_over`, the disconnect message) and console output are not modelled. broadcastGridUpdate, getGridData and redirectGame only read state and emit, so they are left out too.
- **Real timers.**
  - setInterval and setTimeout are not modelled. A player's interval is the value `Every(ms)` and clearInterval is `Stopped`.
  - The callbacks of those timers are the methods `MovePieceDown` and `FinishDrop`, which a caller invokes.
  - The `dropped` check inside startPlayerInterval's callback is not modelled. Its start is: `Every(1000)` replaces whatever interval the player had, which stands for startPlayerInterval's clearInterval and its new setInterval.
- **The game's own `updateInterval`** is an unused field, and the clearInterval on it in handleDisconnect does nothing.
- **The player list's `currentPieceIndex`.** handleDisconnect assigns it on the player array, not on a player, so the change is unobservable and is left out.
- **The mutable `Player.currentPiece` field** is declared and initialised; the engine never changes it.
- **Server plumbing.** back/server.js, back/Server.js, JsonHandlers.js, the React pages and the socket slice make up the transport and the user interface, which are not part of this model.
- Game.Game.MovePiece: covers movePlayerPieceLeft and movePlayerPieceRight with one `left` flag. The source then stores a shallow copy `{...currentPiece, position}` of the piece; the model keeps the same object. The copy has the same shape, colour and position object, and the old object is no longer reachable, so the replacement cannot be observed. The model does not state the crash that happens when the player has no piece; it requires the piece instead.
- Game.Game.Rotate: does not build the throwaway `newPiece` of the source. Only its shape and a copy of the position are read, so the model checks the turned shape at the piece's position directly.
- Game.Game.FinishDrop: when the piece is placed, the source assigns a new 1000 ms interval without a clearInterval (back/Game.js:596-598). An interval that fall or stopFall started during the drop delay (back/Game.js:530, 546) then keeps running unseen, and keeps moving the piece down. A `Timer` holds one interval, so the model's `Every(1000)` replaces it, and the model does not capture that leaked interval.
- Game.Game.FinishDrop: requires the player's grid to still be stored. In the source the timeout keeps the grid object it captured and writes to it even after the player has left. The model cannot reach a grid that is no longer in `grids`.
- Game.Game.StartGame: requires every cursor to lie inside the filled queue. Past its end getNextPiece reads `undefined` and the source crashes. The per-player pieces are stated for the last player of each socket id, because an earlier player's entry of `currentPieces` is overwritten by a later one with the same id.
- Game.Game.GetRoomData: requires an owner. In a room that never had a player, the source's `this.owner.username` (back/Game.js:652) throws a TypeError, and the model excludes that crash.
- Game.Game.GetNextPiece: requires the cursor to be inside the queue, or the refill to 1000 pieces to reach it with enough oracle values. Past the queue's end the source reads `undefined` and crashes.
- Game.Game.MovePieceDown: requires the player to have a piece, and requires a dealable next piece when the piece lands. The source crashes without them. The `if (!player)` branch refers to an undefined `socketId` and is left out.
- Game.Game.DropPiece: requires the player and its piece to exist; the source crashes without them.
- **Grid and piece shapes are checked.** The collision check requires a non-empty grid and a rectangular non-empty shape, which every grid and shape the engine builds is. The `Direction` value `Other` stands for any other direction string, which the source accepts as valid.
- **Integers are unbounded.** Scores, positions and counts are unbounded integers. JavaScript numbers stay exact far beyond what a game reaches, so their floating-point nature is not modelled.
