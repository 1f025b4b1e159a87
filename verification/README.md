# web-tetris core in Dafny

A Dafny model of the game core of web-tetris. The model has two halves.

- **The Rust engine** (src/main.rs) is compiled to WebAssembly. It holds:
  - the flat `Cells` board and its `Board` wrapper: collision, freezing, line clearing, reported blocks;
  - the falling `ActivePiece` and the seven rotation tables;
  - the seven-bag `PieceSack`;
  - the `Tetris` state machine behind the exported `tick`, `key`, `setSpeed` and `getDropPiece`.
- **The JavaScript coordinator** `TetrisGame` has two front ends:
  - static/app/tetris.jsx (variant `App`);
  - static/tetris.jsx (variant `Static`).

  It gates the engine tick on pause, keeps score, lines and level, and pushes speed changes to the engine. It forwards keys and notifies registered listeners. It also picks sprites and border colours for drawing.

The engine is modelled as pure functions over immutable datatypes. The two loops with real proof content are methods:
- `LineClear.ClearLines` follows `Cells::clear_lines` statement by statement. It is proved equal to the declarative `LineClear.ClearedCells`: as many empty rows as there were full rows, then the rows that were not full, in order. `Engine.Tick` uses `ClearedCells`.
- `Engine.GetDropPiece` follows `get_drop_piece`.

The random source is an oracle `rng(n, len)`. It gives the index drawn by the `n`-th draw from a bag of `len` pieces, and the sack counts its draws.

Coordinator steps return a list of `Game.Effect`s in the order the code makes them:
- listener calls;
- `set_speed`;
- the engine `tick` and `key` calls;
- redraws;
- `requestAnimationFrame`.

`System` wires `start`, one animation frame and one key press to the engine, and applies the speeds the coordinator pushes.

| file | module | models |
|---|---|---|
| wrappers.dfy | Wrappers | `Option` (Rust's `Option`, a board cell) and `Result` (a JavaScript throw) |
| pieces.dfy | Pieces | `Point`, the move offsets, `Piece`, the rotation tables, serialised piece names |
| active_piece.dfy | ActivePieces | `ActivePiece` with `usize` rotation, spawn, shape, moves, rotations |
| grid.dfy | Grid | `Cells`: new, get, set, collide, clear, row view, reported points |
| line_clear.dfy | LineClear | `clear_lines` as a method and as a declarative partner, and their properties |
| board.dfy | Board | piece collision, freezing, the hard-drop descent |
| piece_sack.dfy | PieceSack | `fill`, `next`, and the seven-bag guarantee over many draws |
| engine.dfy | Engine | `Tetris`: new, key, set_speed, swap, tick, drop shadow, invariants |
| event_bus.dfy | EventBus | `addEventListener` and `trigger` |
| sprites.dfy | Sprites | `getSpriteData`, `getSkirtColor`, `drawBlocks` for both variants |
| game.dfy | Game | `TetrisGame`: constructor, updateScore, input, togglePause, start, stop, tick |
| system.dfy | System | coordinator and engine together, per frame and per key |

## Model

| member | source | states |
|---|---|---|
| Pieces.Shapes | src/main.rs:510-521 | every rotation table has 1, 2 or 4 entries, and each entry is four cells inside the 4x4 box at the piece position (tables copied from src/main.rs:545-563) |
| Pieces.NameInjective | src/main.rs:498-508 | different pieces serialise to different names |
| Pieces.AllPiecesComplete | src/main.rs:578-583 | the list a bag is filled from holds every piece exactly once |
| ActivePieces.Spawn | src/main.rs:443-451 | a new piece is not dropping and uses rotation-table entry 0 |
| ActivePieces.Shape | src/main.rs:453-459 | the shape has four cells, all within three cells right of and below the position |
| ActivePieces.MoveTranslatesShape | src/main.rs:467-471 | moving by an offset moves every shape cell by that offset, in order |
| ActivePieces.MoveLeftRightInverse | src/main.rs:429-431 | a move left and a move right undo each other |
| ActivePieces.RotationsInverse | src/main.rs:484-495 | clockwise and counter-clockwise rotations undo each other, also across the usize wrap at 0 |
| ActivePieces.DoMove | src/main.rs:467-471 | a move keeps kind, rotation and drop flag and moves every shape cell by the offset, in order |
| ActivePieces.Lower | src/main.rs:477-482 | lowering keeps kind, rotation and drop flag and puts every shape cell one row further down |
| ActivePieces.Drop | src/main.rs:461-465 | a drop only marks the piece as dropping; its cells stay where they are |
| ActivePieces.RotateClockwise | src/main.rs:484-488 | a clockwise turn selects the next rotation-table entry, cyclically, also when the usize counter wraps to 0; kind, position and drop flag are kept |
| ActivePieces.RotateCounterClockwise | src/main.rs:490-494 | a counter-clockwise turn selects the previous rotation-table entry, cyclically, also when rotation 0 wraps to usize::MAX; kind, position and drop flag are kept |
| Grid.New | src/main.rs:319-325 | a new board has width*height cells, all empty |
| Grid.Get | src/main.rs:351-361 | reading outside the board gives None |
| Grid.Collide | src/main.rs:327-339 | a point above the board inside its columns never collides; left of, right of or below the board always collides; on the board it collides iff the cell is occupied |
| Grid.Set | src/main.rs:341-349 | writing outside the board changes nothing; writing inside changes exactly that cell; the size never changes |
| Grid.Clear | src/main.rs:363-365 | every cell is emptied and the size is kept |
| Grid.RowsDetermineCells | src/main.rs:312-317 | two valid boards of one size with the same rows are equal: the row view loses nothing |
| Grid.PointsAreOccupiedCells | src/main.rs:400-406 | on a 10-wide board the reported blocks are exactly the occupied cells with their pieces |
| LineClear.CountRow | src/main.rs:371-378 | the count of colliding cells equals the width iff the row is full |
| LineClear.CopyRow | src/main.rs:383-388 | row y becomes a copy of row y-1 (an empty row when y is the top); the other rows are kept |
| LineClear.ShiftDown | src/main.rs:380-391 | the shift removes row y, moves every row above it down one, and puts an empty row on top |
| LineClear.ScanRow | src/main.rs:370-396 | one pass of the outer loop: a full row y is removed (rows above move down, an empty row enters on top), counted, and y is scanned again; any other row leaves the board alone and the scan moves up; the scan state is kept and the scan always progresses |
| LineClear.ClearedCells | src/main.rs:367-398 | the declarative clear: as many empty rows as there were full rows, on top of the non-full rows in their order |
| LineClear.ClearLines | src/main.rs:367-398 | returns the number of full rows; afterwards the rows are that many empty rows followed by the non-full rows in their order, i.e. the board equals ClearedCells |
| LineClear.ClearedHasNoFullRow | src/main.rs:367-398 | after a clear no row is full |
| LineClear.ClearIdempotent | src/main.rs:367-398 | clearing a cleared board changes nothing |
| LineClear.ClearWithoutFullRowIsIdentity | src/main.rs:367-398 | a board without a full row is left as it is and reports zero lines |
| LineClear.NoFullRowCountsZero | src/main.rs:367-398 | a board without a full row reports zero lines |
| LineClear.CountZeroHasNoFullRow | src/main.rs:367-398 | a zero line count means no row is full: the converse of the previous row |
| LineClear.EmptyBoardHasNoFullRow | src/main.rs:319-325 | a fresh board has no full row |
| LineClear.ClearedOccupancy | src/main.rs:367-398 | occupied cells after a clear plus width times the reported count equals occupied cells before |
| Board.BelowFloorCollides | src/main.rs:283-290 | a piece whose position is at or below the floor collides, so every descent ends |
| Board.FreeIsAboveFloor | src/main.rs:283-290 | a piece that does not collide lies above the floor |
| Board.SpawnFitsEmptyBoard | src/main.rs:131-137 | a spawned piece never collides with an empty 10-wide board |
| Board.Freeze | src/main.rs:292-296 | the shape cells that lie on the board get the piece; all other cells keep their content |
| Board.FreezeCells | src/main.rs:293-295 | the loop writes the piece into exactly the listed cells that lie on the board |
| Board.Land | src/main.rs:155-160 | the hard-drop loop keeps column and rotation and only goes down; starting from a colliding piece it returns the piece; otherwise it ends free with the next row colliding, and every row passed was free |
| Board.LandIsLowestFree | src/main.rs:155-160 | from a free piece, the hard drop stops at the first row whose next row collides |
| PieceSack.FillFrom | src/main.rs:584-588 | the draw loop yields a permutation of its source |
| PieceSack.Fill | src/main.rs:578-591 | a refill is a permutation of the seven pieces and uses seven draws |
| PieceSack.Next | src/main.rs:593-599 | a non-empty bag loses one piece without drawing; an empty one is refilled with seven draws and keeps six |
| PieceSack.NextTakesFront | src/main.rs:593-599 | a non-empty bag hands out its front piece and drops it, without drawing |
| PieceSack.NextRefills | src/main.rs:593-599 | an empty bag is refilled first: the piece handed out plus the six left are the seven pieces |
| PieceSack.NextKeepsBag | src/main.rs:593-599 | what is left stays part of one bag and no longer holds the piece handed out |
| PieceSack.TwoDrawsFromEmptyBag | src/main.rs:106-111 | the first two pieces differ, and with the five left in the bag they are the seven pieces |
| PieceSack.OpeningPiecesDiffer | src/main.rs:578-599 | the first two pieces handed out from one bag differ |
| PieceSack.DealDrains | src/main.rs:593-599 | a bag with n pieces hands them out in order over n calls, without drawing |
| PieceSack.DealSplit | src/main.rs:593-599 | dealing a+b pieces is dealing a and then b more from the remaining bag |
| PieceSack.SevenFromEmptyBag | src/main.rs:578-599 | from an empty bag the next seven pieces are the seven pieces in some order |
| PieceSack.EveryBlockOfSevenIsABag | src/main.rs:578-599 | from an empty bag every aligned block of seven dealt pieces holds each piece exactly once |
| Engine.KeyTableIsBijection | src/main.rs:76-93 | a key name maps to an input iff it is that input's key: ArrowUp, ArrowLeft, ArrowRight, ArrowDown, Shift, Enter |
| Engine.Key | src/main.rs:76-93 | a key in the table queues its input and a key outside it changes nothing; only the queue ever changes |
| Engine.KeyQueues | src/main.rs:76-93 | a key press queues exactly one input when the name is in the table and nothing otherwise; nothing else changes |
| Engine.HandleInput | src/main.rs:127-129 | the input is appended to the queue and nothing else changes |
| Engine.New | src/main.rs:106-120 | empty queue, speed and timer 5, an empty 10x20 board, the active piece at spawn |
| Engine.NewSatisfiesInv | src/main.rs:106-120 | a new engine satisfies the invariant; active, next and the five in the sack are one bag, so active and next differ |
| Engine.SetSpeed | src/main.rs:40-46 | the exported set_speed changes the speed and leaves the drop timer and everything else alone |
| Engine.Truncate | src/main.rs:43 | the float-to-integer cast drops the fraction toward zero, for negative values as well |
| Engine.SpeedFromFactor | src/main.rs:40-46 | the engine interval is 21 minus 20*factor cut toward zero: between 1 and 21 for factors in [0, 1], above 21 for negative factors |
| Engine.SwapPiece | src/main.rs:131-138 | the next piece becomes active at the spawn point with the timer at speed; the new next piece and the sack are exactly what one draw from the sack gives; the board is kept when it fits and every cell is emptied (same size) when it does not |
| Engine.SwapPieceFits | src/main.rs:131-138 | the next piece spawns and fits, the timer restarts at speed, the bag stays valid, and the board is exactly the old one if the spawn fitted it and the cleared one otherwise |
| Engine.SwapsFollowDeal | src/main.rs:131-138 | over n+1 successive swaps the active pieces are the waiting next piece followed by the n pieces the sack deals, in order |
| Engine.SpawnedBlocksAreBags | src/main.rs:131-138 | once the sack is empty, every aligned block of seven pieces spawned after the waiting next piece holds each piece exactly once |
| Engine.Transform | src/main.rs:145-152 | an input keeps the piece kind and marks it dropping only for Drop |
| Engine.ApplyEvent | src/main.rs:145-165 | an input never touches the queue or the speed; the board changes only when a piece froze, and only a Drop (or an already dropping piece) freezes |
| Engine.ApplyEvents | src/main.rs:142-167 | the event loop never touches the queue or the speed; once a freeze is reported it stays reported; a loop that froze nothing keeps the board |
| Engine.MoveIsTakenIffFree | src/main.rs:162-164 | an input other than Drop freezes nothing and keeps the board; its piece is taken iff it does not collide, else the state is unchanged |
| Engine.ApplyEventsKeepsValid | src/main.rs:142-167 | the event loop keeps the board's size and does not touch the queue it drains |
| Engine.ApplyEventKeepsShaped | src/main.rs:142-167 | one input keeps the engine invariant, and a board changes only when the input froze a piece |
| Engine.DropFreezesAtLowestFreeRow | src/main.rs:154-161 | a hard drop of a free piece freezes it at its lowest free row and spawns the next piece; the board is that frozen board when the next piece fits it, and the cleared frozen board otherwise |
| Engine.DropLanding | src/main.rs:151-160 | a dropping piece lands at the lowest free row of the piece it came from and freezes there |
| Engine.LowestFreeIgnoresDrop | src/main.rs:155-160 | where a descent stops does not depend on the dropping flag |
| Engine.LowestFreeIsUnique | src/main.rs:155-160 | the row where a descent stops is unique |
| Engine.SameCollision | src/main.rs:283-290 | collision depends only on kind, position and rotation, not on the dropping flag |
| Engine.GetDropPiece | src/main.rs:205-232 | the shadow is empty when the active piece collides; otherwise it is the piece's four blocks at its lowest free row |
| Engine.ShadowIsWhereDropLands | src/main.rs:205-232 | a hard drop freezes the piece exactly where the drop shadow shows it, and the board after the drop is that frozen board, or its cleared copy when the next piece does not fit |
| Engine.ApplyEventsAppend | src/main.rs:142-167 | inputs are applied in queue order: applying a+b is applying a and then b from its result |
| Engine.ApplyEventsKeepsShaped | src/main.rs:142-167 | the event loop keeps the engine invariant; if nothing froze, the board is unchanged |
| Engine.Gravity | src/main.rs:169-182 | gravity never touches the queue or the speed, keeps a reported freeze, changes the board only by a freeze, and while the timer is positive only counts it down |
| Engine.GravityKeepsShaped | src/main.rs:169-182 | gravity keeps the invariant; while the timer is positive it only counts down; once it runs out the timer restarts at speed and the piece moves down a row when that row is free; when it is blocked the piece freezes in place, the next piece spawns, and the board is the frozen board, or its cleared copy when the next piece does not fit |
| Engine.Tick | src/main.rs:140-190 | on a board of positive width (line clearing never ends on a 0-wide one), a tick drains the queue, keeps the speed, and leaves a valid board of the same size; its result is tied to its steps by Engine.TickSteps, Engine.IdleTick and Engine.TickReportsDrop |
| Engine.TickPreservesInv | src/main.rs:140-190 | a tick drains the queue, leaves no full row, reports at most 20 lines, and a tick that froze nothing clears nothing and keeps the board |
| Engine.TickRemovesFullRows | src/main.rs:184-189 | the reported line count times 10 is the number of cells the clear removed |
| Engine.TickSteps | src/main.rs:140-190 | a tick applies the drained queue to the engine, then gravity with the inputs' freeze report, then clears the full rows of the resulting board; it reports that board's full-row count and gravity's frozen flag, and keeps gravity's pieces, sack and timer |
| Engine.IdleTick | src/main.rs:140-190 | with no queued input, a running timer and no full row, a tick only counts the timer down and reports nothing |
| Engine.TickReportsDrop | src/main.rs:153-160 | a hard drop of a free piece at the head of the queue makes the tick report a frozen piece, whatever follows it |
| EventBus.Subscribe | static/app/tetris.jsx:158-160 | the listener is appended after the existing ones |
| EventBus.Trigger | static/app/tetris.jsx:162-166 | trigger makes at most one call per listener, each with the triggering data |
| EventBus.TriggerCallsHandlers | static/app/tetris.jsx:162-166 | trigger calls exactly the handlers registered under the name, once each, in registration order, all with the data |
| EventBus.TriggerAppend | static/app/tetris.jsx:162-166 | triggering a concatenated list is triggering each part in turn |
| EventBus.SubscribeThenTrigger | static/tetris.jsx:160-168 | a new listener is called last for its own name, and other names are unaffected |
| EventBus.CalledIffRegistered | static/tetris.jsx:164-168 | a handler is called for a name iff it was registered under that name |
| Sprites.SpriteColumnRoundTrip | static/app/tetris.jsx:390-409 | every piece has a sprite column below the background column 7, and the column maps back to the piece |
| Sprites.ColumnsAreAPermutation | static/tetris.jsx:332-351 | each of the seven sheet columns shows one piece: the table is onto |
| Sprites.SpriteIffPieceName | static/tetris.jsx:332-351 | a name gets a sprite iff it names a piece; any other name throws |
| Sprites.SpritesDistinguishPieces | static/app/tetris.jsx:390-409 | different pieces get different sprite columns |
| Sprites.VariantsDisagreeOnEveryPiece | static/tetris.jsx:332-351 | the two front ends put every piece in a different column |
| Sprites.SpriteColumn | static/app/tetris.jsx:390-409 | an unknown name throws `Invalid Block Type` followed by the name |
| Sprites.SkirtColor | static/app/tetris.jsx:369-388 | an unknown name throws `Invalid Block Type` followed by the name |
| Sprites.SkirtColorsDistinguishPieces | static/app/tetris.jsx:369-388 | every piece has a border colour, only piece names do, and the colours differ |
| Sprites.SpriteOps | static/tetris.jsx:324-330 | drawing succeeds iff every block names a piece, and then draws one sprite per block, in order, at 50 pixels per cell |
| Sprites.DrawBlocksLayers | static/app/tetris.jsx:344-367 | with a border colour, all borders come before all sprites; without one, or in the static variant, only sprites are drawn |
| Sprites.EngineBlocksAlwaysDraw | static/app/tetris.jsx:354-366 | blocks reported by the engine never make drawing throw |
| Game.NewGameStartsClean | static/app/tetris.jsx:145-156 | a new coordinator is unpaused with score 0, level 1, lines 0 and no listeners, and satisfies the invariant |
| Game.AddEventListener | static/tetris.jsx:160-162 | only the listener list changes, by appending the listener |
| Game.ToInt32 | static/app/tetris.jsx:237 | `x \| 0` is the identity on the signed 32-bit range and always lands in it |
| Game.SpeedFactor | static/app/tetris.jsx:239-243 | the factor pushed for any level of at least 1 lies in (0, 1] |
| Game.UpdateScore | static/app/tetris.jsx:214-248 | a zero clear changes nothing; the lines grow by the clear; only score, lines, level and the four-line flag change; the only effects are score notifications carrying the new values and, exactly when the level changed, the new level's speed |
| Game.UpdateScoreSpec | static/app/tetris.jsx:214-248 | a zero clear changes nothing and calls nobody; otherwise score grows by 100, 300, 500 or 800 times the old level (nothing for more than 4 lines); lines grow; level becomes lines/10+1; speed is pushed only on a level change; the score is published once per listener (identical in static/tetris.jsx:216-250) |
| Game.FourLinesAlwaysScore800 | static/app/tetris.jsx:216-233 | a four-line clear adds 800 per level even right after another four-line clear |
| Game.UpdateScoreKeepsInv | static/tetris.jsx:238-247 | scoring keeps 1 <= level <= lines/10+1 and never lowers the level or the lines |
| Game.PushedSpeedInRange | static/app/tetris.jsx:238-245 | a pushed speed factor lies in (0, 1], and the engine interval becomes 21 minus the level, capped at level 20 |
| Game.FourFourOneFourFromLevelFive | static/app/tetris.jsx:214-248 | clears of 4, 4, 1, 4 from 40 lines at level 5 add 12500 points and end at 53 lines, level 6 |
| Game.TogglePause | static/app/tetris.jsx:266-268 | only the pause flag changes, and it flips |
| Game.DoubleToggleIsIdentity | static/tetris.jsx:268-270 | toggling twice restores the state |
| Game.Stop | static/app/tetris.jsx:262-264 | only the stopping flag changes, to true |
| Game.StartSpeedAgainstScoring | static/app/tetris.jsx:194 | up to level 20 start pushes the same factor as updateScore and the engine interval becomes 21 - level; above level 20 it pushes a larger factor and the interval falls below 1, shorter than the one updateScore sets |
| Game.Input | static/app/tetris.jsx:250-260 | only the pause flag and the lines can change, and the key is forwarded to the engine iff the game is running after the key |
| Game.InputForwardsIffRunning | static/app/tetris.jsx:250-260 | a key reaches the engine iff the game is unpaused after the key; only space flips pause (and publishes it first), only ] adds ten lines, and nothing else changes (identical in static/tetris.jsx:252-262) |
| Game.InputKeepsInv | static/tetris.jsx:256-258 | adding ten lines keeps the level within reach of the lines |
| Game.Frame | static/app/tetris.jsx:197-212 | a paused frame keeps the coordinator as it is and does not tick the engine; a running one ticks it and ends in the state the scoring of the cleared rows produces |
| Game.PausedFrameIsIdle | static/app/tetris.jsx:197-212 | a paused frame neither ticks the engine nor scores; it only requests the next frame unless stopping |
| Game.RunningFrameOrder | static/tetris.jsx:200-214 | a running frame ticks the engine first and redraws the board iff a piece froze; it draws the pieces last, then requests the next frame iff not stopping |
| Game.RunningFrameNotifies | static/app/tetris.jsx:197-212 | the scoring effects follow the tick in order; before the pieces are redrawn a "nextPiece" listener is called exactly when a piece froze, and a "holdPiece" listener exactly when a piece froze in the app variant (static/tetris.jsx:200-214 has no hold preview) |
| Game.PreviewsNotify | static/app/tetris.jsx:199-204 | the preview step calls a "nextPiece" listener exactly after a freeze and a "holdPiece" listener only in the app variant |
| Game.PublishedTo | static/app/tetris.jsx:162-166 | a publication calls a handler exactly when it is registered under the topic |
| Game.FramePushesLevelSpeed | static/app/tetris.jsx:238-244 | the only speed a frame pushes is the factor of its final level, and it is pushed exactly when the level changed |
| Game.FrameKeepsInv | static/app/tetris.jsx:197-207 | a frame keeps the coordinator invariant |
| System.ApplySpeeds | src/main.rs:40-46 | the coordinator's effects change nothing in the engine but its speed |
| System.ApplySameSpeed | src/main.rs:40-46 | when every pushed speed is the same factor, the engine ends at that factor's interval if it was pushed at all, and unchanged otherwise |
| System.Frame | static/app/tetris.jsx:197-212 | the coordinator sees the engine's tick report (nothing when paused); the engine is the ticked one (the old one when paused) apart from the speed the scoring pushes |
| System.Start | static/app/tetris.jsx:186-195 | after start the engine interval is 21 - level, for any level, and nothing else in the engine changes |
| System.KeyDown | static/app/tetris.jsx:250-260 | the coordinator reacts as input does; while running, the engine is exactly the one that received the key, whose queue gains that key's input (nothing for an unknown key); while paused the engine is unchanged |
| System.FrameSetsLevelSpeed | static/app/tetris.jsx:238-244 | after a frame that changed the level the engine interval is 21 - level, capped at level 20; otherwise the interval is unchanged, so an interval matching the level keeps matching |
| System.RunningFrameScores | static/app/tetris.jsx:199-200 | a running frame adds the table points for the rows the engine's tick cleared, times the level before the frame |
| System.FrameKeepsInv | static/app/tetris.jsx:197-212 | a frame keeps both invariants; a paused frame changes nothing; a running frame scores the engine's cleared rows at the old level |
| System.PausedKeysAreDropped | static/app/tetris.jsx:257-259 | while paused no key reaches the engine queue, and the pause key never does |
| System.KeyDownKeepsInv | static/tetris.jsx:252-262 | key presses keep both invariants and keep the engine interval matched to the level |

## Left out

- Drawing: canvas contexts, image loading, the background canvas, renderBackground, and the canvas sizes. `Game.Effect` only records that a redraw happens. The sprite choice and the draw order are modelled in `Sprites`.
- React components, ReactDOM, `init`, `loadBlocks`, and the `document` keydown registration in `start`. These are browser glue.
- `requestAnimationFrame` timing is left out. Only the request itself is an effect.
- Floats:
  - `fine_y`, `animate_lower` and the float offsets of `get_active_piece`, `get_next_piece` and `Piece::display` are left out. These are animation and preview geometry; the model's positions are integers.
  - Game.SpeedFactor: the factor is an exact rational, not a 64-bit float. For levels 1 to 20, `level / 20 * 20` rounds back to the level in floating point, so the engine speed agrees.
- Engine.SpeedFromFactor: the saturation of `as i32` for factors beyond the i32 range and the NaN case are not modelled; the coordinator only sends factors between 0.05 and 1, or level/20 at start.
- Engine.Tick: `speed` and `drop_timer` are unbounded integers. The i32 wrap of `drop_timer -= 1` cannot occur with the speeds the coordinator sends.
- Engine.GetDropPiece: returns integer points. The source adds `fine_y`, which it has just set to 0.0, so the values are the same.
- The random source is an index oracle. The conversion `(read_f64() * len) as usize` and the `random` crate are left out.
- `thread_local!` game state and the `js!` export glue: each exported function is modelled on an explicit `Tetris` value.
- `Tetris::set_speed` (src/main.rs:122-125) is never called; the exported `set_speed` assigns the field directly. It is not modelled.
- `get_hold_piece`: the app variant calls it from an engine build that is not part of this model. Only the "holdPiece" notification is modelled (`Game.Frame`).
- LineClear.ClearLines: requires a positive width. With width 0 the source loop never ends. The engine always uses a 10x20 board.
- Engine.Tick: requires a positive board width for the same reason; `System.Frame` passes the requirement on.
- Board.Land and Engine.GetDropPiece: when the active piece already collides, they keep the source's behaviour: freeze in place, or an empty shadow. Such a piece can arise after a clear shifts rows into it.
- `rotation` wraps modulo 2^32, as a release build on wasm32 does. A debug build would panic on the underflow at 0.
- `Cells::get` on an out-of-range storage index (`unwrap_or`) cannot happen on a valid board. The model reads such cells as empty, like the source.
- Game.UpdateScoreSpec: assumes fewer than 21474836480 lines, where `(lines / 10) | 0` is exact. `Game.ToInt32` models the operator itself for every value. The invariant lemmas make the same assumption. JavaScript's float precision for the score is not modelled.
- EventBus.Trigger: listeners are assumed not to throw. In the source `trigger` catches nothing, so a listener that throws skips the listeners registered after it and the exception leaves `trigger` (static/app/tetris.jsx:162-166, static/tetris.jsx:164-168). The model always delivers to every matching listener.
- Game.Frame: for the same reason, a frame always runs to its end. In the source a throwing listener escapes `updateScore`, `renderNextPiece` or `renderHoldPiece` and then `tick`, so the frame's remaining steps and its `requestAnimationFrame` call are skipped and the frame loop ends (static/app/tetris.jsx:197-212). The model requests the next frame whenever the game is not stopping.
- Sprites.DrawBlocks: a throw midway is a `Failure`. The rectangles drawn before the throw are not kept.
- `Point`: i32 coordinates are unbounded integers. Pieces only move down from the spawn row and sideways between the walls, so positions stay a few cells around the 10x20 board and an i32 overflow cannot occur.
- `stopped` and `inited` are set but never read by the modelled logic. They are not modelled.

## Notes on the code

- `updateScore` has a 1200-point branch for a four-line clear that follows another four-line clear. It assigns `wasTetris = false` before the four-line case tests `wasTetris`, so the branch never runs and every four-line clear scores 800 per level (static/app/tetris.jsx:228-229, static/tetris.jsx:230-231). The model keeps this:
  - `Game.FourLinesAlwaysScore800` shows that a four-line clear adds 800 per level whatever came before.
  - `Game.FourFourOneFourFromLevelFive` shows that clears of 4, 4, 1, 4 from 40 lines at level 5 add 12500 points.
- The `]` key adds ten lines without changing the level. The level catches up at the next non-zero clear, which is why the coordinator invariant is `level <= lines/10 + 1` and not an equality.
- `start` pushes `level / 20` without the cap that `updateScore` applies, so above level 20 the engine interval after `start` is `21 - level`, below 1 (`Game.StartSpeedAgainstScoring`, `System.Start`).
