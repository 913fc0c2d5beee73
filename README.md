# Tetris board engine

This project models the board engine of a small Tetris game written with
pygame, and proves properties of that model. The engine covers:

- the 20 x 10 colour grid rebuilt from the dictionary of locked cells;
- the piece geometry, which turns a shape, a rotation index and an anchor
  into absolute (column, row) cells;
- the collision test and the shadow projection;
- row clearing, which deletes full rows and compacts the cells above them;
- the loss test;
- the discrete steps of one frame of the game loop: gravity, the left,
  right, down and up keys with their roll-back, painting the shadow and the
  piece, locking the piece, scoring and the loss test.

Modules, in dependency order:

| file | module | contents |
|---|---|---|
| shapes.dfy | `Shapes` | colours, rotation patterns, the shape catalogue passed in as a value, `list.index` |
| geometry.dfy | `Geometry` | `convert_shape_format` and what its cells are |
| board.dfy | `Board` | `create_grid`, `valid_space`, the shadow row, painting cells, `check_lost` |
| lineclear.dfy | `LineClear` | `clear_rows`: its specification (full rows, shifts, compaction) and its two loops as methods |
| piece.dfy | `Pieces` | the mutable `Piece` class, `get_shape`, `get_shadow` |
| session.dfy | `Session` | the game state of `main` as a `Game` class and the steps of a frame |

The source is mixed in form, and the model follows it:

- The comprehension-style functions (`create_grid`, `convert_shape_format`,
  `valid_space`) are Dafny functions with lemmas about them.
- Loops that change variables are methods, each proved against a
  specification function: `get_shadow`, `check_lost`, the two loops of
  `clear_rows`, the painting loops and the lock loop.
- `Piece` is a class whose `x`, `y`, `rotation` and `color` fields are
  assigned in place.
- The state of `main` (locked cells, current and next piece, lock flag,
  fast-fall flag, score) is the class `Session.Game`. Each method's
  `modifies` clause names only what the source assigns in that step: the
  key handlers change only the current piece's column and rotation index
  and the fast-fall flag.

The `clear_rows` result is specified by `LineClear.IsCompaction`. Each survivor
`(x, y)` moves to `(x, y + n)`, where `n` is the number of cleared rows with a
larger index than `y`. Keys are processed bottom row first. When two
survivors land on one key, the one processed last wins, which is the one
highest on the board. `LineClear.CompactionUnique` shows that this determines
the resulting map. A collision needs a survivor inside a cleared row, which
can only be a key outside columns 0..9. `LineClear.CompactionMovesEverySurvivor`
shows that when no survivor lies in a cleared row, every survivor moves with
its colour and the number of keys is kept.

Where the behaviour described for the game and the code differ, the model
follows the code:

- **Rotation step.** The up key computes `rotation + 1 % len(shape)`, which
  is `rotation + (1 % len(shape))`. The index grows by 1, or by 0 for a shape
  with one rotation state. It is never wrapped, and only the lookup
  `shape[rotation % len(shape)]` reduces it.
- **Shadow range.** The shadow search tries anchor rows 22 down to 0, rather
  than stopping at the last board row 19. The anchor row is 4 more than the
  row of the pattern's top line, so an anchor row above 19 can still place
  every cell on the board.
- **Cells above cleared rows.** Locked cells above cleared rows move down by
  the number of cleared rows below them. They do not stay where they were.
- **Collision test.** `valid_space` tests the grid's colour at a cell, not the
  locked dictionary. A cell at row -1 or above the board passes with any
  column.
- **Painted grid.** `clear_rows` receives the grid after the shadow and the
  piece were painted onto it, so a shadow cell counts as filled
  (`Session.PaintedRowFull`).
- **Crashes.** No shadow, or a paint write outside the grid, raises an
  exception in the source. `Session.Outcome.Crashed` stands for that.

## Model

| member | source | states |
|---|---|---|
| Shapes.IndexOf | piece.py:10 | the index is the first position of the shape in the catalogue |
| Shapes.ShapeColor | piece.py:10 | a shape's colour is the catalogue colour at the first position holding that shape |
| Geometry.Format | main.py:46 | the rotation state in use, `shape[rotation % len(shape)]`; Geometry.RotationIndexWraps shows that only the residue matters |
| Geometry.LinePositions | main.py:49-52 | the raw cells of one pattern line, left to right; its meaning is stated by Geometry.LinePositionsSound, Geometry.LinePositionsComplete and Geometry.LinePositionsIncreasing |
| Geometry.LinePositionsSound | main.py:48-52 | every cell from a pattern line comes from a '0' at index column - x, on that line's row |
| Geometry.LinePositionsComplete | main.py:48-52 | every '0' of a line at index j gives the cell (x + j, y) |
| Geometry.LinePositionsIncreasing | main.py:48-52 | the cells of one line are listed with strictly increasing columns |
| Geometry.FormatPositions | main.py:48-52 | the first loop of convert_shape_format: the raw cells of a pattern, line by line from the top; its meaning is stated by Geometry.FormatPositionsSound, Geometry.FormatPositionsComplete, Geometry.FormatPositionsDistinct and Geometry.FormatPositionsCount |
| Geometry.FormatPositionsSound | main.py:48-52 | every raw cell (c0, c1) is a '0' at line c1 - y, index c0 - x of the pattern |
| Geometry.FormatPositionsComplete | main.py:48-52 | every '0' at line i, index j gives the raw cell (x + j, y + i) |
| Geometry.FormatPositionsDistinct | main.py:48-52 | no raw cell is produced twice |
| Geometry.FormatPositionsCount | main.py:48-52 | there are exactly as many raw cells as '0' characters |
| Geometry.Offset | main.py:54-55 | the second loop of convert_shape_format: each raw cell moved by (-2, -4); Geometry.ConvertShapeFormatInTwoSteps relates it to the folded form |
| Geometry.ConvertShapeFormatInTwoSteps | main.py:44-57 | folding the offset into the anchor gives the same list as the two loops: raw cells, then each moved by (-2, -4) |
| Geometry.ConvertShapeFormatCount | main.py:44-57 | one cell per '0' of `shape[rotation % len(shape)]`, none twice |
| Geometry.ConvertShapeFormatCovers | main.py:46-55 | the '0' at line i, index j covers (x + j - 2, y + i - 4) |
| Geometry.ConvertShapeFormatOnlyFilled | main.py:46-55 | every covered cell comes from a '0' of the rotation state in use |
| Geometry.ConvertShapeFormat | main.py:44-57 | the cells of a piece: each '0' of `shape[rotation % len(shape)]`, line by line, moved by (-2, -4); its meaning is stated by the ConvertShapeFormat lemmas above |
| Geometry.RotationIndexWraps | main.py:46 | an unwrapped rotation index and its value modulo the number of states cover the same cells |
| Board.CreateGrid | main.py:10-20 | the grid has 20 rows of 10 colours |
| Board.GridCells | main.py:10-20 | reads the non-black cells of a grid back as a map from (column, row) to colour, the inverse view of create_grid |
| Board.CreateGridShowsLocked | main.py:10-20 | reading back the grid built from the locked cells gives exactly the locked keys on the board whose colour is not black, with their colours |
| Board.CreateGridIgnoresOffBoard | main.py:13-18 | keys outside the 20 x 10 board do not affect the grid |
| Board.AcceptedPositions | main.py:72-73 | the flattened accepted_positions list, as a set of (column, row); its meaning is stated by Board.AcceptedIffFree |
| Board.AcceptedIffFree | main.py:72-73 | a cell is in the flattened accepted list exactly when it is an in-board cell of black colour |
| Board.ValidSpace | main.py:71-81 | valid_space over a list of cells: each cell is accepted or has row <= -1; its meaning is stated by Board.ValidSpaceMeans |
| Board.ValidSpaceMeans | main.py:71-81 | valid_space holds exactly when every cell has row <= -1 or is a free board cell |
| Board.Fits | main.py:71-81 | valid_space of a piece: ValidSpace of the piece's cells; its meaning is stated by Board.FitsIffPattern |
| Board.FitsIffPattern | main.py:44-81 | a piece fits exactly when every '0' of its rotation state lands at row <= -1 or on a free board cell (x + j - 2, y + i - 4) |
| Board.ShadowRow | main.py:60-68 | the row the shadow search returns: the first of 22 down to 0 where the piece fits, or none; its meaning is stated by Board.ShadowRowSpec |
| Board.ShadowRowSpec | main.py:60-68 | the shadow row is the largest row in 0..22 at which the piece fits; there is none exactly when it fits at no such row |
| Board.Paintable | main.py:268-276 | a cell list paints without IndexError: every cell with row > -1 has row < 20 and column in -10..9 |
| Board.ColumnIndex | main.py:271-276 | the column Python's `grid[y][x]` writes for a negative x, counted from the end of the row; used by Board.PaintCells and Session.PaintedGrid, and Board.ValidCellsPaintInBoard shows that cells passing valid_space never wrap |
| Board.PaintCells | main.py:268-276 | every cell with row > -1 is written in the colour; the result is false exactly when a write would raise IndexError; negative columns wrap as Python indexes |
| Board.ValidCellsPaintInBoard | main.py:71-81 | cells that pass valid_space paint without IndexError and without a wrapped column |
| Board.CheckLost | main.py:84-89 | true exactly when some locked key has row < 1 |
| LineClear.FullRows | main.py:125-132 | the rows clear_rows records, bottom row first; its meaning is stated by LineClear.FullRowsFromSpec |
| LineClear.IsFull | main.py:130 | the row test `(0, 0, 0) not in row`; Session.PaintedRowFull states what it means on the painted grid |
| LineClear.FullRowsFromSpec | main.py:128-132 | the recorded rows are exactly the rows with no black cell, each once, bottom row first |
| LineClear.FullRowsCount | main.py:125-132 | the count is the number of rows with no black cell |
| LineClear.Shift | main.py:142-146 | y_delta of a key at row y; its meaning is stated by LineClear.ShiftCountsRowsBelow |
| LineClear.ShiftCountsRowsBelow | main.py:142-146 | y_delta is the number of distinct cleared rows with a larger index than y |
| LineClear.Rekey | main.py:143-148 | the key a surviving key moves to, `(x, y + y_delta)`; its meaning is stated by LineClear.RekeyKeepsOrder and LineClear.RekeyInjective |
| LineClear.RekeyKeepsOrder | main.py:139-149 | within a column, keys outside cleared rows keep their top-to-bottom order |
| LineClear.RekeyInjective | main.py:139-149 | two keys outside cleared rows never move to the same key |
| LineClear.IsCompaction | main.py:139-149 | the specification of the re-keying loop: the keys are exactly the moved keys, and each holds the colour of the key moved there with the smallest row index, the one highest on the board |
| LineClear.CompactionUnique | main.py:139-149 | the compaction specification determines the resulting map |
| LineClear.CompactionWithoutRows | main.py:139-150 | with no cleared rows the compaction is the map itself |
| LineClear.NoFullRowsNoChange | main.py:125-150 | if no row is full, no row is recorded and the locked map is unchanged |
| LineClear.CompactionMovesEverySurvivor | main.py:139-149 | with no survivor in a cleared row, each survivor (x, y) is at (x, y + shift) with its colour, and the key count is kept |
| LineClear.Survivors | main.py:128-137 | the locked map after the deletion loop: the keys at columns 0..9 of the recorded rows removed |
| LineClear.SurvivorsOfBoardKeys | main.py:128-137 | for keys with board columns, deletion removes exactly the keys in full rows |
| LineClear.SurvivorsSnoc | main.py:128-137 | recording one more full row deletes columns 0..9 of that row |
| LineClear.WithoutRow | main.py:133-137 | the map without row i at columns 0..9; LineClear.DeleteRowIsWithoutRow shows the deletion loop computes it |
| LineClear.DeleteRow | main.py:133-137 | the keys (j, i) with j in 0..9 are removed and the other entries are kept, whether or not the keys were present |
| LineClear.DeleteRowIsWithoutRow | main.py:133-137 | the deletion loop leaves exactly the map without row i at columns 0..9 |
| LineClear.DeleteFullRows | main.py:126-137 | the recorded rows are the full rows, bottom first, and the map keeps exactly the survivors |
| LineClear.CountRowsBelow | main.py:142-146 | the counting loop returns the number of cleared rows below y |
| LineClear.RekeyStep | main.py:141-149 | moving the unprocessed key of largest row keeps the re-keying invariant |
| LineClear.RekeyDone | main.py:141-149 | once every key is processed, the map is the compaction |
| LineClear.MoveRowsDown | main.py:139-149 | the re-keying loop's result is the compaction of the survivors |
| Pieces.Piece.constructor | piece.py:6-11 | x and y are the given column and row, the shape is stored, the colour is the one at the shape's first catalogue position, the rotation index is 0 |
| Pieces.Piece.Positions | main.py:44-57 | convert_shape_format(piece): ConvertShapeFormat of the piece's shape, rotation index and anchor |
| Pieces.Piece.Copy | main.py:61 | the copy has the same anchor, shape, colour and rotation index |
| Pieces.GetShape | main.py:23-24 | a fresh piece of the chosen shape at column 5, row 0, rotation 0, in the shape's colour |
| Pieces.GetShadow | main.py:60-68 | null exactly when the piece fits at no row of 0..22, else a fresh grey copy at the largest row where it fits; the piece itself is not modified |
| Session.Stamp | main.py:280-282 | locked_positions after the lock loop, which stores each cell of the piece in turn |
| Session.StampStoresEveryCell | main.py:280-282 | locking stores every cell of the piece, rows above the board included, in its colour, and keeps every other key |
| Session.StampCells | main.py:280-282 | the lock loop's result is the stamped map |
| Session.PaintedGrid | main.py:268-276 | the grid after painting: piece colour where a piece cell with row > -1 lands, else shadow colour where a shadow cell lands, else the grid's colour |
| Session.Render | main.py:268-276 | painting fails exactly when one of the two cell lists is not paintable; otherwise the result is the painted grid, the piece over the shadow over the grid |
| Session.PaintedRowFull | main.py:268-286 | for a piece colour and a shadow colour other than black, a painted row counts as full exactly when each cell is covered by the piece, the shadow or a non-black grid colour |
| Session.Lands | main.py:221-224 | gravity locks the piece: one row down it does not fit, and that row's index is greater than 0 |
| Session.KeyEffect | main.py:238-262 | the pose after one key: left and right move the column by one, up adds `1 % len(shape)` to the rotation index, each kept only when the piece then fits |
| Session.KeyEffectFitsOrStays | main.py:238-262 | a key either leaves the pose alone or moves it to the pose that key tries, and the piece fits there |
| Session.EventEffect | main.py:232-263 | a key event acts as its key; any other event leaves the pose alone |
| Session.EventsEffect | main.py:232-263 | the pose after a list of events, handled in order |
| Session.EventsEffectFitsOrStays | main.py:232-263 | after any list of events the pose is the starting one, or the piece fits at it |
| Session.EventsEffectSnoc | main.py:232-263 | handling one more event applies that event to the pose reached so far |
| Session.UntilQuit | main.py:232-236 | the events a frame handles: those before the first quit event |
| Session.UntilQuitPrefix | main.py:232-236 | when the first k events are not quit events and the next is a quit event or there is none, exactly those k are handled |
| Session.Game.constructor | main.py:187-200 | no locked cells, score 0, flags off, two fresh pieces of the chosen shapes at column 5, row 0, rotation 0, each in its shape's colour |
| Session.Game.Gravity | main.py:219-224 | the row grows by 1 unless the piece lands, in which case the row is kept and the lock flag is set; otherwise the flag is unchanged |
| Session.Game.Slide | main.py:239-246 | the column moves by dx when the moved piece fits, and is otherwise exactly as before |
| Session.Game.Rotate | main.py:259-262 | the index grows by `1 % len(shape)` when the rotated piece fits, and is otherwise exactly as before; an accepted rotation of a multi-state shape adds exactly 1 |
| Session.Game.ClearRows | main.py:125-150 | returns the number of full rows and leaves the compaction of the survivors; with no full row the map is unchanged |
| Session.Game.LockPiece | main.py:278-286 | the cells of the current piece are stored in its colour; the next piece becomes current; a fresh piece of the chosen shape and its colour is queued at the spawn anchor; the flags are cleared; the score grows by 10 per full row; the locked map is the compaction of the survivors |
| Session.Game.HandleKey | main.py:238-262 | left and right move the column by one and up adds `1 % len(shape)` to the rotation index, each rolled back when the piece does not fit; the pose is KeyEffect's; down turns on the fast fall, nothing else changes |
| Session.Game.HandleEvent | main.py:232-263 | quit exactly on a quit event; the pose is EventEffect's; a down key turns on the fast fall; after a key the shadow matches the piece; the row does not change |
| Session.Game.HandleEvents | main.py:231-263 | quit exactly when the events contain a quit event; the pose is EventsEffect over the events before it; the fast fall is on exactly when it was or a down key came before the quit; the shadow matches the piece; the row does not change |
| Session.Game.Advance | main.py:215-263 | the grid is rebuilt from the locked cells; gravity moves the piece down one row or lands it and sets the lock flag; the events then act as EventsEffect says, with the shadow matching the piece |
| Session.Game.Settle | main.py:265-297 | a missing shadow or an unpaintable cell list crashes; otherwise the grid is painted, a piece with the lock flag set is locked on the painted grid with the score growing by 10 per full row, and a state without a lock is unchanged; game over only with a locked key at row < 1, running only when none is |
| Session.Game.Tick | main.py:215-297 | whole-frame effect: quit exactly on a quit event; the pose after gravity and the events; the shadow row is ShadowRow's and the frame crashes exactly when it is missing or a write fails; the painted grid; the piece locks exactly when the lock flag was set or gravity landed it, storing its cells, queueing the chosen shape and clearing the full rows of the painted grid; otherwise only the pose and the flags change; 10 points per cleared row; game over and running decided by the locked keys |
| Session.Game.Play | main.py:203-299 | the final score is the game's score and is the starting score plus 10 per cleared row; game over only with a locked key at row < 1; running after at least one frame only when every locked key has row >= 1; quit only when some frame had a quit event |

## Left out

- Rendering and UI are left out: fonts, windows, drawing the grid and the next shape, and the display calls. They are pygame I/O. The painted grid is modelled; drawing it is not.
- Timing, levels and fall speed (main.py:204-229) are left out because they use a wall clock and floating-point speeds. Whether the fall timer fired is an input of each frame. The fast-fall flag is kept as state, but its effect on the fall speed is not modelled.
- `random.choice` in `get_shape` is left out. The chosen shape index is a parameter.
- The high-score file (`update_score`, `max_score`) is left out because it is file I/O.
- shapes.py and config.py are not part of this model. The shapes and their colours are a `Catalog` value given to the game. Its only assumptions are at least one shape, one colour per shape, and at least one rotation state per shape.
- The quit event is the outcome `Quit`. `pygame.display.quit()` and `quit()` are not modelled further.
- The event queue of a frame is a finite input sequence. The game loop is modelled over a finite sequence of frames.
- Dictionary iteration order is left out. `check_lost` picks keys in any order, and the result does not depend on it. The re-keying loop of `clear_rows` takes any key of the largest remaining row. The source visits the keys of one row in reverse insertion order (a stable sort by row, then reversed), which cannot change the result: keys of one row move by the same amount and never collide.
- Session.Game.Play: states the score through the count of cleared rows and the final outcome through the locked keys and the events; it does not restate each frame's locking and clearing, which Session.Game.Tick states.
