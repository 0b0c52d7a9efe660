# tetris_engine in Dafny

A model of the C Tetris engine `tetris_engine` (src/engine.c and
include/engine.h), with proofs about it.

The engine keeps:

- a board ("game field") of `width * height` one-byte pixels, stored row by
  row with row 0 at the floor, where 0 means empty;
- an active piece: a size in [2, 4], a position (x, y) that may be negative,
  and a 16-cell buffer read as a 4 x 4 square;
- a next piece;
- a score capped at `maxScore`;
- a game status.

Every move lifts the active piece out of the board ("pop"), scans the cells
it would occupy, and writes it back ("push") at the new or the old position.
`tick` lets the piece fall one row. When it cannot fall, `tick` decides
whether the game is lost, clears full rows, adds the host's score addend in
unsigned 32-bit arithmetic, and promotes the next piece.

The model has six modules:

- `EngineTypes` holds the header's data model:
  - the pixel type and the unsigned 32-bit score type;
  - the piece buffer geometry;
  - the row-major addressing macro `flatArrayAs2D` (`FlatIndex`, and
    `BufferIndex` for the 4-wide piece buffer) with its range and
    injectivity lemmas;
  - the shape the host's generator must hand over;
  - the game status;
  - the result codes.
- `Board` holds the board as rows (`Grid`) and the value-level meaning of
  the engine's operations:
  - the boundary rule of `getGameFieldPixel`;
  - the write of `setPixel`;
  - the footprint written by push and erased by pop;
  - the scans of the moves and what they mean (`Fits`: every occupied cell
    lies between the walls, above the floor, and on an empty cell);
  - the field that `cleanLines` leaves behind.
- `FlatField` ties the flat array to the rows. It holds the `memmove` and
  `memset` of `cleanLines` as array methods.
- `Rotation` covers rotation:
  - the exact integer rotation targets;
  - the eight branches of the collision sweep, each with its loop directions;
  - the rotated buffer and its round trip.
- `Score` holds the wrapping 32-bit addition and the cap.
- `Engine` holds the class `Game`. The board and both piece buffers are
  arrays written in place, and every operation of src/engine.c is a method
  with the engine's loops. Each method is proved against the `Board`,
  `Rotation` and `Score` functions.

The model follows the code in these places:

- `startGame` places the first piece at `width / 2 - size / 2`.
- `tick` places every later piece at `width / 2 - 2`, whatever its size.
- `cleanLines` walks the rows from the top down and does not re-examine the
  row that moves into a cleared row's place. `Engine.Game.CleanLines` proves
  that this still removes exactly the rows that were full on entry, because
  every row above the one being examined is already non-full.
- The clockwise collision sweep does not always visit the target cell. For
  an occupied cell on the diagonal below the centre (sx == sy and
  2 * sx < size - 1), the branch the engine selects walks one cell of the
  source row and then an empty column loop.
  `Rotation.ClockwiseDiagonalSkipsTarget` characterises this, and
  `Rotation.ClockwiseCheckCanOverlap` gives a board and an I piece where
  `rotateClockwise` succeeds onto an occupied cell. The sweep against the
  clock always reaches its target (`Rotation.AgainstClockwiseTargetChecked`).

## Model

| member | source | states |
|---|---|---|
| EngineTypes.FlatIndexInRange | include/engine.h:67 | every cell of a width x height grid addresses a cell inside the flat array |
| EngineTypes.FlatIndexInjective | include/engine.h:67 | distinct cells of a row-major grid have distinct flat indices |
| EngineTypes.CoordinatesOfIndex | include/engine.h:67 | the cell's column and row are recovered from its flat index by remainder and quotient |
| EngineTypes.IndexCoordinates | include/engine.h:67 | every index of a width x height array belongs to exactly the cell (i % width, i / width) |
| EngineTypes.MoveResult.Code | include/engine.h:346-349 | a move or rotation reports 0 exactly when it was done, and 1 otherwise |
| EngineTypes.TickResult.Code | include/engine.h:399-404 | tick reports 0 (moved down), 1 (could not move down), 2 (maximum score) and 3 (lost), one code per outcome |
| Board.FieldPixel | src/engine.c:52-63 | inside the board the stored cell; directly above the board 0; left, right or below the board 1 |
| Board.GetAfterSet | src/engine.c:75-86 | after setPixel only the written cell reads the new value, and only when it is inside the board; every other read, including reads outside the board, is unchanged |
| Board.Pushed | src/engine.c:296-305 | each occupied cell of the piece's square holds the piece's pixel; every other cell is unchanged |
| Board.Popped | src/engine.c:314-322 | each occupied cell of the piece's square reads 0; every other cell is unchanged |
| Board.PushMerges | src/engine.c:296-305 | after a push the piece's footprint is present in the field |
| Board.PopPushRestores | src/engine.c:343-346 | pop followed by push with nothing in between gives back the field that held the footprint |
| Board.PushPopErases | src/engine.c:314-322 | popping after a push erases exactly what the push wrote |
| Board.AboveBoardNotMerged | src/engine.c:45-46 | a piece placed at y = height has no footprint in the board: push and pop change nothing |
| Board.BufferScanIsSquareScan | src/engine.c:100-111 | the 4 x 4 scan of canActiveTetrominoMoveDown answers the same as the size x size scan one row lower |
| Board.ShiftFreeIffFits | src/engine.c:499-514 | the scan of a move succeeds exactly when the displaced piece fits: within the walls, above the floor, on empty cells |
| Board.KeptRowsAreNonFull | src/engine.c:412-433 | kept and cleared rows together account for every row; every kept row is a non-full row of the field |
| Board.NonFullRowKept | src/engine.c:412-433 | every row that was not full survives cleanLines |
| Board.CleanedIsGrid | src/engine.c:412-433 | the cleaned field has the board's width and height |
| Board.NothingFullNothingCleaned | src/engine.c:412-433 | cleanLines reports 0 exactly when no row is full, and then the field is unchanged |
| Board.FullRowsCounts | src/engine.c:412-433 | the number of cleared lines is the number of full rows |
| Board.CleanedHasNoFullRow | src/engine.c:412-433 | no row of the cleaned field is full, so cleaning twice equals cleaning once |
| Board.KeptRowsStep | src/engine.c:414-431 | scanning one row either drops it (full) or keeps it in front of the rows above it |
| Board.CleanedAboveEnds | src/engine.c:412-433 | before the scan the field is unchanged; after scanning every row it is the cleaned field |
| Board.CleanedAboveStep | src/engine.c:422-430 | removing a full row at y (move rows above down, zero the top) advances the scan by one row |
| FlatField.GridOfAt | include/engine.h:254-261 | cell (x, y) of the board is array cell y * width + x |
| FlatField.GridOfInjective | include/engine.h:254-261 | two board arrays with the same rows are equal, so the row view covers every array cell |
| FlatField.GridOfUpdate | src/engine.c:85 | writing array cell y * width + x writes exactly board cell (x, y) |
| FlatField.GridOfRemoveRow | src/engine.c:424-428 | the memmove plus memset array is the board with row y removed and an empty row on top |
| FlatField.MoveCellsDown | src/engine.c:424-426 | memmove: the cells from `from + shift` move down by `shift`, and the last `shift` cells keep their values |
| FlatField.ZeroCellsFrom | src/engine.c:428 | memset: every cell from `from` on is 0, and the cells before it are unchanged |
| Rotation.TargetIsExactRotation | src/engine.c:126-135 | the engine's real-valued rotation lands exactly on the integer targets, so rounding changes nothing |
| Rotation.BranchTestsExact | src/engine.c:136-138 | the branch tests on the real relative coordinates agree with the integer tests the model uses |
| Rotation.TargetInSquare | src/engine.c:130-135 | a rotation target stays inside the piece's square |
| Rotation.TargetsInverse | src/engine.c:218-223 | the clockwise and the counter-clockwise target maps undo each other |
| Rotation.ClockwiseTargetChecked | src/engine.c:136-194 | away from the diagonal below the centre, a clear clockwise path includes a free target cell |
| Rotation.ClockwiseDiagonalSkipsTarget | src/engine.c:180-193 | on the diagonal below the centre the clockwise path is exactly the source cell; the target above it is not looked at |
| Rotation.AgainstClockwiseTargetChecked | src/engine.c:224-282 | every clear counter-clockwise path includes a free target cell |
| Rotation.RotatedMovesPixels | src/engine.c:354-364 | every source pixel lands unchanged on its target in the rotated buffer |
| Rotation.RotatedIsPieceBuffer | src/engine.c:352-368 | the rotated buffer is again empty outside the size x size square |
| Rotation.RotateRoundTrip | src/engine.c:349-403 | rotating clockwise and then against the clock (or the reverse) restores the buffer |
| Rotation.RotationFits | src/engine.c:125-199 | a rotation the check allows leaves every occupied cell within the walls, above the floor and on an empty cell, for pieces with no occupied cell on the lower diagonal when clockwise |
| Rotation.ClockwiseCheckCanOverlap | src/engine.c:180-193 | a 4 x 4 board whose only occupied cell is (0, 3) and an I piece in local row 0 at the origin: the clockwise check passes, but the rotated piece overlaps that cell |
| Score.ReachesMaxIffExceeds | src/engine.c:467-474 | the wrapped sum is below the score exactly on 32-bit overflow; the test fires exactly when the true sum exceeds maxScore |
| Score.ScoreAfterLock | src/engine.c:466-475 | the new score is maxScore when the true sum exceeds it and the true sum otherwise; it never decreases and never passes the cap |
| Score.ScoreAfterLocks | include/engine.h:241-253 | after any sequence of locks the score stays between its start and maxScore |
| Score.ScoreAfterLocksIsCappedTotal | include/engine.h:247-253 | after any sequence of locks the score is the true total capped at maxScore, so wrap-around never loses points |
| Engine.Game.constructor | src/engine.c:7-38 | initGame: an all-zero field, score 0, status init, three distinct fresh arrays |
| Engine.Game.GetGameFieldPixel | src/engine.c:52-63 | reading the flat array through the boundary rule gives the board value |
| Engine.Game.SetPixel | src/engine.c:75-86 | the board afterwards is the board with (x, y) written when it is inside, unchanged otherwise |
| Engine.Game.PushActiveTetrominoInfo | src/engine.c:296-305 | the board afterwards is the pushed board |
| Engine.Game.PopActiveTetrominoInfo | src/engine.c:314-322 | the board afterwards is the popped board |
| Engine.Game.StampActive | src/engine.c:297-304 | the row loop of push and pop writes the whole footprint |
| Engine.Game.StampRow | src/engine.c:298-303 | one row of the scan writes that row's occupied cells |
| Engine.Game.StampCell | src/engine.c:299-302 | one cell of the scan: an occupied cell is written through setPixel, an empty one is skipped |
| Engine.Game.CanActiveTetrominoMoveDown | src/engine.c:100-111 | true exactly when every occupied cell of the 4 x 4 buffer has a cell reading 0 below it |
| Engine.Game.CanActiveTetrominoShift | src/engine.c:501-510 | true exactly when every occupied cell has a cell reading 0 at offset dx |
| Engine.Game.IsActiveTetrominoInGameBoard | src/engine.c:447-458 | true exactly when no occupied cell is at row height or above |
| Engine.Game.ColumnClear | src/engine.c:141-145 | a checkY loop returns true exactly when every visited cell of the column reads 0 |
| Engine.Game.RowClear | src/engine.c:146-150 | a checkX loop returns true exactly when every visited cell of the row reads 0 |
| Engine.Game.SweepClear | src/engine.c:136-194 | the two loops of a branch of the given shape return true exactly when the path is clear |
| Engine.Game.ColumnThenRowClear | src/engine.c:141-150 | a column-then-row branch returns true exactly when both segments are clear |
| Engine.Game.RowThenColumnClear | src/engine.c:154-163 | a row-then-column branch returns true exactly when both segments are clear |
| Engine.Game.ClockwisePathClear | src/engine.c:130-194 | the clockwise branch selection and its loops return true exactly when the path of that cell is clear |
| Engine.Game.AgainstClockwisePathClear | src/engine.c:218-282 | the counter-clockwise branch selection and its loops return true exactly when the path of that cell is clear |
| Engine.Game.RowPathsClear | src/engine.c:128-196 | one source row returns true exactly when every occupied cell of it has a clear path |
| Engine.Game.CanActiveTetrominoRotate | src/engine.c:125-199 | canActiveTetrominoRotateClockwise and canActiveTetrominoRotateAgainstClockwise (lines 213-287) are true exactly when every occupied cell has a clear path |
| Engine.Game.MoveActiveTetrominoDown | src/engine.c:337-347 | moves exactly when the piece fits one row lower in the field without it; the footprint is back in the field either way, and a blocked move changes nothing |
| Engine.Game.Shift | src/engine.c:499-540 | the common body of moveLeft and moveRight: done exactly when the shifted piece fits; the footprint is in the field either way; blocked changes nothing |
| Engine.Game.MoveLeft | src/engine.c:499-514 | done (0) with x one less exactly when the piece fits one column to the left; blocked (1) leaves board and piece unchanged |
| Engine.Game.MoveRight | src/engine.c:525-540 | done (0) with x one more exactly when the piece fits one column to the right; blocked (1) leaves board and piece unchanged |
| Engine.Game.RotatedBuffer | src/engine.c:352-367 | the temporary buffer holds the rotation of the piece's buffer |
| Engine.Game.RotateRow | src/engine.c:355-366 | one source row of the write-back: the buffer advances from the rows before sy to the rows up to sy |
| Engine.Game.Rotate | src/engine.c:349-403 | done (0) exactly when the check passes in the field without the piece, with the buffer replaced by its rotation; blocked (1) changes nothing; position and size never change |
| Engine.Game.IsLineFull | src/engine.c:415-421 | true exactly when every cell of row y is occupied |
| Engine.Game.RemoveLine | src/engine.c:422-430 | the board afterwards is the board with row y removed and an empty row on top |
| Engine.Game.CleanLines | src/engine.c:412-433 | returns the number of rows full on entry and leaves the non-full rows in order with that many empty rows above |
| Engine.Game.WriteNext | include/engine.h:143-157 | the next buffer holds the generated shape's size and all 16 of its cells |
| Engine.Game.StartGame | src/engine.c:40-50 | the first shape becomes the active piece at x = width / 2 - size / 2, y = height; the second fills the old active buffer as the next piece; the status becomes play; the board is unchanged |
| Engine.Game.PromoteNext | src/engine.c:476-484 | the buffers swap roles; the next piece becomes active at x = width / 2 - 2, y = height; a new next piece is generated |
| Engine.Game.Lock | src/engine.c:462-485 | lost exactly when a cell is at row height or above; otherwise lines are cleared and, exactly when the true sum exceeds maxScore, the score is clamped and the game won; else the next piece is promoted. On a loss or a win, both piece buffers and the next piece's size stay as they were |
| Engine.Game.Tick | src/engine.c:460-488 | each of the four outcomes, with its exact condition and new state, including an unchanged next piece on every outcome but the promotion; the score never decreases, stays at most maxScore, and the footprint stays merged while playing |

## Left out

- initGame's allocation failure (returning NULL) and freeGame are not modelled. In Dafny allocation cannot fail, and memory is not released.
- The floating-point arithmetic of the rotation code is replaced by exact integer targets and integer branch tests. Rotation.TargetIsExactRotation and Rotation.BranchTestsExact prove that the two agree.
- `int8_t` widths: coordinates are unbounded integers, and the board is assumed to be 4 to 120 cells wide and high. Within these bounds every `int8_t` value the engine computes stays in range.
- initGame's `int32_t maxScore` is stored as `uint32_t`. The model takes maxScore as an unsigned 32-bit value, so the conversion of a negative argument is not modelled.
- The host callbacks are parameters:
  - The shape generator's output is a `Shape` that satisfies the header's contract (size 2 to 4, buffer empty outside the square, anchored at (0, 0)).
  - The score rule is a function from the number of cleared lines to an unsigned 32-bit addend.
  - A generator that breaks its contract is not modelled.
- The buffers swap by exchanging array references, as the engine exchanges pointers. Aliasing with arrays the host keeps is not modelled.
- The piece buffers that malloc leaves uninitialised before startGame are zero-filled by the constructor. Their content is never read before startGame.
- Thread safety and the non-atomic pixel type are not modelled.
- The Windows GDI example program is not part of this model.
- Rotation.RotationFits: for clockwise rotation it is stated only for pieces with no occupied cell on the diagonal below the centre. The engine's clockwise check does not look at those cells' targets, and Rotation.ClockwiseCheckCanOverlap shows the unrestricted statement is false.
