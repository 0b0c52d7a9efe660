/** The engine object: the field and the two piece buffers are arrays written
    in place, the active piece's position, size, the score and the status
    are fields updated by the operations. The host's callbacks are
    parameters: the shape generator's output is a Shape value, the score
    rule a function from the number of cleared rows to an unsigned 32-bit
    addend. */
module Engine {
  import opened EngineTypes
  import opened Board
  import opened Rotation
  import opened FlatField
  import opened Score

  class Game {
    const width: int
    const height: int
    const maxScore: Uint32
    /** width * height cells, row-major, row 0 at the floor. */
    const gameField: array<Pixel>

    var activeSize: int
    var activeX: int
    var activeY: int
    /** The active piece's 16-cell buffer, addressed 4 cells wide. */
    var activePixels: array<Pixel>

    var nextSize: int
    var nextPixels: array<Pixel>

    var score: Uint32
    var status: GameStatus

    /** The layout every operation relies on: board bounds, buffer lengths,
        three distinct arrays, and the score cap. */
    ghost predicate Ready()
      reads this
    {
      && TetrominoMaxSize <= width <= 120 && TetrominoMaxSize <= height <= 120
      && gameField.Length == width * height
      && activePixels.Length == TetrominoArrayMaxSize && nextPixels.Length == TetrominoArrayMaxSize
      && gameField != activePixels && gameField != nextPixels && activePixels != nextPixels
      && score <= maxScore
    }

    /** The field as rows of cells. */
    ghost function Field(): (g: Grid)
      reads this, gameField
      requires Ready()
      ensures IsGrid(g, width, height)
    {
      GridOf(gameField[..], width, height)
    }

    /** The active piece as a value. */
    ghost function Active(): Piece
      reads this, activePixels
    {
      Piece(activeSize, activeX, activeY, activePixels[..])
    }

    /** Once a game has started both buffers hold pieces, and while it is
        being played the active piece's footprint is written in the field. */
    ghost predicate Valid()
      reads this, gameField, activePixels, nextPixels
    {
      && Ready()
      && (status != InitGameStatus ==> PieceBuffer(activeSize, activePixels[..]) && PieceBuffer(nextSize, nextPixels[..]))
      && (status == PlayGameStatus ==> Merged(Field(), Active()))
    }

    /** initGame, with allocation always succeeding: an empty field (calloc),
        score 0, status initGameStatus. The piece buffers are not read
        before startGame fills them. */
    constructor (width: int, height: int, maxScore: Uint32)
      requires TetrominoMaxSize <= width <= 120 && TetrominoMaxSize <= height <= 120
      ensures Valid() && fresh(gameField) && fresh(activePixels) && fresh(nextPixels)
      ensures this.width == width && this.height == height && this.maxScore == maxScore
      ensures Field() == ZeroRows(height, width)
      ensures score == 0 && status == InitGameStatus
    {
      this.width := width;
      this.height := height;
      this.maxScore := maxScore;
      gameField := new Pixel[width * height](_ => 0);
      activePixels := new Pixel[TetrominoArrayMaxSize](_ => 0);
      nextPixels := new Pixel[TetrominoArrayMaxSize](_ => 0);
      activeSize, activeX, activeY, nextSize := 0, 0, 0, 0;
      score := 0;
      status := InitGameStatus;
      new;
      forall y | 0 <= y < height ensures Field()[y] == ZeroRow(width) {
        forall x | 0 <= x < width ensures Field()[y][x] == 0 {
          GridOfAt(gameField[..], width, height, x, y);
        }
      }
    }

    // ----- board access -----

    /** getGameFieldPixel: the boundary rule applied to the stored field. */
    function GetGameFieldPixel(x: int, y: int): (p: Pixel)
      reads this, gameField
      requires Ready()
      ensures p == FieldPixel(Field(), width, height, x, y)
    {
      if x < 0 || x >= width then 1
      else if y < 0 then 1
      else if y >= height then 0
      else
        GridOfAt(gameField[..], width, height, x, y);
        gameField[FlatIndex(x, y, width)]
    }

    /** setPixel: writes the cell when it is inside the board, and nothing otherwise. */
    method SetPixel(pixel: Pixel, x: int, y: int)
      requires Ready()
      modifies gameField
      ensures Field() == SetCell(old(Field()), width, height, x, y, pixel)
    {
      if x < 0 || x >= width {
        return;
      }
      if y < 0 {
        return;
      }
      if y >= height {
        return;
      }
      GridOfUpdate(gameField[..], width, height, x, y, pixel);
      gameField[FlatIndex(x, y, width)] := pixel;
    }

    // ----- footprint of the active piece -----

    /** pushActiveTetrominoInfo: writes every occupied cell of the piece's
        square into the field through setPixel. */
    method PushActiveTetrominoInfo()
      requires Ready() && 2 <= activeSize <= TetrominoMaxSize
      modifies gameField
      ensures Field() == Pushed(old(Field()), Active())
    {
      StampActive(false);
    }

    /** popActiveTetrominoInfo: writes 0 into every occupied cell of the
        piece's square through setPixel. */
    method PopActiveTetrominoInfo()
      requires Ready() && 2 <= activeSize <= TetrominoMaxSize
      modifies gameField
      ensures Field() == Popped(old(Field()), Active())
    {
      StampActive(true);
    }

    /** The scan push and pop share: rows of the square from 0 up, cells of
        a row from 0 right, each occupied cell written with its pixel
        (push) or 0 (pop). */
    method StampActive(erase: bool)
      requires Ready() && 2 <= activeSize <= TetrominoMaxSize
      modifies gameField
      ensures Field() == Stamped(old(Field()), Active(), erase, activeSize, 0)
    {
      ghost var g0 := Field();
      ghost var p := Active();
      StampStart(g0, p, erase);
      var y := 0;
      while y < activeSize
        invariant 0 <= y <= activeSize
        invariant Field() == Stamped(g0, p, erase, y, 0)
      {
        StampRow(g0, p, erase, y);
        StampNextRow(g0, p, erase, y);
        y := y + 1;
      }
    }

    /** One row of the push/pop scan: each occupied cell is written
        through setPixel with its pixel (push) or 0 (pop). */
    method StampRow(ghost g0: Grid, ghost p: Piece, erase: bool, y: int)
      requires Ready() && p == Active() && IsGrid(g0, width, height)
      requires 0 <= y < activeSize <= TetrominoMaxSize
      requires Field() == Stamped(g0, p, erase, y, 0)
      modifies gameField
      ensures Field() == Stamped(g0, p, erase, y, activeSize)
    {
      var x := 0;
      while x < activeSize
        invariant 0 <= x <= activeSize
        invariant Field() == Stamped(g0, p, erase, y, x)
      {
        StampCell(g0, p, erase, x, y);
        x := x + 1;
      }
    }

    /** One cell of the push/pop scan. */
    method StampCell(ghost g0: Grid, ghost p: Piece, erase: bool, x: int, y: int)
      requires Ready() && p == Active() && IsGrid(g0, width, height)
      requires 0 <= x < activeSize <= TetrominoMaxSize && 0 <= y < activeSize
      requires Field() == Stamped(g0, p, erase, y, x)
      modifies gameField
      ensures Field() == Stamped(g0, p, erase, y, x + 1)
    {
      ghost var cur := Field();
      var pixel := activePixels[BufferIndex(x, y)];
      assert pixel == LocalPixel(p, x, y);
      if pixel != 0 {
        var v: Pixel := if erase then 0 else pixel;
        StampStep(g0, width, height, p, erase, x, y);
        SetPixel(v, activeX + x, activeY + y);
        assert Field() == SetCell(cur, width, height, p.x + x, p.y + y, v);
      } else {
        StampSkip(g0, p, erase, x, y);
      }
    }

    // ----- read-only collision scans -----

    /** canActiveTetrominoMoveDown: every occupied cell of the whole 4 x 4
        buffer has a cell reading 0 directly below it. */
    method CanActiveTetrominoMoveDown() returns (r: bool)
      requires Ready()
      ensures r <==> BufferDownFree(Field(), width, height, Active())
    {
      ghost var g, p := Field(), Active();
      var y := 0;
      while y < TetrominoMaxSize
        invariant 0 <= y <= TetrominoMaxSize
        invariant forall ly, lx :: 0 <= ly < y && 0 <= lx < TetrominoMaxSize && p.pixels[BufferIndex(lx, ly)] != 0 ==>
          FieldPixel(g, width, height, p.x + lx, p.y + ly - 1) == 0
      {
        var x := 0;
        while x < TetrominoMaxSize
          invariant 0 <= x <= TetrominoMaxSize
          invariant forall ly, lx :: ScannedBefore(lx, ly, y, x) && 0 <= ly && 0 <= lx < TetrominoMaxSize && p.pixels[BufferIndex(lx, ly)] != 0 ==>
            FieldPixel(g, width, height, p.x + lx, p.y + ly - 1) == 0
        {
          if activePixels[BufferIndex(x, y)] != 0 {
            if GetGameFieldPixel(activeX + x, activeY + y - 1) != 0 {
              return false;
            }
          }
          x := x + 1;
        }
        y := y + 1;
      }
      return true;
    }

    /** The scan of moveLeft (dx = -1) and moveRight (dx = 1): every occupied
        cell of the piece's square has a cell reading 0 beside it. */
    method CanActiveTetrominoShift(dx: int) returns (r: bool)
      requires Ready() && 2 <= activeSize <= TetrominoMaxSize
      ensures r <==> ShiftFree(Field(), width, height, Active(), dx, 0)
    {
      var y := 0;
      while y < activeSize
        invariant 0 <= y <= activeSize
        invariant forall ly, lx :: 0 <= ly < y && 0 <= lx < activeSize && LocalPixel(Active(), lx, ly) != 0 ==>
          FieldPixel(Field(), width, height, activeX + lx + dx, activeY + ly + 0) == 0
      {
        var x := 0;
        while x < activeSize
          invariant 0 <= x <= activeSize
          invariant forall ly, lx :: ScannedBefore(lx, ly, y, x) && 0 <= ly && 0 <= lx < activeSize && LocalPixel(Active(), lx, ly) != 0 ==>
            FieldPixel(Field(), width, height, activeX + lx + dx, activeY + ly + 0) == 0
        {
          if activePixels[BufferIndex(x, y)] != 0 {
            assert LocalPixel(Active(), x, y) != 0;
            if GetGameFieldPixel(activeX + x + dx, activeY + y + 0) != 0 {
              return false;
            }
          }
          x := x + 1;
        }
        y := y + 1;
      }
      return true;
    }

    /** isActiveTetrominoInGameBoard: rows of the square from the top down;
        false as soon as an occupied cell is at row height or above. */
    method IsActiveTetrominoInGameBoard() returns (r: bool)
      requires Ready() && 2 <= activeSize <= TetrominoMaxSize
      ensures r <==> InsideTop(Active(), height)
    {
      var y := activeSize - 1;
      while y >= 0
        invariant -1 <= y < activeSize
        invariant forall ly, lx :: y < ly < activeSize && 0 <= lx < activeSize && LocalPixel(Active(), lx, ly) != 0 ==> activeY + ly < height
      {
        var x := 0;
        while x < activeSize
          invariant 0 <= x <= activeSize
          invariant forall ly, lx :: y < ly < activeSize && 0 <= lx < activeSize && LocalPixel(Active(), lx, ly) != 0 ==> activeY + ly < height
          invariant forall lx :: 0 <= lx < x && LocalPixel(Active(), lx, y) != 0 ==> activeY + y < height
        {
          if activePixels[BufferIndex(x, y)] != 0 {
            assert LocalPixel(Active(), x, y) != 0;
            if activeY + y >= height {
              return false;
            }
          }
          x := x + 1;
        }
        y := y - 1;
      }
      return true;
    }

    /** A checkY loop of the rotation checks: column activeX + lx, local rows
        from `first` to `last`, counting down or up; false at the first cell
        that does not read 0. */
    method ColumnClear(lx: int, first: int, last: int, down: bool) returns (clear: bool)
      requires Ready()
      ensures clear <==> ColumnFree(Field(), width, height, activeX + lx, activeY + Lo(first, last, down), activeY + Hi(first, last, down))
    {
      ghost var g, ax, ay := Field(), activeX, activeY;
      var c := first;
      if down {
        while c >= last
          invariant c <= first && (c >= last - 1 || c == first)
          invariant ColumnFree(g, width, height, ax + lx, ay + c + 1, ay + first)
          decreases c - last
        {
          if GetGameFieldPixel(activeX + lx, activeY + c) != 0 {
            return false;
          }
          c := c - 1;
        }
      } else {
        while c <= last
          invariant c >= first && (c <= last + 1 || c == first)
          invariant ColumnFree(g, width, height, ax + lx, ay + first, ay + c - 1)
          decreases last - c
        {
          if GetGameFieldPixel(activeX + lx, activeY + c) != 0 {
            return false;
          }
          c := c + 1;
        }
      }
      return true;
    }

    /** A checkX loop of the rotation checks: row activeY + ly, local columns
        from `first` to `last`, counting down or up. */
    method RowClear(ly: int, first: int, last: int, down: bool) returns (clear: bool)
      requires Ready()
      ensures clear <==> RowFree(Field(), width, height, activeY + ly, activeX + Lo(first, last, down), activeX + Hi(first, last, down))
    {
      ghost var g, ax, ay := Field(), activeX, activeY;
      var c := first;
      if down {
        while c >= last
          invariant c <= first && (c >= last - 1 || c == first)
          invariant RowFree(g, width, height, ay + ly, ax + c + 1, ax + first)
          decreases c - last
        {
          if GetGameFieldPixel(activeX + c, activeY + ly) != 0 {
            return false;
          }
          c := c - 1;
        }
      } else {
        while c <= last
          invariant c >= first && (c <= last + 1 || c == first)
          invariant RowFree(g, width, height, ay + ly, ax + first, ax + c - 1)
          decreases last - c
        {
          if GetGameFieldPixel(activeX + c, activeY + ly) != 0 {
            return false;
          }
          c := c + 1;
        }
      }
      return true;
    }

    /** The two loops of one branch of the rotation checks, of shape s,
        from local source (sx, sy) to local target (tx, ty): false at the
        first visited cell that does not read 0. */
    method SweepClear(s: Sweep, sx: int, sy: int, tx: int, ty: int) returns (clear: bool)
      requires Ready()
      ensures clear <==> SweptClear(Field(), width, height, Active(), s, sx, sy, tx, ty)
    {
      if s.firstVertical {
        clear := ColumnThenRowClear(sx, sy, tx, ty, s.firstDown, s.secondDown);
      } else {
        clear := RowThenColumnClear(sx, sy, tx, ty, s.firstDown, s.secondDown);
      }
    }

    /** A branch that walks the source column to the target row, then that
        row to the target column. */
    method ColumnThenRowClear(sx: int, sy: int, tx: int, ty: int, firstDown: bool, secondDown: bool) returns (clear: bool)
      requires Ready()
      ensures clear <==>
        && ColumnFree(Field(), width, height, activeX + sx, activeY + Lo(sy, ty, firstDown), activeY + Hi(sy, ty, firstDown))
        && RowFree(Field(), width, height, activeY + ty, activeX + Lo(sx, tx, secondDown), activeX + Hi(sx, tx, secondDown))
    {
      clear := ColumnClear(sx, sy, ty, firstDown);
      if clear {
        clear := RowClear(ty, sx, tx, secondDown);
      }
    }

    /** A branch that walks the source row to the target column, then that
        column to the target row. */
    method RowThenColumnClear(sx: int, sy: int, tx: int, ty: int, firstDown: bool, secondDown: bool) returns (clear: bool)
      requires Ready()
      ensures clear <==>
        && RowFree(Field(), width, height, activeY + sy, activeX + Lo(sx, tx, firstDown), activeX + Hi(sx, tx, firstDown))
        && ColumnFree(Field(), width, height, activeX + tx, activeY + Lo(sy, ty, secondDown), activeY + Hi(sy, ty, secondDown))
    {
      clear := RowClear(sy, sx, tx, firstDown);
      if clear {
        clear := ColumnClear(tx, sy, ty, secondDown);
      }
    }

    /** The sweep of canActiveTetrominoRotateClockwise for one occupied
        source cell, branch by branch as the engine writes them: first on
        relSX > relSY, then on fabs(relSX) > fabs(relSY). */
    method ClockwisePathClear(sx: int, sy: int) returns (clear: bool)
      requires Ready()
      ensures clear <==> PathClear(Field(), width, height, Active(), Clockwise, sx, sy)
    {
      var m := activeSize - 1;
      var tx, ty := TargetX(Clockwise, activeSize, sx, sy), TargetY(Clockwise, activeSize, sx, sy);
      if sx > sy {
        if Abs(2 * sx - m) > Abs(2 * sy - m) {
          clear := SweepClear(Sweep(true, true, true), sx, sy, tx, ty);     // y down, then x down
        } else {
          clear := SweepClear(Sweep(false, true, false), sx, sy, tx, ty);   // x down, then y up
        }
      } else {
        if Abs(2 * sx - m) > Abs(2 * sy - m) {
          clear := SweepClear(Sweep(true, false, false), sx, sy, tx, ty);   // y up, then x up
        } else {
          clear := SweepClear(Sweep(false, false, true), sx, sy, tx, ty);   // x up, then y down
        }
      }
    }

    /** The sweep of canActiveTetrominoRotateAgainstClockwise for one
        occupied source cell. */
    method AgainstClockwisePathClear(sx: int, sy: int) returns (clear: bool)
      requires Ready()
      ensures clear <==> PathClear(Field(), width, height, Active(), AgainstClockwise, sx, sy)
    {
      var m := activeSize - 1;
      var tx, ty := TargetX(AgainstClockwise, activeSize, sx, sy), TargetY(AgainstClockwise, activeSize, sx, sy);
      if sx > sy {
        if Abs(2 * sx - m) > Abs(2 * sy - m) {
          clear := SweepClear(Sweep(true, false, true), sx, sy, tx, ty);    // y up, then x down
        } else {
          clear := SweepClear(Sweep(false, false, false), sx, sy, tx, ty);  // x up, then y up
        }
      } else {
        if Abs(2 * sx - m) > Abs(2 * sy - m) {
          clear := SweepClear(Sweep(true, true, false), sx, sy, tx, ty);    // y down, then x up
        } else {
          clear := SweepClear(Sweep(false, true, true), sx, sy, tx, ty);    // x down, then y down
        }
      }
    }

    /** One row of the scan of the rotation checks: every occupied cell of
        local row sy has a clear path; false at the first that has not. */
    method RowPathsClear(d: Direction, sy: int) returns (r: bool)
      requires Ready() && 2 <= activeSize <= TetrominoMaxSize && 0 <= sy < activeSize
      ensures r <==> forall lx :: 0 <= lx < activeSize && LocalPixel(Active(), lx, sy) != 0 ==>
        PathClear(Field(), width, height, Active(), d, lx, sy)
    {
      ghost var g, p := Field(), Active();
      var sx := 0;
      while sx < activeSize
        invariant 0 <= sx <= activeSize
        invariant forall lx :: 0 <= lx < sx && LocalPixel(p, lx, sy) != 0 ==> PathClear(g, width, height, p, d, lx, sy)
      {
        if activePixels[BufferIndex(sx, sy)] != 0 {
          assert LocalPixel(p, sx, sy) != 0;
          var clear;
          if d == Clockwise {
            clear := ClockwisePathClear(sx, sy);
          } else {
            clear := AgainstClockwisePathClear(sx, sy);
          }
          if !clear {
            return false;
          }
        }
        sx := sx + 1;
      }
      return true;
    }

    /** canActiveTetrominoRotateClockwise (d = Clockwise) and
        canActiveTetrominoRotateAgainstClockwise: every occupied cell of the
        square, row by row, has a clear path; false at the first that has not. */
    method CanActiveTetrominoRotate(d: Direction) returns (r: bool)
      requires Ready() && 2 <= activeSize <= TetrominoMaxSize
      ensures r <==> CanRotate(Field(), width, height, Active(), d)
    {
      ghost var g, p := Field(), Active();
      var sy := 0;
      while sy < activeSize
        invariant 0 <= sy <= activeSize
        invariant forall ly, lx :: 0 <= ly < sy && 0 <= lx < p.size && LocalPixel(p, lx, ly) != 0 ==>
          PathClear(g, width, height, p, d, lx, ly)
      {
        var clear := RowPathsClear(d, sy);
        if !clear {
          return false;
        }
        assert Field() == g && Active() == p;
        sy := sy + 1;
      }
      return true;
    }

    // ----- moves -----

    /** Whether the active piece, lifted out of the field, can fall one row
        by the scan of canActiveTetrominoMoveDown. */
    ghost predicate CanFall()
      reads this, gameField, activePixels
      requires Ready()
    {
      BufferDownFree(Popped(Field(), Active()), width, height, Active())
    }

    /** moveActiveTetrominoDown: pop, check, then push at the new or the old
        row. It moves exactly when the piece fits one row lower in the field
        without it; a blocked move leaves a field holding the footprint as
        it was. */
    method MoveActiveTetrominoDown() returns (moved: bool)
      requires Valid() && status == PlayGameStatus
      modifies gameField, this`activeY
      ensures Valid()
      ensures moved == old(CanFall())
      ensures moved <==> old(Fits(Popped(Field(), Active()), width, height, Shifted(Active(), 0, -1)))
      ensures activeY == (if moved then old(activeY) - 1 else old(activeY))
      ensures Field() == Pushed(old(Popped(Field(), Active())), Active())
      ensures !moved ==> Field() == old(Field())
    {
      ghost var g0, p0 := Field(), Active();
      PopActiveTetrominoInfo();
      BufferScanIsSquareScan(Field(), width, height, p0);
      ShiftFreeIffFits(Field(), width, height, p0, 0, -1);
      moved := CanActiveTetrominoMoveDown();
      if moved {
        activeY := activeY - 1;
        PushActiveTetrominoInfo();
      } else {
        PushActiveTetrominoInfo();
        PopPushRestores(g0, p0);
      }
      PushMerges(Popped(g0, p0), Active());
    }

    /** The body moveLeft (dx = -1) and moveRight (dx = 1) share: pop, scan
        the cells beside the piece, push back unchanged when one is taken,
        otherwise shift x by dx and push. */
    method Shift(dx: int) returns (r: MoveResult)
      requires Valid() && status == PlayGameStatus
      modifies gameField, this`activeX
      ensures Valid()
      ensures r == Done <==> old(ShiftFree(Popped(Field(), Active()), width, height, Active(), dx, 0))
      ensures r == Done <==> old(Fits(Popped(Field(), Active()), width, height, Shifted(Active(), dx, 0)))
      ensures activeX == (if r == Done then old(activeX) + dx else old(activeX))
      ensures Field() == Pushed(old(Popped(Field(), Active())), Active())
      ensures r == Blocked ==> Field() == old(Field())
    {
      ghost var g0, p0 := Field(), Active();
      PopActiveTetrominoInfo();
      ShiftFreeIffFits(Field(), width, height, p0, dx, 0);
      var free := CanActiveTetrominoShift(dx);
      if !free {
        PushActiveTetrominoInfo();
        PopPushRestores(g0, p0);
        PushMerges(Popped(g0, p0), Active());
        return Blocked;
      }
      activeX := activeX + dx;
      PushActiveTetrominoInfo();
      PushMerges(Popped(g0, p0), Active());
      return Done;
    }

    /** moveLeft: done (0) with x one less when every occupied cell has a
        free cell to its left in the field without the piece, blocked (1)
        with nothing changed otherwise. */
    method MoveLeft() returns (r: MoveResult)
      requires Valid() && status == PlayGameStatus
      modifies gameField, this`activeX
      ensures Valid()
      ensures r == Done <==> old(Fits(Popped(Field(), Active()), width, height, Shifted(Active(), -1, 0)))
      ensures activeX == (if r == Done then old(activeX) - 1 else old(activeX))
      ensures Field() == Pushed(old(Popped(Field(), Active())), Active())
      ensures r == Blocked ==> Field() == old(Field())
    {
      r := Shift(-1);
    }

    /** moveRight: done (0) with x one more when every occupied cell has a
        free cell to its right in the field without the piece, blocked (1)
        with nothing changed otherwise. */
    method MoveRight() returns (r: MoveResult)
      requires Valid() && status == PlayGameStatus
      modifies gameField, this`activeX
      ensures Valid()
      ensures r == Done <==> old(Fits(Popped(Field(), Active()), width, height, Shifted(Active(), 1, 0)))
      ensures activeX == (if r == Done then old(activeX) + 1 else old(activeX))
      ensures Field() == Pushed(old(Popped(Field(), Active())), Active())
      ensures r == Blocked ==> Field() == old(Field())
    {
      r := Shift(1);
    }

    // ----- rotation -----

    /** The write-back loop of rotateClockwise / rotateAgainstClockwise:
        a zeroed temporary buffer receives every occupied source pixel at
        its target. */
    method RotatedBuffer(d: Direction) returns (temp: array<Pixel>)
      requires Ready() && 2 <= activeSize <= TetrominoMaxSize
      ensures fresh(temp) && temp[..] == Rotated(activePixels[..], activeSize, d)
    {
      temp := new Pixel[TetrominoArrayMaxSize](_ => 0);
      ghost var src := activePixels[..];
      PartlyRotatedStart(src, activeSize, d);
      var sy := 0;
      while sy < activeSize
        invariant 0 <= sy <= activeSize
        invariant temp[..] == PartlyRotated(src, activeSize, d, sy, 0)
      {
        RotateRow(temp, src, d, sy);
        sy := sy + 1;
      }
      PartlyRotatedDone(src, activeSize, d);
    }

    /** One source row of the write-back loop: every occupied cell of row
        sy is copied to its target in the temporary buffer. */
    method RotateRow(temp: array<Pixel>, ghost src: seq<Pixel>, d: Direction, sy: int)
      requires Ready() && 2 <= activeSize <= TetrominoMaxSize && 0 <= sy < activeSize
      requires temp != activePixels && temp.Length == TetrominoArrayMaxSize && src == activePixels[..]
      requires temp[..] == PartlyRotated(src, activeSize, d, sy, 0)
      modifies temp
      ensures temp[..] == PartlyRotated(src, activeSize, d, sy + 1, 0)
    {
      var sx := 0;
      while sx < activeSize
        invariant 0 <= sx <= activeSize
        invariant temp[..] == PartlyRotated(src, activeSize, d, sy, sx)
      {
        var pixel := activePixels[BufferIndex(sx, sy)];
        PartlyRotatedStep(src, activeSize, d, sx, sy);
        if pixel != 0 {
          temp[BufferIndex(TargetX(d, activeSize, sx, sy), TargetY(d, activeSize, sx, sy))] := pixel;
        }
        sx := sx + 1;
      }
      PartlyRotatedNextRow(src, activeSize, d, sy);
    }

    /** rotateClockwise (d = Clockwise) and rotateAgainstClockwise: pop;
        when the sweep check passes, replace the buffer by its rotation and
        push, result done (0); otherwise push back unchanged, result
        blocked (1). Position and size never change. */
    method Rotate(d: Direction) returns (r: MoveResult)
      requires Valid() && status == PlayGameStatus
      modifies gameField, activePixels
      ensures Valid()
      ensures r == Done <==> old(CanRotate(Popped(Field(), Active()), width, height, Active(), d))
      ensures activeX == old(activeX) && activeY == old(activeY) && activeSize == old(activeSize)
      ensures activePixels[..] == if r == Done then Rotated(old(activePixels[..]), activeSize, d) else old(activePixels[..])
      ensures Field() == Pushed(old(Popped(Field(), Active())), Active())
      ensures r == Blocked ==> Field() == old(Field())
    {
      ghost var g0, p0 := Field(), Active();
      PopActiveTetrominoInfo();
      var can := CanActiveTetrominoRotate(d);
      if can {
        var temp := RotatedBuffer(d);
        RotatedIsPieceBuffer(activePixels[..], activeSize, d);
        forall i | 0 <= i < TetrominoArrayMaxSize {
          activePixels[i] := temp[i];
        }
        assert activePixels[..] == temp[..];
        PushActiveTetrominoInfo();
        r := Done;
      } else {
        PushActiveTetrominoInfo();
        PopPushRestores(g0, p0);
        r := Blocked;
      }
      PushMerges(Popped(g0, p0), Active());
    }

    // ----- line clearing -----

    /** The inner scan of cleanLines: row y is full when no cell of it reads 0. */
    method IsLineFull(y: int) returns (full: bool)
      requires Ready() && 0 <= y < height
      ensures full <==> RowFull(Field()[y])
    {
      full := true;
      var x := 0;
      while x < width
        invariant 0 <= x <= width
        invariant forall x' :: 0 <= x' < x ==> Field()[y][x'] != 0
      {
        if GetGameFieldPixel(x, y) == 0 {
          full := false;
          break;
        }
        x := x + 1;
      }
    }

    /** The memmove and memset of cleanLines: the rows above y move down
        one row and the top row is zeroed. */
    method RemoveLine(y: int)
      requires Ready() && 0 <= y < height
      modifies gameField
      ensures Field() == old(Field())[..y] + old(Field())[y + 1..] + [ZeroRow(width)]
    {
      ghost var cells := gameField[..];
      GridOfRemoveRow(cells, width, height, y);
      RowOffsets(width, height, y);
      MoveCellsDown(gameField, y * width, width);
      ZeroCellsFrom(gameField, (height - 1) * width);
      assert gameField[..] == cells[..y * width] + cells[(y + 1) * width..] + ZeroRow(width);
    }

    /** cleanLines: scans the rows from the top down and removes every full
        row. It returns the number of rows that were full on entry and
        leaves the rows that were not full, in their order, from the floor
        up, with that many empty rows above them. */
    method CleanLines() returns (cleaned: nat)
      requires Ready()
      modifies gameField
      ensures Field() == Cleaned(old(Field()), width)
      ensures cleaned == FullRows(old(Field()))
    {
      ghost var g0 := Field();
      CleanedAboveEnds(g0, width);
      cleaned := 0;
      var y := height - 1;
      while y >= 0
        invariant -1 <= y < height
        invariant Field() == CleanedAbove(g0, y, width)
        invariant cleaned == FullRows(g0[y + 1..])
      {
        CleanedAboveStep(g0, y, width);
        KeptRowsStep(g0, y);
        var full := IsLineFull(y);
        if full {
          RemoveLine(y);
          cleaned := cleaned + 1;
        }
        y := y - 1;
      }
      assert g0[0..] == g0;
    }

    // ----- the game -----

    /** The host's getNextTetromino filling the next buffer: its size and
        all 16 cells. */
    method WriteNext(s: Shape)
      requires Ready() && ValidShape(s)
      modifies this`nextSize, nextPixels
      ensures nextSize == s.size && nextPixels[..] == s.pixels
    {
      nextSize := s.size;
      forall i | 0 <= i < TetrominoArrayMaxSize {
        nextPixels[i] := s.pixels[i];
      }
    }

    /** startGame: the first generated shape becomes the active piece,
        centred (x = width / 2 - size / 2) just above the field (y = height);
        the second fills the next buffer, which is the old active buffer.
        Nothing is written into the field. */
    method StartGame(first: Shape, second: Shape)
      requires Valid() && status == InitGameStatus && ValidShape(first) && ValidShape(second)
      modifies this, activePixels, nextPixels
      ensures Valid() && status == PlayGameStatus && score == old(score)
      ensures activeSize == first.size && activePixels[..] == first.pixels
      ensures activeX == width / 2 - first.size / 2 && activeY == height
      ensures nextSize == second.size && nextPixels[..] == second.pixels
      ensures activePixels == old(nextPixels) && nextPixels == old(activePixels)
      ensures Field() == old(Field())
    {
      var temp := activePixels;
      WriteNext(first);
      activePixels := nextPixels;
      activeSize := nextSize;
      activeX := width / 2 - activeSize / 2;
      activeY := height;
      nextPixels := temp;
      WriteNext(second);
      status := PlayGameStatus;
      AboveBoardNotMerged(Field(), width, height, Active());
    }

    /** The end of a lock in tick: the two piece buffers swap roles, the
        next piece becomes the active one at x = width / 2 - 2 just above
        the field, and the host generates a new next piece into the old
        active buffer. */
    method PromoteNext(newNext: Shape)
      requires Ready() && status == PlayGameStatus && PieceBuffer(nextSize, nextPixels[..]) && ValidShape(newNext)
      modifies this, nextPixels, activePixels
      ensures Valid() && status == PlayGameStatus && score == old(score)
      ensures Field() == old(Field())
      ensures activePixels == old(nextPixels) && activePixels[..] == old(nextPixels[..]) && activeSize == old(nextSize)
      ensures activeX == width / 2 - TetrominoMaxSize / 2 && activeY == height
      ensures nextPixels == old(activePixels) && nextPixels[..] == newNext.pixels && nextSize == newNext.size
    {
      var activeArray := activePixels;
      activePixels := nextPixels;
      activeSize := nextSize;
      activeX := width / 2 - TetrominoMaxSize / 2;
      activeY := height;
      nextPixels := activeArray;
      WriteNext(newNext);
      AboveBoardNotMerged(Field(), width, height, Active());
    }

    /** The lock step of tick, once the piece could not move down and its
        footprint is in the field: lost (3) when an occupied cell is at row
        height or above; otherwise the full rows are cleared and the
        host's addend for their number is added: past the cap (or on 32-bit
        wrap-around) the score is clamped to maxScore and the game is won
        (2), otherwise the sum is kept and the next piece is promoted (1). */
    method Lock(scoreAddend: nat -> Uint32, newNext: Shape) returns (r: TickResult)
      requires Valid() && status == PlayGameStatus && ValidShape(newNext)
      modifies this, gameField, activePixels, nextPixels
      ensures Valid()
      ensures old(score) <= score <= maxScore
      ensures r != MovedDown
      ensures r == PlayerLost <==> !old(InsideTop(Active(), height))
      ensures r == PlayerLost ==>
        && status == EndPlayerLoose && score == old(score) && Field() == old(Field()) && Active() == old(Active())
        && activePixels == old(activePixels)
        && nextSize == old(nextSize) && nextPixels == old(nextPixels) && nextPixels[..] == old(nextPixels[..])
      ensures r == MaxScoreReached <==>
        old(InsideTop(Active(), height)) && old(score) + scoreAddend(old(FullRows(Field()))) > maxScore
      ensures r == MaxScoreReached ==>
        && status == EndMaxScoreStatus && score == maxScore && Field() == old(Cleaned(Field(), width)) && Active() == old(Active())
        && activePixels == old(activePixels)
        && nextSize == old(nextSize) && nextPixels == old(nextPixels) && nextPixels[..] == old(nextPixels[..])
      ensures r == CouldNotMoveDown ==>
        && status == PlayGameStatus
        && score == old(score) + scoreAddend(old(FullRows(Field())))
        && Field() == old(Cleaned(Field(), width))
        && activePixels == old(nextPixels) && activePixels[..] == old(nextPixels[..]) && activeSize == old(nextSize)
        && activeX == width / 2 - TetrominoMaxSize / 2 && activeY == height
        && nextPixels == old(activePixels) && nextPixels[..] == newNext.pixels && nextSize == newNext.size
    {
      var inBoard := IsActiveTetrominoInGameBoard();
      if !inBoard {
        status := EndPlayerLoose;
        return PlayerLost;
      }
      var cleanedLines := CleanLines();
      var addend := scoreAddend(cleanedLines);
      ReachesMaxIffExceeds(score, addend, maxScore);
      var scoreCopy := WrappingAdd(score, addend);
      if scoreCopy < score || scoreCopy > maxScore {
        score := maxScore;
        status := EndMaxScoreStatus;
        return MaxScoreReached;
      }
      score := scoreCopy;
      PromoteNext(newNext);
      return CouldNotMoveDown;
    }

    /** tick: the piece falls one row when it can (0). Otherwise, with the
        piece locked where it is, the game is lost (3) when an occupied cell
        is at row height or above; else the full rows are cleared and the
        host's addend for their number is added: past the cap (or on 32-bit
        wrap-around) the score is clamped to maxScore and the game won (2),
        otherwise the sum is kept, the next piece becomes the active one at
        x = width / 2 - 2, y = height, and a new next piece is generated (1). */
    method Tick(scoreAddend: nat -> Uint32, newNext: Shape) returns (r: TickResult)
      requires Valid() && status == PlayGameStatus && ValidShape(newNext)
      modifies this, gameField, activePixels, nextPixels
      ensures Valid()
      ensures old(score) <= score <= maxScore
      ensures r == MovedDown <==> old(CanFall())
      ensures r == MovedDown ==>
        && status == PlayGameStatus && score == old(score)
        && Active() == old(Shifted(Active(), 0, -1)) && activePixels == old(activePixels)
        && Field() == Pushed(old(Popped(Field(), Active())), Active())
        && nextSize == old(nextSize) && nextPixels == old(nextPixels) && nextPixels[..] == old(nextPixels[..])
      ensures r == PlayerLost <==> !old(CanFall()) && !old(InsideTop(Active(), height))
      ensures r == PlayerLost ==>
        && status == EndPlayerLoose && score == old(score) && Field() == old(Field()) && Active() == old(Active())
        && activePixels == old(activePixels)
        && nextSize == old(nextSize) && nextPixels == old(nextPixels) && nextPixels[..] == old(nextPixels[..])
      ensures r == MaxScoreReached <==>
        && !old(CanFall()) && old(InsideTop(Active(), height))
        && old(score) + scoreAddend(old(FullRows(Field()))) > maxScore
      ensures r == MaxScoreReached ==>
        && status == EndMaxScoreStatus && score == maxScore && Field() == old(Cleaned(Field(), width)) && Active() == old(Active())
        && activePixels == old(activePixels)
        && nextSize == old(nextSize) && nextPixels == old(nextPixels) && nextPixels[..] == old(nextPixels[..])
      ensures r == CouldNotMoveDown ==>
        && status == PlayGameStatus
        && score == old(score) + scoreAddend(old(FullRows(Field())))
        && Field() == old(Cleaned(Field(), width))
        && activePixels == old(nextPixels) && activePixels[..] == old(nextPixels[..]) && activeSize == old(nextSize)
        && activeX == width / 2 - TetrominoMaxSize / 2 && activeY == height
        && nextPixels == old(activePixels) && nextPixels[..] == newNext.pixels && nextSize == newNext.size
    {
      var moved := MoveActiveTetrominoDown();
      if moved {
        return MovedDown;
      }
      r := Lock(scoreAddend, newNext);
    }
  }
}
