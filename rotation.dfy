/** Rotation of the active piece about the centre c = (size - 1) / 2 of its
    square. The engine computes targets in floating point and rounds them;
    every target is an integer, given here exactly: clockwise
    (sx, sy) -> (sy, size - 1 - sx), against the clock
    (sx, sy) -> (size - 1 - sy, sx). The collision check walks, for every
    occupied source cell, an L-shaped path of two straight segments chosen
    from one of eight branches; the branches, loop bounds and walking
    directions are those of the engine, including segments that are empty. */
module Rotation {
  import opened EngineTypes
  import opened Board

  datatype Direction = Clockwise | AgainstClockwise
  {
    function Opposite(): Direction
    {
      if Clockwise? then AgainstClockwise else Clockwise
    }
  }

  function TargetX(d: Direction, size: int, sx: int, sy: int): int
  {
    if d.Clockwise? then sy else size - 1 - sy
  }

  function TargetY(d: Direction, size: int, sx: int, sy: int): int
  {
    if d.Clockwise? then size - 1 - sx else sx
  }

  function Abs(n: int): nat
  {
    if n < 0 then -n else n
  }

  function RealAbs(r: real): real
  {
    if r < 0.0 then -r else r
  }

  /** The engine's rotation in real numbers, with the centre added back,
      lands exactly on the integer targets, so rounding changes nothing. */
  lemma TargetIsExactRotation(d: Direction, size: int, sx: int, sy: int)
    ensures var c := (size - 1) as real / 2.0;
            var rx, ry := sx as real - c, sy as real - c;
            var (tx, ty) := if d.Clockwise? then (ry, -rx) else (-ry, rx);
            tx + c == TargetX(d, size, sx, sy) as real && ty + c == TargetY(d, size, sx, sy) as real
  {
  }

  /** The comparison of the relative coordinates and of their absolute
      values that select a branch, stated without the centre. */
  lemma BranchTestsExact(size: int, sx: int, sy: int)
    ensures var c := (size - 1) as real / 2.0;
            var rx, ry := sx as real - c, sy as real - c;
            && (rx > ry <==> sx > sy)
            && (RealAbs(rx) > RealAbs(ry) <==> Abs(2 * sx - (size - 1)) > Abs(2 * sy - (size - 1)))
  {
    var c := (size - 1) as real / 2.0;
    var rx, ry := sx as real - c, sy as real - c;
    assert RealAbs(rx) * 2.0 == Abs(2 * sx - (size - 1)) as real;
    assert RealAbs(ry) * 2.0 == Abs(2 * sy - (size - 1)) as real;
  }

  /** Both target maps send the piece's square onto itself. */
  lemma TargetInSquare(d: Direction, size: int, sx: int, sy: int)
    requires 0 <= sx < size && 0 <= sy < size
    ensures 0 <= TargetX(d, size, sx, sy) < size && 0 <= TargetY(d, size, sx, sy) < size
  {
  }

  /** The two target maps undo each other. */
  lemma TargetsInverse(d: Direction, size: int, sx: int, sy: int)
    ensures var tx, ty := TargetX(d, size, sx, sy), TargetY(d, size, sx, sy);
            TargetX(d.Opposite(), size, tx, ty) == sx && TargetY(d.Opposite(), size, tx, ty) == sy
  {
  }

  // ----- the sweep of canActiveTetrominoRotate* -----

  /** The shape of one path: whether its first segment is vertical (it walks
      y in the source's column, then x in the target's row) or horizontal
      (x in the source's row, then y in the target's column), and whether
      each segment's loop counts down. */
  datatype Sweep = Sweep(firstVertical: bool, firstDown: bool, secondDown: bool)

  /** The branch the engine takes for source (sx, sy): the first test is
      relSX > relSY, the second fabs(relSX) > fabs(relSY). */
  function SweepOf(d: Direction, size: int, sx: int, sy: int): Sweep
  {
    var rightOrDown := sx > sy;
    var horizontalDominates := Abs(2 * sx - (size - 1)) > Abs(2 * sy - (size - 1));
    match d
    case Clockwise =>
      if rightOrDown then
        if horizontalDominates then Sweep(true, true, true)    // y down, then x down
        else Sweep(false, true, false)                        // x down, then y up
      else
        if horizontalDominates then Sweep(true, false, false) // y up, then x up
        else Sweep(false, false, true)                        // x up, then y down
    case AgainstClockwise =>
      if rightOrDown then
        if horizontalDominates then Sweep(true, false, true)  // y up, then x down
        else Sweep(false, false, false)                       // x up, then y up
      else
        if horizontalDominates then Sweep(true, true, false)  // y down, then x up
        else Sweep(false, true, true)                         // x down, then y down
  }

  /** The values a loop `for (c = first; down ? c >= last : c <= last; down ? --c : ++c)`
      visits form the closed range [Lo, Hi], empty when Lo > Hi. */
  function Lo(first: int, last: int, down: bool): int
  {
    if down then last else first
  }

  function Hi(first: int, last: int, down: bool): int
  {
    if down then first else last
  }

  /** Every cell of column x with lo <= y <= hi reads 0. */
  ghost predicate ColumnFree(g: Grid, width: int, height: int, x: int, lo: int, hi: int)
    requires IsGrid(g, width, height)
  {
    forall y :: lo <= y <= hi ==> FieldPixel(g, width, height, x, y) == 0
  }

  /** Every cell of row y with lo <= x <= hi reads 0. */
  ghost predicate RowFree(g: Grid, width: int, height: int, y: int, lo: int, hi: int)
    requires IsGrid(g, width, height)
  {
    forall x :: lo <= x <= hi ==> FieldPixel(g, width, height, x, y) == 0
  }

  /** Every board cell visited by the two loops of shape s from source
      (sx, sy) to target (tx, ty), local coordinates offset by the piece's
      position, reads 0. */
  ghost predicate SweptClear(g: Grid, width: int, height: int, p: Piece, s: Sweep, sx: int, sy: int, tx: int, ty: int)
    requires IsGrid(g, width, height)
  {
    if s.firstVertical then
      && ColumnFree(g, width, height, p.x + sx, p.y + Lo(sy, ty, s.firstDown), p.y + Hi(sy, ty, s.firstDown))
      && RowFree(g, width, height, p.y + ty, p.x + Lo(sx, tx, s.secondDown), p.x + Hi(sx, tx, s.secondDown))
    else
      && RowFree(g, width, height, p.y + sy, p.x + Lo(sx, tx, s.firstDown), p.x + Hi(sx, tx, s.firstDown))
      && ColumnFree(g, width, height, p.x + tx, p.y + Lo(sy, ty, s.secondDown), p.y + Hi(sy, ty, s.secondDown))
  }

  /** Every board cell the two loops visit for source (sx, sy) reads 0. */
  ghost predicate PathClear(g: Grid, width: int, height: int, p: Piece, d: Direction, sx: int, sy: int)
    requires IsGrid(g, width, height)
  {
    SweptClear(g, width, height, p, SweepOf(d, p.size, sx, sy), sx, sy, TargetX(d, p.size, sx, sy), TargetY(d, p.size, sx, sy))
  }

  /** What canActiveTetrominoRotateClockwise / AgainstClockwise answer: every
      occupied cell of the piece's square has a clear path. */
  ghost predicate CanRotate(g: Grid, width: int, height: int, p: Piece, d: Direction)
    requires IsGrid(g, width, height)
  {
    forall sy, sx :: 0 <= sy < p.size && 0 <= sx < p.size && LocalPixel(p, sx, sy) != 0 ==>
      PathClear(g, width, height, p, d, sx, sy)
  }

  /** A clockwise path reaches its target cell except for a cell on the
      diagonal below the centre (sx == sy, 2 * sx < size - 1): there the
      second loop runs from sy down to size - 1 - sx > sy and visits nothing. */
  lemma ClockwiseTargetChecked(g: Grid, width: int, height: int, p: Piece, sx: int, sy: int)
    requires IsGrid(g, width, height)
    requires 0 <= sx < p.size && 0 <= sy < p.size
    requires !(sx == sy && 2 * sx < p.size - 1)
    requires PathClear(g, width, height, p, Clockwise, sx, sy)
    ensures FieldPixel(g, width, height, p.x + TargetX(Clockwise, p.size, sx, sy), p.y + TargetY(Clockwise, p.size, sx, sy)) == 0
  {
    var tx, ty := TargetX(Clockwise, p.size, sx, sy), TargetY(Clockwise, p.size, sx, sy);
    var s := SweepOf(Clockwise, p.size, sx, sy);
    if s.firstVertical {
      assert RowFree(g, width, height, p.y + ty, p.x + Lo(sx, tx, s.secondDown), p.x + Hi(sx, tx, s.secondDown));
    } else {
      assert ColumnFree(g, width, height, p.x + tx, p.y + Lo(sy, ty, s.secondDown), p.y + Hi(sy, ty, s.secondDown));
    }
  }

  /** On the diagonal below the centre the clockwise check looks at the
      source cell alone: the path is clear exactly when that cell is free,
      whatever the target cell (s, size - 1 - s) above it holds. */
  lemma ClockwiseDiagonalSkipsTarget(g: Grid, width: int, height: int, p: Piece, s: int)
    requires IsGrid(g, width, height)
    requires 0 <= s && 2 * s < p.size - 1
    ensures TargetX(Clockwise, p.size, s, s) == s && TargetY(Clockwise, p.size, s, s) > s
    ensures PathClear(g, width, height, p, Clockwise, s, s) <==> FieldPixel(g, width, height, p.x + s, p.y + s) == 0
  {
    var sw := SweepOf(Clockwise, p.size, s, s);
    assert sw == Sweep(false, false, true);
    if FieldPixel(g, width, height, p.x + s, p.y + s) == 0 {
      assert RowFree(g, width, height, p.y + s, p.x + s, p.x + s);
    }
  }

  /** An against-the-clock path always reaches its target cell. */
  lemma AgainstClockwiseTargetChecked(g: Grid, width: int, height: int, p: Piece, sx: int, sy: int)
    requires IsGrid(g, width, height)
    requires 0 <= sx < p.size && 0 <= sy < p.size
    requires PathClear(g, width, height, p, AgainstClockwise, sx, sy)
    ensures FieldPixel(g, width, height, p.x + TargetX(AgainstClockwise, p.size, sx, sy), p.y + TargetY(AgainstClockwise, p.size, sx, sy)) == 0
  {
    var tx, ty := TargetX(AgainstClockwise, p.size, sx, sy), TargetY(AgainstClockwise, p.size, sx, sy);
    var s := SweepOf(AgainstClockwise, p.size, sx, sy);
    if s.firstVertical {
      assert RowFree(g, width, height, p.y + ty, p.x + Lo(sx, tx, s.secondDown), p.x + Hi(sx, tx, s.secondDown));
    } else {
      assert ColumnFree(g, width, height, p.x + tx, p.y + Lo(sy, ty, s.secondDown), p.y + Hi(sy, ty, s.secondDown));
    }
  }

  // ----- the write-back of rotateClockwise / rotateAgainstClockwise -----

  /** The buffer after rotation: cell t of the square holds the pixel whose
      target is t (its source is found by the opposite rotation), every
      cell outside the square is 0. */
  function Rotated(pixels: seq<Pixel>, size: int, d: Direction): (r: seq<Pixel>)
    requires |pixels| == TetrominoArrayMaxSize && 2 <= size <= TetrominoMaxSize
    ensures |r| == TetrominoArrayMaxSize
  {
    seq(TetrominoArrayMaxSize, i requires 0 <= i < TetrominoArrayMaxSize =>
      var tx, ty := i % 4, i / 4;
      if tx < size && ty < size then
        pixels[BufferIndex(TargetX(d.Opposite(), size, tx, ty), TargetY(d.Opposite(), size, tx, ty))]
      else 0)
  }

  /** Every source pixel lands on its target, unchanged. */
  lemma RotatedMovesPixels(pixels: seq<Pixel>, size: int, d: Direction, sx: int, sy: int)
    requires |pixels| == TetrominoArrayMaxSize && 2 <= size <= TetrominoMaxSize
    requires 0 <= sx < size && 0 <= sy < size
    ensures Rotated(pixels, size, d)[BufferIndex(TargetX(d, size, sx, sy), TargetY(d, size, sx, sy))]
         == pixels[BufferIndex(sx, sy)]
  {
    var tx, ty := TargetX(d, size, sx, sy), TargetY(d, size, sx, sy);
    var i := BufferIndex(tx, ty);
    assert i % 4 == tx && i / 4 == ty;
  }

  /** The rotated buffer is again a piece buffer of the same size. */
  lemma RotatedIsPieceBuffer(pixels: seq<Pixel>, size: int, d: Direction)
    requires |pixels| == TetrominoArrayMaxSize && 2 <= size <= TetrominoMaxSize
    ensures PieceBuffer(size, Rotated(pixels, size, d))
  {
  }

  /** Rotating one way and then the other restores a piece buffer exactly. */
  lemma RotateRoundTrip(pixels: seq<Pixel>, size: int, d: Direction)
    requires PieceBuffer(size, pixels)
    ensures Rotated(Rotated(pixels, size, d), size, d.Opposite()) == pixels
  {
    var once := Rotated(pixels, size, d);
    var r := Rotated(once, size, d.Opposite());
    forall i | 0 <= i < TetrominoArrayMaxSize ensures r[i] == pixels[i] {
      RoundTripCell(pixels, size, d, i);
    }
  }

  lemma RoundTripCell(pixels: seq<Pixel>, size: int, d: Direction, i: int)
    requires PieceBuffer(size, pixels)
    requires 0 <= i < TetrominoArrayMaxSize
    ensures Rotated(Rotated(pixels, size, d), size, d.Opposite())[i] == pixels[i]
  {
    var tx, ty := i % 4, i / 4;
    if tx < size && ty < size {
      assert d.Opposite().Opposite() == d;
      assert BufferIndex(tx, ty) == i;
      RotatedMovesPixels(pixels, size, d, tx, ty);
    }
  }

  /** The temporary buffer once the write-back loop has reached scan
      position (rows, cols): targets of the sources scanned so far hold
      their pixels, everything else is still 0. */
  function PartlyRotated(pixels: seq<Pixel>, size: int, d: Direction, rows: int, cols: int): (r: seq<Pixel>)
    requires |pixels| == TetrominoArrayMaxSize && 2 <= size <= TetrominoMaxSize
    ensures |r| == TetrominoArrayMaxSize
  {
    seq(TetrominoArrayMaxSize, i requires 0 <= i < TetrominoArrayMaxSize =>
      var tx, ty := i % 4, i / 4;
      var sx, sy := TargetX(d.Opposite(), size, tx, ty), TargetY(d.Opposite(), size, tx, ty);
      if tx < size && ty < size && ScannedBefore(sx, sy, rows, cols) then
        pixels[BufferIndex(sx, sy)]
      else 0)
  }

  lemma PartlyRotatedStart(pixels: seq<Pixel>, size: int, d: Direction)
    requires |pixels| == TetrominoArrayMaxSize && 2 <= size <= TetrominoMaxSize
    ensures PartlyRotated(pixels, size, d, 0, 0) == seq(TetrominoArrayMaxSize, _ => 0)
  {
  }

  lemma PartlyRotatedDone(pixels: seq<Pixel>, size: int, d: Direction)
    requires |pixels| == TetrominoArrayMaxSize && 2 <= size <= TetrominoMaxSize
    ensures PartlyRotated(pixels, size, d, size, 0) == Rotated(pixels, size, d)
  {
  }

  lemma PartlyRotatedNextRow(pixels: seq<Pixel>, size: int, d: Direction, rows: int)
    requires |pixels| == TetrominoArrayMaxSize && 2 <= size <= TetrominoMaxSize
    ensures PartlyRotated(pixels, size, d, rows, size) == PartlyRotated(pixels, size, d, rows + 1, 0)
  {
  }

  /** One step of the write-back loop: an occupied source is copied to its
      target, an empty one leaves the buffer as it is. */
  lemma PartlyRotatedStep(pixels: seq<Pixel>, size: int, d: Direction, sx: int, sy: int)
    requires |pixels| == TetrominoArrayMaxSize && 2 <= size <= TetrominoMaxSize
    requires 0 <= sx < size && 0 <= sy < size
    ensures 0 <= BufferIndex(TargetX(d, size, sx, sy), TargetY(d, size, sx, sy)) < TetrominoArrayMaxSize
    ensures pixels[BufferIndex(sx, sy)] != 0 ==>
      PartlyRotated(pixels, size, d, sy, sx)[BufferIndex(TargetX(d, size, sx, sy), TargetY(d, size, sx, sy))
        := pixels[BufferIndex(sx, sy)]]
      == PartlyRotated(pixels, size, d, sy, sx + 1)
    ensures pixels[BufferIndex(sx, sy)] == 0 ==>
      PartlyRotated(pixels, size, d, sy, sx) == PartlyRotated(pixels, size, d, sy, sx + 1)
  {
    var tx, ty := TargetX(d, size, sx, sy), TargetY(d, size, sx, sy);
    var t := BufferIndex(tx, ty);
    assert t % 4 == tx && t / 4 == ty;
  }

  /** A rotation the check allowed puts every occupied cell of the rotated
      piece on a cell that reads 0: between the walls, not below the floor,
      and on an empty cell of the field. This holds against the clock for
      every piece, and clockwise for every piece with no occupied cell on
      the diagonal below the centre. */
  lemma RotationFits(g: Grid, width: int, height: int, p: Piece, d: Direction)
    requires IsGrid(g, width, height) && PieceBuffer(p.size, p.pixels)
    requires CanRotate(g, width, height, p, d)
    requires d == Clockwise ==> forall s :: 0 <= s && 2 * s < p.size - 1 ==> LocalPixel(p, s, s) == 0
    ensures Fits(g, width, height, p.(pixels := Rotated(p.pixels, p.size, d)))
  {
    var q := p.(pixels := Rotated(p.pixels, p.size, d));
    forall y, x | Covers(q, x, y) ensures 0 <= x < width && 0 <= y && (y < height ==> g[y][x] == 0) {
      RotatedCellFree(g, width, height, p, d, x - q.x, y - q.y);
    }
  }

  /** One occupied cell (tx, ty) of the rotated piece: its source cell was
      checked, and its path ends on (tx, ty), which therefore reads 0. */
  lemma RotatedCellFree(g: Grid, width: int, height: int, p: Piece, d: Direction, tx: int, ty: int)
    requires IsGrid(g, width, height) && PieceBuffer(p.size, p.pixels)
    requires CanRotate(g, width, height, p, d)
    requires d == Clockwise ==> forall s :: 0 <= s && 2 * s < p.size - 1 ==> LocalPixel(p, s, s) == 0
    requires LocalPixel(p.(pixels := Rotated(p.pixels, p.size, d)), tx, ty) != 0
    ensures FieldPixel(g, width, height, p.x + tx, p.y + ty) == 0
  {
    var sx, sy := TargetX(d.Opposite(), p.size, tx, ty), TargetY(d.Opposite(), p.size, tx, ty);
    TargetInSquare(d.Opposite(), p.size, tx, ty);
    TargetsInverse(d.Opposite(), p.size, tx, ty);
    assert d.Opposite().Opposite() == d;
    RotatedMovesPixels(p.pixels, p.size, d, sx, sy);
    assert LocalPixel(p, sx, sy) != 0;
    if d == Clockwise {
      ClockwiseTargetChecked(g, width, height, p, sx, sy);
    } else {
      AgainstClockwiseTargetChecked(g, width, height, p, sx, sy);
    }
  }

  /** The clockwise check can let a piece rotate onto a locked cell: on a
      4 x 4 field whose only occupied cell is (0, 3), an I piece lying in
      local row 0 at the origin passes the check, and the rotation moves its
      cell (0, 0), which sits on the lower diagonal and whose path visits
      nothing, onto (0, 3). */
  lemma ClockwiseCheckCanOverlap()
    ensures var g: Grid := [[0, 0, 0, 0], [0, 0, 0, 0], [0, 0, 0, 0], [1, 0, 0, 0]];
            var p := Piece(4, 0, 0, [1, 1, 1, 1, 0, 0, 0, 0, 0, 0, 0, 0, 0, 0, 0, 0]);
            && IsGrid(g, 4, 4)
            && CanRotate(g, 4, 4, p, Clockwise)
            && !Fits(g, 4, 4, p.(pixels := Rotated(p.pixels, 4, Clockwise)))
  {
    var g: Grid := [[0, 0, 0, 0], [0, 0, 0, 0], [0, 0, 0, 0], [1, 0, 0, 0]];
    var p := Piece(4, 0, 0, [1, 1, 1, 1, 0, 0, 0, 0, 0, 0, 0, 0, 0, 0, 0, 0]);
    assert IsGrid(g, 4, 4);
    forall sy, sx | 0 <= sy < 4 && 0 <= sx < 4 && LocalPixel(p, sx, sy) != 0
      ensures PathClear(g, 4, 4, p, Clockwise, sx, sy)
    {
      assert sy == 0;
      if sx == 0 {
        ClockwiseDiagonalSkipsTarget(g, 4, 4, p, 0);
      } else {
        OverlapPathClear(g, p, sx);
      }
    }
    var q := p.(pixels := Rotated(p.pixels, 4, Clockwise));
    RotatedMovesPixels(p.pixels, 4, Clockwise, 0, 0);
    assert Covers(q, 0, 3);
  }

  /** On the board of ClockwiseCheckCanOverlap, the clockwise path of cell
      (sx, 0) with sx > 0 walks row 0 to column 0 and then column 0 up to row
      3 - sx, all below the occupied cell. */
  lemma OverlapPathClear(g: Grid, p: Piece, sx: int)
    requires g == [[0, 0, 0, 0], [0, 0, 0, 0], [0, 0, 0, 0], [1, 0, 0, 0]]
    requires p.size == 4 && p.x == 0 && p.y == 0 && 1 <= sx < 4
    ensures IsGrid(g, 4, 4) && PathClear(g, 4, 4, p, Clockwise, sx, 0)
  {
    assert IsGrid(g, 4, 4);
    assert SweepOf(Clockwise, 4, sx, 0) == Sweep(false, true, false);
    assert forall x :: 0 <= x <= sx ==> FieldPixel(g, 4, 4, x, 0) == 0;
    assert forall y :: 0 <= y <= 3 - sx ==> FieldPixel(g, 4, 4, 0, y) == 0;
  }
}
