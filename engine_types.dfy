/** Data model of the engine's public header: pixel and score types, the
    piece buffer geometry, the flat 2D addressing rule, the game status and
    the result codes of the public operations. */
module EngineTypes {

  /** Width and height of a piece buffer. */
  const TetrominoMaxSize: int := 4

  /** Number of cells of a piece buffer (TetrominoMaxSize squared). */
  const TetrominoArrayMaxSize: int := 16

  /** Cells of the board and of piece buffers: an unsigned byte, 0 = empty. */
  type Pixel = b: int | 0 <= b < 256

  /** 2^32, the modulus of the unsigned 32-bit score arithmetic. */
  const Two32: int := 0x1_0000_0000

  type Uint32 = n: int | 0 <= n < 0x1_0000_0000

  /** Index of cell (x, y) of a row-major flat array of the given width. */
  function FlatIndex(x: int, y: int, width: int): int
  {
    y * width + x
  }

  /** Index of local cell (x, y) of a piece buffer: the row-major rule
      above at the buffer's fixed width TetrominoMaxSize, written with the
      constant first so that buffer indexing stays linear arithmetic. */
  function BufferIndex(x: int, y: int): int
  {
    TetrominoMaxSize * y + x
  }

  /** Every cell of a width x height grid has an index inside the array. */
  lemma FlatIndexInRange(x: int, y: int, width: int, height: int)
    requires 0 <= x < width && 0 <= y < height
    ensures 0 <= FlatIndex(x, y, width) < width * height
  {
    assert y * width <= (height - 1) * width by {
      MulMonotone(y, height - 1, width);
    }
  }

  /** Distinct cells of a grid have distinct indices. */
  lemma FlatIndexInjective(x1: int, y1: int, x2: int, y2: int, width: int)
    requires 0 <= x1 < width && 0 <= x2 < width && 0 <= y1 && 0 <= y2
    ensures FlatIndex(x1, y1, width) == FlatIndex(x2, y2, width) ==> x1 == x2 && y1 == y2
  {
    if FlatIndex(x1, y1, width) == FlatIndex(x2, y2, width) {
      CoordinatesOfIndex(x1, y1, width);
      CoordinatesOfIndex(x2, y2, width);
    }
  }

  /** The coordinates of a cell are recovered from its index by division. */
  lemma CoordinatesOfIndex(x: int, y: int, width: int)
    requires 0 <= x < width && 0 <= y
    ensures FlatIndex(x, y, width) / width == y
    ensures FlatIndex(x, y, width) % width == x
  {
    var i := y * width + x;
    assert y * width == width * y;
    DivModUnique(i, width, y, x);
  }

  lemma DivModUnique(i: int, d: int, q: int, r: int)
    requires d > 0 && 0 <= r < d && i == d * q + r
    ensures i / d == q && i % d == r
  {
    var q', r' := i / d, i % d;
    assert d * (q - q') == r' - r;
    if q > q' {
      MulMonotone(1, q - q', d);
      assert false;
    } else if q < q' {
      MulMonotone(1, q' - q, d);
      assert false;
    }
  }

  /** Every index of a width x height array belongs to a cell of the grid
      (used by FlatField.GridOfInjective). */
  lemma IndexCoordinates(i: int, width: int, height: int)
    requires width > 0 && 0 <= i < width * height
    ensures 0 <= i % width < width && 0 <= i / width < height
    ensures FlatIndex(i % width, i / width, width) == i
  {
    if i / width >= height {
      assert (i / width) * width >= height * width by { MulMonotone(height, i / width, width); }
    }
  }

  lemma MulMonotone(a: int, b: int, c: int)
    requires a <= b && c >= 0
    ensures a * c <= b * c
  {
    assert b * c - a * c == (b - a) * c;
  }

  /** What a shape generator hands to the engine: a size in [2, 4] and a
      fully written 16-cell buffer that is empty outside size x size and whose
      occupied cells touch row 0 and column 0. */
  datatype Shape = Shape(size: int, pixels: seq<Pixel>)

  /** A buffer of 16 cells that is empty outside its size x size square. */
  ghost predicate PieceBuffer(size: int, pixels: seq<Pixel>)
  {
    && 2 <= size <= TetrominoMaxSize
    && |pixels| == TetrominoArrayMaxSize
    && forall i :: 0 <= i < TetrominoArrayMaxSize && (i % 4 >= size || i / 4 >= size) ==> pixels[i] == 0
  }

  /** The generator's contract: a piece buffer anchored at local (0, 0). */
  ghost predicate ValidShape(s: Shape)
  {
    && PieceBuffer(s.size, s.pixels)
    && (exists x :: 0 <= x < s.size && s.pixels[BufferIndex(x, 0)] != 0)
    && (exists y :: 0 <= y < s.size && s.pixels[BufferIndex(0, y)] != 0)
  }

  datatype GameStatus = InitGameStatus | PlayGameStatus | EndMaxScoreStatus | EndPlayerLoose

  /** Result of moveLeft, moveRight, rotateClockwise, rotateAgainstClockwise. */
  datatype MoveResult = Done | Blocked
  {
    /** The integer the engine's move and rotate functions return to the
        host: 0 done, 1 blocked. The methods of Engine.Game return the
        datatype; this is the value the host receives for it. */
    function Code(): (c: nat)
      ensures c == 0 <==> this == Done
      ensures c <= 1
    {
      if Done? then 0 else 1
    }
  }

  /** Result of tick. */
  datatype TickResult = MovedDown | CouldNotMoveDown | MaxScoreReached | PlayerLost
  {
    /** The integer tick returns to the host: 0 moved down, 1 could not move
        down, 2 maximum score reached, 3 player lost. Engine.Game.Tick returns
        the datatype; this is the value the host receives for it. */
    function Code(): (c: nat)
      ensures c < 4
      ensures c == 0 <==> this == MovedDown
      ensures c == 1 <==> this == CouldNotMoveDown
      ensures c == 2 <==> this == MaxScoreReached
      ensures c == 3 <==> this == PlayerLost
    {
      match this
      case MovedDown => 0
      case CouldNotMoveDown => 1
      case MaxScoreReached => 2
      case PlayerLost => 3
    }
  }
}
