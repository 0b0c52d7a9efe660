/** The game field seen as a grid of rows, row 0 at the floor: the boundary
    rule of getGameFieldPixel, the single cell write of setPixel, the
    footprint written and erased by pushActiveTetrominoInfo and
    popActiveTetrominoInfo, and the field cleanLines leaves behind. */
module Board {
  import opened EngineTypes

  /** Rows of pixels, bottom row first: g[y][x] is cell (x, y). */
  type Grid = seq<seq<Pixel>>

  /** The active piece seen as a value: its size, the board position of its
      local origin, and its 16-cell buffer. */
  datatype Piece = Piece(size: int, x: int, y: int, pixels: seq<Pixel>)

  /** A grid of height rows of width cells each. */
  predicate IsGrid(g: Grid, width: int, height: int)
  {
    |g| == height && forall y :: 0 <= y < |g| ==> |g[y]| == width
  }

  predicate InBoard(width: int, height: int, x: int, y: int)
  {
    0 <= x < width && 0 <= y < height
  }

  /** The field read through the boundary rule. */
  function FieldPixel(g: Grid, width: int, height: int, x: int, y: int): (p: Pixel)
    requires IsGrid(g, width, height)
    ensures InBoard(width, height, x, y) ==> p == g[y][x]
    ensures !InBoard(width, height, x, y) ==> p == (if 0 <= x < width && y >= height then 0 else 1)
  {
    if x < 0 || x >= width then 1
    else if y < 0 then 1
    else if y >= height then 0
    else g[y][x]
  }

  /** The field after setPixel(v, x, y): the cell is written only inside the board. */
  function SetCell(g: Grid, width: int, height: int, x: int, y: int, v: Pixel): (r: Grid)
    requires IsGrid(g, width, height)
    ensures IsGrid(r, width, height)
  {
    if InBoard(width, height, x, y) then
      var row: seq<Pixel> := g[y][x := v]; g[y := row]
    else g
  }

  /** Reading a cell after setPixel: only the written cell changes, and only
      when it is inside the board; every other read, including the reads
      outside the board, is unchanged. */
  lemma GetAfterSet(g: Grid, width: int, height: int, x: int, y: int, v: Pixel, x': int, y': int)
    requires IsGrid(g, width, height)
    ensures FieldPixel(SetCell(g, width, height, x, y, v), width, height, x', y') ==
            if x' == x && y' == y && InBoard(width, height, x, y) then v
            else FieldPixel(g, width, height, x', y')
  {
  }

  // ----- the active piece's footprint -----

  /** Pixel of the piece at local (lx, ly); empty outside its size x size square. */
  function LocalPixel(p: Piece, lx: int, ly: int): Pixel
  {
    if 0 <= lx < p.size && 0 <= ly < p.size && p.size <= TetrominoMaxSize && |p.pixels| == TetrominoArrayMaxSize
    then p.pixels[BufferIndex(lx, ly)]
    else 0
  }

  /** Whether board cell (x, y) is an occupied cell of the piece. */
  predicate Covers(p: Piece, x: int, y: int)
  {
    LocalPixel(p, x - p.x, y - p.y) != 0
  }

  /** Whether local cell (lx, ly) comes before scan position (rows, cols) of
      the row-by-row scan of the piece's square. */
  predicate ScannedBefore(lx: int, ly: int, rows: int, cols: int)
  {
    ly < rows || (ly == rows && lx < cols)
  }

  /** The field once the scan of push (erase = false) or pop (erase = true)
      has reached position (rows, cols): every occupied piece cell scanned so
      far holds the piece's pixel (push) or 0 (pop). */
  function Stamped(g: Grid, p: Piece, erase: bool, rows: int, cols: int): (r: Grid)
    ensures |r| == |g| && forall y :: 0 <= y < |g| ==> |r[y]| == |g[y]|
  {
    seq(|g|, y requires 0 <= y < |g| =>
      seq(|g[y]|, x requires 0 <= x < |g[y]| =>
        if Covers(p, x, y) && ScannedBefore(x - p.x, y - p.y, rows, cols)
        then (if erase then 0 else LocalPixel(p, x - p.x, y - p.y))
        else g[y][x]))
  }

  /** pushActiveTetrominoInfo: the field with the piece's footprint written in. */
  function Pushed(g: Grid, p: Piece): (r: Grid)
    ensures |r| == |g| && forall y :: 0 <= y < |g| ==> |r[y]| == |g[y]|
    ensures forall y, x :: 0 <= y < |g| && 0 <= x < |g[y]| ==>
      r[y][x] == if Covers(p, x, y) then LocalPixel(p, x - p.x, y - p.y) else g[y][x]
  {
    Stamped(g, p, false, p.size, 0)
  }

  /** popActiveTetrominoInfo: the field with the piece's footprint erased. */
  function Popped(g: Grid, p: Piece): (r: Grid)
    ensures |r| == |g| && forall y :: 0 <= y < |g| ==> |r[y]| == |g[y]|
    ensures forall y, x :: 0 <= y < |g| && 0 <= x < |g[y]| ==>
      r[y][x] == if Covers(p, x, y) then 0 else g[y][x]
  {
    Stamped(g, p, true, p.size, 0)
  }

  /** The piece's footprint is present in the field. */
  ghost predicate Merged(g: Grid, p: Piece)
  {
    forall y, x :: 0 <= y < |g| && 0 <= x < |g[y]| && Covers(p, x, y) ==> g[y][x] == LocalPixel(p, x - p.x, y - p.y)
  }

  /** After a push the footprint is present. */
  lemma PushMerges(g: Grid, p: Piece)
    ensures Merged(Pushed(g, p), p)
  {
  }

  /** The pop -> push bracket with no change in between restores a field in
      which the footprint was present. */
  lemma PopPushRestores(g: Grid, p: Piece)
    requires Merged(g, p)
    ensures Pushed(Popped(g, p), p) == g
  {
    var r := Pushed(Popped(g, p), p);
    forall y | 0 <= y < |g| ensures r[y] == g[y] {
    }
  }

  /** Popping after a push erases what the push wrote, whatever the field held there. */
  lemma PushPopErases(g: Grid, p: Piece)
    ensures Popped(Pushed(g, p), p) == Popped(g, p)
  {
    var r, r' := Popped(Pushed(g, p), p), Popped(g, p);
    forall y | 0 <= y < |g| ensures r[y] == r'[y] {
    }
  }

  /** A piece lying wholly above the board has no footprint in it. */
  lemma AboveBoardNotMerged(g: Grid, width: int, height: int, p: Piece)
    requires IsGrid(g, width, height) && p.y >= height
    ensures Pushed(g, p) == g && Popped(g, p) == g && Merged(g, p)
  {
    var r, r' := Pushed(g, p), Popped(g, p);
    forall y | 0 <= y < |g| ensures r[y] == g[y] && r'[y] == g[y] {
    }
  }

  /** A cell of a partly stamped field. */
  lemma StampedAt(g: Grid, p: Piece, erase: bool, rows: int, cols: int, x: int, y: int)
    requires 0 <= y < |g| && 0 <= x < |g[y]|
    ensures Stamped(g, p, erase, rows, cols)[y][x] ==
      if Covers(p, x, y) && ScannedBefore(x - p.x, y - p.y, rows, cols)
      then (if erase then 0 else LocalPixel(p, x - p.x, y - p.y))
      else g[y][x]
  {
  }

  /** One step of the push/pop scan at an occupied local cell (lx, ly): the
      cell is written through setPixel (with 0 for a pop). */
  lemma StampStep(g: Grid, width: int, height: int, p: Piece, erase: bool, lx: int, ly: int)
    requires IsGrid(g, width, height)
    requires 0 <= lx < p.size && 0 <= ly < p.size && LocalPixel(p, lx, ly) != 0
    ensures IsGrid(Stamped(g, p, erase, ly, lx), width, height)
    ensures SetCell(Stamped(g, p, erase, ly, lx), width, height, p.x + lx, p.y + ly, if erase then 0 else LocalPixel(p, lx, ly))
        == Stamped(g, p, erase, ly, lx + 1)
  {
    var cur, next := Stamped(g, p, erase, ly, lx), Stamped(g, p, erase, ly, lx + 1);
    var v: Pixel := if erase then 0 else LocalPixel(p, lx, ly);
    var X, Y := p.x + lx, p.y + ly;
    var r := SetCell(cur, width, height, X, Y, v);
    forall y | 0 <= y < |g| ensures r[y] == next[y] {
      forall x | 0 <= x < width ensures r[y][x] == next[y][x] {
        StampedAt(g, p, erase, ly, lx, x, y);
        StampedAt(g, p, erase, ly, lx + 1, x, y);
        if x == X && y == Y {
          assert r[y][x] == v;
        } else {
          assert r[y][x] == cur[y][x];
        }
      }
    }
  }

  /** One step of the push/pop scan at an empty local cell: nothing is written. */
  lemma StampSkip(g: Grid, p: Piece, erase: bool, lx: int, ly: int)
    requires LocalPixel(p, lx, ly) == 0
    ensures Stamped(g, p, erase, ly, lx) == Stamped(g, p, erase, ly, lx + 1)
  {
    var cur, next := Stamped(g, p, erase, ly, lx), Stamped(g, p, erase, ly, lx + 1);
    forall y | 0 <= y < |g| ensures cur[y] == next[y] {
      forall x | 0 <= x < |g[y]| ensures cur[y][x] == next[y][x] {
        StampedAt(g, p, erase, ly, lx, x, y);
        StampedAt(g, p, erase, ly, lx + 1, x, y);
      }
    }
  }

  /** The end of one scanned row is the start of the next. */
  lemma StampNextRow(g: Grid, p: Piece, erase: bool, ly: int)
    ensures Stamped(g, p, erase, ly, p.size) == Stamped(g, p, erase, ly + 1, 0)
  {
    var a, b := Stamped(g, p, erase, ly, p.size), Stamped(g, p, erase, ly + 1, 0);
    forall y | 0 <= y < |g| ensures a[y] == b[y] {
    }
  }

  /** Nothing is written before the scan starts. */
  lemma StampStart(g: Grid, p: Piece, erase: bool)
    ensures Stamped(g, p, erase, 0, 0) == g
  {
    var a := Stamped(g, p, erase, 0, 0);
    forall y | 0 <= y < |g| ensures a[y] == g[y] {
    }
  }

  // ----- collision scans of the moves -----

  /** The piece displaced by (dx, dy). */
  function Shifted(p: Piece, dx: int, dy: int): (q: Piece)
    ensures q.size == p.size && q.pixels == p.pixels && q.x == p.x + dx && q.y == p.y + dy
  {
    p.(x := p.x + dx, y := p.y + dy)
  }

  /** The scan of moveLeft (dx = -1) and moveRight (dx = 1) over the piece's
      size x size square: every occupied cell has a cell reading 0 at
      offset (dx, dy). */
  ghost predicate ShiftFree(g: Grid, width: int, height: int, p: Piece, dx: int, dy: int)
    requires IsGrid(g, width, height)
  {
    forall ly, lx :: 0 <= ly < p.size && 0 <= lx < p.size && LocalPixel(p, lx, ly) != 0 ==>
      FieldPixel(g, width, height, p.x + lx + dx, p.y + ly + dy) == 0
  }

  /** The scan of canActiveTetrominoMoveDown, which runs over the whole
      4 x 4 buffer rather than the size x size square. */
  ghost predicate BufferDownFree(g: Grid, width: int, height: int, p: Piece)
    requires IsGrid(g, width, height) && |p.pixels| == TetrominoArrayMaxSize
  {
    forall ly, lx :: 0 <= ly < TetrominoMaxSize && 0 <= lx < TetrominoMaxSize && p.pixels[BufferIndex(lx, ly)] != 0 ==>
      FieldPixel(g, width, height, p.x + lx, p.y + ly - 1) == 0
  }

  /** The independent meaning of a free position: every occupied cell of the
      piece lies between the walls, not below the floor, and on an empty cell
      when it is inside the board (cells above the board are free). */
  ghost predicate Fits(g: Grid, width: int, height: int, q: Piece)
    requires IsGrid(g, width, height)
  {
    forall y, x :: Covers(q, x, y) ==> 0 <= x < width && 0 <= y && (y < height ==> g[y][x] == 0)
  }

  /** Since a piece buffer is empty outside its square, the 4 x 4 scan of
      moving down answers the same as the size x size scan at offset (0, -1). */
  lemma BufferScanIsSquareScan(g: Grid, width: int, height: int, p: Piece)
    requires IsGrid(g, width, height) && PieceBuffer(p.size, p.pixels)
    ensures BufferDownFree(g, width, height, p) <==> ShiftFree(g, width, height, p, 0, -1)
  {
    if ShiftFree(g, width, height, p, 0, -1) {
      forall ly, lx | 0 <= ly < TetrominoMaxSize && 0 <= lx < TetrominoMaxSize && p.pixels[BufferIndex(lx, ly)] != 0
        ensures FieldPixel(g, width, height, p.x + lx, p.y + ly - 1) == 0
      {
        var i := BufferIndex(lx, ly);
        assert i % 4 == lx && i / 4 == ly;
        assert LocalPixel(p, lx, ly) != 0;
      }
    }
    if BufferDownFree(g, width, height, p) {
      forall ly, lx | 0 <= ly < p.size && 0 <= lx < p.size && LocalPixel(p, lx, ly) != 0
        ensures FieldPixel(g, width, height, p.x + lx + 0, p.y + ly + -1) == 0
      {
        assert p.pixels[BufferIndex(lx, ly)] != 0;
      }
    }
  }

  /** A scan succeeds exactly when the displaced piece fits. */
  lemma ShiftFreeIffFits(g: Grid, width: int, height: int, p: Piece, dx: int, dy: int)
    requires IsGrid(g, width, height)
    ensures ShiftFree(g, width, height, p, dx, dy) <==> Fits(g, width, height, Shifted(p, dx, dy))
  {
    var q := Shifted(p, dx, dy);
    if ShiftFree(g, width, height, p, dx, dy) {
      forall y, x | Covers(q, x, y) ensures 0 <= x < width && 0 <= y && (y < height ==> g[y][x] == 0) {
        var lx, ly := x - q.x, y - q.y;
        assert LocalPixel(p, lx, ly) == LocalPixel(q, lx, ly);
        assert FieldPixel(g, width, height, p.x + lx + dx, p.y + ly + dy) == 0;
      }
    }
    if Fits(g, width, height, q) {
      forall ly, lx | 0 <= ly < p.size && 0 <= lx < p.size && LocalPixel(p, lx, ly) != 0
        ensures FieldPixel(g, width, height, p.x + lx + dx, p.y + ly + dy) == 0
      {
        assert LocalPixel(q, lx, ly) == LocalPixel(p, lx, ly);
        assert Covers(q, q.x + lx, q.y + ly);
      }
    }
  }

  /** What isActiveTetrominoInGameBoard answers: no occupied cell of the
      piece is at or above the top row's upper edge. */
  ghost predicate InsideTop(p: Piece, height: int)
  {
    forall ly, lx :: 0 <= ly < p.size && 0 <= lx < p.size && LocalPixel(p, lx, ly) != 0 ==> p.y + ly < height
  }

  // ----- cleanLines -----

  /** A row is full when every one of its cells is occupied. */
  predicate RowFull(row: seq<Pixel>)
  {
    forall x :: 0 <= x < |row| ==> row[x] != 0
  }

  function ZeroRow(width: nat): (r: seq<Pixel>)
    ensures |r| == width && forall x :: 0 <= x < width ==> r[x] == 0
  {
    seq(width, _ => 0)
  }

  function ZeroRows(k: nat, width: nat): (r: Grid)
    ensures |r| == k && forall y :: 0 <= y < k ==> r[y] == ZeroRow(width)
  {
    seq(k, _ => ZeroRow(width))
  }

  /** The rows that are not full, in their order from the floor up. */
  function KeptRows(g: Grid): Grid
  {
    if |g| == 0 then []
    else (if RowFull(g[0]) then [] else [g[0]]) + KeptRows(g[1..])
  }

  /** The number of full rows. */
  function FullRows(g: Grid): nat
  {
    if |g| == 0 then 0
    else (if RowFull(g[0]) then 1 else 0) + FullRows(g[1..])
  }

  /** The field cleanLines leaves behind: the rows that were not full, in
      their order from the floor up, then one empty row per full row. */
  function Cleaned(g: Grid, width: nat): Grid
  {
    KeptRows(g) + ZeroRows(FullRows(g), width)
  }

  /** Kept and cleared rows account for every row, and every kept row is a
      row of the field that is not full. */
  lemma {:induction false} KeptRowsAreNonFull(g: Grid)
    ensures |KeptRows(g)| + FullRows(g) == |g|
    ensures forall k :: 0 <= k < |KeptRows(g)| ==> !RowFull(KeptRows(g)[k])
    ensures forall k :: 0 <= k < |KeptRows(g)| ==> KeptRows(g)[k] in g
  {
    if |g| > 0 {
      KeptRowsAreNonFull(g[1..]);
      var rest := KeptRows(g[1..]);
      forall k | 0 <= k < |rest| ensures rest[k] in g {
        assert rest[k] in g[1..];
      }
    }
  }

  /** Every row that is not full survives: its content appears among the kept rows. */
  lemma {:induction false} NonFullRowKept(g: Grid, y: int)
    requires 0 <= y < |g| && !RowFull(g[y])
    ensures g[y] in KeptRows(g)
  {
    if y > 0 {
      assert g[1..][y - 1] == g[y];
      NonFullRowKept(g[1..], y - 1);
    }
  }

  /** The cleaned field has the board's shape. */
  lemma CleanedIsGrid(g: Grid, width: nat, height: nat)
    requires IsGrid(g, width, height)
    ensures IsGrid(Cleaned(g, width), width, height)
  {
    KeptRowsAreNonFull(g);
    forall k | 0 <= k < |KeptRows(g)| ensures |KeptRows(g)[k]| == width {
      var row := KeptRows(g)[k];
      assert row in g;
    }
  }

  /** cleanLines reports 0 exactly when no row is full, and then it leaves
      the field as it was. */
  lemma {:induction false} NothingFullNothingCleaned(g: Grid, width: nat)
    ensures FullRows(g) == 0 <==> forall y :: 0 <= y < |g| ==> !RowFull(g[y])
    ensures FullRows(g) == 0 ==> Cleaned(g, width) == g
  {
    if |g| > 0 {
      NothingFullNothingCleaned(g[1..], width);
      if forall y :: 0 <= y < |g| ==> !RowFull(g[y]) {
        forall y | 0 <= y < |g| - 1 ensures !RowFull(g[1..][y]) {
          assert g[1..][y] == g[y + 1];
        }
      }
      if FullRows(g) == 0 {
        forall y | 0 <= y < |g| ensures !RowFull(g[y]) {
          if y > 0 {
            assert g[y] == g[1..][y - 1];
          }
        }
        assert g == [g[0]] + g[1..];
      }
    }
  }

  /** The number of rows cleanLines clears is the number of full rows. */
  lemma {:induction false} FullRowsCounts(g: Grid)
    ensures FullRows(g) == |set y | 0 <= y < |g| && RowFull(g[y])|
    decreases |g|
  {
    if |g| > 0 {
      var n := |g| - 1;
      var front := g[..n];
      FullRowsCounts(front);
      FullRowsAppend(front, g[n]);
      assert front + [g[n]] == g;
      var s := set y | 0 <= y < |g| && RowFull(g[y]);
      var s' := set y | 0 <= y < n && RowFull(front[y]);
      if RowFull(g[n]) {
        assert s == s' + {n};
      } else {
        assert s == s';
      }
    }
  }

  lemma {:induction false} FullRowsAppend(g: Grid, row: seq<Pixel>)
    ensures FullRows(g + [row]) == FullRows(g) + (if RowFull(row) then 1 else 0)
    decreases |g|
  {
    if |g| > 0 {
      assert (g + [row])[0] == g[0];
      assert (g + [row])[1..] == g[1..] + [row];
      FullRowsAppend(g[1..], row);
    } else {
      assert g + [row] == [row];
    }
  }

  /** No row of the cleaned field is full, so cleaning again changes nothing. */
  lemma CleanedHasNoFullRow(g: Grid, width: nat)
    requires width > 0
    ensures forall y :: 0 <= y < |Cleaned(g, width)| ==> !RowFull(Cleaned(g, width)[y])
    ensures FullRows(Cleaned(g, width)) == 0
    ensures Cleaned(Cleaned(g, width), width) == Cleaned(g, width)
  {
    var c := Cleaned(g, width);
    KeptRowsAreNonFull(g);
    forall y | 0 <= y < |c| ensures !RowFull(c[y]) {
      if y >= |KeptRows(g)| {
        assert c[y] == ZeroRow(width);
        assert c[y][0] == 0;
      }
    }
    NothingFullNothingCleaned(c, width);
  }

  /** A full row found by the top-down scan of cleanLines is dropped; the
      kept rows above it are unchanged. */
  lemma KeptRowsStep(g: Grid, y: int)
    requires 0 <= y < |g|
    ensures KeptRows(g[y..]) == (if RowFull(g[y]) then [] else [g[y]]) + KeptRows(g[y + 1..])
    ensures FullRows(g[y..]) == (if RowFull(g[y]) then 1 else 0) + FullRows(g[y + 1..])
  {
    assert g[y..][0] == g[y];
    assert g[y..][1..] == g[y + 1..];
  }

  /** The field the top-down scan of cleanLines holds once rows y + 1 and
      above have been scanned: rows 0..y as they were, then the rows above
      that were not full, then one empty row per full row above. */
  function CleanedAbove(g: Grid, y: int, width: nat): Grid
    requires -1 <= y < |g|
  {
    g[..y + 1] + KeptRows(g[y + 1..]) + ZeroRows(FullRows(g[y + 1..]), width)
  }

  /** Nothing is cleaned before the scan; after the last row the whole
      field is cleaned. */
  lemma CleanedAboveEnds(g: Grid, width: nat)
    ensures CleanedAbove(g, |g| - 1, width) == g
    ensures CleanedAbove(g, -1, width) == Cleaned(g, width)
  {
    assert g[..|g|] == g;
    assert g[|g|..] == [];
    assert g[0..] == g;
  }

  /** One step of the scan at row y: row y is still the original row; a
      full row is removed (the rows above move down one row and an empty
      row enters at the top), a row that is not full stays. Rows shifted
      down into y were scanned already and are not full, so the engine
      does not look at row y again. */
  lemma CleanedAboveStep(g: Grid, y: int, width: nat)
    requires 0 <= y < |g|
    ensures |CleanedAbove(g, y, width)| == |g| && CleanedAbove(g, y, width)[y] == g[y]
    ensures var cur := CleanedAbove(g, y, width);
            CleanedAbove(g, y - 1, width) == if RowFull(g[y]) then cur[..y] + cur[y + 1..] + [ZeroRow(width)] else cur
  {
    KeptRowsAreNonFull(g[y + 1..]);
    KeptRowsStep(g, y);
    var front, kept, k := g[..y], KeptRows(g[y + 1..]), FullRows(g[y + 1..]);
    var rest := kept + ZeroRows(k, width);
    var cur := CleanedAbove(g, y, width);
    assert cur == front + [g[y]] + rest by {
      assert g[..y + 1] == front + [g[y]];
    }
    var next := CleanedAbove(g, y - 1, width);
    assert next == front + KeptRows(g[y..]) + ZeroRows(FullRows(g[y..]), width);
    RegroupRows(front, g[y], kept, ZeroRows(k, width), ZeroRow(width));
    if RowFull(g[y]) {
      assert KeptRows(g[y..]) == kept;
      ZeroRowsSnoc(k, width);
    }
  }

  /** The two ways cleanLines's step regroups the rows around row |front|:
      dropping it and appending a row on top, or keeping it. */
  lemma RegroupRows(front: Grid, row: seq<Pixel>, kept: Grid, zeros: Grid, top: seq<Pixel>)
    ensures var cur := front + [row] + (kept + zeros);
            cur[..|front|] + cur[|front| + 1..] + [top] == front + kept + (zeros + [top])
    ensures front + [row] + (kept + zeros) == front + ([row] + kept) + zeros
  {
    var cur := front + [row] + (kept + zeros);
    assert cur[..|front|] == front;
    assert cur[|front| + 1..] == kept + zeros;
  }

  lemma ZeroRowsSnoc(k: nat, width: nat)
    ensures ZeroRows(k, width) + [ZeroRow(width)] == ZeroRows(k + 1, width)
  {
  }

}
