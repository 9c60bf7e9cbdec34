/** The QR-to-board renderer (`insert_qr_to_pcb`): one filled square per
    black cell of the bitmap, mirrored left to right on back-side layers. */
module Renderer {
  import opened Pcb
  import opened Layers

  /** A bitmap as rows of pixel values, indexed `g[y][x]`. */
  type Grid = seq<seq<int>>

  /** A pixel is black when its value is 0. */
  predicate IsBlack(v: int) { v == 0 }

  function GridWidth(g: Grid): nat
  {
    if |g| == 0 then 0 else |g[0]|
  }

  /** Every row has the same length, as in any image. */
  predicate Rectangular(g: Grid)
  {
    forall y :: 0 <= y < |g| ==> |g[y]| == GridWidth(g)
  }

  /** A row read from right to left. */
  function Reversed(row: seq<int>): (r: seq<int>)
    ensures |r| == |row|
  {
    if |row| == 0 then [] else [row[|row| - 1]] + Reversed(row[..|row| - 1])
  }

  lemma {:induction false} ReversedAt(row: seq<int>, x: nat)
    requires x < |row|
    ensures Reversed(row)[x] == row[|row| - 1 - x]
  {
    if x > 0 {
      ReversedAt(row[..|row| - 1], x - 1);
    }
  }

  /** Reading a row backwards twice gives the row back. */
  lemma ReversedTwice(row: seq<int>)
    ensures Reversed(Reversed(row)) == row
  {
    forall x | 0 <= x < |row| ensures Reversed(Reversed(row))[x] == row[x] {
      ReversedAt(Reversed(row), x);
      ReversedAt(row, |row| - 1 - x);
    }
  }

  /** The left-right flip of the bitmap: each row reversed. */
  function Mirrored(g: Grid): (m: Grid)
    requires Rectangular(g)
    ensures |m| == |g| && Rectangular(m) && GridWidth(m) == GridWidth(g)
  {
    seq(|g|, y requires 0 <= y < |g| => Reversed(g[y]))
  }

  /** After the flip, column x holds what column width-1-x held, row by row. */
  lemma MirroredAt(g: Grid, x: nat, y: nat)
    requires Rectangular(g) && y < |g| && x < GridWidth(g)
    ensures Mirrored(g)[y][x] == g[y][GridWidth(g) - 1 - x]
  {
    ReversedAt(g[y], x);
  }

  /** Flipping twice restores the bitmap. */
  lemma MirroredTwice(g: Grid)
    requires Rectangular(g)
    ensures Mirrored(Mirrored(g)) == g
  {
    forall y | 0 <= y < |g| ensures Mirrored(Mirrored(g))[y] == g[y] {
      ReversedTwice(g[y]);
    }
  }

  /** The bitmap as the renderer draws it on `layer`. */
  function Oriented(g: Grid, layer: Layer): (o: Grid)
    requires Rectangular(g)
    ensures |o| == |g| && Rectangular(o) && GridWidth(o) == GridWidth(g)
  {
    if IsBacksideLayer(layer) then Mirrored(g) else g
  }

  /** x times the pixel size p, the distance of pixel x from the start,
      built up one pixel at a time (`OffsetIsProduct` shows it is the product). */
  function Offset(x: nat, p: real): real
  {
    if x == 0 then 0.0 else Offset(x - 1, p) + p
  }

  lemma {:induction false} OffsetIsProduct(x: nat, p: real)
    ensures Offset(x, p) == x as real * p
  {
    if x > 0 {
      OffsetIsProduct(x - 1, p);
      assert (x - 1) as real * p + p == x as real * p;
    }
  }

  lemma {:induction false} OffsetAdd(a: nat, b: nat, p: real)
    ensures Offset(a + b, p) == Offset(a, p) + Offset(b, p)
  {
    if b > 0 {
      OffsetAdd(a, b - 1, p);
    }
  }

  lemma {:induction false} OffsetMonotone(a: nat, b: nat, p: real)
    requires a <= b && p >= 0.0
    ensures Offset(a, p) <= Offset(b, p)
  {
    if a < b {
      OffsetMonotone(a, b - 1, p);
    }
  }

  /** The filled, borderless square drawn for the cell in column x, row y:
      from (sx + x·p, sy + y·p) to (sx + (x+1)·p, sy + (y+1)·p). */
  function CellSquare(sx: real, sy: real, p: real, layer: Layer, x: nat, y: nat): (d: Drawable)
    ensures IsQrSquare(d, layer)
    ensures d.end.x - d.start.x == p && d.end.y - d.start.y == p
  {
    Drawable(
      Shape(Rectangle), "",
      Point(sx + Offset(x, p), sy + Offset(y, p)),
      Point(sx + Offset(x + 1, p), sy + Offset(y + 1, p)),
      layer, 0.0, true)
  }

  /** Every square the renderer draws is a filled, borderless rectangle on
      the given layer. */
  predicate IsQrSquare(d: Drawable, layer: Layer)
  {
    && d.kind == Shape(Rectangle)
    && d.filled && d.strokeWidth == 0.0 && d.layer == layer
  }

  /** The squares drawn for the first n cells of row y, left to right. */
  function RowSquares(row: seq<int>, n: nat, sx: real, sy: real, p: real, layer: Layer, y: nat): (r: seq<Drawable>)
    requires n <= |row|
    ensures forall d :: d in r ==> IsQrSquare(d, layer)
  {
    if n == 0 then []
    else
      var cell := if IsBlack(row[n - 1]) then [CellSquare(sx, sy, p, layer, n - 1, y)] else [];
      RowSquares(row, n - 1, sx, sy, p, layer, y) + cell
  }

  /** The squares drawn for the first n rows, top to bottom. */
  function GridSquares(g: Grid, n: nat, sx: real, sy: real, p: real, layer: Layer): (r: seq<Drawable>)
    requires Rectangular(g) && n <= |g|
    ensures forall d :: d in r ==> IsQrSquare(d, layer)
  {
    if n == 0 then []
    else GridSquares(g, n - 1, sx, sy, p, layer) + RowSquares(g[n - 1], GridWidth(g), sx, sy, p, layer, n - 1)
  }

  /** Everything `insert_qr_to_pcb` adds to the board, in order. */
  function Rendered(qr: Grid, sx: real, sy: real, p: real, layer: Layer): (r: seq<Drawable>)
    requires Rectangular(qr)
    ensures forall d :: d in r ==> IsQrSquare(d, layer)
  {
    GridSquares(Oriented(qr, layer), |qr|, sx, sy, p, layer)
  }

  /** `insert_qr_to_pcb`: walks the (possibly flipped) bitmap row by row and
      appends one square per black pixel to the board. */
  method InsertQrToPcb(qr: Grid, board: Board, startX: real, startY: real, pixelSize: real, layer: Layer)
    requires Rectangular(qr)
    modifies board
    ensures board.drawings == old(board.drawings) + Rendered(qr, startX, startY, pixelSize, layer)
  {
    var width, height := GridWidth(qr), |qr|;
    var pixels := qr;
    if IsBacksideLayer(layer) {
      pixels := Mirrored(qr);
    }
    var y := 0;
    while y < height
      invariant 0 <= y <= height
      invariant board.drawings == old(board.drawings) + GridSquares(pixels, y, startX, startY, pixelSize, layer)
    {
      var x := 0;
      while x < width
        invariant 0 <= x <= width
        invariant board.drawings == old(board.drawings) + GridSquares(pixels, y, startX, startY, pixelSize, layer)
                                   + RowSquares(pixels[y], x, startX, startY, pixelSize, layer, y)
      {
        if pixels[y][x] == 0 {
          var square := CellSquare(startX, startY, pixelSize, layer, x, y);
          board.Add(square);
        }
        x := x + 1;
      }
      y := y + 1;
    }
  }

  // ---------------------------------------------------------------------
  // Counting: one square per black pixel.

  /** Number of black pixels among the first n of a row. */
  function BlackInRow(row: seq<int>, n: nat): nat
    requires n <= |row|
  {
    if n == 0 then 0 else BlackInRow(row, n - 1) + (if IsBlack(row[n - 1]) then 1 else 0)
  }

  /** Number of black pixels in the first n rows. */
  function BlackInRows(g: Grid, n: nat): nat
    requires Rectangular(g) && n <= |g|
  {
    if n == 0 then 0 else BlackInRows(g, n - 1) + BlackInRow(g[n - 1], GridWidth(g))
  }

  lemma {:induction false} RowSquaresCount(row: seq<int>, n: nat, sx: real, sy: real, p: real, layer: Layer, y: nat)
    requires n <= |row|
    ensures |RowSquares(row, n, sx, sy, p, layer, y)| == BlackInRow(row, n)
  {
    if n > 0 {
      RowSquaresCount(row, n - 1, sx, sy, p, layer, y);
    }
  }

  lemma {:induction false} GridSquaresCount(g: Grid, n: nat, sx: real, sy: real, p: real, layer: Layer)
    requires Rectangular(g) && n <= |g|
    ensures |GridSquares(g, n, sx, sy, p, layer)| == BlackInRows(g, n)
  {
    if n > 0 {
      GridSquaresCount(g, n - 1, sx, sy, p, layer);
      RowSquaresCount(g[n - 1], GridWidth(g), sx, sy, p, layer, n - 1);
    }
  }

  /** The renderer adds exactly as many squares as the drawn bitmap has black
      pixels. */
  lemma RenderedCount(qr: Grid, sx: real, sy: real, p: real, layer: Layer)
    requires Rectangular(qr)
    ensures |Rendered(qr, sx, sy, p, layer)| == BlackInRows(Oriented(qr, layer), |qr|)
  {
    GridSquaresCount(Oriented(qr, layer), |qr|, sx, sy, p, layer);
  }

  /** Flipping a row does not change how many of its pixels are black. */
  lemma {:induction false} ReversedBlackCount(row: seq<int>)
    ensures BlackInRow(Reversed(row), |row|) == BlackInRow(row, |row|)
  {
    if |row| > 0 {
      var init := row[..|row| - 1];
      ReversedBlackCount(init);
      BlackInRowFront(Reversed(row));
      assert Reversed(row)[1..] == Reversed(init);
      assert forall k :: 0 <= k < |init| ==> init[k] == row[k];
      BlackInRowAgree(init, row, |init|);
    }
  }

  /** Counting from the front gives the same as counting from the back. */
  lemma {:induction false} BlackInRowFront(row: seq<int>)
    requires |row| > 0
    ensures BlackInRow(row, |row|) == (if IsBlack(row[0]) then 1 else 0) + BlackInRow(row[1..], |row| - 1)
  {
    if |row| > 1 {
      var init := row[..|row| - 1];
      BlackInRowFront(init);
      BlackInRowAgree(init, row, |init|);
      BlackInRowAgree(init[1..], row[1..], |init| - 1);
    }
  }

  /** The count of the first n pixels only looks at those pixels. */
  lemma {:induction false} BlackInRowAgree(a: seq<int>, b: seq<int>, n: nat)
    requires n <= |a| && n <= |b|
    requires forall k :: 0 <= k < n ==> a[k] == b[k]
    ensures BlackInRow(a, n) == BlackInRow(b, n)
  {
    if n > 0 {
      BlackInRowAgree(a, b, n - 1);
    }
  }

  lemma {:induction false} MirroredBlackCount(g: Grid, n: nat)
    requires Rectangular(g) && n <= |g|
    ensures BlackInRows(Mirrored(g), n) == BlackInRows(g, n)
  {
    if n > 0 {
      MirroredBlackCount(g, n - 1);
      ReversedBlackCount(g[n - 1]);
    }
  }

  /** Mirroring moves squares but never adds or drops one: the square count
      equals the black-pixel count of the bitmap as encoded, on either side. */
  lemma RenderedCountOnAnyLayer(qr: Grid, sx: real, sy: real, p: real, layer: Layer)
    requires Rectangular(qr)
    ensures |Rendered(qr, sx, sy, p, layer)| == BlackInRows(qr, |qr|)
  {
    RenderedCount(qr, sx, sy, p, layer);
    if IsBacksideLayer(layer) {
      MirroredBlackCount(qr, |qr|);
    }
  }

  // ---------------------------------------------------------------------
  // Which squares are drawn, and in which order.

  /** Growing n only adds squares at the end of the row's list. */
  lemma {:induction false} RowSquaresPrefix(row: seq<int>, m: nat, n: nat, sx: real, sy: real, p: real, layer: Layer, y: nat)
    requires m <= n <= |row|
    ensures RowSquares(row, m, sx, sy, p, layer, y) <= RowSquares(row, n, sx, sy, p, layer, y)
  {
    if m < n {
      RowSquaresPrefix(row, m, n - 1, sx, sy, p, layer, y);
    }
  }

  lemma {:induction false} GridSquaresPrefix(g: Grid, m: nat, n: nat, sx: real, sy: real, p: real, layer: Layer)
    requires Rectangular(g) && m <= n <= |g|
    ensures GridSquares(g, m, sx, sy, p, layer) <= GridSquares(g, n, sx, sy, p, layer)
  {
    if m < n {
      GridSquaresPrefix(g, m, n - 1, sx, sy, p, layer);
    }
  }

  /** The square of black pixel x comes right after the squares of the black
      pixels to its left. */
  lemma {:induction false} RowSquaresAt(row: seq<int>, n: nat, x: nat, sx: real, sy: real, p: real, layer: Layer, y: nat)
    requires x < n <= |row| && IsBlack(row[x])
    ensures BlackInRow(row, x) < |RowSquares(row, n, sx, sy, p, layer, y)|
    ensures RowSquares(row, n, sx, sy, p, layer, y)[BlackInRow(row, x)] == CellSquare(sx, sy, p, layer, x, y)
  {
    RowSquaresCount(row, x, sx, sy, p, layer, y);
    RowSquaresPrefix(row, x + 1, n, sx, sy, p, layer, y);
  }

  /** Row-major order: the square of black pixel (x, y) comes after the
      squares of every black pixel in the rows above, and after those to its
      left in its own row. */
  lemma {:induction false} GridSquaresAt(g: Grid, x: nat, y: nat, sx: real, sy: real, p: real, layer: Layer)
    requires Rectangular(g) && y < |g| && x < GridWidth(g) && IsBlack(g[y][x])
    ensures BlackInRows(g, y) + BlackInRow(g[y], x) < |GridSquares(g, |g|, sx, sy, p, layer)|
    ensures GridSquares(g, |g|, sx, sy, p, layer)[BlackInRows(g, y) + BlackInRow(g[y], x)] == CellSquare(sx, sy, p, layer, x, y)
  {
    GridSquaresCount(g, y, sx, sy, p, layer);
    RowSquaresAt(g[y], GridWidth(g), x, sx, sy, p, layer, y);
    GridSquaresPrefix(g, y + 1, |g|, sx, sy, p, layer);
  }

  lemma {:induction false} RowSquaresOnlyBlack(row: seq<int>, n: nat, sx: real, sy: real, p: real, layer: Layer, y: nat)
    requires n <= |row|
    ensures forall d :: d in RowSquares(row, n, sx, sy, p, layer, y) ==>
      exists x :: 0 <= x < n && IsBlack(row[x]) && d == CellSquare(sx, sy, p, layer, x, y)
  {
    if n > 0 {
      RowSquaresOnlyBlack(row, n - 1, sx, sy, p, layer, y);
    }
  }

  /** Nothing is drawn for a white pixel: every square belongs to a black one. */
  lemma {:induction false} GridSquaresOnlyBlack(g: Grid, n: nat, sx: real, sy: real, p: real, layer: Layer)
    requires Rectangular(g) && n <= |g|
    ensures forall d :: d in GridSquares(g, n, sx, sy, p, layer) ==>
      exists x, y :: 0 <= y < n && 0 <= x < GridWidth(g) && IsBlack(g[y][x]) && d == CellSquare(sx, sy, p, layer, x, y)
  {
    if n > 0 {
      GridSquaresOnlyBlack(g, n - 1, sx, sy, p, layer);
      RowSquaresOnlyBlack(g[n - 1], GridWidth(g), sx, sy, p, layer, n - 1);
    }
  }

  /** With a non-zero pixel size, different cells get different squares. */
  lemma CellSquareInjective(sx: real, sy: real, p: real, layer: Layer, x: nat, y: nat, x': nat, y': nat)
    requires p != 0.0
    requires CellSquare(sx, sy, p, layer, x, y) == CellSquare(sx, sy, p, layer, x', y')
    ensures x == x' && y == y'
  {
    OffsetIsProduct(x, p);
    OffsetIsProduct(x', p);
    OffsetIsProduct(y, p);
    OffsetIsProduct(y', p);
    assert (x as real - x' as real) * p == 0.0;
    assert (y as real - y' as real) * p == 0.0;
  }

  /** Row-major order of what the renderer draws: the square of black pixel
      (x, y) of the drawn bitmap sits right after the squares of all black
      pixels in the rows above and of those to its left in row y. */
  lemma RenderedOrder(qr: Grid, sx: real, sy: real, p: real, layer: Layer, x: nat, y: nat)
    requires Rectangular(qr) && y < |qr| && x < GridWidth(qr) && IsBlack(Oriented(qr, layer)[y][x])
    ensures var o := Oriented(qr, layer);
      var k := BlackInRows(o, y) + BlackInRow(o[y], x);
      k < |Rendered(qr, sx, sy, p, layer)| && Rendered(qr, sx, sy, p, layer)[k] == CellSquare(sx, sy, p, layer, x, y)
  {
    GridSquaresAt(Oriented(qr, layer), x, y, sx, sy, p, layer);
  }

  /** Everything the renderer draws is the square of a black pixel of the
      drawn bitmap: nothing is drawn for white pixels. */
  lemma RenderedOnlyBlack(qr: Grid, sx: real, sy: real, p: real, layer: Layer)
    requires Rectangular(qr)
    ensures forall d :: d in Rendered(qr, sx, sy, p, layer) ==>
      exists x, y :: 0 <= y < |qr| && 0 <= x < GridWidth(qr) && IsBlack(Oriented(qr, layer)[y][x])
                     && d == CellSquare(sx, sy, p, layer, x, y)
  {
    GridSquaresOnlyBlack(Oriented(qr, layer), |qr|, sx, sy, p, layer);
  }

  /** With a non-zero pixel size, the square of cell (x, y) is drawn exactly
      when that pixel of the drawn bitmap is black. */
  lemma RenderedIffBlack(qr: Grid, sx: real, sy: real, p: real, layer: Layer)
    requires Rectangular(qr) && p != 0.0
    ensures forall x, y :: 0 <= y < |qr| && 0 <= x < GridWidth(qr) ==>
      (CellSquare(sx, sy, p, layer, x, y) in Rendered(qr, sx, sy, p, layer) <==> IsBlack(Oriented(qr, layer)[y][x]))
  {
    var o := Oriented(qr, layer);
    var r := Rendered(qr, sx, sy, p, layer);
    RenderedOnlyBlack(qr, sx, sy, p, layer);
    forall x, y | 0 <= y < |qr| && 0 <= x < GridWidth(qr) && IsBlack(o[y][x])
      ensures CellSquare(sx, sy, p, layer, x, y) in r
    {
      RenderedOrder(qr, sx, sy, p, layer, x, y);
    }
    forall x, y | 0 <= y < |qr| && 0 <= x < GridWidth(qr) && CellSquare(sx, sy, p, layer, x, y) in r
      ensures IsBlack(o[y][x])
    {
      var x', y' :| 0 <= y' < |qr| && 0 <= x' < GridWidth(qr) && IsBlack(o[y'][x'])
                   && CellSquare(sx, sy, p, layer, x, y) == CellSquare(sx, sy, p, layer, x', y');
      CellSquareInjective(sx, sy, p, layer, x, y, x', y');
    }
  }

  // ---------------------------------------------------------------------
  // Mirroring and geometry.

  /** On a back-side layer the renderer draws the mirror image of what it
      draws on a front-side layer: the square in column x of a row is drawn
      on the back exactly when the square in column width-1-x of that row is
      drawn on the front. */
  lemma BacksideMirrorsFrontside(qr: Grid, sx: real, sy: real, p: real, back: Layer, front: Layer)
    requires Rectangular(qr) && p != 0.0
    requires IsBacksideLayer(back) && !IsBacksideLayer(front)
    ensures forall x, y :: 0 <= y < |qr| && 0 <= x < GridWidth(qr) ==>
      (CellSquare(sx, sy, p, back, x, y) in Rendered(qr, sx, sy, p, back)
       <==> CellSquare(sx, sy, p, front, GridWidth(qr) - 1 - x, y) in Rendered(qr, sx, sy, p, front))
  {
    RenderedIffBlack(qr, sx, sy, p, back);
    RenderedIffBlack(qr, sx, sy, p, front);
    forall x, y | 0 <= y < |qr| && 0 <= x < GridWidth(qr)
      ensures Mirrored(qr)[y][x] == qr[y][GridWidth(qr) - 1 - x]
    {
      MirroredAt(qr, x, y);
    }
  }

  /** Columns x and width-1-x are reflections of each other about the
      vertical centre line of the drawn region. */
  lemma ColumnsReflect(sx: real, sy: real, p: real, layer: Layer, w: nat, x: nat, y: nat)
    requires x < w
    ensures var axis := sx + w as real * p / 2.0;
      && CellSquare(sx, sy, p, layer, w - 1 - x, y).start.x == 2.0 * axis - CellSquare(sx, sy, p, layer, x, y).end.x
      && CellSquare(sx, sy, p, layer, w - 1 - x, y).end.x == 2.0 * axis - CellSquare(sx, sy, p, layer, x, y).start.x
  {
    OffsetAdd(w - 1 - x, x + 1, p);
    OffsetAdd(w - x, x, p);
    OffsetIsProduct(w, p);
  }

  /** The drawable lies within the box from (left, top) to (right, bottom). */
  predicate InBox(d: Drawable, left: real, top: real, right: real, bottom: real)
  {
    left <= d.start.x && d.end.x <= right && top <= d.start.y && d.end.y <= bottom
  }

  /** With a non-negative pixel size every drawn square lies inside the
      width-by-height block of pixels whose top-left corner is (sx, sy). */
  lemma RenderedWithinRegion(qr: Grid, sx: real, sy: real, p: real, layer: Layer)
    requires Rectangular(qr) && p >= 0.0
    ensures forall d :: d in Rendered(qr, sx, sy, p, layer) ==>
      InBox(d, sx, sy, sx + GridWidth(qr) as real * p, sy + |qr| as real * p)
  {
    var o := Oriented(qr, layer);
    var w, h := GridWidth(qr), |qr|;
    RenderedOnlyBlack(qr, sx, sy, p, layer);
    forall d | d in Rendered(qr, sx, sy, p, layer)
      ensures InBox(d, sx, sy, sx + w as real * p, sy + h as real * p)
    {
      var x, y :| 0 <= y < |o| && 0 <= x < GridWidth(o) && IsBlack(o[y][x])
                 && d == CellSquare(sx, sy, p, layer, x, y);
      CellSquareWithin(sx, sy, p, layer, x, y, w, h);
    }
  }

  /** Every drawn square is p wide and p high. */
  lemma RenderedPixelSized(qr: Grid, sx: real, sy: real, p: real, layer: Layer)
    requires Rectangular(qr)
    ensures forall d :: d in Rendered(qr, sx, sy, p, layer) ==>
      d.end.x - d.start.x == p && d.end.y - d.start.y == p
  {
    var o := Oriented(qr, layer);
    RenderedOnlyBlack(qr, sx, sy, p, layer);
    forall d | d in Rendered(qr, sx, sy, p, layer)
      ensures d.end.x - d.start.x == p && d.end.y - d.start.y == p
    {
      var x, y :| 0 <= y < |o| && 0 <= x < GridWidth(o) && IsBlack(o[y][x])
                 && d == CellSquare(sx, sy, p, layer, x, y);
    }
  }

  lemma CellSquareWithin(sx: real, sy: real, p: real, layer: Layer, x: nat, y: nat, w: nat, h: nat)
    requires x < w && y < h && p >= 0.0
    ensures InBox(CellSquare(sx, sy, p, layer, x, y), sx, sy, sx + w as real * p, sy + h as real * p)
  {
    OffsetIsProduct(w, p);
    OffsetIsProduct(h, p);
    OffsetMonotone(0, x, p);
    OffsetMonotone(x + 1, w, p);
    OffsetMonotone(0, y, p);
    OffsetMonotone(y + 1, h, p);
  }
}
