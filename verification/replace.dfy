/** The repeat-replacement driver: find a marker, draw the QR code centred
    on it, and go on until no marker is left, counting the replacements. */
module Replace {
  import opened Pcb
  import opened Locator
  import opened Renderer

  /** Where a QR code is drawn: its top-left corner and its pixel size. */
  datatype Placement = Placement(start: Point, pixelSize: real)

  /** The placement of an n-pixel-wide QR code on a marker: the pixel size
      divides the marker's size into n, and the n pixels are centred on the
      marker's centre, so that they span exactly from centre - size/2 to
      centre + size/2 on both axes. */
  function PlaceQr(loc: Location, n: nat): (pl: Placement)
    requires n > 0
    ensures n as real * pl.pixelSize == loc.size
    ensures pl.start.x == loc.center.x - loc.size / 2.0
    ensures pl.start.y == loc.center.y - loc.size / 2.0
    ensures pl.start.x + n as real * pl.pixelSize == loc.center.x + loc.size / 2.0
    ensures pl.start.y + n as real * pl.pixelSize == loc.center.y + loc.size / 2.0
    ensures loc.size >= 0.0 ==> pl.pixelSize >= 0.0
  {
    var pixelSize := loc.size / n as real;
    Placement(
      Point(loc.center.x - n as real / 2.0 * pixelSize, loc.center.y - n as real / 2.0 * pixelSize),
      pixelSize)
  }

  /** On a square marker the QR code's n-by-n block of pixels covers the
      marker's box exactly, corner to corner. */
  lemma QrCoversSquareMarker(d: Drawable, n: nat)
    requires n > 0 && Width(d) == Height(d)
    ensures var pl := PlaceQr(MarkerLocation(d), n);
      && pl.start == d.start
      && pl.start.x + n as real * pl.pixelSize == d.end.x
      && pl.start.y + n as real * pl.pixelSize == d.end.y
  {
  }

  /** The QR code drawn at a location: at its placement, on its layer. */
  function QrAt(loc: Location, qr: Grid): seq<Drawable>
    requires Rectangular(qr) && GridWidth(qr) > 0
  {
    var pl := PlaceQr(loc, GridWidth(qr));
    Rendered(qr, pl.start.x, pl.start.y, pl.pixelSize, loc.layer)
  }

  /** The QR code drawn at a location lies inside the square of side
      `size` centred on the location's centre, for a square bitmap and a
      size that is not negative. */
  lemma QrAtInsideMarker(loc: Location, qr: Grid)
    requires Rectangular(qr) && |qr| == GridWidth(qr) > 0 && loc.size >= 0.0
    ensures forall s :: s in QrAt(loc, qr) ==>
      InBox(s, loc.center.x - loc.size / 2.0, loc.center.y - loc.size / 2.0,
               loc.center.x + loc.size / 2.0, loc.center.y + loc.size / 2.0)
  {
    var pl := PlaceQr(loc, GridWidth(qr));
    QrInsideMarker(qr, pl.start.x, pl.start.y, pl.pixelSize, loc.layer, loc.center, loc.size);
  }

  /** What is drawn for a marker. */
  function QrFor(d: Drawable, qr: Grid): seq<Drawable>
    requires Rectangular(qr) && GridWidth(qr) > 0
  {
    QrAt(MarkerLocation(d), qr)
  }

  /** A square bitmap drawn from a start and pixel size that meet the
      placement's promises (n pixels make up `size`, the start is
      centre - size/2) lies inside the square of side `size` centred on
      `center`, whenever that size is not negative. */
  lemma QrInsideMarker(qr: Grid, sx: real, sy: real, p: real, layer: Layer, center: Point, size: real)
    requires Rectangular(qr) && |qr| == GridWidth(qr)
    requires size >= 0.0 && p >= 0.0 && GridWidth(qr) as real * p == size
    requires sx == center.x - size / 2.0 && sy == center.y - size / 2.0
    ensures forall s :: s in Rendered(qr, sx, sy, p, layer) ==>
      InBox(s, center.x - size / 2.0, center.y - size / 2.0, center.x + size / 2.0, center.y + size / 2.0)
  {
    var n := GridWidth(qr);
    assert sx + n as real * p == center.x + size / 2.0;
    assert sy + |qr| as real * p == center.y + size / 2.0;
    RenderedWithinRegion(qr, sx, sy, p, layer);
  }

  /** The squares of a QR code are never markers. */
  lemma QrHasNoMarkers(d: Drawable, qr: Grid, id: string)
    requires Rectangular(qr) && GridWidth(qr) > 0
    ensures CountMarkers(QrFor(d, qr), id) == 0
  {
    var r := QrFor(d, qr);
    assert forall j :: 0 <= j < |r| ==> r[j] in r;
    NoMarkersIffNotFound(r, id);
  }

  /** One turn of the loop: the marker at index i is deleted and its QR code
      added to the board. */
  function ReplaceAt(ds: seq<Drawable>, i: nat, qr: Grid): (r: seq<Drawable>)
    requires i < |ds| && Rectangular(qr) && GridWidth(qr) > 0
    ensures |r| >= |ds| - 1 && r[..|ds| - 1] == RemoveAt(ds, i)
    ensures forall j :: |ds| - 1 <= j < |r| ==> IsQrSquare(r[j], ds[i].layer)
  {
    RemoveAt(ds, i) + QrFor(ds[i], qr)
  }

  /** Each turn of the loop consumes exactly one marker. */
  lemma ReplaceAtCount(ds: seq<Drawable>, i: nat, qr: Grid, id: string)
    requires i < |ds| && IsMarker(ds[i], id) && Rectangular(qr) && GridWidth(qr) > 0
    ensures CountMarkers(ReplaceAt(ds, i, qr), id) == CountMarkers(ds, id) - 1
  {
    CountMarkersAppend(RemoveAt(ds, i), QrFor(ds[i], qr), id);
    CountMarkersRemove(ds, i, id);
    QrHasNoMarkers(ds[i], qr, id);
  }

  /** The board after the loop: every marker, first to last, replaced by a
      QR code. The loop ends because each turn removes one marker; at the
      end no marker is left. */
  function ReplacedAll(ds: seq<Drawable>, id: string, qr: Grid): (r: seq<Drawable>)
    requires Rectangular(qr) && GridWidth(qr) > 0
    ensures CountMarkers(r, id) == 0
    decreases CountMarkers(ds, id)
  {
    match FirstMarker(ds, id)
    case None =>
      NoMarkersIffNotFound(ds, id);
      ds
    case Some(i) =>
      ReplaceAtCount(ds, i, qr, id);
      ReplacedAll(ReplaceAt(ds, i, qr), id, qr)
  }

  /** The second `main`'s loop. It calls the locator until it finds nothing,
      draws the QR code centred on each marker found, and counts the
      replacements: the count is the number of markers the board held, and
      none is left. The QR bitmap is the same on every turn, since encoding
      the same data always gives the same bitmap. */
  method ReplaceAll(board: Board, id: string, qr: Grid) returns (replacementCount: nat)
    requires Rectangular(qr) && GridWidth(qr) > 0
    modifies board
    ensures replacementCount == old(CountMarkers(board.drawings, id))
    ensures CountMarkers(board.drawings, id) == 0
    ensures board.drawings == ReplacedAll(old(board.drawings), id, qr)
  {
    replacementCount := 0;
    while true
      invariant replacementCount + CountMarkers(board.drawings, id) == old(CountMarkers(board.drawings, id))
      invariant ReplacedAll(board.drawings, id, qr) == ReplacedAll(old(board.drawings), id, qr)
      decreases CountMarkers(board.drawings, id)
    {
      ghost var before := board.drawings;
      var location, warned := FindTextLocation(board, id);
      if location.Some? {
        var loc := location.value;
        var placement := PlaceQr(loc, GridWidth(qr));
        InsertQrToPcb(qr, board, placement.start.x, placement.start.y, placement.pixelSize, loc.layer);
        replacementCount := replacementCount + 1;
        ReplaceAtCount(before, FirstMarker(before, id).value, qr, id);
      } else {
        NoMarkersIffNotFound(before, id);
        break;
      }
    }
  }

  /** Nothing but markers is taken off the board: the drawables that are not
      markers, every copy of them and in their original order, are the start
      of the final drawing list; the QR codes follow them. */
  lemma {:induction false} ReplacedAllKeepsOthers(ds: seq<Drawable>, id: string, qr: Grid)
    requires Rectangular(qr) && GridWidth(qr) > 0
    ensures NonMarkers(ds, id) <= ReplacedAll(ds, id, qr)
    decreases CountMarkers(ds, id)
  {
    match FirstMarker(ds, id)
    case None =>
      NoMarkersIffNotFound(ds, id);
      NonMarkersWhenNone(ds, id);
    case Some(i) =>
      var next := ReplaceAt(ds, i, qr);
      var squares := QrFor(ds[i], qr);
      ReplaceAtCount(ds, i, qr, id);
      NonMarkersAppend(RemoveAt(ds, i), squares, id);
      NonMarkersRemove(ds, i, id);
      QrHasNoMarkers(ds[i], qr, id);
      NonMarkersWhenNone(squares, id);
      assert NonMarkers(next, id) == NonMarkers(ds, id) + squares;
      ReplacedAllKeepsOthers(next, id, qr);
  }

  /** Size of the board after the loop: each of the k markers is replaced by
      as many squares as the QR bitmap has black pixels (B), so the board
      grows by k * (B - 1) drawables. */
  lemma {:induction false} ReplacedAllLength(ds: seq<Drawable>, id: string, qr: Grid)
    requires Rectangular(qr) && GridWidth(qr) > 0
    ensures |ReplacedAll(ds, id, qr)| + CountMarkers(ds, id)
         == |ds| + CountMarkers(ds, id) * BlackInRows(qr, |qr|)
    decreases CountMarkers(ds, id)
  {
    match FirstMarker(ds, id)
    case None =>
      NoMarkersIffNotFound(ds, id);
    case Some(i) =>
      var k := CountMarkers(ds, id);
      var b := BlackInRows(qr, |qr|);
      var next := ReplaceAt(ds, i, qr);
      var loc := MarkerLocation(ds[i]);
      var pl := PlaceQr(loc, GridWidth(qr));
      RenderedCountOnAnyLayer(qr, pl.start.x, pl.start.y, pl.pixelSize, loc.layer);
      assert |next| == |ds| - 1 + b;
      ReplaceAtCount(ds, i, qr, id);
      assert ReplacedAll(ds, id, qr) == ReplacedAll(next, id, qr);
      ReplacedAllLength(next, id, qr);
      MultiplyStep(k, b);
  }

  /** One more marker adds one more QR code's worth of squares. Kept apart
      from `ReplacedAllLength` so that its multiplication is proved without
      the rest of that lemma's facts in view. */
  lemma MultiplyStep(k: nat, b: nat)
    requires k > 0
    ensures (k - 1) * b + b == k * b
  {
  }
}
