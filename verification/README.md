# kicad-qr-inserter, modelled in Dafny

`kicad_qr_inserter.py` stamps a QR code onto a KiCad printed-circuit board.
It finds a placeholder textbox whose text is a given identifier, deletes it,
and draws the QR code there as one filled square per black pixel. On a
back-side layer the code is mirrored left to right. The tool repeats this
until no placeholder is left and counts the replacements.

This project models that transformation:

- `pcb.dfy` (module `Pcb`) holds the board. A `Board` is a class whose
  `drawings: seq<Drawable>` field is the state the tool changes. A
  `Drawable` records its kind (textbox, text, shape, other), text, start and
  end corners, layer, border width and whether it is filled. `Add` and
  `Delete` are the two board operations the tool uses.
- `layers.dfy` (module `Layers`) is `is_backside_layer`.
- `locator.dfy` (module `Locator`) is `find_text_location`. It is a loop over
  the drawing list that deletes the first marker in place. It is specified
  by `FirstMarker`, `CountMarkers` and `MarkerLocation`.
- `renderer.dfy` (module `Renderer`) is `insert_qr_to_pcb`. Nested `y`/`x`
  loops append squares to the board. They are specified by `Rendered`, which
  applies `Mirrored` on back-side layers. Lemmas cover the count, the order,
  the exact set of squares, the mirroring and the bounds.
- `replace.dfy` (module `Replace`) is the `while True` loop of the second
  `main` and its centring arithmetic (`PlaceQr`). It is specified by the
  function `ReplacedAll`.

Coordinates are millimetres, as `real`. The QR bitmap is a parameter: a
rectangular `seq<seq<int>>` read as `g[y][x]`, where a pixel is black when
its value is 0, as in the source's `pixels[x, y] == 0`. QR encoding is
deterministic, so the loop gets one bitmap and uses it on every turn.

The model follows the code as written:

- Only the second `main` is modelled. It shadows the first one, so the
  single-replacement mode is dead code. One of its runs is the same as one
  turn of the modelled loop.
- The placement centres the QR block exactly on the marker: the n×n block
  spans exactly `centre ± size/2`.
- With zero matches, line 181 raises `NameError`, because `sys` is never
  imported. The interpreter then exits with status 1 through the traceback,
  after the board has been saved at line 173. The traceback is printed even
  with `-q`. Exit status is not modelled.

## Model

| member | source | states |
|---|---|---|
| `Layers.IsBacksideLayer` | kicad_qr_inserter.py:44-54 | true exactly for B_Cu, B_Adhes, B_Paste, B_SilkS, B_Mask, B_Fab and B_CrtYd; false for inner copper, every front layer and every user layer |
| `Pcb.RemoveAt` | kicad_qr_inserter.py:28 | deleting one drawable shortens the list by one and keeps every other drawable in its original order |
| `Pcb.Board.Add` | kicad_qr_inserter.py:108 | the new shape joins the drawing list; nothing else changes |
| `Pcb.Board.Delete` | kicad_qr_inserter.py:28 | the drawable at the given index is removed; the rest keep their order |
| `Locator.IsMarker` | kicad_qr_inserter.py:17-18 | only a textbox can be a marker, and a textbox is one exactly when its text equals the identifier |
| `Locator.FirstMarker` | kicad_qr_inserter.py:16-18 | gives the index of the first drawable that is a textbox with exactly the identifier's text, with no such drawable before it; gives None exactly when no drawable is such a textbox, so text items and shapes carrying the text never match |
| `Locator.MarkerLocation` | kicad_qr_inserter.py:19-33 | the centre is the midpoint of the start and end corners; the size is the mean of width and height, lying between them and equal to the width when the box is square; the layer is the box's layer |
| `Locator.FindTextLocation` | kicad_qr_inserter.py:6-35 | with no marker: returns None, no warning, board unchanged; otherwise deletes exactly the first marker (all else kept in order), returns its location, and warns exactly when width differs from height |
| `Locator.NoMarkersIffNotFound` | kicad_qr_inserter.py:35 | the locator returns None exactly when the board holds no marker |
| `Locator.CountMarkersRemove` | kicad_qr_inserter.py:28 | deleting a marker lowers the number of markers by exactly one |
| `Locator.NonMarkersRemove` | kicad_qr_inserter.py:28 | deleting a marker leaves every drawable that is not a marker, and their order, unchanged |
| `Locator.SingleMarkerConsumed` | kicad_qr_inserter.py:16-28 | on a board with exactly one marker the locator finds it and afterwards no marker remains |
| `Renderer.ReversedAt` | kicad_qr_inserter.py:89 | a flipped row holds at column x the pixel at column width-1-x |
| `Renderer.ReversedTwice` | kicad_qr_inserter.py:89 | flipping a row twice gives it back |
| `Renderer.Mirrored` | kicad_qr_inserter.py:86-89 | the left-right flip keeps the number of rows, their common width and rectangularity |
| `Renderer.MirroredAt` | kicad_qr_inserter.py:88-89 | after the flip, row y column x holds the original pixel of row y column width-1-x |
| `Renderer.MirroredTwice` | kicad_qr_inserter.py:89 | flipping the bitmap twice restores it |
| `Renderer.Oriented` | kicad_qr_inserter.py:86-91 | the bitmap drawn has the dimensions of the one given, on either side of the board |
| `Renderer.OffsetIsProduct` | kicad_qr_inserter.py:96-97 | the offset of pixel x from the start, which the squares' corners use, is exactly x·p |
| `Renderer.CellSquare` | kicad_qr_inserter.py:96-106 | the square of a cell is a filled rectangle with zero border width on the given layer, exactly p wide and p high (its corners are sx + x·p and sx + (x+1)·p across, through `OffsetIsProduct`) |
| `Renderer.RowSquares` | kicad_qr_inserter.py:94-108 | every square drawn for a row is a filled rectangle with zero border width on the given layer |
| `Renderer.GridSquares` | kicad_qr_inserter.py:93-108 | every square drawn for the bitmap is a filled rectangle with zero border width on the given layer |
| `Renderer.Rendered` | kicad_qr_inserter.py:86-108 | everything the renderer adds is a filled, borderless rectangle on the given layer |
| `Renderer.InsertQrToPcb` | kicad_qr_inserter.py:75-108 | the drawing list afterwards is the old list, untouched, followed by the squares of `Rendered`, for the mirrored bitmap on back-side layers |
| `Renderer.RenderedCount` | kicad_qr_inserter.py:93-95 | the number of squares drawn equals the number of black pixels of the bitmap as drawn |
| `Renderer.ReversedBlackCount` | kicad_qr_inserter.py:89 | flipping a row does not change how many of its pixels are black |
| `Renderer.RenderedCountOnAnyLayer` | kicad_qr_inserter.py:86-95 | on any layer, the number of squares drawn equals the number of black pixels of the bitmap as encoded |
| `Renderer.RenderedOrder` | kicad_qr_inserter.py:93-97 | row-major order: the square of black pixel (x, y) comes after those of every black pixel in the rows above and of those to its left, at exactly that index |
| `Renderer.RenderedOnlyBlack` | kicad_qr_inserter.py:95 | every square drawn is the square of some black pixel; white pixels produce nothing |
| `Renderer.RenderedIffBlack` | kicad_qr_inserter.py:93-97 | for a non-zero pixel size, the square from (sx + x·p, sy + y·p) to (sx + (x+1)·p, sy + (y+1)·p) is drawn exactly when pixel (x, y) of the drawn bitmap is black |
| `Renderer.BacksideMirrorsFrontside` | kicad_qr_inserter.py:88-97 | the square in column x of a row is drawn on a back-side layer exactly when the square in column width-1-x of that row is drawn on a front-side layer |
| `Renderer.ColumnsReflect` | kicad_qr_inserter.py:96-97 | the squares of columns x and width-1-x are mirror images about the vertical centre line of the drawn block |
| `Renderer.RenderedWithinRegion` | kicad_qr_inserter.py:96-97 | with a non-negative pixel size every square lies inside the width·p by height·p block whose top-left corner is the given start |
| `Renderer.RenderedPixelSized` | kicad_qr_inserter.py:96-97 | every square drawn is exactly p wide and p high |
| `Replace.PlaceQr` | kicad_qr_inserter.py:165-166 | n pixels of the computed size add up to the marker's size, and the block they form spans exactly from centre - size/2 to centre + size/2 on both axes; the pixel size is not negative when the size is not |
| `Replace.QrCoversSquareMarker` | kicad_qr_inserter.py:165-166 | on a square marker the QR block starts at the marker's start corner and ends at its end corner |
| `Replace.QrInsideMarker` | kicad_qr_inserter.py:165-166 | for a square bitmap drawn from a start and pixel size that meet `PlaceQr`'s promises, every square lies within centre ± size/2 on both axes |
| `Replace.QrAtInsideMarker` | kicad_qr_inserter.py:165-168 | every square of the QR code drawn at a location, at the placement the loop computes, lies within centre ± size/2 on both axes, for a square bitmap and a non-negative size |
| `Replace.QrHasNoMarkers` | kicad_qr_inserter.py:100-101 | the squares of a QR code are never markers |
| `Replace.ReplaceAt` | kicad_qr_inserter.py:156-168 | one turn of the loop: the drawing list with the marker deleted, every other drawable in order, followed only by QR squares on the marker's layer |
| `Replace.ReplaceAtCount` | kicad_qr_inserter.py:156-168 | one turn of the loop lowers the number of markers on the board by exactly one |
| `Replace.ReplacedAll` | kicad_qr_inserter.py:154-170 | the loop terminates (the number of markers decreases on every turn) and leaves no marker on the board |
| `Replace.ReplaceAll` | kicad_qr_inserter.py:154-170 | `replacement_count` equals the number of markers the board held at the start, none is left at the end, and the final drawing list is `ReplacedAll` of the initial one |
| `Replace.ReplacedAllKeepsOthers` | kicad_qr_inserter.py:154-170 | the drawables that are not markers, every copy of each and in their original order, form the start of the final drawing list |
| `Replace.ReplacedAllLength` | kicad_qr_inserter.py:154-170 | with k markers and B black pixels, the board ends up with k·(B-1) more drawables than it started with |

## Left out

- Loading and saving the board (`pcbnew.LoadBoard`, `pcbnew.SaveBoard`), argument parsing and every `print` are I/O. The non-square warning of `find_text_location` is modelled as a returned flag.
- QR encoding (`generate_qr_code`) is a call into the `qrcode` library. The bitmap is a parameter, a non-empty rectangular grid (line 165 would divide by zero on width 0, which a QR symbol, at least 21×21, never has). The QR Code standard (ISO/IEC 18004) is not re-derived.
- PIL's `transpose` and `load` are modelled as a per-row index reversal and as `g[y][x]` indexing.
- `ToMM`/`FromMM` and floating-point rounding are left out: coordinates are exact `real` millimetres.
- Pcb.Board.Add: appends at the end of the drawing list. The board library itself may place new items elsewhere in its list. That placement is the library's concern. It cannot change which marker is found next, because drawn squares are never textboxes.
- The first `main` (lines 110-141) is shadowed by the second and is dead code. Its single replacement is one turn of the modelled loop.
- Process exit status: the zero-match path calls `sys.exit` without importing `sys`.
- Renderer.RenderedIffBlack: stated for a non-zero pixel size only. With size 0 every square collapses onto one point, so whether a given cell was drawn cannot be told from the squares.
- Renderer.BacksideMirrorsFrontside: stated for a non-zero pixel size only, for the same reason.
- Replace.QrAtInsideMarker: stated for a square bitmap and a non-negative marker size, as `QrInsideMarker` below.
- Replace.QrInsideMarker: stated for a square bitmap and a non-negative marker size. A QR bitmap is always square. With a negative size the block extends the other way from the start corner.
- Renderer.RenderedWithinRegion: stated for a non-negative pixel size only, for the same reason.
