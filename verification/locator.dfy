/** The marker locator (`find_text_location`): find the first textbox whose
    text is the identifier, report where it is, and delete it. */
module Locator {
  import opened Pcb

  /** A marker is a textbox whose text equals the identifier exactly. Text
      items and shapes never match, whatever text they carry. */
  predicate IsMarker(d: Drawable, id: string)
    ensures d.kind != TextBox ==> !IsMarker(d, id)
    ensures d.kind == TextBox ==> (IsMarker(d, id) <==> d.text == id)
  {
    d.kind == TextBox && d.text == id
  }

  /** Index of the first marker in the drawing list, if there is one. */
  function FirstMarker(ds: seq<Drawable>, id: string): (r: Option<nat>)
    ensures r.Some? ==> r.value < |ds| && IsMarker(ds[r.value], id)
    ensures r.Some? ==> forall j :: 0 <= j < r.value ==> !IsMarker(ds[j], id)
    ensures r.None? <==> forall j :: 0 <= j < |ds| ==> !IsMarker(ds[j], id)
  {
    if |ds| == 0 then None
    else if IsMarker(ds[0], id) then Some(0)
    else match FirstMarker(ds[1..], id)
      case None => None
      case Some(i) => Some(i + 1)
  }

  /** Number of markers in the drawing list. */
  function CountMarkers(ds: seq<Drawable>, id: string): nat
  {
    if |ds| == 0 then 0
    else (if IsMarker(ds[0], id) then 1 else 0) + CountMarkers(ds[1..], id)
  }

  /** The drawing list with every marker taken out and the other drawables
      in their original order. */
  function NonMarkers(ds: seq<Drawable>, id: string): (r: seq<Drawable>)
    ensures |r| + CountMarkers(ds, id) == |ds|
    ensures forall j :: 0 <= j < |r| ==> !IsMarker(r[j], id)
  {
    if |ds| == 0 then []
    else (if IsMarker(ds[0], id) then [] else [ds[0]]) + NonMarkers(ds[1..], id)
  }

  function Width(d: Drawable): real { d.end.x - d.start.x }
  function Height(d: Drawable): real { d.end.y - d.start.y }

  /** What the locator reports: the box's centre, its size and its layer. */
  datatype Location = Location(center: Point, size: real, layer: Layer)

  /** The location of a marker: the centre is the midpoint of the corners,
      the size is the mean of width and height, which is the side length
      itself for a square box and lies between width and height otherwise. */
  function MarkerLocation(d: Drawable): (loc: Location)
    ensures loc.center.x - d.start.x == d.end.x - loc.center.x
    ensures loc.center.y - d.start.y == d.end.y - loc.center.y
    ensures loc.size - Width(d) == Height(d) - loc.size
    ensures Width(d) == Height(d) ==> loc.size == Width(d)
    ensures Width(d) <= Height(d) ==> Width(d) <= loc.size <= Height(d)
    ensures Height(d) <= Width(d) ==> Height(d) <= loc.size <= Width(d)
    ensures loc.layer == d.layer
  {
    Location(
      Point((d.start.x + d.end.x) / 2.0, (d.start.y + d.end.y) / 2.0),
      (d.end.x - d.start.x + d.end.y - d.start.y) / 2.0,
      d.layer)
  }

  /** `find_text_location`. Scans the drawing list in order; at the first
      marker it deletes that drawable and returns its location, with `warned`
      set when the box is not square. With no marker it returns `None` and
      leaves the board alone. */
  method FindTextLocation(board: Board, id: string) returns (loc: Option<Location>, warned: bool)
    modifies board
    ensures FirstMarker(old(board.drawings), id).None? ==>
      loc.None? && !warned && board.drawings == old(board.drawings)
    ensures FirstMarker(old(board.drawings), id).Some? ==>
      var i := FirstMarker(old(board.drawings), id).value;
      var d := old(board.drawings)[i];
      && loc == Some(MarkerLocation(d))
      && warned == (Width(d) != Height(d))
      && board.drawings == RemoveAt(old(board.drawings), i)
  {
    var i := 0;
    while i < |board.drawings|
      invariant 0 <= i <= |board.drawings|
      invariant board.drawings == old(board.drawings)
      invariant forall j :: 0 <= j < i ==> !IsMarker(board.drawings[j], id)
    {
      var drawing := board.drawings[i];
      if drawing.kind == TextBox && drawing.text == id {
        var location := MarkerLocation(drawing);
        board.Delete(i);
        warned := drawing.end.x - drawing.start.x != drawing.end.y - drawing.start.y;
        return Some(location), warned;
      }
      i := i + 1;
    }
    return None, false;
  }

  /** There are no markers left exactly when the locator finds none. */
  lemma {:induction false} NoMarkersIffNotFound(ds: seq<Drawable>, id: string)
    ensures CountMarkers(ds, id) == 0 <==> FirstMarker(ds, id).None?
  {
    if |ds| > 0 {
      NoMarkersIffNotFound(ds[1..], id);
      if !IsMarker(ds[0], id) && FirstMarker(ds[1..], id).None? {
        forall j | 0 <= j < |ds| ensures !IsMarker(ds[j], id) {
          if j > 0 { assert ds[j] == ds[1..][j - 1]; }
        }
      }
    }
  }

  /** Counting distributes over concatenation of drawing lists. */
  lemma {:induction false} CountMarkersAppend(a: seq<Drawable>, b: seq<Drawable>, id: string)
    ensures CountMarkers(a + b, id) == CountMarkers(a, id) + CountMarkers(b, id)
  {
    if |a| > 0 {
      assert (a + b)[1..] == a[1..] + b;
      CountMarkersAppend(a[1..], b, id);
    } else {
      assert a + b == b;
    }
  }

  /** Deleting a marker lowers the marker count by exactly one. */
  lemma {:induction false} CountMarkersRemove(ds: seq<Drawable>, i: nat, id: string)
    requires i < |ds| && IsMarker(ds[i], id)
    ensures CountMarkers(RemoveAt(ds, i), id) == CountMarkers(ds, id) - 1
  {
    if i > 0 {
      assert RemoveAt(ds, i) == [ds[0]] + RemoveAt(ds[1..], i - 1);
      CountMarkersRemove(ds[1..], i - 1, id);
      assert RemoveAt(ds, i)[1..] == RemoveAt(ds[1..], i - 1);
    } else {
      assert RemoveAt(ds, 0) == ds[1..];
    }
  }

  /** The locator on a board holding exactly one marker: it finds it, and
      afterwards no marker is left. */
  lemma SingleMarkerConsumed(ds: seq<Drawable>, id: string)
    requires CountMarkers(ds, id) == 1
    ensures FirstMarker(ds, id).Some?
    ensures CountMarkers(RemoveAt(ds, FirstMarker(ds, id).value), id) == 0
  {
    NoMarkersIffNotFound(ds, id);
    CountMarkersRemove(ds, FirstMarker(ds, id).value, id);
  }

  /** Taking the markers out distributes over concatenation. */
  lemma {:induction false} NonMarkersAppend(a: seq<Drawable>, b: seq<Drawable>, id: string)
    ensures NonMarkers(a + b, id) == NonMarkers(a, id) + NonMarkers(b, id)
  {
    if |a| > 0 {
      var head := if IsMarker(a[0], id) then [] else [a[0]];
      assert (a + b)[0] == a[0];
      assert (a + b)[1..] == a[1..] + b;
      NonMarkersAppend(a[1..], b, id);
      assert NonMarkers(a + b, id) == head + (NonMarkers(a[1..], id) + NonMarkers(b, id));
    } else {
      assert a + b == b;
    }
  }

  /** Deleting a marker leaves the other drawables, and their order, alone. */
  lemma {:induction false} NonMarkersRemove(ds: seq<Drawable>, i: nat, id: string)
    requires i < |ds| && IsMarker(ds[i], id)
    ensures NonMarkers(RemoveAt(ds, i), id) == NonMarkers(ds, id)
  {
    if i > 0 {
      NonMarkersRemove(ds[1..], i - 1, id);
      assert RemoveAt(ds, i)[0] == ds[0];
      assert RemoveAt(ds, i)[1..] == RemoveAt(ds[1..], i - 1);
    } else {
      assert RemoveAt(ds, 0) == ds[1..];
    }
  }

  /** A drawing list without markers is its own marker-free part. */
  lemma {:induction false} NonMarkersWhenNone(ds: seq<Drawable>, id: string)
    requires CountMarkers(ds, id) == 0
    ensures NonMarkers(ds, id) == ds
  {
    if |ds| > 0 {
      assert !IsMarker(ds[0], id);
      NonMarkersWhenNone(ds[1..], id);
      assert NonMarkers(ds, id) == [ds[0]] + ds[1..];
    }
  }
}
