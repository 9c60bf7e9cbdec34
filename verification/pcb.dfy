/** The part of the KiCad board library that the QR inserter touches: a board
    is a sequence of drawables that can be enumerated, appended to and deleted
    from. Coordinates are millimetres, as `real`. */
module Pcb {

  datatype Option<+T> = None | Some(value: T)

  /** A point on the board, in millimetres. */
  datatype Point = Point(x: real, y: real)

  /** The board layers KiCad defines: front and back copper with the inner
      copper layers between them, the technical layers in front/back pairs,
      and the user layers. */
  datatype Layer =
    | F_Cu | In(index: nat) | B_Cu
    | B_Adhes | F_Adhes
    | B_Paste | F_Paste
    | B_SilkS | F_SilkS
    | B_Mask | F_Mask
    | Dwgs_User | Cmts_User | Eco1_User | Eco2_User | Edge_Cuts | Margin
    | B_CrtYd | F_CrtYd
    | B_Fab | F_Fab
    | User(number: nat)

  datatype ShapeType = Segment | Rectangle | Arc | Circle | Polygon | Bezier

  /** What kind of board item a drawable is. Only `TextBox` can be a marker. */
  datatype Kind = TextBox | Text | Shape(shape: ShapeType) | OtherItem

  /** One item of the board's drawing list: its kind, its text (empty for
      shapes), its start and end corners, its layer, its border (stroke)
      width and whether it is filled. */
  datatype Drawable = Drawable(
    kind: Kind,
    text: string,
    start: Point,
    end: Point,
    layer: Layer,
    strokeWidth: real,
    filled: bool)

  /** The sequence `s` with its element at index `i` taken out; everything
      else keeps its order. */
  function RemoveAt<T>(s: seq<T>, i: nat): (r: seq<T>)
    requires i < |s|
    ensures |r| == |s| - 1
    ensures forall j :: 0 <= j < i ==> r[j] == s[j]
    ensures forall j :: i <= j < |r| ==> r[j] == s[j + 1]
  {
    s[..i] + s[i + 1..]
  }

  /** A loaded board. The drawing list is the state the inserter changes. */
  class Board {
    var drawings: seq<Drawable>

    constructor (ds: seq<Drawable>)
      ensures drawings == ds
    {
      drawings := ds;
    }

    /** `board.Add(item)`: the new item joins the drawing list at its end. */
    method Add(d: Drawable)
      modifies this
      ensures drawings == old(drawings) + [d]
    {
      drawings := drawings + [d];
    }

    /** `item.DeleteStructure()` for the item at index `i` of the drawing list. */
    method Delete(i: nat)
      requires i < |drawings|
      modifies this
      ensures drawings == RemoveAt(old(drawings), i)
    {
      drawings := RemoveAt(drawings, i);
    }
  }
}
