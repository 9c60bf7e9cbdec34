/** Classification of layers into the board's back side and the rest. */
module Layers {
  import opened Pcb

  /** The seven back-side layers: copper, adhesive, paste, silkscreen,
      solder mask, fabrication and courtyard. */
  const BacksideLayers: set<Layer> := {B_Cu, B_Adhes, B_Paste, B_SilkS, B_Mask, B_Fab, B_CrtYd}

  /** `is_backside_layer`: art on these layers is seen through the board from
      the other side. Inner copper, every front layer and every user layer
      are not back-side. */
  function IsBacksideLayer(l: Layer): (b: bool)
    ensures b <==> (l.B_Cu? || l.B_Adhes? || l.B_Paste? || l.B_SilkS? || l.B_Mask? || l.B_Fab? || l.B_CrtYd?)
  {
    l in BacksideLayers
  }
}
