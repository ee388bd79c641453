/** The records exchanged between the parser, the delta computer and the submission loop. */
module Nodes {
  import opened Wrappers

  /** The `Operation` enum: the HTTP verb an entry of a delta is sent with. */
  datatype Verb = Post | Delete

  /**
   * One grid cell. `kind` is a NodeType value, or any other number that the
   * object form of a raw cell carried; `prop` is a SoloonColor or a
   * ComethDirection value, absent when the cell had none.
   */
  datatype MapNode = MapNode(kind: int, row: int, column: int, prop: Option<int>)

  /** One entry of a delta: `[Operation, MapNode]`. */
  datatype Op = Op(verb: Verb, node: MapNode)
}
