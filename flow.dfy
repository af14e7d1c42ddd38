/** The editor's node and edge records, as the canvas store hands them to the buttons. */
module Flow {
  import opened Js

  /** A canvas node: its id and whether it is selected (its kind, position and data are left
      out). */
  datatype FlowNode = FlowNode(id: string, selected: bool)

  /** A canvas edge: its endpoints may be missing. */
  datatype FlowEdge = FlowEdge(source: Option<string>, target: Option<string>)
}
