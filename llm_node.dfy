/** The language-model node: two inputs, `system` and `prompt`, and one output, `response`. */
module LlmNode {
  import opened Js
  import opened BaseNode

  const LlmHandles: seq<Handle> := [
    Handle(Target, Some(Left), "system"),
    Handle(Target, Some(Left), "prompt"),
    Handle(Source, Some(Right), "response")
  ]

  /** The node reads nothing from `data` but the shell's height. */
  function LlmNode(dataHeight: Option<int>): (v: View)
    ensures v.targets == [Port("system", Left), Port("prompt", Left)]
    ensures v.sources == [Port("response", Right)]
  {
    Shell(Some(LlmHandles), dataHeight, None)
  }

  lemma LlmHandleIdsDistinct()
    ensures DistinctIds(LlmHandles)
  {
  }
}
