# Pipeline editor: node shells, variable extraction, submission and DAG check

This project models the core of a visual pipeline editor and the service that analyses the
pipelines it submits.

- **Backend** (`backend/main.py`): `parse_pipeline` reports the number of nodes, the number of
  edges and whether the graph is a DAG. `is_dag` builds an adjacency list keyed by the listed
  node ids, then runs a depth-first search with a recursion stack from every node not yet
  visited. The adjacency list is a method with two loops. The search is the class
  `CycleSearch`, whose fields are the `visited` and `rec_stack` sets. The verdict is proved
  equal to "no directed cycle among the edges whose source is a listed node", in both
  directions.
- **Node shell** (`BaseNode.js`): splits a handle list into target ports (Left by default) and
  source ports (Right by default), and picks the minimum height `data?.height || minHeight`.
  Only a prop named `nodeStyle` reaches the outer box.
- **Node kinds**:
  - `customNodes.js` holds filter, transform, merge, delay and validator. Each keeps its options
    with `||` defaults and draws a fixed handle table.
  - `inputNode.js` names the input after `data?.inputName`, or after its id with the first
    `customInput-` replaced by `input_`.
  - `llmNode.js` draws `system` and `prompt` inputs and a `response` output.
- **Text node** (`textNode.js`):
  - Variables are the trimmed capture groups of `/\{\{(\s*[a-zA-Z_$][a-zA-Z0-9_$]*\s*)\}\}/g`.
    Duplicates are dropped and the order of first appearance is kept.
  - The model proves that a value is extracted exactly when the text holds a well-formed
    `{{ value }}` marker. This is proved against a definition of the marker that does not
    depend on the scan.
  - Each variable becomes a Left target port, followed by `output` and `input`.
  - The node's size is computed from the text's lines.
- **Submit button** (`submit.js`): drops store entries that are null or lack a truthy source or
  target. It serialises the node ids and the remaining edges, and reports the service's
  answer or an error alert.
- **Delete button** (`DeleteNodeButton.js`): removes every selected node and every edge touching
  one. With no node selected it alerts and changes nothing.

The source disagrees with the design in two places, and the model follows the source:

- The design asks for a node count deduplicated by id and an edge count filtered by the service.
  `parse_pipeline` reports the raw list lengths.
- The design asks that stale ports be reconciled. No such reconciliation exists in the code.

Modules: `Js` (optional values, truthiness, `||`), `Flow` (canvas records), `Backend`,
`BaseNode`, `CustomNodes`, `InputNode`, `LlmNode`, `TextNode`, `Submit` and `DeleteNodeButton`.

## Model

| member | source | states |
|---|---|---|
| `Js.Field` | frontend/src/nodes/inputNode.js:9 | `data?.key` is present exactly when `data` is defined and has the key |
| `Js.Or` | frontend/src/nodes/customNodes.js:9 | `v` or-else `fallback` is `v` when truthy and the fallback otherwise |
| `Backend.SelfLoopIsCycle` | backend/main.py:54-60 | an edge from a listed node to itself is a cycle |
| `Backend.CycleStaysOnListedNodes` | backend/main.py:39-43 | every node on a cycle is a listed node, because edges from unlisted sources are dropped |
| `Backend.NoNodesNoCycle` | backend/main.py:66-71 | with no listed nodes there is no cycle, whatever the edges |
| `Backend.UnlistedSourceIgnored` | backend/main.py:41-43 | inserting an edge whose source is not listed never changes whether there is a cycle |
| `Backend.EdgeOrderIrrelevant` | backend/main.py:41-60 | two edge lists with the same members have the same verdict, whatever their order or repeats |
| `Backend.SameStepsSameCycles` | backend/main.py:39-43 | the verdict depends only on which listed-source edges exist |
| `Backend.PotentialRulesOutCycles` | backend/main.py:32-37 | a graph whose edges all strictly decrease some ranking has no cycle |
| `Backend.ChainExample` | backend/main.py:32-37 | A→B→C is acyclic, and adding C→A makes a cycle |
| `Backend.TargetsFromMembers` | backend/main.py:41-43 | v is in u's adjacency list exactly when the edge u→v was sent |
| `Backend.BuildAdjacency` | backend/main.py:38-43 | the adjacency list has exactly the listed ids as keys, each mapped to its targets in edge order |
| `Backend.AdjacencySteps` | backend/main.py:54 | a successor in the adjacency list is exactly a step along an edge from a listed source |
| `Backend.AdjacencyCycles` | backend/main.py:39-54 | the adjacency graph has a cycle exactly when the sent graph does |
| `Backend.BackEdgeClosesCycle` | backend/main.py:58-60 | an edge back into the recursion stack closes a cycle |
| `Backend.RankedGraphIsAcyclic` | backend/main.py:62-71 | once every listed node is finished, with each successor finished earlier, there is no cycle |
| `Backend.Enter` | backend/main.py:50-51 | marking a node visited and pushing it keeps the search invariant |
| `Backend.Leave` | backend/main.py:62-63 | popping a node whose successors are all finished keeps the invariant and finishes it |
| `Backend.CycleSearch.constructor` | backend/main.py:45-46 | the search starts with nothing visited and an empty recursion stack |
| `Backend.CycleSearch.HasCycleDfs` | backend/main.py:48-63 | True only when a cycle exists. On False the node is finished, the stack is as before, and visited only grows |
| `Backend.CycleSearch.Visit` | backend/main.py:66-69 | searching from an unvisited node, or skipping a visited one, reports only real cycles and otherwise leaves the node finished and the stack empty |
| `Backend.IsDag` | backend/main.py:32-71 | True exactly when there is no directed cycle among edges from listed nodes |
| `Backend.ParsePipeline` | backend/main.py:74-90 | reports the raw node and edge counts and `is_dag` exactly when there is no cycle |
| `BaseNode.RenderMembers` | frontend/src/nodes/BaseNode.js:37-53 | a port is drawn exactly for a handle of that type, with its id and its position or the default side |
| `BaseNode.RenderAppend` | frontend/src/nodes/BaseNode.js:37-39 | drawing keeps handle order: it distributes over concatenation |
| `BaseNode.RenderedCount` | frontend/src/nodes/BaseNode.js:36-97 | each handle is drawn once as a target, once as a source, or not at all |
| `BaseNode.NodeHeight` | frontend/src/nodes/BaseNode.js:18 | a present non-zero `data.height` is the height; a missing or zero one gives the minimum; never 0 when the minimum is not 0 |
| `BaseNode.Shell` | frontend/src/nodes/BaseNode.js:8-18 | the ports are exactly the rendered targets and sources of the handles (none without handles, never more than the handles); the minimum height is a truthy `data.height`, otherwise the given minimum or the default 160 |
| `BaseNode.OuterBox` | frontend/src/nodes/BaseNode.js:14-32 | minimum width 280 and the shell's minimum height; width and height come from `nodeStyle` only |
| `CustomNodes.FilterNode` | frontend/src/nodes/customNodes.js:40-57 | draws `input` on the Left and `passed`, `failed` on the Right |
| `CustomNodes.TransformNode` | frontend/src/nodes/customNodes.js:93-109 | draws `input` on the Left and `output` on the Right |
| `CustomNodes.MergeNode` | frontend/src/nodes/customNodes.js:142-160 | draws `input1`..`input3` on the Left and `output` on the Right |
| `CustomNodes.DelayNode` | frontend/src/nodes/customNodes.js:193-209 | draws `input` on the Left and `output` on the Right |
| `CustomNodes.ValidatorNode` | frontend/src/nodes/customNodes.js:245-262 | draws `input` on the Left and `valid`, `invalid` on the Right |
| `CustomNodes.HandleIdsDistinct` | frontend/src/nodes/customNodes.js:40-249 | no handle table repeats an id |
| `CustomNodes.ConfigDefaults` | frontend/src/nodes/customNodes.js:9-216 | with no data every option takes its default: `contains`, `''`, `uppercase`, `', '`, `1000`, `email` |
| `CustomNodes.OptionsFallBack` | frontend/src/nodes/customNodes.js:9-216 | for any data, each option is the data's value when that value is truthy and its default (`contains`, `''`, `uppercase`, `', '`, `1000`, `email`) when it is missing or empty |
| `CustomNodes.EmptyOptionFallsBack` | frontend/src/nodes/customNodes.js:9 | an empty `condition` falls back to the default just like a missing one, while a non-empty one is kept |
| `InputNode.FindFrom` | frontend/src/nodes/inputNode.js:9 | finds the first occurrence of a pattern at or after a position, or reports none |
| `InputNode.ReplaceFirst` | frontend/src/nodes/inputNode.js:9 | `replace` with a string pattern changes only the first occurrence, and nothing when there is none |
| `InputNode.InputConfigAsWritten` | frontend/src/nodes/inputNode.js:8-11 | as written, the options throw exactly when `data` is undefined |
| `InputNode.InputNode` | frontend/src/nodes/inputNode.js:7-75 | one `value` port on the Right, type defaults to `Text`, and agrees with the as-written options whenever those do not throw |
| `InputNode.UndefinedDataThrows` | frontend/src/nodes/inputNode.js:11 | with undefined `data` the as-written node throws, while the corrected one takes its defaults |
| `InputNode.GeneratedIdName` | frontend/src/nodes/inputNode.js:9 | the id `customInput-<n>` names the input `input_<n>` |
| `InputNode.UnmarkedIdName` | frontend/src/nodes/inputNode.js:9 | an id without `customInput-` is the name unchanged |
| `InputNode.OnlyFirstReplaced` | frontend/src/nodes/inputNode.js:9 | a second `customInput-` in the id stays |
| `LlmNode.LlmNode` | frontend/src/nodes/llmNode.js:13-42 | draws `system`, `prompt` on the Left and `response` on the Right |
| `LlmNode.LlmHandleIdsDistinct` | frontend/src/nodes/llmNode.js:13-31 | the handle ids are distinct |
| `TextNode.SkipSpaces` | frontend/src/nodes/textNode.js:14 | greedy `\s*` consumes exactly a maximal run of spaces |
| `TextNode.SkipIdentParts` | frontend/src/nodes/textNode.js:14 | greedy `[a-zA-Z0-9_$]*` consumes exactly a maximal run of identifier characters |
| `TextNode.MatchAt` | frontend/src/nodes/textNode.js:14-15 | a match spans at least five characters and ends inside the text |
| `TextNode.TrimGroup` | frontend/src/nodes/textNode.js:16 | trimming spaces, identifier, spaces leaves the identifier |
| `TextNode.MatchAtSound` | frontend/src/nodes/textNode.js:14-16 | a match is a well-formed marker, and its trimmed group is the marker's identifier |
| `TextNode.MatchAtComplete` | frontend/src/nodes/textNode.js:14-16 | every well-formed marker matches at its position, ending just past its braces |
| `TextNode.NoOverlap` | frontend/src/nodes/textNode.js:15 | a match ends at or before the next `{{` |
| `TextNode.ScanSound` | frontend/src/nodes/textNode.js:15-16 | every trimmed group found by the global scan names a marker of the text |
| `TextNode.ScanComplete` | frontend/src/nodes/textNode.js:15-16 | every marker's identifier is found by the scan from any earlier position |
| `TextNode.IndexOf` | frontend/src/nodes/textNode.js:18 | the first position holding a value |
| `TextNode.DedupProperties` | frontend/src/nodes/textNode.js:18 | `[...new Set(s)]` has no repeats, the same members, and first-appearance order |
| `TextNode.ExtractMembers` | frontend/src/nodes/textNode.js:13-20 | v is a variable exactly when the text holds a well-formed `{{ v }}`, and every variable is an identifier |
| `TextNode.ExtractOrder` | frontend/src/nodes/textNode.js:13-20 | variables have no repeats and follow the order of first appearance in the list of `matchAll` results |
| `TextNode.ScanReaches` | frontend/src/nodes/textNode.js:14-16 | scanning up to a marker for v reaches v, and every group found before it comes from a marker that starts earlier in the text |
| `TextNode.ExtractFirstAppearance` | frontend/src/nodes/textNode.js:14-18 | a variable whose marker starts before any marker of another variable is listed before that one, by position in the text |
| `TextNode.DedupOrder` | frontend/src/nodes/textNode.js:18 | removing repeats keeps the order of first occurrences |
| `TextNode.MalformedYieldsNothing` | frontend/src/nodes/textNode.js:13-20 | text without a well-formed marker has no variables |
| `TextNode.LeftPorts` | frontend/src/nodes/textNode.js:85-93 | one Left port per variable, in variable order |
| `TextNode.PortForMarker` | frontend/src/nodes/textNode.js:83-108 | a Left port named v is drawn exactly when the text has a `{{ v }}` marker or v is `input` |
| `TextNode.VariableHandlesRender` | frontend/src/nodes/textNode.js:85-93 | the variable handles draw as Left targets only |
| `TextNode.TextPorts` | frontend/src/nodes/textNode.js:83-108 | targets are the variables then `input`, and the only source is `output` |
| `TextNode.DefaultTextRepeatsInputHandle` | frontend/src/nodes/textNode.js:9-107 | the default text `{{input}}` yields the variable `input`, so two handles share the id `input` |
| `TextNode.SplitLines` | frontend/src/nodes/textNode.js:29 | `split('\n')` gives at least one line |
| `TextNode.SplitLinesProperties` | frontend/src/nodes/textNode.js:29 | one line more than line feeds, no line feed in a line, joining gives the text back |
| `TextNode.Height` | frontend/src/nodes/textNode.js:27-32 | the height lies between 100 and 400 |
| `TextNode.LongestLine` | frontend/src/nodes/textNode.js:37-40 | at least 10, no line longer in UTF-16 code units, and equal to 10 or some line's length |
| `TextNode.Utf16Length` | frontend/src/nodes/textNode.js:38 | a JavaScript string length lies between the number of characters and twice it |
| `TextNode.AstralLineWidth` | frontend/src/nodes/textNode.js:35-43 | 25 emoji count as 50 code units, so the width is 440 rather than 240 |
| `TextNode.Width` | frontend/src/nodes/textNode.js:35-43 | the width lies between 200 and 500 |
| `TextNode.HeightMonotone` | frontend/src/nodes/textNode.js:27-32 | more line feeds never give a smaller height |
| `TextNode.TextBoxAsWritten` | frontend/src/nodes/textNode.js:110-122 | as written the computed size never reaches the box: no width, no height |
| `TextNode.TextBox` | frontend/src/nodes/textNode.js:45-46 | with the size passed as `nodeStyle`, the box takes the computed width and height, within their caps |
| `TextNode.TextSizeIgnored` | frontend/src/nodes/textNode.js:110-122 | a one-line and a four-line text get the same box as written, but heights 100 and 140 when sized |
| `TextNode.TextBoxMonotone` | frontend/src/nodes/textNode.js:27-32 | with the size passed through, more lines never make the box shorter |
| `TextNode.TextNodeState.constructor` | frontend/src/nodes/textNode.js:9-20 | the text is `data?.text`, or `{{input}}` when that is falsy, and the variables are its extraction |
| `TextNode.TextNodeState.HandleTextChange` | frontend/src/nodes/textNode.js:22-24 | the new text is the typed value and the variables are re-extracted from it |
| `TextNode.TextNodeState.Ports` | frontend/src/nodes/textNode.js:110-116 | the node draws its variables then `input` on the Left and `output` on the Right |
| `TextNode.TextNodeState.BoxAsWritten` | frontend/src/nodes/textNode.js:110-122 | the box the node actually draws carries no width and no height |
| `TextNode.TextNodeState.SizedBox` | frontend/src/nodes/textNode.js:45-46 | the box with the computed size has exactly the computed height (100 to 400) and width (200 to 500) |
| `Submit.ValidEdges` | frontend/src/submit.js:12-14 | no more edges than entries, each with a truthy source and target |
| `Submit.ValidEdgesMembers` | frontend/src/submit.js:12-14 | an edge is kept exactly when it is in the store with a truthy source and target |
| `Submit.ValidEdgesAppend` | frontend/src/submit.js:12-14 | filtering keeps order: it distributes over concatenation |
| `Submit.ValidEdgesKeepsAll` | frontend/src/submit.js:11-14 | nothing is dropped exactly when every entry is countable |
| `Submit.ValidEdgesIdempotent` | frontend/src/submit.js:12-14 | filtering the kept edges again keeps them all |
| `Submit.NodeRecords` | frontend/src/submit.js:17 | one `{id}` per node, in order, with the node's id |
| `Submit.EdgeRecords` | frontend/src/submit.js:18-21 | one `{source, target}` per kept edge, in order |
| `Submit.Serialize` | frontend/src/submit.js:16-22 | the body lists every node and exactly the kept edges |
| `Submit.SerializeIgnoresInvalid` | frontend/src/submit.js:11-22 | dropping bad entries first gives the same body |
| `Submit.SentEdges` | frontend/src/submit.js:12-21 | u→v is sent exactly when both are non-empty and the store holds that edge |
| `Submit.DagStatus` | frontend/src/submit.js:44 | the DAG line reads "Yes (Valid DAG)" exactly for a DAG and "No (Contains Cycles)" otherwise |
| `Submit.HandleSubmit` | frontend/src/submit.js:9-55 | the body sent is the serialised store. An answered request reports the node count, the kept-edge count and a verdict that holds exactly when the sent graph has no cycle. Any other fate ends in the error alert |
| `DeleteNodeButton.SelectedIdsMembers` | frontend/src/nodes/DeleteNodeButton.js:9-17 | an id is deleted exactly when some selected node has it |
| `DeleteNodeButton.RemainingNodesMembers` | frontend/src/nodes/DeleteNodeButton.js:20 | a node stays exactly when its id is not deleted |
| `DeleteNodeButton.RemainingEdgesMembers` | frontend/src/nodes/DeleteNodeButton.js:23-25 | an edge stays exactly when neither endpoint is a deleted id |
| `DeleteNodeButton.RemainingEdgesCount` | frontend/src/nodes/DeleteNodeButton.js:23-25 | the edge count drops by exactly the number of touching edges |
| `DeleteNodeButton.NoSelectedRemain` | frontend/src/nodes/DeleteNodeButton.js:9-20 | no selected node survives, so pressing again only alerts |
| `DeleteNodeButton.DeletionKeepsAttached` | frontend/src/nodes/DeleteNodeButton.js:20-25 | if every edge joined two canvas nodes before, it still does after |
| `DeleteNodeButton.Canvas.constructor` | frontend/src/nodes/DeleteNodeButton.js:6 | the canvas holds the given nodes and edges |
| `DeleteNodeButton.Canvas.HandleDelete` | frontend/src/nodes/DeleteNodeButton.js:8-29 | alerts and changes nothing exactly when no node is selected; otherwise keeps the unselected-id nodes and the untouched edges |

## Left out

- HTTP, `fetch`, JSON encoding, `alert` and `console`:
  - The network's fate is a parameter of `Submit.HandleSubmit`.
  - Alert texts other than the DAG line are not modelled.
- Request validation by the web framework is not modelled. The backend receives already-typed
  records.
- Python's recursion limit is not modelled. On a deep graph `has_cycle_dfs` can raise
  `RecursionError`, while the model's recursion is unbounded.
- Running time is not modelled. The design asks for linear time.
- React rendering, styles, handle `top` percentages, titles and labels are not modelled.
  Handle styles are dropped from `BaseNode.Handle`.
- React state timing is not modelled. On first render the text node shows `variables = []`
  until its effect runs. `TextNode.TextNodeState` models the state after the effect.
- `\s` is modelled on ASCII whitespace only. JavaScript's `\s` also matches Unicode spaces such
  as U+00A0 and U+2028.
- `data.height` and `data.delayTime` are modelled as optional integers or strings. JavaScript
  values of other types are not modelled.
- Some nodes pass a `style` prop (a background colour) that the shell ignores. This is not
  modelled beyond the sizing finding below.
- The editor's store module is not part of this model. `Flow` records stand in for its nodes
  and edges.
- The delete button's edges are all objects: a null entry in the canvas edge list would throw,
  and that is not modelled.
- The design's dedup-by-id node count is not modelled, because the code reports raw lengths.
- The design's reconciliation of stale ports on re-render is not modelled, because the code
  has none.
- Backend.CycleSearch.HasCycleDfs: the contract does not state that a False result means no
  cycle through the node. That follows only for the whole search, in `Backend.IsDag`.

## Findings

| source | as written | input that shows it | evidently intended | confidence | as-written member | corrected member |
|---|---|---|---|---|---|---|
| frontend/src/nodes/inputNode.js:11 | `data.inputType` is read without `?.`, though line 9 guards `data?.inputName` | a node created with `data` undefined throws a TypeError | `data?.inputType`, defaulting to `Text` | low, not executed | `InputNode.InputConfigAsWritten` | `InputNode.InputNode` |
| frontend/src/nodes/textNode.js:117-121 | the computed width and height are passed as `style`, which the shell does not read | texts `""` and `"\n\n\n"` give the same box, with no width and no height | pass them as `nodeStyle`, so the box takes the computed size | medium, not executed | `TextNode.TextBoxAsWritten` | `TextNode.TextBox` |
