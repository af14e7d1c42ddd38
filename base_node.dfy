/** The shared node shell: it splits a node's handle list into the target ports drawn on one
    side and the source ports drawn on the other, and picks the node's minimum height. */
module BaseNode {
  import opened Js

  /** A handle's `type`: 'target', 'source', or any other string. */
  datatype HandleType = Target | Source | OtherType(name: string)

  datatype Position = Left | Right | Top | Bottom

  /** A handle descriptor `{type, position, id}` as a node lists it (its style is left out). */
  datatype Handle = Handle(kind: HandleType, position: Option<Position>, id: string)

  /** A rendered `<Handle>`: its id and the side it is drawn on. */
  datatype Port = Port(id: string, position: Position)

  /** What the shell renders that matters for connections. */
  datatype View = View(targets: seq<Port>, sources: seq<Port>, minHeight: int)

  /** Default of the `minHeight` prop. */
  const DefaultMinHeight: int := 160

  /** The port drawn for one handle when it has the wanted type. */
  function Draw(h: Handle, kind: HandleType, fallback: Position): seq<Port> {
    if h.kind == kind then [Port(h.id, h.position.GetOr(fallback))] else []
  }

  /** `handles.filter(h => h.type === kind).map(...)`, with `handle.position || fallback`. */
  function Render(handles: seq<Handle>, kind: HandleType, fallback: Position): seq<Port>
  {
    if handles == [] then [] else Draw(handles[0], kind, fallback) + Render(handles[1..], kind, fallback)
  }

  /** Target handles are drawn on the Left unless they say otherwise. */
  function TargetPorts(handles: seq<Handle>): seq<Port> {
    Render(handles, Target, Left)
  }

  /** Source handles are drawn on the Right unless they say otherwise. */
  function SourcePorts(handles: seq<Handle>): seq<Port> {
    Render(handles, Source, Right)
  }

  /** A port is rendered exactly for a handle of the wanted type, keeping its id, and at its
      own position or the fallback when it has none. */
  lemma {:induction false} RenderMembers(handles: seq<Handle>, kind: HandleType, fallback: Position, p: Port)
    ensures p in Render(handles, kind, fallback) <==>
            exists h :: h in handles && h.kind == kind && p == Port(h.id, h.position.GetOr(fallback))
  {
    if handles != [] {
      RenderMembers(handles[1..], kind, fallback, p);
      assert handles == [handles[0]] + handles[1..];
    }
  }

  /** Rendering keeps the input order: it distributes over concatenation. */
  lemma {:induction false} RenderAppend(a: seq<Handle>, b: seq<Handle>, kind: HandleType, fallback: Position)
    ensures Render(a + b, kind, fallback) == Render(a, kind, fallback) + Render(b, kind, fallback)
  {
    if a == [] {
      assert a + b == b;
    } else {
      var d := Draw(a[0], kind, fallback);
      assert (a + b)[0] == a[0] && (a + b)[1..] == a[1..] + b;
      assert Render(a + b, kind, fallback) == d + Render(a[1..] + b, kind, fallback);
      RenderAppend(a[1..], b, kind, fallback);
      assert Render(a, kind, fallback) == d + Render(a[1..], kind, fallback);
    }
  }

  /** Handles whose type is neither 'target' nor 'source'; they are never drawn. */
  function Unrendered(handles: seq<Handle>): nat {
    if handles == [] then 0
    else (if handles[0].kind.OtherType? then 1 else 0) + Unrendered(handles[1..])
  }

  /** Every handle is drawn once as a target, once as a source, or not at all. */
  lemma {:induction false} RenderedCount(handles: seq<Handle>)
    ensures |TargetPorts(handles)| + |SourcePorts(handles)| + Unrendered(handles) == |handles|
  {
    if handles != [] {
      RenderedCount(handles[1..]);
    }
  }

  /** `data?.height || minHeight`, where a height of 0 is falsy. */
  function NodeHeight(dataHeight: Option<int>, minHeight: int): (h: int)
    ensures dataHeight.Some? && dataHeight.value != 0 ==> h == dataHeight.value
    ensures !(dataHeight.Some? && dataHeight.value != 0) ==> h == minHeight
    ensures minHeight != 0 ==> h != 0
  {
    if dataHeight.Some? && dataHeight.value != 0 then dataHeight.value else minHeight
  }

  /** The shell: `handles` defaults to no handles and `minHeight` to 160. */
  function Shell(handles: Option<seq<Handle>>, dataHeight: Option<int>, minHeight: Option<int>): (v: View)
    ensures v.targets == TargetPorts(handles.GetOr([])) && v.sources == SourcePorts(handles.GetOr([]))
    ensures handles.None? ==> v.targets == [] && v.sources == []
    ensures |v.targets| + |v.sources| <= |handles.GetOr([])|
    ensures dataHeight.Some? && dataHeight.value != 0 ==> v.minHeight == dataHeight.value
    ensures !(dataHeight.Some? && dataHeight.value != 0) ==> v.minHeight == minHeight.GetOr(DefaultMinHeight)
    ensures minHeight.None? ==> v.minHeight != 0
  {
    var hs := handles.GetOr([]);
    var floor := if minHeight.Some? then minHeight.value else DefaultMinHeight;
    RenderedCount(hs);
    View(TargetPorts(hs), SourcePorts(hs), NodeHeight(dataHeight, floor))
  }

  /** The `width` and `height` keys of a `nodeStyle` prop (its colours and borders are left
      out). */
  datatype Size = Size(width: int, height: int)

  /** The part of the outer box's style that sizes it. */
  datatype Box = Box(minWidth: int, minHeight: int, width: Option<int>, height: Option<int>)

  const MinWidth: int := 280

  /** The outer box: a minimum width of 280, the minimum height the shell computes, and the
      `nodeStyle` prop spread over them. Only a prop named `nodeStyle` reaches the box. */
  function OuterBox(dataHeight: Option<int>, minHeight: Option<int>, nodeStyle: Option<Size>): (b: Box)
    ensures b.minWidth == MinWidth
    ensures b.minHeight == Shell(None, dataHeight, minHeight).minHeight
    ensures nodeStyle.None? ==> b.width.None? && b.height.None?
    ensures nodeStyle.Some? ==> b.width == Some(nodeStyle.value.width) && b.height == Some(nodeStyle.value.height)
  {
    var floor := if minHeight.Some? then minHeight.value else DefaultMinHeight;
    match nodeStyle
    case None => Box(MinWidth, NodeHeight(dataHeight, floor), None, None)
    case Some(size) => Box(MinWidth, NodeHeight(dataHeight, floor), Some(size.width), Some(size.height))
  }

  /** Ids of a handle list are pairwise distinct. */
  predicate DistinctIds(handles: seq<Handle>) {
    forall i, j :: 0 <= i < j < |handles| ==> handles[i].id != handles[j].id
  }
}
