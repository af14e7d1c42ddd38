/** The input node: a name (from `data.inputName`, or derived from the node id by replacing the
    first `customInput-` with `input_`), a type defaulting to 'Text', and one source handle. */
module InputNode {
  import opened Js
  import opened BaseNode

  datatype InputConfig = InputConfig(name: string, inputType: string)

  /** A `TypeError` raised by reading a property of `undefined`. */
  datatype TypeError = ReadOfUndefined(property: string)

  datatype Result<T> = Success(value: T) | Failure(error: TypeError)

  const InputHandles: seq<Handle> := [Handle(Source, Some(Right), "value")]

  // ---------------------------------------------------------------------------
  // String.prototype.replace with a string pattern
  // ---------------------------------------------------------------------------

  predicate OccursAt(s: string, pat: string, k: nat) {
    k + |pat| <= |s| && s[k..k + |pat|] == pat
  }

  /** The first index at or after `from` where `pat` occurs. */
  function FindFrom(s: string, pat: string, from: nat): (r: Option<nat>)
    requires from <= |s|
    decreases |s| - from
    ensures r.Some? ==> from <= r.value && OccursAt(s, pat, r.value)
    ensures r.Some? ==> forall k :: from <= k < r.value ==> !OccursAt(s, pat, k)
    ensures r.None? ==> forall k :: from <= k <= |s| ==> !OccursAt(s, pat, k)
  {
    if OccursAt(s, pat, from) then Some(from)
    else if from == |s| then None
    else FindFrom(s, pat, from + 1)
  }

  /** `s.replace(pat, rep)`: only the first occurrence is replaced. */
  function ReplaceFirst(s: string, pat: string, rep: string): (r: string)
    ensures (forall k :: 0 <= k <= |s| ==> !OccursAt(s, pat, k)) ==> r == s
    ensures forall i: nat :: OccursAt(s, pat, i) && (forall k :: 0 <= k < i ==> !OccursAt(s, pat, k)) ==>
              r == s[..i] + rep + s[i + |pat|..]
  {
    match FindFrom(s, pat, 0)
    case None => s
    case Some(i) => s[..i] + rep + s[i + |pat|..]
  }

  // ---------------------------------------------------------------------------
  // The node
  // ---------------------------------------------------------------------------

  const IdPrefix: string := "customInput-"
  const NamePrefix: string := "input_"

  /** `data?.inputName || id.replace('customInput-', 'input_')`. */
  function DefaultName(id: string, data: Option<Data>): string {
    Or(Field(data, "inputName"), ReplaceFirst(id, IdPrefix, NamePrefix))
  }

  /** The options as written: `data.inputType` is read without `?.`, so an undefined `data`
      throws even though the name above guards it. */
  function InputConfigAsWritten(id: string, data: Option<Data>): (r: Result<InputConfig>)
    ensures r.Failure? <==> data.None?
  {
    var name := DefaultName(id, data);
    if data.None? then Failure(ReadOfUndefined("inputType"))
    else Success(InputConfig(name, Or(Field(data, "inputType"), "Text")))
  }

  /** The options with `data?.inputType`, as the name's guard shows was intended. */
  function InputNode(id: string, data: Option<Data>, dataHeight: Option<int>): (r: (InputConfig, View))
    ensures r.1.targets == [] && r.1.sources == [Port("value", Right)]
    ensures !Truthy(Field(data, "inputType")) ==> r.0.inputType == "Text"
    ensures data.Some? ==> InputConfigAsWritten(id, data) == Success(r.0)
  {
    (InputConfig(DefaultName(id, data), Or(Field(data, "inputType"), "Text")),
     Shell(Some(InputHandles), dataHeight, None))
  }

  /** An undefined `data` makes the node as written throw, while the corrected node falls
      back to its defaults. */
  lemma UndefinedDataThrows(id: string, dataHeight: Option<int>)
    ensures InputConfigAsWritten(id, None) == Failure(ReadOfUndefined("inputType"))
    ensures InputNode(id, None, dataHeight).0 == InputConfig(ReplaceFirst(id, IdPrefix, NamePrefix), "Text")
  {
  }

  /** A node id made by the editor, `customInput-<n>`, names the input `input_<n>`. */
  lemma GeneratedIdName(n: string, data: Option<Data>)
    requires !Truthy(Field(data, "inputName"))
    ensures DefaultName(IdPrefix + n, data) == NamePrefix + n
  {
    assert OccursAt(IdPrefix + n, IdPrefix, 0) by {
      assert (IdPrefix + n)[0..|IdPrefix|] == IdPrefix;
    }
  }

  /** An id without `customInput-` is used as the name unchanged. */
  lemma UnmarkedIdName(id: string, data: Option<Data>)
    requires !Truthy(Field(data, "inputName"))
    requires forall k :: 0 <= k <= |id| ==> !OccursAt(id, IdPrefix, k)
    ensures DefaultName(id, data) == id
  {
  }

  /** Only the first `customInput-` is replaced: a second one stays. */
  lemma OnlyFirstReplaced()
    ensures ReplaceFirst(IdPrefix + IdPrefix, IdPrefix, NamePrefix) == NamePrefix + IdPrefix
  {
    var s := IdPrefix + IdPrefix;
    assert s[0..|IdPrefix|] == IdPrefix;
    assert FindFrom(s, IdPrefix, 0) == Some(0);
    assert s[|IdPrefix|..] == IdPrefix;
  }
}
