/** The five configurable node kinds: filter, transform, merge, delay and validator. Each keeps
    its options (falling back to a default when the supplied option is falsy) and hands a fixed
    handle table to the shell, whatever the options are. */
module CustomNodes {
  import opened Js
  import opened BaseNode

  datatype FilterConfig = FilterConfig(condition: string, filterValue: string)
  datatype TransformConfig = TransformConfig(operation: string)
  datatype MergeConfig = MergeConfig(separator: string)
  datatype DelayConfig = DelayConfig(delayTime: string)
  datatype ValidatorConfig = ValidatorConfig(validationType: string)

  const FilterHandles: seq<Handle> := [
    Handle(Target, Some(Left), "input"),
    Handle(Source, Some(Right), "passed"),
    Handle(Source, Some(Right), "failed")
  ]

  const TransformHandles: seq<Handle> := [
    Handle(Target, Some(Left), "input"),
    Handle(Source, Some(Right), "output")
  ]

  const MergeHandles: seq<Handle> := [
    Handle(Target, Some(Left), "input1"),
    Handle(Target, Some(Left), "input2"),
    Handle(Target, Some(Left), "input3"),
    Handle(Source, Some(Right), "output")
  ]

  const DelayHandles: seq<Handle> := [
    Handle(Target, Some(Left), "input"),
    Handle(Source, Some(Right), "output")
  ]

  const ValidatorHandles: seq<Handle> := [
    Handle(Target, Some(Left), "input"),
    Handle(Source, Some(Right), "valid"),
    Handle(Source, Some(Right), "invalid")
  ]

  function FilterNode(data: Option<Data>, dataHeight: Option<int>): (r: (FilterConfig, View))
    ensures r.1.targets == [Port("input", Left)]
    ensures r.1.sources == [Port("passed", Right), Port("failed", Right)]
  {
    var config := FilterConfig(Or(Field(data, "condition"), "contains"),
                               Or(Field(data, "filterValue"), ""));
    (config, Shell(Some(FilterHandles), dataHeight, Some(180)))
  }

  function TransformNode(data: Option<Data>, dataHeight: Option<int>): (r: (TransformConfig, View))
    ensures r.1.targets == [Port("input", Left)]
    ensures r.1.sources == [Port("output", Right)]
  {
    (TransformConfig(Or(Field(data, "operation"), "uppercase")),
     Shell(Some(TransformHandles), dataHeight, Some(160)))
  }

  function MergeNode(data: Option<Data>, dataHeight: Option<int>): (r: (MergeConfig, View))
    ensures r.1.targets == [Port("input1", Left), Port("input2", Left), Port("input3", Left)]
    ensures r.1.sources == [Port("output", Right)]
  {
    (MergeConfig(Or(Field(data, "separator"), ", ")),
     Shell(Some(MergeHandles), dataHeight, Some(180)))
  }

  function DelayNode(data: Option<Data>, dataHeight: Option<int>): (r: (DelayConfig, View))
    ensures r.1.targets == [Port("input", Left)]
    ensures r.1.sources == [Port("output", Right)]
  {
    (DelayConfig(Or(Field(data, "delayTime"), "1000")),
     Shell(Some(DelayHandles), dataHeight, Some(160)))
  }

  function ValidatorNode(data: Option<Data>, dataHeight: Option<int>): (r: (ValidatorConfig, View))
    ensures r.1.targets == [Port("input", Left)]
    ensures r.1.sources == [Port("valid", Right), Port("invalid", Right)]
  {
    (ValidatorConfig(Or(Field(data, "validationType"), "email")),
     Shell(Some(ValidatorHandles), dataHeight, Some(180)))
  }

  /** Within each of the five tables no two handles share an id. */
  lemma HandleIdsDistinct()
    ensures DistinctIds(FilterHandles) && DistinctIds(TransformHandles)
    ensures DistinctIds(MergeHandles) && DistinctIds(DelayHandles)
    ensures DistinctIds(ValidatorHandles)
  {
  }

  /** With no options supplied, every option takes its default. */
  lemma ConfigDefaults(dataHeight: Option<int>)
    ensures FilterNode(None, dataHeight).0 == FilterConfig("contains", "")
    ensures TransformNode(None, dataHeight).0 == TransformConfig("uppercase")
    ensures MergeNode(None, dataHeight).0 == MergeConfig(", ")
    ensures DelayNode(None, dataHeight).0 == DelayConfig("1000")
    ensures ValidatorNode(None, dataHeight).0 == ValidatorConfig("email")
  {
  }

  /** Each option is the supplied value when that is truthy, and its default when the value
      is missing or empty. */
  lemma OptionsFallBack(data: Option<Data>, dataHeight: Option<int>)
    ensures Truthy(Field(data, "condition")) ==> FilterNode(data, dataHeight).0.condition == data.value["condition"]
    ensures !Truthy(Field(data, "condition")) ==> FilterNode(data, dataHeight).0.condition == "contains"
    ensures Truthy(Field(data, "filterValue")) ==> FilterNode(data, dataHeight).0.filterValue == data.value["filterValue"]
    ensures !Truthy(Field(data, "filterValue")) ==> FilterNode(data, dataHeight).0.filterValue == ""
    ensures Truthy(Field(data, "operation")) ==> TransformNode(data, dataHeight).0.operation == data.value["operation"]
    ensures !Truthy(Field(data, "operation")) ==> TransformNode(data, dataHeight).0.operation == "uppercase"
    ensures Truthy(Field(data, "separator")) ==> MergeNode(data, dataHeight).0.separator == data.value["separator"]
    ensures !Truthy(Field(data, "separator")) ==> MergeNode(data, dataHeight).0.separator == ", "
    ensures Truthy(Field(data, "delayTime")) ==> DelayNode(data, dataHeight).0.delayTime == data.value["delayTime"]
    ensures !Truthy(Field(data, "delayTime")) ==> DelayNode(data, dataHeight).0.delayTime == "1000"
    ensures Truthy(Field(data, "validationType")) ==> ValidatorNode(data, dataHeight).0.validationType == data.value["validationType"]
    ensures !Truthy(Field(data, "validationType")) ==> ValidatorNode(data, dataHeight).0.validationType == "email"
  {
  }

  /** A present but empty option falls back like a missing one. */
  lemma EmptyOptionFallsBack(dataHeight: Option<int>)
    ensures FilterNode(Some(map["condition" := ""]), dataHeight).0 == FilterNode(None, dataHeight).0
    ensures FilterNode(Some(map["condition" := "equals"]), dataHeight).0.condition == "equals"
  {
  }
}
