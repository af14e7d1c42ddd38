/** JavaScript values as the frontend sees them: optional fields, truthiness and `||` defaults. */
module Js {

  /** `undefined`/`null` (None) or a present value (Some). */
  datatype Option<+T> = None | Some(value: T) {
    function GetOr(default: T): T {
      match this
      case Some(v) => v
      case None => default
    }
  }

  /** A component's `data` prop: the string-valued options a node was created with. */
  type Data = map<string, string>

  /** `data?.[key]`: undefined when `data` itself is undefined or has no such key. */
  function Field(data: Option<Data>, key: string): (r: Option<string>)
    ensures r.Some? <==> data.Some? && key in data.value
  {
    if data.Some? && key in data.value then Some(data.value[key]) else None
  }

  /** Truthiness of an optional string: undefined, null and '' are falsy. */
  predicate Truthy(v: Option<string>) {
    v.Some? && v.value != ""
  }

  /** `v || fallback` for an optional string. */
  function Or(v: Option<string>, fallback: string): (r: string)
    ensures Truthy(v) ==> r == v.value
    ensures !Truthy(v) ==> r == fallback
  {
    if Truthy(v) then v.value else fallback
  }
}
