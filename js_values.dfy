/** The JavaScript values that the SGF puzzle code inspects, and the two JavaScript
    operations it applies to them: the truthiness test of `if (x)` and the
    defaulting operator `x || d`. */
module JsValues {

  datatype Option<+T> = None | Some(value: T)

  datatype Result<+T, +E> = Ok(value: T) | Err(error: E)

  /** The only failure the modelled code can raise: reading a property of `undefined`. */
  datatype Fault = TypeError

  /** A property value as handed over by the SGF parser: a string, a number
      (integers only) or an array of values. */
  datatype Js = JStr(s: string) | JNum(n: int) | JArr(items: seq<Js>)

  /** The properties of one SGF node, keyed by property identifier ("B", "W", "GN", "SZ", "AB", "AW", ...).
      A key that is absent reads as `undefined`. */
  type Props = map<string, Js>

  /** `props.key`: the value stored under `key`, or None for `undefined`. */
  function Get(props: Props, key: string): (r: Option<Js>)
    ensures r.Some? <==> key in props
    ensures r.Some? ==> r.value == props[key]
  {
    if key in props then Some(props[key]) else None
  }

  /** JavaScript truthiness: `undefined`, the empty string and zero are falsy; every array is truthy. */
  predicate Truthy(v: Option<Js>)
  {
    match v
    case None => false
    case Some(JStr(s)) => s != ""
    case Some(JNum(n)) => n != 0
    case Some(JArr(_)) => true
  }

  /** `v || d`: the left operand when it is truthy, otherwise the right one. */
  function Or(v: Option<Js>, d: Js): (r: Js)
    ensures Truthy(v) ==> Some(r) == v
    ensures !Truthy(v) ==> r == d
    ensures Truthy(Some(d)) ==> Truthy(Some(r))
  {
    if Truthy(v) then v.value else d
  }
}
