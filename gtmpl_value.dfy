/** The template engine's dynamic value (`gtmpl_value::Value`) and the
    type-erased handle (`Arc<Any>`) in which the engine passes arguments. */
module GtmplValue {
  import opened RustPrims

  /** The dynamic value union. `Float` carries a real number: IEEE rounding is not modelled. */
  datatype Value =
    | Nil
    | Bool(b: bool)
    | Int(i: int)
    | Float(f: real)
    | Str(s: string)
    | Array(items: seq<Value>)
    | Map(entries: map<string, Value>)

  /** An `Arc<Any>` argument: either it holds a `Value`, so that
      `downcast_ref::<Value>()` succeeds, or it holds some other Rust type. */
  datatype Arg = Boxed(value: Value) | Foreign

  /** `from_value::<String>(v)`: only the string variant converts. */
  function StringFromValue(v: Value): (r: Option<string>)
    ensures r.Some? <==> v.Str?
    ensures r.Some? ==> v == Str(r.value)
  {
    match v
    case Str(s) => Some(s)
    case _ => None
  }
}
