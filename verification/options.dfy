/** Option values as the engine sees them: Ruby values in an options hash keyed by symbol.
    A missing key reads as nil, as on `ActiveSupport::OrderedOptions`. */
module Options {

  datatype Value =
    | Nil
    | Bool(b: bool)
    | Int(i: int)
    | Str(s: string)
    | Sym(name: string)
    | List(items: seq<Value>)

  type Options = map<string, Value>

  /** Ruby truthiness: everything but nil and false. */
  predicate Truthy(v: Value) {
    v != Nil && v != Bool(false)
  }

  /** `options[key]` / `options.key`. */
  function Get(o: Options, key: string): (v: Value)
    ensures key !in o ==> v == Nil
  {
    if key in o then o[key] else Nil
  }

  /** `Hash#merge`: the entries of `over` replace those of `base`. */
  function Merge(base: Options, over: Options): (r: Options)
    ensures r.Keys == base.Keys + over.Keys
    ensures forall k | k in over :: r[k] == over[k]
    ensures forall k | k in base && k !in over :: r[k] == base[k]
  {
    base + over
  }
}
