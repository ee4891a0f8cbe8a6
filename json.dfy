/**
 * The JavaScript values that cross the storage boundary, and `JSON.parse` /
 * `JSON.stringify` as a pair of given functions. Nothing about JSON text is modelled
 * beyond the one law the storage layer relies on: parsing what `stringify` produced
 * gives the value back.
 */
module Json {
  import opened Wrappers

  /** A value the storage layer saves or loads: `null`, a string, or any other JSON value. */
  datatype Value =
    | Null
    | Str(text: string)
    | Num(n: int)
    | Bool(b: bool)
    | Arr(items: seq<Value>)
    | Obj(fields: map<string, Value>)

  /** `JSON.parse` (`None` where it throws) and `JSON.stringify`, supplied by the environment. */
  datatype Codec = Codec(parse: string -> Option<Value>, stringify: Value -> string)

  /** The round-trip law: `JSON.parse(JSON.stringify(v))` is `v` again. */
  ghost predicate Lawful(c: Codec) {
    forall v :: c.parse(c.stringify(v)) == Some(v)
  }

  /** A text that `JSON.parse` rejects. */
  predicate NotJson(c: Codec, s: string) {
    c.parse(s).None?
  }
}
