/**
 * The JSON value the client inspects (serde_json's `Value`) and the three
 * accessors of it that the client calls: `get`, indexing with `[]` and `as_i64`.
 * The parser and serialiser themselves are not modelled; a `JsonCodec` carries
 * them as two functions supplied from outside.
 */
module Json {
  import opened Wrappers

  /**
   * serde_json keeps an object's members in a map with unique keys. `Int` is
   * one of the integers serde_json keeps as an integer, with its exact value;
   * every other number (a fraction, an exponent, `-0`, or an integer outside
   * the i64 and u64 ranges) is a `Float`, whose value plays no part here.
   */
  datatype Json =
    | Null
    | Bool(b: bool)
    | Int(n: int)
    | Float(literal: string)
    | Str(s: string)
    | Array(items: seq<Json>)
    | Object(fields: map<string, Json>)

  /** `serde_json::from_str::<Value>` (None on a syntax error) and `serde_json::to_string`. */
  datatype JsonCodec = JsonCodec(parse: string -> Option<Json>, serialize: Json -> string)

  const I64Min: int := -0x8000_0000_0000_0000
  const I64Max: int := 0x7fff_ffff_ffff_ffff

  predicate InI64(n: int) {
    I64Min <= n <= I64Max
  }

  /** `Value::get(key)`: the member of an object, nothing for any other value. */
  function Get(v: Json, key: string): Option<Json> {
    if v.Object? && key in v.fields then Some(v.fields[key]) else None
  }

  /** `v[key]` (the `Index` impl): like `get`, but `Null` stands in for nothing. */
  function Index(v: Json, key: string): Json {
    Get(v, key).UnwrapOr(Null)
  }

  /** `Value::as_i64`: an integer that fits in an `i64`; floats, other values and wider integers give nothing. */
  function AsI64(v: Json): Option<int> {
    if v.Int? && InI64(v.n) then Some(v.n) else None
  }
}
