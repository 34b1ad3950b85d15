/** JSON values as the repository's `serde_json::Value` holds them. Object key
    order is not observable by the modelled code, so an object is a map. */
module Json {
  import opened Wrappers

  /** `Int` is a number written as an integer, `Real` any other number. */
  datatype Json =
    | Null
    | Bool(b: bool)
    | Int(n: int)
    | Real(text: string)
    | Str(s: string)
    | Arr(items: seq<Json>)
    | Obj(fields: map<string, Json>)

  type Object = map<string, Json>

  /** `Value::get` with a string key: only objects have members. */
  function Get(v: Json, key: string): Option<Json> {
    if v.Obj? && key in v.fields then Some(v.fields[key]) else None
  }

  function Member(m: Object, key: string): Option<Json> {
    if key in m then Some(m[key]) else None
  }

  function AsStr(v: Option<Json>): Option<string> {
    if v.Some? && v.value.Str? then Some(v.value.s) else None
  }

  const U64_LIMIT: int := 0x1_0000_0000_0000_0000
  const I64_LIMIT: int := 0x8000_0000_0000_0000

  /** `as_u64` of an optional value. */
  function AsU64(v: Option<Json>): Option<nat> {
    if v.Some? && v.value.Int? && 0 <= v.value.n < U64_LIMIT then Some(v.value.n) else None
  }

  /** `as_i64` of a value. */
  function AsI64(v: Json): Option<int> {
    if v.Int? && -I64_LIMIT <= v.n < I64_LIMIT then Some(v.n) else None
  }

  /** Which integers these are. */
  lemma IntegersExactly(n: int)
    ensures AsU64(Some(Int(n))) == if 0 <= n <= 18_446_744_073_709_551_615 then Some(n) else None
    ensures AsI64(Int(n)) ==
            if -9_223_372_036_854_775_808 <= n <= 9_223_372_036_854_775_807 then Some(n) else None
  {
  }
}
