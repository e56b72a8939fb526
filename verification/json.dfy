/**
 The few JavaScript value operations validate-config.js applies to the parsed
 `config.json`: property reads (a plain read of a property of `null` throws,
 which the caller checks with `IsNullish`), optional-chained reads,
 truthiness, `a || b` and destructuring defaults.

 Only own properties of objects are modelled; properties inherited from the
 built-in prototypes are not. Of the keys read here only `filter` is one
 (`Array.prototype.filter`): on an array configuration the program reads a
 function there, whose `skipNumbers` is `undefined`, and the array has no
 `scan`, so no outcome differs from the model's `undefined`. Numbers are
 integers.
 */
module Json {

  datatype Json =
    | Undefined
    | Null
    | Bool(b: bool)
    | Num(x: int)
    | Str(s: string)
    | Arr(items: seq<Json>)
    | Obj(fields: map<string, Json>)
  {
    predicate IsNullish() {
      Undefined? || Null?
    }
  }

  /** `v[key]` on a value that is not `null` or `undefined`. */
  function Member(v: Json, key: string): (r: Json)
    ensures r != Undefined ==> v.Obj? && key in v.fields && v.fields[key] == r
  {
    if v.Obj? && key in v.fields then v.fields[key] else Undefined
  }

  /** `v?.key`: `undefined` on `null` and `undefined`, never throws. */
  function Chain(v: Json, key: string): Json {
    if v.IsNullish() then Undefined else Member(v, key)
  }

  /** JavaScript truthiness (numbers are integers, so there is no `NaN`). */
  predicate Truthy(v: Json) {
    match v
    case Undefined => false
    case Null => false
    case Bool(b) => b
    case Num(x) => x != 0
    case Str(s) => |s| > 0
    case Arr(_) => true
    case Obj(_) => true
  }

  /** `a || b` */
  function Or(a: Json, b: Json): Json {
    if Truthy(a) then a else b
  }

  /** `const { key = fallback } = v` */
  function WithDefault(v: Json, key: string, fallback: Json): Json {
    var m := Member(v, key);
    if m.Undefined? then fallback else m
  }
}
