/**
 * The JavaScript values the core handles: what `JSON.parse` produces, plus
 * `undefined` for a missing property. Numbers are integers here.
 */
module JsValues {
  import opened Wrappers
  import Text

  datatype JsValue =
    | Undefined
    | Null
    | Bool(b: bool)
    | Num(n: int)
    | Str(s: string)
    | Arr(items: seq<JsValue>)
    | Obj(fields: map<string, JsValue>)

  /** What `JSON.parse` reports when its input is not JSON (a thrown SyntaxError). */
  datatype SyntaxError = SyntaxError

  /** `JSON.parse`: a partial function from text to a value; the engine is not modelled,
    * so every operation that parses takes it as a parameter. */
  type JsonParser = string -> Result<JsValue, SyntaxError>

  /** JavaScript truthiness: `undefined`, `null`, `false`, `0` and `""` are falsy. */
  predicate Truthy(v: JsValue) {
    match v
    case Undefined => false
    case Null => false
    case Bool(b) => b
    case Num(n) => n != 0
    case Str(s) => s != ""
    case Arr(_) => true
    case Obj(_) => true
  }

  predicate IsNullish(v: JsValue) {
    v.Undefined? || v.Null?
  }

  /** `v.key` for a key that is neither an array index, `length`, nor an inherited
    * property: the own property of an object, `undefined` on any other non-nullish
    * value, and a TypeError (None) on `null` or `undefined`. */
  function Get(v: JsValue, key: string): (r: Option<JsValue>)
    ensures r.None? <==> IsNullish(v)
    ensures r.Some? && r.value != Undefined ==> v.Obj? && key in v.fields && r.value == v.fields[key]
  {
    match v
    case Undefined => None
    case Null => None
    case Obj(m) => Some(if key in m then m[key] else Undefined)
    case _ => Some(Undefined)
  }

  /** `v?.key`: `undefined` instead of a TypeError on a nullish value. */
  function GetOptional(v: JsValue, key: string): (r: JsValue)
    ensures r != Undefined ==> v.Obj? && key in v.fields && r == v.fields[key]
  {
    if IsNullish(v) then Undefined else Get(v, key).value
  }

  /** `v[0]`: the first element of an array, the first character of a string, the
    * property "0" of an object, `undefined` on a boolean or number, and a TypeError
    * (None) on `null` or `undefined`. */
  function At0(v: JsValue): (r: Option<JsValue>)
    ensures r.None? <==> IsNullish(v)
    ensures v.Arr? ==> r == Some(if |v.items| > 0 then v.items[0] else Undefined)
  {
    match v
    case Undefined => None
    case Null => None
    case Arr(xs) => Some(if |xs| > 0 then xs[0] else Undefined)
    case Str(s) => Some(if |s| > 0 then Str([s[0]]) else Undefined)
    case Obj(m) => Some(if "0" in m then m["0"] else Undefined)
    case _ => Some(Undefined)
  }

  /** `String(v)`: the string conversion. An array joins its elements' conversions with
    * commas, writing `null` and `undefined` elements as the empty string. */
  function ToJsString(v: JsValue): string
  {
    match v
    case Undefined => "undefined"
    case Null => "null"
    case Bool(b) => if b then "true" else "false"
    case Num(n) => Text.IntToDecimal(n)
    case Str(s) => s
    case Arr(xs) =>
      Text.Join(seq(|xs|, i requires 0 <= i < |xs| =>
        if IsNullish(xs[i]) then "" else ToJsString(xs[i])), ",")
    case Obj(_) => "[object Object]"
  }

  /** A thrown value: an `Error` instance (with its `name`, `message` and optional
    * `stack`) or any other value. */
  datatype Thrown =
    | ErrorInstance(name: string, message: string, stack: Option<string>)
    | OtherValue(value: JsValue)
}
