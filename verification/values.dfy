/**
  The values a caller passes for a command option, the exceptions the
  interface can raise, and the two Python conversions it applies to
  option values: truthiness and `str()` inside an f-string.
 */
module Values {
  import opened Text

  /** An option value: a string, a bool, an int or a tuple of strings. */
  datatype Value = VStr(s: string) | VBool(b: bool) | VInt(i: int) | VTuple(items: seq<string>)

  /** The Python exceptions the modelled code can raise. */
  datatype Error =
    | KeyError(key: string)
    | ValueError(reason: string)
    | TypeError(reason: string)
    | AttributeError(reason: string)
    | IndexError(reason: string)

  /** `bool(v)` */
  predicate Truthy(v: Value) {
    match v
    case VStr(s) => s != ""
    case VBool(b) => b
    case VInt(i) => i != 0
    case VTuple(items) => items != []
  }

  /** `repr` of a string without quotes or backslashes in it. */
  function Quoted(s: string): string {
    "'" + s + "'"
  }

  /** `repr` of a tuple of such strings: `()`, `('a',)`, `('a', 'b')`. */
  function TupleRepr(items: seq<string>): string {
    if items == [] then "()"
    else if |items| == 1 then "(" + Quoted(items[0]) + ",)"
    else
      var quoted := seq(|items|, i requires 0 <= i < |items| => Quoted(items[i]));
      "(" + Join(", ", quoted) + ")"
  }

  /** `f'{v}'` */
  function Show(v: Value): string {
    match v
    case VStr(s) => s
    case VBool(b) => if b then "True" else "False"
    case VInt(i) => IntToString(i)
    case VTuple(items) => TupleRepr(items)
  }
}
