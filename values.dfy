/**
  Request input as the framework hands it to a controller, and the PHP and
  Laravel predicates the handlers apply to single input values.
*/
module Values {

  datatype Option<T> = None | Some(value: T)

  /** One input value of a request: what a JSON body or a form can carry,
      plus an uploaded file (its stored path and its size in kilobytes). */
  datatype Value =
    | Null
    | Bool(b: bool)
    | Int(i: int)
    | Str(text: string)
    | Arr(items: seq<Value>)
    | File(path: string, kilobytes: nat)

  /** The request's input: field name to value (`$request->all()`). */
  type Input = map<string, Value>

  /** `$request->field` / `Arr::get($input, $field)`: an absent field reads as null. */
  function Get(input: Input, field: string): Value
  {
    if field in input then input[field] else Null
  }

  /** The characters PHP's `trim` strips by default. */
  predicate IsTrimmed(c: char)
  {
    c == ' ' || c == '\t' || c == '\n' || c == '\r' || c == '\U{0}' || c == '\U{B}'
  }

  /** `trim($s) === ''`. */
  predicate IsBlank(s: string)
  {
    forall i :: 0 <= i < |s| ==> IsTrimmed(s[i])
  }

  /** PHP truthiness of a value, as tested by `if ($value)`. */
  predicate Truthy(v: Value)
  {
    match v
    case Null => false
    case Bool(b) => b
    case Int(i) => i != 0
    case Str(s) => s != "" && s != "0"
    case Arr(items) => items != []
    case File(_, _) => true
  }

  /** The validator's notion of a supplied value (`validateRequired`):
      not null, not a blank string, not an empty array, not a file without a path. */
  predicate Required(v: Value)
  {
    match v
    case Null => false
    case Bool(_) => true
    case Int(_) => true
    case Str(s) => !IsBlank(s)
    case Arr(items) => items != []
    case File(path, _) => path != ""
  }

  /** Number of decimal digits of a natural number. */
  function Digits(n: nat): (d: nat)
    ensures d >= 1
  {
    if n < 10 then 1 else 1 + Digits(n / 10)
  }

  /** `mb_strlen((string) $i)` for an integer: its digits and a minus sign. */
  function DecimalLength(i: int): nat
  {
    if i < 0 then 1 + Digits(-i) else Digits(i)
  }

  /** The size the `max` rule compares against when the attribute has no
      numeric rule: a count for arrays, kilobytes for files, and otherwise
      the character length of the value converted to a string. */
  function Size(v: Value): nat
  {
    match v
    case Null => 0
    case Bool(b) => if b then 1 else 0
    case Int(i) => DecimalLength(i)
    case Str(s) => |s|
    case Arr(items) => |items|
    case File(_, kilobytes) => kilobytes
  }

  /** `$request->only($fields)`: the input restricted to the named fields that are present. */
  function OnlyFields(input: Input, fields: set<string>): (r: Input)
    ensures r.Keys == input.Keys * fields
    ensures forall f :: f in r ==> r[f] == input[f]
  {
    map f | f in input && f in fields :: input[f]
  }
}
