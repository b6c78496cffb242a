/** The JavaScript value space as far as the core observes it: the values a
    JSON parse can produce plus `undefined`, with `typeof`, truthiness,
    property reads (`v.k` and `v?.k`), `||`, object spread and `Number()`.
    The parts of the runtime that are not modelled (JSON.parse, the
    string-to-number grammar, object-to-primitive conversion) are carried by
    a `Host` value of functions, so every statement about the pipeline holds
    whatever those functions do. */
module JsValues {

  import opened Wrappers
  import opened Text

  /** An IEEE-754 double seen from outside: not-a-number, a finite value
      (kept exact, see README), or an infinity. */
  datatype JsNumber = NaN | Finite(value: real) | Infinity(negative: bool)

  datatype JsValue =
    | Undefined
    | Null
    | Bool(boolean: bool)
    | Num(number: JsNumber)
    | Str(str: string)
    | Arr(elems: seq<JsValue>)
    | Obj(fields: map<string, JsValue>)

  function Number(r: real): JsValue
  {
    Num(Finite(r))
  }

  /** The `typeof` operator. */
  function TypeOf(v: JsValue): string
  {
    match v
    case Undefined => "undefined"
    case Null => "object"
    case Bool(_) => "boolean"
    case Num(_) => "number"
    case Str(_) => "string"
    case Arr(_) => "object"
    case Obj(_) => "object"
  }

  /** ToBoolean: `undefined`, `null`, `false`, `0`, `NaN` and `""` are falsy. */
  predicate Truthy(v: JsValue)
  {
    match v
    case Undefined => false
    case Null => false
    case Bool(b) => b
    case Num(n) => !(n.NaN? || n == Finite(0.0))
    case Str(s) => |s| > 0
    case Arr(_) => true
    case Obj(_) => true
  }

  predicate IsNullish(v: JsValue)
  {
    v.Undefined? || v.Null?
  }

  /** Reads property `key` of a non-nullish value (`v.key`, `v[key]`).
      Objects answer from their own fields; arrays and strings answer
      `length` and their index keys; every other read is `undefined`
      (none of the keys the core reads is inherited from a prototype). */
  function Get(v: JsValue, key: string): (r: JsValue)
    requires !IsNullish(v)
    ensures v.Obj? && key in v.fields ==> r == v.fields[key]
    ensures !v.Obj? && !v.Arr? && !v.Str? ==> r == Undefined
  {
    match v
    case Obj(m) => if key in m then m[key] else Undefined
    case Arr(e) =>
      if key == "length" then Number(|e| as real)
      else (match ParseIndex(key)
            case Some(i) => if i < |e| then e[i] else Undefined
            case None => Undefined)
    case Str(s) =>
      if key == "length" then Number(|s| as real)
      else (match ParseIndex(key)
            case Some(i) => if i < |s| then Str([s[i]]) else Undefined
            case None => Undefined)
    case _ => Undefined
  }

  /** Optional chaining `v?.key`. */
  function OptGet(v: JsValue, key: string): JsValue
  {
    if IsNullish(v) then Undefined else Get(v, key)
  }

  /** The field of an object's map, `undefined` when absent. */
  function Field(m: map<string, JsValue>, key: string): JsValue
  {
    if key in m then m[key] else Undefined
  }

  /** The logical-or operator `a || b`. */
  function Or(a: JsValue, b: JsValue): JsValue
  {
    if Truthy(a) then a else b
  }

  /** The own enumerable properties `{...e}` copies from an array. */
  function SpreadElements(e: seq<JsValue>): (r: map<string, JsValue>)
    ensures forall i :: 0 <= i < |e| ==> Decimal(i) in r && r[Decimal(i)] == e[i]
  {
    if |e| == 0 then map[]
    else
      var r := SpreadElements(e[..|e| - 1])[Decimal(|e| - 1) := e[|e| - 1]];
      assert forall i :: 0 <= i < |e| - 1 ==> Decimal(i) != Decimal(|e| - 1) by {
        forall i | 0 <= i < |e| - 1 {
          DecimalInjective(i, |e| - 1);
        }
      }
      r
  }

  /** The own enumerable properties `{...s}` copies from a string. */
  function SpreadChars(s: string): (r: map<string, JsValue>)
    ensures forall i :: 0 <= i < |s| ==> Decimal(i) in r && r[Decimal(i)] == Str([s[i]])
  {
    if |s| == 0 then map[]
    else
      var r := SpreadChars(s[..|s| - 1])[Decimal(|s| - 1) := Str([s[|s| - 1]])];
      assert forall i :: 0 <= i < |s| - 1 ==> Decimal(i) != Decimal(|s| - 1) by {
        forall i | 0 <= i < |s| - 1 {
          DecimalInjective(i, |s| - 1);
        }
      }
      r
  }

  /** Object spread `{...v}`: the own enumerable properties of `v`;
      primitives other than strings contribute nothing. */
  function Spread(v: JsValue): map<string, JsValue>
  {
    match v
    case Obj(m) => m
    case Arr(e) => SpreadElements(e)
    case Str(s) => SpreadChars(s)
    case _ => map[]
  }

  /** Outcome of `JSON.parse`: a value, or the SyntaxError it throws. */
  datatype ParseResult = Parsed(value: JsValue) | SyntaxError(message: string)

  /** The runtime functions the model does not interpret: `JSON.parse`,
      StringToNumber, and ToNumber of an object or array (which runs
      ToPrimitive and may throw: `None`). */
  datatype Host = Host(
    parse: string -> ParseResult,
    stringToNumber: string -> JsNumber,
    objectToNumber: JsValue -> Option<JsNumber>)

  /** `Number(v)`; `None` when the conversion throws. Numbers are returned
      unchanged, booleans, `null` and `undefined` convert as the language
      fixes them, strings and objects go to the host. */
  function ToNumber(v: JsValue, host: Host): (r: Option<JsNumber>)
    ensures v.Num? ==> r == Some(v.number)
    ensures !v.Obj? && !v.Arr? ==> r.Some?
  {
    match v
    case Undefined => Some(NaN)
    case Null => Some(Finite(0.0))
    case Bool(b) => Some(Finite(if b then 1.0 else 0.0))
    case Num(n) => Some(n)
    case Str(s) => Some(host.stringToNumber(s))
    case Arr(_) => host.objectToNumber(v)
    case Obj(_) => host.objectToNumber(v)
  }

  /** A key that is neither `length` nor an index is read from an object's
      own fields and is `undefined` on every other value. */
  lemma GetNamedKey(v: JsValue, key: string)
    requires !IsNullish(v)
    requires |key| > 0 && !IsDigit(key[0]) && key != "length"
    ensures Get(v, key) == if v.Obj? then Field(v.fields, key) else Undefined
  {
    assert ParseIndex(key) == None;
  }

  /** An object's properties are its own fields. */
  lemma ObjectFields(v: JsValue)
    requires v.Obj?
    ensures forall key :: Get(v, key) == Field(v.fields, key)
  {
  }

  /** Reading any index key of an array gives the element at that index. */
  lemma GetIndex(e: seq<JsValue>, i: nat)
    requires i < |e|
    ensures Get(Arr(e), Decimal(i)) == e[i]
  {
    ParseIndexOfDecimal(i);
    assert Decimal(i) != "length" by {
      assert IsDigit(Decimal(i)[0]);
    }
  }
}
