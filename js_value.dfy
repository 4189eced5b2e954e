/**
 * The values a watched object holds, as JavaScript sees them: primitives,
 * `null`, `undefined`, plain objects (records) and arrays. A record keeps its
 * properties in the order `for...in` and `Object.keys` enumerate them.
 */
module JsValue {
  import opened Decimal

  datatype Value =
    | Undefined
    | Null
    | Bool(b: bool)
    | Num(n: int)
    | Str(s: string)
    | Record(fields: seq<Field>)
    | Array(items: seq<Value>)

  datatype Field = Field(key: string, val: Value)

  /** `isPojo(v) || Array.isArray(v)`: a value whose properties are walked. */
  predicate Structured(v: Value) {
    v.Record? || v.Array?
  }

  /** `typeof v === 'object'`, which also holds of `null`. */
  predicate IsObjectType(v: Value) {
    v.Null? || Structured(v)
  }

  /** JavaScript truthiness. */
  predicate Truthy(v: Value) {
    match v
    case Undefined => false
    case Null => false
    case Bool(b) => b
    case Num(n) => n != 0
    case Str(s) => s != ""
    case Record(_) => true
    case Array(_) => true
  }

  /** Number of enumerable own properties. */
  function Count(v: Value): nat {
    match v
    case Record(fs) => |fs|
    case Array(xs) => |xs|
    case _ => 0
  }

  /** The `i`-th enumerable property key: a record's key, or an array's index spelled in decimal. */
  function KeyAt(v: Value, i: nat): string
    requires i < Count(v)
  {
    if v.Record? then v.fields[i].key else NatToString(i)
  }

  /** The value of the `i`-th enumerable property. */
  function ChildAt(v: Value, i: nat): Value
    requires i < Count(v)
  {
    if v.Record? then v.fields[i].val else v.items[i]
  }

  /** `Object.keys(v)`, in enumeration order. */
  function Keys(v: Value): (ks: seq<string>)
    ensures |ks| == Count(v)
    ensures forall i :: 0 <= i < |ks| ==> ks[i] == KeyAt(v, i)
  {
    seq(Count(v), i requires 0 <= i < Count(v) => KeyAt(v, i))
  }

  /** Property keys of a record are distinct, at every depth (true of any JavaScript object). */
  predicate WellKeyed(v: Value) {
    match v
    case Record(fs) =>
      (forall i, j :: 0 <= i < j < |fs| ==> fs[i].key != fs[j].key)
      && (forall i :: 0 <= i < |fs| ==> WellKeyed(fs[i].val))
    case Array(xs) => forall i :: 0 <= i < |xs| ==> WellKeyed(xs[i])
    case _ => true
  }
}
