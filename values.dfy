/**
 * JavaScript values as the object utilities of src/core.js see them: the
 * primitives, and objects as string-keyed property tables.
 *
 * An object is a tree here, not a reference: two properties never share one
 * object and no object contains itself. Numbers are integers.
 */
module JsValues {

  /** What kind of object a value is; only plain objects pass OO.isPlainObject. */
  datatype Kind = PlainKind | ArrayKind | FunctionKind | OtherKind

  /** A JavaScript value. The own properties of an object are `props`. */
  datatype Value =
    | Undefined
    | Null
    | Bool(b: bool)
    | Num(n: int)
    | Str(s: string)
    | Obj(kind: Kind, props: map<string, Value>)

  /** `{}`: a fresh empty plain object. */
  const EmptyObject: Value := Obj(PlainKind, map[])

  /** `Object( v ) === v`: the value is an object (arrays and functions included). */
  predicate IsObject(v: Value) {
    v.Obj?
  }

  /** JavaScript truthiness; numbers are integers here, so NaN does not arise. */
  predicate Truthy(v: Value) {
    !(v == Undefined || v == Null || v == Bool(false) || v == Num(0) || v == Str(""))
  }

  /** OO.isPlainObject, for the values this model has. */
  predicate IsPlainObject(v: Value) {
    v.Obj? && v.kind == PlainKind
  }

  /** `v[ k ]` for a value that is not null or undefined: an own property, or undefined. */
  function Get(v: Value, k: string): (r: Value)
    ensures !v.Obj? ==> r == Undefined
    ensures v.Obj? && k !in v.props ==> r == Undefined
  {
    if v.Obj? && k in v.props then v.props[k] else Undefined
  }

  /** `obj[ k ] = x` on an object. */
  function Put(obj: Value, k: string, x: Value): (r: Value)
    requires obj.Obj?
    ensures r.Obj? && r.kind == obj.kind && Get(r, k) == x
    ensures k in r.props && r.props.Keys == obj.props.Keys + {k}
    ensures forall k' :: k' != k ==> Get(r, k') == Get(obj, k')
  {
    Obj(obj.kind, obj.props[k := x])
  }

  /** `delete obj[ k ]` on an object. */
  function Remove(obj: Value, k: string): (r: Value)
    requires obj.Obj?
    ensures r.Obj? && r.kind == obj.kind && k !in r.props
    ensures r.props.Keys == obj.props.Keys - {k}
    ensures forall k' :: k' != k ==> Get(r, k') == Get(obj, k')
  {
    Obj(obj.kind, obj.props - {k})
  }

  /** The `typeof` operator. */
  function Typeof(v: Value): string
  {
    match v
    case Undefined => "undefined"
    case Null => "object"
    case Bool(_) => "boolean"
    case Num(_) => "number"
    case Str(_) => "string"
    case Obj(kind, _) => if kind == FunctionKind then "function" else "object"
  }
}
