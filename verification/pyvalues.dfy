/** The Python values that flow through the serializers' `attrs` and
    `validated_data` dictionaries, with the Python semantics the serializers
    rely on: truthiness, `dict.get`, attribute access and `int(x)`. */
module PyValues {
  import opened Outcomes
  import opened PyInt

  datatype Value =
    | VNone
    | VBool(b: bool)
    | VInt(i: int)
    | VStr(s: string)
    | VDate(year: int, month: int, day: int)
    | VDict(entries: map<string, Value>)
      /** An instance of a database model class (a Candidate, a Position, ...)
          with its attribute values. */
    | VInstance(model: string, fields: map<string, Value>)

  /** A serializer's validated attributes, keyed by field name. */
  type Attrs = map<string, Value>

  /** `bool(v)`. Model instances define no `__bool__` or `__len__`, so they
      are always true; so is a date. */
  predicate Truthy(v: Value) {
    match v
    case VNone => false
    case VBool(b) => b
    case VInt(i) => i != 0
    case VStr(s) => s != ""
    case VDate(_, _, _) => true
    case VDict(m) => m != map[]
    case VInstance(_, _) => true
  }

  /** `attrs.get(key)`: the value under `key`, or `None` when it is absent. */
  function Get(attrs: Attrs, key: string): Value {
    if key in attrs then attrs[key] else VNone
  }

  /** `v.name` on a model instance; `None` where Python raises
      `AttributeError`. */
  function GetAttr(v: Value, name: string): (r: Option<Value>)
    ensures r.Some? <==> v.VInstance? && name in v.fields
    ensures r.Some? ==> r.value == v.fields[name]
  {
    if v.VInstance? && name in v.fields then Some(v.fields[name]) else None
  }

  /** The outcome of `int(v)`. */
  datatype Conversion = Converted(n: int) | Raised(exception: PyException)

  /** `int(v)`: an int is itself, a bool is 0 or 1, a string is parsed,
      anything else raises `TypeError`. */
  function IntOf(v: Value): (r: Conversion)
    ensures r.Raised? ==> r.exception == TypeError || r.exception == ValueError
    ensures v.VInt? ==> r == Converted(v.i)
    ensures v.VStr? ==> (r.Converted? <==> ParseIntLiteral(v.s).Some?)
    ensures r.Converted? ==> v.VInt? || v.VBool? || v.VStr?
  {
    match v
    case VInt(i) => Converted(i)
    case VBool(b) => Converted(if b then 1 else 0)
    case VStr(s) =>
      (match ParseIntLiteral(s)
       case Some(n) => Converted(n)
       case None => Raised(ValueError))
    case _ => Raised(TypeError)
  }

  /** `int(str(n)) == n`: an integer written as a string converts back to
      it, unless it has more digits than `int()` accepts. */
  lemma IntOfDecimalString(n: int)
    ensures IntOf(VStr(IntToDecimal(n)))
            == if DigitCount(n) <= MaxStrDigits then Converted(n) else Raised(ValueError)
  {
    ParseIntOfDecimal(n);
  }

  /** A mutable Python `dict` from field names to values. */
  class PyDict {
    var items: map<string, Value>

    constructor (init: map<string, Value>)
      ensures items == init
    {
      items := init;
    }

    /** `d.get(key, default)` */
    function GetOr(key: string, default: Value): Value
      reads this
    {
      if key in items then items[key] else default
    }

    /** `d.pop(key)`; the key must be present (Python raises `KeyError`
        otherwise). */
    method Pop(key: string) returns (v: Value)
      requires key in items
      modifies this
      ensures v == old(items)[key]
      ensures items == old(items) - {key}
    {
      v := items[key];
      items := items - {key};
    }

    /** `d[key] = v` */
    method SetItem(key: string, v: Value)
      modifies this
      ensures items == old(items)[key := v]
    {
      items := items[key := v];
    }
  }
}
