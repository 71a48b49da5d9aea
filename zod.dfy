/**
 * The part of the zod schema library the validators are built from, as a
 * datatype of schemas and the predicate saying which values a schema
 * accepts (`schema.safeParse(value).success`).
 */
module Zod {
  import opened Wrappers
  import opened Regex

  /** A parsed JSON request body. */
  datatype Value =
    | Str(s: string)
    | Num(x: real)
    | Bool(b: bool)
    | Null
    | Arr(items: seq<Value>)
    | Obj(fields: map<string, Value>)

  /** `.min(n)`, `.max(n)`, `.length(n)`, `.regex(p)`, `.uuid()`, `.url()` on a string schema. */
  datatype StringCheck =
    | MinLength(n: nat)
    | MaxLength(n: nat)
    | Length(n: nat)
    | Matches(pattern: Pattern)
    | Uuid
    | Url

  /** `.int()`, `.min(x)`, `.max(x)` on a number schema (both bounds inclusive). */
  datatype NumberCheck = Int | AtLeast(bound: real) | AtMost(bound: real)

  datatype Field = Field(key: string, schema: Schema)

  datatype Schema =
    | ZString(checks: seq<StringCheck>)
    | ZNumber(numberChecks: seq<NumberCheck>)
    | ZEnum(options: seq<string>)
    | ZArray(element: Schema, minItems: nat)
    | ZOptional(inner: Schema)
    | ZObject(shape: seq<Field>)

  /**
   * zod's recognisers for UUIDs and URLs, which this model does not
   * spell out: every result below holds for any choice of them.
   */
  datatype Recognisers = Recognisers(isUuid: string -> bool, isUrl: string -> bool)

  predicate StringCheckHolds(check: StringCheck, s: string, rec: Recognisers) {
    match check
    case MinLength(n) => |s| >= n
    case MaxLength(n) => |s| <= n
    case Length(n) => |s| == n
    case Matches(p) => FullMatch(p, s)
    case Uuid => rec.isUuid(s)
    case Url => rec.isUrl(s)
  }

  /** `Number.isInteger` on a finite number. */
  predicate IsInteger(x: real) {
    x.Floor as real == x
  }

  predicate NumberCheckHolds(check: NumberCheck, x: real) {
    match check
    case Int => IsInteger(x)
    case AtLeast(b) => x >= b
    case AtMost(b) => x <= b
  }

  /** The value under a key; None (JavaScript's `undefined`) when the key is missing. */
  function Get(fields: map<string, Value>, key: string): (r: Option<Value>)
    ensures r.Some? <==> key in fields
    ensures r.Some? ==> r.value == fields[key]
  {
    if key in fields then Some(fields[key]) else None
  }

  /**
   * Whether the schema accepts the value; None stands for `undefined`. A
   * value of the wrong kind is refused, every check of a string or number
   * schema must hold, `.optional()` admits `undefined` as well (but not
   * `null`), and an object needs every key of its shape to pass while keys
   * outside the shape are ignored.
   */
  predicate Accepts(schema: Schema, v: Option<Value>, rec: Recognisers)
    decreases schema
  {
    match schema
    case ZOptional(inner) => v.None? || Accepts(inner, v, rec)
    case ZString(checks) =>
      v.Some? && v.value.Str?
      && forall i :: 0 <= i < |checks| ==> StringCheckHolds(checks[i], v.value.s, rec)
    case ZNumber(checks) =>
      v.Some? && v.value.Num?
      && forall i :: 0 <= i < |checks| ==> NumberCheckHolds(checks[i], v.value.x)
    case ZEnum(options) => v.Some? && v.value.Str? && v.value.s in options
    case ZArray(element, minItems) =>
      v.Some? && v.value.Arr? && |v.value.items| >= minItems
      && forall i :: 0 <= i < |v.value.items| ==> Accepts(element, Some(v.value.items[i]), rec)
    case ZObject(shape) =>
      v.Some? && v.value.Obj?
      && forall i :: 0 <= i < |shape| ==> Accepts(shape[i].schema, Get(v.value.fields, shape[i].key), rec)
  }
}
