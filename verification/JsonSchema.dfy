/**
 * JSON values and the part of JSON Schema (draft-07 validation, section 6) that
 * the schema compiler emits. A schema is a record of optional keywords, as in the
 * emitted objects; an absent keyword constrains nothing.
 */
module JsonSchema {
  import opened Wrappers

  datatype Json =
    | JNull
    | JBool(b: bool)
    | JNum(n: real)
    | JStr(s: string)
    | JArr(items: seq<Json>)
    | JObj(fields: map<string, Json>)

  /** A value a JavaScript literal may hold; only `Plain` ones are JSON. */
  datatype Literal = Plain(json: Json) | Undefined | Exotic(text: string)

  datatype JsonType = TString | TNumber | TInteger | TBoolean | TNull | TObject | TArray

  datatype TypeKeyword = NoType | One(t: JsonType) | Many(ts: seq<JsonType>)

  datatype Schema = Schema(
    typ: TypeKeyword,
    constant: Option<Literal>,
    enumeration: Option<seq<Literal>>,
    minimum: Option<real>,
    maximum: Option<real>,
    properties: PropertyKeyword,
    required: seq<string>,
    additionalProperties: Option<Schema>,
    items: Option<Schema>,
    allOf: ListKeyword,
    anyOf: ListKeyword,
    oneOf: ListKeyword,
    declaresDraft: bool)

  datatype PropertyKeyword = NoProperties | Properties(table: map<string, Schema>)

  datatype ListKeyword = NoList | List(schemas: seq<Schema>)

  /** `{}`: accepts everything. */
  const EMPTY := Schema(NoType, None, None, None, None, NoProperties, [], None, None, NoList, NoList, NoList, false)

  predicate IsInteger(n: real) {
    n.Floor as real == n
  }

  predicate HasType(v: Json, t: JsonType) {
    match t
    case TString => v.JStr?
    case TNumber => v.JNum?
    case TInteger => v.JNum? && IsInteger(v.n)
    case TBoolean => v.JBool?
    case TNull => v.JNull?
    case TObject => v.JObj?
    case TArray => v.JArr?
  }

  predicate TypeAllows(typ: TypeKeyword, v: Json) {
    match typ
    case NoType => true
    case One(t) => HasType(v, t)
    case Many(ts) => exists i | 0 <= i < |ts| :: HasType(v, ts[i])
  }

  /** The keywords that look at the value itself and not at its parts. */
  predicate LeafValid(s: Schema, v: Json) {
    && TypeAllows(s.typ, v)
    && (s.constant.Some? ==> s.constant.value == Plain(v))
    && (s.enumeration.Some? ==> Plain(v) in s.enumeration.value)
    && (s.minimum.Some? && v.JNum? ==> s.minimum.value <= v.n)
    && (s.maximum.Some? && v.JNum? ==> v.n <= s.maximum.value)
    && (v.JObj? ==> forall key | key in s.required :: key in v.fields)
  }

  predicate Valid(s: Schema, v: Json)
    decreases s
  {
    && LeafValid(s, v)
    && (v.JObj? && s.properties.Properties? ==>
          forall key | key in s.properties.table && key in v.fields :: Valid(s.properties.table[key], v.fields[key]))
    && (v.JObj? && s.additionalProperties.Some? ==>
          forall key | key in v.fields && (s.properties.Properties? ==> key !in s.properties.table) ::
            Valid(s.additionalProperties.value, v.fields[key]))
    && (v.JArr? && s.items.Some? ==> forall i | 0 <= i < |v.items| :: Valid(s.items.value, v.items[i]))
    && (s.allOf.List? ==> forall i | 0 <= i < |s.allOf.schemas| :: Valid(s.allOf.schemas[i], v))
    && (s.anyOf.List? ==> exists i | 0 <= i < |s.anyOf.schemas| :: Valid(s.anyOf.schemas[i], v))
    && (s.oneOf.List? ==>
          exists i | 0 <= i < |s.oneOf.schemas| ::
            Valid(s.oneOf.schemas[i], v)
            && forall j | 0 <= j < |s.oneOf.schemas| && j != i :: !Valid(s.oneOf.schemas[j], v))
  }

  /** No number anywhere in the value exceeds `bound`. */
  predicate NumbersAtMost(v: Json, bound: real)
    decreases v
  {
    match v
    case JNum(n) => n <= bound
    case JArr(items) => forall i | 0 <= i < |items| :: NumbersAtMost(items[i], bound)
    case JObj(fields) => forall key | key in fields :: NumbersAtMost(fields[key], bound)
    case _ => true
  }
}
