// Values that the emitted validator inspects, and the schemas it interprets
// (crates/marginalis-contract/src/typescript.rs).
module JsonValues {
  import opened Options

  // A JSON value, or what reading a missing property of an object yields by inheritance from
  // Object.prototype: a function, or the prototype object itself for "__proto__".
  datatype Json =
    | Null
    | Bool(b: bool)
    | Number(n: real)
    | Str(s: string)
    | Arr(items: seq<Json>)
    | Obj(fields: seq<Field>)
    | Inherited(member: string)

  datatype Field = Field(name: string, value: Json)

  const PROTOTYPE_MEMBERS: seq<string> := [
    "constructor", "__defineGetter__", "__defineSetter__", "hasOwnProperty", "__lookupGetter__", "__lookupSetter__",
    "isPrototypeOf", "propertyIsEnumerable", "toString", "valueOf", "__proto__", "toLocaleString"]

  // typeof value === "object", apart from null and arrays.
  predicate IsRecord(v: Json) {
    v.Obj? || v == Inherited("__proto__")
  }

  function OwnField(fields: seq<Field>, name: string): Option<Json> {
    if fields == [] then None
    else if fields[0].name == name then Some(fields[0].value)
    else OwnField(fields[1..], name)
  }

  // record[name]; None stands for undefined.
  function Lookup(v: Json, name: string): Option<Json>
    requires IsRecord(v)
  {
    if v.Obj? && OwnField(v.fields, name).Some? then OwnField(v.fields, name)
    else if v.Inherited? && name == "__proto__" then Some(Null)
    else if name in PROTOTYPE_MEMBERS then Some(Inherited(name))
    else None
  }

  function OwnNames(v: Json): seq<string>
    requires IsRecord(v)
  {
    if v.Obj? then seq(|v.fields|, i requires 0 <= i < |v.fields| => v.fields[i].name) else []
  }

  // JSON.stringify(value) === JSON.stringify(constant) for a constant taken from a schema.
  predicate SameText(value: Json, constant: Json) {
    value == constant || (value == Inherited("__proto__") && constant == Obj([]))
  }

  // ---------------------------------------------------------------- schemas

  datatype TypeKeyword = NoType | One(name: string) | Many(names: seq<string>)

  datatype Limits = Limits(
    minLength: Option<real>, maxLength: Option<real>, pattern: Option<string -> bool>,
    minimum: Option<real>, maximum: Option<real>,
    minItems: Option<real>, maxItems: Option<real>)

  // `Other` is a schema that is neither a boolean nor an object. A field of `Keywords` is present
  // when the keyword is present with a value of the kind that both readers look for.
  datatype Schema =
    | Always
    | Never
    | Other
    | Keywords(
        ref: Option<string>,
        constant: Option<Json>,
        enumeration: Option<seq<Json>>,
        allOf: SchemaList,
        oneOf: SchemaList,
        anyOf: SchemaList,
        kind: TypeKeyword,
        properties: PropertyTable,
        required: seq<string>,
        closed: bool,
        items: Option<Schema>,
        limits: Limits)

  // No keyword at all.
  const NO_LIMITS := Limits(None, None, None, None, None, None, None)

  const BLANK := Keywords(None, None, None, NoList, NoList, NoList, NoType, NoTable, [], false, None, NO_LIMITS)

  datatype SchemaList = NoList | List(members: seq<Schema>)

  datatype PropertyTable = NoTable | Table(entries: seq<Property>)

  datatype Property = Property(name: string, schema: Schema)

  type Definitions = map<string, Schema>

  // The part of a reference after the last slash.
  function LastSegment(reference: string): string {
    if reference == "" then ""
    else if '/' in reference[1..] then LastSegment(reference[1..])
    else if reference[0] == '/' then reference[1..]
    else reference
  }

  function TypeNames(kind: TypeKeyword): seq<string> {
    match kind
    case NoType => []
    case One(name) => [name]
    case Many(names) => names
  }

  // `oneOf` is read as `anyOf`, and takes precedence over it.
  function Alternatives(s: Schema): SchemaList
    requires s.Keywords?
  {
    if s.oneOf.List? then s.oneOf else s.anyOf
  }
}
