/** The JSON Schemas that the response converter emits, and the instances they accept. */
module Schemas {
  import opened Wrappers
  import opened JsonValues

  /** The argument of `const` and the members of `enum`. */
  datatype Literal = LNull | LBool(b: bool) | LNum(n: real) | LStr(s: string)

  datatype Kind = StringKind | NumberKind | BooleanKind | NullKind

  /** One constructor for each shape of object that the converter builds. */
  datatype Schema =
    | Ref(name: string)                 // {$ref: '#/components/schemas/name'}
    | Const(literal: Literal)           // {const: literal}
    | TypeIs(kind: Kind)                // {type: kind}
    | TypeOrNull(kind: Kind)            // {type: [kind, 'null']}
    | Anything                          // {}
    | Nothing                           // {not: {}}
    | ArrayOf(items: Schema)            // {type: 'array', items}
    | Enum(values: seq<Literal>)        // {enum: values}
    | AnyOf(alternatives: seq<Schema>)  // {anyOf: alternatives}
    | ObjectOf(properties: seq<Property>, required: seq<string>, additional: Option<Schema>)

  datatype Property = Property(name: string, schema: Schema)

  type Components = map<string, Schema>

  predicate Denotes(l: Literal, j: Json) {
    match l
    case LNull => j == JNull
    case LBool(b) => j == JBool(b)
    case LNum(n) => j == JNum(n)
    case LStr(s) => j == JStr(s)
  }

  predicate OfKind(k: Kind, j: Json) {
    match k
    case StringKind => j.JStr?
    case NumberKind => j.JNum?
    case BooleanKind => j.JBool?
    case NullKind => j.JNull?
  }

  /**
   * Validation of an instance. `via` holds the components already entered for this very instance:
   * a chain of references that comes back to one of them never reaches a verdict, so it accepts
   * nothing. Members and elements are new instances and start with an empty `via`.
   */
  ghost predicate Accepts(components: Components, via: set<string>, s: Schema, j: Json)
    decreases j, components.Keys - via, s
  {
    match s
    case Ref(n) => n in components && n !in via && Accepts(components, via + {n}, components[n], j)
    case Const(l) => Denotes(l, j)
    case TypeIs(k) => OfKind(k, j)
    case TypeOrNull(k) => OfKind(k, j) || j == JNull
    case Anything => true
    case Nothing => false
    case ArrayOf(items) => j.JArr? && forall x | x in j.items :: Accepts(components, {}, items, x)
    case Enum(values) => exists l | l in values :: Denotes(l, j)
    case AnyOf(alternatives) => exists a | a in alternatives :: Accepts(components, via, a, j)
    case ObjectOf(properties, required, additional) =>
      && j.JObj?
      && (forall k | k in required :: k in j.members)
      && (forall p | p in properties && p.name in j.members :: Accepts(components, {}, p.schema, j.members[p.name]))
      && (additional.Some? ==>
            forall k | k in j.members && !Declares(properties, k) ::
              Accepts(components, {}, additional.value, j.members[k]))
  }

  ghost predicate Declares(properties: seq<Property>, name: string) {
    exists p :: p in properties && p.name == name
  }

  /** The schema mentions the component `n` in some `$ref`. */
  ghost predicate RefersTo(s: Schema, n: string) {
    match s
    case Ref(m) => m == n
    case ArrayOf(items) => RefersTo(items, n)
    case AnyOf(alternatives) => exists a | a in alternatives :: RefersTo(a, n)
    case ObjectOf(properties, _, additional) =>
      (exists p | p in properties :: RefersTo(p.schema, n)) || (additional.Some? && RefersTo(additional.value, n))
    case _ => false
  }

  /** Every `$ref` in the schema has a component. */
  ghost predicate Resolves(names: set<string>, s: Schema) {
    forall n | RefersTo(s, n) :: n in names
  }
}
