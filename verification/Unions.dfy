/** `unionOf`: combining the converted members of a union into the schema a reader would write. */
module Unions {
  import opened Wrappers
  import opened JsonValues
  import opened Schemas

  /** Some member accepts the instance: what a union means. */
  ghost predicate SomeAccepts(components: Components, via: set<string>, parts: seq<Schema>, j: Json) {
    exists p | p in parts :: Accepts(components, via, p, j)
  }

  function Filter(parts: seq<Schema>, keep: Schema -> bool): (r: seq<Schema>)
    ensures forall p :: p in r <==> p in parts && keep(p)
  {
    if parts == [] then []
    else (if keep(parts[0]) then [parts[0]] else []) + Filter(parts[1..], keep)
  }

  // ----- collapseBooleans

  predicate IsBooleanConst(s: Schema) {
    s == Const(LBool(true)) || s == Const(LBool(false))
  }

  function CollapseBooleans(parts: seq<Schema>): seq<Schema> {
    if Const(LBool(true)) !in parts || Const(LBool(false)) !in parts then parts
    else [TypeIs(BooleanKind)] + Filter(parts, p => !IsBooleanConst(p))
  }

  lemma CollapseMeans(components: Components, via: set<string>, parts: seq<Schema>, j: Json)
    ensures SomeAccepts(components, via, CollapseBooleans(parts), j) <==> SomeAccepts(components, via, parts, j)
  {
    var out := CollapseBooleans(parts);
    if out != parts {
      var t, f := Const(LBool(true)), Const(LBool(false));
      var kept := Filter(parts, p => !IsBooleanConst(p));
      assert forall p :: p in out <==> p == TypeIs(BooleanKind) || p in kept;
      assert forall p :: p in parts <==> p == t || p == f || p in kept;
      assert Accepts(components, via, TypeIs(BooleanKind), j)
        <==> Accepts(components, via, t, j) || Accepts(components, via, f, j);
    }
  }

  // ----- dedupe

  function Dedupe(parts: seq<Schema>): (r: seq<Schema>)
    ensures forall p :: p in r <==> p in parts
    ensures parts != [] ==> r != []
  {
    if parts == [] then []
    else
      var earlier, last := Dedupe(parts[..|parts| - 1]), parts[|parts| - 1];
      assert parts == parts[..|parts| - 1] + [last];
      if last in earlier then earlier else earlier + [last]
  }

  lemma {:induction false} DedupeOnce(parts: seq<Schema>)
    ensures forall i, k :: 0 <= i < k < |Dedupe(parts)| ==> Dedupe(parts)[i] != Dedupe(parts)[k]
  {
    if parts != [] {
      DedupeOnce(parts[..|parts| - 1]);
    }
  }

  /** The loop of `dedupe`: each distinct part once, in the order of first appearance. */
  method DedupeParts(parts: seq<Schema>) returns (out: seq<Schema>)
    ensures out == Dedupe(parts)
  {
    out := [];
    var seen: set<Schema> := {};
    for i := 0 to |parts|
      invariant out == Dedupe(parts[..i])
      invariant forall p :: p in seen <==> p in parts[..i]
    {
      assert parts[..i + 1][..i] == parts[..i];
      if parts[i] !in seen {
        seen := seen + {parts[i]};
        out := out + [parts[i]];
      }
    }
    assert parts[..|parts|] == parts;
  }

  // ----- asEnum

  predicate SameTypeOf(a: Literal, b: Literal) {
    (a.LNull? && b.LNull?) || (a.LBool? && b.LBool?) || (a.LNum? && b.LNum?) || (a.LStr? && b.LStr?)
  }

  predicate Enumerable(parts: seq<Schema>) {
    && |parts| >= 2
    && (forall i | 0 <= i < |parts| :: parts[i].Const? && !parts[i].literal.LNull?)
    && (forall i | 0 <= i < |parts| :: parts[i].Const? && SameTypeOf(parts[0].literal, parts[i].literal))
  }

  function Literals(parts: seq<Schema>): (r: seq<Literal>)
    requires forall i | 0 <= i < |parts| :: parts[i].Const?
  {
    seq(|parts|, i requires 0 <= i < |parts| => parts[i].literal)
  }

  /** The loop of `asEnum`: the literals, if the parts are two or more constants of one type. */
  method AsEnum(parts: seq<Schema>) returns (r: Option<seq<Literal>>)
    ensures r == if Enumerable(parts) then Some(Literals(parts)) else None
  {
    if |parts| < 2 {
      return None;
    }
    var values: seq<Literal> := [];
    for i := 0 to |parts|
      invariant |values| == i
      invariant forall k | 0 <= k < i :: parts[k] == Const(values[k]) && !values[k].LNull?
    {
      if !parts[i].Const? || parts[i].literal.LNull? {
        return None;
      }
      values := values + [parts[i].literal];
    }
    if forall k | 0 <= k < |values| :: SameTypeOf(values[0], values[k]) {
      assert values == Literals(parts);
      return Some(values);
    }
    return None;
  }

  // ----- unionOf

  function Combine(rest: seq<Schema>, nullable: bool): Schema {
    if rest == [] then TypeIs(NullKind)
    else if Enumerable(rest) then Enum(if nullable then Literals(rest) + [LNull] else Literals(rest))
    else if |rest| == 1 then
      var only := rest[0];
      if !nullable then only
      else if only.Enum? then Enum(only.values + [LNull])
      else if only.TypeIs? then TypeOrNull(only.kind)
      else AnyOf([only, TypeIs(NullKind)])
    else AnyOf(if nullable then rest + [TypeIs(NullKind)] else rest)
  }

  function UnionOf(input: seq<Schema>): Schema {
    var parts := Dedupe(CollapseBooleans(input));
    Combine(Filter(parts, p => p != TypeIs(NullKind)), TypeIs(NullKind) in parts)
  }

  method BuildUnion(input: seq<Schema>) returns (r: Schema)
    ensures r == UnionOf(input)
  {
    var parts := DedupeParts(CollapseBooleans(input));
    var nullable := TypeIs(NullKind) in parts;
    var rest := Filter(parts, p => p != TypeIs(NullKind));
    if rest == [] {
      return TypeIs(NullKind);
    }
    var enumerated := AsEnum(rest);
    if enumerated.Some? {
      return Enum(if nullable then enumerated.value + [LNull] else enumerated.value);
    }
    if |rest| == 1 {
      var only := rest[0];
      if !nullable { return only; }
      if only.Enum? { return Enum(only.values + [LNull]); }
      if only.TypeIs? { return TypeOrNull(only.kind); }
      return AnyOf([only, TypeIs(NullKind)]);
    }
    return AnyOf(if nullable then rest + [TypeIs(NullKind)] else rest);
  }

  lemma EnumMeans(components: Components, via: set<string>, rest: seq<Schema>, j: Json)
    requires Enumerable(rest)
    ensures Accepts(components, via, Enum(Literals(rest)), j) <==> SomeAccepts(components, via, rest, j)
  {
    var values := Literals(rest);
    assert forall i | 0 <= i < |rest| :: rest[i] in rest && values[i] in values && rest[i] == Const(values[i]);
  }

  lemma EnumOrNullMeans(components: Components, via: set<string>, values: seq<Literal>, j: Json)
    ensures Accepts(components, via, Enum(values + [LNull]), j)
       <==> j == JNull || Accepts(components, via, Enum(values), j)
  {
    assert forall l :: l in values + [LNull] <==> l in values || l == LNull;
    assert Denotes(LNull, j) <==> j == JNull;
  }

  lemma SingleMeans(components: Components, via: set<string>, only: Schema, nullable: bool, j: Json)
    requires !Enumerable([only])
    ensures Accepts(components, via, Combine([only], nullable), j)
       <==> (nullable && j == JNull) || Accepts(components, via, only, j)
  {
    if nullable {
      if only.Enum? {
        EnumOrNullMeans(components, via, only.values, j);
      } else if !only.TypeIs? {
        AnyOfMeans(components, via, [only], j);
        assert [only, TypeIs(NullKind)] == [only] + [TypeIs(NullKind)];
      }
    }
  }

  lemma CombineMeans(components: Components, via: set<string>, rest: seq<Schema>, nullable: bool, j: Json)
    requires rest != [] || nullable
    ensures Accepts(components, via, Combine(rest, nullable), j)
       <==> (nullable && j == JNull) || SomeAccepts(components, via, rest, j)
  {
    if rest == [] {
    } else if Enumerable(rest) {
      EnumMeans(components, via, rest, j);
      EnumOrNullMeans(components, via, Literals(rest), j);
    } else if |rest| == 1 {
      assert rest == [rest[0]];
      SingleMeans(components, via, rest[0], nullable, j);
    } else {
      AnyOfMeans(components, via, rest, j);
    }
  }

  lemma AnyOfMeans(components: Components, via: set<string>, rest: seq<Schema>, j: Json)
    ensures Accepts(components, via, AnyOf(rest), j) <==> SomeAccepts(components, via, rest, j)
    ensures Accepts(components, via, AnyOf(rest + [TypeIs(NullKind)]), j)
       <==> j == JNull || SomeAccepts(components, via, rest, j)
  {
    var all := rest + [TypeIs(NullKind)];
    assert forall p :: p in all <==> p in rest || p == TypeIs(NullKind);
    assert Accepts(components, via, TypeIs(NullKind), j) <==> j == JNull;
  }

  lemma SplitNull(components: Components, via: set<string>, parts: seq<Schema>, j: Json)
    ensures SomeAccepts(components, via, parts, j)
       <==> (TypeIs(NullKind) in parts && j == JNull)
            || SomeAccepts(components, via, Filter(parts, p => p != TypeIs(NullKind)), j)
  {
    assert Accepts(components, via, TypeIs(NullKind), j) <==> j == JNull;
  }

  /** The simplified schema of a non-empty union accepts exactly what some member accepts. */
  lemma UnionOfMeans(components: Components, via: set<string>, input: seq<Schema>, j: Json)
    requires input != []
    ensures Accepts(components, via, UnionOf(input), j) <==> SomeAccepts(components, via, input, j)
  {
    hide Accepts, Combine, Filter;
    var collapsed := CollapseBooleans(input);
    var parts := Dedupe(collapsed);
    var rest := Filter(parts, p => p != TypeIs(NullKind));
    CollapseMeans(components, via, input, j);
    assert SomeAccepts(components, via, parts, j) <==> SomeAccepts(components, via, collapsed, j);
    SplitNull(components, via, parts, j);
    assert rest != [] || TypeIs(NullKind) in parts by {
      assert parts[0] in parts;
    }
    CombineMeans(components, via, rest, TypeIs(NullKind) in parts, j);
  }

  /** Simplification neither drops a reference nor invents one. */
  lemma {:induction false} UnionOfRefers(input: seq<Schema>, n: string)
    ensures RefersTo(UnionOf(input), n) <==> exists p | p in input :: RefersTo(p, n)
  {
    var parts := Dedupe(CollapseBooleans(input));
    var rest := Filter(parts, p => p != TypeIs(NullKind));
    assert forall p | RefersTo(p, n) :: p in input <==> p in rest;
    if |rest| == 1 {
      assert forall p :: p in rest <==> p == rest[0];
      assert forall p :: p in [rest[0], TypeIs(NullKind)] <==> p == rest[0] || p == TypeIs(NullKind);
    } else if Enumerable(rest) {
      assert forall p | p in rest :: !RefersTo(p, n);
    } else {
      assert forall p :: p in rest + [TypeIs(NullKind)] <==> p in rest || p == TypeIs(NullKind);
    }
  }

  // ----- the shapes it is written for

  function Constants(ls: seq<Literal>): (r: seq<Schema>)
    ensures |r| == |ls| && forall i | 0 <= i < |ls| :: r[i] == Const(ls[i])
  {
    seq(|ls|, i requires 0 <= i < |ls| => Const(ls[i]))
  }

  lemma {:induction false} DedupeDistinct(parts: seq<Schema>)
    requires forall i, k | 0 <= i < k < |parts| :: parts[i] != parts[k]
    ensures Dedupe(parts) == parts
  {
    if parts != [] {
      DedupeDistinct(parts[..|parts| - 1]);
      assert parts[|parts| - 1] !in parts[..|parts| - 1];
    }
  }

  lemma {:induction false} FilterAll(parts: seq<Schema>, tail: seq<Schema>, keep: Schema -> bool)
    requires forall p | p in parts :: keep(p)
    requires forall p | p in tail :: !keep(p)
    ensures Filter(parts + tail, keep) == parts
  {
    if parts != [] {
      assert (parts + tail)[1..] == parts[1..] + tail;
      FilterAll(parts[1..], tail, keep);
    } else if tail != [] {
      assert (parts + tail)[1..] == [] + tail[1..];
      FilterAll([], tail[1..], keep);
    }
  }

  /** Distinct parts, with or without a null after them, are combined as they stand. */
  lemma DistinctUnion(rest: seq<Schema>, nullable: bool)
    requires forall i, k | 0 <= i < k < |rest| :: rest[i] != rest[k]
    requires forall p | p in rest :: p != TypeIs(NullKind) && !IsBooleanConst(p)
    ensures UnionOf(rest + if nullable then [TypeIs(NullKind)] else []) == Combine(rest, nullable)
  {
    hide Combine, Dedupe, Filter;
    var tail := if nullable then [TypeIs(NullKind)] else [];
    var input := rest + tail;
    assert CollapseBooleans(input) == input;
    forall i, k | 0 <= i < k < |input| ensures input[i] != input[k] {
      assert input[i] == rest[i] && rest[i] in rest;
    }
    DedupeDistinct(input);
    FilterAll(rest, tail, p => p != TypeIs(NullKind));
    assert nullable ==> input[|rest|] == TypeIs(NullKind);
  }

  /** A union of string literals is an enum in the order written, a nullable one that enum and null. */
  lemma StringUnionIsEnum(ls: seq<Literal>, nullable: bool)
    requires |ls| >= 2
    requires forall i | 0 <= i < |ls| :: ls[i].LStr?
    requires forall i, k | 0 <= i < k < |ls| :: ls[i] != ls[k]
    ensures UnionOf(Constants(ls) + if nullable then [TypeIs(NullKind)] else [])
         == Enum(ls + if nullable then [LNull] else [])
  {
    hide UnionOf;
    DistinctUnion(Constants(ls), nullable);
    assert Literals(Constants(ls)) == ls;
    assert ls + [] == ls;
  }

  /** A primitive or null is one `type` list. */
  lemma NullableIsTypeList(kind: Kind)
    requires kind != NullKind
    ensures UnionOf([TypeIs(kind), TypeIs(NullKind)]) == TypeOrNull(kind)
  {
    hide UnionOf;
    DistinctUnion([TypeIs(kind)], true);
    assert [TypeIs(kind), TypeIs(NullKind)] == [TypeIs(kind)] + [TypeIs(NullKind)];
  }
}
