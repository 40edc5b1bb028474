/** Which schema `unionOf` writes, for any members. */
module UnionShapes {
  import opened Wrappers
  import opened JsonValues
  import opened Schemas
  import opened Unions

  // ----- what is left of the members

  predicate BothBooleans(input: seq<Schema>) {
    Const(LBool(true)) in input && Const(LBool(false)) in input
  }

  /** Null is kept apart, and both boolean constants together are the boolean type. */
  predicate Kept(input: seq<Schema>, p: Schema) {
    && p != TypeIs(NullKind)
    && if BothBooleans(input) && p.Const? && p.literal.LBool? then false
       else p in input || (BothBooleans(input) && p == TypeIs(BooleanKind))
  }

  /** Where a member first stands, or the length. */
  function First(input: seq<Schema>, p: Schema): (r: nat)
    ensures r <= |input| && (r < |input| <==> p in input) && (r < |input| ==> input[r] == p)
    ensures forall i | 0 <= i < r :: input[i] != p
  {
    if input == [] || input[0] == p then 0 else 1 + First(input[1..], p)
  }

  /** The boolean type that stands for two constants comes first, all others in the order written. */
  function Place(input: seq<Schema>, p: Schema): int {
    if BothBooleans(input) && p == TypeIs(BooleanKind) then -1 else First(input, p)
  }

  /** What is left, each once and in order: there is one such list. */
  ghost predicate Lists(input: seq<Schema>, rest: seq<Schema>) {
    && (forall p :: p in rest <==> Kept(input, p))
    && forall i, k | 0 <= i < k < |rest| :: Place(input, rest[i]) < Place(input, rest[k])
  }

  lemma {:induction false} OneList(input: seq<Schema>, a: seq<Schema>, b: seq<Schema>)
    requires Lists(input, a) && Lists(input, b)
    ensures a == b
  {
    InOrderOnce(input, a, b);
  }

  lemma {:induction false} InOrderOnce(input: seq<Schema>, a: seq<Schema>, b: seq<Schema>)
    requires forall p :: p in a <==> p in b
    requires forall i, k | 0 <= i < k < |a| :: Place(input, a[i]) < Place(input, a[k])
    requires forall i, k | 0 <= i < k < |b| :: Place(input, b[i]) < Place(input, b[k])
    ensures a == b
  {
    hide Place;
    if a == [] {
      FirstIn(b);
    } else {
      assert a[0] in b && b[0] in a;
      assert a[0] == b[0];
      assert forall p :: p in a <==> p == a[0] || p in a[1..];
      assert forall p :: p in b <==> p == b[0] || p in b[1..];
      InOrderOnce(input, a[1..], b[1..]);
    }
  }

  lemma FirstIn(ps: seq<Schema>)
    ensures ps != [] ==> ps[0] in ps
  {
  }

  ghost predicate Ascends(input: seq<Schema>, ps: seq<Schema>) {
    forall i, k | 0 <= i < k < |ps| :: First(input, ps[i]) < First(input, ps[k])
  }

  lemma FirstIs(input: seq<Schema>, p: Schema, n: nat)
    requires n < |input| && input[n] == p && forall i | 0 <= i < n :: input[i] != p
    ensures First(input, p) == n
  {
  }

  lemma {:induction false} DedupeAscends(parts: seq<Schema>)
    ensures Ascends(parts, Dedupe(parts))
  {
    if parts != [] {
      var n := |parts| - 1;
      var earlier := Dedupe(parts[..n]);
      DedupeAscends(parts[..n]);
      assert forall p :: p in earlier <==> p in parts[..n];
      assert Dedupe(parts) == if parts[n] in earlier then earlier else earlier + [parts[n]];
      hide Dedupe;
      forall p | p in earlier ensures First(parts, p) == First(parts[..n], p) < n {
        FirstInPrefix(parts, n, p);
      }
      hide First;
      assert forall i | 0 <= i < |earlier| :: earlier[i] in earlier;
      assert Ascends(parts, earlier);
      if parts[n] !in earlier {
        FirstIs(parts, parts[n], n);
        AscendsMore(parts, earlier, parts[n]);
      }
    }
  }

  lemma FirstInPrefix(parts: seq<Schema>, n: nat, p: Schema)
    requires n <= |parts| && p in parts[..n]
    ensures First(parts, p) == First(parts[..n], p) < n
  {
    FirstIs(parts, p, First(parts[..n], p));
  }

  lemma AscendsMore(parts: seq<Schema>, ps: seq<Schema>, p: Schema)
    requires Ascends(parts, ps) && forall q | q in ps :: First(parts, q) < First(parts, p)
    ensures Ascends(parts, ps + [p])
  {
    hide First;
    assert forall i | 0 <= i < |ps| :: ps[i] in ps;
  }

  lemma {:induction false} FilterAscends(parts: seq<Schema>, ps: seq<Schema>, keep: Schema -> bool)
    requires Ascends(parts, ps)
    ensures Ascends(parts, Filter(ps, keep))
  {
    if ps != [] {
      var rest := Filter(ps[1..], keep);
      FilterAscends(parts, ps[1..], keep);
      forall p | p in rest ensures First(parts, ps[0]) < First(parts, p) {
        var i :| 0 <= i < |ps[1..]| && ps[1..][i] == p;
        assert ps[i + 1] == p;
      }
    }
  }

  lemma {:induction false} FilterFirst(parts: seq<Schema>, keep: Schema -> bool, p: Schema, q: Schema)
    requires p in parts && q in parts && keep(p) && keep(q)
    ensures First(Filter(parts, keep), p) < First(Filter(parts, keep), q) <==> First(parts, p) < First(parts, q)
  {
    hide First, Filter;
    var x, tail := parts[0], Filter(parts[1..], keep);
    FilterHead(parts, keep);
    assert parts == [x] + parts[1..];
    FirstOn(x, parts[1..], p);
    FirstOn(x, parts[1..], q);
    if x == p || x == q {
      assert Filter(parts, keep) == [x] + tail;
      FirstOn(x, tail, p);
      FirstOn(x, tail, q);
    } else {
      FilterFirst(parts[1..], keep, p, q);
      if keep(x) {
        FirstOn(x, tail, p);
        FirstOn(x, tail, q);
      } else {
        assert Filter(parts, keep) == tail;
      }
    }
  }

  lemma FilterHead(parts: seq<Schema>, keep: Schema -> bool)
    requires parts != []
    ensures Filter(parts, keep) == (if keep(parts[0]) then [parts[0]] else []) + Filter(parts[1..], keep)
  {
  }

  lemma FirstOn(x: Schema, tail: seq<Schema>, p: Schema)
    ensures First([x] + tail, p) == if x == p then 0 else 1 + First(tail, p)
  {
    assert ([x] + tail)[1..] == tail;
  }

  function NotBoolean(): (keep: Schema -> bool)
    ensures forall s :: keep(s) <==> !(s.Const? && s.literal.LBool?)
  {
    s => !IsBooleanConst(s)
  }

  lemma Collapsed(input: seq<Schema>)
    ensures CollapseBooleans(input) ==
      if BothBooleans(input) then [TypeIs(BooleanKind)] + Filter(input, NotBoolean()) else input
  {
  }

  /** Putting the boolean type in front changes no other order. */
  lemma CollapsedFirst(input: seq<Schema>, p: Schema, q: Schema)
    requires Kept(input, p) && Kept(input, q)
    requires First(CollapseBooleans(input), p) < First(CollapseBooleans(input), q)
    ensures Place(input, p) < Place(input, q)
  {
    Collapsed(input);
    hide CollapseBooleans, Filter, First;
    if BothBooleans(input) {
      var kept, boolean := Filter(input, NotBoolean()), TypeIs(BooleanKind);
      FirstOn(boolean, kept, p);
      FirstOn(boolean, kept, q);
      if p != boolean {
        assert q != boolean;
        FilterFirst(input, NotBoolean(), p, q);
      }
    }
  }

  function Parts(input: seq<Schema>): seq<Schema> {
    Dedupe(CollapseBooleans(input))
  }

  function Rest(input: seq<Schema>): seq<Schema> {
    Filter(Parts(input), p => p != TypeIs(NullKind))
  }

  lemma UnionIs(input: seq<Schema>)
    ensures UnionOf(input) == Combine(Rest(input), TypeIs(NullKind) in Parts(input))
  {
  }

  lemma RestIs(input: seq<Schema>) returns (rest: seq<Schema>)
    ensures Lists(input, rest) && UnionOf(input) == Combine(rest, TypeIs(NullKind) in input)
  {
    rest := Rest(input);
    UnionIs(input);
    RestHas(input);
    hide UnionOf, Combine, Place, Kept, Parts, Rest;
    RestInOrder(input);
  }

  lemma RestHas(input: seq<Schema>)
    ensures forall p :: p in Rest(input) <==> Kept(input, p)
    ensures TypeIs(NullKind) in Parts(input) <==> TypeIs(NullKind) in input
  {
    CollapsedHas(input);
    assert forall p :: p in Parts(input) <==> p in CollapseBooleans(input);
    hide CollapseBooleans, Kept;
  }

  lemma RestInOrder(input: seq<Schema>)
    ensures forall i, k | 0 <= i < k < |Rest(input)| :: Place(input, Rest(input)[i]) < Place(input, Rest(input)[k])
  {
    var rest, collapsed := Rest(input), CollapseBooleans(input);
    RestHas(input);
    DedupeAscends(collapsed);
    FilterAscends(collapsed, Parts(input), p => p != TypeIs(NullKind));
    assert Ascends(collapsed, rest);
    hide CollapseBooleans, Place, First, Kept, Rest, Parts;
    forall i, k | 0 <= i < k < |rest| ensures Place(input, rest[i]) < Place(input, rest[k]) {
      assert rest[i] in rest && rest[k] in rest;
      CollapsedFirst(input, rest[i], rest[k]);
    }
  }

  lemma CollapsedHas(input: seq<Schema>)
    ensures forall p :: p in CollapseBooleans(input) && p != TypeIs(NullKind) <==> Kept(input, p)
    ensures TypeIs(NullKind) in CollapseBooleans(input) <==> TypeIs(NullKind) in input
  {
  }

  // ----- the schema

  /** Strings only, or numbers only. */
  predicate OneKind(rest: seq<Schema>) {
    || (forall p | p in rest :: p.Const? && p.literal.LStr?)
    || (forall p | p in rest :: p.Const? && p.literal.LNum?)
  }

  predicate EnumOf(s: Schema, rest: seq<Schema>, nullable: bool) {
    && s.Enum? && |s.values| == |rest| + (if nullable then 1 else 0)
    && (forall i | 0 <= i < |rest| :: rest[i] == Const(s.values[i]))
    && (nullable ==> s.values[|rest|] == LNull)
  }

  lemma KindsAgree(input: seq<Schema>, rest: seq<Schema>)
    requires Lists(input, rest) && |rest| >= 2
    ensures Enumerable(rest) <==> OneKind(rest)
  {
    assert rest[0] in rest && rest[1] in rest && rest[0] != rest[1];
    assert forall i | 0 <= i < |rest| :: rest[i] in rest;
    assert Kept(input, rest[0]) && Kept(input, rest[1]);
  }

  /**
   * What the members come to. `rest` are those left: none of them, the schema is null; constants of
   * one kind, an enum; a single one, that one, with null added to its enum or its type where that is
   * all it is; and otherwise the alternatives as they stand, null last.
   */
  lemma UnionShape(input: seq<Schema>) returns (rest: seq<Schema>)
    ensures Lists(input, rest)
    ensures var r, nullable := UnionOf(input), TypeIs(NullKind) in input;
      && (rest == [] ==> r == TypeIs(NullKind))
      && (|rest| == 1 && !nullable ==> r == rest[0])
      && (|rest| == 1 && nullable ==>
            r == if rest[0].Enum? then Enum(rest[0].values + [LNull])
                 else if rest[0].TypeIs? then TypeOrNull(rest[0].kind)
                 else AnyOf([rest[0], TypeIs(NullKind)]))
      && (|rest| >= 2 && OneKind(rest) ==> EnumOf(r, rest, nullable))
      && (|rest| >= 2 && !OneKind(rest) ==> r == AnyOf(if nullable then rest + [TypeIs(NullKind)] else rest))
  {
    rest := RestIs(input);
    if |rest| >= 2 {
      KindsAgree(input, rest);
    }
  }

  // ----- booleans

  function Alternatives(s: Schema): (r: seq<Schema>)
    ensures s.AnyOf? || r == [s]
  {
    if s.AnyOf? then s.alternatives else [s]
  }

  /** No boolean is left to stand alone: the type is boolean, however it got there. */
  lemma BooleansCollapse(input: seq<Schema>)
    requires BothBooleans(input)
    ensures var r := UnionOf(input);
      && (r == TypeOrNull(BooleanKind) || TypeIs(BooleanKind) in Alternatives(r))
      && forall p | p in Alternatives(r) ::
           !(p.Const? && p.literal.LBool?) && (p.Enum? ==> p in input)
  {
    var rest := UnionShape(input);
    BooleanRest(input, rest);
    hide UnionOf, Lists, OneKind, EnumOf, BothBooleans;
    var r, nullable := UnionOf(input), TypeIs(NullKind) in input;
    if |rest| == 1 {
      assert rest[0] in rest && rest[0] == TypeIs(BooleanKind);
    } else {
      var all := if nullable then rest + [TypeIs(NullKind)] else rest;
      assert Alternatives(r) == all;
      hide Alternatives;
      forall p | p in all ensures !(p.Const? && p.literal.LBool?) && (p.Enum? ==> p in input) {
        assert p in rest || p == TypeIs(NullKind);
      }
    }
  }

  lemma BooleanRest(input: seq<Schema>, rest: seq<Schema>)
    requires BothBooleans(input) && Lists(input, rest)
    ensures TypeIs(BooleanKind) in rest && !OneKind(rest)
    ensures forall p | p in rest :: !(p.Const? && p.literal.LBool?) && (p.Enum? ==> p in input)
  {
    assert Kept(input, TypeIs(BooleanKind));
    assert forall p | p in rest :: Kept(input, p);
  }

  lemma OnlyBoolean(input: seq<Schema>, rest: seq<Schema>)
    requires BothBooleans(input) && Lists(input, rest)
    requires forall p | p in input :: IsBooleanConst(p) || p == TypeIs(NullKind)
    ensures rest == [TypeIs(BooleanKind)]
  {
    assert Kept(input, TypeIs(BooleanKind));
    assert forall p | p in rest :: Kept(input, p);
    AtMostOne(input, rest, TypeIs(BooleanKind));
  }

  lemma AtMostOne(input: seq<Schema>, rest: seq<Schema>, p: Schema)
    requires Lists(input, rest) && p in rest && forall q | q in rest :: q == p
    ensures rest == [p]
  {
    FirstTwoDiffer(input, rest);
    hide Kept, Place;
    assert forall i | 0 <= i < |rest| :: rest[i] in rest;
  }

  lemma FirstTwoDiffer(input: seq<Schema>, rest: seq<Schema>)
    requires Lists(input, rest)
    ensures |rest| >= 2 ==> rest[0] != rest[1]
  {
    assert |rest| >= 2 ==> Place(input, rest[0]) < Place(input, rest[1]);
  }

  /** `boolean`, and `boolean` or null, however often and in whatever order their members are written. */
  lemma BooleanAlone(input: seq<Schema>)
    requires BothBooleans(input)
    requires forall p | p in input :: IsBooleanConst(p) || p == TypeIs(NullKind)
    ensures UnionOf(input) == if TypeIs(NullKind) in input then TypeOrNull(BooleanKind) else TypeIs(BooleanKind)
  {
    var rest := UnionShape(input);
    OnlyBoolean(input, rest);
  }
}
