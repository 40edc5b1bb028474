/** Where the converter's promise stops: for each family of types, the exact condition. */
module Limits {
  import opened Wrappers
  import opened JsonValues
  import opened Schemas
  import opened Types
  import opened Translation
  import opened Unions
  import opened Meaning
  import opened ResponseSchemas
  import opened Recursion
  import opened Termination

  /**
   * A tuple is described as an array of its first element: the description admits another length,
   * whatever the elements are.
   */
  lemma TupleNotFaithful(decls: Program, components: Components, elements: seq<Ty>)
    ensures !Faithful(decls, components, Inline(TupleT(elements)))
  {
    var t := Inline(TupleT(elements));
    var j := if elements == [] then JArr([JNull]) else JArr([]);
    InlineLayer(decls, TupleT(elements));
    var items := if elements == [] then Anything else Compile(decls, elements[0]);
    assert Compile(decls, t) == ArrayOf(items);
    assert forall x | x in j.items :: Accepts(components, {}, items, x);
    assert Accepts(components, {}, Compile(decls, t), j);
    forall v ensures !Sends(decls, v, t, j) {
      if v.Arr? {
        assert |Serialise(v).items| == |v.items|;
      }
    }
  }

  lemma FreshName(names: set<string>) returns (k: string)
    ensures k !in names
  {
    k := seq(Longest(names) + 1, _ => 'k');
  }

  ghost function Longest(names: set<string>): (r: nat)
    ensures forall n | n in names :: |n| <= r
  {
    if names == {} then 0
    else
      var n :| n in names;
      var rest := Longest(names - {n});
      if |n| >= rest then |n| else rest
  }

  /** The parts of an object type are in order; whether the object is safe itself is left open. */
  ghost predicate PartsReady(
      decls: Program, scope: set<nat>, components: Components, props: seq<Prop>, index: Option<Ty>) {
    && Setting(decls, scope, components)
    && WellFormedNode(decls, ObjectT(props, index))
    && Resolves(components.Keys, CompileNode(decls, ObjectT(props, index)))
    && (forall p | p in props :: Safe(decls, scope, p.ty))
    && (index.Some? ==> Safe(decls, scope, index.value))
  }

  lemma PartsResolve(decls: Program, scope: set<nat>, components: Components, props: seq<Prop>, index: Option<Ty>)
    requires PartsReady(decls, scope, components, props, index)
    ensures forall p | p in props :: Resolves(components.Keys, CompileProp(decls, p))
    ensures index.Some? ==> Ready(decls, scope, components, index.value)
  {
    hide Acyclic, Setting, CompileProp, Safe;
    var s := CompileNode(decls, ObjectT(props, index));
    forall i, n | 0 <= i < |props| && RefersTo(CompileProp(decls, props[i]), n) ensures n in components {
      assert s.properties[i] in s.properties;
      assert RefersTo(s, n);
    }
    if index.Some? {
      assert forall n | RefersTo(Compile(decls, index.value), n) :: RefersTo(s, n);
    }
  }

  lemma UndefinedAt(decls: Program, props: seq<Prop>, index: Option<Ty>, v: Js, p: Prop)
    requires WellFormedNode(decls, ObjectT(props, index)) && p in props
    requires HasType(decls, v, Inline(ObjectT(props, index))) && HasType(decls, Undefined, p.ty)
    ensures HasType(decls, Obj(v.members[p.name := Undefined]), Inline(ObjectT(props, index)))
  {
    hide Acyclic, AdmitsUndefined, WellFormed;
    assert forall q | q in props && q.name == p.name :: q == p;
  }

  lemma MissingRefused(decls: Program, components: Components, props: seq<Prop>, index: Option<Ty>, p: Prop, j: Json)
    requires p in props && Required(decls, p) && j.JObj? && p.name !in j.members
    ensures !Accepts(components, {}, Compile(decls, Inline(ObjectT(props, index))), j)
  {
    InlineLayer(decls, ObjectT(props, index));
    hide Acyclic, Accepts, Compile, CompileNode, CompileProp, Required;
    ObjectLayer(decls, components, {}, props, index, j);
  }

  lemma NotFaithful(decls: Program, components: Components, t: Ty, v: Js)
    requires HasType(decls, v, t) && !Accepts(components, {}, Compile(decls, t), Serialise(v))
    ensures !Faithful(decls, components, t)
  {
    hide Acyclic, Accepts, Compile, HasType;
    assert Sends(decls, v, t, Serialise(v));
  }

  /** A required property that may hold an undefined: leaving it out is sent, and refused. */
  lemma RequiredUndefined(decls: Program, components: Components, props: seq<Prop>, index: Option<Ty>, v: Js, p: Prop)
    requires WellFormedDecls(decls) && WellFormedNode(decls, ObjectT(props, index))
    requires HasType(decls, v, Inline(ObjectT(props, index)))
    requires p in props && Required(decls, p) && AdmitsUndefined(decls, p.ty)
    ensures !Faithful(decls, components, Inline(ObjectT(props, index)))
  {
    WellFormedMembers(decls, p.ty);
    HasUndefinedOrNull(decls, p.ty);
    UndefinedAt(decls, props, index, v, p);
    hide Acyclic, Accepts, Compile, WellFormedNode, WellFormedDecls, AdmitsUndefined, Required, Faithful;
    var v' := Obj(v.members[p.name := Undefined]);
    MissingRefused(decls, components, props, index, p, Serialise(v'));
    NotFaithful(decls, components, Inline(ObjectT(props, index)), v');
  }

  /** The key of a null that no value of the object sends: the type at that key does not admit null. */
  ghost predicate NoNullAt(decls: Decls, props: seq<Prop>, index: Option<Ty>, k: string) {
    if k in PropNames(props) then exists p :: p in props && p.name == k && !AdmitsNull(decls, p.ty)
    else index.Some? && !AdmitsNull(decls, index.value)
  }

  lemma NullUnsent(decls: Program, props: seq<Prop>, index: Option<Ty>, k: string, w: Js, j: Json)
    requires WellFormedDecls(decls) && WellFormedNode(decls, ObjectT(props, index))
    requires NoNullAt(decls, props, index, k)
    requires j.JObj? && k in j.members && j.members[k] == JNull
    ensures !Sends(decls, w, Inline(ObjectT(props, index)), j)
  {
    if Sends(decls, w, Inline(ObjectT(props, index)), j) {
      assert k in w.members && w.members[k] != Undefined && Serialise(w.members[k]) == JNull;
      assert w.members[k] == Null;
      if k in PropNames(props) {
        var p :| p in props && p.name == k && !AdmitsNull(decls, p.ty);
        WellFormedMembers(decls, p.ty);
        HasUndefinedOrNull(decls, p.ty);
      } else {
        WellFormedMembers(decls, index.value);
        HasUndefinedOrNull(decls, index.value);
      }
    }
  }

  lemma NullAccepted(
      decls: Program, components: Components, props: seq<Prop>, index: Option<Ty>, j: Json, k: string)
    requires j.JObj? && Accepts(components, {}, CompileNode(decls, ObjectT(props, index)), j)
    requires forall p | p in props && p.name == k :: Accepts(components, {}, CompileProp(decls, p), JNull)
    requires k !in PropNames(props) && index.Some? ==> Accepts(components, {}, Compile(decls, index.value), JNull)
    ensures Accepts(components, {}, CompileNode(decls, ObjectT(props, index)), JObj(j.members[k := JNull]))
  {
    hide Acyclic, Compile, CompileNode, CompileProp, Accepts, Required;
    ObjectLayer(decls, components, {}, props, index, j);
    ObjectLayer(decls, components, {}, props, index, JObj(j.members[k := JNull]));
  }

  /** A null put in where null is accepted but no value sends it. */
  lemma NullNotSent(decls: Program, components: Components, props: seq<Prop>, index: Option<Ty>, v: Js, k: string)
    requires WellFormedDecls(decls) && WellFormedNode(decls, ObjectT(props, index))
    requires HasType(decls, v, Inline(ObjectT(props, index)))
    requires NoNullAt(decls, props, index, k)
    requires forall p | p in props && p.name == k :: Accepts(components, {}, CompileProp(decls, p), JNull)
    requires k !in PropNames(props) && index.Some? ==> Accepts(components, {}, Compile(decls, index.value), JNull)
    ensures !Faithful(decls, components, Inline(ObjectT(props, index)))
  {
    var o, j := Inline(ObjectT(props, index)), Serialise(v);
    assert v.Obj?;
    InlineLayer(decls, ObjectT(props, index));
    hide Acyclic, Compile, CompileNode, CompileProp, Accepts, HasType, WellFormedNode, WellFormedDecls, NoNullAt,
      PropNames, Faithful;
    if Accepts(components, {}, Compile(decls, o), j) {
      var j' := JObj(j.members[k := JNull]);
      NullAccepted(decls, components, props, index, j, k);
      forall w ensures !Sends(decls, w, o, j') {
        NullUnsent(decls, props, index, k, w, j');
      }
      NothingSends(decls, components, o, j');
    } else {
      NotFaithful(decls, components, o, v);
    }
  }

  lemma NothingSends(decls: Program, components: Components, t: Ty, j: Json)
    requires Accepts(components, {}, Compile(decls, t), j) && forall w :: !Sends(decls, w, t, j)
    ensures !Faithful(decls, components, t)
  {
    hide Acyclic, Accepts, Compile, Sends;
  }

  lemma {:induction false} UndefinedReadsNull(decls: Program, scope: set<nat>, components: Components, t: Ty)
    requires Setting(decls, scope, components) && Ready(decls, scope, components, t) && AdmitsUndefined(decls, t)
    ensures Accepts(components, {}, Compile(decls, t), JNull)
  {
    hide Acyclic, CorrectTable, UniqueIn, Resolves, Accepts, Compile;
    WellFormedMembers(decls, t);
    HasUndefinedOrNull(decls, t);
    NothingEntered(decls, t);
    Sound(decls, scope, components, {}, Undefined, t);
  }

  /** Some value of the type has this body. */
  ghost predicate IsBody(decls: Decls, t: Ty, j: Json) {
    exists v :: HasType(decls, v, t) && ResponseBody(v) == Some(j)
  }

  /** Only a null may be sent for undefined, where it would have no body. */
  lemma BodyIsSent(decls: Decls, t: Ty, j: Json)
    ensures IsBody(decls, t, j) ==> exists v :: Sends(decls, v, t, j)
    ensures (exists v :: Sends(decls, v, t, j)) ==>
      IsBody(decls, t, j) || (j == JNull && HasType(decls, Undefined, t) && !HasType(decls, Null, t))
    ensures IsBody(decls, t, JNull) ==> HasType(decls, Null, t)
  {
    hide HasType;
    if v :| HasType(decls, v, t) && ResponseBody(v) == Some(j) {
      assert Sends(decls, v, t, j);
    }
    if v :| Sends(decls, v, t, j) {
      var w := if v == Undefined && HasType(decls, Null, t) then Null else v;
      assert HasType(decls, w, t) && (w == Undefined || ResponseBody(w) == Some(j));
    }
  }

  lemma AdmitsWhatItHas(decls: Program, scope: set<nat>, components: Components, t: Ty)
    requires Setting(decls, scope, components) && Ready(decls, scope, components, t)
    ensures HasType(decls, Undefined, t) <==> AdmitsUndefined(decls, t)
    ensures HasType(decls, Null, t) <==> AdmitsNull(decls, t)
  {
    hide Acyclic, CorrectTable, UniqueIn, Resolves, Compile;
    WellFormedMembers(decls, t);
    HasUndefinedOrNull(decls, t);
  }

  /**
   * A whole response that is undefined has an empty body, though its schema says null. So every value
   * has a body if and only if the type does not admit undefined; and the schema accepts exactly the
   * bodies if and only if a type that admits undefined admits null as well.
   */
  lemma EmptyBody(decls: Program, scope: set<nat>, components: Components, t: Ty)
    requires Setting(decls, scope, components) && Ready(decls, scope, components, t)
    ensures (forall v | HasType(decls, v, t) :: ResponseBody(v).Some?) <==> !AdmitsUndefined(decls, t)
    ensures (forall j :: Accepts(components, {}, Compile(decls, t), j) <==> IsBody(decls, t, j))
      <==> (AdmitsUndefined(decls, t) ==> AdmitsNull(decls, t))
  {
    hide Acyclic, Accepts, Compile, HasType, AdmitsUndefined, AdmitsNull, Setting, Ready, IsBody;
    AdmitsWhatItHas(decls, scope, components, t);
    BodyIsSent(decls, t, JNull);
    if AdmitsUndefined(decls, t) && !AdmitsNull(decls, t) {
      UndefinedReadsNull(decls, scope, components, t);
    } else {
      forall j ensures Accepts(components, {}, Compile(decls, t), j) <==> IsBody(decls, t, j) {
        MeaningPreserved(decls, scope, components, t, j);
        BodyIsSent(decls, t, j);
      }
    }
  }

  lemma UnsafePropAcceptsNull(decls: Program, scope: set<nat>, components: Components, p: Prop)
    requires Setting(decls, scope, components) && WellFormed(decls, p.ty) && Safe(decls, scope, p.ty)
    requires Resolves(components.Keys, CompileProp(decls, p)) && !SafeProp(decls, p)
    ensures Accepts(components, {}, CompileProp(decls, p), JNull)
  {
    hide Acyclic, CorrectTable, UniqueIn, Resolves, Accepts, Compile;
    ReadyMembers(decls, scope, components, p);
    var present := Present(decls, p.ty);
    if present == [] {
      EmptyUnionIsNull(decls, components, p);
    } else {
      var m :| m in present && Resolve(decls, m) == Prim(VoidT);
      if Complete(decls, p.ty) {
        UndefinedReadsNull(decls, scope, components, p.ty);
      } else {
        assert AdmitsUndefined(decls, m) by {
          assert Members(decls, m) == [m];
        }
        UndefinedReadsNull(decls, scope, components, m);
        PropMeans(decls, components, p, JNull);
      }
    }
  }

  lemma EmptyUnionIsNull(decls: Program, components: Components, p: Prop)
    requires WellFormedDecls(decls) && WellFormed(decls, p.ty) && Present(decls, p.ty) == []
    ensures Accepts(components, {}, CompileProp(decls, p), JNull)
  {
    assert Members(decls, p.ty) != [];
    assert !Complete(decls, p.ty);
    assert CompileProp(decls, p) == UnionOf([]);
    assert UnionOf([]) == TypeIs(NullKind);
  }

  /**
   * The exact condition for object types: given parts that are faithful and at least one value, the
   * schema is faithful if and only if the object is safe.
   */
  lemma FaithfulObject(
      decls: Program, scope: set<nat>, components: Components, props: seq<Prop>, index: Option<Ty>, v: Js)
    requires PartsReady(decls, scope, components, props, index)
    requires HasType(decls, v, Inline(ObjectT(props, index)))
    ensures Faithful(decls, components, Inline(ObjectT(props, index))) <==> SafeObject(decls, props, index)
  {
    hide Acyclic, Setting, Resolves, Accepts, Compile, CompileNode, CompileProp, Faithful, HasType, Required, Ready;
    PartsResolve(decls, scope, components, props, index);
    if SafeObject(decls, props, index) {
      ReadyInline(decls, scope, components, ObjectT(props, index));
      ReadyIsFaithful(decls, scope, components, Inline(ObjectT(props, index)));
    } else if p :| p in props && !SafeProp(decls, p) {
      UnsafeProp(decls, scope, components, props, index, v, p);
    } else {
      var k := FreshName(PropNames(props));
      UndefinedReadsNull(decls, scope, components, index.value);
      PartsWellFormed(decls, scope, components);
      NullNotSent(decls, components, props, index, v, k);
    }
  }

  lemma PartsWellFormed(decls: Program, scope: set<nat>, components: Components)
    requires Setting(decls, scope, components)
    ensures WellFormedDecls(decls)
  {
  }

  lemma UnsafeProp(
      decls: Program, scope: set<nat>, components: Components, props: seq<Prop>, index: Option<Ty>, v: Js, p: Prop)
    requires PartsReady(decls, scope, components, props, index)
    requires HasType(decls, v, Inline(ObjectT(props, index)))
    requires p in props && !SafeProp(decls, p)
    ensures !Faithful(decls, components, Inline(ObjectT(props, index)))
  {
    hide Acyclic, CorrectTable, UniqueIn, Resolves, Accepts, Compile, CompileNode, CompileProp, Faithful, HasType,
      Required;
    PartsResolve(decls, scope, components, props, index);
    if Required(decls, p) {
      RequiredIsVoid(decls, p);
      RequiredUndefined(decls, components, props, index, v, p);
    } else {
      UnsafePropAcceptsNull(decls, scope, components, p);
      assert forall q | q in props && q.name == p.name :: q == p;
      assert p.name in PropNames(props);
      NullNotSent(decls, components, props, index, v, p.name);
    }
  }

  lemma RequiredIsVoid(decls: Decls, p: Prop)
    requires WellFormedDecls(decls) && WellFormed(decls, p.ty) && Required(decls, p) && !SafeProp(decls, p)
    ensures AdmitsUndefined(decls, p.ty)
  {
    assert Members(decls, p.ty) != [];
  }

  /** When one name stands for two types that differ in a value, no table serves both. */
  lemma SharedNameNotFaithful(decls: Program, components: Components, a: nat, b: nat, j: Json)
    requires a in decls && b in decls && !decls[a].node.Prim? && !decls[b].node.Prim?
    requires decls[a].name == decls[b].name && decls[a].name.Some?
    requires (exists v :: Sends(decls, v, Shared(a), j)) && !(exists v :: Sends(decls, v, Shared(b), j))
    ensures !(Faithful(decls, components, Shared(a)) && Faithful(decls, components, Shared(b)))
  {
    assert Compile(decls, Shared(a)) == Compile(decls, Shared(b));
    var accepted := Accepts(components, {}, Compile(decls, Shared(a)), j);
    assert Faithful(decls, components, Shared(a)) ==> accepted;
    assert Faithful(decls, components, Shared(b)) ==> !accepted;
  }

  // ----- named aliases that do not break their cycle

  lemma ShortCycle(decls: Decls, t: Ty)
    requires Called(decls, t, t) && !Named(decls, t)
    ensures LoopFrom(decls, t)
  {
    var c := [t, t];
    assert UnnamedCycle(decls, c);
    LeadsToItself(decls, t);
    assert Leads(decls, t, c[0]);
  }

  lemma LongerCycle(decls: Decls, t: Ty, u: Ty)
    requires Called(decls, t, u) && Called(decls, u, t) && !Named(decls, t) && !Named(decls, u)
    ensures LoopFrom(decls, t)
  {
    var c := [t, u, t];
    assert UnnamedCycle(decls, c);
    LeadsToItself(decls, t);
    assert Leads(decls, t, c[0]);
  }

  /**
   * An object type that is a member of a union and has a property of that union, the union being
   * unnamed: as a whole it is converted again, taken apart at undefined its members are.
   */
  lemma UnnamedUnionLoops(decls: Decls, id: nat, member: Node, p: Prop)
    requires Unnamed(decls, id) && decls[id].node.Union? && Inline(member) in decls[id].node.members
    requires member.ObjectT? && p in member.props && p.ty == Shared(id)
    ensures LoopFrom(decls, Inline(member))
  {
    var t, u := Inline(member), Shared(id);
    forall v | v in PropCalls(decls, p) ensures Called(decls, t, v) {
      PropCallsIn(decls, member.props, v);
    }
    if Complete(decls, p.ty) {
      LongerCycle(decls, t, u);
    } else {
      assert t in Present(decls, p.ty);
      ShortCycle(decls, t);
    }
  }

  /**
   * `A`, for `{ next: B }` or the text, and `B` for what is left of `A | null` or `A | undefined`
   * when it is flattened.
   */
  function Recursive(text: Prim, extra: Prim, optional: bool): Decls {
    var member := Inline(ObjectT([Prop("next", Shared(1), optional)], None));
    map[0 := Decl(Some("A"), Union([Inline(Prim(text)), member])),
        1 := Decl(None, Union([Inline(Prim(text)), member, Inline(Prim(extra))]))]
  }

  /**
   * `type A = string | { next: A | null }`, and the same with `next?: A`: the alias has a publishable
   * name, but the flattened union its cycle goes through has none, and the conversion never ends.
   */
  lemma RecursiveUnionAliasLoops(text: Prim, extra: Prim, optional: bool)
    ensures !Ends(Recursive(text, extra, optional), Shared(0))
  {
    var decls := Recursive(text, extra, optional);
    var p := Prop("next", Shared(1), optional);
    var node := ObjectT([p], None);
    var member := Inline(node);
    assert decls[0].node == Union([Inline(Prim(text)), member]);
    assert decls[1].node == Union([Inline(Prim(text)), member, Inline(Prim(extra))]);
    assert member == decls[1].node.members[1] && member == decls[0].node.members[1];
    UnnamedUnionLoops(decls, 1, node, p);
    LoopBehind(decls, Shared(0), member);
    var types := {Shared(0), Shared(1), Inline(Prim(text)), member, Inline(Prim(extra))};
    RecursiveCalls(decls, text, extra, p);
    NeverEnds(decls, types, Shared(0));
  }

  lemma RecursiveCalls(decls: Decls, text: Prim, extra: Prim, p: Prop)
    requires decls.Keys == {0, 1} && p.ty == Shared(1)
    requires decls[0].node == Union([Inline(Prim(text)), Inline(ObjectT([p], None))])
    requires decls[1].node == Union([Inline(Prim(text)), Inline(ObjectT([p], None)), Inline(Prim(extra))])
    ensures var types := {Shared(0), Shared(1), Inline(Prim(text)), Inline(ObjectT([p], None)), Inline(Prim(extra))};
      Closed(decls, types)
  {
    var types := {Shared(0), Shared(1), Inline(Prim(text)), Inline(ObjectT([p], None)), Inline(Prim(extra))};
    forall v | v in Calls(decls, ObjectT([p], None)) ensures v in types {
      CallsOfOne(decls, p, v);
    }
    hide Complete, Present, PropsCalls;
    forall u, v | u in types && Called(decls, u, v) ensures v in types {}
  }

  lemma CallsOfOne(decls: Decls, p: Prop, v: Ty)
    ensures v in Calls(decls, ObjectT([p], None)) <==> v in PropCalls(decls, p)
    ensures v in PropCalls(decls, p) ==> v == p.ty || v in Members(decls, p.ty)
  {
    PropCallsIn(decls, [p], v);
    if v in PropCalls(decls, p) && !Complete(decls, p.ty) {
      assert v in Present(decls, p.ty);
    }
  }

  lemma LoopBehind(decls: Decls, t: Ty, u: Ty)
    requires Called(decls, t, u) && LoopFrom(decls, u)
    ensures LoopFrom(decls, t)
  {
    var c :| UnnamedCycle(decls, c) && Leads(decls, u, c[0]);
    LeadsToItself(decls, t);
    LeadsOn(decls, t, t, u);
    LeadsTransitive(decls, t, u, c[0]);
  }

  /** Among these types nothing is refused and nothing else is called. */
  ghost predicate Closed(decls: Decls, types: set<Ty>) {
    && (forall u | u in types :: !Refusal(Resolve(decls, u)))
    && (forall u, v | u in types && Called(decls, u, v) :: v in types)
  }

  lemma NeverEnds(decls: Decls, types: set<Ty>, t: Ty)
    requires UniqueNames(decls) && LoopFrom(decls, t) && t in types && Closed(decls, types)
    ensures !Ends(decls, t)
  {
    hide Called, LoopFrom, Ends;
    forall u | Leads(decls, t, u) ensures u in types {
      var p :| Path(decls, p) && p[0] == t && p[|p| - 1] == u;
      LeadsAlong(decls, p, |p| - 1, x => x in types);
    }
    ConversionEnds(decls, t);
  }

  const SPLIT_NEXT := Prop("next", Shared(0), false)
  const SPLIT_NODE := ObjectT([SPLIT_NEXT], None)
  const SPLIT: Decls := map[0 := Decl(Some("A"), Union([Inline(SPLIT_NODE), Inline(Prim(UndefinedT))]))]

  /**
   * `type A = { next: A } | undefined`: here it is the alias itself that is taken apart where it is
   * used, so that its name is never looked up.
   */
  lemma SplitAliasLoops()
    ensures !Ends(SPLIT, Shared(0))
  {
    var member := Inline(SPLIT_NODE);
    SplitCalls(SPLIT, SPLIT_NEXT);
    CallsOfOne(SPLIT, SPLIT_NEXT, member);
    hide Calls, PropCalls, LoopFrom, Ends, Closed;
    ShortCycle(SPLIT, member);
    assert SPLIT[0].node.members[0] == member;
    LoopBehind(SPLIT, Shared(0), member);
    NeverEnds(SPLIT, {Shared(0), member, Inline(Prim(UndefinedT))}, Shared(0));
  }

  lemma SplitCalls(decls: Decls, p: Prop)
    requires decls.Keys == {0} && p.ty == Shared(0)
    requires decls[0].node == Union([Inline(ObjectT([p], None)), Inline(Prim(UndefinedT))])
    ensures var member, undefined := Inline(ObjectT([p], None)), Inline(Prim(UndefinedT));
      && member in PropCalls(decls, p) && Closed(decls, {Shared(0), member, undefined})
      && member in Calls(decls, decls[0].node)
  {
    var member, undefined := Inline(ObjectT([p], None)), Inline(Prim(UndefinedT));
    var members := decls[0].node.members;
    assert members[0] == member && members[1] == undefined;
    assert undefined in members && undefined !in Present(decls, p.ty) && member in Present(decls, p.ty);
    hide Complete, Present, PropsCalls;
    var types := {Shared(0), member, undefined};
    forall v | v in Calls(decls, member.node) ensures v in types {
      CallsOfOne(decls, p, v);
    }
    forall u, v | u in types && Called(decls, u, v) ensures v in types {}
  }
}
