/** The emitted schemas accept exactly what the types' values serialise to. */
module Meaning {
  import opened Wrappers
  import opened JsonValues
  import opened Schemas
  import opened Types
  import opened Translation
  import opened Unions

  // ----- the component table

  /** Each component is the schema of the alias it is named after, and every `$ref` in it resolves. */
  ghost predicate CorrectTable(decls: Program, components: Components) {
    forall n | n in components ::
      && (exists id :: Publishes(decls, n, id) && components[n] == CompileNode(decls, decls[id].node))
      && Resolves(components.Keys, components[n])
  }

  // ----- where an undefined, sent as nothing at all, would not fit the schema

  /**
   * A property that may hold an undefined the converter does not drop (`void`, or nothing but
   * undefined) must not be required and must allow null.
   */
  predicate SafeProp(decls: Decls, p: Prop) {
    var present := Present(decls, p.ty);
    (present == [] || exists m :: m in present && Resolve(decls, m) == Prim(VoidT))
      ==> !Required(decls, p) && AdmitsNull(decls, p.ty)
  }

  predicate SafeIndex(decls: Decls, index: Option<Ty>) {
    index.Some? && AdmitsUndefined(decls, index.value) ==> AdmitsNull(decls, index.value)
  }

  predicate SafeObject(decls: Decls, props: seq<Prop>, index: Option<Ty>) {
    (forall p | p in props :: SafeProp(decls, p)) && SafeIndex(decls, index)
  }

  /** A type that is safe where it is written out; `scope` is what it may mention. */
  predicate Safe(decls: Decls, scope: set<nat>, t: Ty) {
    match t
    case Shared(id) => id in scope
    case Inline(node) => SafeNode(decls, scope, node)
  }

  /** No tuples, of which only the first element is looked at, and safe objects throughout. */
  predicate SafeNode(decls: Decls, scope: set<nat>, node: Node) {
    match node
    case Prim(_) => true
    case Opaque => true
    case Union(members) => forall m | m in members :: Safe(decls, scope, m)
    case ArrayT(element) => Safe(decls, scope, element)
    case TupleT(_) => false
    case ObjectT(props, index) =>
      && SafeObject(decls, props, index)
      && (forall p | p in props :: Safe(decls, scope, p.ty))
      && (index.Some? ==> Safe(decls, scope, index.value))
  }

  /** What is mentioned by a type in scope is in scope, and all of it is safe. */
  predicate SafeScope(decls: Decls, scope: set<nat>) {
    forall id | id in scope :: id in decls && SafeNode(decls, scope, decls[id].node)
  }

  /** What is asked of the program; of the types, only of those in scope. */
  ghost predicate Setting(decls: Program, scope: set<nat>, components: Components) {
    WellFormedDecls(decls) && UniqueIn(decls, scope) && SafeScope(decls, scope) && CorrectTable(decls, components)
  }

  /** What is asked of one type. */
  ghost predicate Ready(decls: Program, scope: set<nat>, components: Components, t: Ty) {
    WellFormed(decls, t) && Safe(decls, scope, t) && Resolves(components.Keys, Compile(decls, t))
  }

  ghost predicate ReadyNode(decls: Program, scope: set<nat>, components: Components, node: Node) {
    WellFormedNode(decls, node) && SafeNode(decls, scope, node) && Resolves(components.Keys, CompileNode(decls, node))
  }

  // ----- consequences for the parts of a type

  lemma ReadyUnion(decls: Program, scope: set<nat>, components: Components, ts: seq<Ty>, schemas: seq<Schema>)
    requires |schemas| == |ts| && forall i | 0 <= i < |ts| :: schemas[i] == Compile(decls, ts[i])
    requires Resolves(components.Keys, UnionOf(schemas))
    requires forall t | t in ts :: WellFormed(decls, t) && Safe(decls, scope, t)
    ensures forall t | t in ts :: Ready(decls, scope, components, t)
  {
    forall i, n | 0 <= i < |ts| && RefersTo(schemas[i], n) ensures n in components {
      assert schemas[i] in schemas;
      UnionOfRefers(schemas, n);
    }
  }

  lemma {:induction false} ReadyParts(decls: Program, scope: set<nat>, components: Components, node: Node)
    requires ReadyNode(decls, scope, components, node)
    ensures node.Union? ==> forall m | m in node.members :: Ready(decls, scope, components, m)
    ensures node.ArrayT? ==> Ready(decls, scope, components, node.element)
    ensures node.ObjectT? ==> forall p | p in node.props :: Resolves(components.Keys, CompileProp(decls, p))
    ensures node.ObjectT? && node.index.Some? ==> Ready(decls, scope, components, node.index.value)
  {
    var s := CompileNode(decls, node);
    match node
    case Union(members) =>
      ReadyUnion(decls, scope, components, members,
                 seq(|members|, i requires 0 <= i < |members| => Compile(decls, members[i])));
    case ArrayT(element) =>
      assert forall n | RefersTo(Compile(decls, element), n) :: RefersTo(s, n);
    case ObjectT(props, index) =>
      forall i, n | 0 <= i < |props| && RefersTo(CompileProp(decls, props[i]), n) ensures n in components {
        assert s.properties[i] in s.properties;
        assert RefersTo(s, n);
      }
      if index.Some? {
        assert forall n | RefersTo(Compile(decls, index.value), n) :: RefersTo(s, n);
      }
    case _ =>
  }

  /** The members a property's type is split into meet what is asked of types. */
  lemma ReadyMembers(decls: Program, scope: set<nat>, components: Components, p: Prop)
    requires Setting(decls, scope, components)
    requires WellFormed(decls, p.ty) && Safe(decls, scope, p.ty)
    requires Resolves(components.Keys, CompileProp(decls, p))
    ensures forall m | m in Members(decls, p.ty) :: WellFormed(decls, m) && Safe(decls, scope, m)
    ensures Resolve(decls, p.ty).Union? ==> forall m | m in Members(decls, p.ty) :: !Resolve(decls, m).Union?
    ensures Complete(decls, p.ty) ==> Ready(decls, scope, components, p.ty)
    ensures !Complete(decls, p.ty) ==> forall m | m in Present(decls, p.ty) :: Ready(decls, scope, components, m)
  {
    if !Complete(decls, p.ty) {
      var present := Present(decls, p.ty);
      var schemas := seq(|present|, i requires 0 <= i < |present| =>
        PresentHeight(decls, p, present[i]);
        Compile(decls, present[i]));
      assert CompileProp(decls, p) == UnionOf(schemas);
      ReadyUnion(decls, scope, components, present, schemas);
    }
  }

  lemma {:induction false} PropMeans(decls: Program, components: Components, p: Prop, j: Json)
    requires !Complete(decls, p.ty) && Present(decls, p.ty) != []
    ensures Accepts(components, {}, CompileProp(decls, p), j)
       <==> exists m | m in Present(decls, p.ty) :: Accepts(components, {}, Compile(decls, m), j)
  {
    var present := Present(decls, p.ty);
    var schemas := seq(|present|, i requires 0 <= i < |present| =>
      PresentHeight(decls, p, present[i]);
      Compile(decls, present[i]));
    assert CompileProp(decls, p) == UnionOf(schemas);
    UnionOfMeans(components, {}, schemas, j);
    MembersMean(decls, components, {}, present, schemas, j);
  }

  lemma MembersMean(
      decls: Program, components: Components, via: set<string>, ts: seq<Ty>, schemas: seq<Schema>, j: Json)
    requires |schemas| == |ts| && forall i | 0 <= i < |ts| :: schemas[i] == Compile(decls, ts[i])
    ensures SomeAccepts(components, via, schemas, j)
       <==> exists t | t in ts :: Accepts(components, via, Compile(decls, t), j)
  {
    assert forall i | 0 <= i < |ts| :: schemas[i] in schemas && ts[i] in ts;
  }

  /** Only a type that admits undefined has it as a value, and likewise for null. */
  lemma HasUndefinedOrNull(decls: Decls, t: Ty)
    requires Resolve(decls, t).Union? ==> forall m | m in Members(decls, t) :: !Resolve(decls, m).Union?
    ensures HasType(decls, Undefined, t) <==> AdmitsUndefined(decls, t)
    ensures HasType(decls, Null, t) <==> AdmitsNull(decls, t)
  {
    var ms := Members(decls, t);
    forall m | m in ms && !Resolve(decls, m).Union?
      ensures HasType(decls, Undefined, m) <==> Resolve(decls, m).Prim? && Resolve(decls, m).prim in {UndefinedT, VoidT}
      ensures HasType(decls, Null, m) <==> Resolve(decls, m).Prim? && Resolve(decls, m).prim in {NullT}
    {
    }
    if !Resolve(decls, t).Union? {
      assert ms == [t];
    }
  }

  lemma AliasHasType(decls: Decls, v: Js, id: nat)
    requires id in decls
    ensures HasType(decls, v, Shared(id)) <==> HasType(decls, v, Inline(decls[id].node))
  {
  }

  // ----- the components entered on the way to an instance

  /** Only aliases of unions lead to another reference for the same instance. */
  ghost predicate UnionNames(decls: Decls, via: set<string>) {
    forall n | n in via :: exists id :: Publishes(decls, n, id) && decls[id].node.Union?
  }

  ghost predicate Fresh(decls: Decls, via: set<string>, t: Ty) {
    && UnionNames(decls, via)
    && (t.Shared? && t.id in decls && decls[t.id].name.Some? ==> decls[t.id].name.value !in via)
  }

  /** The components entered once this type's own schema has been reached. */
  ghost function Entered(decls: Decls, via: set<string>, id: nat): set<string>
    requires id in decls
  {
    if decls[id].node.Prim? || decls[id].name.None? then via else via + {decls[id].name.value}
  }

  /** A reference is answered by the schema of the type it names. */
  lemma Entering(decls: Program, scope: set<nat>, components: Components, via: set<string>, id: nat)
    requires Setting(decls, scope, components) && Ready(decls, scope, components, Shared(id))
    requires Fresh(decls, via, Shared(id)) && !decls[id].node.Prim? && decls[id].name.Some?
    ensures var n := decls[id].name.value;
      && n in components && n !in via
      && components[n] == CompileNode(decls, decls[id].node)
      && ReadyNode(decls, scope, components, decls[id].node)
  {
    var n := decls[id].name.value;
    hide WellFormed, Safe, Acyclic, UnionNames, CompileNode, SafeNode, WellFormedNode;
    assert RefersTo(Compile(decls, Shared(id)), n);
    assert Publishes(decls, n, id);
    var other :| Publishes(decls, n, other) && components[n] == CompileNode(decls, decls[other].node);
    assert other == id;
  }

  lemma NameEntered(decls: Program, via: set<string>, id: nat)
    requires id in decls && Fresh(decls, via, Shared(id))
    ensures decls[id].node.Union? ==> UnionNames(decls, Entered(decls, via, id))
  {
    if Entered(decls, via, id) != via {
      assert Publishes(decls, decls[id].name.value, id);
    }
  }

  // ----- one layer at a time

  lemma InlineLayer(decls: Program, node: Node)
    ensures Compile(decls, Inline(node)) == CompileNode(decls, node)
    ensures Fresh(decls, {}, Inline(node))
  {
  }

  lemma ReadyInline(decls: Program, scope: set<nat>, components: Components, node: Node)
    ensures Ready(decls, scope, components, Inline(node)) <==> ReadyNode(decls, scope, components, node)
  {
    InlineLayer(decls, node);
  }

  lemma {:induction false} AliasLayer(
      decls: Program, scope: set<nat>, components: Components, via: set<string>, id: nat, j: Json)
    requires Setting(decls, scope, components) && Ready(decls, scope, components, Shared(id))
    requires Fresh(decls, via, Shared(id))
    ensures id in decls && ReadyNode(decls, scope, components, decls[id].node)
    ensures decls[id].node.Union? ==> UnionNames(decls, Entered(decls, via, id))
    ensures Accepts(components, via, Compile(decls, Shared(id)), j)
       <==> Accepts(components, Entered(decls, via, id), CompileNode(decls, decls[id].node), j)
  {
    NameEntered(decls, via, id);
    if !decls[id].node.Prim? && decls[id].name.Some? {
      Entering(decls, scope, components, via, id);
    } else {
      hide Acyclic, Accepts, CorrectTable, UniqueIn;
      assert Compile(decls, Shared(id)) == CompileNode(decls, decls[id].node);
    }
  }

  lemma PrimLayer(decls: Program, components: Components, via: set<string>, p: Prim, v: Js)
    requires HasType(decls, v, Inline(Prim(p)))
    ensures Accepts(components, via, CompileNode(decls, Prim(p)), Serialise(v))
  {
  }

  lemma {:induction false} UnionLayer(
      decls: Program, components: Components, via: set<string>, members: seq<Ty>, j: Json)
    requires members != []
    ensures Accepts(components, via, CompileNode(decls, Union(members)), j)
       <==> exists m | m in members :: Accepts(components, via, Compile(decls, m), j)
  {
    var schemas := seq(|members|, i requires 0 <= i < |members| => Compile(decls, members[i]));
    assert CompileNode(decls, Union(members)) == UnionOf(schemas);
    UnionOfMeans(components, via, schemas, j);
    MembersMean(decls, components, via, members, schemas, j);
  }

  lemma ArrayLayer(decls: Program, components: Components, via: set<string>, element: Ty, j: Json)
    ensures Accepts(components, via, CompileNode(decls, ArrayT(element)), j)
       <==> j.JArr? && forall x | x in j.items :: Accepts(components, {}, Compile(decls, element), x)
  {
  }

  lemma {:induction false} ObjectLayer(
      decls: Program, components: Components, via: set<string>, props: seq<Prop>, index: Option<Ty>, j: Json)
    ensures Accepts(components, via, CompileNode(decls, ObjectT(props, index)), j)
       <==> (&& j.JObj?
             && (forall p | p in props :: if p.name in j.members
                   then Accepts(components, {}, CompileProp(decls, p), j.members[p.name]) else !Required(decls, p))
             && (index.Some? ==> forall k | k in j.members && k !in PropNames(props) ::
                   Accepts(components, {}, Compile(decls, index.value), j.members[k])))
  {
    var s := CompileNode(decls, ObjectT(props, index));
    ObjectShape(decls, props, index);
    hide Accepts, CompileNode, Compile, CompileProp, Required, RequiredNames, Declares;
    ObjectOfMeans(components, via, s.properties, s.required, s.additional, j);
    if j.JObj? {
      PropertiesMean(decls, components, props, s.properties, j);
      forall k ensures Declares(s.properties, k) <==> k in PropNames(props) {
        DeclaredNames(props, s.properties, k);
      }
    }
  }

  lemma ObjectShape(decls: Program, props: seq<Prop>, index: Option<Ty>)
    ensures var s := CompileNode(decls, ObjectT(props, index));
      && s.ObjectOf?
      && |s.properties| == |props|
      && (forall i | 0 <= i < |props| :: s.properties[i] == Property(props[i].name, CompileProp(decls, props[i])))
      && s.required == RequiredNames(decls, props)
      && s.additional == if index.Some? then Some(Compile(decls, index.value)) else None
  {
  }

  lemma ObjectOfMeans(
      components: Components, via: set<string>, qs: seq<Property>, required: seq<string>, additional: Option<Schema>,
      j: Json)
    ensures Accepts(components, via, ObjectOf(qs, required, additional), j)
       <==> (&& j.JObj?
             && (forall k | k in required :: k in j.members)
             && (forall q | q in qs && q.name in j.members :: Accepts(components, {}, q.schema, j.members[q.name]))
             && (additional.Some? ==> forall k | k in j.members && !Declares(qs, k) ::
                   Accepts(components, {}, additional.value, j.members[k])))
  {
  }

  lemma DeclaredNames(props: seq<Prop>, qs: seq<Property>, k: string)
    requires |qs| == |props| && forall i | 0 <= i < |props| :: qs[i].name == props[i].name
    ensures Declares(qs, k) <==> k in PropNames(props)
  {
    assert forall i | 0 <= i < |props| :: qs[i] in qs && props[i] in props;
  }

  lemma PropertiesMean(decls: Program, components: Components, props: seq<Prop>, qs: seq<Property>, j: Json)
    requires |qs| == |props|
    requires forall i | 0 <= i < |props| :: qs[i] == Property(props[i].name, CompileProp(decls, props[i]))
    requires j.JObj?
    ensures (&& (forall k | k in RequiredNames(decls, props) :: k in j.members)
             && forall q | q in qs && q.name in j.members :: Accepts(components, {}, q.schema, j.members[q.name]))
       <==> forall p | p in props :: if p.name in j.members
              then Accepts(components, {}, CompileProp(decls, p), j.members[p.name]) else !Required(decls, p)
  {
    hide Accepts, CompileProp, Required, RequiredNames;
    assert forall i | 0 <= i < |props| :: qs[i] in qs && props[i] in props;
  }

  // ----- every serialised value is accepted

  lemma {:induction false} Sound(
      decls: Program, scope: set<nat>, components: Components, via: set<string>, v: Js, t: Ty)
    requires Setting(decls, scope, components) && Ready(decls, scope, components, t) && Fresh(decls, via, t)
    requires HasType(decls, v, t)
    ensures Accepts(components, via, Compile(decls, t), Serialise(v))
    decreases v, if Resolve(decls, t).Union? then 3 else 1, 0
  {
    hide Setting, Ready, ReadyNode, HasType, Accepts, Compile, CompileNode, UnionNames;
    match t
    case Inline(node) =>
      InlineLayer(decls, node);
      ReadyInline(decls, scope, components, node);
      SoundNode(decls, scope, components, via, v, node);
    case Shared(id) =>
      AliasLayer(decls, scope, components, via, id, Serialise(v));
      AliasHasType(decls, v, id);
      SoundNode(decls, scope, components, Entered(decls, via, id), v, decls[id].node);
  }

  lemma {:induction false} SoundNode(
      decls: Program, scope: set<nat>, components: Components, via: set<string>, v: Js, node: Node)
    requires Setting(decls, scope, components) && ReadyNode(decls, scope, components, node)
    requires node.Union? ==> UnionNames(decls, via)
    requires HasType(decls, v, Inline(node))
    ensures Accepts(components, via, CompileNode(decls, node), Serialise(v))
    decreases v, if node.Union? then 2 else 0, 1
  {
    hide Setting, Ready, Accepts, Compile, CompileNode, UnionNames, UniqueIn;
    ReadyParts(decls, scope, components, node);
    match node
    case Prim(p) => PrimLayer(decls, components, via, p, v);
    case Union(members) =>
      var m :| m in members && !Resolve(decls, m).Union? && HasType(decls, v, m);
      MemberIsFresh(decls, scope, components, via, m);
      Sound(decls, scope, components, via, v, m);
      UnionLayer(decls, components, via, members, Serialise(v));
    case ArrayT(element) =>
      forall x | x in Serialise(v).items ensures Accepts(components, {}, Compile(decls, element), x) {
        var i :| 0 <= i < |v.items| && x == Serialise(v.items[i]);
        NothingEntered(decls, element);
        Sound(decls, scope, components, {}, v.items[i], element);
      }
      ArrayLayer(decls, components, via, element, Serialise(v));
    case ObjectT(props, index) =>
      SoundObject(decls, scope, components, via, v, props, index);
  }

  /** A member of a union is no union, so its own name cannot have been entered before. */
  lemma MemberIsFresh(decls: Program, scope: set<nat>, components: Components, via: set<string>, m: Ty)
    requires Setting(decls, scope, components) && UnionNames(decls, via) && !Resolve(decls, m).Union?
    requires Safe(decls, scope, m)
    ensures Fresh(decls, via, m)
  {
  }

  lemma NothingEntered(decls: Program, t: Ty)
    ensures Fresh(decls, {}, t)
  {
  }

  lemma {:induction false} SoundObject(
      decls: Program, scope: set<nat>, components: Components, via: set<string>, v: Js, props: seq<Prop>,
      index: Option<Ty>)
    requires Setting(decls, scope, components) && ReadyNode(decls, scope, components, ObjectT(props, index))
    requires HasType(decls, v, Inline(ObjectT(props, index)))
    ensures Accepts(components, via, CompileNode(decls, ObjectT(props, index)), Serialise(v))
    decreases v, 0, 0
  {
    hide Setting, Ready, Accepts, Compile, CompileNode, CompileProp, UnionNames, SafeProp, Safe, WellFormed, Required;
    var j := Serialise(v);
    ReadyParts(decls, scope, components, ObjectT(props, index));
    forall p | p in props
      ensures if p.name in j.members
        then Accepts(components, {}, CompileProp(decls, p), j.members[p.name]) else !Required(decls, p)
    {
      if p.name in j.members {
        SoundProp(decls, scope, components, v.members[p.name], p);
      } else {
        DroppedProp(decls, scope, components, p);
      }
    }
    forall k | index.Some? && k in j.members && k !in PropNames(props)
      ensures Accepts(components, {}, Compile(decls, index.value), j.members[k])
    {
      NothingEntered(decls, index.value);
      Sound(decls, scope, components, {}, v.members[k], index.value);
    }
    ObjectLayer(decls, components, via, props, index, j);
  }

  /** A property that may be undefined, and so be left out, is not required. */
  lemma DroppedProp(decls: Program, scope: set<nat>, components: Components, p: Prop)
    requires Setting(decls, scope, components)
    requires WellFormed(decls, p.ty) && SafeProp(decls, p)
    ensures p.optional || AdmitsUndefined(decls, p.ty) || HasType(decls, Undefined, p.ty) ==> !Required(decls, p)
  {
    WellFormedMembers(decls, p.ty);
    HasUndefinedOrNull(decls, p.ty);
    var ms := Members(decls, p.ty);
    if Complete(decls, p.ty) && AdmitsUndefined(decls, p.ty) {
      assert Present(decls, p.ty) == ms;
      var m :| m in ms && Resolve(decls, m).Prim? && Resolve(decls, m).prim in {UndefinedT, VoidT};
      assert m in Present(decls, p.ty);
    }
  }

  lemma WellFormedMembers(decls: Decls, t: Ty)
    requires WellFormedDecls(decls) && WellFormed(decls, t)
    ensures Resolve(decls, t).Union? ==> forall m | m in Members(decls, t) :: !Resolve(decls, m).Union?
  {
  }

  lemma {:induction false} SoundProp(decls: Program, scope: set<nat>, components: Components, x: Js, p: Prop)
    requires Setting(decls, scope, components) && WellFormed(decls, p.ty) && Safe(decls, scope, p.ty)
    requires Resolves(components.Keys, CompileProp(decls, p))
    requires x != Undefined && HasType(decls, x, p.ty)
    ensures Accepts(components, {}, CompileProp(decls, p), Serialise(x))
    decreases x, 4, 0
  {
    hide Setting, Ready, Accepts, Compile, UnionNames, WellFormed, Safe, Resolves;
    ReadyMembers(decls, scope, components, p);
    if Complete(decls, p.ty) {
      NothingEntered(decls, p.ty);
      Sound(decls, scope, components, {}, x, p.ty);
    } else {
      var m := PresentMember(decls, x, p.ty);
      NothingEntered(decls, m);
      Sound(decls, scope, components, {}, x, m);
      PropMeans(decls, components, p, Serialise(x));
    }
  }

  /** A value that is there belongs to a member other than undefined. */
  lemma PresentMember(decls: Decls, x: Js, t: Ty) returns (m: Ty)
    requires x != Undefined && HasType(decls, x, t) && !Complete(decls, t)
    ensures m in Present(decls, t) && HasType(decls, x, m)
  {
    if Resolve(decls, t).Union? {
      m :| m in Members(decls, t) && HasType(decls, x, m);
    } else {
      m := t;
    }
  }

  // ----- every accepted instance is the serialisation of a value

  ghost predicate Sends(decls: Decls, v: Js, t: Ty, j: Json) {
    HasType(decls, v, t) && Serialise(v) == j
  }

  lemma {:induction false} Exact(
      decls: Program, scope: set<nat>, components: Components, via: set<string>, j: Json, t: Ty)
    returns (v: Js)
    requires Setting(decls, scope, components) && Ready(decls, scope, components, t) && Fresh(decls, via, t)
    requires Accepts(components, via, Compile(decls, t), j)
    ensures Sends(decls, v, t, j)
    decreases j, if Resolve(decls, t).Union? then 3 else 1, 0
  {
    hide Setting, Ready, ReadyNode, HasType, Accepts, Compile, CompileNode, UnionNames;
    match t
    case Inline(node) =>
      InlineLayer(decls, node);
      ReadyInline(decls, scope, components, node);
      v := ExactNode(decls, scope, components, via, j, node);
    case Shared(id) =>
      AliasLayer(decls, scope, components, via, id, j);
      v := ExactNode(decls, scope, components, Entered(decls, via, id), j, decls[id].node);
      AliasHasType(decls, v, id);
  }

  lemma {:induction false} ExactNode(
      decls: Program, scope: set<nat>, components: Components, via: set<string>, j: Json, node: Node)
    returns (v: Js)
    requires Setting(decls, scope, components) && ReadyNode(decls, scope, components, node)
    requires node.Union? ==> UnionNames(decls, via)
    requires Accepts(components, via, CompileNode(decls, node), j)
    ensures Sends(decls, v, Inline(node), j)
    decreases j, if node.Union? then 2 else 0, 1
  {
    hide Setting, Ready, Accepts, Compile, CompileNode, UnionNames, UniqueIn;
    ReadyParts(decls, scope, components, node);
    match node
    case Prim(p) => v := ExactPrim(decls, components, via, j, p);
    case Opaque => NothingAccepts(decls, components, via, j);
    case Union(members) =>
      UnionLayer(decls, components, via, members, j);
      var m :| m in members && Accepts(components, via, Compile(decls, m), j);
      MemberIsFresh(decls, scope, components, via, m);
      v := Exact(decls, scope, components, via, j, m);
    case ArrayT(element) =>
      ArrayLayer(decls, components, via, element, j);
      v := ExactArray(decls, scope, components, j, element);
    case ObjectT(props, index) =>
      v := ExactObject(decls, scope, components, via, j, props, index);
  }

  lemma ExactPrim(decls: Program, components: Components, via: set<string>, j: Json, p: Prim) returns (v: Js)
    requires Accepts(components, via, CompileNode(decls, Prim(p)), j)
    ensures Sends(decls, v, Inline(Prim(p)), j)
  {
    v := if p == UndefinedT || p == VoidT then Undefined else Parse(j);
    SerialiseParse(j);
  }

  lemma NothingAccepts(decls: Program, components: Components, via: set<string>, j: Json)
    ensures !Accepts(components, via, CompileNode(decls, Opaque), j)
  {
  }

  lemma {:induction false} ExactArray(decls: Program, scope: set<nat>, components: Components, j: Json, element: Ty)
    returns (v: Js)
    requires Setting(decls, scope, components) && Ready(decls, scope, components, element)
    requires j.JArr? && forall x | x in j.items :: Accepts(components, {}, Compile(decls, element), x)
    ensures Sends(decls, v, Inline(ArrayT(element)), j)
    decreases j, 0, 0
  {
    hide Setting, Ready, Accepts, Compile;
    forall i | 0 <= i < |j.items| ensures exists x :: Sends(decls, x, element, j.items[i]) {
      assert j.items[i] in j.items;
      NothingEntered(decls, element);
      var x := Exact(decls, scope, components, {}, j.items[i], element);
    }
    v := Arr(seq(|j.items|, i requires 0 <= i < |j.items| => var x :| Sends(decls, x, element, j.items[i]); x));
    assert Serialise(v).items == j.items;
  }

  /** `x` may stand at the key `k` of a value that is sent with `j` there. */
  ghost predicate Fits(decls: Decls, props: seq<Prop>, index: Option<Ty>, k: string, x: Js, j: Json) {
    && x != Undefined
    && Serialise(x) == j
    && (forall p | p in props && p.name == k :: HasType(decls, x, p.ty))
    && (k !in PropNames(props) && index.Some? ==> HasType(decls, x, index.value))
  }

  /** The value that is sent as what stands at one key. */
  lemma {:induction false} ExactAt(
      decls: Program, scope: set<nat>, components: Components, j: Json, props: seq<Prop>, index: Option<Ty>, k: string)
    returns (x: Js)
    requires Setting(decls, scope, components) && ReadyNode(decls, scope, components, ObjectT(props, index))
    requires forall p | p in props && p.name == k :: Accepts(components, {}, CompileProp(decls, p), j)
    requires k !in PropNames(props) && index.Some? ==> Accepts(components, {}, Compile(decls, index.value), j)
    ensures Fits(decls, props, index, k, x, j)
    decreases j, 5, 0
  {
    hide Setting, Ready, Accepts, Compile, CompileNode, CompileProp, SafeProp, Safe, WellFormed, HasType;
    ReadyParts(decls, scope, components, ObjectT(props, index));
    if k in PropNames(props) {
      var p :| p in props && p.name == k;
      assert forall q | q in props && q.name == k :: q == p;
      x := ExactProp(decls, scope, components, j, p);
    } else if index.Some? {
      x := ExactExtra(decls, scope, components, j, index.value);
    } else {
      x := Parse(j);
      SerialiseParse(j);
    }
  }

  lemma {:induction false} ExactObject(
      decls: Program, scope: set<nat>, components: Components, via: set<string>, j: Json, props: seq<Prop>,
      index: Option<Ty>)
    returns (v: Js)
    requires Setting(decls, scope, components) && ReadyNode(decls, scope, components, ObjectT(props, index))
    requires Accepts(components, via, CompileNode(decls, ObjectT(props, index)), j)
    ensures Sends(decls, v, Inline(ObjectT(props, index)), j)
    decreases j, 0, 0
  {
    hide Setting, ReadyNode, Accepts, Compile, CompileNode, CompileProp, HasType, Required, Fits, Serialise;
    ObjectLayer(decls, components, via, props, index, j);
    forall k | k in j.members ensures exists x :: Fits(decls, props, index, k, x, j.members[k]) {
      var x := ExactAt(decls, scope, components, j.members[k], props, index, k);
    }
    v := Obj(map k | k in j.members :: var x :| Fits(decls, props, index, k, x, j.members[k]); x);
    Assemble(decls, v, props, index, j);
  }

  lemma {:induction false} Assemble(decls: Decls, v: Js, props: seq<Prop>, index: Option<Ty>, j: Json)
    requires v.Obj? && j.JObj? && v.members.Keys == j.members.Keys
    requires forall k | k in j.members :: Fits(decls, props, index, k, v.members[k], j.members[k])
    requires forall p | p in props && p.name !in j.members :: !Required(decls, p)
    ensures Sends(decls, v, Inline(ObjectT(props, index)), j)
  {
    assert Serialise(v).members == j.members;
    forall p | p in props && p.name !in v.members ensures p.optional || AdmitsUndefined(decls, p.ty) {
      NotRequired(decls, p);
    }
  }

  lemma NotRequired(decls: Decls, p: Prop)
    requires !Required(decls, p)
    ensures p.optional || AdmitsUndefined(decls, p.ty)
  {
    if !p.optional {
      var ms := Members(decls, p.ty);
      if forall m :: m in ms ==> !IsUndefined(decls, m) {
        assert false;
      }
      var m :| m in ms && IsUndefined(decls, m);
    }
  }

  lemma {:induction false} ExactExtra(decls: Program, scope: set<nat>, components: Components, j: Json, t: Ty)
    returns (x: Js)
    requires Setting(decls, scope, components) && Ready(decls, scope, components, t) && SafeIndex(decls, Some(t))
    requires Accepts(components, {}, Compile(decls, t), j)
    ensures x != Undefined && Sends(decls, x, t, j)
    decreases j, 4, 0
  {
    hide Accepts, Compile, CorrectTable;
    NothingEntered(decls, t);
    x := Exact(decls, scope, components, {}, j, t);
    WellFormedMembers(decls, t);
    HasUndefinedOrNull(decls, t);
    if x == Undefined {
      x := Null;
    }
  }

  lemma {:induction false} ExactProp(decls: Program, scope: set<nat>, components: Components, j: Json, p: Prop)
    returns (x: Js)
    requires Setting(decls, scope, components) && WellFormed(decls, p.ty) && Safe(decls, scope, p.ty)
      && SafeProp(decls, p)
    requires Resolves(components.Keys, CompileProp(decls, p))
    requires Accepts(components, {}, CompileProp(decls, p), j)
    ensures x != Undefined && Sends(decls, x, p.ty, j)
    decreases j, 4, 0
  {
    hide Setting, Ready, Accepts, Compile, WellFormed, Safe, Resolves;
    ReadyMembers(decls, scope, components, p);
    if Complete(decls, p.ty) {
      NothingEntered(decls, p.ty);
      x := Exact(decls, scope, components, {}, j, p.ty);
    } else {
      PresentNotEmpty(decls, p);
      PropMeans(decls, components, p, j);
      var m :| m in Present(decls, p.ty) && Accepts(components, {}, Compile(decls, m), j);
      NothingEntered(decls, m);
      x := Exact(decls, scope, components, {}, j, m);
      PresentHasType(decls, scope, components, p, m, x);
    }
    if x == Undefined {
      NullForUndefined(decls, scope, components, p);
      x := Null;
    }
  }

  lemma PresentNotEmpty(decls: Decls, p: Prop)
    requires SafeProp(decls, p)
    ensures Present(decls, p.ty) != []
  {
  }

  lemma {:induction false} PresentHasType(
      decls: Program, scope: set<nat>, components: Components, p: Prop, m: Ty, x: Js)
    requires Setting(decls, scope, components) && WellFormed(decls, p.ty)
    requires m in Present(decls, p.ty) && HasType(decls, x, m)
    ensures HasType(decls, x, p.ty)
    ensures x == Undefined ==> Resolve(decls, m) == Prim(VoidT)
  {
    hide CorrectTable, UniqueIn, Acyclic, SafeNode;
    WellFormedMembers(decls, p.ty);
    hide WellFormedDecls, WellFormed;
    if Resolve(decls, p.ty).Union? {
      HasUndefinedOrNull(decls, m);
    } else {
      assert m == p.ty;
      HasUndefinedOrNull(decls, m);
    }
  }

  lemma {:induction false} NullForUndefined(decls: Program, scope: set<nat>, components: Components, p: Prop)
    requires Setting(decls, scope, components) && WellFormed(decls, p.ty) && SafeProp(decls, p)
    requires HasType(decls, Undefined, p.ty)
    requires Complete(decls, p.ty) || exists m :: m in Present(decls, p.ty) && Resolve(decls, m) == Prim(VoidT)
    ensures HasType(decls, Null, p.ty)
  {
    hide CorrectTable, UniqueIn;
    WellFormedMembers(decls, p.ty);
    HasUndefinedOrNull(decls, p.ty);
  }

  /**
   * The converter's promise: an instance is accepted if and only if it is what some value of the
   * type is sent as.
   */
  lemma {:induction false} MeaningPreserved(decls: Program, scope: set<nat>, components: Components, t: Ty, j: Json)
    requires Setting(decls, scope, components) && Ready(decls, scope, components, t)
    ensures Accepts(components, {}, Compile(decls, t), j) <==> exists v :: Sends(decls, v, t, j)
  {
    if Accepts(components, {}, Compile(decls, t), j) {
      var v := Exact(decls, scope, components, {}, j, t);
    }
    if v :| Sends(decls, v, t, j) {
      Sound(decls, scope, components, {}, v, t);
    }
  }
}
