/** Which names a schema refers to: those of the types that converting it calls, and none is lost on the way. */
module SchemaNames {
  import opened Wrappers
  import opened JsonValues
  import opened Schemas
  import opened Types
  import opened Unions
  import opened Translation
  import opened Recursion

  /** A published type is referred to by its name wherever it is used. */
  lemma NamedIsReference(decls: Program, id: nat, n: string)
    requires Publishes(decls, n, id)
    ensures Compile(decls, Shared(id)) == Ref(n)
  {
  }

  /** A property is taken apart only for an undefined to drop; otherwise its type keeps its name. */
  lemma PropertyKeepsName(decls: Program, p: Prop, id: nat, n: string)
    requires p.ty == Shared(id) && Publishes(decls, n, id)
    requires forall m | m in Members(decls, p.ty) :: Resolve(decls, m) != Prim(UndefinedT)
    ensures CompileProp(decls, p) == Ref(n)
  {
  }

  /** A property with an undefined to drop refers to what its other members refer to. */
  lemma SplitPropertyRefers(decls: Program, p: Prop, n: string)
    requires exists m :: m in Members(decls, p.ty) && Resolve(decls, m) == Prim(UndefinedT)
    ensures RefersTo(CompileProp(decls, p), n) <==>
      exists m :: m in Members(decls, p.ty) && Resolve(decls, m) != Prim(UndefinedT) && RefersTo(Compile(decls, m), n)
  {
    PropRefers(decls, p, n);
    hide Compile, CompileProp, RefersTo;
  }

  /** One of these types, where it is used, refers to the name. */
  ghost predicate SomeRefers(decls: Program, ts: seq<Ty>, n: string) {
    exists u :: u in ts && RefersTo(Compile(decls, u), n)
  }

  lemma OneRefers(decls: Program, t: Ty, n: string)
    ensures SomeRefers(decls, [t], n) <==> RefersTo(Compile(decls, t), n)
    ensures !SomeRefers(decls, [], n)
  {
    hide RefersTo, Compile;
    assert t in [t];
  }

  lemma RefersAppend(decls: Program, a: seq<Ty>, b: seq<Ty>, n: string)
    ensures SomeRefers(decls, a + b, n) <==> SomeRefers(decls, a, n) || SomeRefers(decls, b, n)
  {
    hide RefersTo, Compile;
    assert forall u :: u in a + b <==> u in a || u in b;
  }

  lemma ListRefers(decls: Program, ts: seq<Ty>, schemas: seq<Schema>, n: string)
    requires |schemas| == |ts| && forall i | 0 <= i < |ts| :: schemas[i] == Compile(decls, ts[i])
    ensures RefersTo(UnionOf(schemas), n) <==> SomeRefers(decls, ts, n)
  {
    UnionOfRefers(schemas, n);
    hide Compile, UnionOf, RefersTo;
    assert forall i | 0 <= i < |ts| :: schemas[i] in schemas && ts[i] in ts;
  }

  lemma PropRefers(decls: Program, p: Prop, n: string)
    ensures RefersTo(CompileProp(decls, p), n) <==> SomeRefers(decls, PropCalls(decls, p), n)
  {
    if Complete(decls, p.ty) {
      assert CompileProp(decls, p) == Compile(decls, p.ty);
      hide Compile, CompileProp, RefersTo;
      OneRefers(decls, p.ty, n);
    } else {
      var present := Present(decls, p.ty);
      var schemas := seq(|present|, i requires 0 <= i < |present| =>
        PresentHeight(decls, p, present[i]);
        Compile(decls, present[i]));
      assert CompileProp(decls, p) == UnionOf(schemas);
      hide Compile, CompileProp, RefersTo, UnionOf;
      ListRefers(decls, present, schemas, n);
      assert PropCalls(decls, p) == present;
    }
  }

  lemma {:induction false} PropsRefer(decls: Program, props: seq<Prop>, n: string)
    ensures (exists p :: p in props && RefersTo(CompileProp(decls, p), n)) <==>
      SomeRefers(decls, PropsCalls(decls, props), n)
  {
    hide Compile, CompileProp, RefersTo, SomeRefers;
    if props == [] {
      NoneRefers(decls, n);
    } else {
      var k := |props| - 1;
      PropsRefer(decls, props[..k], n);
      PropRefers(decls, props[k], n);
      RefersAppend(decls, PropsCalls(decls, props[..k]), PropCalls(decls, props[k]), n);
      hide PropsCalls, PropCalls;
      assert forall p :: p in props <==> p in props[..k] || p == props[k];
    }
  }

  lemma NoneRefers(decls: Program, n: string)
    ensures !SomeRefers(decls, PropsCalls(decls, []), n)
  {
  }

  lemma UnionRefers(decls: Program, members: seq<Ty>, n: string)
    ensures RefersTo(CompileNode(decls, Union(members)), n) <==>
      SomeRefers(decls, members, n)
  {
    var schemas := seq(|members|, i requires 0 <= i < |members| => Compile(decls, members[i]));
    assert CompileNode(decls, Union(members)) == UnionOf(schemas);
    hide Compile, CompileNode, RefersTo, UnionOf;
    ListRefers(decls, members, schemas, n);
  }

  lemma ElementRefers(decls: Program, node: Node, n: string)
    requires node.ArrayT? || node.TupleT?
    ensures RefersTo(CompileNode(decls, node), n) <==>
      SomeRefers(decls, Calls(decls, node), n)
  {
    var calls := Calls(decls, node);
    assert CompileNode(decls, node) == ArrayOf(if calls == [] then Anything else Compile(decls, calls[0]));
    assert calls != [] ==> calls == [calls[0]];
    hide Compile, CompileNode, Calls, SomeRefers;
    if calls == [] {
      OneRefers(decls, Inline(node), n);
      ArrayRefers(Anything, n);
    } else {
      OneRefers(decls, calls[0], n);
      ArrayRefers(Compile(decls, calls[0]), n);
    }
  }

  lemma ArrayRefers(items: Schema, n: string)
    ensures RefersTo(ArrayOf(items), n) <==> RefersTo(items, n)
    ensures !RefersTo(Anything, n)
  {
  }

  /** A schema refers to exactly the names that the types it is converted from lead to. */
  lemma {:induction false} NodeRefers(decls: Program, node: Node, n: string)
    ensures RefersTo(CompileNode(decls, node), n) <==>
      SomeRefers(decls, Calls(decls, node), n)
  {
    match node
    case Union(members) =>
      UnionRefers(decls, members, n);
      hide Compile, CompileNode, RefersTo;
      assert Calls(decls, node) == members;
    case ObjectT(props, index) =>
      PropsRefer(decls, props, n);
      ObjectRefers(decls, props, index, n);
      hide Compile, CompileNode, CompileProp, RefersTo;
      var more := if index.Some? then [index.value] else [];
      assert Calls(decls, node) == PropsCalls(decls, props) + more;
      hide SomeRefers, Calls, PropsCalls;
      RefersAppend(decls, PropsCalls(decls, props), more, n);
      OneRefers(decls, if index.Some? then index.value else Inline(node), n);
    case ArrayT(_) => ElementRefers(decls, node, n);
    case TupleT(_) => ElementRefers(decls, node, n);
    case _ =>
  }

  lemma ObjectRefers(decls: Program, props: seq<Prop>, index: Option<Ty>, n: string)
    ensures RefersTo(CompileNode(decls, ObjectT(props, index)), n) <==>
      (exists p :: p in props && RefersTo(CompileProp(decls, p), n))
      || (index.Some? && RefersTo(Compile(decls, index.value), n))
  {
    hide Compile, CompileNode, CompileProp, RefersTo;
    ObjectIs(decls, props, index);
    var properties, additional := PropertiesOf(decls, props), CompileIndex(decls, index);
    LayerRefers(properties, RequiredNames(decls, props), additional, n);
    hide PropertiesOf, CompileIndex;
    assert forall i | 0 <= i < |props| :: properties[i] in properties && props[i] in props;
  }

  function CompileIndex(decls: Program, index: Option<Ty>): (r: Option<Schema>)
    ensures r.Some? <==> index.Some?
    ensures r.Some? ==> r.value == Compile(decls, index.value)
  {
    if index.Some? then Some(Compile(decls, index.value)) else None
  }

  lemma ObjectIs(decls: Program, props: seq<Prop>, index: Option<Ty>)
    ensures CompileNode(decls, ObjectT(props, index)) ==
      ObjectOf(PropertiesOf(decls, props), RequiredNames(decls, props), CompileIndex(decls, index))
  {
    hide Compile, CompileProp, RequiredNames;
  }

  function PropertiesOf(decls: Program, props: seq<Prop>): (r: seq<Property>)
    ensures |r| == |props| && forall i | 0 <= i < |props| :: r[i].schema == CompileProp(decls, props[i])
  {
    seq(|props|, i requires 0 <= i < |props| => Property(props[i].name, CompileProp(decls, props[i])))
  }

  lemma LayerRefers(properties: seq<Property>, required: seq<string>, additional: Option<Schema>, n: string)
    ensures RefersTo(ObjectOf(properties, required, additional), n) <==>
      (exists p :: p in properties && RefersTo(p.schema, n)) || (additional.Some? && RefersTo(additional.value, n))
  {
  }

  // ----- what is refused

  lemma PropConvertible(decls: Program, p: Prop)
    ensures ConvertibleProp(decls, p) <==> forall u | u in PropCalls(decls, p) :: Convertible(decls, u)
  {
    var calls := PropCalls(decls, p);
    if Complete(decls, p.ty) {
      assert ConvertibleProp(decls, p) <==> Convertible(decls, p.ty);
      assert calls == [p.ty] && p.ty in calls;
    } else {
      assert calls == Present(decls, p.ty);
    }
  }

  lemma {:induction false} PropsConvertible(decls: Program, props: seq<Prop>)
    ensures (forall p | p in props :: ConvertibleProp(decls, p)) <==>
      forall u | u in PropsCalls(decls, props) :: Convertible(decls, u)
  {
    hide Convertible, ConvertibleProp;
    if props != [] {
      var k := |props| - 1;
      PropsConvertible(decls, props[..k]);
      PropConvertible(decls, props[k]);
      assert forall p :: p in props <==> p in props[..k] || p == props[k];
      assert forall u :: u in PropsCalls(decls, props) <==>
          u in PropsCalls(decls, props[..k]) || u in PropCalls(decls, props[k]);
    }
  }

  /**
   * A type is refused if it is none that JSON has, or an object that describes nothing, or if a type
   * that has to be converted for it is; and for no other reason.
   */
  lemma RefusedExactly(decls: Program, node: Node)
    ensures !ConvertibleNode(decls, node) <==>
      || node == Opaque
      || node == ObjectT([], None)
      || exists u :: u in Calls(decls, node) && !Convertible(decls, u)
  {
    match node
    case ObjectT(props, index) =>
      PropsConvertible(decls, props);
      assert props == [] ==> PropsCalls(decls, props) == [];
      hide Convertible, ConvertibleProp, PropsCalls;
      var more := if index.Some? then [index.value] else [];
      assert Calls(decls, node) == PropsCalls(decls, props) + more;
      assert index.Some? ==> index.value in more;
      assert forall u :: u in Calls(decls, node) <==> u in PropsCalls(decls, props) || u in more;
    case TupleT(elements) =>
      hide Convertible;
      assert elements != [] ==> Calls(decls, node) == [elements[0]] && elements[0] in Calls(decls, node);
    case ArrayT(element) =>
      hide Convertible;
      assert Calls(decls, node) == [element] && element in Calls(decls, node);
    case _ =>
      hide Convertible;
  }

  /** Of a tuple only the first element is described, and of an empty one nothing. */
  lemma TupleAccepts(decls: Program, components: Components, via: set<string>, elements: seq<Ty>, j: Json)
    ensures Accepts(components, via, CompileNode(decls, TupleT(elements)), j) <==>
      j.JArr? && (elements == [] || forall x | x in j.items :: Accepts(components, {}, Compile(decls, elements[0]), x))
  {
    hide Compile;
  }
}
