/** The converter as it runs: one recursion over the types, filling a component table as it goes. */
module Converter {
  import opened Wrappers
  import opened JsonValues
  import opened Schemas
  import opened Types
  import opened Translation
  import opened Unions
  import opened Meaning
  import opened Recursion

  /** A schema, or the exception that ends the whole conversion. */
  datatype Outcome = Converted(schema: Schema) | Unconvertible

  /** A chain of references from `t`, each named in the one before, ends at something refused. */
  ghost predicate Blocked(decls: Program, t: Ty, path: seq<nat>)
    decreases |path|
  {
    if path == [] then !Convertible(decls, t)
    else
      && path[0] in decls
      && decls[path[0]].name.Some?
      && !decls[path[0]].node.Prim?
      && RefersTo(Compile(decls, t), decls[path[0]].name.value)
      && Blocked(decls, Inline(decls[path[0]].node), path[1..])
  }

  ghost predicate Refused(decls: Program, t: Ty) {
    exists path :: Blocked(decls, t, path)
  }

  /** A part that is met on the way makes the whole refused. */
  lemma RefusedPart(decls: Program, t: Ty, part: Ty)
    requires Refused(decls, part)
    requires !Convertible(decls, part) ==> !Convertible(decls, t)
    requires forall n | RefersTo(Compile(decls, part), n) :: RefersTo(Compile(decls, t), n)
    ensures Refused(decls, t)
  {
    var path :| Blocked(decls, part, path);
    assert Blocked(decls, t, path);
  }

  lemma RefusedNode(decls: Program, node: Node)
    requires !ConvertibleNode(decls, node)
    ensures Refused(decls, Inline(node))
  {
    assert Blocked(decls, Inline(node), []);
  }

  lemma RefusedIndex(decls: Program, props: seq<Prop>, extra: Ty)
    requires Refused(decls, extra)
    ensures Refused(decls, Inline(ObjectT(props, Some(extra))))
  {
    RefusedPart(decls, Inline(ObjectT(props, Some(extra))), extra);
  }

  lemma RefusedMember(decls: Program, members: seq<Ty>, m: Ty)
    requires m in members && Refused(decls, m)
    ensures Refused(decls, Inline(Union(members)))
  {
    var schemas := seq(|members|, i requires 0 <= i < |members| => Compile(decls, members[i]));
    var k :| 0 <= k < |members| && members[k] == m;
    assert schemas[k] in schemas;
    forall n | RefersTo(Compile(decls, m), n) ensures RefersTo(UnionOf(schemas), n) {
      UnionOfRefers(schemas, n);
    }
    RefusedPart(decls, Inline(Union(members)), m);
  }

  /** The type of a lone property, whose conversion is that of the property. */
  ghost function Alone(p: Prop): Ty {
    Inline(ObjectT([p], None))
  }

  lemma {:induction false} RefersAlone(decls: Program, p: Prop, n: string)
    ensures RefersTo(Compile(decls, Alone(p)), n) <==> RefersTo(CompileProp(decls, p), n)
    ensures Convertible(decls, Alone(p)) <==> ConvertibleProp(decls, p)
  {
    ObjectShape(decls, [p], None);
    InlineLayer(decls, ObjectT([p], None));
    hide Acyclic, Compile, CompileNode, CompileProp, ConvertibleProp;
    var s := CompileNode(decls, ObjectT([p], None));
    assert s.properties == [Property(p.name, CompileProp(decls, p))];
    assert s.properties[0] in s.properties;
  }

  lemma RefusedProp(decls: Program, props: seq<Prop>, index: Option<Ty>, p: Prop)
    requires p in props && Refused(decls, Alone(p))
    ensures Refused(decls, Inline(ObjectT(props, index)))
  {
    var s := CompileNode(decls, ObjectT(props, index));
    var k :| 0 <= k < |props| && props[k] == p;
    assert s.properties[k] in s.properties;
    forall n | RefersTo(Compile(decls, Alone(p)), n) ensures RefersTo(s, n) {
      RefersAlone(decls, p, n);
    }
    RefersAlone(decls, p, "");
    RefusedPart(decls, Inline(ObjectT(props, index)), Alone(p));
  }

  lemma RefusedPresent(decls: Program, p: Prop, m: Ty)
    requires if Complete(decls, p.ty) then m == p.ty else m in Present(decls, p.ty)
    requires Refused(decls, m)
    ensures Refused(decls, Alone(p))
  {
    RefersAlone(decls, p, "");
    forall n | RefersTo(Compile(decls, m), n) ensures RefersTo(Compile(decls, Alone(p)), n) {
      RefersAlone(decls, p, n);
      if !Complete(decls, p.ty) {
        PresentRefers(decls, p, m, n);
      }
    }
    RefusedPart(decls, Alone(p), m);
  }

  lemma {:induction false} PresentRefers(decls: Program, p: Prop, m: Ty, n: string)
    requires !Complete(decls, p.ty) && m in Present(decls, p.ty) && RefersTo(Compile(decls, m), n)
    ensures RefersTo(CompileProp(decls, p), n)
  {
    var present := Present(decls, p.ty);
    var schemas := seq(|present|, i requires 0 <= i < |present| =>
      PresentHeight(decls, p, present[i]);
      Compile(decls, present[i]));
    assert CompileProp(decls, p) == UnionOf(schemas);
    var k :| 0 <= k < |present| && present[k] == m;
    assert schemas[k] in schemas;
    UnionOfRefers(schemas, n);
  }

  // ----- the table while it is being filled

  ghost predicate Finished(decls: Program, components: Components, n: string, id: nat) {
    && n in components
    && Publishes(decls, n, id)
    && components[n] == CompileNode(decls, decls[id].node)
    && ConvertibleNode(decls, decls[id].node)
    && Resolves(components.Keys, components[n])
  }

  /** Conversion adds components and leaves the others as they were. */
  ghost predicate Extends(before: Components, after: Components) {
    before.Keys <= after.Keys && forall n | n in before :: after[n] == before[n]
  }

  lemma ExtendsTransitive(a: Components, b: Components, c: Components)
    requires Extends(a, b) && Extends(b, c)
    ensures Extends(a, c)
  {
  }

  /** The aliases without a component: what bounds the recursion through names. */
  ghost function Missing(decls: Decls, components: Components): set<nat> {
    set id | id in decls && decls[id].name.Some? && decls[id].name.value !in components
  }

  lemma MissingShrinks(decls: Program, before: Components, after: Components)
    requires Extends(before, after)
    ensures Missing(decls, after) <= Missing(decls, before)
  {
  }

  lemma PlaceShrinks(decls: Program, components: Components, id: nat, named: string)
    requires Publishes(decls, named, id) && named !in components
    ensures Missing(decls, components[named := Anything]) < Missing(decls, components)
  {
    assert id in Missing(decls, components) && id !in Missing(decls, components[named := Anything]);
  }

  lemma RemoveAdded(m: map<nat, string>, id: nat, name: string)
    requires id !in m
    ensures m[id := name] - {id} == m
  {
  }

  /** The placeholder of a new name does not outlive the conversion of its type. */
  lemma ReplacePlaceholder(before: Components, inside: Components, named: string, built: Schema)
    requires named !in before && Extends(before[named := Anything], inside)
    ensures Extends(before, inside[named := built])
    ensures inside[named := built].Keys == inside.Keys && named in inside
  {
  }

  lemma StillResolves(before: Components, after: Components, schemas: seq<Schema>)
    requires Extends(before, after) && forall s | s in schemas :: Resolves(before.Keys, s)
    ensures forall s | s in schemas :: Resolves(after.Keys, s)
  {
  }

  /** Every component is either the placeholder of an alias being converted or finished. */
  ghost predicate ValidTable(decls: Program, components: Components, open: map<nat, string>) {
    && (forall id | id in open :: Publishes(decls, open[id], id) && open[id] in components)
    && (forall n | n in components :: exists id ::
          Publishes(decls, n, id) && (id in open || Finished(decls, components, n, id)))
  }

  /** A name that has a component is answered by a reference to it. */
  lemma InTable(decls: Program, components: Components, open: map<nat, string>, id: nat)
    requires PrimsApart(decls) && ValidTable(decls, components, open)
    requires id in decls && decls[id].name.Some? && (id in open || decls[id].name.value in components)
    ensures decls[id].name.value in components && Compile(decls, Shared(id)) == Ref(decls[id].name.value)
    ensures id in open ==> open[id] == decls[id].name.value
    ensures Convertible(decls, Shared(id))
  {
    if id in open {
      assert Publishes(decls, open[id], id);
    }
    var other :| Publishes(decls, decls[id].name.value, other);
  }

  lemma FinishedGrows(decls: Program, components: Components, components': Components, n: string, id: nat)
    requires Finished(decls, components, n, id)
    requires components.Keys <= components'.Keys && components'[n] == components[n]
    ensures Finished(decls, components', n, id)
  {
  }

  lemma PlaceAlias(decls: Program, components: Components, open: map<nat, string>, id: nat, named: string)
    requires ValidTable(decls, components, open)
    requires Publishes(decls, named, id) && named !in components
    ensures ValidTable(decls, components[named := Anything], open[id := named])
  {
    hide Acyclic, Finished;
    var components', open' := components[named := Anything], open[id := named];
    forall n | n in components' ensures exists i ::
        Publishes(decls, n, i) && (i in open' || Finished(decls, components', n, i))
    {
      if n == named {
        assert Publishes(decls, n, id) && id in open';
      } else {
        var i :| Publishes(decls, n, i) && (i in open || Finished(decls, components, n, i));
        if i !in open {
          FinishedGrows(decls, components, components', n, i);
        }
        assert Publishes(decls, n, i) && (i in open' || Finished(decls, components', n, i));
      }
    }
  }

  lemma FinishedNow(decls: Program, components: Components, n: string, id: nat)
    requires Publishes(decls, n, id) && n in components
    requires components[n] == CompileNode(decls, decls[id].node) && ConvertibleNode(decls, decls[id].node)
    requires Resolves(components.Keys, components[n])
    ensures Finished(decls, components, n, id)
  {
  }

  lemma OtherName(decls: Program, n: string, i: nat, n': string, k: nat)
    requires Publishes(decls, n, i) && Publishes(decls, n', k) && n != n'
    ensures i != k
  {
  }

  lemma FinishAlias(decls: Program, components: Components, open: map<nat, string>, id: nat, built: Schema)
    requires ValidTable(decls, components, open) && id in open
    requires Publishes(decls, open[id], id)
    requires built == CompileNode(decls, decls[id].node) && ConvertibleNode(decls, decls[id].node)
    requires Resolves(components.Keys, built)
    ensures ValidTable(decls, components[open[id] := built], open - {id})
  {
    hide Acyclic, Finished, CompileNode, ConvertibleNode, Resolves, Publishes;
    var named := open[id];
    var components', open' := components[named := built], open - {id};
    assert components'.Keys == components.Keys;
    FinishedNow(decls, components', named, id);
    forall n | n in components' ensures exists i ::
        Publishes(decls, n, i) && (i in open' || Finished(decls, components', n, i))
    {
      var i :| Publishes(decls, n, i) && (i in open || Finished(decls, components, n, i));
      if n != named {
        OtherName(decls, n, i, named, id);
        if i !in open {
          FinishedGrows(decls, components, components', n, i);
        }
        assert Publishes(decls, n, i) && (i in open' || Finished(decls, components', n, i));
      } else {
        assert Publishes(decls, n, id) && Finished(decls, components', n, id);
      }
    }
  }

  /** How the recursion ended. */
  ghost function EndOf(r: Outcome, components: Components): Ending {
    if r.Converted? then Done(components.Keys) else Thrown
  }

  class Context {
    const decls: Program
    var components: Components
    /** The aliases being converted; their components are placeholders. */
    var open: map<nat, string>

    ghost predicate Valid()
      reads this
    {
      WellFormedDecls(decls) && PrimsApart(decls) && ValidTable(decls, components, open)
    }

    constructor (decls: Program)
      requires WellFormedDecls(decls) && PrimsApart(decls)
      ensures Valid() && this.decls == decls && components == map[] && open == map[]
    {
      this.decls := decls;
      components, open := map[], map[];
    }

    /** `convert`. */
    method Convert(t: Ty) returns (r: Outcome)
      requires Valid() && WellFormed(decls, t)
      modifies this
      decreases Missing(decls, components), Height(decls, t), t, 3
      ensures r.Converted? ==> Valid() && open == old(open) && Extends(old(components), components)
      ensures r.Converted? ==> r.schema == Compile(decls, t) && Resolves(components.Keys, r.schema)
      ensures r.Converted? ==> Convertible(decls, t)
      ensures r.Unconvertible? ==> Refused(decls, t)
      ensures Runs(decls, old(components).Keys, t, EndOf(r, components))
    {
      hide Acyclic, ValidTable, CompileNode, ConvertibleNode, PrimsApart, Refused, Runs, NodeRuns;
      if t.Inline? {
        InlineLayer(decls, t.node);
        r := ConvertStructural(t.node);
        InlineRun(decls, old(components).Keys, t.node, EndOf(r, components));
        return;
      }
      var id := t.id;
      if decls[id].name.Some? {
        var named := decls[id].name.value;
        if id in open {
          InTable(decls, components, open, id);
          KnownRun(decls, components.Keys, id);
          return Converted(Ref(open[id]));
        }
        if named in components {
          InTable(decls, components, open, id);
          KnownRun(decls, components.Keys, id);
          return Converted(Ref(named));
        }
      }
      if decls[id].node.Prim? {
        PrimRun(decls, components.Keys, id);
        return Converted(CompilePrim(decls[id].node.prim));
      }
      if decls[id].name.Some? {
        r := ConvertNamed(id, decls[id].name.value);
        return;
      }
      OpenedHeight(decls, id);
      r := ConvertStructural(decls[id].node);
      UnnamedRun(decls, old(components).Keys, id, EndOf(r, components));
      RefusedUnnamed(decls, id);
    }

    /** The rest of `convert` for a name met for the first time: a placeholder, then the component. */
    method ConvertNamed(id: nat, named: string) returns (r: Outcome)
      requires Valid() && Publishes(decls, named, id) && named !in components && id !in open
      modifies this
      decreases Missing(decls, components), 0, Shared(id), 2
      ensures r.Converted? ==> Valid() && open == old(open) && Extends(old(components), components)
      ensures r.Converted? ==> r.schema == Compile(decls, Shared(id)) && Resolves(components.Keys, r.schema)
      ensures r.Unconvertible? ==> Refused(decls, Shared(id))
      ensures Runs(decls, old(components).Keys, Shared(id), EndOf(r, components))
    {
      assert Compile(decls, Shared(id)) == Ref(named);
      assert id in decls && !decls[id].node.Prim? && decls[id].name == Some(named);
      assert WellFormedNode(decls, decls[id].node);
      hide Acyclic, Missing, ValidTable, Compile, CompileNode, ConvertibleNode, NodeHeight, PrimsApart,
        WellFormedDecls, WellFormedNode, Refused, Extends, Publishes, Resolves, Runs, NodeRuns;
      PlaceAlias(decls, components, open, id, named);
      PlaceShrinks(decls, components, id, named);
      open := open[id := named];
      components := components[named := Anything];
      assert components.Keys == old(components).Keys + {named};
      var built := ConvertStructural(decls[id].node);
      NamedRun(decls, old(components).Keys, named, id, EndOf(built, components));
      if built.Unconvertible? {
        RefusedAlias(decls, id);
        return Unconvertible;
      }
      FinishAlias(decls, components, open, id, built.schema);
      ReplacePlaceholder(old(components), components, named, built.schema);
      RefResolves(components.Keys, named);
      components := components[named := built.schema];
      RemoveAdded(old(open), id, named);
      open := open - {id};
      return Converted(Ref(named));
    }

    /** `convertStructural`, with the primitives that come before it. */
    method ConvertStructural(node: Node) returns (r: Outcome)
      requires Valid() && WellFormedNode(decls, node)
      modifies this
      decreases Missing(decls, components), NodeHeight(decls, node), node, 2
      ensures r.Converted? ==> Valid() && open == old(open) && Extends(old(components), components)
      ensures r.Converted? ==> r.schema == CompileNode(decls, node) && Resolves(components.Keys, r.schema)
      ensures r.Converted? ==> ConvertibleNode(decls, node)
      ensures r.Unconvertible? ==> Refused(decls, Inline(node))
      ensures NodeRuns(decls, old(components).Keys, node, EndOf(r, components))
    {
      hide Runs, NodeRuns, AllRun;
      ChildHeight(decls, node);
      NoneRun(decls, components.Keys);
      match node
      case Prim(p) =>
        NodeRun(decls, components.Keys, node, Done(components.Keys));
        return Converted(CompilePrim(p));
      case Opaque =>
        NodeRun(decls, components.Keys, node, Done(components.Keys));
        RefusedNode(decls, node);
        return Unconvertible;
      case Union(members) => r := ConvertUnion(members, node);
      case ArrayT(element) =>
        r := ConvertElement(element, node);
      case TupleT(elements) =>
        if elements == [] {
          NodeRun(decls, components.Keys, node, Done(components.Keys));
          assert forall n :: !RefersTo(ArrayOf(Anything), n);
          return Converted(ArrayOf(Anything));
        }
        r := ConvertElement(elements[0], node);
      case ObjectT(props, index) => r := ConvertObject(props, index, node);
    }

    /** The first type argument of an array or a tuple. */
    method ConvertElement(element: Ty, ghost node: Node) returns (r: Outcome)
      requires Valid() && WellFormedNode(decls, node)
      requires node == ArrayT(element) || (node.TupleT? && node.elements != [] && node.elements[0] == element)
      modifies this
      decreases Missing(decls, components), NodeHeight(decls, node), node, 0
      ensures r.Converted? ==> Valid() && open == old(open) && Extends(old(components), components)
      ensures r.Converted? ==> r.schema == CompileNode(decls, node) && Resolves(components.Keys, r.schema)
      ensures r.Converted? ==> ConvertibleNode(decls, node)
      ensures r.Unconvertible? ==> Refused(decls, Inline(node))
      ensures NodeRuns(decls, old(components).Keys, node, EndOf(r, components))
    {
      hide Runs, NodeRuns, AllRun;
      ChildHeight(decls, node);
      r := Convert(element);
      One(decls, old(components).Keys, element, EndOf(r, components));
      NodeRun(decls, old(components).Keys, node, EndOf(r, components));
      if r.Unconvertible? {
        RefusedPart(decls, Inline(node), element);
        return;
      }
      r := Converted(ArrayOf(r.schema));
    }

    /** `convertUnion`: the members in order, sharing the table. */
    method ConvertUnion(members: seq<Ty>, ghost node: Node) returns (r: Outcome)
      requires node == Union(members) && Valid() && WellFormedNode(decls, node)
      modifies this
      decreases Missing(decls, components), NodeHeight(decls, node), node, 0
      ensures r.Converted? ==> Valid() && open == old(open) && Extends(old(components), components)
      ensures r.Converted? ==> r.schema == CompileNode(decls, node) && Resolves(components.Keys, r.schema)
      ensures r.Converted? ==> ConvertibleNode(decls, node)
      ensures r.Unconvertible? ==> Refused(decls, Inline(node))
      ensures NodeRuns(decls, old(components).Keys, node, EndOf(r, components))
    {
      ChildHeight(decls, node);
      hide Runs, NodeRuns, AllRun;
      NoneRun(decls, components.Keys);
      assert members[..0] == [];
      var parts: seq<Schema> := [];
      for i := 0 to |members|
        invariant Valid() && open == old(open) && Extends(old(components), components)
        invariant |parts| == i
        invariant forall k | 0 <= k < i :: parts[k] == Compile(decls, members[k])
        invariant forall k | 0 <= k < i :: Convertible(decls, members[k]) && Resolves(components.Keys, parts[k])
        invariant AllRun(decls, old(components).Keys, members[..i], Done(components.Keys))
      {
        ghost var before := components.Keys;
        var part := Convert(members[i]);
        MemberRun(decls, old(components).Keys, members, i, before, EndOf(part, components));
        if part.Unconvertible? {
          RefusedMember(decls, members, members[i]);
          return Unconvertible;
        }
        parts := parts + [part.schema];
      }
      var schema := BuildUnion(parts);
      assert parts == seq(|members|, i requires 0 <= i < |members| => Compile(decls, members[i]));
      UnionResolves(components.Keys, parts);
      assert members[..|members|] == members;
      NodeRun(decls, old(components).Keys, node, Done(components.Keys));
      return Converted(schema);
    }

    /** One turn of the property loop of `convertObject`: undefined is dropped, what is left converted. */
    method ConvertProp(p: Prop) returns (r: Outcome)
      requires Valid() && WellFormed(decls, p.ty)
      modifies this
      decreases Missing(decls, components), PropHeight(decls, p), p, 0
      ensures r.Converted? ==> Valid() && open == old(open) && Extends(old(components), components)
      ensures r.Converted? ==> r.schema == CompileProp(decls, p) && Resolves(components.Keys, r.schema)
      ensures r.Converted? ==> ConvertibleProp(decls, p)
      ensures r.Unconvertible? ==> Refused(decls, Alone(p))
      ensures AllRun(decls, old(components).Keys, PropCalls(decls, p), EndOf(r, components))
    {
      hide Runs, AllRun;
      PropHeightBounds(decls, p);
      var present := Present(decls, p.ty);
      if Complete(decls, p.ty) {
        r := Convert(p.ty);
        One(decls, old(components).Keys, p.ty, EndOf(r, components));
        if r.Unconvertible? {
          RefusedPresent(decls, p, p.ty);
        }
        return;
      }
      PresentWellFormed(decls, p);
      hide Acyclic, Compile, CompileProp, Convertible, ConvertibleProp, ValidTable, Height, PropHeight, Present,
        Complete,
        PrimsApart, WellFormed, WellFormedDecls, Refused, Resolves, Missing, Extends;
      NoneRun(decls, components.Keys);
      assert present[..0] == [];
      var parts: seq<Schema> := [];
      for i := 0 to |present|
        invariant Valid() && open == old(open) && Extends(old(components), components)
        invariant |parts| == i
        invariant forall k | 0 <= k < i :: parts[k] == Compile(decls, present[k]) && Convertible(decls, present[k])
        invariant forall s | s in parts :: Resolves(components.Keys, s)
        invariant AllRun(decls, old(components).Keys, present[..i], Done(components.Keys))
      {
        PresentHeight(decls, p, present[i]);
        MissingShrinks(decls, old(components), components);
        ghost var before := components;
        var part := Convert(present[i]);
        MemberRun(decls, old(components).Keys, present, i, before.Keys, EndOf(part, components));
        if part.Unconvertible? {
          RefusedPresent(decls, p, present[i]);
          return Unconvertible;
        }
        ExtendsTransitive(old(components), before, components);
        StillResolves(before, components, parts);
        parts := parts + [part.schema];
      }
      assert present[..|present|] == present;
      var schema := BuildUnion(parts);
      PropUnion(decls, p, parts);
      UnionResolves(components.Keys, parts);
      return Converted(schema);
    }

    /** The property loop of `convertObject`. */
    method ConvertProps(props: seq<Prop>, ghost index: Option<Ty>)
      returns (ok: bool, properties: seq<Property>, required: seq<string>)
      requires Valid() && forall p | p in props :: WellFormed(decls, p.ty)
      modifies this
      decreases Missing(decls, components), NodeHeight(decls, ObjectT(props, index)), ObjectT(props, index), 0
      ensures ok ==> Valid() && open == old(open) && Extends(old(components), components) && |properties| == |props|
      ensures ok ==> forall k | 0 <= k < |props| ::
        && properties[k] == Property(props[k].name, CompileProp(decls, props[k]))
        && ConvertibleProp(decls, props[k])
        && Resolves(components.Keys, properties[k].schema)
      ensures ok ==> required == RequiredNames(decls, props)
      ensures !ok ==> Refused(decls, Inline(ObjectT(props, index)))
      ensures
        AllRun(decls, old(components).Keys, PropsCalls(decls, props), if ok then Done(components.Keys) else Thrown)
    {
      ChildHeight(decls, ObjectT(props, index));
      hide Acyclic, ValidTable, CompileNode, Compile, CompileProp, Convertible, ConvertibleNode, ConvertibleProp,
        NodeHeight, Height, PropHeight, PrimsApart, WellFormedDecls, WellFormed, Refused, Required, AllRun, PropCalls,
        RequiredNames, PropsCalls;
      NoProps(decls, components.Keys);
      assert props[..0] == [];
      properties, required := [], [];
      for i := 0 to |props|
        invariant Valid() && open == old(open) && Extends(old(components), components)
        invariant |properties| == i
        invariant forall k | 0 <= k < i :: properties[k] == Property(props[k].name, CompileProp(decls, props[k]))
        invariant forall k | 0 <= k < i ::
          ConvertibleProp(decls, props[k]) && Resolves(components.Keys, properties[k].schema)
        invariant required == RequiredNames(decls, props[..i])
        invariant AllRun(decls, old(components).Keys, PropsCalls(decls, props[..i]), Done(components.Keys))
      {
        assert props[i] in props;
        ghost var before := components.Keys;
        var converted := ConvertProp(props[i]);
        PropRun(decls, old(components).Keys, props, i, before, EndOf(converted, components));
        if converted.Unconvertible? {
          RefusedProp(decls, props, index, props[i]);
          ok := false;
          return;
        }
        properties := properties + [Property(props[i].name, converted.schema)];
        RequiredNext(decls, props, i);
        if Required(decls, props[i]) {
          required := required + [props[i].name];
        }
      }
      assert props[..|props|] == props;
      ok := true;
    }

    /** `convertObject`. */
    method ConvertObject(props: seq<Prop>, index: Option<Ty>, ghost node: Node) returns (r: Outcome)
      requires node == ObjectT(props, index) && Valid() && WellFormedNode(decls, node)
      modifies this
      decreases Missing(decls, components), NodeHeight(decls, node), node, 1
      ensures r.Converted? ==> Valid() && open == old(open) && Extends(old(components), components)
      ensures r.Converted? ==> r.schema == CompileNode(decls, node) && Resolves(components.Keys, r.schema)
      ensures r.Converted? ==> ConvertibleNode(decls, node)
      ensures r.Unconvertible? ==> Refused(decls, Inline(node))
      ensures NodeRuns(decls, old(components).Keys, node, EndOf(r, components))
    {
      ChildHeight(decls, node);
      ObjectShape(decls, props, index);
      ObjectConvertible(decls, props, index);
      hide Acyclic, ValidTable, CompileNode, Compile, CompileProp, Convertible, ConvertibleNode, ConvertibleProp,
        NodeHeight, Height, PropHeight, PrimsApart, WellFormedDecls, Refused, Runs, NodeRuns, AllRun, PropsCalls;
      var ok, properties, required := ConvertProps(props, index);
      ghost var names := components.Keys;
      ghost var end := if ok then Done(names) else Thrown;
      if !ok {
        ObjectRun(decls, old(components).Keys, node, end, end);
        return Unconvertible;
      }
      assert properties == CompileNode(decls, node).properties;
      var additional := None;
      if index.Some? {
        var extra := Convert(index.value);
        ObjectRun(decls, old(components).Keys, node, end, EndOf(extra, components));
        if extra.Unconvertible? {
          RefusedIndex(decls, props, index.value);
          return Unconvertible;
        }
        additional := Some(extra.schema);
      } else {
        ObjectRun(decls, old(components).Keys, node, end, end);
        if properties == [] {
          RefusedNode(decls, node);
          return Unconvertible;
        }
      }
      ObjectResolves(components.Keys, properties, required, additional);
      return Converted(ObjectOf(properties, required, additional));
    }
  }

  // ----- the runs of loops

  lemma MemberRun(decls: Decls, names: set<string>, ts: seq<Ty>, i: nat, between: set<string>, end: Ending)
    requires i < |ts| && AllRun(decls, names, ts[..i], Done(between)) && Runs(decls, between, ts[i], end)
    ensures AllRun(decls, names, ts[..i + 1], end)
    ensures end == Thrown ==> AllRun(decls, names, ts, end)
    ensures end == Thrown && !Refusal(Union(ts)) ==> NodeRuns(decls, names, Union(ts), end)
  {
    hide Runs, AllRun, NodeRuns;
    AndThen(decls, names, ts[..i], between, ts[i], end);
    assert ts[..i + 1] == ts[..i] + [ts[i]];
    if end == Thrown {
      assert ts == ts[..i + 1] + ts[i + 1..];
      Then(decls, names, ts[..i + 1], end, ts[i + 1..], end);
      NodeRun(decls, names, Union(ts), end);
    }
  }

  lemma NoProps(decls: Program, names: set<string>)
    ensures AllRun(decls, names, PropsCalls(decls, []), Done(names)) && RequiredNames(decls, []) == []
  {
    NoneRun(decls, names);
  }

  lemma {:induction false} PropsCallsAppend(decls: Decls, a: seq<Prop>, b: seq<Prop>)
    ensures PropsCalls(decls, a + b) == PropsCalls(decls, a) + PropsCalls(decls, b)
    decreases |b|
  {
    hide PropCalls;
    if b == [] {
      assert a + b == a;
    } else {
      var n := |b| - 1;
      assert (a + b)[..|a + b| - 1] == a + b[..n];
      PropsCallsAppend(decls, a, b[..n]);
    }
  }

  lemma PropRun(decls: Decls, names: set<string>, props: seq<Prop>, i: nat, between: set<string>, end: Ending)
    requires i < |props| && AllRun(decls, names, PropsCalls(decls, props[..i]), Done(between))
    requires AllRun(decls, between, PropCalls(decls, props[i]), end)
    ensures AllRun(decls, names, PropsCalls(decls, props[..i + 1]), end)
    ensures end == Thrown ==> AllRun(decls, names, PropsCalls(decls, props), end)
  {
    hide AllRun, PropCalls;
    PropsCallsNext(decls, props, i);
    Then(decls, names, PropsCalls(decls, props[..i]), Done(between), PropCalls(decls, props[i]), end);
    if end == Thrown {
      assert props == props[..i + 1] + props[i + 1..];
      PropsCallsAppend(decls, props[..i + 1], props[i + 1..]);
      Then(decls, names, PropsCalls(decls, props[..i + 1]), end, PropsCalls(decls, props[i + 1..]), end);
    }
  }

  /** An object: its properties, then its index signature if they went through. */
  lemma ObjectRun(decls: Decls, names: set<string>, node: Node, first: Ending, end: Ending)
    requires node.ObjectT? && AllRun(decls, names, PropsCalls(decls, node.props), first)
    requires if first.Done? && node.index.Some? then Runs(decls, first.names, node.index.value, end) else end == first
    ensures NodeRuns(decls, names, node, if end.Done? && Refusal(node) then Thrown else end)
  {
    hide Runs, AllRun, NodeRuns, PropsCalls;
    var props := PropsCalls(decls, node.props);
    var rest := if node.index.Some? then [node.index.value] else [];
    if first.Done? && node.index.Some? {
      One(decls, first.names, node.index.value, end);
    } else if first.Done? {
      NoneRun(decls, first.names);
    }
    Then(decls, names, props, first, rest, end);
    NodeRun(decls, names, node, end);
  }

  lemma PrimRun(decls: Decls, names: set<string>, id: nat)
    requires id in decls && decls[id].node.Prim?
    ensures Runs(decls, names, Shared(id), Done(names))
  {
    if decls[id].name.Some? {
      KnownRun(decls, names, id);
    } else {
      NoneRun(decls, names);
      NodeRun(decls, names, decls[id].node, Done(names));
      UnnamedRun(decls, names, id, Done(names));
    }
  }

  lemma RefusedUnnamed(decls: Program, id: nat)
    requires Unnamed(decls, id)
    ensures Refused(decls, Inline(decls[id].node)) ==> Refused(decls, Shared(id))
    ensures Compile(decls, Shared(id)) == CompileNode(decls, decls[id].node)
    ensures Convertible(decls, Shared(id)) <==> ConvertibleNode(decls, decls[id].node)
  {
    if Refused(decls, Inline(decls[id].node)) {
      RefusedPart(decls, Shared(id), Inline(decls[id].node));
    }
  }

  lemma RequiredNext(decls: Program, props: seq<Prop>, i: nat)
    requires i < |props|
    ensures RequiredNames(decls, props[..i + 1]) ==
      RequiredNames(decls, props[..i]) + if Required(decls, props[i]) then [props[i].name] else []
  {
    hide Required;
    assert props[..i + 1][..i] == props[..i];
  }

  lemma RefResolves(names: set<string>, n: string)
    requires n in names
    ensures Resolves(names, Ref(n))
  {
  }

  lemma PresentWellFormed(decls: Program, p: Prop)
    requires WellFormedDecls(decls) && WellFormed(decls, p.ty)
    ensures forall m | m in Present(decls, p.ty) :: WellFormed(decls, m)
  {
  }

  lemma {:induction false} PropUnion(decls: Program, p: Prop, parts: seq<Schema>)
    requires !Complete(decls, p.ty) && |parts| == |Present(decls, p.ty)|
    requires forall k | 0 <= k < |parts| ::
      parts[k] == Compile(decls, Present(decls, p.ty)[k]) && Convertible(decls, Present(decls, p.ty)[k])
    ensures CompileProp(decls, p) == UnionOf(parts) && ConvertibleProp(decls, p)
  {
    var present := Present(decls, p.ty);
    assert parts == seq(|present|, i requires 0 <= i < |present| =>
      PresentHeight(decls, p, present[i]);
      Compile(decls, present[i]));
  }

  lemma UnionResolves(names: set<string>, parts: seq<Schema>)
    requires forall s | s in parts :: Resolves(names, s)
    ensures Resolves(names, UnionOf(parts))
  {
    forall n | RefersTo(UnionOf(parts), n) ensures n in names {
      UnionOfRefers(parts, n);
    }
  }

  lemma ObjectResolves(names: set<string>, qs: seq<Property>, required: seq<string>, additional: Option<Schema>)
    requires forall k | 0 <= k < |qs| :: Resolves(names, qs[k].schema)
    requires additional.Some? ==> Resolves(names, additional.value)
    ensures Resolves(names, ObjectOf(qs, required, additional))
  {
  }

  lemma ObjectConvertible(decls: Program, props: seq<Prop>, index: Option<Ty>)
    ensures ConvertibleNode(decls, ObjectT(props, index))
       <==> (forall k | 0 <= k < |props| :: ConvertibleProp(decls, props[k]))
            && (if index.Some? then Convertible(decls, index.value) else props != [])
  {
    assert forall p :: p in props <==> exists k | 0 <= k < |props| :: props[k] == p;
  }

  lemma {:induction false} RefusedAlias(decls: Program, id: nat)
    requires id in decls && decls[id].name.Some? && !decls[id].node.Prim? && Refused(decls, Inline(decls[id].node))
    ensures Refused(decls, Shared(id))
  {
    var path :| Blocked(decls, Inline(decls[id].node), path);
    assert Blocked(decls, Shared(id), [id] + path) by {
      assert ([id] + path)[1..] == path;
    }
  }
}
