/** What the converter builds for a type, said without its mutable table. */
module Translation {
  import opened Wrappers
  import opened JsonValues
  import opened Schemas
  import opened Types
  import opened Unions

  function CompilePrim(p: Prim): Schema {
    match p
    case StringLit(s) => Const(LStr(s))
    case NumberLit(n) => Const(LNum(n))
    case BooleanLit(b) => Const(LBool(b))
    case StringT => TypeIs(StringKind)
    case NumberT => TypeIs(NumberKind)
    case BooleanT => TypeIs(BooleanKind)
    case NullT => TypeIs(NullKind)
    case UndefinedT => TypeIs(NullKind)
    case VoidT => TypeIs(NullKind)
    case NeverT => Nothing
  }

  /** A named type that is not primitive becomes a reference to its component, an unnamed one is written out. */
  function Compile(decls: Program, t: Ty): Schema
    decreases Height(decls, t), t, 0
  {
    match t
    case Inline(node) => CompileNode(decls, node)
    case Shared(id) =>
      if id !in decls then Nothing
      else if decls[id].node.Prim? then CompilePrim(decls[id].node.prim)
      else
        match decls[id].name
        case Some(n) => Ref(n)
        case None =>
          OpenedHeight(decls, id);
          CompileNode(decls, decls[id].node)
  }

  function CompileNode(decls: Program, node: Node): Schema
    decreases NodeHeight(decls, node), node, 0
  {
    ChildHeight(decls, node);
    match node
    case Prim(p) => CompilePrim(p)
    case Union(members) => UnionOf(seq(|members|, i requires 0 <= i < |members| => Compile(decls, members[i])))
    case ArrayT(element) => ArrayOf(Compile(decls, element))
    case TupleT(elements) => ArrayOf(if elements == [] then Anything else Compile(decls, elements[0]))
    case ObjectT(props, index) =>
      ObjectOf(
        seq(|props|, i requires 0 <= i < |props| => Property(props[i].name, CompileProp(decls, props[i]))),
        RequiredNames(decls, props),
        if index.Some? then Some(Compile(decls, index.value)) else None)
    case Opaque => Nothing
  }

  function CompileProp(decls: Program, p: Prop): Schema
    decreases PropHeight(decls, p), p, 1
  {
    PropHeightBounds(decls, p);
    if Complete(decls, p.ty) then Compile(decls, p.ty)
    else
      var present := Present(decls, p.ty);
      UnionOf(seq(|present|, i requires 0 <= i < |present| =>
        PresentHeight(decls, p, present[i]);
        Compile(decls, present[i])))
  }

  function RequiredNames(decls: Decls, props: seq<Prop>): (r: seq<string>)
    ensures forall k :: k in r <==> exists p :: p in props && p.name == k && Required(decls, p)
  {
    if props == [] then []
    else
      var earlier, last := RequiredNames(decls, props[..|props| - 1]), props[|props| - 1];
      assert props == props[..|props| - 1] + [last];
      if Required(decls, last) then earlier + [last.name] else earlier
  }

  // ----- what is refused

  /** Nothing met before the next reference is refused. Of a tuple only the first element is met. */
  predicate Convertible(decls: Program, t: Ty)
    decreases Height(decls, t), t, 0
  {
    match t
    case Inline(node) => ConvertibleNode(decls, node)
    case Shared(id) =>
      OpenedHeight(decls, id);
      Unnamed(decls, id) ==> ConvertibleNode(decls, decls[id].node)
  }

  predicate ConvertibleNode(decls: Program, node: Node)
    decreases NodeHeight(decls, node), node, 0
  {
    ChildHeight(decls, node);
    match node
    case Prim(_) => true
    case Opaque => false
    case Union(members) => forall m | m in members :: Convertible(decls, m)
    case ArrayT(element) => Convertible(decls, element)
    case TupleT(elements) => elements == [] || Convertible(decls, elements[0])
    case ObjectT(props, index) =>
      && (forall p | p in props :: ConvertibleProp(decls, p))
      && (if index.Some? then Convertible(decls, index.value) else props != [])
  }

  predicate ConvertibleProp(decls: Program, p: Prop)
    decreases PropHeight(decls, p), p, 1
  {
    PropHeightBounds(decls, p);
    if Complete(decls, p.ty) then Convertible(decls, p.ty)
    else
      forall m | m in Present(decls, p.ty) ::
        PresentHeight(decls, p, m);
        Convertible(decls, m)
  }
}
