/** The response types the converter reads out of the TypeScript program, and the values they have. */
module Types {
  import opened Wrappers
  import opened JsonValues

  datatype Prim =
    | StringLit(s: string) | NumberLit(n: real) | BooleanLit(b: bool)
    | StringT | NumberT | BooleanT | NullT | UndefinedT | VoidT | NeverT

  /** A use of a type: one that may be met again, known by its identity, or one written in place. */
  datatype Ty = Shared(id: nat) | Inline(node: Node)

  /** `Opaque` stands for what the converter refuses: any, unknown, bigint, symbols, functions, bytes. */
  datatype Node =
    | Prim(prim: Prim)
    | Union(members: seq<Ty>)
    | ArrayT(element: Ty)
    | TupleT(elements: seq<Ty>)
    | ObjectT(props: seq<Prop>, index: Option<Ty>)
    | Opaque

  datatype Prop = Prop(name: string, ty: Ty, optional: bool)

  /**
   * A type with an identity. It has a name if it has an alias that can be published; two aliases of
   * different modules may carry one name. A recursive type that has been through a flattened union
   * has none.
   */
  datatype Decl = Decl(name: Option<string>, node: Node)

  type Decls = map<nat, Decl>

  /** A publishable name and the type it is the name of. */
  ghost predicate Publishes(decls: Decls, n: string, id: nat) {
    id in decls && decls[id].name == Some(n) && !decls[id].node.Prim?
  }

  function Resolve(decls: Decls, t: Ty): Node {
    match t
    case Inline(node) => node
    case Shared(id) => if id in decls then decls[id].node else Opaque
  }

  predicate IsUndefined(decls: Decls, t: Ty) {
    Resolve(decls, t) == Prim(UndefinedT)
  }

  /** The members of a property's type, the type itself when it is no union. */
  function Members(decls: Decls, t: Ty): seq<Ty> {
    var node := Resolve(decls, t);
    if node.Union? then node.members else [t]
  }

  function Select(ts: seq<Ty>, keep: Ty -> bool): (r: seq<Ty>)
    ensures forall t :: t in r <==> t in ts && keep(t)
    ensures |r| <= |ts|
    ensures |r| == |ts| <==> forall t :: t in ts ==> keep(t)
    ensures |r| == |ts| ==> r == ts
  {
    if ts == [] then []
    else
      var rest := Select(ts[1..], keep);
      assert ts == [ts[0]] + ts[1..];
      if keep(ts[0]) then [ts[0]] + rest else rest
  }

  /** What is left of a property's type when the key is there. */
  function Present(decls: Decls, t: Ty): seq<Ty> {
    Select(Members(decls, t), m => !IsUndefined(decls, m))
  }

  /** No undefined was dropped, so the property's type is converted whole. */
  predicate Complete(decls: Decls, t: Ty) {
    |Present(decls, t)| == |Members(decls, t)|
  }

  predicate Required(decls: Decls, p: Prop) {
    !p.optional && Complete(decls, p.ty)
  }

  /** Being undefined is one of the ways to be of this type. Members of unions are not unions. */
  predicate Admits(decls: Decls, t: Ty, prims: set<Prim>) {
    exists m :: m in Members(decls, t) && Resolve(decls, m).Prim? && Resolve(decls, m).prim in prims
  }

  predicate AdmitsUndefined(decls: Decls, t: Ty) {
    Admits(decls, t, {UndefinedT, VoidT})
  }

  predicate AdmitsNull(decls: Decls, t: Ty) {
    Admits(decls, t, {NullT})
  }

  function PropNames(props: seq<Prop>): set<string> {
    set p | p in props :: p.name
  }

  predicate PrimHas(p: Prim, v: Js) {
    match p
    case StringLit(s) => v == Str(s)
    case NumberLit(n) => v == Num(n)
    case BooleanLit(b) => v == Bool(b)
    case StringT => v.Str?
    case NumberT => v.Num?
    case BooleanT => v.Bool?
    case NullT => v == Null
    case UndefinedT => v == Undefined
    case VoidT => v == Undefined
    case NeverT => false
  }

  /**
   * The values of a type. Object types are open, as TypeScript's are: a value may have members its
   * type does not name, and an index signature speaks about those. (TypeScript itself makes the
   * named members agree with the index signature.) An absent member reads as undefined.
   */
  ghost predicate HasType(decls: Decls, v: Js, t: Ty)
    decreases v, if Resolve(decls, t).Union? then 1 else 0
  {
    match Resolve(decls, t)
    case Prim(p) => PrimHas(p, v)
    case Union(members) => exists m | m in members && !Resolve(decls, m).Union? :: HasType(decls, v, m)
    case ArrayT(element) => v.Arr? && forall x | x in v.items :: HasType(decls, x, element)
    case TupleT(elements) =>
      && v.Arr?
      && |v.items| == |elements|
      && forall i | 0 <= i < |elements| :: HasType(decls, v.items[i], elements[i])
    case ObjectT(props, index) =>
      && v.Obj?
      && (forall p | p in props ::
            if p.name in v.members then HasType(decls, v.members[p.name], p.ty)
            else p.optional || AdmitsUndefined(decls, p.ty))
      && (index.Some? ==>
            forall k | k in v.members && k !in PropNames(props) :: HasType(decls, v.members[k], index.value))
    case Opaque => false
  }

  // ----- what the checker guarantees of every type

  predicate WellFormed(decls: Decls, t: Ty) {
    match t
    case Shared(id) => id in decls
    case Inline(node) => WellFormedNode(decls, node)
  }

  /** Identities are known, unions are flat and not empty, members of one object have distinct names. */
  predicate WellFormedNode(decls: Decls, node: Node) {
    match node
    case Prim(_) => true
    case Opaque => true
    case Union(members) =>
      members != [] && forall m | m in members :: WellFormed(decls, m) && !Resolve(decls, m).Union?
    case ArrayT(element) => WellFormed(decls, element)
    case TupleT(elements) => forall e | e in elements :: WellFormed(decls, e)
    case ObjectT(props, index) =>
      && (forall p | p in props :: WellFormed(decls, p.ty))
      && (forall i, k | 0 <= i < k < |props| :: props[i].name != props[k].name)
      && (index.Some? ==> WellFormed(decls, index.value))
  }

  predicate WellFormedDecls(decls: Decls) {
    forall id | id in decls :: WellFormedNode(decls, decls[id].node)
  }

  /** Published names tell types apart; the converter keys its components by them. */
  predicate UniqueNames(decls: Decls) {
    forall i, k | i in decls && k in decls && decls[i].name == decls[k].name && decls[i].name.Some? :: i == k
  }

  /** No other type has the name of one of these. */
  predicate UniqueIn(decls: Decls, ids: set<nat>) {
    forall i, k | i in ids && i in decls && k in decls && decls[i].name == decls[k].name && decls[i].name.Some? ::
      i == k
  }

  /** No name is that of a primitive and of something else. (The checker names no primitives.) */
  predicate PrimsApart(decls: Decls) {
    forall i, k | i in decls && k in decls && decls[i].name == decls[k].name && decls[i].name.Some? ::
      decls[i].node.Prim? <==> decls[k].node.Prim?
  }

  // ----- termination

  /** A use of this type is converted where it stands, for want of a name to refer to. */
  predicate Unnamed(decls: Decls, id: nat) {
    id in decls && decls[id].name.None? && !decls[id].node.Prim?
  }

  /** A property of this type is converted member by member, so its name does not stop a cycle there. */
  predicate Bypassed(decls: Decls, id: nat) {
    id in decls && !Complete(decls, Shared(id))
  }

  function MaxOf(s: seq<nat>): (r: nat)
    ensures forall x | x in s :: x <= r
  {
    if s == [] then 0
    else
      var rest := MaxOf(s[1..]);
      assert s == [s[0]] + s[1..];
      if s[0] >= rest then s[0] else rest
  }

  function At(rank: map<nat, nat>, id: nat): nat {
    if id in rank then rank[id] else 0
  }

  /** One more than the highest rank that converting this type opens up in passing; 0 for none. */
  function HeightIn(decls: Decls, rank: map<nat, nat>, t: Ty): nat {
    match t
    case Shared(id) => if Unnamed(decls, id) then At(rank, id) + 1 else 0
    case Inline(node) => NodeHeightIn(decls, rank, node)
  }

  function NodeHeightIn(decls: Decls, rank: map<nat, nat>, node: Node): nat {
    match node
    case Prim(_) => 0
    case Opaque => 0
    case Union(members) =>
      MaxOf(seq(|members|, i requires 0 <= i < |members| => HeightIn(decls, rank, members[i])))
    case ArrayT(element) => HeightIn(decls, rank, element)
    case TupleT(elements) => if elements == [] then 0 else HeightIn(decls, rank, elements[0])
    case ObjectT(props, index) =>
      MaxOf(seq(|props|, i requires 0 <= i < |props| => PropHeightIn(decls, rank, props[i])) +
            [if index.Some? then HeightIn(decls, rank, index.value) else 0])
  }

  function PropHeightIn(decls: Decls, rank: map<nat, nat>, p: Prop): nat {
    MaxOf([HeightIn(decls, rank, p.ty), if p.ty.Shared? && Bypassed(decls, p.ty.id) then At(rank, p.ty.id) + 1 else 0])
  }

  /** Whatever is opened up in passing opens up only types of lower rank. */
  predicate Ranked(decls: Decls, rank: map<nat, nat>) {
    forall id | id in decls && (Unnamed(decls, id) || Bypassed(decls, id)) ::
      NodeHeightIn(decls, rank, decls[id].node) <= At(rank, id)
  }

  /** Opening types up in passing comes to an end. */
  ghost predicate Acyclic(decls: Decls) {
    exists rank: map<nat, nat> :: Ranked(decls, rank)
  }

  type Program = decls: Decls | Acyclic(decls) ghost witness (assert Ranked(map[], map[]); map[])

  ghost function Rank(decls: Program): (rank: map<nat, nat>)
    ensures Ranked(decls, rank)
  {
    var rank :| Ranked(decls, rank);
    rank
  }

  ghost function Height(decls: Program, t: Ty): nat {
    HeightIn(decls, Rank(decls), t)
  }

  ghost function NodeHeight(decls: Program, node: Node): nat {
    NodeHeightIn(decls, Rank(decls), node)
  }

  ghost function PropHeight(decls: Program, p: Prop): nat {
    PropHeightIn(decls, Rank(decls), p)
  }

  lemma PartsLower(decls: Decls, rank: map<nat, nat>, node: Node)
    ensures node.Union? ==>
      forall m | m in node.members :: HeightIn(decls, rank, m) <= NodeHeightIn(decls, rank, node)
    ensures node.TupleT? && node.elements != [] ==>
      HeightIn(decls, rank, node.elements[0]) <= NodeHeightIn(decls, rank, node)
    ensures node.ObjectT? ==>
      forall p | p in node.props :: PropHeightIn(decls, rank, p) <= NodeHeightIn(decls, rank, node)
    ensures node.ObjectT? && node.index.Some? ==>
      HeightIn(decls, rank, node.index.value) <= NodeHeightIn(decls, rank, node)
  {
    match node
    case Union(members) =>
      var hs := seq(|members|, i requires 0 <= i < |members| => HeightIn(decls, rank, members[i]));
      assert forall i | 0 <= i < |members| :: hs[i] in hs && hs[i] == HeightIn(decls, rank, members[i]);
    case ObjectT(props, index) =>
      var hs := seq(|props|, i requires 0 <= i < |props| => PropHeightIn(decls, rank, props[i]));
      var last := if index.Some? then HeightIn(decls, rank, index.value) else 0;
      assert last in hs + [last];
      assert forall i | 0 <= i < |props| :: hs[i] in hs + [last] && hs[i] == PropHeightIn(decls, rank, props[i]);
    case _ =>
  }

  lemma ChildHeight(decls: Program, node: Node)
    ensures node.Union? ==> forall m | m in node.members :: Height(decls, m) <= NodeHeight(decls, node)
    ensures node.TupleT? && node.elements != [] ==> Height(decls, node.elements[0]) <= NodeHeight(decls, node)
    ensures node.ObjectT? ==> forall p | p in node.props :: PropHeight(decls, p) <= NodeHeight(decls, node)
    ensures node.ObjectT? && node.index.Some? ==> Height(decls, node.index.value) <= NodeHeight(decls, node)
  {
    PartsLower(decls, Rank(decls), node);
  }

  lemma OpenedHeight(decls: Program, id: nat)
    ensures Unnamed(decls, id) ==> NodeHeight(decls, decls[id].node) < Height(decls, Shared(id))
  {
  }

  lemma PropHeightBounds(decls: Program, p: Prop)
    ensures Height(decls, p.ty) <= PropHeight(decls, p)
    ensures p.ty.Shared? && Bypassed(decls, p.ty.id) ==> NodeHeight(decls, decls[p.ty.id].node) < PropHeight(decls, p)
  {
    var rank := Rank(decls);
    var hs := [HeightIn(decls, rank, p.ty),
               if p.ty.Shared? && Bypassed(decls, p.ty.id) then At(rank, p.ty.id) + 1 else 0];
    assert hs[0] in hs && hs[1] in hs;
  }

  /** Converting a property's members is converting something lower, or something within the property. */
  lemma PresentHeight(decls: Program, p: Prop, m: Ty)
    requires !Complete(decls, p.ty) && m in Present(decls, p.ty)
    ensures Height(decls, m) < PropHeight(decls, p) || (Height(decls, m) <= PropHeight(decls, p) && m < p)
  {
    PropHeightBounds(decls, p);
    ChildHeight(decls, Resolve(decls, p.ty));
  }
}
