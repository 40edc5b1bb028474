/** `Acyclic`, which the converter is given its termination by, is that no cycle of calls goes without a name. */
module Programs {
  import opened Wrappers
  import opened Types
  import opened Recursion
  import opened Termination

  // ----- with ranks there is no cycle

  /** What is called on is of lower rank, or written inside. */
  lemma CallLower(decls: Decls, rank: map<nat, nat>, t: Ty, u: Ty)
    requires Ranked(decls, rank) && Called(decls, t, u) && !Named(decls, t)
    ensures HeightIn(decls, rank, u) < HeightIn(decls, rank, t)
      || (HeightIn(decls, rank, u) <= HeightIn(decls, rank, t) && u < t)
  {
    var node := Resolve(decls, t);
    CallIsPart(decls, rank, node, u);
    if t.Shared? && !node.Prim? {
      assert Unnamed(decls, t.id);
    }
  }

  lemma CallIsPart(decls: Decls, rank: map<nat, nat>, node: Node, u: Ty)
    requires Ranked(decls, rank) && u in Calls(decls, node)
    ensures HeightIn(decls, rank, u) < NodeHeightIn(decls, rank, node)
         || (HeightIn(decls, rank, u) <= NodeHeightIn(decls, rank, node) && u < Inline(node))
  {
    PartsLower(decls, rank, node);
    match node
    case Union(members) =>
    case ArrayT(element) =>
    case TupleT(elements) =>
    case ObjectT(props, index) =>
      if u in PropsCalls(decls, props) {
        PropCallsIn(decls, props, u);
        var p :| p in props && u in PropCalls(decls, p);
        PropCallLower(decls, rank, p, u);
      }
  }

  lemma PropCallLower(decls: Decls, rank: map<nat, nat>, p: Prop, u: Ty)
    requires Ranked(decls, rank) && u in PropCalls(decls, p)
    ensures HeightIn(decls, rank, u) < PropHeightIn(decls, rank, p)
         || (HeightIn(decls, rank, u) <= PropHeightIn(decls, rank, p) && u < p)
  {
    var hs := [HeightIn(decls, rank, p.ty),
               if p.ty.Shared? && Bypassed(decls, p.ty.id) then At(rank, p.ty.id) + 1 else 0];
    assert hs[0] in hs && hs[1] in hs;
    if !Complete(decls, p.ty) {
      assert u in Members(decls, p.ty);
      hide Complete, Present;
      MemberLower(decls, rank, p.ty, u);
    }
  }

  lemma MemberLower(decls: Decls, rank: map<nat, nat>, t: Ty, u: Ty)
    requires Ranked(decls, rank) && u in Members(decls, t)
    ensures u == t || (t.Inline? && HeightIn(decls, rank, u) <= HeightIn(decls, rank, t) && u < t)
         || (t.Shared? && t.id in decls && HeightIn(decls, rank, u) <= NodeHeightIn(decls, rank, decls[t.id].node))
  {
    PartsLower(decls, rank, Resolve(decls, t));
  }

  ghost predicate Bounded(decls: Decls, t: Ty) {
    exists n: nat :: Within(decls, t, n)
  }

  lemma {:induction false} CommonBound(decls: Decls, ts: seq<Ty>) returns (n: nat)
    requires forall u | u in ts :: Bounded(decls, u)
    ensures forall u | u in ts :: Within(decls, u, n)
  {
    n := 0;
    if ts != [] {
      assert ts[0] in ts && forall u :: u in ts <==> u == ts[0] || u in ts[1..];
      assert Bounded(decls, ts[0]);
      var m: nat :| Within(decls, ts[0], m);
      n := CommonBound(decls, ts[1..]);
      var most := if m >= n then m else n;
      forall u | u in ts ensures Within(decls, u, most) {
        WithinMore(decls, u, if u in ts[1..] then n else m, most);
      }
      n := most;
    }
  }

  lemma {:induction false} RankedIsWithin(decls: Decls, rank: map<nat, nat>, t: Ty) returns (n: nat)
    requires Ranked(decls, rank)
    ensures Within(decls, t, n)
    decreases HeightIn(decls, rank, t), t
  {
    hide Ranked, HeightIn, Within;
    n := 0;
    if Named(decls, t) {
      NamedWithin(decls, t);
    } else {
      var ts := Calls(decls, Resolve(decls, t));
      forall u | u in ts ensures Bounded(decls, u) {
        CallLower(decls, rank, t, u);
        var m := RankedIsWithin(decls, rank, u);
        assert Within(decls, u, m);
      }
      n := CommonBound(decls, ts);
      OneFurther(decls, t, n);
      n := n + 1;
    }
  }

  lemma NamedWithin(decls: Decls, t: Ty)
    requires Named(decls, t)
    ensures Within(decls, t, 0)
  {
  }

  lemma OneFurther(decls: Decls, t: Ty, n: nat)
    requires forall u | u in Calls(decls, Resolve(decls, t)) :: Within(decls, u, n)
    ensures Within(decls, t, n + 1)
  {
  }

  lemma {:induction false} CycleNotWithin(decls: Decls, c: seq<Ty>, i: nat, n: nat)
    requires UnnamedCycle(decls, c) && i < |c| - 1
    ensures !Within(decls, c[i], n)
    decreases n
  {
    assert c[i] in c && Called(decls, c[i], c[i + 1]);
    if n > 0 {
      CycleNotWithin(decls, c, if i + 1 < |c| - 1 then i + 1 else 0, n - 1);
    }
  }

  // ----- and without a cycle there are ranks

  /** The ways from a node's parts have come to a name within `n` calls. Primitives are no way at all. */
  predicate PartsWithin(decls: Decls, node: Node, n: nat) {
    forall u | u in Calls(decls, node) && !Resolve(decls, u).Prim? :: Within(decls, u, n)
  }

  ghost function Least(decls: Decls, node: Node, n: nat): (r: nat)
    requires PartsWithin(decls, node, n)
    ensures PartsWithin(decls, node, r) && forall m: nat | PartsWithin(decls, node, m) :: r <= m
  {
    if n == 0 then 0
    else if PartsWithin(decls, node, n - 1) then Least(decls, node, n - 1)
    else
      assert forall m: nat | PartsWithin(decls, node, m) :: n <= m by { LeastIs(decls, node, n); }
      n
  }

  lemma LeastIs(decls: Decls, node: Node, n: nat)
    requires n > 0 && !PartsWithin(decls, node, n - 1)
    ensures forall m: nat | PartsWithin(decls, node, m) :: n <= m
  {
    forall m: nat | PartsWithin(decls, node, m) ensures n <= m {
      if m < n {
        forall u | u in Calls(decls, node) && !Resolve(decls, u).Prim? ensures Within(decls, u, n - 1) {
          WithinMore(decls, u, m, n - 1);
        }
      }
    }
  }

  /** Twice how far the parts go; a union ranks below an object that has it taken apart. */
  ghost predicate IsRank(decls: Decls, rank: map<nat, nat>) {
    rank.Keys == decls.Keys && forall id | id in decls ::
      var node := decls[id].node;
      if node.Prim? then rank[id] == 0
      else exists n: nat ::
        PartsWithin(decls, node, n) && rank[id] == 2 * Least(decls, node, n) + if node.Union? then 0 else 1
  }

  lemma RankAtMost(decls: Decls, rank: map<nat, nat>, id: nat, m: nat)
    requires IsRank(decls, rank) && id in decls && (decls[id].node.Prim? || PartsWithin(decls, decls[id].node, m))
    ensures rank[id] <= 2 * m + if decls[id].node.Union? || decls[id].node.Prim? then 0 else 1
  {
  }

  lemma {:induction false} HeightFits(decls: Decls, rank: map<nat, nat>, u: Ty, n: nat)
    requires IsRank(decls, rank) && (Resolve(decls, u).Prim? || Within(decls, u, n))
    ensures HeightIn(decls, rank, u) <= 2 * n
    decreases u, 1
  {
    var node := Resolve(decls, u);
    if !node.Prim? && !Named(decls, u) {
      assert PartsWithin(decls, node, n - 1);
      if u.Inline? {
        NodeFits(decls, rank, node, n - 1);
      } else if u.id in decls {
        RankAtMost(decls, rank, u.id, n - 1);
      }
    }
  }

  lemma {:induction false} NodeFits(decls: Decls, rank: map<nat, nat>, node: Node, m: nat)
    requires IsRank(decls, rank) && PartsWithin(decls, node, m)
    ensures NodeHeightIn(decls, rank, node) <= 2 * m + if node.Union? then 0 else 1
    decreases node, 0
  {
    hide IsRank, Within;
    match node
    case Prim(_) =>
    case Opaque =>
    case Union(members) =>
      forall i | 0 <= i < |members| ensures HeightIn(decls, rank, members[i]) <= 2 * m {
        HeightFits(decls, rank, members[i], m);
      }
      MaxAtMost(seq(|members|, i requires 0 <= i < |members| => HeightIn(decls, rank, members[i])), 2 * m);
    case ArrayT(element) => HeightFits(decls, rank, element, m);
    case TupleT(elements) =>
      if elements != [] {
        HeightFits(decls, rank, elements[0], m);
      }
    case ObjectT(props, index) =>
      forall i | 0 <= i < |props| ensures PropHeightIn(decls, rank, props[i]) <= 2 * m + 1 {
        forall u | u in PropCalls(decls, props[i]) ensures u in Calls(decls, node) {
          assert props[i] in props;
          PropCallsIn(decls, props, u);
        }
        PropFits(decls, rank, props[i], m);
      }
      if index.Some? {
        assert index.value in Calls(decls, node);
        HeightFits(decls, rank, index.value, m);
      }
      MaxAtMost(seq(|props|, i requires 0 <= i < |props| => PropHeightIn(decls, rank, props[i])) +
                [if index.Some? then HeightIn(decls, rank, index.value) else 0], 2 * m + 1);
  }

  lemma {:induction false} MaxAtMost(s: seq<nat>, n: nat)
    requires forall i | 0 <= i < |s| :: s[i] <= n
    ensures MaxOf(s) <= n
  {
    if s != [] {
      MaxAtMost(s[1..], n);
    }
  }

  lemma {:induction false} PropFits(decls: Decls, rank: map<nat, nat>, p: Prop, m: nat)
    requires IsRank(decls, rank)
    requires forall u | u in PropCalls(decls, p) && !Resolve(decls, u).Prim? :: Within(decls, u, m)
    ensures PropHeightIn(decls, rank, p) <= 2 * m + 1
    decreases p, 0
  {
    hide IsRank, Within;
    var node := Resolve(decls, p.ty);
    var more := if p.ty.Shared? && Bypassed(decls, p.ty.id) then At(rank, p.ty.id) + 1 else 0;
    if Complete(decls, p.ty) {
      HeightFits(decls, rank, p.ty, m);
    } else {
      assert PartsWithin(decls, node, m) by {
        forall u | u in Calls(decls, node) && !Resolve(decls, u).Prim? ensures Within(decls, u, m) {
          assert u in Members(decls, p.ty) && u in Present(decls, p.ty);
        }
      }
      if p.ty.Inline? {
        NodeFits(decls, rank, node, m);
      } else {
        RankAtMost(decls, rank, p.ty.id, m);
        RankHasAll(decls, rank, p.ty.id);
      }
    }
    MaxAtMost([HeightIn(decls, rank, p.ty), more], 2 * m + 1);
  }

  lemma RankHasAll(decls: Decls, rank: map<nat, nat>, id: nat)
    requires IsRank(decls, rank) && id in decls
    ensures At(rank, id) == rank[id]
  {
  }

  lemma IsRankRanks(decls: Decls, rank: map<nat, nat>)
    requires IsRank(decls, rank)
    ensures Ranked(decls, rank)
  {
    forall id | id in decls ensures NodeHeightIn(decls, rank, decls[id].node) <= At(rank, id) {
      var node := decls[id].node;
      if !node.Prim? {
        var n: nat :| PartsWithin(decls, node, n)
          && rank[id] == 2 * Least(decls, node, n) + if node.Union? then 0 else 1;
        NodeFits(decls, rank, node, Least(decls, node, n));
      }
    }
  }

  lemma NodePartsWithin(decls: Decls, node: Node) returns (n: nat)
    requires forall c :: !UnnamedCycle(decls, c)
    ensures PartsWithin(decls, node, n)
  {
    var t := Inline(node);
    assert !LoopFrom(decls, t);
    NoLoopIsWithin(decls, t);
    n := |Universe(decls, t)|;
    forall u | u in Calls(decls, node) ensures Within(decls, u, n) {
      CalledWithin(decls, t, u, n);
    }
  }

  ghost function RankFor(decls: Decls): map<nat, nat>
    requires forall id | id in decls :: exists n: nat :: PartsWithin(decls, decls[id].node, n)
  {
    map id | id in decls ::
      var node := decls[id].node;
      if node.Prim? then 0
      else
        var n: nat :| PartsWithin(decls, node, n);
        2 * Least(decls, node, n) + if node.Union? then 0 else 1
  }

  /** The programs the converter ends on, by its own termination measure, are those without an unnamed cycle. */
  lemma ProgramsHaveNoCycle(decls: Decls)
    ensures Acyclic(decls) <==> forall c :: !UnnamedCycle(decls, c)
  {
    if Acyclic(decls) {
      var rank: map<nat, nat> :| Ranked(decls, rank);
      forall c ensures !UnnamedCycle(decls, c) {
        if UnnamedCycle(decls, c) {
          var n := RankedIsWithin(decls, rank, c[0]);
          CycleNotWithin(decls, c, 0, n);
        }
      }
    }
    if forall c :: !UnnamedCycle(decls, c) {
      forall id | id in decls ensures exists n: nat :: PartsWithin(decls, decls[id].node, n) {
        var n := NodePartsWithin(decls, decls[id].node);
      }
      assert IsRank(decls, RankFor(decls));
      IsRankRanks(decls, RankFor(decls));
    }
  }

  // ----- only what can be reached matters

  /** An object that can be reached looks at what this is, without calling it. */
  ghost predicate LookedAt(decls: Decls, t: Ty, id: nat) {
    exists u, p :: Leads(decls, t, u) && Looks(decls, u, p, id)
  }

  predicate Looks(decls: Decls, u: Ty, p: Prop, id: nat) {
    && Resolve(decls, u).ObjectT? && p in Resolve(decls, u).props
    && (p.ty == Shared(id) || Shared(id) in Members(decls, p.ty))
  }

  ghost predicate Kept(decls: Decls, t: Ty, id: nat) {
    Leads(decls, t, Shared(id)) || LookedAt(decls, t, id)
  }

  /** The program as the conversion of one type sees it. */
  ghost function Reached(decls: Decls, t: Ty): (part: Decls)
    ensures part.Keys == decls.Keys
    ensures forall id | id in decls && Kept(decls, t, id) :: part[id] == decls[id]
    ensures forall id | id in decls && !Kept(decls, t, id) :: part[id] == Decl(None, Opaque)
  {
    map id | id in decls :: if Kept(decls, t, id) then decls[id] else Decl(None, Opaque)
  }

  lemma SameResolve(decls: Decls, t: Ty, u: Ty)
    requires u.Inline? || Kept(decls, t, u.id)
    ensures Resolve(Reached(decls, t), u) == Resolve(decls, u)
  {
  }

  lemma {:induction false} SameSelect(ts: seq<Ty>, keep: Ty -> bool, other: Ty -> bool)
    requires forall u | u in ts :: keep(u) == other(u)
    ensures Select(ts, keep) == Select(ts, other)
  {
    if ts != [] {
      assert ts == [ts[0]] + ts[1..];
      SameSelect(ts[1..], keep, other);
    }
  }

  lemma SamePropCalls(decls: Decls, t: Ty, u: Ty, p: Prop)
    requires Leads(decls, t, u) && Resolve(decls, u).ObjectT? && p in Resolve(decls, u).props
    ensures PropCalls(Reached(decls, t), p) == PropCalls(decls, p)
  {
    var part := Reached(decls, t);
    forall x | x == p.ty || x in Members(decls, p.ty) ensures Resolve(part, x) == Resolve(decls, x) {
      if x.Shared? {
        assert Looks(decls, u, p, x.id);
        SameResolve(decls, t, x);
      }
    }
    SameSelect(Members(decls, p.ty), m => !IsUndefined(decls, m), m => !IsUndefined(part, m));
  }

  lemma {:induction false} SamePropsCalls(decls: Decls, part: Decls, props: seq<Prop>)
    requires forall p | p in props :: PropCalls(part, p) == PropCalls(decls, p)
    ensures PropsCalls(part, props) == PropsCalls(decls, props)
  {
    if props != [] {
      var last := props[|props| - 1];
      assert last in props && forall p | p in props[..|props| - 1] :: p in props;
      SamePropsCalls(decls, part, props[..|props| - 1]);
    }
  }

  /** Where the conversion comes, the same is called. */
  lemma SameCalls(decls: Decls, t: Ty, u: Ty)
    requires Leads(decls, t, u)
    ensures var part := Reached(decls, t);
      && Resolve(part, u) == Resolve(decls, u)
      && Calls(part, Resolve(part, u)) == Calls(decls, Resolve(decls, u))
      && (u.Shared? && u.id in decls ==> part[u.id] == decls[u.id])
  {
    var part, node := Reached(decls, t), Resolve(decls, u);
    SameResolve(decls, t, u);
    if node.ObjectT? {
      forall p | p in node.props ensures PropCalls(part, p) == PropCalls(decls, p) {
        SamePropCalls(decls, t, u, p);
      }
      SamePropsCalls(decls, part, node.props);
    }
  }

  lemma {:induction false} SameRun(decls: Decls, t: Ty, names: set<string>, u: Ty, fuel: nat)
    requires Leads(decls, t, u)
    ensures Run(Reached(decls, t), names, u, fuel) == Run(decls, names, u, fuel)
    decreases fuel, 0, 0
  {
    SameCalls(decls, t, u);
    if fuel > 0 && (u.Inline? || u.id in decls) {
      var node := Resolve(decls, u);
      forall v | v in Calls(decls, node) ensures Leads(decls, t, v) {
        LeadsOn(decls, t, u, v);
      }
      var names' := if Named(decls, u) then names + {decls[u.id].name.value} else names;
      SameRunAll(decls, t, names', Calls(decls, node), fuel - 1);
      assert RunNode(Reached(decls, t), names', node, fuel - 1) == RunNode(decls, names', node, fuel - 1);
    }
  }

  lemma {:induction false} SameRunAll(decls: Decls, t: Ty, names: set<string>, ts: seq<Ty>, fuel: nat)
    requires forall u | u in ts :: Leads(decls, t, u)
    ensures RunAll(Reached(decls, t), names, ts, fuel) == RunAll(decls, names, ts, fuel)
    decreases fuel, 1, |ts|
  {
    if ts != [] {
      assert ts[0] in ts && forall u | u in ts[1..] :: u in ts;
      SameRun(decls, t, names, ts[0], fuel);
      var first := Run(decls, names, ts[0], fuel);
      if first.Done? {
        SameRunAll(decls, t, first.names, ts[1..], fuel);
      }
    }
  }

  /** What is kept calls, of what goes on, only what can be reached. */
  lemma KeptCalls(decls: Decls, t: Ty, id: nat, v: Ty)
    requires id in decls && Kept(decls, t, id) && decls[id].node.Union? && v in decls[id].node.members
    requires Calls(Reached(decls, t), Resolve(Reached(decls, t), v)) != []
    ensures Leads(decls, t, v)
  {
    if Leads(decls, t, Shared(id)) {
      LeadsOn(decls, t, Shared(id), v);
    } else {
      var u, p :| Leads(decls, t, u) && Looks(decls, u, p, id);
      LookedCalls(decls, t, u, p, id, v);
    }
  }

  lemma PropCalled(decls: Decls, t: Ty, u: Ty, p: Prop, v: Ty)
    requires Leads(decls, t, u) && Resolve(decls, u).ObjectT? && p in Resolve(decls, u).props
    requires v in PropCalls(decls, p)
    ensures Leads(decls, t, v)
  {
    hide Leads, PropCalls, PropsCalls;
    var node := Resolve(decls, u);
    PropCallsIn(decls, node.props, v);
    assert v in Calls(decls, node);
    LeadsOn(decls, t, u, v);
  }

  lemma LookedCalls(decls: Decls, t: Ty, u: Ty, p: Prop, id: nat, v: Ty)
    requires Leads(decls, t, u) && Looks(decls, u, p, id) && id in decls
    requires decls[id].node.Union? && v in decls[id].node.members
    requires Calls(Reached(decls, t), Resolve(Reached(decls, t), v)) != []
    ensures Leads(decls, t, v)
  {
    if Complete(decls, p.ty) {
      PropCalled(decls, t, u, p, p.ty);
      if p.ty != Shared(id) {
        LeadsOn(decls, t, p.ty, Shared(id));
      }
      LeadsOn(decls, t, Shared(id), v);
    } else if p.ty == Shared(id) {
      if IsUndefined(decls, v) {
        if v.Shared? {
          assert Looks(decls, u, p, v.id);
        }
        SameResolve(decls, t, v);
      } else {
        assert v in Present(decls, p.ty);
        PropCalled(decls, t, u, p, v);
      }
    } else {
      assert Shared(id) in Present(decls, p.ty);
      PropCalled(decls, t, u, p, Shared(id));
      LeadsOn(decls, t, Shared(id), v);
    }
  }

  lemma SharedCall(decls: Decls, t: Ty, id: nat, v: Ty)
    requires Called(Reached(decls, t), Shared(id), v)
    requires Calls(Reached(decls, t), Resolve(Reached(decls, t), v)) != []
    ensures Leads(decls, t, Shared(id)) || Leads(decls, t, v)
  {
    hide Leads, PropsCalls, Looks;
    if !Leads(decls, t, Shared(id)) {
      assert id in decls && Kept(decls, t, id);
      SameResolve(decls, t, Shared(id));
      if decls[id].node.Union? {
        KeptCalls(decls, t, id, v);
      } else {
        var x, p :| Leads(decls, t, x) && Looks(decls, x, p, id);
        LookedIsCalled(decls, t, x, p, id);
      }
    }
  }

  /** A part of an object is written inside, or has been taken out of a type with an identity. */
  lemma InlineCall(decls: Decls, node: Node, v: Ty)
    requires v in Calls(decls, node)
    ensures v < Inline(node) || exists id :: id in decls && decls[id].node.Union? && v in decls[id].node.members
  {
    match node
    case Union(members) =>
    case ArrayT(element) =>
    case TupleT(elements) =>
    case ObjectT(props, index) =>
      if v in PropsCalls(decls, props) {
        PropCallsIn(decls, props, v);
        var p :| p in props && v in PropCalls(decls, p);
        PropCallInside(decls, p, v);
      }
  }

  lemma PropCallInside(decls: Decls, p: Prop, v: Ty)
    requires v in PropCalls(decls, p)
    ensures v < p || (p.ty.Shared? && p.ty.id in decls && decls[p.ty.id].node.Union?
      && v in decls[p.ty.id].node.members)
  {
    if !Complete(decls, p.ty) {
      assert v in Members(decls, p.ty);
    }
  }

  /**
   * A call in the reached part comes from where the conversion comes, leads there, or goes to
   * something written inside.
   */
  lemma ReachedCall(decls: Decls, t: Ty, u: Ty, v: Ty)
    requires Called(Reached(decls, t), u, v) && Calls(Reached(decls, t), Resolve(Reached(decls, t), v)) != []
    ensures Leads(decls, t, u) || Leads(decls, t, v) || v < u
  {
    var part := Reached(decls, t);
    hide Leads, Calls;
    if u.Shared? {
      SharedCall(decls, t, u.id, v);
    } else {
      InlineCall(part, u.node, v);
      if id :| id in part && part[id].node.Union? && v in part[id].node.members {
        assert Kept(decls, t, id);
        KeptCalls(decls, t, id, v);
      }
    }
  }

  /** What is no union and has calls is itself called where it is looked at. */
  lemma LookedIsCalled(decls: Decls, t: Ty, u: Ty, p: Prop, id: nat)
    requires Leads(decls, t, u) && Looks(decls, u, p, id) && id in decls && !decls[id].node.Union?
      && !decls[id].node.Prim?
    ensures Leads(decls, t, Shared(id))
  {
    if p.ty == Shared(id) {
      assert Members(decls, p.ty) == [p.ty];
      assert Complete(decls, p.ty);
      PropCalled(decls, t, u, p, p.ty);
    } else if Complete(decls, p.ty) {
      PropCalled(decls, t, u, p, p.ty);
      LeadsOn(decls, t, p.ty, Shared(id));
    } else {
      assert Shared(id) in Present(decls, p.ty);
      PropCalled(decls, t, u, p, Shared(id));
    }
  }

  // ----- so a cycle that cannot be reached does not matter

  /** Once the conversion is on a cycle it goes all the way round. */
  lemma {:induction false} RoundFrom(decls: Decls, t: Ty, c: seq<Ty>, i: nat, k: nat)
    requires Path(Reached(decls, t), c) && i <= k < |c| && Leads(decls, t, c[i])
    ensures Leads(decls, t, c[k])
    decreases k
  {
    if i < k {
      RoundFrom(decls, t, c, i, k - 1);
      assert Called(Reached(decls, t), c[k - 1], c[k - 1 + 1]);
      SameCalls(decls, t, c[k - 1]);
      LeadsOn(decls, t, c[k - 1], c[k]);
    }
  }

  /** A cycle the conversion does not come to would go on inward for ever. */
  lemma {:induction false} Inward(decls: Decls, t: Ty, c: seq<Ty>, k: nat)
    requires UnnamedCycle(Reached(decls, t), c) && 0 < k < |c|
    requires forall i | 0 <= i < |c| :: !Leads(decls, t, c[i])
    ensures c[k] < c[0]
    decreases k
  {
    var part := Reached(decls, t);
    var next := if k + 1 < |c| then k + 1 else 1;
    assert Called(part, c[k - 1], c[k - 1 + 1]);
    assert Called(part, c[if k + 1 < |c| then k else 0], c[next]);
    ReachedCall(decls, t, c[k - 1], c[k]);
    if k > 1 {
      Inward(decls, t, c, k - 1);
    }
  }

  lemma ReachedHasNoCycle(decls: Decls, t: Ty, c: seq<Ty>)
    requires !LoopFrom(decls, t)
    ensures !UnnamedCycle(Reached(decls, t), c)
  {
    hide Leads;
    var part := Reached(decls, t);
    if UnnamedCycle(part, c) {
      if i :| 0 <= i < |c| && Leads(decls, t, c[i]) {
        RoundFrom(decls, t, c, i, |c| - 1);
        forall k | 0 <= k < |c| ensures Leads(decls, t, c[k]) {
          RoundFrom(decls, t, c, 0, k);
        }
        SameCycle(decls, t, c);
      } else {
        Inward(decls, t, c, |c| - 1);
      }
    }
  }

  lemma SameCycle(decls: Decls, t: Ty, c: seq<Ty>)
    requires UnnamedCycle(Reached(decls, t), c) && forall k | 0 <= k < |c| :: Leads(decls, t, c[k])
    ensures UnnamedCycle(decls, c)
  {
    var part := Reached(decls, t);
    forall k | 0 <= k < |c| - 1 ensures Called(decls, c[k], c[k + 1]) {
      assert Called(part, c[k], c[k + 1]);
      SameCalls(decls, t, c[k]);
    }
    forall u | u in c ensures !Named(decls, u) {
      var k :| 0 <= k < |c| && c[k] == u;
      SameCalls(decls, t, u);
    }
  }

  lemma ReachedRuns(decls: Decls, t: Ty, names: set<string>, end: Ending)
    ensures Runs(Reached(decls, t), names, t, end) <==> Runs(decls, names, t, end)
  {
    LeadsToItself(decls, t);
    hide Run, Reached, Leads;
    forall fuel: nat ensures Run(Reached(decls, t), names, t, fuel) == Run(decls, names, t, fuel) {
      SameRun(decls, t, names, t, fuel);
    }
  }

  /** Some types are replaced by opaque ones. */
  predicate Reduces(decls: Decls, part: Decls) {
    part.Keys == decls.Keys && forall id | id in decls :: part[id] == decls[id] || part[id] == Decl(None, Opaque)
  }

  lemma {:induction false} StaysWellFormed(decls: Decls, part: Decls, t: Ty)
    requires Reduces(decls, part) && WellFormed(decls, t)
    ensures WellFormed(part, t) && (!Resolve(decls, t).Union? ==> !Resolve(part, t).Union?)
    decreases t, 1
  {
    if t.Inline? {
      NodeStaysWellFormed(decls, part, t.node);
    }
  }

  lemma {:induction false} NodeStaysWellFormed(decls: Decls, part: Decls, node: Node)
    requires Reduces(decls, part) && WellFormedNode(decls, node)
    ensures WellFormedNode(part, node)
    decreases node, 0
  {
    hide Reduces;
    match node
    case Prim(_) =>
    case Opaque =>
    case Union(members) =>
      forall m | m in members ensures WellFormed(part, m) && !Resolve(part, m).Union? {
        StaysWellFormed(decls, part, m);
      }
    case ArrayT(element) => StaysWellFormed(decls, part, element);
    case TupleT(elements) =>
      forall e | e in elements ensures WellFormed(part, e) {
        StaysWellFormed(decls, part, e);
      }
    case ObjectT(props, index) =>
      forall p | p in props ensures WellFormed(part, p.ty) {
        StaysWellFormed(decls, part, p.ty);
      }
      if index.Some? {
        StaysWellFormed(decls, part, index.value);
      }
  }

  lemma ReducedDecls(decls: Decls, part: Decls)
    requires Reduces(decls, part)
    ensures WellFormedDecls(decls) ==> WellFormedDecls(part)
    ensures UniqueNames(decls) ==> UniqueNames(part)
    ensures PrimsApart(decls) ==> PrimsApart(part)
  {
    if WellFormedDecls(decls) {
      forall id | id in part ensures WellFormedNode(part, part[id].node) {
        if part[id] == decls[id] {
          NodeStaysWellFormed(decls, part, decls[id].node);
        }
      }
    }
  }

  /**
   * When no unnamed cycle can be reached from a type, the part that can be reached is a program the
   * converter takes, and the conversion runs on it as it does on the whole.
   */
  lemma ReachedIsProgram(decls: Decls, t: Ty)
    requires !LoopFrom(decls, t) && WellFormedDecls(decls) && WellFormed(decls, t)
    ensures var part := Reached(decls, t);
      && Acyclic(part) && WellFormedDecls(part) && WellFormed(part, t)
      && (UniqueNames(decls) ==> UniqueNames(part)) && (PrimsApart(decls) ==> PrimsApart(part))
      && forall names, end :: Runs(part, names, t, end) <==> Runs(decls, names, t, end)
  {
    var part := Reached(decls, t);
    assert Reduces(decls, part);
    hide Reached;
    forall c ensures !UnnamedCycle(part, c) {
      ReachedHasNoCycle(decls, t, c);
    }
    ProgramsHaveNoCycle(part);
    ReducedDecls(decls, part);
    StaysWellFormed(decls, part, t);
    forall names, end ensures Runs(part, names, t, end) <==> Runs(decls, names, t, end) {
      ReachedRuns(decls, t, names, end);
    }
  }
}
