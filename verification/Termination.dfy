/** Where `convert` ends: whichever way a cycle of types goes, it has to call a type that has a name. */
module Termination {
  import opened Wrappers
  import opened Types
  import opened Recursion

  predicate Named(decls: Decls, t: Ty) {
    t.Shared? && t.id in decls && decls[t.id].name.Some? && !decls[t.id].node.Prim?
  }

  predicate Called(decls: Decls, t: Ty, u: Ty) {
    u in Calls(decls, Resolve(decls, t))
  }

  /** Each type is called by the one before it. */
  predicate Path(decls: Decls, p: seq<Ty>) {
    p != [] && forall i | 0 <= i < |p| - 1 :: Called(decls, p[i], p[i + 1])
  }

  ghost predicate Leads(decls: Decls, t: Ty, u: Ty) {
    exists p :: Path(decls, p) && p[0] == t && p[|p| - 1] == u
  }

  /** A cycle of calls on types without a name. */
  predicate UnnamedCycle(decls: Decls, c: seq<Ty>) {
    |c| >= 2 && Path(decls, c) && c[0] == c[|c| - 1] && forall t | t in c :: !Named(decls, t)
  }

  /** An unnamed cycle can be reached. */
  ghost predicate LoopFrom(decls: Decls, t: Ty) {
    exists c :: UnnamedCycle(decls, c) && Leads(decls, t, c[0])
  }

  /** Something the converter refuses can be reached. */
  ghost predicate RefusalFrom(decls: Decls, t: Ty) {
    exists u :: Leads(decls, t, u) && Refusal(Resolve(decls, u))
  }

  lemma LeadsToItself(decls: Decls, t: Ty)
    ensures Leads(decls, t, t)
  {
    assert Path(decls, [t]);
  }

  lemma LeadsOn(decls: Decls, t: Ty, u: Ty, v: Ty)
    requires Leads(decls, t, u) && Called(decls, u, v)
    ensures Leads(decls, t, v)
  {
    var p :| Path(decls, p) && p[0] == t && p[|p| - 1] == u;
    var q := p + [v];
    forall i | 0 <= i < |q| - 1 ensures Called(decls, q[i], q[i + 1]) {}
    assert Path(decls, q) && q[0] == t && q[|q| - 1] == v;
  }

  /** What holds of a type and passes on to what it calls holds of all it leads to. */
  lemma {:induction false} LeadsAlong(decls: Decls, p: seq<Ty>, i: nat, holds: Ty -> bool)
    requires Path(decls, p) && i < |p| && holds(p[0])
    requires forall u, v | holds(u) && Called(decls, u, v) :: holds(v)
    ensures holds(p[i])
    decreases i
  {
    if i > 0 {
      LeadsAlong(decls, p, i - 1, holds);
      assert Called(decls, p[i - 1], p[i - 1 + 1]);
    }
  }

  lemma LeadsTransitive(decls: Decls, t: Ty, u: Ty, v: Ty)
    requires Leads(decls, t, u) && Leads(decls, u, v)
    ensures Leads(decls, t, v)
  {
    var p :| Path(decls, p) && p[0] == t && p[|p| - 1] == u;
    var q :| Path(decls, q) && q[0] == u && q[|q| - 1] == v;
    var r := p + q[1..];
    forall i | 0 <= i < |r| - 1 ensures Called(decls, r[i], r[i + 1]) {
      if i >= |p| - 1 {
        assert r[i] == q[i - (|p| - 1)] && r[i + 1] == q[i - (|p| - 1) + 1];
      }
    }
    assert Path(decls, r) && r[0] == t && r[|r| - 1] == v;
  }

  // ----- a conversion that is done has been everywhere, and met no cycle

  /** Within `n` calls every way from here has come to a name that is known, and nothing refused is met. */
  predicate Covered(decls: Decls, names: set<string>, t: Ty, n: nat)
    decreases n
  {
    if Named(decls, t) then decls[t.id].name.value in names
    else n > 0 && !Refusal(Resolve(decls, t)) && forall u | u in Calls(decls, Resolve(decls, t)) ::
      Covered(decls, names, u, n - 1)
  }

  predicate CallsCovered(decls: Decls, names: set<string>, node: Node, n: nat) {
    !Refusal(node) && forall u | u in Calls(decls, node) :: Covered(decls, names, u, n)
  }

  /** What the names new since `before` stand for is covered. */
  ghost predicate NewCovered(decls: Decls, before: set<string>, names: set<string>, n: nat) {
    before <= names && forall s, id | s in names && s !in before && Publishes(decls, s, id) ::
      CallsCovered(decls, names, decls[id].node, n)
  }

  lemma {:induction false} CoveredMore(decls: Decls, names: set<string>, t: Ty, n: nat, names': set<string>, n': nat)
    requires Covered(decls, names, t, n) && names <= names' && n <= n'
    ensures Covered(decls, names', t, n')
    decreases n
  {
    if !Named(decls, t) {
      forall u | u in Calls(decls, Resolve(decls, t)) ensures Covered(decls, names', u, n' - 1) {
        CoveredMore(decls, names, u, n - 1, names', n' - 1);
      }
    }
  }

  lemma CallsCoveredMore(decls: Decls, names: set<string>, node: Node, n: nat, names': set<string>, n': nat)
    requires CallsCovered(decls, names, node, n) && names <= names' && n <= n'
    ensures CallsCovered(decls, names', node, n')
  {
    forall u | u in Calls(decls, node) ensures Covered(decls, names', u, n') {
      CoveredMore(decls, names, u, n, names', n');
    }
  }

  lemma NewCoveredMore(decls: Decls, before: set<string>, names: set<string>, n: nat, names': set<string>, n': nat)
    requires NewCovered(decls, before, names, n) && NewCovered(decls, names, names', n') && n <= n'
    ensures NewCovered(decls, before, names', n')
  {
    forall s, id | s in names' && s !in before && Publishes(decls, s, id)
      ensures CallsCovered(decls, names', decls[id].node, n')
    {
      if s in names {
        CallsCoveredMore(decls, names, decls[id].node, n, names', n');
      }
    }
  }

  lemma {:induction false} RunCovers(decls: Decls, names: set<string>, t: Ty, fuel: nat)
    requires UniqueNames(decls) && Run(decls, names, t, fuel).Done?
    ensures var after := Run(decls, names, t, fuel).names;
      Covered(decls, after, t, fuel) && NewCovered(decls, names, after, fuel)
    decreases fuel, 0, 0
  {
    var after := Run(decls, names, t, fuel).names;
    if Named(decls, t) && decls[t.id].name.value !in names {
      var n := decls[t.id].name.value;
      NodeCovers(decls, names + {n}, decls[t.id].node, fuel - 1);
      forall s, id | s in after && s !in names && Publishes(decls, s, id)
        ensures CallsCovered(decls, after, decls[id].node, fuel)
      {
        assert s == n ==> id == t.id;
        CallsCoveredMore(decls, after, decls[id].node, fuel - 1, after, fuel);
      }
    } else if t.Inline? || decls[t.id].name.None? {
      NodeCovers(decls, names, Resolve(decls, t), fuel - 1);
      NothingNew(decls, after);
      NewCoveredMore(decls, names, after, fuel - 1, after, fuel);
    } else {
      assert after == names;
      NothingNew(decls, after);
    }
  }

  lemma NothingNew(decls: Decls, names: set<string>)
    ensures forall m: nat :: NewCovered(decls, names, names, m)
  {
  }

  lemma {:induction false} NodeCovers(decls: Decls, names: set<string>, node: Node, fuel: nat)
    requires UniqueNames(decls) && RunNode(decls, names, node, fuel).Done?
    ensures var after := RunNode(decls, names, node, fuel).names;
      CallsCovered(decls, after, node, fuel) && NewCovered(decls, names, after, fuel)
    decreases fuel, 2, 0
  {
    AllCover(decls, names, Calls(decls, node), fuel);
  }

  lemma {:induction false} AllCover(decls: Decls, names: set<string>, ts: seq<Ty>, fuel: nat)
    requires UniqueNames(decls) && RunAll(decls, names, ts, fuel).Done?
    ensures var after := RunAll(decls, names, ts, fuel).names;
      (forall u | u in ts :: Covered(decls, after, u, fuel)) && NewCovered(decls, names, after, fuel)
    decreases fuel, 1, |ts|
  {
    if ts != [] {
      var first := Run(decls, names, ts[0], fuel).names;
      var after := RunAll(decls, names, ts, fuel).names;
      RunCovers(decls, names, ts[0], fuel);
      AllCover(decls, first, ts[1..], fuel);
      CoveredMore(decls, first, ts[0], fuel, after, fuel);
      NewCoveredMore(decls, names, first, fuel, after, fuel);
      assert ts == [ts[0]] + ts[1..];
    }
  }

  /** A cycle never comes to a name. */
  lemma {:induction false} CycleNotCovered(decls: Decls, names: set<string>, c: seq<Ty>, i: nat, n: nat)
    requires UnnamedCycle(decls, c) && i < |c| - 1
    ensures !Covered(decls, names, c[i], n)
    decreases n
  {
    assert c[i] in c && Called(decls, c[i], c[i + 1]);
    if n > 0 {
      CycleNotCovered(decls, names, c, if i + 1 < |c| - 1 then i + 1 else 0, n - 1);
    }
  }

  /** Everything a finished conversion leads to is covered. */
  lemma {:induction false} AllCovered(decls: Decls, names: set<string>, n: nat, t: Ty, p: seq<Ty>, i: nat)
    requires Covered(decls, names, t, n) && NewCovered(decls, {}, names, n)
    requires Path(decls, p) && p[0] == t && i < |p|
    ensures Covered(decls, names, p[i], n)
    decreases i
  {
    if i > 0 {
      var u := p[i - 1];
      AllCovered(decls, names, n, t, p, i - 1);
      assert Called(decls, u, p[i - 1 + 1]);
      if Named(decls, u) {
        assert Publishes(decls, decls[u.id].name.value, u.id);
      } else {
        CoveredMore(decls, names, p[i], n - 1, names, n);
      }
    }
  }

  lemma DoneMeetsNothing(decls: Decls, t: Ty, names: set<string>)
    requires UniqueNames(decls) && Runs(decls, {}, t, Done(names))
    ensures !LoopFrom(decls, t) && !RefusalFrom(decls, t)
  {
    var fuel: nat :| Run(decls, {}, t, fuel) == Done(names);
    RunCovers(decls, {}, t, fuel);
    forall u | Leads(decls, t, u) ensures Covered(decls, names, u, fuel) && !Refusal(Resolve(decls, u)) {
      var p :| Path(decls, p) && p[0] == t && p[|p| - 1] == u;
      AllCovered(decls, names, fuel, t, p, |p| - 1);
      if Named(decls, u) {
        assert Publishes(decls, decls[u.id].name.value, u.id);
      }
    }
    if c :| UnnamedCycle(decls, c) && Leads(decls, t, c[0]) {
      CycleNotCovered(decls, names, c, 0, fuel);
    }
  }

  // ----- without a cycle every way ends, because there are only so many types

  function Parts(t: Ty): set<Ty> {
    {t} + match t
          case Inline(node) => NodeParts(node)
          case Shared(_) => {}
  }

  /** The types written inside a node. */
  function NodeParts(node: Node): set<Ty> {
    match node
    case Prim(_) => {}
    case Opaque => {}
    case Union(members) => set m, x | m in members && x in Parts(m) :: x
    case ArrayT(element) => Parts(element)
    case TupleT(elements) => set e, x | e in elements && x in Parts(e) :: x
    case ObjectT(props, index) =>
      (set p, x | p in props && x in Parts(p.ty) :: x) + if index.Some? then Parts(index.value) else {}
  }

  function Universe(decls: Decls, t: Ty): set<Ty> {
    Parts(t) + set id, x | id in decls && x in NodeParts(decls[id].node) :: x
  }

  lemma {:induction false} PartsOfParts(t: Ty, x: Ty)
    requires x in Parts(t)
    ensures Parts(x) <= Parts(t)
    decreases t, 1
  {
    if x != t {
      PartsOfNodeParts(t.node, x);
    }
  }

  lemma {:induction false} PartsOfNodeParts(node: Node, x: Ty)
    requires x in NodeParts(node)
    ensures Parts(x) <= NodeParts(node)
    decreases node, 0
  {
    match node
    case Union(members) =>
      var m :| m in members && x in Parts(m);
      PartsOfParts(m, x);
    case ArrayT(element) => PartsOfParts(element, x);
    case TupleT(elements) =>
      var e :| e in elements && x in Parts(e);
      PartsOfParts(e, x);
    case ObjectT(props, index) =>
      if p :| p in props && x in Parts(p.ty) {
        PartsOfParts(p.ty, x);
      } else {
        PartsOfParts(index.value, x);
      }
  }

  lemma {:induction false} PropCallsIn(decls: Decls, props: seq<Prop>, u: Ty)
    ensures u in PropsCalls(decls, props) <==> exists p | p in props :: u in PropCalls(decls, p)
  {
    if props != [] {
      var last := props[|props| - 1];
      PropCallsIn(decls, props[..|props| - 1], u);
      assert props == props[..|props| - 1] + [last];
    }
  }

  /** What a type in the universe is written as is written in the universe. */
  lemma ResolvedIn(decls: Decls, t: Ty, u: Ty)
    requires u in Universe(decls, t)
    ensures NodeParts(Resolve(decls, u)) <= Universe(decls, t)
  {
    if u.Inline? {
      if u in Parts(t) {
        PartsOfParts(t, u);
      } else {
        var id :| id in decls && u in NodeParts(decls[id].node);
        PartsOfNodeParts(decls[id].node, u);
      }
    }
  }

  /** What a node calls is written in it, unless a property's type is taken apart. */
  lemma CallsIn(decls: Decls, node: Node, v: Ty)
    requires v in Calls(decls, node)
    ensures v in NodeParts(node) || (node.ObjectT? && exists p | p in node.props :: v in PropCalls(decls, p))
  {
    assert v in Parts(v);
    match node
    case ObjectT(props, index) => PropCallsIn(decls, props, v);
    case Union(members) =>
    case ArrayT(element) =>
    case TupleT(elements) => assert elements[0] in elements;
  }

  lemma PropTypeIn(node: Node, p: Prop)
    requires node.ObjectT? && p in node.props
    ensures p.ty in NodeParts(node)
  {
    assert p.ty in Parts(p.ty);
  }

  lemma PropCallIn(decls: Decls, p: Prop, v: Ty)
    requires v in PropCalls(decls, p)
    ensures v == p.ty || v in NodeParts(Resolve(decls, p.ty))
  {
    assert v in Parts(v);
    if !Complete(decls, p.ty) {
      assert v in Members(decls, p.ty);
    }
  }

  lemma CalledIn(decls: Decls, t: Ty, u: Ty, v: Ty)
    requires u in Universe(decls, t) && Called(decls, u, v)
    ensures v in Universe(decls, t)
  {
    hide Universe, NodeParts, Calls, PropCalls;
    ResolvedIn(decls, t, u);
    var node := Resolve(decls, u);
    CallsIn(decls, node, v);
    if v !in NodeParts(node) {
      var p :| p in node.props && v in PropCalls(decls, p);
      PropTypeIn(node, p);
      PropCallIn(decls, p, v);
      ResolvedIn(decls, t, p.ty);
    }
  }

  /** Within `n` calls every way from here has come to a name or to an end. */
  predicate Within(decls: Decls, t: Ty, n: nat)
    decreases n
  {
    Named(decls, t) || (n > 0 && forall u | u in Calls(decls, Resolve(decls, t)) :: Within(decls, u, n - 1))
  }

  ghost predicate AllWithin(decls: Decls, t: Ty, n: nat) {
    forall u | Leads(decls, t, u) :: Within(decls, u, n)
  }

  lemma {:induction false} WithinMore(decls: Decls, t: Ty, n: nat, more: nat)
    requires Within(decls, t, n) && n <= more
    ensures Within(decls, t, more)
    decreases n
  {
    if !Named(decls, t) {
      forall u | u in Calls(decls, Resolve(decls, t)) ensures Within(decls, u, more - 1) {
        WithinMore(decls, u, n - 1, more - 1);
      }
    }
  }

  /** A way that is longer. */
  lemma {:induction false} LongWay(decls: Decls, t: Ty, n: nat) returns (p: seq<Ty>)
    requires !Within(decls, t, n)
    ensures |p| == n + 1 && Path(decls, p) && p[0] == t && forall u | u in p :: !Named(decls, u)
    decreases n
  {
    p := [t];
    if n > 0 {
      var u :| u in Calls(decls, Resolve(decls, t)) && !Within(decls, u, n - 1);
      var rest := LongWay(decls, u, n - 1);
      p := [t] + rest;
      forall i | 0 <= i < |p| - 1 ensures Called(decls, p[i], p[i + 1]) {
        if i > 0 {
          assert p[i] == rest[i - 1] && p[i + 1] == rest[i - 1 + 1];
        }
      }
    }
  }

  lemma {:induction false} Pigeonhole(p: seq<Ty>, types: set<Ty>)
    requires (forall u | u in p :: u in types) && |p| > |types|
    ensures exists i, k :: 0 <= i < k < |p| && p[i] == p[k]
    decreases |p|
  {
    var n := |p| - 1;
    if k :| 0 <= k < n && p[k] == p[n] {
    } else {
      var last := p[n];
      forall u | u in p[..n] ensures u in types - {last} {
        var k :| 0 <= k < n && p[k] == u;
        assert p[k] in p;
      }
      assert last in p;
      Pigeonhole(p[..n], types - {last});
      var i, k :| 0 <= i < k < n && p[..n][i] == p[..n][k];
      assert p[i] == p[k];
    }
  }

  lemma {:induction false} PathIn(decls: Decls, t: Ty, p: seq<Ty>, i: nat)
    requires Path(decls, p) && p[0] in Universe(decls, t) && i < |p|
    ensures p[i] in Universe(decls, t)
    decreases i
  {
    if i > 0 {
      PathIn(decls, t, p, i - 1);
      assert Called(decls, p[i - 1], p[i - 1 + 1]);
      CalledIn(decls, t, p[i - 1], p[i]);
    }
  }

  lemma CutUnnamed(decls: Decls, p: seq<Ty>, i: nat, k: nat)
    requires (forall u | u in p :: !Named(decls, u)) && i < k < |p| && p[i] == p[k]
    ensures var c := p[i..k + 1];
      |c| >= 2 && c[0] == p[i] && c[|c| - 1] == c[0] && forall u | u in c :: !Named(decls, u)
  {
    hide Named;
    var c := p[i..k + 1];
    forall u | u in c ensures !Named(decls, u) {
      assert u in p;
    }
  }

  lemma CutLoop(decls: Decls, p: seq<Ty>, i: nat, k: nat)
    requires Path(decls, p) && (forall u | u in p :: !Named(decls, u))
    requires i < k < |p| && p[i] == p[k]
    ensures LoopFrom(decls, p[0])
  {
    hide Path, Named, Leads;
    CutUnnamed(decls, p, i, k);
    SubPath(decls, p, i, k + 1);
    LeadsAt(decls, p, i);
    assert UnnamedCycle(decls, p[i..k + 1]);
  }

  /** A way that is longer than there are types comes round. */
  lemma LongWayLoops(decls: Decls, t: Ty, u: Ty)
    requires u in Universe(decls, t) && !Within(decls, u, |Universe(decls, t)|)
    ensures LoopFrom(decls, u)
  {
    hide Universe, Within, Path, Named, UnnamedCycle, LoopFrom;
    var p := LongWay(decls, u, |Universe(decls, t)|);
    forall x | x in p ensures x in Universe(decls, t) {
      var i :| 0 <= i < |p| && p[i] == x;
      PathIn(decls, t, p, i);
    }
    Pigeonhole(p, Universe(decls, t));
    var i, k :| 0 <= i < k < |p| && p[i] == p[k];
    CutLoop(decls, p, i, k);
  }

  lemma LeadsAt(decls: Decls, p: seq<Ty>, i: nat)
    requires Path(decls, p) && i < |p|
    ensures Leads(decls, p[0], p[i])
  {
    SubPath(decls, p, 0, i + 1);
    var q := p[0..i + 1];
    assert q[0] == p[0] && q[|q| - 1] == p[i];
  }

  lemma SubPath(decls: Decls, p: seq<Ty>, i: nat, k: nat)
    requires Path(decls, p) && i < k <= |p|
    ensures Path(decls, p[i..k])
  {
    hide Called;
    var q := p[i..k];
    forall j | 0 <= j < |q| - 1 ensures Called(decls, q[j], q[j + 1]) {
      assert q[j] == p[i + j] && q[j + 1] == p[i + j + 1];
    }
  }

  lemma LeadsInUniverse(decls: Decls, t: Ty, u: Ty)
    requires Leads(decls, t, u)
    ensures u in Universe(decls, t)
  {
    var p :| Path(decls, p) && p[0] == t && p[|p| - 1] == u;
    PathIn(decls, t, p, |p| - 1);
  }

  lemma NoLoopIsWithin(decls: Decls, t: Ty)
    requires !LoopFrom(decls, t)
    ensures AllWithin(decls, t, |Universe(decls, t)|)
  {
    forall u | Leads(decls, t, u) ensures Within(decls, u, |Universe(decls, t)|) {
      LeadsInUniverse(decls, t, u);
      if !Within(decls, u, |Universe(decls, t)|) {
        LongWayLoops(decls, t, u);
        var c :| UnnamedCycle(decls, c) && Leads(decls, u, c[0]);
        LeadsTransitive(decls, t, u, c[0]);
      }
    }
  }

  // ----- the recursion comes to an end

  ghost function MissingNames(decls: Decls, names: set<string>): set<nat> {
    set id | id in decls && decls[id].name.Some? && decls[id].name.value !in names
  }

  lemma CalledWithin(decls: Decls, t: Ty, u: Ty, n: nat)
    requires AllWithin(decls, t, n) && Called(decls, t, u)
    ensures AllWithin(decls, u, n) && Within(decls, u, n)
  {
    LeadsToItself(decls, t);
    LeadsOn(decls, t, t, u);
    forall v | Leads(decls, u, v) ensures Within(decls, v, n) {
      LeadsTransitive(decls, t, u, v);
    }
  }

  /** `n` bounds every way between two names, `d` the one this call is on. */
  lemma {:induction false} RunEnds(decls: Decls, names: set<string>, t: Ty, n: nat, d: nat) returns (end: Ending)
    requires AllWithin(decls, t, n) && Within(decls, t, d)
    ensures Runs(decls, names, t, end) && (end.Done? ==> names <= end.names)
    decreases MissingNames(decls, names), d, 0, 0
  {
    hide Runs, AllRun, NodeRuns, AllWithin;
    var node := Resolve(decls, t);
    forall u | u in Calls(decls, node) ensures AllWithin(decls, u, n) && Within(decls, u, n) {
      CalledWithin(decls, t, u, n);
    }
    if Named(decls, t) {
      var s := decls[t.id].name.value;
      if s in names {
        KnownRun(decls, names, t.id);
        end := Done(names);
      } else {
        assert t.id in MissingNames(decls, names) && t.id !in MissingNames(decls, names + {s});
        end := AllRunsEnd(decls, names + {s}, Calls(decls, node), n, n);
        NodeRun(decls, names + {s}, node, end);
        end := if end.Done? && Refusal(node) then Thrown else end;
        NamedRun(decls, names, s, t.id, end);
      }
    } else if t.Shared? && t.id !in decls {
      end := Thrown;
      UnknownRun(decls, names, t.id);
    } else if t.Shared? && node.Prim? {
      end := Done(names);
      if decls[t.id].name.Some? {
        KnownRun(decls, names, t.id);
      } else {
        NoneRun(decls, names);
        NodeRun(decls, names, node, end);
        UnnamedRun(decls, names, t.id, end);
      }
    } else {
      end := AllRunsEnd(decls, names, Calls(decls, node), n, d - 1);
      NodeRun(decls, names, node, end);
      end := if end.Done? && Refusal(node) then Thrown else end;
      if t.Inline? {
        InlineRun(decls, names, node, end);
      } else {
        UnnamedRun(decls, names, t.id, end);
      }
    }
  }

  lemma UnknownRun(decls: Decls, names: set<string>, id: nat)
    requires id !in decls
    ensures Runs(decls, names, Shared(id), Thrown)
  {
    assert Run(decls, names, Shared(id), 1) == Thrown;
  }

  lemma {:induction false} AllRunsEnd(decls: Decls, names: set<string>, ts: seq<Ty>, n: nat, d: nat)
    returns (end: Ending)
    requires forall u | u in ts :: AllWithin(decls, u, n) && Within(decls, u, d)
    ensures AllRun(decls, names, ts, end) && (end.Done? ==> names <= end.names)
    decreases MissingNames(decls, names), d, 1, |ts|
  {
    hide Runs, AllRun, AllWithin, Within;
    if ts == [] {
      NoneRun(decls, names);
      end := Done(names);
    } else {
      assert ts[0] in ts && ts == [ts[0]] + ts[1..];
      var first := RunEnds(decls, names, ts[0], n, d);
      One(decls, names, ts[0], first);
      end := first;
      if first.Done? {
        assert MissingNames(decls, first.names) <= MissingNames(decls, names);
        end := AllRunsEnd(decls, first.names, ts[1..], n, d);
      }
      Then(decls, names, [ts[0]], first, ts[1..], end);
    }
  }

  ghost predicate Ends(decls: Decls, t: Ty) {
    exists end :: Runs(decls, {}, t, end)
  }

  ghost predicate Converts(decls: Decls, t: Ty) {
    exists names :: Runs(decls, {}, t, Done(names))
  }

  // ----- when it throws, something refused was met

  lemma RefusalHere(decls: Decls, t: Ty)
    requires Refusal(Resolve(decls, t))
    ensures RefusalFrom(decls, t)
  {
    LeadsToItself(decls, t);
  }

  lemma RefusalBehind(decls: Decls, t: Ty, u: Ty)
    requires Called(decls, t, u) && RefusalFrom(decls, u)
    ensures RefusalFrom(decls, t)
  {
    hide Leads, Called;
    LeadsToItself(decls, t);
    LeadsOn(decls, t, t, u);
    var v :| Leads(decls, u, v) && Refusal(Resolve(decls, v));
    LeadsTransitive(decls, t, u, v);
  }

  lemma {:induction false} ThrownMeets(decls: Decls, names: set<string>, t: Ty, fuel: nat)
    requires Run(decls, names, t, fuel) == Thrown
    ensures RefusalFrom(decls, t)
    decreases fuel, 0, 0
  {
    var node := Resolve(decls, t);
    var names' := if Named(decls, t) then names + {decls[t.id].name.value} else names;
    assert t.Inline? || t.id in decls ==> RunNode(decls, names', node, fuel - 1) == Thrown;
    hide Run, Calls, RefusalFrom;
    if Refusal(node) {
      RefusalHere(decls, t);
    } else {
      var u := AllThrownMeets(decls, names', Calls(decls, node), fuel - 1);
      RefusalBehind(decls, t, u);
    }
  }

  lemma {:induction false} AllThrownMeets(decls: Decls, names: set<string>, ts: seq<Ty>, fuel: nat) returns (u: Ty)
    requires RunAll(decls, names, ts, fuel) == Thrown
    ensures u in ts && RefusalFrom(decls, u)
    decreases fuel, 1, |ts|
  {
    var first := Run(decls, names, ts[0], fuel);
    if first.Done? {
      u := AllThrownMeets(decls, first.names, ts[1..], fuel);
    } else {
      ThrownMeets(decls, names, ts[0], fuel);
      u := ts[0];
    }
  }

  /**
   * A type is converted if and only if no unnamed cycle and nothing refused can be reached from it;
   * and unless something is refused on the way, the conversion ends exactly when every cycle that
   * can be reached calls a type that has a name.
   */
  lemma ConversionEnds(decls: Decls, t: Ty)
    requires UniqueNames(decls)
    ensures Converts(decls, t) <==> !LoopFrom(decls, t) && !RefusalFrom(decls, t)
    ensures !LoopFrom(decls, t) ==> Ends(decls, t)
    ensures !RefusalFrom(decls, t) ==> (Ends(decls, t) <==> !LoopFrom(decls, t))
  {
    hide LoopFrom, RefusalFrom, Runs, AllWithin;
    if names :| Runs(decls, {}, t, Done(names)) {
      DoneMeetsNothing(decls, t, names);
    }
    if end :| Runs(decls, {}, t, end) && end == Thrown {
      RunThrown(decls, t);
    }
    if !LoopFrom(decls, t) {
      NoLoopIsWithin(decls, t);
      var n := |Universe(decls, t)|;
      ItselfWithin(decls, t, n);
      var end := RunEnds(decls, {}, t, n, n);
      RunsEnd(decls, t, end);
    }
    forall end | Runs(decls, {}, t, end) ensures end.Done? || end == Thrown {
      RunsEnd(decls, t, end);
    }
  }

  lemma RunThrown(decls: Decls, t: Ty)
    requires Runs(decls, {}, t, Thrown)
    ensures RefusalFrom(decls, t)
  {
    var fuel: nat :| Run(decls, {}, t, fuel) == Thrown;
    ThrownMeets(decls, {}, t, fuel);
  }

  lemma RunsEnd(decls: Decls, t: Ty, end: Ending)
    requires Runs(decls, {}, t, end)
    ensures Ends(decls, t) && (end.Done? || end == Thrown)
  {
  }

  lemma ItselfWithin(decls: Decls, t: Ty, n: nat)
    requires AllWithin(decls, t, n)
    ensures Within(decls, t, n)
  {
    LeadsToItself(decls, t);
  }
}
