/** The recursion of `convert`, whatever it builds: which types it calls itself on, and where it ends. */
module Recursion {
  import opened Wrappers
  import opened Types

  // ----- the calls

  /** What is converted for a property: its type, or what is left of it when undefined is dropped. */
  function PropCalls(decls: Decls, p: Prop): seq<Ty> {
    if Complete(decls, p.ty) then [p.ty] else Present(decls, p.ty)
  }

  function PropsCalls(decls: Decls, props: seq<Prop>): seq<Ty> {
    if props == [] then [] else PropsCalls(decls, props[..|props| - 1]) + PropCalls(decls, props[|props| - 1])
  }

  /** The types that converting a node converts, in order. */
  function Calls(decls: Decls, node: Node): seq<Ty> {
    match node
    case Prim(_) => []
    case Opaque => []
    case Union(members) => members
    case ArrayT(element) => [element]
    case TupleT(elements) => if elements == [] then [] else [elements[0]]
    case ObjectT(props, index) => PropsCalls(decls, props) + if index.Some? then [index.value] else []
  }

  /** Refused as soon as it is met, or once its parts have been converted: an object that describes nothing. */
  predicate Refusal(node: Node) {
    node.Opaque? || (node.ObjectT? && node.props == [] && node.index.None?)
  }

  // ----- running it

  /** `names` are those with a component, placeholders included. */
  datatype Ending = Done(names: set<string>) | Thrown | Unfinished

  /** `convert` with the stack no deeper than `fuel`, from a table with these names. */
  function Run(decls: Decls, names: set<string>, t: Ty, fuel: nat): Ending
    decreases fuel, 0, 0
  {
    if fuel == 0 then Unfinished
    else
      match t
      case Inline(node) => RunNode(decls, names, node, fuel - 1)
      case Shared(id) =>
        if id !in decls then Thrown
        else
          match decls[id].name
          case None => RunNode(decls, names, decls[id].node, fuel - 1)
          case Some(n) =>
            if n in names || decls[id].node.Prim? then Done(names)
            else RunNode(decls, names + {n}, decls[id].node, fuel - 1)
  }

  function RunNode(decls: Decls, names: set<string>, node: Node, fuel: nat): Ending
    decreases fuel, 2, 0
  {
    var r := RunAll(decls, names, Calls(decls, node), fuel);
    if r.Done? && Refusal(node) then Thrown else r
  }

  function RunAll(decls: Decls, names: set<string>, ts: seq<Ty>, fuel: nat): Ending
    decreases fuel, 1, |ts|
  {
    if ts == [] then Done(names)
    else
      var first := Run(decls, names, ts[0], fuel);
      if first.Done? then RunAll(decls, first.names, ts[1..], fuel) else first
  }

  /** Given stack enough, it comes to this end. */
  ghost predicate Runs(decls: Decls, names: set<string>, t: Ty, end: Ending) {
    end != Unfinished && exists fuel: nat :: Run(decls, names, t, fuel) == end
  }

  ghost predicate NodeRuns(decls: Decls, names: set<string>, node: Node, end: Ending) {
    end != Unfinished && exists fuel: nat :: RunNode(decls, names, node, fuel) == end
  }

  ghost predicate AllRun(decls: Decls, names: set<string>, ts: seq<Ty>, end: Ending) {
    end != Unfinished && exists fuel: nat :: RunAll(decls, names, ts, fuel) == end
  }

  // ----- more stack changes nothing

  lemma {:induction false} MoreFuel(decls: Decls, names: set<string>, t: Ty, fuel: nat, more: nat)
    requires fuel <= more && Run(decls, names, t, fuel) != Unfinished
    ensures Run(decls, names, t, more) == Run(decls, names, t, fuel)
    decreases fuel, 0, 0
  {
    match t
    case Inline(node) => MoreFuelNode(decls, names, node, fuel - 1, more - 1);
    case Shared(id) =>
      if id in decls && decls[id].name.None? {
        MoreFuelNode(decls, names, decls[id].node, fuel - 1, more - 1);
      } else if id in decls && decls[id].name.value !in names && !decls[id].node.Prim? {
        MoreFuelNode(decls, names + {decls[id].name.value}, decls[id].node, fuel - 1, more - 1);
      }
  }

  lemma {:induction false} MoreFuelNode(decls: Decls, names: set<string>, node: Node, fuel: nat, more: nat)
    requires fuel <= more && RunNode(decls, names, node, fuel) != Unfinished
    ensures RunNode(decls, names, node, more) == RunNode(decls, names, node, fuel)
    decreases fuel, 2, 0
  {
    MoreFuelAll(decls, names, Calls(decls, node), fuel, more);
  }

  lemma {:induction false} MoreFuelAll(decls: Decls, names: set<string>, ts: seq<Ty>, fuel: nat, more: nat)
    requires fuel <= more && RunAll(decls, names, ts, fuel) != Unfinished
    ensures RunAll(decls, names, ts, more) == RunAll(decls, names, ts, fuel)
    decreases fuel, 1, |ts|
  {
    if ts != [] {
      MoreFuel(decls, names, ts[0], fuel, more);
      var first := Run(decls, names, ts[0], fuel);
      if first.Done? {
        MoreFuelAll(decls, first.names, ts[1..], fuel, more);
      }
    }
  }

  // ----- putting runs together

  lemma NoneRun(decls: Decls, names: set<string>)
    ensures AllRun(decls, names, [], Done(names))
  {
    assert RunAll(decls, names, [], 0) == Done(names);
  }

  lemma {:induction false} RunAllAppend(decls: Decls, names: set<string>, a: seq<Ty>, b: seq<Ty>, fuel: nat)
    ensures var first := RunAll(decls, names, a, fuel);
      RunAll(decls, names, a + b, fuel) == if first.Done? then RunAll(decls, first.names, b, fuel) else first
    decreases |a|
  {
    if a == [] {
      assert a + b == b;
    } else {
      assert (a + b)[0] == a[0] && (a + b)[1..] == a[1..] + b;
      var first := Run(decls, names, a[0], fuel);
      if first.Done? {
        RunAllAppend(decls, first.names, a[1..], b, fuel);
      }
    }
  }

  /** One list of types after another. */
  lemma Then(decls: Decls, names: set<string>, a: seq<Ty>, first: Ending, b: seq<Ty>, end: Ending)
    requires AllRun(decls, names, a, first)
    requires if first.Done? then AllRun(decls, first.names, b, end) else end == first
    ensures AllRun(decls, names, a + b, end)
  {
    hide Run, RunAll;
    var f: nat :| RunAll(decls, names, a, f) == first;
    var g: nat := f;
    if first.Done? {
      g :| RunAll(decls, first.names, b, g) == end;
    }
    var most := if f >= g then f else g;
    MoreFuelAll(decls, names, a, f, most);
    if first.Done? {
      MoreFuelAll(decls, first.names, b, g, most);
    }
    RunAllAppend(decls, names, a, b, most);
    assert RunAll(decls, names, a + b, most) == end;
  }

  lemma One(decls: Decls, names: set<string>, t: Ty, end: Ending)
    requires Runs(decls, names, t, end)
    ensures AllRun(decls, names, [t], end)
  {
    var fuel: nat :| Run(decls, names, t, fuel) == end;
    assert RunAll(decls, names, [t], fuel) == end;
  }

  /** A list of types and one more. */
  lemma AndThen(decls: Decls, names: set<string>, ts: seq<Ty>, between: set<string>, t: Ty, end: Ending)
    requires AllRun(decls, names, ts, Done(between)) && Runs(decls, between, t, end)
    ensures AllRun(decls, names, ts + [t], end)
  {
    One(decls, between, t, end);
    Then(decls, names, ts, Done(between), [t], end);
  }

  lemma NodeRun(decls: Decls, names: set<string>, node: Node, end: Ending)
    requires AllRun(decls, names, Calls(decls, node), end)
    ensures NodeRuns(decls, names, node, if end.Done? && Refusal(node) then Thrown else end)
  {
    var fuel: nat :| RunAll(decls, names, Calls(decls, node), fuel) == end;
    assert RunNode(decls, names, node, fuel) == if end.Done? && Refusal(node) then Thrown else end;
  }

  lemma InlineRun(decls: Decls, names: set<string>, node: Node, end: Ending)
    requires NodeRuns(decls, names, node, end)
    ensures Runs(decls, names, Inline(node), end)
  {
    var fuel: nat :| RunNode(decls, names, node, fuel) == end;
    assert Run(decls, names, Inline(node), fuel + 1) == end;
  }

  lemma UnnamedRun(decls: Decls, names: set<string>, id: nat, end: Ending)
    requires id in decls && decls[id].name.None? && NodeRuns(decls, names, decls[id].node, end)
    ensures Runs(decls, names, Shared(id), end)
  {
    var fuel: nat :| RunNode(decls, names, decls[id].node, fuel) == end;
    assert Run(decls, names, Shared(id), fuel + 1) == end;
  }

  lemma NamedRun(decls: Decls, names: set<string>, n: string, id: nat, end: Ending)
    requires Publishes(decls, n, id) && n !in names && NodeRuns(decls, names + {n}, decls[id].node, end)
    ensures Runs(decls, names, Shared(id), end)
  {
    var fuel: nat :| RunNode(decls, names + {n}, decls[id].node, fuel) == end;
    assert Run(decls, names, Shared(id), fuel + 1) == end;
  }

  /** Nothing is called on a name that has its component, or on a primitive. */
  lemma KnownRun(decls: Decls, names: set<string>, id: nat)
    requires id in decls && decls[id].name.Some?
    requires decls[id].name.value in names || decls[id].node.Prim?
    ensures Runs(decls, names, Shared(id), Done(names))
  {
    assert Run(decls, names, Shared(id), 1) == Done(names);
  }

  lemma PropsCallsNext(decls: Decls, props: seq<Prop>, i: nat)
    requires i < |props|
    ensures PropsCalls(decls, props[..i + 1]) == PropsCalls(decls, props[..i]) + PropCalls(decls, props[i])
  {
    assert props[..i + 1][..i] == props[..i];
  }
}
