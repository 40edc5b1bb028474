/** `findContractViolations`: that the routes and the operations of the registry are the same. */
module RouteContract {

  datatype Method = Get | Post | Put | Patch | Delete

  datatype Binding = Binding(operationId: string, verb: Method, path: string)

  datatype Violation =
    | RouteTwice(route: string)
    | OperationTwice(operationId: string)
    | Unrouted(operationId: string)
    | Unknown(route: string, operationId: string)

  function Name(m: Method): string {
    match m
    case Get => "GET"
    case Post => "POST"
    case Put => "PUT"
    case Patch => "PATCH"
    case Delete => "DELETE"
  }

  function Route(b: Binding): string {
    Name(b.verb) + " " + b.path
  }

  // ----- what is reported, in order

  function Routes(bindings: seq<Binding>): set<string> {
    set b | b in bindings :: Route(b)
  }

  function Bound(bindings: seq<Binding>): set<string> {
    set b | b in bindings :: b.operationId
  }

  /** What is wrong with a binding behind others. */
  function RepeatedIn(before: seq<Binding>, b: Binding): seq<Violation> {
    (if Route(b) in Routes(before) then [RouteTwice(Route(b))] else [])
    + (if b.operationId in Bound(before) then [OperationTwice(b.operationId)] else [])
  }

  function Repeated(bindings: seq<Binding>): seq<Violation> {
    if bindings == [] then []
    else
      var before := bindings[..|bindings| - 1];
      Repeated(before) + RepeatedIn(before, bindings[|bindings| - 1])
  }

  function WithoutRoute(operations: seq<string>, bound: set<string>): seq<Violation> {
    if operations == [] then []
    else
      var last := operations[|operations| - 1];
      WithoutRoute(operations[..|operations| - 1], bound) + if last in bound then [] else [Unrouted(last)]
  }

  function WithoutOperation(bindings: seq<Binding>, known: set<string>): seq<Violation> {
    if bindings == [] then []
    else
      var b := bindings[|bindings| - 1];
      WithoutOperation(bindings[..|bindings| - 1], known)
      + if b.operationId in known then [] else [Unknown(Route(b), b.operationId)]
  }

  function Known(operations: seq<string>): set<string> {
    set o | o in operations
  }

  function Violations(operations: seq<string>, manifest: seq<Binding>): seq<Violation> {
    Repeated(manifest) + WithoutRoute(operations, Bound(manifest)) + WithoutOperation(manifest, Known(operations))
  }

  /** The three loops of `findContractViolations`. */
  method FindContractViolations(operations: seq<string>, manifest: seq<Binding>) returns (violations: seq<Violation>)
    ensures violations == Violations(operations, manifest)
  {
    hide Repeated, WithoutRoute, WithoutOperation, Route, Routes, Bound;
    violations := [];
    var routed, seenRoutes := {}, {};
    FirstLoopStarts();
    for i := 0 to |manifest|
      invariant violations == Repeated(manifest[..i])
      invariant routed == Bound(manifest[..i]) && seenRoutes == Routes(manifest[..i])
    {
      var binding := manifest[i];
      FirstLoopStep(manifest, i);
      var route := Route(binding);
      if route in seenRoutes {
        violations := violations + [RouteTwice(route)];
      }
      seenRoutes := seenRoutes + {route};
      if binding.operationId in routed {
        violations := violations + [OperationTwice(binding.operationId)];
      }
      routed := routed + {binding.operationId};
    }
    assert manifest[..|manifest|] == manifest;
    var known := Known(operations);
    OtherLoopsStart(routed, known);
    for i := 0 to |operations|
      invariant violations == Repeated(manifest) + WithoutRoute(operations[..i], routed)
    {
      SecondLoopStep(operations, routed, i);
      if operations[i] !in routed {
        violations := violations + [Unrouted(operations[i])];
      }
    }
    assert operations[..|operations|] == operations;
    ghost var so := violations;
    for i := 0 to |manifest|
      invariant violations == so + WithoutOperation(manifest[..i], known)
    {
      ThirdLoopStep(manifest, known, i);
      if manifest[i].operationId !in known {
        violations := violations + [Unknown(Route(manifest[i]), manifest[i].operationId)];
      }
    }
  }

  lemma FirstLoopStarts()
    ensures Repeated([]) == [] && Bound([]) == {} && Routes([]) == {}
  {
  }

  lemma FirstLoopStep(manifest: seq<Binding>, i: nat)
    requires i < |manifest|
    ensures Repeated(manifest[..i + 1]) == Repeated(manifest[..i]) + RepeatedIn(manifest[..i], manifest[i])
    ensures Bound(manifest[..i + 1]) == Bound(manifest[..i]) + {manifest[i].operationId}
    ensures Routes(manifest[..i + 1]) == Routes(manifest[..i]) + {Route(manifest[i])}
  {
    hide Route, RepeatedIn;
    var next := manifest[..i + 1];
    assert next[..i] == manifest[..i] && next == manifest[..i] + [manifest[i]];
  }

  lemma OtherLoopsStart(bound: set<string>, known: set<string>)
    ensures WithoutRoute([], bound) == [] && WithoutOperation([], known) == []
  {
  }

  lemma SecondLoopStep(operations: seq<string>, bound: set<string>, i: nat)
    requires i < |operations|
    ensures WithoutRoute(operations[..i + 1], bound) ==
      WithoutRoute(operations[..i], bound) + if operations[i] in bound then [] else [Unrouted(operations[i])]
  {
    assert operations[..i + 1][..i] == operations[..i];
  }

  lemma ThirdLoopStep(manifest: seq<Binding>, known: set<string>, i: nat)
    requires i < |manifest|
    ensures var b := manifest[i];
      WithoutOperation(manifest[..i + 1], known) ==
      WithoutOperation(manifest[..i], known) + if b.operationId in known then [] else [Unknown(Route(b), b.operationId)]
  {
    hide Route;
    assert manifest[..i + 1][..i] == manifest[..i];
  }

  // ----- what an empty report means

  /** No two routes are one method and path, and no operation is bound twice. */
  ghost predicate OneToOne(manifest: seq<Binding>) {
    forall i, k | 0 <= i < k < |manifest| ::
      && manifest[i].operationId != manifest[k].operationId
      && (manifest[i].verb, manifest[i].path) != (manifest[k].verb, manifest[k].path)
  }

  lemma RouteIsMethodAndPath(a: Binding, b: Binding)
    ensures Route(a) ==
      (if a.verb.Get? then "GET " else if a.verb.Post? then "POST " else if a.verb.Put? then "PUT "
       else if a.verb.Patch? then "PATCH " else "DELETE ") + a.path
    ensures Route(a) == Route(b) <==> a.verb == b.verb && a.path == b.path
  {
    var m, n := Name(a.verb), Name(b.verb);
    assert Route(a)[0] == m[0] && Route(b)[0] == n[0] && Route(a)[1] == m[1] && Route(b)[1] == n[1];
    assert Route(a)[|m| + 1..] == a.path && Route(b)[|n| + 1..] == b.path;
  }

  lemma NotRepeatedIn(before: seq<Binding>, b: Binding)
    ensures RepeatedIn(before, b) == [] <==> forall i | 0 <= i < |before| ::
      before[i].operationId != b.operationId && (before[i].verb, before[i].path) != (b.verb, b.path)
  {
    hide Route;
    forall i | 0 <= i < |before|
      ensures Route(before[i]) == Route(b) <==> before[i].verb == b.verb && before[i].path == b.path
    {
      RouteIsMethodAndPath(before[i], b);
    }
    assert Route(b) in Routes(before) <==> exists i | 0 <= i < |before| :: Route(before[i]) == Route(b);
    assert b.operationId in Bound(before) <==> exists i | 0 <= i < |before| :: before[i].operationId == b.operationId;
  }

  lemma {:induction false} NothingRepeated(manifest: seq<Binding>)
    ensures Repeated(manifest) == [] <==> OneToOne(manifest)
  {
    if manifest != [] {
      var before, b := manifest[..|manifest| - 1], manifest[|manifest| - 1];
      NothingRepeated(before);
      NotRepeatedIn(before, b);
      hide RepeatedIn;
      assert forall i | 0 <= i < |before| :: manifest[i] == before[i];
    }
  }

  lemma {:induction false} AllRouted(operations: seq<string>, bound: set<string>)
    ensures WithoutRoute(operations, bound) == [] <==> forall o | o in operations :: o in bound
  {
    if operations != [] {
      var before := operations[..|operations| - 1];
      AllRouted(before, bound);
      assert operations == before + [operations[|operations| - 1]];
    }
  }

  lemma {:induction false} AllKnown(manifest: seq<Binding>, known: set<string>)
    ensures WithoutOperation(manifest, known) == [] <==> forall b | b in manifest :: b.operationId in known
  {
    if manifest != [] {
      var before := manifest[..|manifest| - 1];
      AllKnown(before, known);
      assert manifest == before + [manifest[|manifest| - 1]];
    }
  }

  /**
   * Nothing is reported exactly when every operation has one route, every route one operation, and
   * no route is declared twice.
   */
  lemma ContractHolds(operations: seq<string>, manifest: seq<Binding>)
    ensures Violations(operations, manifest) == [] <==>
      OneToOne(manifest) && Bound(manifest) == Known(operations)
  {
    NothingRepeated(manifest);
    AllRouted(operations, Bound(manifest));
    AllKnown(manifest, Known(operations));
  }

  // ----- what a report says

  ghost predicate RouteStandsBefore(manifest: seq<Binding>, route: string) {
    exists i, k | 0 <= i < k < |manifest| :: Route(manifest[i]) == route == Route(manifest[k])
  }

  ghost predicate OperationStandsBefore(manifest: seq<Binding>, id: string) {
    exists i, k | 0 <= i < k < |manifest| :: manifest[i].operationId == id == manifest[k].operationId
  }

  lemma OneMoreRoute(manifest: seq<Binding>, route: string)
    requires manifest != []
    ensures var before, b := manifest[..|manifest| - 1], manifest[|manifest| - 1];
      RouteStandsBefore(manifest, route) <==>
        RouteStandsBefore(before, route) || (Route(b) == route && route in Routes(before))
  {
    hide Route;
    var n := |manifest| - 1;
    assert forall i | 0 <= i < n :: manifest[i] == manifest[..n][i];
    assert route in Routes(manifest[..n]) <==> exists i | 0 <= i < n :: Route(manifest[i]) == route;
  }

  lemma OneMoreOperation(manifest: seq<Binding>, id: string)
    requires manifest != []
    ensures var before, b := manifest[..|manifest| - 1], manifest[|manifest| - 1];
      OperationStandsBefore(manifest, id) <==>
        OperationStandsBefore(before, id) || (b.operationId == id && id in Bound(before))
  {
    var n := |manifest| - 1;
    assert forall i | 0 <= i < n :: manifest[i] == manifest[..n][i];
    assert id in Bound(manifest[..n]) <==> exists i | 0 <= i < n :: manifest[i].operationId == id;
  }

  lemma {:induction false} RepeatedSays(manifest: seq<Binding>, v: Violation)
    ensures v in Repeated(manifest) <==> match v
      case RouteTwice(route) => RouteStandsBefore(manifest, route)
      case OperationTwice(id) => OperationStandsBefore(manifest, id)
      case _ => false
  {
    if manifest != [] {
      RepeatedSays(manifest[..|manifest| - 1], v);
      if v.RouteTwice? {
        OneMoreRoute(manifest, v.route);
      } else if v.OperationTwice? {
        OneMoreOperation(manifest, v.operationId);
      }
      hide Route, RouteStandsBefore, OperationStandsBefore, Routes, Bound;
    }
  }

  lemma {:induction false} UnroutedSays(operations: seq<string>, bound: set<string>, v: Violation)
    ensures v in WithoutRoute(operations, bound) <==>
      v.Unrouted? && v.operationId in operations && v.operationId !in bound
  {
    if operations != [] {
      var before := operations[..|operations| - 1];
      UnroutedSays(before, bound, v);
      assert operations == before + [operations[|operations| - 1]];
    }
  }

  lemma {:induction false} UnknownSays(manifest: seq<Binding>, known: set<string>, v: Violation)
    ensures v in WithoutOperation(manifest, known) <==>
      v.Unknown? && v.operationId !in known
      && exists b | b in manifest :: b.operationId == v.operationId && Route(b) == v.route
  {
    hide Route;
    if manifest != [] {
      var before := manifest[..|manifest| - 1];
      UnknownSays(before, known, v);
      assert manifest == before + [manifest[|manifest| - 1]];
    }
  }

  /** A fault is reported if and only if it is one. */
  lemma ReportSays(operations: seq<string>, manifest: seq<Binding>, v: Violation)
    ensures v in Violations(operations, manifest) <==> match v
      case RouteTwice(route) => RouteStandsBefore(manifest, route)
      case OperationTwice(id) => OperationStandsBefore(manifest, id)
      case Unrouted(id) => id in operations && forall b | b in manifest :: b.operationId != id
      case Unknown(route, id) =>
        id !in operations && exists b | b in manifest :: b.operationId == id && Route(b) == route
  {
    RepeatedSays(manifest, v);
    UnroutedSays(operations, Bound(manifest), v);
    UnknownSays(manifest, Known(operations), v);
    hide Repeated, WithoutRoute, WithoutOperation, Route, RouteStandsBefore, OperationStandsBefore;
  }
}
