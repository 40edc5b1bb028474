/** The whole conversion of one response type, and the merge of all of them into one document. */
module ResponseSchemas {
  import opened Wrappers
  import opened JsonValues
  import opened Schemas
  import opened Types
  import opened Translation
  import opened Meaning
  import opened Converter
  import opened Recursion

  /** What a table describes has been converted, as far as its name tells which type that is. */
  ghost predicate AllConvertible(decls: Program, components: Components) {
    forall n, id | n in components && Publishes(decls, n, id) && UniqueIn(decls, {id}) ::
      ConvertibleNode(decls, decls[id].node)
  }

  /** With a finished table in hand no chain of references of unique names can end badly. */
  lemma {:induction false} NothingRefused(decls: Program, components: Components, t: Ty, path: seq<nat>)
    requires CorrectTable(decls, components) && AllConvertible(decls, components)
    requires Convertible(decls, t) && Resolves(components.Keys, Compile(decls, t))
    requires UniqueIn(decls, Ids(path))
    ensures !Blocked(decls, t, path)
    decreases |path|
  {
    if path != [] && Blocked(decls, t, path) {
      var id, n := path[0], decls[path[0]].name.value;
      assert id in Ids(path) && Ids(path[1..]) <= Ids(path);
      assert n in components && Publishes(decls, n, id) && UniqueIn(decls, {id});
      var other :| Publishes(decls, n, other) && components[n] == CompileNode(decls, decls[other].node);
      assert other == id;
      InlineLayer(decls, decls[id].node);
      NothingRefused(decls, components, Inline(decls[id].node), path[1..]);
    }
  }

  function Ids(path: seq<nat>): set<nat> {
    set id | id in path
  }

  lemma TableDone(decls: Program, components: Components)
    requires ValidTable(decls, components, map[])
    ensures CorrectTable(decls, components)
    ensures AllConvertible(decls, components)
  {
    forall n | n in components
      ensures exists id :: Publishes(decls, n, id) && components[n] == CompileNode(decls, decls[id].node)
    {
      var id :| Publishes(decls, n, id) && Finished(decls, components, n, id);
    }
    forall n, id | n in components && Publishes(decls, n, id) && UniqueIn(decls, {id})
      ensures ConvertibleNode(decls, decls[id].node)
    {
      var other :| Publishes(decls, n, other) && Finished(decls, components, n, other);
      assert other == id;
    }
  }

  /** The schema says of every instance whether a value of the type is sent as that instance. */
  ghost predicate Faithful(decls: Program, components: Components, t: Ty) {
    forall j :: Accepts(components, {}, Compile(decls, t), j) <==> exists v :: Sends(decls, v, t, j)
  }

  /** The type is safe, and so is all that can be reached from it, with names that nothing else has. */
  ghost predicate SafeFrom(decls: Decls, t: Ty) {
    exists scope :: SafeScope(decls, scope) && UniqueIn(decls, scope) && Safe(decls, scope, t)
  }

  /** A chain of references from `t` ends at something refused, and nothing else has a name on the way. */
  ghost predicate PlainlyRefused(decls: Program, t: Ty) {
    exists path :: UniqueIn(decls, Ids(path)) && Blocked(decls, t, path)
  }

  /** With unique names that is all there is. */
  lemma UniqueIsPlain(decls: Program, t: Ty)
    requires UniqueNames(decls)
    ensures PlainlyRefused(decls, t) <==> Refused(decls, t)
  {
    if path :| Blocked(decls, t, path) {
      assert UniqueIn(decls, Ids(path));
    }
  }

  lemma {:induction false} ReadyIsFaithful(decls: Program, scope: set<nat>, components: Components, t: Ty)
    requires Setting(decls, scope, components) && Ready(decls, scope, components, t)
    ensures Faithful(decls, components, t)
  {
    hide Acyclic, Setting, Ready, Accepts, Compile, Sends;
    forall j ensures Accepts(components, {}, Compile(decls, t), j) <==> exists v :: Sends(decls, v, t, j) {
      MeaningPreserved(decls, scope, components, t, j);
    }
  }

  lemma SafeIsFaithful(decls: Program, components: Components, t: Ty)
    requires WellFormedDecls(decls) && WellFormed(decls, t)
    requires CorrectTable(decls, components) && Resolves(components.Keys, Compile(decls, t)) && SafeFrom(decls, t)
    ensures Faithful(decls, components, t)
  {
    hide Acyclic, WellFormedDecls, UniqueIn, WellFormed, CorrectTable, Faithful, Compile, Safe, SafeScope;
    var scope :| SafeScope(decls, scope) && UniqueIn(decls, scope) && Safe(decls, scope, t);
    ReadyIsFaithful(decls, scope, components, t);
  }

  /** `convertType`. */
  method ConvertType(decls: Program, t: Ty) returns (r: Outcome, components: Components)
    requires WellFormedDecls(decls) && PrimsApart(decls) && WellFormed(decls, t)
    ensures Runs(decls, {}, t, EndOf(r, components))
    ensures r.Unconvertible? ==> Refused(decls, t)
    ensures r.Converted? ==> !PlainlyRefused(decls, t)
    ensures r.Converted? ==> r.schema == Compile(decls, t)
    ensures r.Converted? ==> CorrectTable(decls, components) && Resolves(components.Keys, r.schema)
    ensures r.Converted? && SafeFrom(decls, t) ==> Faithful(decls, components, t)
  {
    hide Runs, Faithful, SafeFrom, CorrectTable, Refused, PlainlyRefused, ValidTable, Resolves, Convertible, Compile,
      Missing;
    var context := new Context(decls);
    assert context.components.Keys == {};
    r := context.Convert(t);
    components := context.components;
    if r.Converted? {
      assert context.open == map[];
      TableDone(decls, components);
      Finally(decls, components, t);
    }
  }

  lemma Finally(decls: Program, components: Components, t: Ty)
    requires WellFormedDecls(decls) && WellFormed(decls, t)
    requires CorrectTable(decls, components) && AllConvertible(decls, components)
    requires Convertible(decls, t) && Resolves(components.Keys, Compile(decls, t))
    ensures !PlainlyRefused(decls, t)
    ensures SafeFrom(decls, t) ==> Faithful(decls, components, t)
  {
    hide Faithful, SafeFrom, Acyclic, WellFormedDecls, UniqueIn, CorrectTable, AllConvertible, Convertible, Compile;
    forall path | UniqueIn(decls, Ids(path)) ensures !Blocked(decls, t, path) {
      NothingRefused(decls, components, t, path);
    }
    if SafeFrom(decls, t) {
      SafeIsFaithful(decls, components, t);
    }
  }

  // ----- the document

  /** What the build script finds behind a route: bytes, a body type, or nothing it can read. */
  datatype Route = Bytes(media: string) | Body(ty: Ty) | Unreadable

  datatype Binding = Binding(operationId: string, route: Route)

  datatype Response = Media(media: string) | Json(schema: Schema)

  ghost function ResponseOf(decls: Program, b: Binding): Response {
    match b.route
    case Bytes(media) => Media(media)
    case Body(ty) => Json(Compile(decls, ty))
    case Unreadable => Media("")
  }

  ghost predicate Derivable(decls: Program, b: Binding) {
    b.route.Bytes? || (b.route.Body? && !Refused(decls, b.route.ty))
  }

  /** With unique names, two operations that publish one name publish one schema. */
  lemma TablesAgree(decls: Program, a: Components, b: Components)
    requires UniqueNames(decls) && CorrectTable(decls, a) && CorrectTable(decls, b)
    ensures forall n | n in a && n in b :: a[n] == b[n]
  {
    hide Acyclic, CompileNode, Resolves;
    forall n | n in a && n in b ensures a[n] == b[n] {
      var i :| Publishes(decls, n, i) && a[n] == CompileNode(decls, decls[i].node);
      var k :| Publishes(decls, n, k) && b[n] == CompileNode(decls, decls[k].node);
      assert i == k;
    }
  }

  /** Assigned over one another, correct tables stay correct: each component is that of some type of its name. */
  lemma TablesMerge(decls: Program, a: Components, b: Components)
    requires CorrectTable(decls, a) && CorrectTable(decls, b)
    ensures CorrectTable(decls, a + b)
  {
    hide Acyclic, CompileNode, Resolves;
    forall n | n in a + b ensures Resolves((a + b).Keys, (a + b)[n]) {
      ResolvesInUnion(a, b, (a + b)[n]);
    }
  }

  lemma ResolvesInUnion(a: Components, b: Components, s: Schema)
    requires Resolves(a.Keys, s) || Resolves(b.Keys, s)
    ensures Resolves((a + b).Keys, s)
  {
    assert (a + b).Keys == a.Keys + b.Keys;
  }

  // ----- which component stays

  /** `Object.assign`, one table after the other. */
  function Merged(tables: seq<Components>): Components {
    if tables == [] then map[] else Merged(tables[..|tables| - 1]) + tables[|tables| - 1]
  }

  /** At some point an assignment puts a different component in the place of one. */
  ghost predicate Replaced(tables: seq<Components>, n: string) {
    exists i | 0 <= i < |tables| :: n in Merged(tables[..i]) && n in tables[i] && Merged(tables[..i])[n] != tables[i][n]
  }

  /** Two operations have components of one name for types that are described differently. */
  ghost predicate Disagree(decls: Program, tables: seq<Components>, n: string) {
    exists i, k, a, b | 0 <= i < k < |tables| && n in tables[i] && n in tables[k] ::
      && Publishes(decls, n, a) && tables[i][n] == CompileNode(decls, decls[a].node)
      && Publishes(decls, n, b) && tables[k][n] == CompileNode(decls, decls[b].node)
      && CompileNode(decls, decls[a].node) != CompileNode(decls, decls[b].node)
  }

  /** The last operation that publishes a name has its component in the document. */
  lemma {:induction false} LastWins(tables: seq<Components>, n: string)
    ensures n in Merged(tables) <==> exists i | 0 <= i < |tables| :: n in tables[i]
    ensures forall i | 0 <= i < |tables| && n in tables[i] && (forall k | i < k < |tables| :: n !in tables[k]) ::
      Merged(tables)[n] == tables[i][n]
    ensures n in Merged(tables) ==> exists i | 0 <= i < |tables| :: n in tables[i] && Merged(tables)[n] == tables[i][n]
  {
    if tables != [] {
      var before := tables[..|tables| - 1];
      LastWins(before, n);
      assert forall i | 0 <= i < |before| :: before[i] == tables[i];
    }
  }

  lemma {:induction false} Unreplaced(tables: seq<Components>, n: string, i: nat, k: nat)
    requires i < k <= |tables| && n in tables[i] && !Replaced(tables, n)
    ensures n in Merged(tables[..k]) && Merged(tables[..k])[n] == tables[i][n]
    decreases k
  {
    assert tables[..k][..k - 1] == tables[..k - 1] && tables[..k][k - 1] == tables[k - 1];
    if i < k - 1 {
      Unreplaced(tables, n, i, k - 1);
    }
  }

  ghost predicate Differ(tables: seq<Components>, n: string) {
    exists i, k | 0 <= i < k < |tables| :: n in tables[i] && n in tables[k] && tables[i][n] != tables[k][n]
  }

  lemma ReplacedIsDiffer(tables: seq<Components>, n: string)
    ensures Replaced(tables, n) <==> Differ(tables, n)
  {
    if k :| 0 <= k < |tables| && n in Merged(tables[..k]) && n in tables[k] && Merged(tables[..k])[n] != tables[k][n] {
      LastWins(tables[..k], n);
      var i :| 0 <= i < k && n in tables[..k][i] && Merged(tables[..k])[n] == tables[..k][i][n];
      assert tables[..k][i] == tables[i];
    }
    if i, k :| 0 <= i < k < |tables| && n in tables[i] && n in tables[k] && tables[i][n] != tables[k][n] {
      if !Replaced(tables, n) {
        Unreplaced(tables, n, i, k);
      }
    }
  }

  lemma Publisher(decls: Program, table: Components, n: string) returns (id: nat)
    requires CorrectTable(decls, table) && n in table
    ensures Publishes(decls, n, id) && table[n] == CompileNode(decls, decls[id].node)
  {
    id :| Publishes(decls, n, id) && table[n] == CompileNode(decls, decls[id].node);
  }

  /**
   * A component is replaced by a different one if and only if two operations publish its name for
   * types that are described differently.
   */
  lemma ReplacedWhenDifferent(decls: Program, tables: seq<Components>, n: string)
    requires forall table | table in tables :: CorrectTable(decls, table)
    ensures Replaced(tables, n) <==> Disagree(decls, tables, n)
  {
    ReplacedIsDiffer(tables, n);
    hide Acyclic, CompileNode, CorrectTable, Replaced, Publishes;
    if Differ(tables, n) {
      var i, k :| 0 <= i < k < |tables| && n in tables[i] && n in tables[k] && tables[i][n] != tables[k][n];
      assert tables[i] in tables && tables[k] in tables;
      var a := Publisher(decls, tables[i], n);
      var b := Publisher(decls, tables[k], n);
    }
  }

  lemma DerivableOrNot(decls: Program, b: Binding)
    ensures Derivable(decls, b) <==> b.route.Bytes? || (b.route.Body? && !Refused(decls, b.route.ty))
    ensures b.route.Bytes? ==> ResponseOf(decls, b) == Media(b.route.media)
    ensures b.route.Body? ==> ResponseOf(decls, b) == Json(Compile(decls, b.route.ty))
  {
  }

  ghost predicate BodiesResolve(decls: Program, bindings: seq<Binding>, components: Components) {
    forall b | b in bindings && b.route.Body? :: Resolves(components.Keys, Compile(decls, b.route.ty))
  }

  lemma BodiesResolveInUnion(decls: Program, bindings: seq<Binding>, a: Components, b: Components)
    requires BodiesResolve(decls, bindings, a)
    ensures BodiesResolve(decls, bindings, a + b)
  {
    forall c | c in bindings && c.route.Body? ensures Resolves((a + b).Keys, Compile(decls, c.route.ty)) {
      ResolvesInUnion(a, b, Compile(decls, c.route.ty));
    }
  }

  /** Every operation has its response; of two bindings of one operation the later one counts. */
  ghost predicate Answers(decls: Program, bindings: seq<Binding>, operations: map<string, Response>) {
    forall i | 0 <= i < |bindings| ::
      && bindings[i].operationId in operations
      && ((forall k | i < k < |bindings| :: bindings[k].operationId != bindings[i].operationId)
          ==> operations[bindings[i].operationId] == ResponseOf(decls, bindings[i]))
  }

  lemma AnswersNext(decls: Program, manifest: seq<Binding>, i: nat, operations: map<string, Response>)
    requires i < |manifest| && Answers(decls, manifest[..i], operations)
    ensures var b := manifest[i]; Answers(decls, manifest[..i + 1], operations[b.operationId := ResponseOf(decls, b)])
  {
    hide ResponseOf;
    var before, next := manifest[..i], manifest[..i + 1];
    assert next[i] == manifest[i] && forall k | 0 <= k < i :: next[k] == before[k];
  }

  ghost predicate AllDerivable(decls: Program, bindings: seq<Binding>) {
    forall b | b in bindings :: Derivable(decls, b)
  }

  lemma DerivableNext(decls: Program, manifest: seq<Binding>, i: nat)
    requires i < |manifest|
    ensures AllDerivable(decls, manifest[..i + 1])
      <==> AllDerivable(decls, manifest[..i]) && Derivable(decls, manifest[i])
    ensures !Derivable(decls, manifest[i]) ==> !AllDerivable(decls, manifest)
  {
    hide Derivable;
    assert manifest[..i + 1] == manifest[..i] + [manifest[i]] && manifest[i] in manifest;
  }

  lemma ResolveNext(decls: Program, manifest: seq<Binding>, i: nat, components: Components)
    requires i < |manifest| && BodiesResolve(decls, manifest[..i], components)
    requires manifest[i].route.Body? ==> Resolves(components.Keys, Compile(decls, manifest[i].route.ty))
    ensures BodiesResolve(decls, manifest[..i + 1], components)
  {
    hide Resolves, Compile;
    assert manifest[..i + 1] == manifest[..i] + [manifest[i]];
  }

  /** `buildResponseSchemas`: `None` when any route's schema could not be derived. */
  method BuildResponseSchemas(decls: Program, manifest: seq<Binding>)
    returns (artefact: Option<map<string, Response>>, components: Components, ghost tables: seq<Components>)
    requires WellFormedDecls(decls) && PrimsApart(decls)
    requires forall b | b in manifest && b.route.Body? :: WellFormed(decls, b.route.ty)
    ensures artefact.None? ==> !AllDerivable(decls, manifest)
    ensures artefact.Some? && UniqueNames(decls) ==> AllDerivable(decls, manifest)
    ensures components == Merged(tables) && forall table | table in tables :: CorrectTable(decls, table)
    ensures CorrectTable(decls, components)
    ensures artefact.Some? ==> Answers(decls, manifest, artefact.value)
    ensures artefact.Some? ==> forall b | b in manifest && b.route.Body? ::
      && Resolves(components.Keys, Compile(decls, b.route.ty))
      && (SafeFrom(decls, b.route.ty) ==> Faithful(decls, components, b.route.ty))
  {
    hide Acyclic, Compile, CorrectTable, Resolves, Derivable, ResponseOf, Refused, WellFormed, WellFormedDecls,
      UniqueNames, PrimsApart, Faithful, SafeFrom, PlainlyRefused, Runs, Answers, AllDerivable, BodiesResolve, Merged;
    var operations: map<string, Response> := map[];
    var failures: seq<string> := [];
    components, tables := map[], [];
    NothingBuilt(decls, manifest);
    for i := 0 to |manifest|
      invariant failures != [] ==> !AllDerivable(decls, manifest)
      invariant failures == [] && UniqueNames(decls) ==> AllDerivable(decls, manifest[..i])
      invariant components == Merged(tables) && forall table | table in tables :: CorrectTable(decls, table)
      invariant CorrectTable(decls, components)
      invariant failures == [] ==> Answers(decls, manifest[..i], operations)
      invariant failures == [] ==> BodiesResolve(decls, manifest[..i], components)
    {
      var b := manifest[i];
      assert b in manifest;
      DerivableOrNot(decls, b);
      DerivableNext(decls, manifest, i);
      if failures == [] {
        AnswersNext(decls, manifest, i, operations);
      }
      match b.route {
        case Bytes(media) =>
          operations := operations[b.operationId := Media(media)];
        case Unreadable =>
          failures := failures + [b.operationId];
        case Body(ty) =>
          var converted, table := ConvertType(decls, ty);
          if UniqueNames(decls) {
            UniqueIsPlain(decls, ty);
          }
          if converted.Unconvertible? {
            failures := failures + [b.operationId];
          } else {
            operations := operations[b.operationId := Json(converted.schema)];
            TablesMerge(decls, components, table);
            if failures == [] {
              BodiesResolveInUnion(decls, manifest[..i], components, table);
            }
            ResolvesInUnion(components, table, Compile(decls, ty));
            MergedNext(tables, table);
            components, tables := components + table, tables + [table];
          }
      }
      if failures == [] {
        ResolveNext(decls, manifest, i, components);
      }
    }
    assert manifest[..|manifest|] == manifest;
    if failures != [] {
      return None, components, tables;
    }
    forall b | b in manifest && b.route.Body?
      ensures Resolves(components.Keys, Compile(decls, b.route.ty))
      ensures SafeFrom(decls, b.route.ty) ==> Faithful(decls, components, b.route.ty)
    {
      BodyResolves(decls, manifest, b, components);
      if SafeFrom(decls, b.route.ty) {
        SafeIsFaithful(decls, components, b.route.ty);
      }
    }
    return Some(operations), components, tables;
  }

  lemma NothingBuilt(decls: Program, manifest: seq<Binding>)
    ensures AllDerivable(decls, manifest[..0]) && Answers(decls, manifest[..0], map[])
    ensures BodiesResolve(decls, manifest[..0], map[]) && CorrectTable(decls, map[]) && Merged([]) == map[]
  {
  }

  lemma MergedNext(tables: seq<Components>, table: Components)
    ensures Merged(tables + [table]) == Merged(tables) + table
  {
    assert (tables + [table])[..|tables|] == tables;
  }

  lemma BodyResolves(decls: Program, bindings: seq<Binding>, b: Binding, components: Components)
    requires BodiesResolve(decls, bindings, components) && b in bindings && b.route.Body?
    ensures Resolves(components.Keys, Compile(decls, b.route.ty))
  {
  }
}
