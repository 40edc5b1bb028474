/** `toJsonSchema`: what the published document makes of a generated schema and its definitions. */
module OpenApi {
  import opened Wrappers
  import opened JsonValues

  const DEFS := "#/$defs/"
  const SCHEMAS := "#/components/schemas/"
  const REF := "$ref"
  const CLOCK_DEFAULT := "x-klopt-clock-default"
  const DEFAULT := "default"
  const DESCRIPTION := "description"

  type Members = map<string, Json>

  predicate StartsWith(s: string, p: string) {
    p <= s
  }

  // ----- the two rewriters

  function Renamed(ref: string): string {
    if StartsWith(ref, DEFS) then SCHEMAS + ref[|DEFS|..] else ref
  }

  /** `rewriteRefs`. */
  function RewriteRefs(j: Json): Json {
    match j
    case JArr(items) => JArr(seq(|items|, i requires 0 <= i < |items| => RewriteRefs(items[i])))
    case JObj(members) =>
      JObj(map k | k in members ::
        if k == REF && members[k].JStr? && StartsWith(members[k].s, DEFS) then JStr(Renamed(members[k].s))
        else RewriteRefs(members[k]))
    case _ => j
  }

  predicate Marked(members: Members) {
    CLOCK_DEFAULT in members && members[CLOCK_DEFAULT].JStr?
  }

  /** The members of an object with a clock default, without the default and with the sentence about it. */
  function Explained(members: Members): Members
    requires Marked(members)
  {
    var rest := members - {CLOCK_DEFAULT, DEFAULT};
    var existing := if DESCRIPTION in rest && rest[DESCRIPTION].JStr? then rest[DESCRIPTION].s + " " else "";
    rest[DESCRIPTION := JStr(existing + "Defaults to " + members[CLOCK_DEFAULT].s + ".")]
  }

  function Settled(members: Members): Members {
    if Marked(members) then Explained(members) else members
  }

  /** `describeClockDefaults`. */
  function Describe(j: Json): Json {
    match j
    case JArr(items) => JArr(seq(|items|, i requires 0 <= i < |items| => Describe(items[i])))
    case JObj(members) => JObj(Settled(map k | k in members :: Describe(members[k])))
    case _ => j
  }

  // ----- what they are for

  /** `ref` stands as a reference somewhere in the document. */
  ghost predicate Refers(j: Json, ref: string) {
    match j
    case JArr(items) => exists x | x in items :: Refers(x, ref)
    case JObj(members) =>
      (REF in members && members[REF] == JStr(ref)) || exists k | k in members :: Refers(members[k], ref)
    case _ => false
  }

  /** No reference goes to the generator's own definitions. */
  ghost predicate Published(j: Json) {
    forall ref | Refers(j, ref) :: !StartsWith(ref, DEFS)
  }

  /** No object pins the moment the document was generated. */
  ghost predicate Timeless(j: Json) {
    match j
    case JArr(items) => forall x | x in items :: Timeless(x)
    case JObj(members) => !Marked(members) && forall k | k in members :: Timeless(members[k])
    case _ => true
  }

  lemma RenamedIsPublic(ref: string)
    ensures !StartsWith(Renamed(ref), DEFS)
    ensures Renamed(ref) == ref <==> !StartsWith(ref, DEFS)
  {
    assert DEFS[2] == '$' && SCHEMAS[2] == 'c';
    if StartsWith(ref, DEFS) {
      assert Renamed(ref)[2] == 'c';
    }
  }

  /** The references of the result are those of the document, renamed. */
  lemma {:induction false} RewritingRenames(j: Json, ref: string)
    ensures Refers(RewriteRefs(j), ref) <==> exists from: string :: Refers(j, from) && Renamed(from) == ref
  {
    match j
    case JArr(items) =>
      var r := RewriteRefs(j);
      forall i | 0 <= i < |items|
        ensures Refers(r.items[i], ref) <==> exists from: string :: Refers(items[i], from) && Renamed(from) == ref
      {
        RewritingRenames(items[i], ref);
      }
      assert forall i | 0 <= i < |items| :: items[i] in items && r.items[i] in r.items;
    case JObj(members) =>
      var r := RewriteRefs(j);
      forall k | k in members
        ensures Refers(r.members[k], ref) <==> exists from: string :: Refers(members[k], from) && Renamed(from) == ref
      {
        RewritingRenames(members[k], ref);
      }
      ObjectRenames(members, ref);
    case _ =>
  }

  /** The reference that an object is, if it is one. */
  function OwnRef(members: Members): Option<string> {
    if REF in members && members[REF].JStr? then Some(members[REF].s) else None
  }

  lemma OwnRenamed(members: Members)
    ensures var r := RewriteRefs(JObj(members)).members;
      && r.Keys == members.Keys
      && OwnRef(r) == (match OwnRef(members) case None => None case Some(s) => Some(Renamed(s)))
      && forall k | k in members && !members[k].JStr? :: r[k] == RewriteRefs(members[k])
  {
  }

  lemma ObjectRenames(members: Members, ref: string)
    requires var r := RewriteRefs(JObj(members)).members;
      forall k | k in members :: Refers(r[k], ref)
        <==> exists from: string :: Refers(members[k], from) && Renamed(from) == ref
    ensures Refers(RewriteRefs(JObj(members)), ref)
      <==> exists from: string :: Refers(JObj(members), from) && Renamed(from) == ref
  {
    var r := RewriteRefs(JObj(members)).members;
    OwnRenamed(members);
    hide RewriteRefs, Renamed;
    assert Refers(JObj(r), ref) <==> OwnRef(r) == Some(ref) || exists k | k in r :: Refers(r[k], ref);
    forall from: string
      ensures Refers(JObj(members), from)
        <==> OwnRef(members) == Some(from) || exists k | k in members :: Refers(members[k], from) {}
    if OwnRef(members).Some? {
      assert Refers(JObj(members), OwnRef(members).value);
    }
    if k :| k in r && Refers(r[k], ref) {
      var from: string :| Refers(members[k], from) && Renamed(from) == ref;
      assert Refers(JObj(members), from);
    }
    if from: string :| Refers(JObj(members), from) && Renamed(from) == ref {
      if OwnRef(members) != Some(from) {
        var k :| k in members && Refers(members[k], from);
        assert Refers(r[k], ref);
      }
    }
  }

  lemma {:induction false} PublishedUnchanged(j: Json)
    requires Published(j)
    ensures RewriteRefs(j) == j
  {
    match j
    case JArr(items) =>
      forall i | 0 <= i < |items| ensures RewriteRefs(items[i]) == items[i] {
        assert items[i] in items;
        assert forall ref | Refers(items[i], ref) :: Refers(j, ref);
        PublishedUnchanged(items[i]);
      }
    case JObj(members) =>
      forall k | k in members ensures RewriteRefs(j).members[k] == members[k] {
        assert forall ref | Refers(members[k], ref) :: Refers(j, ref);
        PublishedUnchanged(members[k]);
        assert k == REF && members[k].JStr? ==> Refers(j, members[k].s);
      }
      assert RewriteRefs(j).members == members;
    case _ =>
  }

  /** `rewriteRefs` publishes every document, and changes exactly those that were not published. */
  lemma RewritingPublishes(j: Json)
    ensures Published(RewriteRefs(j))
    ensures RewriteRefs(j) == j <==> Published(j)
  {
    forall ref | Refers(RewriteRefs(j), ref) ensures !StartsWith(ref, DEFS) {
      RewritingRenames(j, ref);
      var from: string :| Refers(j, from) && Renamed(from) == ref;
      RenamedIsPublic(from);
    }
    if Published(j) {
      PublishedUnchanged(j);
    }
  }

  lemma DescribeString(j: Json)
    ensures Describe(j).JStr? <==> j.JStr?
    ensures j.JStr? ==> Describe(j) == j
  {
  }

  /** `describeClockDefaults` leaves no marker, and changes exactly the documents that have one. */
  lemma {:induction false} DescribingSettles(j: Json)
    ensures Timeless(Describe(j))
    ensures Describe(j) == j <==> Timeless(j)
  {
    match j
    case JArr(items) =>
      forall i | 0 <= i < |items|
        ensures Timeless(Describe(items[i])) && (Describe(items[i]) == items[i] <==> Timeless(items[i]))
      {
        DescribingSettles(items[i]);
      }
      assert Describe(j) == j <==> forall i | 0 <= i < |items| :: Describe(items[i]) == items[i];
      assert forall x | x in items :: exists i | 0 <= i < |items| :: items[i] == x;
    case JObj(members) =>
      forall k | k in members
        ensures Timeless(Describe(members[k])) && (Describe(members[k]) == members[k] <==> Timeless(members[k]))
      {
        DescribingSettles(members[k]);
      }
      ObjectSettles(members);
    case _ =>
  }

  function Each(members: Members): Members {
    map k | k in members :: Describe(members[k])
  }

  lemma ObjectSettles(members: Members)
    requires forall k | k in members ::
      Timeless(Describe(members[k])) && (Describe(members[k]) == members[k] <==> Timeless(members[k]))
    ensures Timeless(Describe(JObj(members)))
    ensures Describe(JObj(members)) == JObj(members) <==> Timeless(JObj(members))
  {
    var inner := Each(members);
    forall k | k in members ensures inner[k].JStr? <==> members[k].JStr? {
      DescribeString(members[k]);
    }
    hide Describe;
    DescribeObject(members);
    assert inner == members <==> forall k | k in members :: inner[k] == members[k];
    SettledSettles(members, inner);
  }

  lemma SettledSettles(members: Members, inner: Members)
    requires inner.Keys == members.Keys
    requires forall k | k in members :: Timeless(inner[k]) && (inner[k].JStr? <==> members[k].JStr?)
    requires inner == members <==> forall k | k in members :: Timeless(members[k])
    ensures Timeless(JObj(Settled(inner)))
    ensures Settled(inner) == members <==> Timeless(JObj(members))
  {
    var settled := Settled(inner);
    assert CLOCK_DEFAULT != DESCRIPTION;
    assert forall k | k in settled :: Timeless(settled[k]);
    assert CLOCK_DEFAULT in members && CLOCK_DEFAULT !in settled ==> settled != members;
  }

  lemma DescribeObject(members: Members)
    ensures Describe(JObj(members)) == JObj(Settled(Each(members)))
  {
  }

  lemma {:induction false} Idempotent(j: Json)
    ensures RewriteRefs(RewriteRefs(j)) == RewriteRefs(j)
    ensures Describe(Describe(j)) == Describe(j)
  {
    RewritingPublishes(j);
    RewritingPublishes(RewriteRefs(j));
    DescribingSettles(j);
    DescribingSettles(Describe(j));
  }

  lemma RewriteString(j: Json)
    ensures RewriteRefs(j).JStr? <==> j.JStr?
    ensures j.JStr? ==> RewriteRefs(j) == j
  {
  }

  /** It does not matter which of the two rewriters is applied first. */
  lemma {:induction false} RewritersCommute(j: Json)
    ensures Describe(RewriteRefs(j)) == RewriteRefs(Describe(j))
  {
    match j
    case JArr(items) =>
      forall i | 0 <= i < |items| ensures Describe(RewriteRefs(items[i])) == RewriteRefs(Describe(items[i])) {
        RewritersCommute(items[i]);
      }
    case JObj(members) =>
      forall k | k in members ensures Describe(RewriteRefs(members[k])) == RewriteRefs(Describe(members[k])) {
        RewritersCommute(members[k]);
      }
      ObjectsCommute(members);
    case _ =>
  }

  lemma {:induction false} ObjectsCommute(members: Members)
    requires forall k | k in members :: Describe(RewriteRefs(members[k])) == RewriteRefs(Describe(members[k]))
    ensures Describe(RewriteRefs(JObj(members))) == RewriteRefs(Describe(JObj(members)))
  {
    var first := RewriteRefs(JObj(members)).members;
    var inner := Each(members);
    forall k | k in members ensures Each(first)[k] == RewriteRefs(JObj(inner)).members[k] {
      DescribeString(members[k]);
      RewriteString(members[k]);
    }
    assert Each(first) == RewriteRefs(JObj(inner)).members;
    SettledCommutes(inner);
  }

  lemma SettledCommutes(members: Members)
    ensures Settled(RewriteRefs(JObj(members)).members) == RewriteRefs(JObj(Settled(members))).members
  {
    var r := RewriteRefs(JObj(members)).members;
    assert CLOCK_DEFAULT != REF && DESCRIPTION != REF && DEFAULT != REF;
    forall k | k in members
      ensures (r[k].JStr? <==> members[k].JStr?) && (k != REF && members[k].JStr? ==> r[k] == members[k])
    {
      RewriteString(members[k]);
    }
    if Marked(members) {
      assert Explained(r) == RewriteRefs(JObj(Explained(members))).members;
    }
  }

  lemma {:induction false} DescribingRefers(j: Json, ref: string)
    requires Refers(Describe(j), ref)
    ensures Refers(j, ref)
  {
    match j
    case JArr(items) =>
      var i :| 0 <= i < |items| && Refers(Describe(items[i]), ref);
      DescribingRefers(items[i], ref);
      assert items[i] in items;
    case JObj(members) =>
      var settled := Describe(j).members;
      if REF in settled && settled[REF] == JStr(ref) {
        assert DESCRIPTION != REF;
        assert settled[REF] == Describe(members[REF]);
        DescribeString(members[REF]);
      } else {
        var k :| k in settled && Refers(settled[k], ref);
        assert settled[k] == Describe(members[k]);
        DescribingRefers(members[k], ref);
      }
    case _ =>
  }

  // ----- lifting the definitions out

  function Publish(j: Json): Json {
    Describe(RewriteRefs(j))
  }

  function Definitions(generated: Members): Members {
    if "$defs" in generated && generated["$defs"].JObj? then generated["$defs"].members else map[]
  }

  function Lifted(definitions: Members): Members {
    map n | n in definitions :: Publish(definitions[n])
  }

  function Root(generated: Members): Json {
    JObj(generated - {"$schema", "$defs"})
  }

  /** Every reference to one of the generator's definitions is to one of these, and every other one to a component. */
  ghost predicate Closed(j: Json, definitions: set<string>, components: set<string>) {
    && (forall name | Refers(j, DEFS + name) :: name in definitions)
    && (forall name | Refers(j, SCHEMAS + name) :: name in components)
  }

  ghost predicate ClosedDocument(components: Members) {
    forall n | n in components ::
      Published(components[n]) && Timeless(components[n]) && Closed(components[n], {}, components.Keys)
  }

  lemma PublishedIs(j: Json)
    ensures Published(Publish(j)) && Timeless(Publish(j))
  {
    RewritingPublishes(j);
    DescribingSettles(RewriteRefs(j));
    forall ref | Refers(Publish(j), ref) ensures !StartsWith(ref, DEFS) {
      DescribingRefers(RewriteRefs(j), ref);
    }
  }

  lemma PublishedIsClosed(j: Json, definitions: set<string>, components: set<string>)
    requires Closed(j, definitions, components)
    ensures Closed(Publish(j), {}, components + definitions)
  {
    PublishedIs(j);
    forall name | Refers(Publish(j), DEFS + name) ensures false {
      assert StartsWith(DEFS + name, DEFS);
    }
    forall name | Refers(Publish(j), SCHEMAS + name) ensures name in components + definitions {
      DescribingRefers(RewriteRefs(j), SCHEMAS + name);
      RewritingRenames(j, SCHEMAS + name);
      var from: string :| Refers(j, from) && Renamed(from) == SCHEMAS + name;
      if StartsWith(from, DEFS) {
        assert from == DEFS + from[|DEFS|..];
        assert (SCHEMAS + name)[|SCHEMAS|..] == name && (SCHEMAS + from[|DEFS|..])[|SCHEMAS|..] == from[|DEFS|..];
      }
    }
  }

  /** Lifting the definitions keeps every reference of the document and of the new schema good. */
  lemma LiftingCloses(generated: Members, components: Members)
    requires ClosedDocument(components)
    requires Closed(Root(generated), Definitions(generated).Keys, components.Keys)
    requires forall n | n in Definitions(generated) ::
      Closed(Definitions(generated)[n], Definitions(generated).Keys, components.Keys)
    ensures var all := components + Lifted(Definitions(generated));
      && ClosedDocument(all)
      && Published(Publish(Root(generated))) && Timeless(Publish(Root(generated)))
      && Closed(Publish(Root(generated)), {}, all.Keys)
  {
    var definitions := Definitions(generated);
    var all := components + Lifted(definitions);
    hide Publish, Published, Timeless, Definitions, Root;
    assert all.Keys == components.Keys + definitions.Keys;
    PublishedIs(Root(generated));
    PublishedIsClosed(Root(generated), definitions.Keys, components.Keys);
    forall n | n in all ensures Published(all[n]) && Timeless(all[n]) && Closed(all[n], {}, all.Keys) {
      if n in definitions {
        assert all[n] == Publish(definitions[n]);
        PublishedIs(definitions[n]);
        PublishedIsClosed(definitions[n], definitions.Keys, components.Keys);
      } else {
        assert Closed(components[n], {}, components.Keys);
      }
    }
  }

  class Document {
    var components: Members

    constructor ()
      ensures components == map[]
    {
      components := map[];
    }

    /** `toJsonSchema`, of what the generator made of one schema. */
    method ToJsonSchema(generated: Members) returns (schema: Json)
      modifies this
      ensures schema == Publish(Root(generated))
      ensures components == old(components) + Lifted(Definitions(generated))
    {
      var definitions := Definitions(generated);
      var left := definitions.Keys;
      while left != {}
        invariant left <= definitions.Keys
        invariant components == old(components) + map n | n in definitions && n !in left :: Publish(definitions[n])
        decreases left
      {
        var name :| name in left;
        components := components[name := Publish(definitions[name])];
        left := left - {name};
      }
      assert components == old(components) + Lifted(definitions);
      schema := Publish(Root(generated));
    }
  }
}
