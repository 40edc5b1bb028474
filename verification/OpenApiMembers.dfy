/** What becomes of each member of a generated schema, in the words of the document. */
module OpenApiMembers {
  import opened Wrappers
  import opened JsonValues
  import opened OpenApi

  predicate IsString(members: Members, k: string) {
    k in members && members[k].JStr?
  }

  /** A reference to a definition of the generator is one to a component of that name. */
  lemma References(members: Members, name: string)
    ensures IsString(members, "$ref") && members["$ref"].s == "#/$defs/" + name ==>
      IsString(RewriteRefs(JObj(members)).members, "$ref")
      && RewriteRefs(JObj(members)).members["$ref"].s == "#/components/schemas/" + name
  {
    if IsString(members, "$ref") && members["$ref"].s == "#/$defs/" + name {
      assert members["$ref"].s[|DEFS|..] == name;
    }
  }

  /** All else is rewritten inside only. */
  lemma OtherMembers(members: Members, k: string)
    ensures RewriteRefs(JObj(members)).JObj? && RewriteRefs(JObj(members)).members.Keys == members.Keys
    ensures k in members && !(k == "$ref" && members[k].JStr? && "#/$defs/" <= members[k].s) ==>
      RewriteRefs(JObj(members)).members[k] == RewriteRefs(members[k])
  {
  }

  /** The two members that say what the default is go, and the description says it instead. */
  predicate Goes(members: Members, k: string) {
    IsString(members, "x-klopt-clock-default") && (k == "x-klopt-clock-default" || k == "default")
  }

  /** What the description of an object with a clock default says. */
  function Sentence(members: Members): string
    requires IsString(members, "x-klopt-clock-default")
  {
    (if IsString(members, "description") then members["description"].s + " " else "")
    + "Defaults to " + members["x-klopt-clock-default"].s + "."
  }

  /** Of an object without a clock default only what is inside changes; of one with it, three members too. */
  lemma DescribedMembers(members: Members, k: string)
    ensures var r := Describe(JObj(members));
      && r.JObj?
      && (k in r.members <==>
            (k in members && !Goes(members, k)) || (k == "description" && IsString(members, "x-klopt-clock-default")))
      && (k in r.members ==>
            r.members[k] ==
              if k == "description" && IsString(members, "x-klopt-clock-default") then JStr(Sentence(members))
              else Describe(members[k]))
  {
    var inner := Each(members);
    DescribeObject(members);
    forall n | n in members
      ensures (inner[n].JStr? <==> members[n].JStr?) && (inner[n].JStr? ==> inner[n] == members[n])
    {
      DescribeString(members[n]);
    }
    hide Describe;
    SettledMembers(members, inner, k);
  }

  lemma SettledMembers(members: Members, inner: Members, k: string)
    requires inner.Keys == members.Keys
    requires forall n | n in members ::
      (inner[n].JStr? <==> members[n].JStr?) && (inner[n].JStr? ==> inner[n] == members[n])
    ensures var r := Settled(inner);
      && (k in r <==>
            (k in members && !Goes(members, k)) || (k == "description" && IsString(members, "x-klopt-clock-default")))
      && (k in r ==>
            r[k] ==
              if k == "description" && IsString(members, "x-klopt-clock-default") then JStr(Sentence(members))
              else inner[k])
  {
    assert "description" != "x-klopt-clock-default" && "description" != "default";
    assert IsString(members, "x-klopt-clock-default") <==> Marked(inner);
  }

  /** The schema that is published has every member that was generated, other than the dialect and the definitions. */
  lemma RootMembers(generated: Members, k: string)
    ensures Root(generated).JObj?
    ensures k in Root(generated).members <==> k in generated && k != "$schema" && k != "$defs"
    ensures k in Root(generated).members ==> Root(generated).members[k] == generated[k]
  {
  }

  /** And every definition that was generated becomes a component of its name. */
  lemma DefinitionMembers(generated: Members, name: string)
    ensures var lifted := Lifted(Definitions(generated));
      && (name in lifted <==>
            "$defs" in generated && generated["$defs"].JObj? && name in generated["$defs"].members)
      && (name in lifted ==> lifted[name] == Describe(RewriteRefs(generated["$defs"].members[name])))
  {
  }

  /** Lists are rewritten element by element, and what is neither a list nor an object stays. */
  lemma Elements(j: Json, i: nat)
    ensures j.JArr? ==>
      && RewriteRefs(j).JArr? && |RewriteRefs(j).items| == |j.items|
      && Describe(j).JArr? && |Describe(j).items| == |j.items|
      && (i < |j.items| ==>
            RewriteRefs(j).items[i] == RewriteRefs(j.items[i]) && Describe(j).items[i] == Describe(j.items[i]))
    ensures !j.JArr? && !j.JObj? ==> RewriteRefs(j) == j && Describe(j) == j
  {
  }
}
