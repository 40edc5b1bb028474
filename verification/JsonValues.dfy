/** JavaScript values, the JSON values a response carries, and `JSON.stringify` between them. */
module JsonValues {
  import opened Wrappers

  /** A value a handler may hold: the part of JavaScript that TypeScript's data types describe. */
  datatype Js =
    | Undefined
    | Null
    | Bool(b: bool)
    | Num(n: real)
    | Str(s: string)
    | Arr(items: seq<Js>)
    | Obj(members: map<string, Js>)

  /** A value on the wire. */
  datatype Json =
    | JNull
    | JBool(b: bool)
    | JNum(n: real)
    | JStr(s: string)
    | JArr(items: seq<Json>)
    | JObj(members: map<string, Json>)

  /**
   * What `JSON.stringify` sends: an undefined member is left out of its object, and an undefined
   * array element is sent as null. For an undefined response see `ResponseBody`.
   */
  function Serialise(v: Js): Json {
    match v
    case Undefined => JNull
    case Null => JNull
    case Bool(b) => JBool(b)
    case Num(n) => JNum(n)
    case Str(s) => JStr(s)
    case Arr(items) => JArr(seq(|items|, i requires 0 <= i < |items| => Serialise(items[i])))
    case Obj(members) => JObj(map k | k in members && members[k] != Undefined :: Serialise(members[k]))
  }

  /** The body of a response: of undefined there is none, and the body is empty. */
  function ResponseBody(v: Js): (r: Option<Json>)
    ensures r.None? <==> v == Undefined
  {
    if v == Undefined then None else Some(Serialise(v))
  }

  /** The value that a wire value is read back as. */
  function Parse(j: Json): Js {
    match j
    case JNull => Null
    case JBool(b) => Bool(b)
    case JNum(n) => Num(n)
    case JStr(s) => Str(s)
    case JArr(items) => Arr(seq(|items|, i requires 0 <= i < |items| => Parse(items[i])))
    case JObj(members) => Obj(map k | k in members :: Parse(members[k]))
  }

  lemma {:induction false} SerialiseParse(j: Json)
    ensures Serialise(Parse(j)) == j && Parse(j) != Undefined
  {
    match j
    case JArr(items) =>
      forall i | 0 <= i < |items| ensures Serialise(Parse(items[i])) == items[i] {
        SerialiseParse(items[i]);
      }
    case JObj(members) =>
      forall k | k in members ensures Serialise(Parse(members[k])) == members[k] && Parse(members[k]) != Undefined {
        SerialiseParse(members[k]);
      }
      assert Serialise(Parse(j)).members == members;
    case _ =>
  }
}
