/** `stableJson`: JSON text that is the same for the same state, and different for a different one. */
module CanonicalJson {
  import opened Texts

  /** A resource's state; the entries of an object are in insertion order. */
  datatype Value =
    | Undefined
    | Null
    | Bool(b: bool)
    | Int(n: int)
    | Str(s: Text)
    | Arr(items: seq<Value>)
    | Obj(entries: seq<Entry>)

  datatype Entry = Entry(key: Text, value: Value)

  /** An object has no two entries of one key. */
  predicate Proper(v: Value) {
    match v
    case Arr(items) => forall x | x in items :: Proper(x)
    case Obj(entries) => DistinctKeys(entries) && forall e | e in entries :: Proper(e.value)
    case _ => true
  }

  predicate DistinctKeys(es: seq<Entry>) {
    forall i, k | 0 <= i < k < |es| :: es[i].key != es[k].key
  }

  // ----- printing

  predicate IsHigh(u: Unit) { 0xd800 <= u < 0xdc00 }
  predicate IsLow(u: Unit) { 0xdc00 <= u < 0xe000 }

  /** The letter after the backslash, for the units that have one. */
  function ShortEscape(u: Unit): (r: Unit)
    ensures r != 0 ==> r != U('u')
  {
    match u
    case 0x22 => U('"')
    case 0x5c => U('\\')
    case 0x08 => U('b')
    case 0x0c => U('f')
    case 0x0a => U('n')
    case 0x0d => U('r')
    case 0x09 => U('t')
    case _ => 0
  }

  /**
   * How the first unit of `s` is written in a string literal; `paired` when it is the second half of
   * a surrogate pair. A surrogate without its partner is escaped.
   */
  function FirstToken(s: Text, paired: bool): Text
    requires s != []
  {
    var u := s[0];
    if paired || (IsHigh(u) && |s| > 1 && IsLow(s[1])) then [u]
    else if IsHigh(u) || IsLow(u) then [U('\\'), U('u')] + Hex(4, u)
    else if ShortEscape(u) != 0 then [U('\\'), ShortEscape(u)]
    else if u < 0x20 then [U('\\'), U('u')] + Hex(4, u)
    else [u]
  }

  predicate NextPaired(s: Text, paired: bool)
    requires s != []
  {
    !paired && IsHigh(s[0]) && |s| > 1 && IsLow(s[1])
  }

  function Escaped(s: Text, paired: bool): Text {
    if s == [] then [] else FirstToken(s, paired) + Escaped(s[1..], NextPaired(s, paired))
  }

  /** `JSON.stringify` of a string. */
  function Quote(s: Text): Text {
    [U('"')] + Escaped(s, false) + [U('"')]
  }

  function Join(ts: seq<Text>): Text {
    if ts == [] then []
    else if |ts| == 1 then ts[0]
    else ts[0] + [U(',')] + Join(ts[1..])
  }

  function Insert(e: Entry, es: seq<Entry>): (r: seq<Entry>)
    ensures forall x :: x in r <==> x == e || x in es
    ensures |r| == |es| + 1
  {
    if es == [] || Less(e.key, es[0].key) then [e] + es
    else [es[0]] + Insert(e, es[1..])
  }

  /** The entries that are not undefined, by key. */
  function SortedEntries(es: seq<Entry>): (r: seq<Entry>)
    ensures forall x :: x in r <==> x in es && x.value != Undefined
  {
    if es == [] then []
    else if es[0].value == Undefined then SortedEntries(es[1..])
    else Insert(es[0], SortedEntries(es[1..]))
  }

  function StableJson(v: Value): Text
    decreases v, 1
  {
    match v
    case Undefined => Ascii("null")
    case Null => Ascii("null")
    case Bool(b) => if b then Ascii("true") else Ascii("false")
    case Int(n) => IntText(n)
    case Str(s) => Quote(s)
    case Arr(_) => [U('[')] + Join(Items(v)) + [U(']')]
    case Obj(_) => [U('{')] + Join(Members(v)) + [U('}')]
  }

  function Items(v: Value): seq<Text>
    requires v.Arr?
    decreases v, 0
  {
    seq(|v.items|, i requires 0 <= i < |v.items| => StableJson(v.items[i]))
  }

  function Members(v: Value): seq<Text>
    requires v.Obj?
    decreases v, 0
  {
    var sorted := SortedEntries(v.entries);
    seq(|sorted|, i requires 0 <= i < |sorted| => assert sorted[i] in sorted; Member(sorted[i]))
  }

  function Member(e: Entry): Text
    decreases e, 0
  {
    Quote(e.key) + [U(':')] + StableJson(e.value)
  }

  // ----- what two states have to have in common

  /** Equal up to the order of keys, with undefined members absent and an undefined elsewhere null. */
  ghost predicate Same(a: Value, b: Value) {
    match a
    case Undefined => b.Undefined? || b.Null?
    case Null => b.Undefined? || b.Null?
    case Bool(_) => a == b
    case Int(_) => a == b
    case Str(_) => a == b
    case Arr(items) => b.Arr? && |items| == |b.items| && forall i | 0 <= i < |items| :: Same(items[i], b.items[i])
    case Obj(entries) =>
      && b.Obj?
      && DefinedKeys(entries) == DefinedKeys(b.entries)
      && (forall e, f |
            e in entries && f in b.entries && e.key == f.key && e.value != Undefined && f.value != Undefined ::
            Same(e.value, f.value))
  }

  ghost function Keys(es: seq<Entry>): set<Text> {
    set e | e in es :: e.key
  }

  ghost function DefinedKeys(es: seq<Entry>): set<Text> {
    set e | e in es && e.value != Undefined :: e.key
  }

  // ----- the texts of values can be told apart where one ends

  /** What may follow a value inside a larger text: nothing, a comma or a closing bracket. */
  predicate Stop(x: Text) {
    x == [] || x[0] == U(',') || x[0] == U(']') || x[0] == U('}')
  }

  ghost predicate Separable(p: Text, q: Text) {
    forall x, y | Stop(x) && Stop(y) && p + x == q + y :: p == q && x == y
  }

  /** The unit an escape sequence or a plain unit stands for, and how long it is. */
  function Unescape(t: Text): (Unit, nat)
    requires t != []
  {
    if t[0] != U('\\') then (t[0], 1)
    else if |t| >= 6 && t[1] == U('u') && (forall u | u in t[2..6] :: IsHex(u)) then (FromHex(t[2..6]) % 0x10000, 6)
    else if |t| >= 2 then
      (match t[1]
       case 0x62 => 0x08
       case 0x66 => 0x0c
       case 0x6e => 0x0a
       case 0x72 => 0x0d
       case 0x74 => 0x09
       case u => u, 2)
    else (t[0], 1)
  }

  lemma TokenDecodes(s: Text, paired: bool, z: Text)
    requires s != [] && (paired ==> IsLow(s[0]))
    ensures Unescape(FirstToken(s, paired) + z) == (s[0], |FirstToken(s, paired)|)
    ensures FirstToken(s, paired)[0] != U('"')
  {
    var token := FirstToken(s, paired);
    if |token| == 6 {
      assert (token + z)[2..6] == Hex(4, s[0]);
      assert Pow16(4) == 0x10000;
      FromHexOfHex(4, s[0]);
    }
  }

  lemma {:induction false} HeadToken(s: Text, paired: bool, x: Text)
    requires s != [] && (paired ==> IsLow(s[0]))
    ensures var l, n := Escaped(s, paired) + [U('"')] + x, |FirstToken(s, paired)|;
      && l != [] && l[0] != U('"')
      && Unescape(l) == (s[0], n)
      && n <= |l| && l[n..] == Escaped(s[1..], NextPaired(s, paired)) + [U('"')] + x
  {
    var l, z := Escaped(s, paired) + [U('"')] + x, Escaped(s[1..], NextPaired(s, paired)) + [U('"')] + x;
    assert l == FirstToken(s, paired) + z;
    TokenDecodes(s, paired, z);
  }

  /** A string literal ends at its first unescaped quote, and gives back its string. */
  lemma {:induction false} QuoteSeparates(s: Text, p: bool, t: Text, q: bool, x: Text, y: Text)
    requires (p ==> s != [] && IsLow(s[0])) && (q ==> t != [] && IsLow(t[0]))
    requires Escaped(s, p) + [U('"')] + x == Escaped(t, q) + [U('"')] + y
    ensures s == t && x == y
    decreases |s| + |t|
  {
    hide FirstToken, Unescape;
    var l, r := Escaped(s, p) + [U('"')] + x, Escaped(t, q) + [U('"')] + y;
    if s != [] {
      HeadToken(s, p, x);
    }
    if t != [] {
      HeadToken(t, q, y);
    }
    if s == [] {
      assert l[0] == U('"') && l[1..] == x && r[1..] == y;
    } else {
      assert t != [];
      QuoteSeparates(s[1..], NextPaired(s, p), t[1..], NextPaired(t, q), x, y);
      assert s == [s[0]] + s[1..] && t == [t[0]] + t[1..];
    }
  }

  lemma QuotesSeparate(s: Text, t: Text, x: Text, y: Text)
    requires Quote(s) + x == Quote(t) + y
    ensures s == t && x == y
  {
    assert (Quote(s) + x)[1..] == Escaped(s, false) + [U('"')] + x;
    assert (Quote(t) + y)[1..] == Escaped(t, false) + [U('"')] + y;
    QuoteSeparates(s, false, t, false, x, y);
  }

  lemma NatsSeparate(m: nat, n: nat, x: Text, y: Text)
    requires Stop(x) && Stop(y) && Digits(m) + x == Digits(n) + y
    ensures m == n && x == y
  {
    hide Digits, DigitRun;
    var d, e := Digits(m), Digits(n);
    DigitsEnd(d, x);
    DigitsEnd(e, y);
    assert (d + x)[..|d|] == d && (e + y)[..|e|] == e;
    assert (d + x)[|d|..] == x && (e + y)[|e|..] == y;
    ValueOfDigits(m);
    ValueOfDigits(n);
  }

  lemma IntsSeparate(m: int, n: int, x: Text, y: Text)
    requires Stop(x) && Stop(y) && IntText(m) + x == IntText(n) + y
    ensures m == n && x == y
  {
    hide Digits, Stop;
    var l, r := IntText(m) + x, IntText(n) + y;
    var i, k := if m < 0 then -m else m, if n < 0 then -n else n;
    var d, e := Digits(i) + x, Digits(k) + y;
    assert Digits(i)[0] in Digits(i) && Digits(k)[0] in Digits(k);
    assert l == if m < 0 then [U('-')] + d else d;
    assert r == if n < 0 then [U('-')] + e else e;
    assert m < 0 <==> l[0] == U('-');
    assert n < 0 <==> r[0] == U('-');
    assert d == if m < 0 then l[1..] else l;
    assert e == if n < 0 then r[1..] else r;
    NatsSeparate(i, k, x, y);
  }

  /** What kind of value a text starts with. */
  function Kind(v: Value): nat {
    match v
    case Undefined => 0
    case Null => 0
    case Bool(b) => if b then 1 else 2
    case Int(_) => 3
    case Str(_) => 4
    case Arr(_) => 5
    case Obj(_) => 6
  }

  function KindOf(u: Unit): nat {
    if u == U('n') then 0 else if u == U('t') then 1 else if u == U('f') then 2
    else if IsDigit(u) || u == U('-') then 3 else if u == U('"') then 4 else if u == U('[') then 5
    else if u == U('{') then 6 else 7
  }

  lemma FirstUnit(v: Value)
    ensures StableJson(v) != [] && KindOf(StableJson(v)[0]) == Kind(v)
  {
    hide Join, Items, Members, Escaped, Digits;
    if v.Int? {
      var d := Digits(if v.n < 0 then -v.n else v.n);
      assert d[0] in d;
      assert StableJson(v)[0] == if v.n < 0 then U('-') else d[0];
    }
  }

  /** What follows the first of some joined texts, up to and past the closing bracket. */
  function AfterFirst(ps: seq<Text>, close: Unit, x: Text): Text
    requires ps != []
  {
    if |ps| == 1 then [close] + x else [U(',')] + (Join(ps[1..]) + [close] + x)
  }

  lemma Reassociate(p: Text, c: Unit, t: Text, d: Unit, x: Text)
    ensures p + [c] + t + [d] + x == p + ([c] + (t + [d] + x))
  {
  }

  lemma JoinLayer(ps: seq<Text>, close: Unit, x: Text)
    ensures var l := Join(ps) + [close] + x;
      if ps == [] then l[0] == close && l[1..] == x
      else l == ps[0] + AfterFirst(ps, close, x)
  {
    hide Stop;
    if |ps| == 1 {
      assert ps[0] + [close] + x == ps[0] + ([close] + x);
    } else if |ps| > 1 {
      var tail := Join(ps[1..]);
      assert Join(ps) == ps[0] + [U(',')] + tail;
      hide Join;
      Reassociate(ps[0], U(','), tail, close, x);
      assert AfterFirst(ps, close, x) == [U(',')] + (tail + [close] + x);
    }
  }

  /** Joined texts that can be told apart one by one can be told apart up to their closing bracket. */
  lemma {:induction false} JoinSeparates(ps: seq<Text>, qs: seq<Text>, close: Unit, x: Text, y: Text)
    requires close == U(']') || close == U('}')
    requires forall p | p in ps || p in qs :: !Stop(p)
    requires forall p, q | p in ps && q in qs :: Separable(p, q)
    requires Join(ps) + [close] + x == Join(qs) + [close] + y
    ensures ps == qs && x == y
  {
    hide Join;
    JoinLayer(ps, close, x);
    JoinLayer(qs, close, y);
    assert ps != [] ==> ps[0] in ps && !Stop(ps[0] + AfterFirst(ps, close, x));
    assert qs != [] ==> qs[0] in qs && !Stop(qs[0] + AfterFirst(qs, close, y));
    if ps != [] && qs != [] {
      var l, r := AfterFirst(ps, close, x), AfterFirst(qs, close, y);
      assert Separable(ps[0], qs[0]);
      assert l == r;
      assert ps == [ps[0]] + ps[1..] && qs == [qs[0]] + qs[1..];
      if |ps| == 1 {
        assert l[1..] == x && r[1..] == y;
      } else {
        assert l[1..] == Join(ps[1..]) + [close] + x && r[1..] == Join(qs[1..]) + [close] + y;
        JoinSeparates(ps[1..], qs[1..], close, x, y);
      }
    }
  }

  lemma MembersSeparable(e: Entry, f: Entry)
    requires Separable(StableJson(e.value), StableJson(f.value))
    ensures Separable(Member(e), Member(f))
  {
    forall x, y | Stop(x) && Stop(y) && Member(e) + x == Member(f) + y ensures Member(e) == Member(f) && x == y {
      MemberSeparates(e, f, x, y);
    }
  }

  lemma MemberSeparates(e: Entry, f: Entry, x: Text, y: Text)
    requires Separable(StableJson(e.value), StableJson(f.value))
    requires Stop(x) && Stop(y) && Member(e) + x == Member(f) + y
    ensures Member(e) == Member(f) && x == y
  {
    hide StableJson, Quote, Stop;
    var p, q := StableJson(e.value), StableJson(f.value);
    var px, qy := [U(':')] + (p + x), [U(':')] + (q + y);
    assert Member(e) + x == Quote(e.key) + px;
    assert Member(f) + y == Quote(f.key) + qy;
    QuotesSeparate(e.key, f.key, px, qy);
    assert px[1..] == p + x && qy[1..] == q + y;
  }

  lemma Bracketed(v: Value, x: Text)
    ensures v.Arr? ==> (StableJson(v) + x)[1..] == Join(Items(v)) + [U(']')] + x
    ensures v.Obj? ==> (StableJson(v) + x)[1..] == Join(Members(v)) + [U('}')] + x
  {
    hide Items, Members, Join;
  }

  lemma LiteralLayer(a: Value, b: Value)
    requires Kind(a) == Kind(b) && Kind(a) < 3
    ensures StableJson(a) == StableJson(b)
  {
  }

  lemma KindsAgree(a: Value, b: Value, x: Text, y: Text)
    requires StableJson(a) + x == StableJson(b) + y
    ensures Kind(a) == Kind(b)
  {
    FirstUnit(a);
    FirstUnit(b);
    assert (StableJson(a) + x)[0] == StableJson(a)[0] && (StableJson(b) + y)[0] == StableJson(b)[0];
  }

  lemma {:induction false} ValuesSeparate(a: Value, b: Value, x: Text, y: Text)
    requires Stop(x) && Stop(y) && StableJson(a) + x == StableJson(b) + y
    ensures StableJson(a) == StableJson(b) && x == y
    decreases a, 1
  {
    KindsAgree(a, b, x, y);
    match a
    case Int(m) => IntsSeparate(m, b.n, x, y);
    case Str(s) => QuotesSeparate(s, b.s, x, y);
    case Arr(_) =>
      hide StableJson, Items, Join, Stop;
      Bracketed(a, x);
      Bracketed(b, y);
      ItemsSeparable(a, b);
      JoinSeparates(Items(a), Items(b), U(']'), x, y);
      Rebracket(a, b);
    case Obj(_) =>
      hide StableJson, Members, Join, Stop;
      Bracketed(a, x);
      Bracketed(b, y);
      ObjectsSeparable(a, b);
      JoinSeparates(Members(a), Members(b), U('}'), x, y);
      Rebracket(a, b);
    case _ =>
      hide StableJson, Stop;
      LiteralLayer(a, b);
      var n := |StableJson(a)|;
      assert (StableJson(a) + x)[n..] == x && (StableJson(b) + y)[n..] == y;
  }

  lemma Rebracket(a: Value, b: Value)
    requires (a.Arr? && b.Arr? && Items(a) == Items(b)) || (a.Obj? && b.Obj? && Members(a) == Members(b))
    ensures StableJson(a) == StableJson(b)
  {
  }

  lemma {:induction false} ItemsSeparable(a: Value, b: Value)
    requires a.Arr? && b.Arr?
    ensures forall p | p in Items(a) || p in Items(b) :: !Stop(p)
    ensures forall p, q | p in Items(a) && q in Items(b) :: Separable(p, q)
    decreases a, 0
  {
    hide StableJson;
    ItemsStart(a);
    ItemsStart(b);
    forall p, q, x, y | p in Items(a) && q in Items(b) && Stop(x) && Stop(y) && p + x == q + y
      ensures p == q && x == y
    {
      var i :| 0 <= i < |a.items| && p == StableJson(a.items[i]);
      var k :| 0 <= k < |b.items| && q == StableJson(b.items[k]);
      ValuesSeparate(a.items[i], b.items[k], x, y);
    }
  }

  lemma ItemsStart(v: Value)
    requires v.Arr?
    ensures forall p | p in Items(v) :: !Stop(p)
  {
    hide StableJson;
    forall i | 0 <= i < |v.items| ensures !Stop(Items(v)[i]) {
      FirstUnit(v.items[i]);
    }
  }

  lemma {:induction false} ObjectsSeparable(a: Value, b: Value)
    requires a.Obj? && b.Obj?
    ensures forall p | p in Members(a) || p in Members(b) :: !Stop(p)
    ensures forall p, q | p in Members(a) && q in Members(b) :: Separable(p, q)
    decreases a, 0
  {
    var es, fs := SortedEntries(a.entries), SortedEntries(b.entries);
    forall p, q | p in Members(a) && q in Members(b) ensures Separable(p, q) {
      var i :| 0 <= i < |es| && p == Member(es[i]);
      var k :| 0 <= k < |fs| && q == Member(fs[k]);
      assert es[i] in es;
      var v, w := es[i].value, fs[k].value;
      forall x, y | Stop(x) && Stop(y) && StableJson(v) + x == StableJson(w) + y
        ensures StableJson(v) == StableJson(w) && x == y
      {
        ValuesSeparate(v, w, x, y);
      }
      MembersSeparable(es[i], fs[k]);
    }
  }

  // ----- sorting

  predicate Sorted(es: seq<Entry>) {
    forall i, k | 0 <= i < k < |es| :: Less(es[i].key, es[k].key)
  }

  lemma {:induction false} InsertSorts(e: Entry, es: seq<Entry>)
    requires Sorted(es) && forall f | f in es :: f.key != e.key
    ensures Sorted(Insert(e, es))
  {
    if es != [] {
      LessTotal(e.key, es[0].key);
      if Less(e.key, es[0].key) {
        forall k | 0 < k < |es| ensures Less(e.key, es[k].key) {
          LessTransitive(e.key, es[0].key, es[k].key);
        }
      } else {
        InsertSorts(e, es[1..]);
        var r := Insert(e, es[1..]);
        forall k | 0 <= k < |r| ensures Less(es[0].key, r[k].key) {
          assert r[k] in r;
        }
      }
    }
  }

  lemma {:induction false} EntriesSorted(es: seq<Entry>)
    requires DistinctKeys(es)
    ensures Sorted(SortedEntries(es))
  {
    if es != [] {
      EntriesSorted(es[1..]);
      if es[0].value != Undefined {
        InsertSorts(es[0], SortedEntries(es[1..]));
      }
    }
  }

  /** The keys of two sorted lists agree in order when they agree as sets. */
  lemma {:induction false} SortedAgree(es: seq<Entry>, fs: seq<Entry>)
    requires Sorted(es) && Sorted(fs) && Keys(es) == Keys(fs)
    ensures |es| == |fs| && forall i | 0 <= i < |es| :: es[i].key == fs[i].key
  {
    if es == [] || fs == [] {
      assert es != [] ==> es[0].key in Keys(es);
      assert fs != [] ==> fs[0].key in Keys(fs);
    } else {
      var a, b := es[0].key, fs[0].key;
      assert a in Keys(es) && b in Keys(fs);
      SameLeast(es, fs);
      TailKeys(es);
      TailKeys(fs);
      SortedAgree(es[1..], fs[1..]);
    }
  }

  lemma SameLeast(es: seq<Entry>, fs: seq<Entry>)
    requires Sorted(es) && Sorted(fs) && es != [] && fs != []
    requires fs[0].key in Keys(es) && es[0].key in Keys(fs)
    ensures es[0].key == fs[0].key
  {
    var i :| 0 <= i < |es| && es[i].key == fs[0].key;
    var k :| 0 <= k < |fs| && fs[k].key == es[0].key;
    if i > 0 && k > 0 {
      LessTransitive(es[0].key, es[i].key, fs[k].key);
      LessIrreflexive(es[0].key);
    }
  }

  lemma TailKeys(es: seq<Entry>)
    requires Sorted(es) && es != []
    ensures Keys(es[1..]) == Keys(es) - {es[0].key}
  {
    LessIrreflexive(es[0].key);
    assert es == [es[0]] + es[1..];
    forall e | e in es[1..] ensures e.key != es[0].key {
      var i :| 0 < i < |es| && es[i] == e;
    }
  }

  lemma SortedKeys(es: seq<Entry>)
    ensures Keys(SortedEntries(es)) == DefinedKeys(es)
  {
  }

  // ----- the canonical form

  /** States that are the same print the same. */
  lemma {:induction false} SamePrints(a: Value, b: Value)
    requires Proper(a) && Proper(b) && Same(a, b)
    ensures StableJson(a) == StableJson(b)
    decreases a, 1
  {
    match a
    case Arr(items) =>
      forall i | 0 <= i < |items| ensures StableJson(items[i]) == StableJson(b.items[i]) {
        SamePrints(items[i], b.items[i]);
      }
      assert Items(a) == Items(b);
    case Obj(_) => SameMembersPrint(a, b);
    case _ =>
  }

  lemma {:induction false} SameMembersPrint(a: Value, b: Value)
    requires Proper(a) && Proper(b) && a.Obj? && Same(a, b)
    ensures Members(a) == Members(b)
    decreases a, 0
  {
    hide StableJson, Less, SortedEntries, DefinedKeys;
    var es, fs := SortedEntries(a.entries), SortedEntries(b.entries);
    EntriesSorted(a.entries);
    EntriesSorted(b.entries);
    SortedKeys(a.entries);
    SortedKeys(b.entries);
    SortedAgree(es, fs);
    forall i | 0 <= i < |es| ensures Member(es[i]) == Member(fs[i]) {
      assert es[i] in es && fs[i] in fs;
      SamePrints(es[i].value, fs[i].value);
    }
  }

  /** States that print the same are the same. */
  lemma {:induction false} PrintsSame(a: Value, b: Value)
    requires Proper(a) && Proper(b) && StableJson(a) == StableJson(b)
    ensures Same(a, b)
    decreases a, 1
  {
    KindsAgree(a, b, [], []);
    match a
    case Int(m) => IntsSeparate(m, b.n, [], []);
    case Str(s) => QuotesSeparate(s, b.s, [], []);
    case Arr(items) =>
      hide StableJson, Stop, Join;
      Bracketed(a, []);
      Bracketed(b, []);
      ItemsSeparable(a, b);
      JoinSeparates(Items(a), Items(b), U(']'), [], []);
      forall i | 0 <= i < |items| ensures Same(items[i], b.items[i]) {
        assert Items(a)[i] == Items(b)[i];
        PrintsSame(items[i], b.items[i]);
      }
    case Obj(_) =>
      hide StableJson, Stop, Join, Members;
      Bracketed(a, []);
      Bracketed(b, []);
      ObjectsSeparable(a, b);
      JoinSeparates(Members(a), Members(b), U('}'), [], []);
      EntriesPrintSame(a, b);
    case _ =>
  }

  lemma MemberParts(e: Entry, f: Entry)
    requires Member(e) == Member(f)
    ensures e.key == f.key && StableJson(e.value) == StableJson(f.value)
  {
    hide StableJson, Quote;
    var x, y := [U(':')] + StableJson(e.value), [U(':')] + StableJson(f.value);
    assert Member(e) == Quote(e.key) + x && Member(f) == Quote(f.key) + y;
    QuotesSeparate(e.key, f.key, x, y);
    assert x[1..] == StableJson(e.value) && y[1..] == StableJson(f.value);
  }

  lemma {:induction false} EntriesPrintSame(a: Value, b: Value)
    requires Proper(a) && Proper(b) && a.Obj? && b.Obj? && Members(a) == Members(b)
    ensures Same(a, b)
    decreases a, 0
  {
    hide StableJson, Less, SortedEntries, Member;
    var es, fs := SortedEntries(a.entries), SortedEntries(b.entries);
    assert |es| == |Members(a)| == |fs|;
    forall i | 0 <= i < |es| ensures es[i].key == fs[i].key && Same(es[i].value, fs[i].value) {
      assert Members(a)[i] == Members(b)[i];
      assert es[i] in es && fs[i] in fs;
      MemberParts(es[i], fs[i]);
      PrintsSame(es[i].value, fs[i].value);
    }
    SortedKeys(a.entries);
    SortedKeys(b.entries);
    assert Keys(es) == Keys(fs) by {
      assert forall i | 0 <= i < |es| :: es[i] in es && fs[i] in fs;
    }
    forall e, f | e in a.entries && f in b.entries && e.key == f.key && e.value != Undefined && f.value != Undefined
      ensures Same(e.value, f.value)
    {
      assert e in es && f in fs;
      var i :| 0 <= i < |es| && es[i] == e;
      assert fs[i] in fs;
      assert fs[i] == f;
    }
  }

  /** `stableJson` is a canonical form. */
  lemma {:induction false} Canonical(a: Value, b: Value)
    requires Proper(a) && Proper(b)
    ensures StableJson(a) == StableJson(b) <==> Same(a, b)
  {
    if StableJson(a) == StableJson(b) {
      PrintsSame(a, b);
    }
    if Same(a, b) {
      SamePrints(a, b);
    }
  }
}
