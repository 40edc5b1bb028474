/** `decode` and `textOf`: the text of the workbook's elements. */
module WorkbookText {
  import opened Wrappers
  import opened Texts
  import opened WorkbookTags

  // ----- entities

  datatype Pass = HexPass | DecPass | NamedPass

  function HexOf(u: Unit): Option<nat> {
    if IsDigit(u) then Some(u - U('0'))
    else if U('a') <= u <= U('f') then Some(u - U('a') + 10)
    else if U('A') <= u <= U('F') then Some(u - U('A') + 10)
    else None
  }

  function DigitOf(pass: Pass, u: Unit): Option<nat> {
    if pass == HexPass then HexOf(u) else if IsDigit(u) then Some(u - U('0')) else None
  }

  /** The digits a text begins with: their value on top of `n`, and what follows them. */
  function ReadDigits(pass: Pass, t: Text, n: nat): (r: (nat, Text))
    ensures |r.1| <= |t| && (|r.1| == |t| ==> r == (n, t))
  {
    if t == [] || DigitOf(pass, t[0]).None? then (n, t)
    else ReadDigits(pass, t[1..], (if pass == HexPass then 16 else 10) * n + DigitOf(pass, t[0]).value)
  }

  const ENTITIES: seq<(Text, Unit)> := [
    (Ascii("&amp;"), U('&')), (Ascii("&lt;"), U('<')), (Ascii("&gt;"), U('>')),
    (Ascii("&quot;"), U('"')), (Ascii("&apos;"), U('\''))]

  function Lead(pass: Pass): Text {
    if pass == HexPass then Ascii("&#x") else Ascii("&#")
  }

  datatype Reference = Reference(point: nat, length: nat)

  function NamedAt(t: Text, i: nat): Option<Reference>
    requires i <= |ENTITIES|
    decreases |ENTITIES| - i
  {
    if i == |ENTITIES| then None
    else if StartsWith(t, ENTITIES[i].0) then Some(Reference(ENTITIES[i].1, |ENTITIES[i].0|))
    else NamedAt(t, i + 1)
  }

  function NumberAt(pass: Pass, t: Text): (r: Option<Reference>)
    ensures r.Some? ==> 0 < r.value.length <= |t|
  {
    if !StartsWith(t, Lead(pass)) then None
    else
      var digits := t[|Lead(pass)|..];
      var (n, rest) := ReadDigits(pass, digits, 0);
      if |rest| < |digits| && rest != [] && rest[0] == U(';') then Some(Reference(n, |t| - |rest| + 1)) else None
  }

  /** The reference a text begins with, of the kind that a pass replaces. */
  function ReferenceAt(pass: Pass, t: Text): (r: Option<Reference>)
    ensures r.Some? ==> 0 < r.value.length <= |t| && t[0] == U('&')
  {
    if pass == NamedPass then NamedAt(t, 0) else NumberAt(pass, t)
  }

  /** `String.fromCodePoint`; beyond the last code point it throws. */
  function FromCodePoint(n: nat): Option<Text> {
    if n < 0x10000 then Some([n])
    else if n < 0x110000 then Some([0xd800 + (n - 0x10000) / 0x400, 0xdc00 + (n - 0x10000) % 0x400])
    else None
  }

  /** One `replace` over a text. */
  function Replace(pass: Pass, t: Text): Option<Text>
    decreases |t|
  {
    if t == [] then Some([])
    else
      match ReferenceAt(pass, t)
      case None => Before([t[0]], Replace(pass, t[1..]))
      case Some(ref) =>
        match FromCodePoint(ref.point)
        case None => None
        case Some(units) => Before(units, Replace(pass, t[ref.length..]))
  }

  function Before(x: Text, rest: Option<Text>): Option<Text> {
    if rest.None? then None else Some(x + rest.value)
  }

  /** `decode`. */
  function Decode(t: Text): Option<Text> {
    match Replace(HexPass, t)
    case None => None
    case Some(a) => match Replace(DecPass, a) case None => None case Some(b) => Replace(NamedPass, b)
  }

  lemma NothingBefore(rest: Option<Text>)
    ensures Before([], rest) == rest
  {
    assert rest.Some? ==> [] + rest.value == rest.value;
  }

  lemma BeforeBefore(x: Text, y: Text, rest: Option<Text>)
    ensures Before(x, Before(y, rest)) == Before(x + y, rest)
  {
    assert rest.Some? ==> x + (y + rest.value) == x + y + rest.value;
  }

  // ----- escaped text is read back

  /** Which of the predefined entities stands for a unit. */
  function EntityOf(u: Unit): (r: nat)
    ensures r <= |ENTITIES| && (r < |ENTITIES| ==> ENTITIES[r].1 == u)
  {
    if u == U('&') then 0 else if u == U('<') then 1 else if u == U('>') then 2
    else if u == U('"') then 3 else if u == U('\'') then 4 else 5
  }

  /** A unit of escaped text: `&` and `<` always as entities, those in `also` too. */
  function EscapeUnit(u: Unit, also: set<Unit>): Text {
    if EntityOf(u) < |ENTITIES| && (u == U('&') || u == U('<') || u in also) then ENTITIES[EntityOf(u)].0 else [u]
  }

  function Escape(s: Text, also: set<Unit>): Text {
    if s == [] then [] else EscapeUnit(s[0], also) + Escape(s[1..], also)
  }

  lemma EntityShape(i: nat)
    requires i < |ENTITIES|
    ensures var e := ENTITIES[i].0;
      && |e| >= 4 && e[0] == U('&') && e[1] != U('#')
      && forall k | 0 < k < |e| :: e[k] != U('&') && e[k] != U('<')
  {
  }

  lemma EntityRead(i: nat, t: Text)
    requires i < |ENTITIES|
    ensures ReferenceAt(NamedPass, ENTITIES[i].0 + t) == Some(Reference(ENTITIES[i].1, |ENTITIES[i].0|))
  {
    var e := ENTITIES[i].0;
    var all := e + t;
    assert all[..|e|] == e && StartsWith(all, e);
    assert e[1] == all[1] && e[2] == all[2];
    forall k | 0 <= k < i ensures !StartsWith(all, ENTITIES[k].0) {
      assert ENTITIES[k].0[1] != e[1] || ENTITIES[k].0[2] != e[2];
    }
    NamedIs(all, i, 0);
  }

  lemma NamedIs(t: Text, i: nat, from: nat)
    requires from <= i < |ENTITIES| && StartsWith(t, ENTITIES[i].0)
    requires forall k | from <= k < i :: !StartsWith(t, ENTITIES[k].0)
    ensures NamedAt(t, from) == Some(Reference(ENTITIES[i].1, |ENTITIES[i].0|))
    decreases i - from
  {
    if from < i {
      NamedIs(t, i, from + 1);
    }
  }

  lemma NoNumber(pass: Pass, t: Text)
    requires pass != NamedPass && (|t| < 2 || t[0] != U('&') || t[1] != U('#'))
    ensures ReferenceAt(pass, t) == None
  {
    assert Lead(pass)[0] == U('&') && Lead(pass)[1] == U('#');
  }

  /** Text without an ampersand stays. */
  lemma {:induction false} PassesOver(pass: Pass, x: Text, t: Text)
    requires U('&') !in x
    ensures Replace(pass, x + t) == Before(x, Replace(pass, t))
  {
    hide ReferenceAt, FromCodePoint;
    if x == [] {
      assert x + t == t;
      assert Replace(pass, t).Some? ==> [] + Replace(pass, t).value == Replace(pass, t).value;
    } else {
      assert x[0] in x && (x + t)[0] == x[0] && (x + t)[1..] == x[1..] + t;
      PassesOver(pass, x[1..], t);
      assert Replace(pass, t).Some? ==> [x[0]] + (x[1..] + Replace(pass, t).value) == x + Replace(pass, t).value;
    }
  }

  lemma FirstPassed(pass: Pass, x: Text, t: Text)
    requires x != [] && ReferenceAt(pass, x + t) == None && U('&') !in x[1..]
    ensures Replace(pass, x + t) == Before(x, Replace(pass, t))
  {
    var rest := x[1..];
    assert x == [x[0]] + rest && (x + t)[0] == x[0] && (x + t)[1..] == rest + t;
    PassesOver(pass, rest, t);
    BeforeBefore([x[0]], rest, Replace(pass, t));
    hide ReferenceAt, FromCodePoint, Before;
  }

  lemma PassesEntity(pass: Pass, e: Text, t: Text)
    requires pass != NamedPass && |e| >= 2 && e[1] != U('#') && forall k | 0 < k < |e| :: e[k] != U('&')
    ensures Replace(pass, e + t) == Before(e, Replace(pass, t))
  {
    NoNumber(pass, e + t);
    FirstPassed(pass, e, t);
  }

  lemma {:induction false} NumbersKept(pass: Pass, s: Text, also: set<Unit>)
    requires pass != NamedPass
    ensures Replace(pass, Escape(s, also)) == Some(Escape(s, also))
  {
    if s != [] {
      NumbersKept(pass, s[1..], also);
      var first, rest := EscapeUnit(s[0], also), Escape(s[1..], also);
      if first == [s[0]] {
        PassesOver(pass, first, rest);
      } else {
        EntityShape(EntityOf(s[0]));
        PassesEntity(pass, first, rest);
      }
    }
  }

  lemma {:induction false} EntitiesUndone(s: Text, also: set<Unit>)
    ensures Replace(NamedPass, Escape(s, also)) == Some(s)
  {
    if s != [] {
      EntitiesUndone(s[1..], also);
      var u, rest := s[0], Escape(s[1..], also);
      var first := EscapeUnit(u, also);
      assert s == [u] + s[1..];
      if first == [u] {
        PassesOver(NamedPass, first, rest);
      } else {
        EntityShape(EntityOf(u));
        EntityRead(EntityOf(u), rest);
        hide ReferenceAt;
        Halves(first, rest);
      }
    }
  }

  /** Escaping is undone, whichever of the other entities it uses. */
  lemma EscapedReadsBack(s: Text, also: set<Unit>)
    ensures Decode(Escape(s, also)) == Some(s)
  {
    NumbersKept(HexPass, s, also);
    NumbersKept(DecPass, s, also);
    EntitiesUndone(s, also);
  }

  // ----- text written in numeric references is read twice

  function NumberOf(u: Unit): Text {
    Ascii("&#") + Digits(u) + [U(';')]
  }

  function Numbers(s: Text): Text {
    if s == [] then [] else NumberOf(s[0]) + Numbers(s[1..])
  }

  function OnTop(n: nat, d: Text): nat
    requires AllDigits(d)
    decreases |d|
  {
    if d == [] then n
    else
      assert d[0] in d;
      OnTop(10 * n + (d[0] - U('0')), d[1..])
  }

  lemma {:induction false} OnTopLast(n: nat, d: Text)
    requires AllDigits(d) && d != []
    ensures d[|d| - 1] in d && OnTop(n, d) == 10 * OnTop(n, d[..|d| - 1]) + (d[|d| - 1] - U('0'))
    decreases |d|
  {
    assert d[0] in d;
    if |d| > 1 {
      OnTopLast(10 * n + (d[0] - U('0')), d[1..]);
      assert d[1..][..|d| - 2] == d[..|d| - 1][1..];
    }
  }

  lemma {:induction false} OnTopOfNothing(d: Text)
    requires AllDigits(d)
    ensures OnTop(0, d) == Value(d)
  {
    if d != [] {
      OnTopLast(0, d);
      OnTopOfNothing(d[..|d| - 1]);
    }
  }

  lemma {:induction false} DigitsRead(n: nat, d: Text, z: Text)
    requires AllDigits(d) && z != [] && !IsDigit(z[0])
    ensures ReadDigits(DecPass, d + z, n) == (OnTop(n, d), z)
    decreases |d|
  {
    if d == [] {
      assert d + z == z;
    } else {
      assert d[0] in d && (d + z)[1..] == d[1..] + z;
      DigitsRead(10 * n + (d[0] - U('0')), d[1..], z);
    }
  }

  lemma NumberRead(u: Unit, t: Text)
    ensures ReferenceAt(DecPass, NumberOf(u) + t) == Some(Reference(u, |NumberOf(u)|))
    ensures ReferenceAt(HexPass, NumberOf(u) + t) == None
  {
    var d, z, lead := Digits(u), [U(';')] + t, Ascii("&#");
    var all := NumberOf(u) + t;
    assert all == lead + (d + z);
    Halves(lead, d + z);
    DigitsRead(0, d, z);
    OnTopOfNothing(d);
    ValueOfDigits(u);
    assert all[2] == d[0] && d[0] in d && Ascii("&#x")[2] == U('x');
    assert StartsWith(all, lead);
  }

  lemma {:induction false} HexPassesNumbers(s: Text)
    ensures Replace(HexPass, Numbers(s)) == Some(Numbers(s))
  {
    if s != [] {
      HexPassesNumbers(s[1..]);
      var first, rest := NumberOf(s[0]), Numbers(s[1..]);
      NumberRead(s[0], rest);
      NoAmpersandBehind(s[0]);
      hide ReferenceAt, FromCodePoint, NumberOf;
      FirstPassed(HexPass, first, rest);
    }
  }

  lemma NoAmpersandBehind(u: Unit)
    ensures U('&') !in NumberOf(u)[1..]
  {
    var t := NumberOf(u);
    assert t[1..] == [U('#')] + Digits(u) + [U(';')];
  }

  lemma {:induction false} DecUndoesNumbers(s: Text)
    ensures Replace(DecPass, Numbers(s)) == Some(s)
  {
    if s != [] {
      DecUndoesNumbers(s[1..]);
      var first, rest := NumberOf(s[0]), Numbers(s[1..]);
      NumberRead(s[0], rest);
      hide ReferenceAt;
      Halves(first, rest);
      assert s == [s[0]] + s[1..];
    }
  }

  /** The text holds no entity, read as it stands. */
  predicate NoEntity(s: Text) {
    forall i | 0 <= i < |s| :: ReferenceAt(NamedPass, s[i..]) == None
  }

  lemma NamedPoint(t: Text, i: nat)
    requires i <= |ENTITIES| && NamedAt(t, i).Some?
    ensures var ref := NamedAt(t, i).value; ref.point < 0x10000 && 4 <= ref.length <= |t|
    decreases |ENTITIES| - i
  {
    if StartsWith(t, ENTITIES[i].0) {
      EntityShape(i);
    } else {
      NamedPoint(t, i + 1);
    }
  }

  lemma ReplaceHead(s: Text)
    requires s != []
    ensures match ReferenceAt(NamedPass, s)
            case None => Replace(NamedPass, s) == Before([s[0]], Replace(NamedPass, s[1..]))
            case Some(ref) =>
              4 <= ref.length && Replace(NamedPass, s) == Before([ref.point], Replace(NamedPass, s[ref.length..]))
  {
    if ReferenceAt(NamedPass, s).Some? {
      NamedPoint(s, 0);
    }
  }

  lemma NoEntityHead(s: Text)
    requires s != []
    ensures NoEntity(s) <==> ReferenceAt(NamedPass, s) == None && NoEntity(s[1..])
  {
    hide ReferenceAt;
    assert s[0..] == s;
    forall i | 0 <= i < |s| - 1 ensures s[1..][i..] == s[i + 1..] {}
    assert forall i | 1 <= i < |s| :: s[1..][i - 1..] == s[i..];
  }

  lemma {:induction false} EntitiesShrink(s: Text)
    ensures Replace(NamedPass, s).Some? && |Replace(NamedPass, s).value| <= |s|
    ensures Replace(NamedPass, s) == Some(s) <==> NoEntity(s)
    decreases |s|
  {
    if s != [] {
      ReplaceHead(s);
      NoEntityHead(s);
      var ref := ReferenceAt(NamedPass, s);
      hide ReferenceAt, Replace, NoEntity;
      if ref.Some? {
        EntitiesShrink(s[ref.value.length..]);
      } else {
        EntitiesShrink(s[1..]);
        var r := Replace(NamedPass, s[1..]).value;
        assert s == [s[0]] + s[1..];
        assert ([s[0]] + r)[1..] == r;
      }
    }
  }

  /**
   * Text written in decimal references comes back exactly when it holds no entity: what one pass
   * has read, the next one reads again.
   */
  lemma NumbersReadBack(s: Text)
    ensures Decode(Numbers(s)) == Some(s) <==> NoEntity(s)
  {
    HexPassesNumbers(s);
    DecUndoesNumbers(s);
    EntitiesShrink(s);
  }

  // ----- strings made of runs

  /** The text of some elements; `None` when a reference is to no code point. */
  function TextsOf(es: seq<Element>): Option<Text> {
    if es == [] then Some([])
    else if Decode(es[0].body).None? then None
    else Before(Decode(es[0].body).value, TextsOf(es[1..]))
  }

  /** `textOf`. */
  method TextOf(fragment: Text) returns (text: Option<Text>)
    ensures text == TextsOf(Scan(fragment, [U('t')]))
  {
    hide Decode, Scan;
    var elements := Tags(fragment, [U('t')]);
    var out: Text := [];
    assert elements[0..] == elements;
    NothingBefore(TextsOf(elements));
    for i := 0 to |elements|
      invariant TextsOf(elements) == Before(out, TextsOf(elements[i..]))
    {
      assert elements[i..][1..] == elements[i + 1..];
      var decoded := Decode(elements[i].body);
      if decoded.None? {
        return None;
      }
      BeforeBefore(out, decoded.value, TextsOf(elements[i + 1..]));
      out := out + decoded.value;
    }
    assert elements[|elements|..] == [] && out + [] == out;
    text := Some(out);
  }

  datatype Run = Run(gap: Text, attrs: Text, text: Text)

  function WriteRun(r: Run, also: set<Unit>): Written {
    Written(r.gap, r.attrs, Escape(r.text, also), false)
  }

  function WriteRuns(rs: seq<Run>, also: set<Unit>): (ws: seq<Written>)
    ensures |ws| == |rs| && forall i | 0 <= i < |rs| :: ws[i] == WriteRun(rs[i], also)
  {
    seq(|rs|, i requires 0 <= i < |rs| => WriteRun(rs[i], also))
  }

  function Joined(rs: seq<Run>): Text {
    if rs == [] then [] else rs[0].text + Joined(rs[1..])
  }

  lemma {:induction false} EscapeHasNoTag(s: Text, also: set<Unit>)
    ensures U('<') !in Escape(s, also)
  {
    if s != [] {
      EscapeHasNoTag(s[1..], also);
      if EscapeUnit(s[0], also) != [s[0]] {
        EntityShape(EntityOf(s[0]));
      }
    }
  }

  ghost predicate GoodRun(r: Run, name: Text) {
    Inert(r.gap, name) && (r.attrs != [] ==>
      IsSpace(r.attrs[0]) && U('>') !in r.attrs && r.attrs[|r.attrs| - 1] != U('/'))
  }

  lemma RunIsWritten(r: Run, also: set<Unit>, name: Text)
    requires GoodRun(r, name)
    ensures WellWritten(WriteRun(r, also), name)
  {
    var body := Escape(r.text, also);
    EscapeHasNoTag(r.text, also);
    forall i | 0 <= i < |body| ensures !StartsWith(body[i..], Close(name)) {
      assert body[i..][0] == body[i] && body[i] in body;
    }
  }

  lemma {:induction false} RunTexts(rs: seq<Run>, also: set<Unit>)
    ensures TextsOf(Read(WriteRuns(rs, also))) == Some(Joined(rs))
  {
    hide Decode;
    if rs != [] {
      RunTexts(rs[1..], also);
      EscapedReadsBack(rs[0].text, also);
      assert Read(WriteRuns(rs, also))[1..] == Read(WriteRuns(rs[1..], also));
    }
  }

  /** A string stored as runs of escaped text is read as the text of its runs, one after the other. */
  lemma {:induction false} RunsReadBack(rs: seq<Run>, tail: Text, also: set<Unit>)
    requires Inert(tail, [U('t')]) && forall r | r in rs :: GoodRun(r, [U('t')])
    ensures TextsOf(Scan(WriteAll(WriteRuns(rs, also), [U('t')]) + tail, [U('t')])) == Some(Joined(rs))
  {
    var name, ws := [U('t')], WriteRuns(rs, also);
    forall w | w in ws ensures WellWritten(w, name) {
      var i :| 0 <= i < |rs| && ws[i] == w;
      assert rs[i] in rs;
      RunIsWritten(rs[i], also, name);
    }
    hide WellWritten, Scan, Inert, WriteAll;
    TagsReadBack(ws, tail, name);
    RunTexts(rs, also);
  }
}
