/** `decode` on text in which each unit is written as it stands, by name or by number: when it comes back. */
module WorkbookWritings {
  import opened Wrappers
  import opened Texts
  import opened WorkbookTags
  import opened WorkbookText

  // ----- text in which every unit is written in one of four ways

  /** A unit as it stands, or a reference that a pass is there to replace, and what it is replaced by. */
  datatype Token = Raw(u: Unit) | Ref(pass: Pass, text: Text, units: Text)

  /** A number in digits, or an entity, with the code point it stands for. */
  ghost predicate IsReference(pass: Pass, text: Text, units: Text) {
    && text != [] && text[0] == U('&')
    && (forall k | 0 < k < |text| :: text[k] != U('&'))
    && exists point: nat ::
        && FromCodePoint(point) == Some(units)
        && forall z :: ReferenceAt(pass, text + z) == Some(Reference(point, |text|))
  }

  ghost predicate WellFormed(ts: seq<Token>) {
    forall t | t in ts && t.Ref? :: IsReference(t.pass, t.text, t.units)
  }

  function TextOfToken(t: Token): Text {
    match t
    case Raw(u) => [u]
    case Ref(_, text, _) => text
  }

  /** What has been written. */
  function Source(ts: seq<Token>): Text {
    if ts == [] then [] else TextOfToken(ts[0]) + Source(ts[1..])
  }

  /** What is meant by it. */
  function Meant(ts: seq<Token>): Text {
    if ts == [] then [] else (match ts[0] case Raw(u) => [u] case Ref(_, _, units) => units) + Meant(ts[1..])
  }

  function Raws(units: Text): (r: seq<Token>)
    ensures |r| == |units| && forall i | 0 <= i < |units| :: r[i] == Raw(units[i])
  {
    seq(|units|, i requires 0 <= i < |units| => Raw(units[i]))
  }

  /** The writing after a pass has done its part. */
  function After(pass: Pass, ts: seq<Token>): seq<Token> {
    if ts == [] then []
    else (if ts[0].Ref? && ts[0].pass == pass then Raws(ts[0].units) else [ts[0]]) + After(pass, ts[1..])
  }

  /** The pass finds references only where they have been written. */
  ghost predicate OnlyWritten(pass: Pass, ts: seq<Token>) {
    forall i | 0 <= i < |ts| && ReferenceAt(pass, Source(ts[i..])).Some? :: ts[i].Ref? && ts[i].pass == pass
  }

  lemma {:induction false} ReadDigitsStops(pass: Pass, t: Text, n: nat, k: nat)
    requires k < |t| - |ReadDigits(pass, t, n).1|
    ensures DigitOf(pass, t[k]).Some?
    decreases |t|
  {
    if k > 0 {
      ReadDigitsStops(pass, t[1..], (if pass == HexPass then 16 else 10) * n + DigitOf(pass, t[0]).value, k - 1);
    }
  }

  lemma {:induction false} ReadDigitsLeaves(pass: Pass, t: Text, n: nat)
    ensures var rest := ReadDigits(pass, t, n).1; rest == t[|t| - |rest|..]
    decreases |t|
  {
    if t != [] && DigitOf(pass, t[0]).Some? {
      ReadDigitsLeaves(pass, t[1..], (if pass == HexPass then 16 else 10) * n + DigitOf(pass, t[0]).value);
    }
  }

  lemma NamedShape(t: Text, i: nat)
    requires i <= |ENTITIES| && NamedAt(t, i).Some?
    ensures var n := NamedAt(t, i).value.length;
      4 <= n <= |t| && t[1] != U('#') && forall k | 0 < k < n :: t[k] != U('&')
    decreases |ENTITIES| - i
  {
    if StartsWith(t, ENTITIES[i].0) {
      EntityShape(i);
      assert forall k | 0 <= k < |ENTITIES[i].0| :: t[k] == ENTITIES[i].0[k];
    } else {
      NamedShape(t, i + 1);
    }
  }

  lemma NumberShape(pass: Pass, t: Text)
    requires pass != NamedPass && NumberAt(pass, t).Some?
    ensures var n := NumberAt(pass, t).value.length; 4 <= n <= |t| && forall k | 0 < k < n :: t[k] != U('&')
    ensures t[1] == U('#') && (t[2] == U('x') <==> pass == HexPass)
  {
    var lead := Lead(pass);
    var digits := t[|lead|..];
    var rest := ReadDigits(pass, digits, 0).1;
    var n := NumberAt(pass, t).value.length;
    ReadDigitsLeaves(pass, digits, 0);
    assert forall k | 0 <= k < |lead| :: t[k] == lead[k];
    ReadDigitsStops(pass, digits, 0, 0);
    assert t[|lead|] == digits[0];
    forall k | 0 < k < n ensures t[k] != U('&') {
      if |lead| <= k < n - 1 {
        ReadDigitsStops(pass, digits, 0, k - |lead|);
        assert t[k] == digits[k - |lead|];
      } else if k == n - 1 {
        assert t[k] == digits[k - |lead|] == rest[0];
      }
    }
  }

  lemma ReferenceShape(pass: Pass, t: Text)
    requires ReferenceAt(pass, t).Some?
    ensures var n := ReferenceAt(pass, t).value.length; 4 <= n <= |t| && forall k | 0 < k < n :: t[k] != U('&')
  {
    if pass == NamedPass {
      NamedShape(t, 0);
    } else {
      NumberShape(pass, t);
    }
  }

  /** No text begins with references of two kinds. */
  lemma OnePass(a: Pass, b: Pass, t: Text)
    requires ReferenceAt(a, t).Some? && ReferenceAt(b, t).Some?
    ensures a == b
  {
    if a == NamedPass {
      NamedShape(t, 0);
    } else {
      NumberShape(a, t);
    }
    if b == NamedPass {
      NamedShape(t, 0);
    } else {
      NumberShape(b, t);
    }
  }

  lemma SourceHead(ts: seq<Token>)
    requires WellFormed(ts) && ts != []
    ensures Source(ts) != [] && (ts[0].Ref? ==> Source(ts)[0] == U('&'))
    ensures ts[0].Raw? ==>
      Source(ts)[0] == ts[0].u && Source(ts)[1..] == Source(ts[1..]) && |Meant(ts)| == 1 + |Meant(ts[1..])|
  {
    assert ts[0] in ts;
    hide IsReference;
    if ts[0].Ref? {
      ReferenceBegins(ts[0]);
    }
  }

  lemma ReferenceBegins(t: Token)
    requires t.Ref? && IsReference(t.pass, t.text, t.units)
    ensures t.text != [] && t.text[0] == U('&')
  {
  }

  lemma OneOn(all: Text, n: nat)
    requires 0 < n <= |all| && forall k | 0 < k < n :: all[k] != U('&')
    ensures forall k | 0 <= k < n - 1 :: all[1..][k] != U('&')
    ensures all[n..] == all[1..][n - 1..]
  {
  }

  /** Text without an ampersand is written unit by unit. */
  lemma {:induction false} RawBefore(ts: seq<Token>, n: nat)
    requires WellFormed(ts) && n <= |Source(ts)| && forall k | 0 <= k < n :: Source(ts)[k] != U('&')
    ensures n <= |ts| && Source(ts)[n..] == Source(ts[n..]) && |Meant(ts)| == n + |Meant(ts[n..])|
    decreases n, 1
  {
    if n == 0 {
      assert ts[0..] == ts;
    } else {
      assert ts != [];
      SourceHead(ts);
      assert ts[0].Raw?;
      hide Source, Meant, IsReference;
      RawRun(ts, n);
    }
  }

  lemma {:induction false} RawRun(ts: seq<Token>, n: nat)
    requires WellFormed(ts) && ts != [] && ts[0].Raw? && 0 < n <= |Source(ts)|
    requires forall k | 0 < k < n :: Source(ts)[k] != U('&')
    ensures n <= |ts| && Source(ts)[n..] == Source(ts[n..]) && |Meant(ts)| == n + |Meant(ts[n..])|
    decreases n, 0
  {
    SourceHead(ts);
    TailFormed(ts);
    hide Source, Meant, WellFormed;
    OneOn(Source(ts), n);
    RawBefore(ts[1..], n - 1);
    assert ts[1..][n - 1..] == ts[n..];
  }

  lemma TailFormed(ts: seq<Token>)
    requires WellFormed(ts) && ts != []
    ensures WellFormed(ts[1..])
  {
    assert forall x | x in ts[1..] :: x in ts;
  }

  /**
   * What a pass makes of a writing is a writing again, of the same units if the pass has found what
   * was written for it, of fewer if it has found more.
   */
  ghost predicate PassMakes(pass: Pass, ts: seq<Token>, us: seq<Token>) {
    && Replace(pass, Source(ts)) == Some(Source(us))
    && (forall u | u in us && u.Ref? :: u in ts && u.pass != pass)
    && |Meant(us)| <= |Meant(ts)|
    && (if OnlyWritten(pass, ts) then us == After(pass, ts) && Meant(us) == Meant(ts) else |Meant(us)| < |Meant(ts)|)
  }

  lemma OnlyWrittenHead(pass: Pass, ts: seq<Token>)
    requires ts != []
    ensures OnlyWritten(pass, ts) <==>
      (ReferenceAt(pass, Source(ts)).Some? ==> ts[0].Ref? && ts[0].pass == pass) && OnlyWritten(pass, ts[1..])
  {
    hide ReferenceAt, Source;
    assert ts[0..] == ts;
    forall i | 0 <= i < |ts| - 1 ensures ts[1..][i..] == ts[i + 1..] {}
    assert forall i | 1 <= i < |ts| :: ts[1..][i - 1..] == ts[i..];
  }

  lemma RawFirst(u: Unit, us: seq<Token>)
    ensures Source([Raw(u)] + us) == [u] + Source(us) && Meant([Raw(u)] + us) == [u] + Meant(us)
  {
    assert ([Raw(u)] + us)[1..] == us;
  }

  lemma {:induction false} RawsAre(units: Text, us: seq<Token>)
    ensures Source(Raws(units) + us) == units + Source(us) && Meant(Raws(units) + us) == units + Meant(us)
  {
    if units == [] {
      assert Raws(units) + us == us;
    } else {
      RawsAre(units[1..], us);
      RawFirst(units[0], Raws(units[1..]) + us);
      assert Raws(units) + us == [Raw(units[0])] + (Raws(units[1..]) + us);
      hide Source, Meant;
      FirstAgain(units, Source(us));
      FirstAgain(units, Meant(us));
    }
  }

  lemma FirstAgain(t: Text, x: Text)
    requires t != []
    ensures [t[0]] + (t[1..] + x) == t + x
  {
  }

  lemma RefReplaced(pass: Pass, ts: seq<Token>)
    requires WellFormed(ts) && ts != [] && ts[0].Ref? && ts[0].pass == pass
    ensures Replace(pass, Source(ts)) == Before(ts[0].units, Replace(pass, Source(ts[1..])))
  {
    var t, rest := ts[0], Source(ts[1..]);
    assert t in ts;
    var point: nat :| FromCodePoint(point) == Some(t.units)
      && forall z :: ReferenceAt(pass, t.text + z) == Some(Reference(point, |t.text|));
    assert ReferenceAt(pass, t.text + rest) == Some(Reference(point, |t.text|));
    hide ReferenceAt, FromCodePoint;
    Halves(t.text, rest);
  }

  lemma RefPassed(pass: Pass, ts: seq<Token>)
    requires WellFormed(ts) && ts != [] && ts[0].Ref? && ts[0].pass != pass
    ensures Replace(pass, Source(ts)) == Before(ts[0].text, Replace(pass, Source(ts[1..])))
    ensures ReferenceAt(pass, Source(ts)) == None
  {
    var t, rest := ts[0], Source(ts[1..]);
    assert t in ts && ReferenceAt(t.pass, t.text + rest).Some?;
    if ReferenceAt(pass, t.text + rest).Some? {
      OnePass(pass, t.pass, t.text + rest);
    }
    hide ReferenceAt;
    FirstPassed(pass, t.text, rest);
  }

  lemma RawPassed(pass: Pass, ts: seq<Token>)
    requires ts != [] && ts[0].Raw? && ReferenceAt(pass, Source(ts)) == None
    ensures Replace(pass, Source(ts)) == Before([ts[0].u], Replace(pass, Source(ts[1..])))
  {
    hide ReferenceAt;
    var rest := Source(ts[1..]);
    assert ([ts[0].u] + rest)[1..] == rest;
  }

  /** A reference nobody has written is made of units written as they stand. */
  lemma UnwrittenReplaced(pass: Pass, ts: seq<Token>) returns (n: nat)
    requires WellFormed(ts) && ts != [] && ts[0].Raw? && ReferenceAt(pass, Source(ts)).Some?
    ensures 4 <= n <= |ts| && |Meant(ts)| == n + |Meant(ts[n..])|
    ensures var units := FromCodePoint(ReferenceAt(pass, Source(ts)).value.point);
      Replace(pass, Source(ts)) == if units.None? then None else Before(units.value, Replace(pass, Source(ts[n..])))
  {
    n := ReferenceAt(pass, Source(ts)).value.length;
    ReferenceShape(pass, Source(ts));
    RawRun(ts, n);
    hide ReferenceAt, FromCodePoint, Source, Meant, IsReference;
  }

  /** What becomes of the first token when it is no raw beginning of an unwritten reference. */
  function Made(pass: Pass, t: Token): seq<Token> {
    if t.Ref? && t.pass == pass then Raws(t.units) else [t]
  }

  function MadeText(pass: Pass, t: Token): Text {
    if t.Ref? && t.pass == pass then t.units else TextOfToken(t)
  }

  lemma MadeIs(pass: Pass, ts: seq<Token>, vs: seq<Token>)
    requires ts != []
    ensures Source(Made(pass, ts[0]) + vs) == MadeText(pass, ts[0]) + Source(vs)
    ensures |Meant(Made(pass, ts[0]) + vs)| - |Meant(vs)| == |Meant(ts)| - |Meant(ts[1..])|
    ensures Meant(vs) == Meant(ts[1..]) ==> Meant(Made(pass, ts[0]) + vs) == Meant(ts)
  {
    var t := ts[0];
    if t.Ref? && t.pass == pass {
      RawsAre(t.units, vs);
    } else {
      assert ([t] + vs)[1..] == vs;
    }
  }

  lemma MakesOn(pass: Pass, ts: seq<Token>, vs: seq<Token>)
    requires WellFormed(ts) && ts != [] && PassMakes(pass, ts[1..], vs)
    requires Replace(pass, Source(ts)) == Before(MadeText(pass, ts[0]), Replace(pass, Source(ts[1..])))
    requires OnlyWritten(pass, ts) <==> OnlyWritten(pass, ts[1..])
    ensures PassMakes(pass, ts, Made(pass, ts[0]) + vs)
  {
    hide Replace, OnlyWritten, Source, Meant, WellFormed;
    MadeIs(pass, ts, vs);
    var us := Made(pass, ts[0]) + vs;
    assert After(pass, ts) == Made(pass, ts[0]) + After(pass, ts[1..]);
    assert forall x | x in ts[1..] :: x in ts;
    forall u | u in us && u.Ref? ensures u in ts && u.pass != pass {
      assert u in vs || u == ts[0];
    }
  }

  lemma StaysFormed(ts: seq<Token>, us: seq<Token>)
    requires WellFormed(ts) && forall u | u in us && u.Ref? :: u in ts
    ensures WellFormed(us)
  {
  }

  /** What a pass makes of a writing. When it throws, it has found a reference that was not written. */
  lemma {:induction false} PassWrites(pass: Pass, ts: seq<Token>) returns (us: seq<Token>)
    requires WellFormed(ts)
    ensures Replace(pass, Source(ts)).None? ==> !OnlyWritten(pass, ts)
    ensures Replace(pass, Source(ts)).Some? ==> PassMakes(pass, ts, us) && WellFormed(us)
    decreases |ts|, 1
  {
    us := [];
    if ts != [] {
      var t := ts[0];
      assert t in ts && forall x | x in ts[1..] :: x in ts;
      StaysFormed(ts, ts[1..]);
      OnlyWrittenHead(pass, ts);
      hide ReferenceAt, Replace, FromCodePoint, OnlyWritten, IsReference, WellFormed, Source, PassMakes;
      if t.Raw? && ReferenceAt(pass, Source(ts)).Some? {
        var n := UnwrittenReplaced(pass, ts);
        us := UnwrittenMakes(pass, ts, n);
      } else {
        var vs := PassWrites(pass, ts[1..]);
        us := Made(pass, t) + vs;
        if t.Raw? {
          RawPassed(pass, ts);
        } else if t.pass != pass {
          RefPassed(pass, ts);
        } else {
          RefReplaced(pass, ts);
        }
        if Replace(pass, Source(ts)).Some? {
          MakesOn(pass, ts, vs);
          MadeFormed(pass, ts, us);
        }
      }
    } else {
      NothingMade(pass);
    }
  }

  lemma MadeFormed(pass: Pass, ts: seq<Token>, us: seq<Token>)
    requires WellFormed(ts) && PassMakes(pass, ts, us)
    ensures WellFormed(us)
  {
    StaysFormed(ts, us);
  }

  lemma NothingMade(pass: Pass)
    ensures PassMakes(pass, [], []) && WellFormed([])
  {
  }

  lemma {:induction false} UnwrittenMakes(pass: Pass, ts: seq<Token>, n: nat) returns (us: seq<Token>)
    requires WellFormed(ts) && ts != [] && ts[0].Raw? && ReferenceAt(pass, Source(ts)).Some?
    requires 4 <= n <= |ts| && |Meant(ts)| == n + |Meant(ts[n..])|
    requires var units := FromCodePoint(ReferenceAt(pass, Source(ts)).value.point);
      Replace(pass, Source(ts)) == if units.None? then None else Before(units.value, Replace(pass, Source(ts[n..])))
    ensures !OnlyWritten(pass, ts)
    ensures Replace(pass, Source(ts)).Some? ==> PassMakes(pass, ts, us) && WellFormed(us)
    decreases |ts|, 0
  {
    assert ts[0..] == ts;
    us := [];
    if Replace(pass, Source(ts)).Some? {
      var units := FromCodePoint(ReferenceAt(pass, Source(ts)).value.point).value;
      assert |units| <= 2;
      assert forall x | x in ts[n..] :: x in ts;
      StaysFormed(ts, ts[n..]);
      hide ReferenceAt, Replace, FromCodePoint, OnlyWritten, IsReference, WellFormed, Source, Meant, PassMakes;
      var vs := PassWrites(pass, ts[n..]);
      us := Raws(units) + vs;
      UnwrittenMade(pass, ts, n, units, vs);
      MadeFormed(pass, ts, us);
    }
  }

  lemma UnwrittenMade(pass: Pass, ts: seq<Token>, n: nat, units: Text, vs: seq<Token>)
    requires 4 <= n <= |ts| && |Meant(ts)| == n + |Meant(ts[n..])| && |units| <= 2 && !OnlyWritten(pass, ts)
    requires PassMakes(pass, ts[n..], vs) && Replace(pass, Source(ts)) == Before(units, Replace(pass, Source(ts[n..])))
    ensures PassMakes(pass, ts, Raws(units) + vs)
  {
    hide Replace, OnlyWritten, Source, Meant;
    RawsAre(units, vs);
    var us := Raws(units) + vs;
    forall u | u in us && u.Ref? ensures u in ts && u.pass != pass {
      assert u in vs;
      assert u in ts[n..];
    }
  }

  lemma {:induction false} AllRaw(ts: seq<Token>)
    requires forall t | t in ts :: t.Raw?
    ensures Source(ts) == Meant(ts)
  {
    if ts != [] {
      assert ts[0] in ts && forall x | x in ts[1..] :: x in ts;
      AllRaw(ts[1..]);
    }
  }

  /** Each of the three passes finds references only where they have been written for it. */
  ghost predicate ReadAsWritten(ts: seq<Token>) {
    var hexed := After(HexPass, ts);
    OnlyWritten(HexPass, ts) && OnlyWritten(DecPass, hexed) && OnlyWritten(NamedPass, After(DecPass, hexed))
  }

  /**
   * However each unit is written, as it stands, by name or by number, the text comes back if and only
   * if no pass finds a reference that has not been written for it.
   */
  lemma MixedReadsBack(ts: seq<Token>)
    requires WellFormed(ts)
    ensures Decode(Source(ts)) == Some(Meant(ts)) <==> ReadAsWritten(ts)
  {
    hide Replace, OnlyWritten, Source, Meant, WellFormed, After;
    var a := PassWrites(HexPass, ts);
    if Replace(HexPass, Source(ts)).Some? {
      var b := PassWrites(DecPass, a);
      if Replace(DecPass, Source(a)).Some? {
        var c := PassWrites(NamedPass, b);
        if Replace(NamedPass, Source(b)).Some? {
          forall t | t in c ensures t.Raw? {
            assert t.Ref? ==> t in b && t in a;
          }
          AllRaw(c);
        }
      }
    }
  }

  lemma {:induction false} DigitsAt(pass: Pass, d: Text, z: Text, n: nat)
    requires (forall u | u in d :: DigitOf(pass, u).Some?) && z != [] && DigitOf(pass, z[0]).None?
    ensures ReadDigits(pass, d + z, n) == (ReadDigits(pass, d, n).0, z)
    decreases |d|
  {
    if d == [] {
      assert d + z == z;
    } else {
      assert d[0] in d && (d + z)[1..] == d[1..] + z && forall u | u in d[1..] :: u in d;
      DigitsAt(pass, d[1..], z, (if pass == HexPass then 16 else 10) * n + DigitOf(pass, d[0]).value);
    }
  }

  /** Digits between `&#` or `&#x` and a semicolon are a reference, whatever follows. */
  lemma NumberIsReference(pass: Pass, d: Text)
    requires pass != NamedPass && d != [] && forall u | u in d :: DigitOf(pass, u).Some?
    requires FromCodePoint(ReadDigits(pass, d, 0).0).Some?
    ensures IsReference(pass, Lead(pass) + d + [U(';')], FromCodePoint(ReadDigits(pass, d, 0).0).value)
  {
    var point, lead := ReadDigits(pass, d, 0).0, Lead(pass);
    var text := lead + d + [U(';')];
    assert forall u | u in d :: u != U('&');
    assert forall k | 0 < k < |text| :: text[k] in lead[1..] || text[k] in d || text[k] == U(';');
    forall z ensures ReferenceAt(pass, text + z) == Some(Reference(point, |text|)) {
      NumberBefore(pass, d, z);
    }
  }

  lemma NumberBefore(pass: Pass, d: Text, z: Text)
    requires pass != NamedPass && d != [] && forall u | u in d :: DigitOf(pass, u).Some?
    ensures var text := Lead(pass) + d + [U(';')];
      ReferenceAt(pass, text + z) == Some(Reference(ReadDigits(pass, d, 0).0, |text|))
  {
    var lead, end := Lead(pass), [U(';')] + z;
    assert lead + d + [U(';')] + z == lead + (d + end);
    hide Lead;
    Halves(lead, d + end);
    DigitsAt(pass, d, end, 0);
    assert StartsWith(lead + (d + end), lead);
  }

  lemma EntityIsReference(i: nat)
    requires i < |ENTITIES|
    ensures IsReference(NamedPass, ENTITIES[i].0, [ENTITIES[i].1])
  {
    EntityShape(i);
    forall z ensures ReferenceAt(NamedPass, ENTITIES[i].0 + z) == Some(Reference(ENTITIES[i].1, |ENTITIES[i].0|)) {
      EntityRead(i, z);
    }
    assert FromCodePoint(ENTITIES[i].1) == Some([ENTITIES[i].1]);
  }

  lemma NumberReplaced(u: Unit, rest: Text)
    ensures Replace(HexPass, NumberOf(u) + rest) == Before(NumberOf(u), Replace(HexPass, rest))
    ensures Replace(DecPass, NumberOf(u) + rest) == Before([u], Replace(DecPass, rest))
  {
    NumberRead(u, rest);
    NoAmpersandBehind(u);
    hide ReferenceAt, NumberOf;
    FirstPassed(HexPass, NumberOf(u), rest);
    Halves(NumberOf(u), rest);
  }

  lemma EntityReplaced(i: nat)
    requires i < |ENTITIES|
    ensures Replace(NamedPass, ENTITIES[i].0) == Some([ENTITIES[i].1])
  {
    var e := ENTITIES[i].0;
    EntityRead(i, []);
    EntityShape(i);
    assert e + [] == e && e[|e|..] == [];
    hide ReferenceAt;
    var unit := [ENTITIES[i].1];
    assert FromCodePoint(ENTITIES[i].1) == Some(unit);
    assert Replace(NamedPass, e) == Before(unit, Replace(NamedPass, e[|e|..]));
    assert unit + [] == unit;
  }

  /** An ampersand by its number, before the rest of an entity, is read twice. */
  lemma AmpersandByNumber(i: nat)
    requires i < |ENTITIES|
    ensures Decode(NumberOf(U('&')) + ENTITIES[i].0[1..]) == Some([ENTITIES[i].1])
  {
    var e := ENTITIES[i].0;
    var rest := e[1..];
    EntityShape(i);
    assert forall k | 0 <= k < |rest| :: rest[k] == e[k + 1];
    NumberReplaced(U('&'), rest);
    Plain(HexPass, rest);
    Plain(DecPass, rest);
    assert [U('&')] + rest == e;
    EntityReplaced(i);
  }

  /** Where XML has the text `&lt;`, `decode` has a `<`. */
  lemma AmpersandReadTwice()
    ensures Decode(Ascii("&#38;lt;")) == Some([U('<')])
  {
    assert Digits(38) == [U('3'), U('8')];
    assert NumberOf(U('&')) + ENTITIES[1].0[1..] == Ascii("&#38;lt;");
    hide Decode;
    AmpersandByNumber(1);
  }

  lemma Plain(pass: Pass, x: Text)
    requires U('&') !in x
    ensures Replace(pass, x) == Some(x)
  {
    PassesOver(pass, x, []);
    assert x + [] == x;
  }
}
