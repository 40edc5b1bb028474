/** What `decode` takes for a reference, and which characters it makes of it. */
module WorkbookReferences {
  import opened Wrappers
  import opened Texts
  import opened WorkbookTags
  import opened WorkbookText
  import opened WorkbookWritings

  /** Hexadecimal digits of either case, and decimal ones, by their code units. */
  lemma DigitValues(pass: Pass, u: Unit)
    ensures DigitOf(pass, u) ==
      if 48 <= u <= 57 then Some(u - 48)
      else if pass == HexPass && 97 <= u <= 102 then Some(u - 87)
      else if pass == HexPass && 65 <= u <= 70 then Some(u - 55)
      else None
  {
  }

  predicate AreDigits(pass: Pass, d: Text) {
    forall u | u in d :: DigitOf(pass, u).Some?
  }

  /** The number that digits are, the last one counting least. */
  function Number(pass: Pass, d: Text): nat
    requires AreDigits(pass, d)
  {
    if d == [] then 0
    else
      assert d[|d| - 1] in d;
      (if pass == HexPass then 16 else 10) * Number(pass, d[..|d| - 1]) + DigitOf(pass, d[|d| - 1]).value
  }

  lemma {:induction false} ReadOneMore(pass: Pass, d: Text, u: Unit, n: nat)
    requires AreDigits(pass, d) && DigitOf(pass, u).Some?
    ensures ReadDigits(pass, d + [u], n).0 ==
      (if pass == HexPass then 16 else 10) * ReadDigits(pass, d, n).0 + DigitOf(pass, u).value
    decreases |d|
  {
    hide DigitOf;
    if d == [] {
      assert d + [u] == [u] && [u][1..] == [];
      var m := (if pass == HexPass then 16 else 10) * n + DigitOf(pass, u).value;
      assert ReadDigits(pass, [u], n) == ReadDigits(pass, [], m);
    } else {
      assert d[0] in d && (d + [u])[1..] == d[1..] + [u];
      ReadOneMore(pass, d[1..], u, (if pass == HexPass then 16 else 10) * n + DigitOf(pass, d[0]).value);
    }
  }

  lemma {:induction false} ReadsNumber(pass: Pass, d: Text)
    requires AreDigits(pass, d)
    ensures ReadDigits(pass, d, 0).0 == Number(pass, d)
  {
    if d != [] {
      var k := |d| - 1;
      assert d == d[..k] + [d[k]] && d[k] in d;
      ReadsNumber(pass, d[..k]);
      ReadOneMore(pass, d[..k], d[k], 0);
    }
  }

  /** Lead, digits and a semicolon. */
  function Numbered(pass: Pass, d: Text): Text {
    (if pass == HexPass then [38, 35, 120] else [38, 35]) + d + [59]
  }

  lemma Leads(pass: Pass)
    requires pass != NamedPass
    ensures Lead(pass) == if pass == HexPass then [38, 35, 120] else [38, 35]
  {
  }

  predicate WrittenNumber(pass: Pass, t: Text, d: Text) {
    d != [] && AreDigits(pass, d) && StartsWith(t, Numbered(pass, d))
  }

  /** A text begins with a numbered reference if and only if it begins with lead, digits and semicolon. */
  lemma NumbersExactly(pass: Pass, t: Text, ref: Reference)
    requires pass != NamedPass
    ensures NumberAt(pass, t) == Some(ref) <==>
      exists d :: WrittenNumber(pass, t, d) && ref == Reference(Number(pass, d), |Numbered(pass, d)|)
  {
    Leads(pass);
    if NumberAt(pass, t) == Some(ref) {
      var d := NumberIsWritten(pass, t);
    }
    if d :| WrittenNumber(pass, t, d) && ref == Reference(Number(pass, d), |Numbered(pass, d)|) {
      assert t == Numbered(pass, d) + t[|Numbered(pass, d)|..];
      ReadsNumber(pass, d);
      NumberBefore(pass, d, t[|Numbered(pass, d)|..]);
      assert U(';') == 59;
    }
  }

  lemma {:induction false} DigitsTaken(pass: Pass, t: Text, n: nat) returns (d: Text)
    ensures AreDigits(pass, d) && t == d + ReadDigits(pass, t, n).1
    ensures ReadDigits(pass, t, n).0 == ReadDigits(pass, d, n).0
    decreases |t|
  {
    hide DigitOf;
    if t == [] || DigitOf(pass, t[0]).None? {
      d := [];
    } else {
      var m := (if pass == HexPass then 16 else 10) * n + DigitOf(pass, t[0]).value;
      var more := DigitsTaken(pass, t[1..], m);
      d := [t[0]] + more;
      assert d[1..] == more && t == [t[0]] + t[1..];
    }
  }

  lemma NumberIsWritten(pass: Pass, t: Text) returns (d: Text)
    requires pass != NamedPass && NumberAt(pass, t).Some?
    ensures WrittenNumber(pass, t, d)
    ensures NumberAt(pass, t) == Some(Reference(Number(pass, d), |Numbered(pass, d)|))
  {
    Leads(pass);
    var lead := Lead(pass);
    var digits := t[|lead|..];
    d := DigitsTaken(pass, digits, 0);
    ReadsNumber(pass, d);
    var rest := ReadDigits(pass, digits, 0).1;
    assert t == lead + digits && rest == [rest[0]] + rest[1..];
    assert t == Numbered(pass, d) + rest[1..];
  }

  /** The five names, and what they stand for. */
  lemma Names(t: Text)
    ensures ReferenceAt(NamedPass, t) ==
      if StartsWith(t, Ascii("&amp;")) then Some(Reference(38, 5))
      else if StartsWith(t, Ascii("&lt;")) then Some(Reference(60, 4))
      else if StartsWith(t, Ascii("&gt;")) then Some(Reference(62, 4))
      else if StartsWith(t, Ascii("&quot;")) then Some(Reference(34, 6))
      else if StartsWith(t, Ascii("&apos;")) then Some(Reference(39, 6))
      else None
  {
    assert NamedAt(t, 5) == None;
    assert NamedAt(t, 4) == if StartsWith(t, ENTITIES[4].0) then Some(Reference(39, 6)) else NamedAt(t, 5);
    assert NamedAt(t, 3) == if StartsWith(t, ENTITIES[3].0) then Some(Reference(34, 6)) else NamedAt(t, 4);
    assert NamedAt(t, 2) == if StartsWith(t, ENTITIES[2].0) then Some(Reference(62, 4)) else NamedAt(t, 3);
    assert NamedAt(t, 1) == if StartsWith(t, ENTITIES[1].0) then Some(Reference(60, 4)) else NamedAt(t, 2);
    hide StartsWith;
  }

  /** A code point is one unit or a surrogate pair that stands for it; behind the last one there is nothing. */
  lemma CodePoints(n: nat)
    ensures match FromCodePoint(n)
      case None => n > 0x10ffff
      case Some(units) =>
        && n <= 0x10ffff
        && if n <= 0xffff then units == [n]
           else
             && |units| == 2 && 0xd800 <= units[0] <= 0xdbff && 0xdc00 <= units[1] <= 0xdfff
             && n == 0x10000 + 0x400 * (units[0] as int - 0xd800) + (units[1] as int - 0xdc00)
  {
  }
}
