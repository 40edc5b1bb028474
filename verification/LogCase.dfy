/** Case and separators make no difference to what is taken for an IBAN. */
module LogCase {
  import opened Wrappers
  import opened Texts
  import opened LogRedaction

  predicate Capital(u: Unit) {
    65 <= u <= 90
  }

  predicate Small(u: Unit) {
    97 <= u <= 122
  }

  /** The same letter in either case, either of the two separators, or simply the same unit. */
  predicate Alike(u: Unit, v: Unit) {
    || u == v
    || (Capital(u) && v == u + 32)
    || (Capital(v) && u == v + 32)
    || ((u == 32 || u == 9) && (v == 32 || v == 9))
  }

  predicate AllAlike(a: Text, b: Text) {
    |a| == |b| && forall i | 0 <= i < |a| :: Alike(a[i], b[i])
  }

  /** The classes of units the scan goes by. */
  lemma Classes(u: Unit)
    ensures IsLetter(u) <==> Capital(u) || Small(u)
    ensures IsDigit(u) <==> 48 <= u <= 57
    ensures IsBlank(u) <==> u == 32 || u == 9
    ensures IsAlnum(u) <==> Capital(u) || Small(u) || 48 <= u <= 57
  {
  }

  lemma ClassesAlike(u: Unit, v: Unit)
    requires Alike(u, v)
    ensures IsLetter(u) == IsLetter(v) && IsDigit(u) == IsDigit(v)
    ensures IsBlank(u) == IsBlank(v) && IsAlnum(u) == IsAlnum(v)
  {
    Classes(u);
    Classes(v);
  }

  lemma TailsAlike(a: Text, b: Text, k: nat)
    requires AllAlike(a, b) && k <= |a|
    ensures AllAlike(a[k..], b[k..])
  {
    hide Alike;
  }

  lemma {:induction false} ScansAlike(a: Text, b: Text, compact: nat)
    requires AllAlike(a, b)
    ensures ScanLength(a, compact) == ScanLength(b, compact) && ScanCompact(a, compact) == ScanCompact(b, compact)
  {
    if a != [] {
      ClassesAlike(a[0], b[0]);
      TailsAlike(a, b, 1);
      hide IsBlank, IsAlnum, Alike, AllAlike;
      ScansAlike(a[1..], b[1..], compact);
      ScansAlike(a[1..], b[1..], compact + 1);
    }
  }

  /** A span starts in the one text exactly where it does in the other, and is as long. */
  lemma SpansAlike(a: Text, b: Text, k: nat)
    requires AllAlike(a, b) && k <= |a|
    ensures SpanLength(a[k..]) == SpanLength(b[k..])
  {
    TailsAlike(a, b, k);
    var s, t := a[k..], b[k..];
    if |s| >= 4 {
      forall i | 0 <= i < 4 ensures IsLetter(s[i]) == IsLetter(t[i]) && IsDigit(s[i]) == IsDigit(t[i]) {
        ClassesAlike(s[i], t[i]);
      }
      TailsAlike(s, t, 4);
      ScansAlike(s[4..], t[4..], 4);
    }
  }

  /** So what is written to the log differs in nothing but the case and the separators that it keeps. */
  lemma {:induction false} LogsAlike(a: Text, b: Text)
    requires AllAlike(a, b)
    ensures AllAlike(Redact(a), Redact(b))
    decreases |a|
  {
    if a != [] {
      SpansAlike(a, b, 0);
      assert a[0..] == a && b[0..] == b;
      var n := if SpanLength(a).Some? then SpanLength(a).value else 1;
      TailsAlike(a, b, n);
      LogsAlike(a[n..], b[n..]);
      var first, other := if SpanLength(a).Some? then MASK else [a[0]], if SpanLength(a).Some? then MASK else [b[0]];
      assert AllAlike(first, other);
      hide Alike, SpanLength, Redact;
      AppendAlike(first, other, Redact(a[n..]), Redact(b[n..]));
    }
  }

  lemma AppendAlike(a: Text, b: Text, x: Text, y: Text)
    requires AllAlike(a, b) && AllAlike(x, y)
    ensures AllAlike(a + x, b + y)
  {
    hide Alike;
  }

  /** A text that is one span is logged as the mask, and any text as what its parts are logged as. */
  lemma WholeIban(t: Text, rest: Text)
    requires IsSpan(t + rest, |t|)
    ensures Redact(t + rest) == Ascii("[iban]") + Redact(rest)
  {
    SpanExact(t + rest, |t|);
    assert (t + rest)[|t|..] == rest;
  }
}
