/** `redactIbansInLog`: replacing what looks like an IBAN in text on its way to the log. */
module LogRedaction {
  import opened Wrappers
  import opened Texts

  predicate IsLetter(u: Unit) {
    U('A') <= u <= U('Z') || U('a') <= u <= U('z')
  }

  predicate IsBlank(u: Unit) {
    u == U(' ') || u == U('\t')
  }

  predicate IsAlnum(u: Unit) {
    IsLetter(u) || IsDigit(u)
  }

  /** Two letters and two digits, with nothing in between. */
  predicate Head(s: Text) {
    |s| >= 4 && IsLetter(s[0]) && IsLetter(s[1]) && IsDigit(s[2]) && IsDigit(s[3])
  }

  // ----- the greedy scan, from `s` on with `compact` letters and digits behind it

  function ScanLength(s: Text, compact: nat): (r: nat)
    ensures r <= |s|
  {
    if s == [] || compact >= 34 then 0
    else if IsBlank(s[0]) then 1 + ScanLength(s[1..], compact)
    else if !IsAlnum(s[0]) then 0
    else 1 + ScanLength(s[1..], compact + 1)
  }

  function ScanCompact(s: Text, compact: nat): (r: nat)
    ensures r >= compact
  {
    if s == [] || compact >= 34 then compact
    else if IsBlank(s[0]) then ScanCompact(s[1..], compact)
    else if !IsAlnum(s[0]) then compact
    else ScanCompact(s[1..], compact + 1)
  }

  /** How often the loop body runs: once for every unit it takes and once for the one it stops at. */
  function ScanSteps(s: Text, compact: nat): (r: nat)
    ensures ScanLength(s, compact) <= r <= ScanLength(s, compact) + 1
    ensures r <= |s|
  {
    if s == [] || compact >= 34 then 0
    else if IsBlank(s[0]) then 1 + ScanSteps(s[1..], compact)
    else if !IsAlnum(s[0]) then 1
    else 1 + ScanSteps(s[1..], compact + 1)
  }

  /** The length of the span that starts here, if one does. */
  function SpanLength(s: Text): (r: Option<nat>)
    ensures r.Some? ==> 4 <= r.value <= |s|
  {
    if Head(s) && ScanCompact(s[4..], 4) >= 15 then Some(4 + ScanLength(s[4..], 4)) else None
  }

  function SpanSteps(s: Text): (r: nat)
    ensures r <= |s|
  {
    if Head(s) then ScanSteps(s[4..], 4) else 0
  }

  const MASK := Ascii("[iban]")

  function Redact(s: Text): Text {
    if s == [] then []
    else match SpanLength(s)
      case Some(n) => MASK + Redact(s[n..])
      case None => [s[0]] + Redact(s[1..])
  }

  /** The runs of the loop body over a whole text. */
  function TotalSteps(s: Text): nat {
    if s == [] then 0
    else match SpanLength(s)
      case Some(n) => SpanSteps(s) + TotalSteps(s[n..])
      case None => SpanSteps(s) + TotalSteps(s[1..])
  }

  // ----- what a span is

  /** The letters and digits of a text. */
  function Solid(t: Text): Text {
    if t == [] then [] else (if IsAlnum(t[0]) then [t[0]] else []) + Solid(t[1..])
  }

  predicate Scannable(u: Unit) {
    IsAlnum(u) || IsBlank(u)
  }

  /** Said without the scan: an IBAN's worth of letters and digits, separators aside, taken as far as it goes. */
  predicate IsSpan(s: Text, n: nat) {
    && Head(s)
    && 4 <= n <= |s|
    && (forall i | 0 <= i < n :: Scannable(s[i]))
    && 15 <= |Solid(s[..n])| <= 34
    && (|Solid(s[..n])| == 34 ==> IsAlnum(s[n - 1]))
    && (n < |s| && |Solid(s[..n])| < 34 ==> !Scannable(s[n]))
  }

  lemma {:induction false} SolidAppend(a: Text, b: Text)
    ensures Solid(a + b) == Solid(a) + Solid(b)
  {
    if a == [] {
      assert a + b == b;
    } else {
      assert (a + b)[1..] == a[1..] + b && (a + b)[0] == a[0];
      SolidAppend(a[1..], b);
      var h := if IsAlnum(a[0]) then [a[0]] else [];
      assert Solid(a + b) == h + (Solid(a[1..]) + Solid(b)) == (h + Solid(a[1..])) + Solid(b);
    }
  }

  lemma {:induction false} SolidAll(t: Text)
    requires forall u | u in t :: IsAlnum(u)
    ensures Solid(t) == t
  {
    if t != [] {
      SolidAll(t[1..]);
    }
  }

  /** The scan takes a length if and only if it satisfies the conditions that describe it. */
  lemma {:induction false} ScanExact(s: Text, compact: nat, n: nat)
    requires compact < 34
    ensures n == ScanLength(s, compact) <==>
      && n <= |s|
      && (forall i | 0 <= i < n :: Scannable(s[i]))
      && compact + |Solid(s[..n])| <= 34
      && (compact + |Solid(s[..n])| == 34 ==> IsAlnum(s[n - 1]))
      && (n < |s| && compact + |Solid(s[..n])| < 34 ==> !Scannable(s[n]))
    ensures n == ScanLength(s, compact) ==> ScanCompact(s, compact) == compact + |Solid(s[..n])|
    decreases |s|
  {
    if s == [] || !Scannable(s[0]) {
      assert n == 0 ==> s[..n] == [];
    } else {
      var k := if IsAlnum(s[0]) then 1 else 0;
      if n > 0 {
        if n <= |s| {
          assert s[..n][1..] == s[1..][..n - 1];
          assert forall i | 1 <= i < n :: s[i] == s[1..][i - 1];
        }
        if compact + k < 34 {
          ScanExact(s[1..], compact + k, n - 1);
          if n <= |s| && (forall i | 0 <= i < n - 1 :: Scannable(s[1..][i])) {
            assert forall i | 0 <= i < n :: Scannable(s[i]);
          }
        } else if 1 < n <= |s| && |Solid(s[..n])| <= 1 {
          StopsAtFull(s, n);
        }
      } else {
        assert s[..n] == [];
      }
    }
  }

  lemma StopsAtFull(s: Text, n: nat)
    requires 1 < n <= |s| && IsAlnum(s[0]) && |Solid(s[..n])| <= 1
    ensures !IsAlnum(s[n - 1])
  {
    assert s[..n] == [s[0]] + s[1..n - 1] + [s[n - 1]];
    SolidAppend([s[0]] + s[1..n - 1], [s[n - 1]]);
    SolidAppend([s[0]], s[1..n - 1]);
  }

  lemma SpanExact(s: Text, n: nat)
    ensures SpanLength(s) == Some(n) <==> IsSpan(s, n)
  {
    if Head(s) && 4 <= n {
      ScanExact(s[4..], 4, n - 4);
      if n <= |s| {
        assert s[..n] == s[..4] + s[4..][..n - 4];
        SolidAppend(s[..4], s[4..][..n - 4]);
        SolidAll(s[..4]);
        assert forall i | 4 <= i < n :: s[i] == s[4..][i - 4];
        assert (forall i | 0 <= i < n :: Scannable(s[i])) <==> (forall i | 0 <= i < n - 4 :: Scannable(s[4..][i]));
      }
    }
  }

  // ----- no residue

  predicate Residue(s: Text) {
    exists k | 0 <= k < |s| :: SpanLength(s[k..]).Some?
  }

  /** What has been written so far only makes a scan stop earlier. */
  lemma {:induction false} ScanLess(s: Text, compact: nat)
    ensures ScanCompact(Redact(s), compact) <= ScanCompact(s, compact)
    decreases |s|
  {
    if s != [] && SpanLength(s).None? {
      assert Redact(s)[1..] == Redact(s[1..]);
      ScanLess(s[1..], compact);
      ScanLess(s[1..], compact + 1);
    } else if s != [] {
      assert Redact(s)[0] == U('[');
    }
  }

  /** Where the output starts with something other than the mask, the input does too. */
  lemma Copied(s: Text)
    requires Redact(s) != [] && Redact(s)[0] != U('[')
    ensures s != [] && Redact(s)[0] == s[0] && Redact(s)[1..] == Redact(s[1..])
  {
    assert MASK[0] == U('[');
  }

  lemma HeadCopied(s: Text)
    requires Head(Redact(s))
    ensures Head(s) && Redact(s)[4..] == Redact(s[4..]) && SpanLength(s).None?
  {
    var r := Redact(s);
    Copied(s);
    Copied(s[1..]);
    Copied(s[1..][1..]);
    Copied(s[1..][1..][1..]);
    assert s[1..][1..][1..][1..] == s[4..];
    assert r[1..][1..][1..][1..] == r[4..];
    assert MASK[0] == U('[');
  }

  lemma NoSpanAtStart(s: Text)
    ensures SpanLength(Redact(s)).None?
  {
    if Head(Redact(s)) {
      HeadCopied(s);
      ScanLess(s[4..], 4);
    }
  }

  lemma NoSpanInMask(rest: Text, k: nat)
    requires k < |MASK|
    ensures SpanLength((MASK + rest)[k..]).None?
  {
    var t := (MASK + rest)[k..];
    assert t[0] == MASK[k] && (k < 5 ==> t[1] == MASK[k + 1]) && (k < 4 ==> t[2] == MASK[k + 2]);
  }

  /** Nothing in the output looks like an IBAN any more. */
  lemma {:induction false} NoResidue(s: Text)
    ensures !Residue(Redact(s))
    decreases |s|
  {
    var r := Redact(s);
    forall k | 0 <= k < |r| ensures SpanLength(r[k..]).None? {
      match SpanLength(s)
      case Some(n) =>
        NoResidue(s[n..]);
        if k < |MASK| {
          NoSpanInMask(Redact(s[n..]), k);
        } else {
          assert r[k..] == Redact(s[n..])[k - |MASK|..];
        }
      case None =>
        if k == 0 {
          assert r[0..] == r;
          NoSpanAtStart(s);
        } else {
          NoResidue(s[1..]);
          assert r[k..] == Redact(s[1..])[k - 1..];
        }
    }
  }

  lemma {:induction false} CleanUnchanged(s: Text)
    requires !Residue(s)
    ensures Redact(s) == s
  {
    if s != [] {
      assert s[0..] == s;
      forall k | 0 <= k < |s[1..]| ensures SpanLength(s[1..][k..]).None? {
        assert s[1..][k..] == s[k + 1..];
      }
      CleanUnchanged(s[1..]);
    }
  }

  /** Redacting again changes nothing. */
  lemma Idempotent(s: Text)
    ensures Redact(Redact(s)) == Redact(s)
  {
    NoResidue(s);
    CleanUnchanged(Redact(s));
  }

  // ----- the output is the input with spans replaced

  datatype Piece = Kept(u: Unit) | Masked(span: Text)

  function Original(ps: seq<Piece>): Text {
    if ps == [] then []
    else (if ps[0].Kept? then [ps[0].u] else ps[0].span) + Original(ps[1..])
  }

  function Rendered(ps: seq<Piece>): Text {
    if ps == [] then []
    else (if ps[0].Kept? then [ps[0].u] else MASK) + Rendered(ps[1..])
  }

  /** Each masked piece is a span of the text that is left; where a unit is kept, no span starts. */
  ghost predicate Leftmost(ps: seq<Piece>) {
    ps != [] ==>
      && (if ps[0].Kept? then forall n :: !IsSpan(Original(ps), n) else IsSpan(Original(ps), |ps[0].span|))
      && Leftmost(ps[1..])
  }

  /** Disjoint, left to right, as far as each goes: the text has one such division, and this is its rendering. */
  lemma {:induction false} RedactionIsLeftmost(s: Text) returns (ps: seq<Piece>)
    ensures Original(ps) == s && Leftmost(ps) && Rendered(ps) == Redact(s)
    decreases |s|
  {
    if s == [] {
      ps := [];
    } else {
      match SpanLength(s) {
        case Some(n) =>
          var rest := RedactionIsLeftmost(s[n..]);
          ps := [Masked(s[..n])] + rest;
          SpanExact(s, n);
        case None =>
          var rest := RedactionIsLeftmost(s[1..]);
          ps := [Kept(s[0])] + rest;
          forall n ensures !IsSpan(s, n) {
            SpanExact(s, n);
          }
      }
      assert Original(ps) == s;
    }
  }

  /** What comes first is decided by the text: a span, which is not empty, or else one unit. */
  lemma FirstPiece(ps: seq<Piece>, qs: seq<Piece>)
    requires Original(ps) == Original(qs) && Leftmost(ps) && Leftmost(qs)
    ensures ps == [] <==> qs == []
    ensures ps != [] ==> ps[0] == qs[0]
  {
    var s := Original(ps);
    assert !IsSpan(s, 0);
    if ps != [] && qs != [] {
      if ps[0].Masked? && qs[0].Masked? {
        SpanExact(s, |ps[0].span|);
        SpanExact(s, |qs[0].span|);
        hide IsSpan;
        assert s[..|ps[0].span|] == ps[0].span && s[..|qs[0].span|] == qs[0].span;
      } else {
        hide IsSpan;
        assert ps[0].Kept? && qs[0].Kept? && s[0] == ps[0].u;
      }
    }
  }

  lemma {:induction false} LeftmostUnique(ps: seq<Piece>, qs: seq<Piece>)
    requires Original(ps) == Original(qs) && Leftmost(ps) && Leftmost(qs)
    ensures ps == qs
    decreases |ps|
  {
    FirstPiece(ps, qs);
    hide IsSpan;
    if ps != [] {
      var n := if ps[0].Kept? then 1 else |ps[0].span|;
      assert Original(ps[1..]) == Original(ps)[n..] == Original(qs[1..]);
      LeftmostUnique(ps[1..], qs[1..]);
      assert ps == [ps[0]] + ps[1..] && qs == [qs[0]] + qs[1..];
    }
  }

  // ----- the cost of all the scans together

  /** The runs of the loop body of a scan that has `compact` letters and digits behind it; its head is free. */
  function Cost(s: Text, compact: nat): nat {
    if s == [] || compact >= 34 then 0
    else
      var here := if compact >= 4 then 1 else 0;
      if IsBlank(s[0]) then here + Cost(s[1..], compact)
      else if !IsAlnum(s[0]) then here
      else here + Cost(s[1..], compact + 1)
  }

  function SumCost(s: Text, scans: seq<nat>): nat {
    if scans == [] then 0 else Cost(s, scans[0]) + SumCost(s, scans[1..])
  }

  lemma {:induction false} CostIsSteps(s: Text, compact: nat)
    requires 4 <= compact
    ensures Cost(s, compact) == ScanSteps(s, compact)
    decreases |s|
  {
    if s != [] && compact < 34 {
      CostIsSteps(s[1..], compact);
      CostIsSteps(s[1..], compact + 1);
    }
  }

  /** The head of a span: where a scan with fewer than four letters and digits behind it stands. */
  predicate WithinHead(s: Text, compact: nat) {
    match compact
    case 1 => |s| >= 3 && IsLetter(s[0]) && IsDigit(s[1]) && IsDigit(s[2])
    case 2 => |s| >= 2 && IsDigit(s[0]) && IsDigit(s[1])
    case 3 => |s| >= 1 && IsDigit(s[0])
    case _ => true
  }

  /**
   * The failed scans that pass over the point where `s` is what is left of the text, oldest first.
   * Each began at least four letters and digits after the one before, and none will find fifteen.
   */
  predicate Underway(s: Text, scans: seq<nat>) {
    && (forall i, k | 0 <= i < k < |scans| :: scans[i] >= scans[k] + 4)
    && (forall i | 0 <= i < |scans| :: ScanCompact(s, scans[i]) < 15)
    && (forall i | 0 <= i < |scans| :: WithinHead(s, scans[i]))
    && (forall i | 0 <= i < |scans| :: scans[i] > 0)
  }

  function Advance(scans: seq<nat>): (r: seq<nat>)
    ensures |r| == |scans| && forall i | 0 <= i < |scans| :: r[i] == scans[i] + 1
  {
    seq(|scans|, i requires 0 <= i < |scans| => scans[i] + 1)
  }

  /** At most three of them are past their head. */
  function Past(scans: seq<nat>): nat {
    if scans == [] then 0 else (if scans[0] >= 4 then 1 else 0) + Past(scans[1..])
  }

  lemma {:induction false} FourApart(scans: seq<nat>)
    requires forall i, k | 0 <= i < k < |scans| :: scans[i] >= scans[k] + 4
    ensures 4 * Past(scans) <= if scans == [] then 0 else scans[0]
  {
    if scans != [] {
      FourApart(scans[1..]);
    }
  }

  lemma AtMostThree(s: Text, scans: seq<nat>)
    requires Underway(s, scans)
    ensures Past(scans) <= 3
    ensures forall i | 0 <= i < |scans| :: scans[i] < 15
  {
    FourApart(scans);
    forall i | 0 <= i < |scans| ensures scans[i] < 15 {
      assert ScanCompact(s, scans[i]) >= scans[i];
    }
  }

  /** One unit further, each scan past its head has run its loop body once and has gone on or stopped. */
  lemma {:induction false} SumStep(s: Text, scans: seq<nat>)
    requires s != [] && forall i | 0 <= i < |scans| :: scans[i] < 34
    ensures SumCost(s, scans) == Past(scans) + (
      if IsBlank(s[0]) then SumCost(s[1..], scans)
      else if !IsAlnum(s[0]) then 0
      else SumCost(s[1..], Advance(scans)))
    decreases |scans|
  {
    if scans != [] {
      SumStep(s, scans[1..]);
      assert Advance(scans)[1..] == Advance(scans[1..]);
    }
  }

  lemma {:induction false} SumAppend(s: Text, scans: seq<nat>, c: nat)
    ensures SumCost(s, scans + [c]) == SumCost(s, scans) + Cost(s, c)
  {
    if scans == [] {
      assert scans + [c] == [c] && [c][1..] == [];
    } else {
      assert (scans + [c])[1..] == scans[1..] + [c];
      SumAppend(s, scans[1..], c);
    }
  }

  lemma {:induction false} SumEmpty(scans: seq<nat>)
    ensures SumCost([], scans) == 0
  {
    if scans != [] {
      SumEmpty(scans[1..]);
    }
  }

  lemma {:induction false} PastAppend(scans: seq<nat>, c: nat)
    requires c < 4
    ensures Past(scans + [c]) == Past(scans)
  {
    if scans == [] {
      assert scans + [c] == [c] && [c][1..] == [];
    } else {
      assert (scans + [c])[1..] == scans[1..] + [c];
      PastAppend(scans[1..], c);
    }
  }

  /** More behind it, more in the end. */
  lemma {:induction false} CompactMonotone(s: Text, c: nat, d: nat)
    requires c <= d
    ensures ScanCompact(s, c) <= ScanCompact(s, d) || ScanCompact(s, d) >= 34
    decreases |s|
  {
    if s != [] && c < 34 && d < 34 {
      CompactMonotone(s[1..], c, d);
      CompactMonotone(s[1..], c + 1, d + 1);
    }
  }

  /** Reading the head is the beginning of the scan. */
  lemma FromHead(s: Text)
    requires Head(s)
    ensures ScanCompact(s, 0) == ScanCompact(s[4..], 4) && Cost(s, 0) == ScanSteps(s[4..], 4)
  {
    assert s[1..][1..][1..][1..] == s[4..];
    var a, b, c := s[1..], s[1..][1..], s[1..][1..][1..];
    assert ScanCompact(s, 0) == ScanCompact(a, 1) == ScanCompact(b, 2) == ScanCompact(c, 3);
    assert Cost(s, 0) == Cost(a, 1) == Cost(b, 2) == Cost(c, 3);
    CostIsSteps(s[4..], 4);
  }

  /** Where a head stands, every scan underway is past its own. */
  lemma HeadsApart(s: Text, scans: seq<nat>)
    requires Underway(s, scans) && Head(s)
    ensures forall i | 0 <= i < |scans| :: scans[i] >= 4
  {
  }

  /** A scan that will fail cannot pass over the beginning of one that succeeds. */
  lemma NoneUnderway(s: Text, scans: seq<nat>)
    requires Underway(s, scans) && SpanLength(s).Some?
    ensures scans == []
  {
    if scans != [] {
      FromHead(s);
      CompactMonotone(s, 0, scans[0]);
    }
  }

  /** The scans underway one unit later, the one that starts here included. */
  function Onward(s: Text, scans: seq<nat>): seq<nat>
    requires s != []
  {
    if IsBlank(s[0]) then scans
    else if !IsAlnum(s[0]) then []
    else Advance(if Head(s) then scans + [0] else scans)
  }

  lemma OneOnward(s: Text, c: nat)
    requires s != [] && WithinHead(s, c) && ScanCompact(s, c) < 15
    requires c > 0 || Head(s)
    ensures IsBlank(s[0]) ==> c >= 4 && ScanCompact(s[1..], c) < 15
    ensures !IsBlank(s[0]) && IsAlnum(s[0]) ==> WithinHead(s[1..], c + 1) && ScanCompact(s[1..], c + 1) < 15
  {
    assert ScanCompact(s, c) >= c;
  }

  lemma {:induction false} StillUnderway(s: Text, scans: seq<nat>)
    requires s != [] && Underway(s, scans) && SpanLength(s).None?
    ensures Underway(s[1..], Onward(s, scans))
  {
    hide ScanCompact, WithinHead;
    if Head(s) {
      HeadsApart(s, scans);
      FromHead(s);
    }
    var all := if Head(s) then scans + [0] else scans;
    forall i | 0 <= i < |all|
      ensures IsBlank(s[0]) ==> all[i] >= 4 && ScanCompact(s[1..], all[i]) < 15 && WithinHead(s[1..], all[i])
      ensures !IsBlank(s[0]) && IsAlnum(s[0]) ==>
        WithinHead(s[1..], all[i] + 1) && ScanCompact(s[1..], all[i] + 1) < 15
    {
      PastHead(s, all[i]);
      OneOnward(s, all[i]);
    }
  }

  lemma PastHead(s: Text, c: nat)
    ensures c == 0 ==> WithinHead(s, c)
    ensures c >= 4 && s != [] ==> WithinHead(s[1..], c)
  {
  }

  lemma OnwardCost(s: Text, scans: seq<nat>)
    requires s != [] && Underway(s, scans) && SpanLength(s).None?
    ensures SpanSteps(s) + SumCost(s, scans) <= 3 + SumCost(s[1..], Onward(s, scans))
  {
    var all := if Head(s) then scans + [0] else scans;
    AtMostThree(s, scans);
    if Head(s) {
      SumAppend(s, scans, 0);
      PastAppend(scans, 0);
      FromHead(s);
    }
    SumStep(s, all);
  }

  lemma {:induction false} Amortised(s: Text, scans: seq<nat>)
    requires Underway(s, scans)
    ensures TotalSteps(s) + SumCost(s, scans) <= 3 * |s|
    decreases |s|
  {
    if s == [] {
      SumEmpty(scans);
    } else {
      match SpanLength(s)
      case Some(n) =>
        NoneUnderway(s, scans);
        Amortised(s[n..], []);
      case None =>
        StillUnderway(s, scans);
        OnwardCost(s, scans);
        Amortised(s[1..], Onward(s, scans));
    }
  }

  /** Over a whole text the loop of the scan runs at most three times per unit, however long the blanks. */
  lemma LinearScan(s: Text)
    ensures TotalSteps(s) <= 3 * |s|
  {
    Amortised(s, []);
  }

  // ----- three is needed

  function Blanks(m: nat): Text {
    seq(m, _ => U(' '))
  }

  lemma {:induction false} BlankScan(m: nat, compact: nat)
    requires compact < 34
    ensures ScanSteps(Blanks(m), compact) == m && ScanCompact(Blanks(m), compact) == compact
    ensures TotalSteps(Blanks(m)) == 0
  {
    if m > 0 {
      assert Blanks(m)[1..] == Blanks(m - 1);
      BlankScan(m - 1, compact);
    }
  }

  const TOKEN := Ascii("AB12")

  /** A token before a text that begins with no other: one scan more, over all of it. */
  lemma TokenCost(rest: Text)
    requires ScanCompact(rest, 4) < 15
    ensures TotalSteps(TOKEN + rest) == ScanSteps(rest, 4) + TotalSteps(rest)
  {
    var s := TOKEN + rest;
    assert s[4..] == rest;
    assert TOKEN[0] == U('A') && TOKEN[1] == U('B') && TOKEN[2] == U('1') && TOKEN[3] == U('2');
    var a, b, c := s[1..], s[2..], s[3..];
    assert a[1..] == b && b[1..] == c && c[1..] == rest;
    assert a[0] == U('B') && a[1] == U('1') && b[0] == U('1') && c[0] == U('2');
    assert TotalSteps(c) == TotalSteps(rest) && TotalSteps(b) == TotalSteps(c) && TotalSteps(a) == TotalSteps(b);
  }

  lemma TokenScan(rest: Text, compact: nat)
    requires compact + 4 < 34
    ensures ScanSteps(TOKEN + rest, compact) == 4 + ScanSteps(rest, compact + 4)
    ensures ScanCompact(TOKEN + rest, compact) == ScanCompact(rest, compact + 4)
  {
    var s := TOKEN + rest;
    assert TOKEN[0] == U('A') && TOKEN[1] == U('B') && TOKEN[2] == U('1') && TOKEN[3] == U('2');
    assert s[1..][1..][1..][1..] == rest;
    OneSolid(s, compact);
    OneSolid(s[1..], compact + 1);
    OneSolid(s[1..][1..], compact + 2);
    OneSolid(s[1..][1..][1..], compact + 3);
  }

  lemma OneSolid(s: Text, compact: nat)
    requires s != [] && IsAlnum(s[0]) && compact < 34
    ensures ScanSteps(s, compact) == 1 + ScanSteps(s[1..], compact + 1)
    ensures ScanCompact(s, compact) == ScanCompact(s[1..], compact + 1)
  {
  }

  /** Three tokens too few for an IBAN before blanks: each blank is passed over three times. */
  lemma ThreeIsReached(m: nat)
    ensures var s := TOKEN + (TOKEN + (TOKEN + Blanks(m))); TotalSteps(s) == 3 * |s| - 24
  {
    var z := Blanks(m);
    BlankScan(m, 4);
    BlankScan(m, 8);
    BlankScan(m, 12);
    TokenScan(z, 4);
    TokenScan(z, 8);
    TokenScan(TOKEN + z, 4);
    TokenCost(z);
    TokenCost(TOKEN + z);
    TokenCost(TOKEN + (TOKEN + z));
  }

  // ----- the loops themselves

  function Upper(u: Unit): Unit {
    if U('a') <= u <= U('z') then u - 32 else u
  }

  /** The upper-cased letters and digits of a span, as the second pass collects them. */
  function Body(t: Text): (r: Text)
    ensures |r| <= |t|
  {
    if t == [] then []
    else
      var n := |t| - 1;
      if IsBlank(t[n]) then Body(t[..n]) else Body(t[..n]) + [Upper(t[n])]
  }

  lemma {:induction false} BodyIsSolid(t: Text)
    requires forall u | u in t :: Scannable(u)
    ensures |Body(t)| == |Solid(t)|
    ensures forall i | 0 <= i < |Body(t)| :: IsDigit(Body(t)[i]) || U('A') <= Body(t)[i] <= U('Z')
  {
    if t != [] {
      var n := |t| - 1;
      BodyIsSolid(t[..n]);
      assert t == t[..n] + [t[n]];
      SolidAppend(t[..n], [t[n]]);
      assert [t[n]][1..] == [] && Solid([t[n]]) == if IsAlnum(t[n]) then [t[n]] else [];
      assert Scannable(t[n]) && Solid(t) == Solid(t[..n]) + Solid([t[n]]);
    }
  }

  lemma {:induction false} BodyHead(t: Text)
    requires Head(t)
    ensures |Body(t)| >= 4 && Body(t)[..4] == [Upper(t[0]), Upper(t[1]), t[2], t[3]]
  {
    if |t| == 4 {
      FourBody(t);
    } else {
      BodyHead(t[..|t| - 1]);
    }
  }

  lemma FourBody(t: Text)
    requires |t| == 4 && Head(t)
    ensures Body(t) == [Upper(t[0]), Upper(t[1]), t[2], t[3]]
  {
    assert t[..3][..2] == t[..2] && t[..2][..1] == t[..1] && t[..1][..0] == [];
    assert Body(t[..1]) == [Upper(t[0])];
    assert Body(t[..2]) == [Upper(t[0]), Upper(t[1])];
    assert Body(t[..3]) == [Upper(t[0]), Upper(t[1]), t[2]];
  }

  /** The first loop of `ibanSpanEnd`; `steps` counts its runs. */
  method ScanFrom(text: Text, first: nat) returns (pos: nat, compact: nat, ghost steps: nat)
    requires first <= |text|
    ensures pos == first + ScanLength(text[first..], 4)
    ensures compact == ScanCompact(text[first..], 4)
    ensures steps == ScanSteps(text[first..], 4)
  {
    pos, compact, steps := first, 4, 0;
    while pos < |text| && compact < 34
      invariant first <= pos <= |text|
      invariant pos + ScanLength(text[pos..], compact) == first + ScanLength(text[first..], 4)
      invariant ScanCompact(text[pos..], compact) == ScanCompact(text[first..], 4)
      invariant steps + ScanSteps(text[pos..], compact) == ScanSteps(text[first..], 4)
    {
      assert text[pos..][1..] == text[pos + 1..] && text[pos..][0] == text[pos];
      steps := steps + 1;
      var ch := text[pos];
      if IsBlank(ch) {
        pos := pos + 1;
        continue;
      }
      if !IsAlnum(ch) {
        break;
      }
      compact := compact + 1;
      pos := pos + 1;
    }
  }

  lemma EmptyBody()
    ensures Body([]) == []
  {
  }

  lemma BodyNext(t: Text, n: nat)
    requires n < |t|
    ensures Body(t[..n + 1]) == Body(t[..n]) + if IsBlank(t[n]) then [] else [Upper(t[n])]
  {
    assert t[..n + 1][..n] == t[..n];
  }

  /** The rest of `ibanSpanEnd`, which never refuses what the first loop took; `checks` counts its loops' runs. */
  method CheckBody(text: Text, start: nat, pos: nat) returns (ok: bool, ghost checks: nat)
    requires start <= pos <= |text| && IsSpan(text[start..], pos - start)
    ensures ok && checks <= 2 * (pos - start)
  {
    ghost var span := text[start..pos];
    assert span == text[start..][..pos - start];
    BodyIsSolid(span);
    BodyHead(span);
    assert 15 <= |Body(span)| <= 34;
    EmptyBody();
    hide Solid, IsSpan, Scannable, Body, IsBlank;
    checks := 0;
    var body: Text := [];
    assert span[..|span|] == span && span[..0] == [];
    for p := start to pos
      invariant body == Body(span[..p - start])
      invariant checks == p - start
    {
      BodyNext(span, p - start);
      checks := checks + 1;
      if !IsBlank(text[p]) {
        body := body + [Upper(text[p])];
      }
    }
    if |body| < 15 || |body| > 34 { return false, checks; }
    if body[0] < U('A') || body[0] > U('Z') || body[1] < U('A') || body[1] > U('Z') { return false, checks; }
    if !IsDigit(body[2]) || !IsDigit(body[3]) { return false, checks; }
    for k := 4 to |body|
      invariant checks == pos - start + k - 4
    {
      checks := checks + 1;
      var ch := body[k];
      if ch < U('0') || (ch > U('9') && ch < U('A')) || ch > U('Z') { return false, checks; }
    }
    return true, checks;
  }

  /** `ibanSpanEnd`. */
  method IbanSpanEnd(text: Text, start: nat) returns (end: Option<nat>, ghost steps: nat, ghost checks: nat)
    requires start < |text|
    ensures end == match SpanLength(text[start..]) case Some(n) => Some(start + n) case None => None
    ensures steps == SpanSteps(text[start..])
    ensures checks <= match SpanLength(text[start..]) case Some(n) => 2 * n case None => 0
  {
    ghost var s := text[start..];
    if start + 4 > |text| { return None, 0, 0; }
    if !IsLetter(text[start]) || !IsLetter(text[start + 1]) { return None, 0, 0; }
    if !IsDigit(text[start + 2]) || !IsDigit(text[start + 3]) { return None, 0, 0; }
    var pos, compact, scanned := ScanFrom(text, start + 4);
    assert s[4..] == text[start + 4..];
    if compact < 15 { return None, scanned, 0; }
    SpanExact(s, pos - start);
    var ok, checked := CheckBody(text, start, pos);
    end, steps, checks := None, scanned, checked;
    if ok {
      end := Some(pos);
    }
  }

  /** `redactIbansInLog`, with the cost of all its loops. */
  method RedactIbansInLog(text: Text) returns (out: Text, ghost steps: nat, ghost checks: nat)
    ensures out == Redact(text)
    ensures steps == TotalSteps(text) && steps <= 3 * |text|
    ensures checks <= 2 * |text|
  {
    hide SpanLength, SpanSteps, MASK;
    out, steps, checks := [], 0, 0;
    var i := 0;
    while i < |text|
      invariant i <= |text|
      invariant out + Redact(text[i..]) == Redact(text)
      invariant steps + TotalSteps(text[i..]) == TotalSteps(text)
      invariant checks <= 2 * i
    {
      ghost var rest := text[i..];
      var end, s, c := IbanSpanEnd(text, i);
      steps, checks := steps + s, checks + c;
      if end.Some? {
        assert rest[end.value - i..] == text[end.value..];
        assert Redact(rest) == MASK + Redact(text[end.value..]);
        out := out + MASK;
        i := end.value;
      } else {
        assert rest[1..] == text[i + 1..] && rest[0] == text[i];
        assert Redact(rest) == [text[i]] + Redact(text[i + 1..]);
        out := out + [text[i]];
        i := i + 1;
      }
    }
    LinearScan(text);
  }
}
