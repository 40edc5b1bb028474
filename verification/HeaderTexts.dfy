/** Which texts of an `If-Match` header are accepted, well-formed or not. */
module HeaderTexts {
  import opened Wrappers
  import opened Texts
  import opened IfMatch

  /** From `a` to `b` the text runs from a comma, or its start, to the next one, or its end. */
  predicate Between(t: Text, a: nat, b: nat) {
    && a <= b <= |t|
    && (a == 0 || t[a - 1] == U(','))
    && (b == |t| || t[b] == U(','))
    && U(',') !in t[a..b]
  }

  ghost predicate PieceOf(t: Text, p: Text) {
    exists a: nat, b: nat :: Between(t, a, b) && t[a..b] == p
  }

  lemma PieceOfRest(t: Text, n: nat, p: Text)
    requires n < |t| && t[n] == U(',') && U(',') !in t[..n]
    ensures PieceOf(t, p) <==> p == t[..n] || PieceOf(t[n + 1..], p)
  {
    var rest := t[n + 1..];
    assert forall i | 0 <= i < |rest| :: rest[i] == t[n + 1 + i];
    assert Between(t, 0, n) && t[0..n] == t[..n];
    if a: nat, b: nat :| Between(rest, a, b) && rest[a..b] == p {
      assert t[n + 1 + a..n + 1 + b] == rest[a..b];
      assert Between(t, n + 1 + a, n + 1 + b);
    }
    if a: nat, b: nat :| Between(t, a, b) && t[a..b] == p {
      assert forall i | 0 <= i < n :: t[i] == t[..n][i];
      assert forall i | a <= i < b :: t[i] == t[a..b][i - a];
      if a > n {
        assert rest[a - n - 1..b - n - 1] == t[a..b];
        assert Between(rest, a - n - 1, b - n - 1);
      } else {
        assert a == 0 && b == n;
      }
    }
  }

  /** The pieces of a split are what stands between commas. */
  lemma {:induction false} SplitPieces(t: Text, p: Text)
    ensures p in Split(t) <==> PieceOf(t, p)
  {
    var n := IndexOf(t, U(','));
    assert U(',') !in t[..n];
    hide Split, IndexOf;
    if n == |t| {
      assert t[..n] == t;
      SplitOne(t);
      WholePiece(t, p);
    } else {
      assert t == t[..n] + [U(',')] + t[n + 1..];
      SplitFirst(t[..n], t[n + 1..]);
      SplitPieces(t[n + 1..], p);
      PieceOfRest(t, n, p);
    }
  }

  lemma WholePiece(t: Text, p: Text)
    requires U(',') !in t
    ensures PieceOf(t, p) <==> p == t
  {
    assert Between(t, 0, |t|) && t[0..|t|] == t;
    if a: nat, b: nat :| Between(t, a, b) && t[a..b] == p {
      assert a == 0 && b == |t|;
    }
  }

  lemma {:induction false} TrimStartParts(t: Text) returns (before: Text)
    ensures t == before + TrimStart(t) && Blank(before)
  {
    before := [];
    if t != [] && IsSpace(t[0]) {
      before := TrimStartParts(t[1..]);
      before := [t[0]] + before;
      assert t == [t[0]] + t[1..];
    }
  }

  lemma {:induction false} TrimEndParts(t: Text) returns (after: Text)
    ensures t == TrimEnd(t) + after && Blank(after)
  {
    after := [];
    if t != [] && IsSpace(t[|t| - 1]) {
      var n := |t| - 1;
      after := TrimEndParts(t[..n]);
      after := after + [t[n]];
      assert t == t[..n] + [t[n]];
    }
  }

  ghost predicate WrittenAs(p: Text, tag: Text) {
    exists o :: WellWritten(o) && o.tag == tag && Written(o) == p
  }

  /** A piece is compared as a tag if and only if it is that tag, with what may decorate it. */
  lemma NormaliseExact(p: Text, tag: Text)
    requires IsTag(tag) || tag == ANY
    ensures Normalise(p) == tag <==> WrittenAs(p, tag)
  {
    if o :| WellWritten(o) && o.tag == tag && Written(o) == p {
      NormaliseWritten(o);
    }
    if Normalise(p) == tag {
      var before, weak, after := Decoration(p);
      assert WellWritten(Offer(before, weak, tag, after)) && Written(Offer(before, weak, tag, after)) == p;
    }
  }

  /** What normalising takes off is white space and a weak prefix. */
  lemma Decoration(p: Text) returns (before: Text, weak: bool, after: Text)
    ensures Blank(before) && Blank(after)
    ensures p == before + (if weak then [U('W'), U('/')] else []) + Normalise(p) + after
  {
    var core := Trim(p);
    before := TrimStartParts(p);
    after := TrimEndParts(TrimStart(p));
    hide TrimStart, TrimEnd, Blank;
    weak := |core| >= 2 && core[0] == U('W') && core[1] == U('/');
    assert core == (if weak then [U('W'), U('/')] else []) + Normalise(p);
    assert p == before + (if weak then [U('W'), U('/')] else []) + Normalise(p) + after;
  }

  /**
   * Whatever text a client sends: the edit may go on if and only if, somewhere between two commas or
   * the ends, the header has the current tag or `*`, with no more around it than white space and a
   * weak prefix. Without the header it may always.
   */
  lemma AcceptedTexts(t: Text, current: Text)
    requires IsTag(current)
    ensures RequireIfMatch(None, current)
    ensures RequireIfMatch(Some(t), current) <==>
      exists p :: PieceOf(t, p) && (WrittenAs(p, current) || WrittenAs(p, ANY))
  {
    var pieces := Split(t);
    TagIsItself(current);
    hide Split, Normalise, PieceOf, WrittenAs, IsTag;
    forall p ensures p in pieces <==> PieceOf(t, p) {
      SplitPieces(t, p);
    }
    forall p
      ensures WrittenAs(p, current) || WrittenAs(p, ANY) <==> Normalise(p) == ANY || Normalise(p) == Normalise(current)
    {
      NormaliseExact(p, current);
      NormaliseExact(p, ANY);
    }
    assert forall i | 0 <= i < |pieces| :: pieces[i] in pieces;
    if p :| PieceOf(t, p) && (WrittenAs(p, current) || WrittenAs(p, ANY)) {
      assert p in pieces;
    }
  }
}
