/** The very text that `stableJson` prints, unit by unit. */
module JsonTexts {
  import opened Texts
  import opened CanonicalJson

  /** At `i` the two differ for the first time, and there `a` has ended or has the lesser unit. */
  predicate LessAt(a: Text, b: Text, i: nat) {
    i <= |a| && i < |b| && a[..i] == b[..i] && (i == |a| || a[i] < b[i])
  }

  /** Strings compare at the first unit in which they differ, and where there is none the shorter one is less. */
  lemma {:induction false} LessIs(a: Text, b: Text)
    ensures Less(a, b) <==> exists i: nat :: LessAt(a, b, i)
  {
    if a != [] && b != [] && a[0] == b[0] {
      LessIs(a[1..], b[1..]);
      if i: nat :| LessAt(a[1..], b[1..], i) {
        assert a[..i + 1] == [a[0]] + a[1..][..i] && b[..i + 1] == [b[0]] + b[1..][..i];
        assert LessAt(a, b, i + 1);
      }
      if i: nat :| LessAt(a, b, i) {
        assert i > 0;
        assert a[1..][..i - 1] == a[..i][1..] && b[1..][..i - 1] == b[..i][1..];
        assert LessAt(a[1..], b[1..], i - 1);
      }
    } else if b != [] {
      assert a[..0] == b[..0];
      assert a == [] || a[0] < b[0] ==> LessAt(a, b, 0);
      assert forall i: nat | i > 0 && LessAt(a, b, i) :: a[..i][0] == a[0] && b[..i][0] == b[0];
    }
  }

  /** How a unit of a string is written, by the table of section 7 of RFC 8259, with lone surrogates escaped. */
  lemma TokenIs(s: Text, paired: bool)
    requires s != []
    ensures var u := s[0];
      FirstToken(s, paired) ==
        if paired then [u]
        else if 0xd800 <= u <= 0xdbff && |s| > 1 && 0xdc00 <= s[1] <= 0xdfff then [u]
        else if 0xd800 <= u <= 0xdfff || (u < 32 && u !in {8, 9, 10, 12, 13}) then [92, 117] + Hex(4, u)
        else if u == 34 then [92, 34]
        else if u == 92 then [92, 92]
        else if u == 8 then [92, 98]
        else if u == 9 then [92, 116]
        else if u == 10 then [92, 110]
        else if u == 12 then [92, 102]
        else if u == 13 then [92, 114]
        else [u]
  {
    hide Hex;
  }

  lemma CodeIs(u: Unit)
    ensures |Hex(4, u)| == 4 && FromHex(Hex(4, u)) == u
  {
    assert Pow16(4) == 0x10000;
    FromHexOfHex(4, u);
  }

  /** A string is written unit by unit, and the second half of a surrogate pair with the first. */
  lemma StringIs(s: Text, paired: bool)
    ensures Quote(s) == [34] + Escaped(s, false) + [34]
    ensures Escaped([], paired) == []
    ensures s != [] ==>
      Escaped(s, paired) == FirstToken(s, paired) +
        Escaped(s[1..], !paired && 0xd800 <= s[0] <= 0xdbff && |s| > 1 && 0xdc00 <= s[1] <= 0xdfff)
  {
    hide FirstToken;
  }

  predicate IsWritten(n: nat, t: Text) {
    t != [] && AllDigits(t) && Texts.Value(t) == n && (t[0] == 48 ==> |t| == 1)
  }

  lemma {:induction false} DigitsAreWritten(n: nat)
    ensures IsWritten(n, Digits(n))
  {
    ValueOfDigits(n);
    NoLeadingZero(n);
  }

  lemma {:induction false} NoLeadingZero(n: nat)
    ensures Digits(n)[0] == 48 ==> n == 0
    ensures n == 0 ==> |Digits(n)| == 1
  {
    if n >= 10 {
      NoLeadingZero(n / 10);
    }
  }

  /** A value that holds no others: null, a boolean, an integer without needless zeros, a string. */
  lemma ScalarIs(v: Value)
    ensures v.Undefined? || v.Null? ==> StableJson(v) == [110, 117, 108, 108]
    ensures v == Bool(true) ==> StableJson(v) == [116, 114, 117, 101]
    ensures v == Bool(false) ==> StableJson(v) == [102, 97, 108, 115, 101]
    ensures v.Str? ==> StableJson(v) == Quote(v.s)
    ensures v.Int? && v.n >= 0 ==> IsWritten(v.n, StableJson(v))
    ensures v.Int? && v.n < 0 ==> StableJson(v) != [] && StableJson(v)[0] == 45 && IsWritten(-v.n, StableJson(v)[1..])
  {
    if v.Int? {
      hide Digits;
      DigitsAreWritten(if v.n < 0 then -v.n else v.n);
      assert v.n < 0 ==> StableJson(v) == [45] + Digits(-v.n) && StableJson(v)[1..] == Digits(-v.n);
    }
    assert Ascii("null") == [110, 117, 108, 108];
    assert Ascii("true") == [116, 114, 117, 101] && Ascii("false") == [102, 97, 108, 115, 101];
  }

  /** Texts with commas between them. */
  lemma {:induction false} JoinIs(ts: seq<Text>, last: Text)
    ensures Join([]) == [] && Join([last]) == last
    ensures ts != [] ==> Join(ts + [last]) == Join(ts) + [44] + last
  {
    if |ts| == 1 {
      assert (ts + [last])[1..] == [last];
    } else if |ts| > 1 {
      assert (ts + [last])[1..] == ts[1..] + [last];
      JoinIs(ts[1..], last);
      assert ts[0] + [44] + (Join(ts[1..]) + [44] + last) == ts[0] + [44] + Join(ts[1..]) + [44] + last;
    }
  }

  /** An array is its elements in order. */
  lemma ArrayIs(v: Value, ts: seq<Text>)
    requires v.Arr? && |ts| == |v.items| && forall i | 0 <= i < |ts| :: ts[i] == StableJson(v.items[i])
    ensures StableJson(v) == [91] + Join(ts) + [93]
  {
    hide Join;
    assert Items(v) == ts;
  }

  /** The members that are not undefined, by ascending key. */
  ghost predicate InOrder(v: Value, es: seq<Entry>)
    requires v.Obj?
  {
    && (forall e :: e in es <==> e in v.entries && e.value != Undefined)
    && forall i, k | 0 <= i < k < |es| :: Less(es[i].key, es[k].key)
  }

  /** An object is its defined members, each key with a colon before its value, in the order of the keys. */
  lemma ObjectIs(v: Value) returns (es: seq<Entry>)
    requires v.Obj? && DistinctKeys(v.entries)
    ensures InOrder(v, es)
    ensures forall ts: seq<Text> |
      |ts| == |es| && forall i | 0 <= i < |es| :: ts[i] == Quote(es[i].key) + [58] + StableJson(es[i].value) ::
      StableJson(v) == [123] + Join(ts) + [125]
  {
    es := SortedEntries(v.entries);
    EntriesSorted(v.entries);
    hide Join, SortedEntries, Quote;
    forall ts: seq<Text> |
      |ts| == |es| && forall i | 0 <= i < |es| :: ts[i] == Quote(es[i].key) + [58] + StableJson(es[i].value)
      ensures StableJson(v) == [123] + Join(ts) + [125]
    {
      assert Members(v) == ts;
    }
  }
}
