/** What `tags` makes of any text, well-formed or not. */
module WorkbookShapes {
  import opened Wrappers
  import opened Texts
  import opened WorkbookTags

  /** What may stand between the name and the `>`: nothing, a slash, or white space and anything else. */
  predicate MayFollow(inner: Text) {
    U('>') !in inner && (inner == [] || inner == [U('/')] || IsSpace(inner[0]))
  }

  function Tag(name: Text, inner: Text): Text {
    [U('<')] + name + (inner + [U('>')])
  }

  predicate EndsInSlash(inner: Text) {
    inner != [] && inner[|inner| - 1] == U('/')
  }

  function Read(inner: Text, length: nat): Open {
    Open(if EndsInSlash(inner) then inner[..|inner| - 1] else inner, EndsInSlash(inner), length)
  }

  lemma FirstEnd(inner: Text, rest: Text)
    requires U('>') !in inner
    ensures WorkbookTags.Find(inner + ([U('>')] + rest), [U('>')]) == |inner|
  {
    var t := inner + ([U('>')] + rest);
    assert t[|inner|..][..1] == [U('>')];
    assert StartsWith(t[|inner|..], [U('>')]);
    forall i | 0 <= i < |inner| ensures !StartsWith(t[i..], [U('>')]) {
      assert t[i..][0] == inner[i];
    }
    hide WorkbookTags.Find;
  }

  lemma EndFound(t: Text) returns (inner: Text, rest: Text)
    requires WorkbookTags.Find(t, [U('>')]) < |t|
    ensures t == inner + ([U('>')] + rest) && U('>') !in inner
  {
    var g := WorkbookTags.Find(t, [U('>')]);
    hide WorkbookTags.Find;
    inner, rest := t[..g], t[g + 1..];
    assert t[g..][..1] == [U('>')] && t[g] == t[g..][0];
    forall i | 0 <= i < g ensures inner[i] != U('>') {
      assert t[i..][..1] == [t[i]];
    }
  }

  lemma InnerReads(inner: Text, rest: Text, before: nat)
    requires U('>') !in inner
    ensures OpenIn(inner + ([U('>')] + rest), before) ==
      if MayFollow(inner) then Some(Read(inner, before + |inner| + 1)) else None
  {
    var t := inner + ([U('>')] + rest);
    FirstEnd(inner, rest);
    hide WorkbookTags.Find, IsSpace;
    assert t[..|inner|] == inner;
    if inner != [] {
      assert t[0] == inner[0] && t[|inner| - 1] == inner[|inner| - 1] && t[..|inner| - 1] == inner[..|inner| - 1];
      SlashIsNoSpace();
      assert |inner| == 1 ==> inner == [inner[0]];
    }
  }

  lemma SlashIsNoSpace()
    ensures !IsSpace(U('/'))
  {
  }

  lemma BehindName(t: Text, name: Text)
    ensures StartsWith(t, [U('<')] + name) ==> t == [U('<')] + name + t[|name| + 1..]
    ensures forall inner :: StartsWith(t, Tag(name, inner)) <==>
        StartsWith(t, [U('<')] + name) && StartsWith(t[|name| + 1..], inner + [U('>')])
  {
    var head := [U('<')] + name;
    assert StartsWith(t, head) ==> t == head + t[|head|..];
    forall inner
      ensures StartsWith(t, Tag(name, inner)) <==> StartsWith(t, head) && StartsWith(t[|name| + 1..], inner + [U('>')])
    {
      StartsWithBoth(t, head, inner + [U('>')]);
    }
  }

  lemma StartsWithBoth(t: Text, p: Text, q: Text)
    ensures StartsWith(t, p + q) <==> StartsWith(t, p) && StartsWith(t[|p|..], q)
  {
    if StartsWith(t, p + q) {
      assert t[..|p|] == (p + q)[..|p|] == p;
      assert t[|p|..][..|q|] == t[..|p + q|][|p|..] == q;
    }
    if StartsWith(t, p) && StartsWith(t[|p|..], q) {
      assert t[..|p| + |q|] == t[..|p|] + t[|p|..][..|q|];
    }
  }

  /** A text begins with an opening tag if and only if it begins with one that is written so; and it is read as that. */
  lemma OpensExactly(t: Text, name: Text, o: Open)
    ensures OpenAt(t, name) == Some(o) <==>
      exists inner :: MayFollow(inner) && StartsWith(t, Tag(name, inner)) && o == Read(inner, |Tag(name, inner)|)
  {
    BehindName(t, name);
    hide OpenIn, MayFollow, Read, StartsWith;
    if inner :| MayFollow(inner) && StartsWith(t, Tag(name, inner)) && o == Read(inner, |Tag(name, inner)|) {
      OpensIfWritten(t[|name| + 1..], inner, |name| + 1);
    }
    if OpenAt(t, name) == Some(o) {
      var inner := WrittenIfOpens(t[|name| + 1..], |name| + 1);
      assert StartsWith(t, Tag(name, inner)) && |Tag(name, inner)| == |name| + 1 + |inner| + 1;
    }
  }

  lemma OpensIfWritten(rest: Text, inner: Text, before: nat)
    requires MayFollow(inner) && StartsWith(rest, inner + [U('>')])
    ensures OpenIn(rest, before) == Some(Read(inner, before + |inner| + 1))
  {
    var behind := rest[|inner| + 1..];
    assert rest == inner + [U('>')] + behind;
    assert rest == inner + ([U('>')] + behind);
    InnerReads(inner, behind, before);
  }

  lemma WrittenIfOpens(rest: Text, before: nat) returns (inner: Text)
    requires OpenIn(rest, before).Some?
    ensures MayFollow(inner) && StartsWith(rest, inner + [U('>')])
    ensures OpenIn(rest, before) == Some(Read(inner, before + |inner| + 1))
  {
    var behind;
    inner, behind := EndFound(rest);
    InnerReads(inner, behind, before);
    assert rest[..|inner| + 1] == inner + [U('>')];
  }

  /** No opening tag begins before this position. */
  ghost predicate NoneBefore(t: Text, name: Text, p: nat) {
    forall i | 0 <= i < p && i <= |t| :: OpenAt(t[i..], name).None?
  }

  /** The closing tag stands at `q` behind `t`, and none before it. */
  ghost predicate ClosesAt(t: Text, name: Text, q: nat) {
    q < |t| && StartsWith(t[q..], Close(name)) && forall i | 0 <= i < q :: !StartsWith(t[i..], Close(name))
  }

  /** Behind the opening tag at `p`: nothing where it is empty, otherwise all up to the first closing tag. */
  ghost predicate ElementAt(t: Text, name: Text, p: nat, s: Step) {
    && p < |t| && NoneBefore(t, name, p) && OpenAt(t[p..], name).Some?
    && var o := OpenAt(t[p..], name).value;
       var behind := t[p + o.length..];
       if o.empty then s == Step(Element(o.attrs, []), p + o.length)
       else
         && s.length >= p + o.length && ClosesAt(behind, name, s.length - p - o.length)
         && s.element == Element(o.attrs, behind[..s.length - p - o.length])
  }

  /**
   * The next element is that of the first opening tag: without a body where the tag is empty, and
   * otherwise with all that stands before the first closing tag, where the search goes on. Without an
   * opening tag there is none, nor when the first one is not closed, whatever comes behind it.
   */
  lemma NextExactly(t: Text, name: Text, s: Step)
    ensures Next(t, name) == Some(s) <==> exists p: nat :: ElementAt(t, name, p, s)
  {
    hide OpenAt, Close, StartsWith;
    if Next(t, name).Some? {
      NextIsElement(t, name);
    }
    if p: nat :| ElementAt(t, name, p, s) {
      ElementIsNext(t, name, p, s);
    }
  }

  lemma NextIsElement(t: Text, name: Text)
    requires Next(t, name).Some?
    ensures ElementAt(t, name, FindOpen(t, name), Next(t, name).value)
  {
    OpenIsFirst(t, name);
    var p := FindOpen(t, name);
    hide OpenAt, Close, FindOpen, NoneBefore, WorkbookTags.Find, ClosesAt;
    var o := OpenAt(t[p..], name).value;
    CloseIsFirst(t[p + o.length..], name);
  }

  lemma OpenIsFirst(t: Text, name: Text)
    ensures var p := FindOpen(t, name); NoneBefore(t, name, p) && (p < |t| ==> OpenAt(t[p..], name).Some?)
  {
  }

  lemma CloseIsFirst(t: Text, name: Text)
    ensures var q := WorkbookTags.Find(t, Close(name)); q < |t| ==> ClosesAt(t, name, q)
  {
  }

  lemma ElementIsNext(t: Text, name: Text, p: nat, s: Step)
    requires ElementAt(t, name, p, s)
    ensures Next(t, name) == Some(s)
  {
    hide OpenAt, Close, StartsWith;
    var f := FindOpen(t, name);
    hide FindOpen;
    assert f == p;
    var o := OpenAt(t[p..], name).value;
    var close := WorkbookTags.Find(t[p + o.length..], Close(name));
    hide WorkbookTags.Find;
    assert !o.empty ==> close == s.length - p - o.length;
  }
}
