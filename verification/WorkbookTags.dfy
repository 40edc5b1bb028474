/** `tags`: the scanner that finds the elements of a workbook's XML. */
module WorkbookTags {
  import opened Wrappers
  import opened Texts

  /** `indexOf`; the length when there is none. */
  function Find(t: Text, p: Text): (r: nat)
    ensures r <= |t| && (r < |t| ==> StartsWith(t[r..], p)) && forall i | 0 <= i < r :: !StartsWith(t[i..], p)
  {
    if t == [] || StartsWith(t, p) then 0
    else
      assert forall i | 1 <= i <= |t| :: t[1..][i - 1..] == t[i..];
      1 + Find(t[1..], p)
  }

  // ----- tags

  datatype Element = Element(attrs: Text, body: Text)

  datatype Open = Open(attrs: Text, empty: bool, length: nat)

  function Close(name: Text): Text {
    [U('<'), U('/')] + name + [U('>')]
  }

  /** The rest of an opening tag, behind `before` units of it: `(\s[^>]*?)?(\/?)>`. */
  function OpenIn(rest: Text, before: nat): (r: Option<Open>)
    ensures r.Some? ==> before < r.value.length <= before + |rest|
  {
    var g := Find(rest, [U('>')]);
    if g == |rest| then None
    else if g == 0 then Some(Open([], false, before + 1))
    else if g == 1 && rest[0] == U('/') then Some(Open([], true, before + 2))
    else if !IsSpace(rest[0]) then None
    else if rest[g - 1] == U('/') then Some(Open(rest[..g - 1], true, before + g + 1))
    else Some(Open(rest[..g], false, before + g + 1))
  }

  /** The opening tag a text begins with. */
  function OpenAt(t: Text, name: Text): (r: Option<Open>)
    ensures r.Some? ==> 0 < r.value.length <= |t|
  {
    if StartsWith(t, [U('<')] + name) then OpenIn(t[|name| + 1..], |name| + 1) else None
  }

  /** Where the first opening tag is; the length when there is none. */
  function FindOpen(t: Text, name: Text): (r: nat)
    ensures r <= |t| && (r < |t| ==> OpenAt(t[r..], name).Some?) && forall i | 0 <= i < r :: OpenAt(t[i..], name).None?
  {
    if t == [] || OpenAt(t, name).Some? then 0
    else
      assert forall i | 1 <= i <= |t| :: t[1..][i - 1..] == t[i..];
      1 + FindOpen(t[1..], name)
  }

  datatype Step = Step(element: Element, length: nat)

  /** The first element, and where the search for the next one goes on. */
  function Next(t: Text, name: Text): (r: Option<Step>)
    ensures r.Some? ==> 0 < r.value.length <= |t|
  {
    var p := FindOpen(t, name);
    if p == |t| then None
    else
      var open := OpenAt(t[p..], name).value;
      var end := p + open.length;
      if open.empty then Some(Step(Element(open.attrs, []), end))
      else
        var close := Find(t[end..], Close(name));
        if close == |t| - end then None else Some(Step(Element(open.attrs, t[end..][..close]), end + close))
  }

  /** The elements from here on. */
  function Scan(t: Text, name: Text): seq<Element>
    decreases |t|
  {
    match Next(t, name)
    case None => []
    case Some(step) => [step.element] + Scan(t[step.length..], name)
  }

  /** `tags`: `lastIndex` is where the search goes on. */
  method Tags(xml: Text, name: Text) returns (elements: seq<Element>)
    ensures elements == Scan(xml, name)
  {
    hide Scan, FindOpen, OpenAt, Find;
    elements := [];
    var lastIndex := 0;
    assert xml[0..] == xml;
    while true
      invariant lastIndex <= |xml|
      invariant Scan(xml, name) == elements + Scan(xml[lastIndex..], name)
      decreases |xml| - lastIndex
    {
      ghost var from := lastIndex;
      var t := xml[lastIndex..];
      ScanOn(xml, name, from);
      var p := FindOpen(t, name);
      if p == |t| {
        return;
      }
      var open := OpenAt(t[p..], name).value;
      lastIndex := lastIndex + p + open.length;
      assert xml[lastIndex..] == t[p + open.length..];
      if open.empty {
        elements := elements + [Element(open.attrs, [])];
      } else {
        var close := Find(xml[lastIndex..], Close(name));
        if close == |xml| - lastIndex {
          return;
        }
        elements := elements + [Element(open.attrs, xml[lastIndex..lastIndex + close])];
        assert xml[lastIndex..lastIndex + close] == xml[lastIndex..][..close];
        lastIndex := lastIndex + close;
      }
    }
  }

  lemma ScanOn(xml: Text, name: Text, from: nat)
    requires from <= |xml|
    ensures match Next(xml[from..], name)
            case None => Scan(xml[from..], name) == []
            case Some(step) => Scan(xml[from..], name) == [step.element] + Scan(xml[from + step.length..], name)
  {
    hide Next;
    var next := Next(xml[from..], name);
    if next.Some? {
      assert xml[from..][next.value.length..] == xml[from + next.value.length..];
    }
  }

  // ----- written elements are found again

  /** An element as it is written, behind some other text. */
  datatype Written = Written(gap: Text, attrs: Text, body: Text, empty: bool)

  /** What stands between the name and the `>`. */
  function Inner(w: Written): Text {
    if w.empty then w.attrs + [U('/')] else w.attrs
  }

  function Tag(w: Written, name: Text): Text {
    [U('<')] + name + (Inner(w) + [U('>')])
  }

  /** An element from its opening to its closing tag. */
  function Content(w: Written, name: Text): Text {
    Tag(w, name) + if w.empty then [] else w.body + Close(name)
  }

  function Write(w: Written, name: Text): Text {
    w.gap + Content(w, name)
  }

  function WriteAll(ws: seq<Written>, name: Text): Text {
    if ws == [] then [] else Write(ws[0], name) + WriteAll(ws[1..], name)
  }

  predicate GoodName(name: Text) {
    name != [] && name[0] != U('/') && U('<') !in name && U('>') !in name
  }

  /** Another name goes on where this one ends, so that no tag of this one opens here. */
  predicate GoesOn(t: Text, name: Text) {
    |name| + 1 < |t| && !IsSpace(t[|name| + 1]) && t[|name| + 1] != U('/') && t[|name| + 1] != U('>')
  }

  /** No tag of the name opens here, whatever follows. */
  ghost predicate Inert(t: Text, name: Text) {
    forall i | 0 <= i < |t| && StartsWith(t[i..], [U('<')] + name) :: GoesOn(t[i..], name)
  }

  ghost predicate Holds(t: Text, p: Text) {
    exists i | 0 <= i < |t| :: StartsWith(t[i..], p)
  }

  ghost predicate WellWritten(w: Written, name: Text) {
    && Inert(w.gap, name)
    && (w.attrs != [] ==> IsSpace(w.attrs[0]) && U('>') !in w.attrs && (!w.empty ==> w.attrs[|w.attrs| - 1] != U('/')))
    && (if w.empty then w.body == [] else !Holds(w.body, Close(name)))
  }

  function Read(ws: seq<Written>): (r: seq<Element>)
    ensures |r| == |ws| && forall i | 0 <= i < |ws| :: r[i] == Element(ws[i].attrs, ws[i].body)
  {
    seq(|ws|, i requires 0 <= i < |ws| => Element(ws[i].attrs, ws[i].body))
  }

  /** What a pattern begins with stands nowhere else in it, so it cannot begin in one text and end in the next. */
  lemma NoOverlap(a: Text, p: Text, b: Text, i: nat)
    requires p != [] && i < |a| && !StartsWith(a[i..], p)
    requires forall k | 0 < k < |p| :: p[k] != p[0]
    requires b == [] || b[0] == p[0]
    ensures !StartsWith((a + b)[i..], p)
  {
    var t := (a + b)[i..];
    if |p| <= |a| - i {
      assert t[..|p|] == a[i..][..|p|];
    } else if b != [] && |p| <= |t| {
      assert t[..|p|][|a| - i] == b[0] == p[0] != p[|a| - i];
    }
  }

  lemma {:induction false} FindBehind(a: Text, p: Text, b: Text)
    requires p != [] && !Holds(a, p) && StartsWith(b, p)
    requires forall k | 0 < k < |p| :: p[k] != p[0]
    ensures Find(a + b, p) == |a|
  {
    hide Find;
    assert b[0] == p[0];
    forall i | 0 <= i < |a| ensures !StartsWith((a + b)[i..], p) {
      NoOverlap(a, p, b, i);
    }
    assert (a + b)[|a|..] == b;
  }

  lemma FindUnit(a: Text, u: Unit, b: Text)
    requires u !in a
    ensures Find(a + [u] + b, [u]) == |a|
  {
    hide Find;
    forall i | 0 <= i < |a| ensures !StartsWith(a[i..], [u]) {
      assert a[i] in a;
    }
    assert StartsWith([u] + b, [u]);
    assert a + [u] + b == a + ([u] + b);
    FindBehind(a, [u], [u] + b);
  }

  lemma Halves(a: Text, b: Text)
    ensures (a + b)[..|a|] == a && (a + b)[|a|..] == b
  {
  }

  lemma InnerOpens(w: Written, name: Text, rest: Text, before: nat)
    requires WellWritten(w, name)
    ensures OpenIn(Inner(w) + [U('>')] + rest, before) == Some(Open(w.attrs, w.empty, before + |Inner(w)| + 1))
  {
    var inner := Inner(w);
    var t := inner + [U('>')] + rest;
    NoneInside(w, name);
    FindUnit(inner, U('>'), rest);
    NotSpace();
    hide Find, IsSpace;
    assert t == inner + ([U('>')] + rest) && t[..|inner|] == inner;
    assert forall i | 0 <= i < |inner| :: t[i] == inner[i];
    if w.empty {
      assert t[..|inner| - 1] == w.attrs && t[|inner| - 1] == U('/');
    }
  }

  lemma NoneInside(w: Written, name: Text)
    requires WellWritten(w, name)
    ensures U('>') !in Inner(w)
  {
  }

  lemma NotSpace()
    ensures !IsSpace(U('/'))
  {
  }

  lemma OpensWith(t: Text, name: Text)
    ensures OpenAt(t, name).Some? ==> StartsWith(t, [U('<')] + name)
    ensures GoesOn(t, name) ==> OpenAt(t, name).None?
  {
    if GoesOn(t, name) && StartsWith(t, [U('<')] + name) {
      var rest := t[|name| + 1..];
      assert rest[0] == t[|name| + 1] && !StartsWith(rest, [U('>')]);
    }
  }

  lemma OpenNone(gap: Text, t: Text, name: Text, i: nat)
    requires GoodName(name) && Inert(gap, name) && i < |gap| && (t == [] || t[0] == U('<'))
    ensures OpenAt((gap + t)[i..], name).None?
  {
    var p, all := [U('<')] + name, (gap + t)[i..];
    OpensWith(all, name);
    if StartsWith(gap[i..], p) {
      assert all[|name| + 1] == gap[i..][|name| + 1];
      assert GoesOn(all, name);
    } else {
      assert forall k | 0 < k < |p| :: p[k] == name[k - 1];
      NoOverlap(gap, p, t, i);
    }
  }

  lemma OpenFound(gap: Text, t: Text, name: Text)
    requires GoodName(name) && Inert(gap, name) && OpenAt(t, name).Some?
    ensures FindOpen(gap + t, name) == |gap|
  {
    OpensWith(t, name);
    assert t[0] == ([U('<')] + name)[0];
    hide FindOpen, OpenAt, Inert, GoodName;
    var all := gap + t;
    forall i | 0 <= i < |gap| ensures OpenAt(all[i..], name).None? {
      OpenNone(gap, t, name, i);
    }
    Halves(gap, t);
  }

  /** The text behind the opening tag. */
  function Behind(w: Written, name: Text, rest: Text): Text {
    if w.empty then rest else w.body + (Close(name) + rest)
  }

  function TagOn(w: Written, name: Text, rest: Text): Text {
    Tag(w, name) + Behind(w, name, rest)
  }

  lemma TagOpens(w: Written, name: Text, rest: Text)
    requires GoodName(name) && WellWritten(w, name)
    ensures OpenAt(TagOn(w, name, rest), name) == Some(Open(w.attrs, w.empty, |Tag(w, name)|))
  {
    var head, inner, after := [U('<')] + name, Inner(w), Behind(w, name, rest);
    var behind := inner + [U('>')] + after;
    hide Behind, WellWritten, OpenIn;
    Regroup(head, inner + [U('>')], after);
    Halves(head, behind);
    InnerOpens(w, name, after, |head|);
    assert TagOn(w, name, rest) == head + behind && StartsWith(head + behind, head);
  }

  lemma WriteParts(w: Written, name: Text, rest: Text)
    ensures Write(w, name) + rest == w.gap + TagOn(w, name, rest)
  {
    var tag, close := Tag(w, name), Close(name);
    hide Close, Tag;
    assert Content(w, name) + rest == TagOn(w, name, rest) by {
      if !w.empty {
        Regroup(tag, w.body + close, rest);
        Regroup(w.body, close, rest);
      } else {
        assert tag + [] == tag;
      }
    }
    hide Content, TagOn;
    Regroup(w.gap, Content(w, name), rest);
  }

  lemma {:induction false} WriteSlices(w: Written, name: Text, rest: Text)
    ensures var t, p, end := Write(w, name) + rest, |w.gap|, |w.gap| + |Tag(w, name)|;
      && end <= |t| && p < end && t[p..] == TagOn(w, name, rest) && t[end..] == Behind(w, name, rest)
      && (if w.empty then t[end..] == [] + rest else end + |w.body| < |t| && t[end + |w.body|..] == Close(name) + rest)
  {
    WriteParts(w, name, rest);
    Halves(w.gap, TagOn(w, name, rest));
    Halves(Tag(w, name), Behind(w, name, rest));
    if !w.empty {
      Halves(w.body, Close(name) + rest);
    }
    assert Tag(w, name) != [] && Close(name) != [];
    hide Tag, Close, Write;
    var t, end := Write(w, name) + rest, |w.gap| + |Tag(w, name)|;
    assert t[end..] == t[|w.gap|..][|Tag(w, name)|..];
    assert !w.empty ==> t[end + |w.body|..] == t[end..][|w.body|..];
  }

  /** A written element is the next one found, and the search goes on at its closing tag. */
  lemma {:induction false} WriteFound(w: Written, rest: Text, name: Text)
    requires GoodName(name) && WellWritten(w, name)
    ensures var t := Write(w, name) + rest;
      && Next(t, name).Some? && Next(t, name).value.element == Element(w.attrs, w.body)
      && t[Next(t, name).value.length..] == (if w.empty then [] else Close(name)) + rest
  {
    hide FindOpen, OpenAt, Find, Tag, TagOn, Behind, WellWritten, Write, GoodName, Next, Close, Inert;
    var t, p, end := Write(w, name) + rest, |w.gap|, |w.gap| + |Tag(w, name)|;
    WriteSlices(w, name, rest);
    WriteParts(w, name, rest);
    TagOpens(w, name, rest);
    WrittenParts(w, name);
    OpenFound(w.gap, TagOn(w, name, rest), name);
    if !w.empty {
      CloseFound(w, name, rest);
    }
    NextIs(t, name, p, end, w);
  }

  lemma WrittenParts(w: Written, name: Text)
    requires WellWritten(w, name)
    ensures Inert(w.gap, name) && (w.empty ==> w.body == [])
  {
  }

  lemma {:induction false} NextIs(t: Text, name: Text, p: nat, end: nat, w: Written)
    requires p < end <= |t| && FindOpen(t, name) == p && OpenAt(t[p..], name) == Some(Open(w.attrs, w.empty, end - p))
    requires !w.empty ==>
      end + |w.body| < |t| && Find(t[end..], Close(name)) == |w.body| && t[end..][..|w.body|] == w.body
    requires w.empty ==> w.body == []
    ensures Next(t, name) == Some(Step(Element(w.attrs, w.body), end + |w.body|))
  {
    hide FindOpen, OpenAt, Find, Close;
  }

  lemma CloseFound(w: Written, name: Text, rest: Text)
    requires GoodName(name) && WellWritten(w, name) && !w.empty
    ensures var t := Behind(w, name, rest); Find(t, Close(name)) == |w.body| <= |t| && t[..|w.body|] == w.body
  {
    var p := Close(name);
    assert forall k | 1 < k < |p| - 1 :: p[k] == name[k - 2];
    assert p[1] == U('/') && p[|p| - 1] == U('>');
    FindBehind(w.body, p, p + rest);
  }

  /** A closing tag in front opens nothing, whatever follows it. */
  lemma CloseIsInert(gap: Text, name: Text)
    requires GoodName(name) && Inert(gap, name)
    ensures Inert(Close(name) + gap, name)
  {
    var close, p := Close(name), [U('<')] + name;
    var t := close + gap;
    forall i | 0 <= i < |t| && StartsWith(t[i..], p) ensures GoesOn(t[i..], name) {
      if i >= |close| {
        assert t[i..] == gap[i - |close|..];
      } else {
        CloseOpensNothing(name, gap, i);
      }
    }
  }

  lemma CloseOpensNothing(name: Text, gap: Text, i: nat)
    requires GoodName(name) && i < |Close(name)|
    ensures !StartsWith((Close(name) + gap)[i..], [U('<')] + name)
  {
    var close, p := Close(name), [U('<')] + name;
    var t := (close + gap)[i..];
    assert t[0] == close[i];
    if i == 0 {
      assert t[1] == U('/') && p[1] == name[0];
    } else {
      assert close[i] == U('/') || close[i] == U('>') || close[i] in name;
    }
  }

  lemma {:induction false} ScanWritten(pre: Text, ws: seq<Written>, tail: Text, name: Text)
    requires GoodName(name) && (pre == [] || pre == Close(name)) && Inert(tail, name)
    requires forall w | w in ws :: WellWritten(w, name)
    ensures Scan(pre + (WriteAll(ws, name) + tail), name) == Read(ws)
    decreases |ws|
  {
    hide Inert, FindOpen, Close, GoodName, WellWritten, Write, Next;
    if ws == [] {
      assert WriteAll(ws, name) + tail == tail;
      if pre == [] {
        assert pre + tail == tail;
      } else {
        CloseIsInert(tail, name);
      }
      NothingOpens(pre + tail, name);
    } else {
      var w, rest := ws[0], WriteAll(ws[1..], name) + tail;
      var first, next := w.(gap := pre + w.gap), if w.empty then [] else Close(name);
      assert w in ws;
      GapReplaced(w, pre, name);
      WriteFound(first, rest, name);
      ScanWritten(next, ws[1..], tail, name);
      Reordered(pre, ws, tail, name);
      hide WriteAll;
      assert Scan(Write(first, name) + rest, name) == [Element(w.attrs, w.body)] + Scan(next + rest, name);
      assert Read(ws) == [Element(w.attrs, w.body)] + Read(ws[1..]);
    }
  }

  lemma Reordered(pre: Text, ws: seq<Written>, tail: Text, name: Text)
    requires ws != []
    ensures pre + (WriteAll(ws, name) + tail) ==
      Write(ws[0].(gap := pre + ws[0].gap), name) + (WriteAll(ws[1..], name) + tail)
  {
    var w, rest := ws[0], WriteAll(ws[1..], name);
    var first := w.(gap := pre + w.gap);
    var content := Content(w, name);
    assert Content(first, name) == content;
    assert WriteAll(ws, name) == w.gap + content + rest && Write(first, name) == pre + w.gap + content;
    hide WriteAll, Content, Write;
    Regroup(w.gap + content, rest, tail);
    Regroup(pre, w.gap, content);
    Regroup(pre, w.gap + content, rest + tail);
  }

  lemma GapReplaced(w: Written, pre: Text, name: Text)
    requires GoodName(name) && WellWritten(w, name) && (pre == [] || pre == Close(name))
    ensures WellWritten(w.(gap := pre + w.gap), name)
  {
    if pre == [] {
      assert pre + w.gap == w.gap;
    } else {
      CloseIsInert(w.gap, name);
    }
  }

  lemma NothingOpens(t: Text, name: Text)
    requires Inert(t, name)
    ensures Scan(t, name) == []
  {
    forall i | 0 <= i < |t| ensures OpenAt(t[i..], name).None? {
      OpensWith(t[i..], name);
    }
  }

  /** What the workbook's own parts have before their elements: the tag of a list, which its name only begins like. */
  lemma ListTagIsInert(name: Text, attrs: Text)
    requires GoodName(name) && U('<') !in attrs
    ensures Inert([U('<')] + name + [U('s')] + attrs + [U('>')], name)
  {
    var p, t := [U('<')] + name, [U('<')] + name + [U('s')] + attrs + [U('>')];
    forall i | 0 <= i < |t| && StartsWith(t[i..], p) ensures GoesOn(t[i..], name) {
      assert t[i] == p[0];
      assert forall k | 0 < k < |t| :: t[k] in name || t[k] == U('s') || t[k] in attrs || t[k] == U('>');
      assert t[i..][|name| + 1] == U('s');
    }
  }

  /** Scanning what has been written gives exactly the elements that were written, in order. */
  lemma {:induction false} TagsReadBack(ws: seq<Written>, tail: Text, name: Text)
    requires GoodName(name) && Inert(tail, name) && forall w | w in ws :: WellWritten(w, name)
    ensures Scan(WriteAll(ws, name) + tail, name) == Read(ws)
  {
    ScanWritten([], ws, tail, name);
    hide Scan, WriteAll, Read, WellWritten, Inert;
    assert [] + (WriteAll(ws, name) + tail) == WriteAll(ws, name) + tail;
  }
}
