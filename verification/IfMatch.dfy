/** Optimistic concurrency: entity tags over a resource's state, and edits that quote them. */
module IfMatch {
  import opened Wrappers
  import opened Texts
  import opened CanonicalJson

  // ----- `requireIfMatch`

  function Normalise(tag: Text): Text {
    var t := Trim(tag);
    if |t| >= 2 && t[0] == U('W') && t[1] == U('/') then t[2..] else t
  }

  /** `split(',')`. */
  function Split(t: Text): (r: seq<Text>)
    ensures r != []
  {
    if t == [] then [[]]
    else
      var rest := Split(t[1..]);
      if t[0] == U(',') then [[]] + rest else [[t[0]] + rest[0]] + rest[1..]
  }

  /** Offered alone or in a list, it is accepted whatever the state. */
  const ANY: Text := [U('*')]

  /** The edit may go on; otherwise `precondition_failed` is thrown. */
  predicate RequireIfMatch(ifMatch: Option<Text>, current: Text) {
    ifMatch.Some? ==>
      var pieces := Split(ifMatch.value);
      exists i | 0 <= i < |pieces| :: Normalise(pieces[i]) == ANY || Normalise(pieces[i]) == Normalise(current)
  }

  // ----- `etagOf`

  /** The first 32 hexadecimal digits of SHA-256. */
  ghost predicate IsDigest(hash: Text -> Text) {
    forall t :: |hash(t)| == 32 && forall u | u in hash(t) :: IsHex(u)
  }

  function EtagOf(hash: Text -> Text, v: Value): Text {
    [U('"')] + hash(StableJson(v)) + [U('"')]
  }

  /** The states a resource goes through do not collide. */
  ghost predicate NoCollision(hash: Text -> Text, states: seq<Value>) {
    forall a, b | a in states && b in states && hash(StableJson(a)) == hash(StableJson(b)) ::
      StableJson(a) == StableJson(b)
  }

  lemma TagsAgree(hash: Text -> Text, states: seq<Value>, a: Value, b: Value)
    requires NoCollision(hash, states) && a in states && b in states
    requires Proper(a) && Proper(b)
    ensures EtagOf(hash, a) == EtagOf(hash, b) <==> Same(a, b)
  {
    Canonical(a, b);
    assert EtagOf(hash, a)[1..|EtagOf(hash, a)| - 1] == hash(StableJson(a));
    assert EtagOf(hash, b)[1..|EtagOf(hash, b)| - 1] == hash(StableJson(b));
  }

  // ----- the header as clients and proxies write it

  /** One tag of a list, or `*`: with white space around it, and marked weak by whoever re-tagged it. */
  datatype Offer = Offer(before: Text, weak: bool, tag: Text, after: Text)

  predicate IsTag(t: Text) {
    |t| >= 2 && t[0] == U('"') && t[|t| - 1] == U('"') && U(',') !in t
  }

  predicate WellWritten(o: Offer) {
    Blank(o.before) && Blank(o.after) && (IsTag(o.tag) || o.tag == ANY)
  }

  function Written(o: Offer): Text {
    o.before + (if o.weak then [U('W'), U('/')] else []) + o.tag + o.after
  }

  function Header(offers: seq<Offer>): Text {
    if offers == [] then []
    else if |offers| == 1 then Written(offers[0])
    else Written(offers[0]) + [U(',')] + Header(offers[1..])
  }

  /** Decoration does not change the tag that is compared. */
  lemma NormaliseWritten(o: Offer)
    requires WellWritten(o)
    ensures Normalise(Written(o)) == o.tag
  {
    var core := (if o.weak then [U('W'), U('/')] else []) + o.tag;
    assert Written(o) == o.before + (core + o.after);
    assert (core + o.after)[0] == core[0] && core[|core| - 1] == o.tag[|o.tag| - 1];
    TrimStartBlank(o.before, core + o.after);
    TrimEndBlank(core, o.after);
    assert o.weak ==> core[2..] == o.tag;
  }

  lemma {:induction false} SplitOne(t: Text)
    requires U(',') !in t
    ensures Split(t) == [t]
  {
    if t != [] {
      SplitOne(t[1..]);
      assert t == [t[0]] + t[1..];
    }
  }

  lemma {:induction false} SplitFirst(t: Text, rest: Text)
    requires U(',') !in t
    ensures Split(t + [U(',')] + rest) == [t] + Split(rest)
  {
    var all := t + [U(',')] + rest;
    if t == [] {
      assert all[1..] == rest;
    } else {
      assert all[1..] == t[1..] + [U(',')] + rest;
      SplitFirst(t[1..], rest);
      assert t == [t[0]] + t[1..];
    }
  }

  lemma NoComma(o: Offer)
    requires WellWritten(o)
    ensures U(',') !in Written(o)
  {
    assert forall u | u in o.before || u in o.after :: IsSpace(u);
  }

  lemma {:induction false} SplitHeader(offers: seq<Offer>)
    requires offers != [] && forall o | o in offers :: WellWritten(o)
    ensures Split(Header(offers)) == seq(|offers|, i requires 0 <= i < |offers| => Written(offers[i]))
  {
    var o := offers[0];
    assert o in offers && forall x | x in offers[1..] :: x in offers;
    NoComma(o);
    hide WellWritten, Written, Split;
    var pieces := seq(|offers|, i requires 0 <= i < |offers| => Written(offers[i]));
    if |offers| == 1 {
      SplitOne(Written(o));
      assert pieces == [Written(o)];
    } else {
      SplitHeader(offers[1..]);
      SplitFirst(Written(o), Header(offers[1..]));
      assert pieces[1..] == seq(|offers[1..]|, i requires 0 <= i < |offers[1..]| => Written(offers[1..][i]));
      assert pieces == [Written(o)] + pieces[1..];
    }
  }

  lemma TagIsItself(tag: Text)
    requires IsTag(tag)
    ensures Normalise(tag) == tag
  {
    NormaliseWritten(Offer([], false, tag, []));
    assert Written(Offer([], false, tag, [])) == tag;
  }

  predicate Meets(o: Offer, current: Text) {
    o.tag == current || o.tag == ANY
  }

  /** A header is accepted if and only if it offers the current tag or `*`. */
  lemma HeaderMatches(offers: seq<Offer>, current: Text)
    requires offers != [] && IsTag(current)
    requires forall o | o in offers :: WellWritten(o)
    ensures RequireIfMatch(Some(Header(offers)), current) <==> exists o | o in offers :: Meets(o, current)
  {
    var pieces := Split(Header(offers));
    SplitHeader(offers);
    TagIsItself(current);
    hide Split, Header, Normalise, Written, WellWritten, IsTag;
    forall i | 0 <= i < |offers|
      ensures Meets(offers[i], current) <==> Normalise(pieces[i]) == ANY || Normalise(pieces[i]) == Normalise(current)
    {
      assert offers[i] in offers;
      NormaliseWritten(offers[i]);
    }
    hide Meets;
    if o :| o in offers && Meets(o, current) {
      var i :| 0 <= i < |offers| && offers[i] == o;
      assert Normalise(pieces[i]) == ANY || Normalise(pieces[i]) == Normalise(current);
    } else {
      assert forall i | 0 <= i < |offers| :: offers[i] in offers;
    }
  }

  /** The strong comparison of RFC 9110: a weak tag matches nothing. */
  predicate StrongMatch(offers: seq<Offer>, current: Text) {
    exists o | o in offers :: !o.weak && Meets(o, current)
  }

  /** The code and the strong comparison differ exactly when what meets the current tag is only marked weak. */
  lemma WeakOffersDiffer(offers: seq<Offer>, current: Text)
    requires offers != [] && IsTag(current)
    requires forall o | o in offers :: WellWritten(o)
    ensures RequireIfMatch(Some(Header(offers)), current) != StrongMatch(offers, current) <==>
      (exists o | o in offers :: Meets(o, current)) && forall o | o in offers && Meets(o, current) :: o.weak
  {
    HeaderMatches(offers, current);
    hide RequireIfMatch, Header;
  }

  // ----- readers and writers

  /** What a client quotes: which of the states it was sent, or `*`, and how that ended up in the header. */
  datatype Quoting = Quoting(read: Option<nat>, before: Text, weak: bool, after: Text)

  /**
   * The check of an edit and its write are two steps: the handlers read the resource, check the
   * header against it and write afterwards, and nothing keeps another edit from being written in
   * between. `Check` with no quotes sends no `If-Match`: the caller does not ask for the check. An
   * edit that passed its check may be written, with any state, or come to nothing.
   */
  datatype Event =
    | Read(client: nat)
    | Check(edit: nat, client: nat, quotes: seq<Quoting>)
    | Write(edit: nat, state: Value)

  /** The states an edit quoted, where `None` is `*`; which state its check met; which one it replaced. */
  datatype Edit = Edit(bases: seq<Option<nat>>, met: nat, accepted: bool, replaced: Option<nat>)

  /**
   * `states` are the states the resource has had, the last one being current; `seen[c]` are the
   * indices of those that client `c` was sent.
   */
  datatype World = World(states: seq<Value>, seen: map<nat, seq<nat>>, edits: map<nat, Edit>)

  ghost predicate Possible(w: World, e: Event) {
    match e
    case Read(_) => true
    case Check(edit, c, quotes) =>
      && edit !in w.edits && (quotes != [] ==> c in w.seen)
      && forall q | q in quotes :: (q.read.Some? ==> q.read.value < |w.seen[c]|) && Blank(q.before) && Blank(q.after)
    case Write(edit, state) =>
      Proper(state) && edit in w.edits && w.edits[edit].accepted && w.edits[edit].replaced.None?
  }

  ghost predicate Consistent(w: World) {
    && w.states != []
    && (forall s | s in w.states :: Proper(s))
    && (forall c, r | c in w.seen && r in w.seen[c] :: r < |w.states|)
  }

  function BaseOf(w: World, c: nat, q: Quoting): (r: Option<nat>)
    requires Consistent(w) && c in w.seen && (q.read.Some? ==> q.read.value < |w.seen[c]|)
    ensures r.Some? ==> r.value < |w.states|
  {
    assert q.read.Some? ==> w.seen[c][q.read.value] in w.seen[c];
    if q.read.Some? then Some(w.seen[c][q.read.value]) else None
  }

  /** The states that an edit quotes. */
  function BasesOf(w: World, c: nat, quotes: seq<Quoting>): (r: seq<Option<nat>>)
    requires Consistent(w) && (quotes != [] ==> c in w.seen)
    requires forall q | q in quotes :: q.read.Some? ==> q.read.value < |w.seen[c]|
    ensures |r| == |quotes| && forall b | b in r :: b.Some? ==> b.value < |w.states|
  {
    seq(|quotes|, i requires 0 <= i < |quotes| => assert quotes[i] in quotes; BaseOf(w, c, quotes[i]))
  }

  function TagOf(hash: Text -> Text, states: seq<Value>, base: Option<nat>): Text
    requires base.Some? ==> base.value < |states|
  {
    if base.Some? then EtagOf(hash, states[base.value]) else ANY
  }

  function OffersOf(hash: Text -> Text, states: seq<Value>, bases: seq<Option<nat>>, quotes: seq<Quoting>): seq<Offer>
    requires |bases| == |quotes| && forall b | b in bases :: b.Some? ==> b.value < |states|
  {
    seq(|quotes|, i requires 0 <= i < |quotes| =>
      assert bases[i] in bases;
      Offer(quotes[i].before, quotes[i].weak, TagOf(hash, states, bases[i]), quotes[i].after))
  }

  ghost function Step(hash: Text -> Text, w: World, e: Event): World
    requires Consistent(w) && Possible(w, e)
  {
    var now := |w.states| - 1;
    match e
    case Read(c) => w.(seen := w.seen[c := (if c in w.seen then w.seen[c] else []) + [now]])
    case Check(edit, c, quotes) =>
      var bases := BasesOf(w, c, quotes);
      var header := if quotes == [] then None else Some(Header(OffersOf(hash, w.states, bases, quotes)));
      w.(edits := w.edits[edit := Edit(bases, now, RequireIfMatch(header, EtagOf(hash, w.states[now])), None)])
    case Write(edit, state) =>
      w.(states := w.states + [state], edits := w.edits[edit := w.edits[edit].(replaced := Some(now))])
  }

  ghost predicate Runs(hash: Text -> Text, w: World, events: seq<Event>)
    decreases |events|
  {
    Consistent(w) && (events == [] || (Possible(w, events[0]) && Runs(hash, Step(hash, w, events[0]), events[1..])))
  }

  ghost function Run(hash: Text -> Text, w: World, events: seq<Event>): World
    requires Runs(hash, w, events)
    decreases |events|
  {
    if events == [] then w else Run(hash, Step(hash, w, events[0]), events[1..])
  }

  // ----- every check says the right thing

  /** An edit on these states may replace state `i`: it did not ask, or one of them is that state. */
  ghost predicate Agrees(states: seq<Value>, bases: seq<Option<nat>>, i: nat)
    requires i < |states|
  {
    bases == [] || None in bases || exists b | Some(b) in bases :: b < |states| && Same(states[b], states[i])
  }

  /** Its check said whether it may replace the state that was met; if it was written, it was later, and accepted. */
  ghost predicate Justified(states: seq<Value>, e: Edit) {
    && e.met < |states|
    && (forall b | Some(b) in e.bases :: b <= e.met)
    && (e.accepted <==> Agrees(states, e.bases, e.met))
    && (e.replaced.Some? ==> e.accepted && e.met <= e.replaced.value < |states| - 1)
  }

  ghost predicate AllJustified(w: World) {
    && (forall e | e in w.edits :: Justified(w.states, w.edits[e]))
    && (forall e, f | e in w.edits && f in w.edits && e != f && w.edits[e].replaced.Some? ::
         w.edits[f].replaced != w.edits[e].replaced)
  }

  lemma TagIsTag(hash: Text -> Text, v: Value)
    requires IsDigest(hash)
    ensures IsTag(EtagOf(hash, v))
  {
    assert forall u | u in hash(StableJson(v)) :: IsHex(u);
  }

  lemma OffersWellWritten(hash: Text -> Text, states: seq<Value>, bases: seq<Option<nat>>, quotes: seq<Quoting>)
    requires IsDigest(hash) && |bases| == |quotes| && forall b | b in bases :: b.Some? ==> b.value < |states|
    requires forall q | q in quotes :: Blank(q.before) && Blank(q.after)
    ensures forall o | o in OffersOf(hash, states, bases, quotes) :: WellWritten(o)
  {
    var offers := OffersOf(hash, states, bases, quotes);
    forall i | 0 <= i < |quotes| ensures WellWritten(offers[i]) {
      assert quotes[i] in quotes && bases[i] in bases;
      if bases[i].Some? {
        TagIsTag(hash, states[bases[i].value]);
      }
    }
  }

  lemma BaseMeets(hash: Text -> Text, states: seq<Value>, base: Option<nat>, now: nat, o: Offer)
    requires IsDigest(hash) && NoCollision(hash, states) && forall s | s in states :: Proper(s)
    requires (base.Some? ==> base.value < |states|) && now < |states| && o.tag == TagOf(hash, states, base)
    ensures Meets(o, EtagOf(hash, states[now])) <==> base.None? || Same(states[base.value], states[now])
  {
    if base.Some? {
      TagsAgree(hash, states, states[base.value], states[now]);
      TagIsTag(hash, states[base.value]);
    }
  }

  /** One of the offers meets the current tag if and only if one of the quoted states is the current one. */
  lemma OffersMeet(offers: seq<Offer>, current: Text, states: seq<Value>, bases: seq<Option<nat>>, now: nat)
    requires bases != [] && |offers| == |bases| && now < |states|
    requires forall b | b in bases :: b.Some? ==> b.value < |states|
    requires forall i | 0 <= i < |bases| ::
      bases[i] in bases && (Meets(offers[i], current) <==> bases[i].None? || Same(states[bases[i].value], states[now]))
    ensures (exists o | o in offers :: Meets(o, current)) <==> Agrees(states, bases, now)
  {
    hide Same, Meets;
    assert forall i | 0 <= i < |bases| :: offers[i] in offers;
    if b :| Some(b) in bases && b < |states| && Same(states[b], states[now]) {
      var i :| 0 <= i < |bases| && bases[i] == Some(b);
    }
    if None in bases {
      var i :| 0 <= i < |bases| && bases[i] == None;
    }
    if o :| o in offers && Meets(o, current) {
      var i :| 0 <= i < |offers| && offers[i] == o;
      assert bases[i].Some? ==> bases[i] == Some(bases[i].value);
    }
  }

  /** The header of an edit is accepted if and only if one of the quoted states is the current one. */
  lemma CheckDecides(hash: Text -> Text, states: seq<Value>, bases: seq<Option<nat>>, quotes: seq<Quoting>, now: nat)
    requires IsDigest(hash) && NoCollision(hash, states) && forall s | s in states :: Proper(s)
    requires |bases| == |quotes| && quotes != [] && forall b | b in bases :: b.Some? ==> b.value < |states|
    requires forall q | q in quotes :: Blank(q.before) && Blank(q.after)
    requires now < |states|
    ensures RequireIfMatch(Some(Header(OffersOf(hash, states, bases, quotes))), EtagOf(hash, states[now])) <==>
      Agrees(states, bases, now)
  {
    var offers, current := OffersOf(hash, states, bases, quotes), EtagOf(hash, states[now]);
    assert forall i | 0 <= i < |bases| :: bases[i] in bases && offers[i].tag == TagOf(hash, states, bases[i]);
    OffersWellWritten(hash, states, bases, quotes);
    TagIsTag(hash, states[now]);
    hide IsDigest, Same, RequireIfMatch, Header, EtagOf, IsTag, NoCollision, OffersOf, WellWritten, Meets, TagOf,
      Agrees;
    HeaderMatches(offers, current);
    forall i | 0 <= i < |bases|
      ensures Meets(offers[i], current) <==> bases[i].None? || Same(states[bases[i].value], states[now])
    {
      BaseMeets(hash, states, bases[i], now, offers[i]);
    }
    OffersMeet(offers, current, states, bases, now);
  }

  lemma StillJustified(states: seq<Value>, more: seq<Value>, e: Edit)
    requires states <= more && Justified(states, e)
    ensures Justified(more, e)
  {
    hide Same;
    assert forall b | Some(b) in e.bases :: b < |states|;
    assert forall b | 0 <= b < |states| :: more[b] == states[b];
  }

  lemma CheckJustified(hash: Text -> Text, w: World, edit: nat, c: nat, quotes: seq<Quoting>)
    requires IsDigest(hash) && Consistent(w) && NoCollision(hash, w.states)
    requires Possible(w, Check(edit, c, quotes))
    ensures Justified(w.states, Step(hash, w, Check(edit, c, quotes)).edits[edit])
  {
    var bases := BasesOf(w, c, quotes);
    if quotes != [] {
      CheckDecides(hash, w.states, bases, quotes, |w.states| - 1);
    }
    hide Same, RequireIfMatch, Header, OffersOf, EtagOf, BasesOf, IsDigest, NoCollision, Proper;
    assert forall b | Some(b) in bases :: Some(b).value < |w.states|;
  }

  /** Whatever is possible next, the world stays consistent, and every check and write so far is justified. */
  lemma StepJustified(hash: Text -> Text, w: World, e: Event)
    requires IsDigest(hash) && Consistent(w) && Possible(w, e) && NoCollision(hash, w.states) && AllJustified(w)
    ensures Consistent(Step(hash, w, e)) && w.states <= Step(hash, w, e).states && AllJustified(Step(hash, w, e))
  {
    var next := Step(hash, w, e);
    if e.Check? {
      CheckJustified(hash, w, e.edit, e.client, e.quotes);
    }
    hide Same, Proper, IsDigest, NoCollision, Agrees, RequireIfMatch, Header, OffersOf, EtagOf, BasesOf;
    if e.Write? {
      forall f | f in next.edits ensures Justified(next.states, next.edits[f]) {
        StillJustified(w.states, next.states, w.edits[f]);
      }
    }
  }

  lemma {:induction false} StatesGrow(hash: Text -> Text, w: World, events: seq<Event>)
    requires Runs(hash, w, events)
    ensures w.states <= Run(hash, w, events).states && Consistent(Run(hash, w, events))
    decreases |events|
  {
    if events != [] {
      StatesGrow(hash, Step(hash, w, events[0]), events[1..]);
    }
  }

  lemma {:induction false} StaysJustified(hash: Text -> Text, w: World, events: seq<Event>)
    requires IsDigest(hash) && Runs(hash, w, events) && AllJustified(w)
    requires NoCollision(hash, Run(hash, w, events).states)
    ensures AllJustified(Run(hash, w, events))
    decreases |events|
  {
    if events != [] {
      var last := Run(hash, w, events);
      StatesGrow(hash, w, events);
      assert NoCollision(hash, w.states) by {
        assert forall s | s in w.states :: s in last.states;
      }
      StepJustified(hash, w, events[0]);
      StaysJustified(hash, Step(hash, w, events[0]), events[1..]);
    }
  }

  // ----- when an update is lost

  lemma SameAsSame(a: Value, b: Value, c: Value)
    requires Proper(a) && Proper(b) && Proper(c) && Same(a, b)
    ensures Same(a, c) <==> Same(b, c)
  {
    Canonical(a, b);
    Canonical(a, c);
    Canonical(b, c);
  }

  /** All that is quoted is one state, up to key order. */
  ghost predicate QuotesOne(states: seq<Value>, bases: seq<Option<nat>>) {
    && bases != []
    && (forall b | b in bases :: b.Some? && b.value < |states|)
    && forall b, c | b in bases && c in bases :: Same(states[b.value], states[c.value])
  }

  /**
   * An edit that was checked against one state and replaced another may replace it if the two are
   * the same, and, where it quotes a single state, only if they are.
   */
  lemma WriteJustified(states: seq<Value>, e: Edit)
    requires (forall s | s in states :: Proper(s)) && Justified(states, e) && e.replaced.Some?
    ensures Same(states[e.met], states[e.replaced.value]) ==> Agrees(states, e.bases, e.replaced.value)
    ensures QuotesOne(states, e.bases) ==>
      (Agrees(states, e.bases, e.replaced.value) <==> Same(states[e.met], states[e.replaced.value]))
  {
    var met, replaced := states[e.met], states[e.replaced.value];
    hide Same, Proper;
    forall b | Some(b) in e.bases && Same(states[b], met) ensures Same(states[b], replaced) <==> Same(met, replaced) {
      SameAsSame(states[b], met, replaced);
    }
    if QuotesOne(states, e.bases) {
      var b :| Some(b) in e.bases && Same(states[b], met);
      forall c | Some(c) in e.bases && Same(states[c], replaced) ensures Same(states[b], replaced) {
        assert Same(states[Some(c).value], states[Some(b).value]);
        SameAsSame(states[c], states[b], replaced);
      }
    }
  }

  /**
   * In every run of any number of clients: an edit passes its check if and only if one of the states
   * it quotes is, up to key order, the one that was met. When it is written, no update is lost if the
   * state it replaces is still that one; and if it quotes a single state, none is lost only then. No
   * two edits replace the same state.
   */
  lemma NoLostUpdate(hash: Text -> Text, w: World, events: seq<Event>)
    requires IsDigest(hash) && Runs(hash, w, events) && w.edits == map[]
    requires NoCollision(hash, Run(hash, w, events).states)
    ensures var end := Run(hash, w, events);
      && AllJustified(end)
      && forall e | e in end.edits && end.edits[e].replaced.Some? ::
           var edit := end.edits[e];
           && (Same(end.states[edit.met], end.states[edit.replaced.value]) ==>
                 Agrees(end.states, edit.bases, edit.replaced.value))
           && (QuotesOne(end.states, edit.bases) ==>
                 (Agrees(end.states, edit.bases, edit.replaced.value) <==>
                    Same(end.states[edit.met], end.states[edit.replaced.value])))
  {
    StaysJustified(hash, w, events);
    StatesGrow(hash, w, events);
    var end := Run(hash, w, events);
    hide Same, Agrees, QuotesOne, Runs, Run, Proper;
    forall e | e in end.edits && end.edits[e].replaced.Some? {
      WriteJustified(end.states, end.edits[e]);
    }
  }

  /** No edit is written between the check and the write of another. */
  ghost predicate WritesAtOnce(events: seq<Event>) {
    forall i, k | 0 <= i < k < |events| && events[i].Check? && events[k].Write? && events[k].edit == events[i].edit ::
      forall j | i < j < k :: !events[j].Write?
  }

  /** What may still be written was checked against the current state, and is the next to be written. */
  ghost predicate UpToDate(w: World, events: seq<Event>) {
    forall e | e in w.edits ::
      && (w.edits[e].replaced.Some? ==> w.edits[e].replaced.value == w.edits[e].met)
      && (w.edits[e].replaced.None? ==>
            forall k | 0 <= k < |events| && events[k].Write? && events[k].edit == e ::
              w.edits[e].met == |w.states| - 1 && forall j | 0 <= j < k :: !events[j].Write?)
  }

  lemma StepUpToDate(hash: Text -> Text, w: World, events: seq<Event>)
    requires events != [] && Consistent(w) && Possible(w, events[0]) && WritesAtOnce(events) && UpToDate(w, events)
    ensures UpToDate(Step(hash, w, events[0]), events[1..]) && WritesAtOnce(events[1..])
  {
    hide Same, RequireIfMatch, Header, OffersOf, EtagOf, BasesOf, Proper;
    var rest := events[1..];
    assert forall k | 0 <= k < |rest| :: rest[k] == events[k + 1];
  }

  lemma {:induction false} StaysUpToDate(hash: Text -> Text, w: World, events: seq<Event>)
    requires Runs(hash, w, events) && WritesAtOnce(events) && UpToDate(w, events)
    ensures UpToDate(Run(hash, w, events), [])
    decreases |events|
  {
    if events != [] {
      StepUpToDate(hash, w, events);
      StaysUpToDate(hash, Step(hash, w, events[0]), events[1..]);
    }
  }

  /** Where check and write are as one, every edit replaces the state it was checked against: no update is lost. */
  lemma NoneLostAtOnce(hash: Text -> Text, w: World, events: seq<Event>)
    requires IsDigest(hash) && Runs(hash, w, events) && w.edits == map[] && WritesAtOnce(events)
    requires NoCollision(hash, Run(hash, w, events).states)
    ensures var end := Run(hash, w, events);
      forall e | e in end.edits && end.edits[e].replaced.Some? ::
        var edit := end.edits[e];
        edit.replaced.value == edit.met < |end.states| && Agrees(end.states, edit.bases, edit.replaced.value)
  {
    StaysUpToDate(hash, w, events);
    StaysJustified(hash, w, events);
  }

  // ----- two clients

  /** A client quotes the first state it was sent, as it was sent. */
  const PLAIN := Quoting(Some(0), [], false, [])

  /** Two edits are checked, and then both are written. */
  function ChecksThenWrites(first: Value, second: Value): seq<Event> {
    [Check(1, 1, [PLAIN]), Check(2, 2, [PLAIN]), Write(1, first), Write(2, second)]
  }

  /** Two clients read, both are checked, and then both are written. */
  function TwoEdits(first: Value, second: Value): seq<Event> {
    [Read(1)] + ([Read(2)] + ChecksThenWrites(first, second))
  }

  /** The second edit, based on the first state and checked against it, replaced the one after it. */
  predicate SecondReplacedFirst(edits: map<nat, Edit>) {
    2 in edits && edits[2] == Edit([Some(0)], 0, true, Some(1))
  }

  lemma CurrentPasses(hash: Text -> Text, w: World, edit: nat, c: nat)
    requires IsDigest(hash) && Consistent(w) && Possible(w, Check(edit, c, [PLAIN])) && |w.states| == 1
    ensures Step(hash, w, Check(edit, c, [PLAIN])) == w.(edits := w.edits[edit := Edit([Some(0)], 0, true, None)])
  {
    assert w.seen[c][0] in w.seen[c];
    var bases := BasesOf(w, c, [PLAIN]);
    assert bases == [Some(0)];
    var offers := OffersOf(hash, w.states, bases, [PLAIN]);
    OffersWellWritten(hash, w.states, bases, [PLAIN]);
    TagIsTag(hash, w.states[0]);
    HeaderMatches(offers, EtagOf(hash, w.states[0]));
    assert offers[0] in offers && Meets(offers[0], EtagOf(hash, w.states[0]));
  }

  lemma OneMore(hash: Text -> Text, w: World, e: Event, rest: seq<Event>)
    requires Consistent(w) && Possible(w, e) && Runs(hash, Step(hash, w, e), rest)
    ensures Runs(hash, w, [e] + rest) && Run(hash, w, [e] + rest) == Run(hash, Step(hash, w, e), rest)
  {
    assert ([e] + rest)[1..] == rest;
  }

  lemma WritesBoth(hash: Text -> Text, w: World, first: Value, second: Value)
    requires Consistent(w) && Proper(first) && Proper(second) && |w.states| == 1
    requires w.edits == map[1 := Edit([Some(0)], 0, true, None), 2 := Edit([Some(0)], 0, true, None)]
    ensures var events := [Write(1, first), Write(2, second)];
      && Runs(hash, w, events) && Run(hash, w, events).states == w.states + [first, second]
      && SecondReplacedFirst(Run(hash, w, events).edits)
  {
    hide Proper;
    var v := Step(hash, w, Write(1, first));
    var u := Step(hash, v, Write(2, second));
    assert Runs(hash, u, []);
    OneMore(hash, v, Write(2, second), []);
    OneMore(hash, w, Write(1, first), [Write(2, second)]);
    assert [Write(1, first)] + [Write(2, second)] == [Write(1, first), Write(2, second)];
    assert [Write(2, second)] + [] == [Write(2, second)];
  }

  lemma SecondChecked(hash: Text -> Text, w: World, first: Value, second: Value)
    requires IsDigest(hash) && Consistent(w) && Proper(first) && Proper(second) && |w.states| == 1
    requires w.edits == map[1 := Edit([Some(0)], 0, true, None)] && 2 in w.seen && w.seen[2] != []
    ensures var events := [Check(2, 2, [PLAIN])] + [Write(1, first), Write(2, second)];
      && Runs(hash, w, events) && Run(hash, w, events).states == w.states + [first, second]
      && SecondReplacedFirst(Run(hash, w, events).edits)
  {
    assert w.seen[2][0] in w.seen[2];
    hide Proper, Runs, Run, Step, SecondReplacedFirst;
    CurrentPasses(hash, w, 2, 2);
    var u := w.(edits := map[1 := Edit([Some(0)], 0, true, None), 2 := Edit([Some(0)], 0, true, None)]);
    WritesBoth(hash, u, first, second);
    OneMore(hash, w, Check(2, 2, [PLAIN]), [Write(1, first), Write(2, second)]);
  }

  lemma ChecksBoth(hash: Text -> Text, w: World, first: Value, second: Value)
    requires IsDigest(hash) && Consistent(w) && Proper(first) && Proper(second) && |w.states| == 1
    requires w.edits == map[] && w.seen == map[1 := [0], 2 := [0]]
    ensures var events := ChecksThenWrites(first, second);
      && Runs(hash, w, events) && Run(hash, w, events).states == w.states + [first, second]
      && SecondReplacedFirst(Run(hash, w, events).edits)
  {
    hide Proper, Runs, Run, Step, SecondReplacedFirst;
    CurrentPasses(hash, w, 1, 1);
    var v := w.(edits := map[1 := Edit([Some(0)], 0, true, None)]);
    SecondChecked(hash, v, first, second);
    var rest := [Check(2, 2, [PLAIN])] + [Write(1, first), Write(2, second)];
    OneMore(hash, w, Check(1, 1, [PLAIN]), rest);
    assert [Check(1, 1, [PLAIN])] + rest == ChecksThenWrites(first, second);
  }

  lemma FirstRead(hash: Text -> Text, w: World, c: nat)
    requires Consistent(w) && |w.states| == 1 && c !in w.seen
    ensures var v := w.(seen := w.seen[c := [0]]); Step(hash, w, Read(c)) == v && Consistent(v)
  {
    hide Proper;
    assert [] + [0] == [0];
  }

  lemma ReadsBoth(hash: Text -> Text, w: World, edits: seq<Event>)
    requires Consistent(w) && |w.states| == 1 && w.seen == map[]
    requires Runs(hash, w.(seen := map[1 := [0], 2 := [0]]), edits)
    ensures var events := [Read(1)] + ([Read(2)] + edits);
      Runs(hash, w, events) && Run(hash, w, events) == Run(hash, w.(seen := map[1 := [0], 2 := [0]]), edits)
  {
    hide Runs, Run, Step, Consistent;
    FirstRead(hash, w, 1);
    var v := w.(seen := w.seen[1 := [0]]);
    FirstRead(hash, v, 2);
    assert v.seen[2 := [0]] == map[1 := [0], 2 := [0]];
    OneMore(hash, v, Read(2), edits);
    OneMore(hash, w, Read(1), [Read(2)] + edits);
  }

  lemma BaseAgrees(states: seq<Value>, i: nat)
    requires i < |states|
    ensures Agrees(states, [Some(0)], i) <==> Same(states[0], states[i])
  {
    hide Same;
    assert Some(0) in [Some(0)];
  }

  /**
   * Both edits pass their check and both are written, whatever the states; and the second replaces
   * what the first wrote, which its client never saw, unless that changed nothing.
   */
  lemma UpdateLost(hash: Text -> Text, before: Value, first: Value, second: Value)
    requires IsDigest(hash) && Proper(before) && Proper(first) && Proper(second)
    ensures var w := World([before], map[], map[]);
      && Runs(hash, w, TwoEdits(first, second))
      && var end := Run(hash, w, TwoEdits(first, second));
         && end.states == [before, first, second] && SecondReplacedFirst(end.edits)
         && (Agrees(end.states, [Some(0)], 1) <==> Same(before, first))
  {
    var w := World([before], map[], map[]);
    assert Consistent(w) && Consistent(w.(seen := map[1 := [0], 2 := [0]]));
    hide Proper, Same, Runs, Run, Step, IsDigest, Consistent, Agrees, ChecksThenWrites, SecondReplacedFirst;
    ChecksBoth(hash, w.(seen := map[1 := [0], 2 := [0]]), first, second);
    ReadsBoth(hash, w, ChecksThenWrites(first, second));
    BaseAgrees([before, first, second], 1);
  }
}
