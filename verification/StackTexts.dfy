/** Stacks as V8 writes them, and what is logged of them. */
module StackTexts {
  import opened Wrappers
  import opened Texts
  import opened FrameLocations
  import opened ErrorStacks

  // ----- one frame

  const SPACE: Unit := U(' ')
  const OPEN: Text := [U(' '), U('(')]
  const CLOSE: Text := [U(')')]

  predicate HasWrap(t: Text) {
    exists i :: 0 <= i < |t| - 1 && t[i] == U(' ') && t[i + 1] == U('(')
  }

  /** How V8 writes a frame of a function with a name. */
  function Wrapped(name: Text, x: Text): Text {
    name + OPEN + x + CLOSE
  }

  /** The last parenthesis is the one that `x` stands in. */
  lemma UnwrapWrapped(name: Text, x: Text)
    requires !HasWrap(x)
    ensures Unwrap(Wrapped(name, x)) == x
  {
    var t := Wrapped(name, x);
    assert t[|name|] == U(' ') && t[|name| + 1] == U('(') && t[|t| - 1] == U(')');
    forall i | |name| < i < |t| - 1 ensures !(t[i] == U(' ') && t[i + 1] == U('(')) {
      if i >= |name| + 2 {
        assert t[i] == x[i - |name| - 2];
        assert i + 1 < |t| - 1 ==> t[i + 1] == x[i + 1 - |name| - 2];
      }
    }
    var w := FindWrap(t);
    hide FindWrap;
    assert w == |name|;
    assert t[|name| + 2..|t| - 1] == x;
  }

  lemma UnwrapPlainText(x: Text)
    requires !HasWrap(x)
    ensures Unwrap(x) == x
  {
  }

  lemma NoWrapInside(x: Text)
    requires !HasWrap(x)
    ensures !HasWrap([U('(')] + x + CLOSE)
  {
    var t := [U('(')] + x + CLOSE;
    forall i | 0 <= i < |t| - 1 ensures !(t[i] == U(' ') && t[i + 1] == U('(')) {
      if 1 <= i <= |x| {
        assert t[i] == x[i - 1];
        assert i < |x| ==> t[i + 1] == x[i];
      }
    }
  }

  lemma Drop(p: Text, rest: Text)
    ensures StartsWith(p + rest, p) && (p + rest)[|p|..] == rest
  {
  }

  lemma PartOf(rest: Text)
    ensures LocationPart(AT + (ASYNC + rest)) == Some(Unwrap(rest))
    ensures !StartsWith(rest, ASYNC) ==> LocationPart(AT + rest) == Some(Unwrap(rest))
    ensures StartsWith(rest, ASYNC) ==> LocationPart(AT + rest) == Some(Unwrap(rest[|ASYNC|..]))
  {
    hide StartsWith, Unwrap, AT, ASYNC;
    Drop(AT, ASYNC + rest);
    Drop(ASYNC, rest);
    Drop(AT, rest);
  }

  const ASYNC_NAME: Text := Ascii("async")

  lemma BeginsAsync(name: Text, x: Text)
    ensures StartsWith(Wrapped(name, x), ASYNC) <==> StartsWith(name, ASYNC) || name == ASYNC_NAME
  {
    var t := Wrapped(name, x);
    assert ASYNC == ASYNC_NAME + [U(' ')] && |ASYNC_NAME| == 5 && U(' ') !in ASYNC_NAME;
    hide ASYNC, ASYNC_NAME;
    if |name| >= 6 {
      assert t[..6] == name[..6];
    } else if |name| == 5 {
      assert t[..6] == name + [U(' ')];
      assert t[..6][..5] == name && ASYNC[..5] == ASYNC_NAME;
    } else {
      assert t[|name|] == U(' ') && ASYNC[|name|] == ASYNC_NAME[|name|];
    }
  }

  /**
   * A frame with a function name gives what stands in its last parenthesis, whatever the name is and
   * with `async ` before it or not; only a function that is itself called `async` is taken for the
   * keyword.
   */
  lemma NamedFrame(name: Text, x: Text)
    requires !HasWrap(x)
    ensures LocationPart(AT + (ASYNC + Wrapped(name, x))) == Some(x)
    ensures LocationPart(AT + Wrapped(name, x)) ==
      Some(if name == ASYNC_NAME then [U('(')] + x + CLOSE else x)
  {
    hide AT, HasWrap, LocationPart, Unwrap;
    UnwrapWrapped(name, x);
    PartOf(Wrapped(name, x));
    BeginsAsync(name, x);
    if name == ASYNC_NAME {
      var inner := [U('(')] + x + CLOSE;
      assert Wrapped(name, x) == ASYNC + inner;
      Drop(ASYNC, inner);
      NoWrapInside(x);
      UnwrapPlainText(inner);
    } else if StartsWith(name, ASYNC) {
      hide ASYNC;
      var inner := name[|ASYNC|..];
      assert Wrapped(name, x)[|ASYNC|..] == Wrapped(inner, x);
      UnwrapWrapped(inner, x);
    }
  }

  lemma CleanHasNoWrap(location: Text)
    requires CleanLocation(location)
    ensures !HasWrap(location)
  {
    CleanIsLocated(location);
    hide CleanLocation, Locate;
    assert forall i | 0 <= i < |location| :: location[i] in location;
  }

  /** What ends with a parenthesis is no location. */
  lemma ParenthesisIsNone(x: Text)
    ensures Locate(x + CLOSE) == None
  {
    var t := x + CLOSE;
    assert t[|t| - 1] == U(')');
    assert NATIVE[|NATIVE| - 1] == U('e') && ANONYMOUS[|ANONYMOUS| - 1] == U('>');
    NoNumberAtEnd(t);
  }

  lemma NoNumberAtEnd(t: Text)
    requires t != [] && !IsDigit(t[|t| - 1])
    ensures ParsePosition(t) == None
  {
    hide ParsePosition, IsDigit, Print;
    if ParsePosition(t).Some? {
      EndsInDigit(ParsePosition(t).value);
    }
  }

  lemma EndsInDigit(p: Position)
    requires IsNumber(p.col)
    ensures Print(p) != [] && IsDigit(Print(p)[|Print(p)| - 1])
  {
    assert Print(p)[|Print(p)| - 1] == p.col[|p.col| - 1] && p.col[|p.col| - 1] in p.col;
  }

  /**
   * Every frame of a clean location is logged by that location, with a function name or without one
   * and with `async ` or without; but the frame of a function called `async` is not logged at all.
   */
  lemma FrameIsLogged(name: Text, location: Text)
    requires CleanLocation(location)
    ensures FrameLocation(AT + location) == Some(location)
    ensures FrameLocation(AT + (ASYNC + location)) == Some(location)
    ensures FrameLocation(AT + (ASYNC + Wrapped(name, location))) == Some(location)
    ensures FrameLocation(AT + Wrapped(name, location)) == if name == ASYNC_NAME then None else Some(location)
  {
    hide CleanLocation, LocationPart, Locate, HasWrap, Wrapped, AT, ASYNC, ASYNC_NAME;
    CleanHasNoWrap(location);
    CleanIsLocated(location);
    LoggedLocations(location);
    NamedFrame(name, location);
    PartOf(location);
    UnwrapPlainText(location);
    ParenthesisIsNone([U('(')] + location);
  }

  /** A line that does not begin with `at` is no frame. */
  lemma OtherLines(line: Text)
    requires !StartsWith(line, Ascii("    at "))
    ensures FrameLocation(line) == None
  {
  }

  // ----- a whole stack

  /** `Error.prototype.toString`, as it stands in front of the frames. */
  lemma LinesBehind(ls: seq<Text>)
    requires ls != [] && forall l | l in ls :: U('\n') !in l
    ensures Lines([U('\n')] + JoinLines(ls)) == [[]] + ls
  {
    assert ([[]] + ls)[1..] == ls;
    LinesJoined([[]] + ls);
  }

  lemma BlockTaken(name: Text, message: Text, t: Text)
    requires name != [] || message != []
    ensures Trace(MessageBlock(Some(name), Some(message)) + t, Some(name), Some(message)) == t
  {
    var block := MessageBlock(Some(name), Some(message));
    assert (block + t)[..|block|] == block && (block + t)[|block|..] == t;
  }

  lemma {:induction false} WithoutAppend(a: seq<Text>, b: seq<Text>, hidden: seq<Text>)
    ensures Without(a + b, hidden) == Without(a, hidden) + Without(b, hidden)
  {
    if a == [] {
      assert a + b == b;
    } else {
      assert (a + b)[1..] == a[1..] + b;
      WithoutAppend(a[1..], b, hidden);
    }
  }

  /** Line by line: a line of the message gives nothing, another one what it is a frame of. */
  function Logged(lines: seq<Text>, message: Text): seq<Text> {
    if lines == [] then []
    else
      Logged(lines[..|lines| - 1], message) +
      (if message != [] && lines[|lines| - 1] in Lines(message) then [] else Frame(lines[|lines| - 1]))
  }

  lemma {:induction false} LoggedIs(lines: seq<Text>, message: Text)
    ensures Framed(Without(lines, HiddenLines(Some(message)))) == Logged(lines, message)
  {
    hide Frame, Lines;
    if lines != [] {
      var n := |lines| - 1;
      var last := lines[n];
      var hidden := HiddenLines(Some(message));
      LoggedIs(lines[..n], message);
      assert lines == lines[..n] + [last];
      WithoutAppend(lines[..n], [last], hidden);
      FramedAppend(Without(lines[..n], hidden), Without([last], hidden));
      assert Without([last], hidden) == if last in hidden then [] else [last];
      assert Framed([last]) == Frame(last) && Framed([]) == [];
    }
  }

  /**
   * Of a stack that begins with its error's name and message, every line behind them is logged as the
   * frame it is, unless the message has that very line; in order, and nothing else.
   */
  lemma FramesBehindMessage(name: Text, message: Text, ls: seq<Text>)
    requires (name != [] || message != []) && ls != [] && forall l | l in ls :: U('\n') !in l
    ensures Frames(MessageBlock(Some(name), Some(message)) + ([U('\n')] + JoinLines(ls)), Some(name), Some(message))
      == Logged(ls, message)
  {
    BlockTaken(name, message, [U('\n')] + JoinLines(ls));
    LinesBehind(ls);
    LoggedIs([[]] + ls, message);
    hide Trace, Lines, Without, Framed;
    FirstIsNoFrame(ls, message);
  }

  lemma {:induction false} FirstIsNoFrame(ls: seq<Text>, message: Text)
    ensures Logged([[]] + ls, message) == Logged(ls, message)
  {
    var all := [[]] + ls;
    hide Lines;
    if ls == [] {
      OtherLines([]);
      assert all[..0] == [];
    } else {
      assert all[..|all| - 1] == [[]] + ls[..|ls| - 1] && all[|all| - 1] == ls[|ls| - 1];
      FirstIsNoFrame(ls[..|ls| - 1], message);
    }
  }

  /** The block: what is empty is left out, with its colon. */
  lemma Blocks(name: Text, message: Text)
    ensures MessageBlock(Some([]), Some(message)) == message
    ensures MessageBlock(Some(name), Some([])) == name
    ensures name != [] && message != [] ==>
      MessageBlock(Some(name), Some(message)) == name + [U(':'), U(' ')] + message
    ensures MessageBlock(None, Some(message)) == MessageBlock(Some(name), None) == []
  {
    assert Ascii(": ") == [U(':'), U(' ')];
  }

  // ----- the causes

  /** Where the walk has to stop: at what is no object, at what it has been to, or with nine objects seen. */
  predicate EndsAt(heap: Heap, cause: Option<nat>, seen: set<nat>) {
    cause == None || cause.value !in heap || cause.value in seen || |seen| >= 9
  }

  /** The causes visited are those along the chain, up to there. */
  lemma {:induction false} ChainVisited(heap: Heap, cause: Option<nat>, seen: set<nat>, ids: seq<nat>)
    requires |seen| + |ids| <= 9 && Follows(heap, cause, ids) && Distinct(ids)
    requires forall id | id in ids :: id in heap && id !in seen
    requires EndsAt(heap, CauseAt(heap, cause, |ids|), seen + Ids(ids))
    ensures Visited(heap, cause, seen) == ids
    decreases |ids|
  {
    hide Visited, EndsAt, CauseAt, Follows, Distinct, Ids;
    if ids == [] {
      NoneVisited(heap, cause, seen);
    } else {
      var id, rest := ids[0], ids[1..];
      ChainGoesOn(heap, cause, ids);
      IdsOn(seen, ids);
      VisitedNext(heap, id, seen);
      ChainVisited(heap, heap[id].cause, seen + {id}, rest);
    }
  }

  lemma NoneVisited(heap: Heap, cause: Option<nat>, seen: set<nat>)
    requires |seen| <= 9 && EndsAt(heap, CauseAt(heap, cause, 0), seen + Ids([]))
    ensures Visited(heap, cause, seen) == []
  {
    assert Ids([]) == {} && seen + {} == seen;
  }

  lemma IdsOn(seen: set<nat>, ids: seq<nat>)
    requires ids != [] && Distinct(ids) && forall id | id in ids :: id !in seen
    ensures seen + {ids[0]} + Ids(ids[1..]) == seen + Ids(ids) && |seen + {ids[0]}| == |seen| + 1
    ensures Distinct(ids[1..]) && forall x | x in ids[1..] :: x in ids && x !in seen + {ids[0]}
  {
    assert ids[0] in ids;
    assert forall x :: x in ids <==> x == ids[0] || x in ids[1..];
  }

  lemma VisitedNext(heap: Heap, id: nat, seen: set<nat>)
    requires id in heap && id !in seen && |seen| < 9
    ensures Visited(heap, Some(id), seen) == [id] + Visited(heap, heap[id].cause, seen + {id})
  {
  }

  lemma ChainGoesOn(heap: Heap, cause: Option<nat>, ids: seq<nat>)
    requires ids != [] && Follows(heap, cause, ids) && ids[0] in heap
    ensures cause == Some(ids[0]) && Follows(heap, heap[ids[0]].cause, ids[1..])
    ensures CauseAt(heap, cause, |ids|) == CauseAt(heap, heap[ids[0]].cause, |ids| - 1)
  {
    var id, rest := ids[0], ids[1..];
    assert CauseAt(heap, cause, 0) == Some(id);
    forall i | 0 <= i < |rest| ensures CauseAt(heap, heap[id].cause, i) == Some(rest[i]) {
      assert CauseAt(heap, cause, i + 1) == Some(ids[i + 1]);
    }
  }

  /** The log shows an error's own frames and then those of its causes, one after the other. */
  lemma {:induction false} CausesInOrder(heap: Heap, ids: seq<nat>, last: nat)
    requires last in heap && forall id | id in ids :: id in heap
    ensures FramesOf(heap, []) == []
    ensures FramesOf(heap, ids + [last]) == FramesOf(heap, ids) +
      match heap[last].stack
      case None => []
      case Some(stack) => Frames(stack, heap[last].name, heap[last].message)
  {
    hide Frames;
    if ids == [] {
      assert [] + [last] == [last] && [last][1..] == [];
    } else {
      assert (ids + [last])[1..] == ids[1..] + [last];
      CausesInOrder(heap, ids[1..], last);
    }
  }
}
