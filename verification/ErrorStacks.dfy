/** `stackFrames`: what is logged of an internal error's stack and of those of its causes. */
module ErrorStacks {
  import opened Wrappers
  import opened Texts
  import opened FrameLocations

  // ----- a whole stack

  /** `split` at line ends. */
  function Lines(t: Text): (r: seq<Text>)
    ensures r != [] && forall l | l in r :: U('\n') !in l
  {
    var n := IndexOf(t, U('\n'));
    if n == |t| then [t]
    else
      assert forall i | 0 <= i < n :: t[..n][i] == t[i];
      [t[..n]] + Lines(t[n + 1..])
  }

  /** `join` with line ends. */
  function JoinLines(ls: seq<Text>): Text {
    if ls == [] then [] else if |ls| == 1 then ls[0] else ls[0] + [U('\n')] + JoinLines(ls[1..])
  }

  /** `stackMessageBlock`; `None` is anything that is not a string. */
  function MessageBlock(name: Option<Text>, message: Option<Text>): Text {
    if name.None? || message.None? then []
    else if name.value == [] then message.value
    else if message.value == [] then name.value
    else name.value + Ascii(": ") + message.value
  }

  /** The stack behind its leading message. */
  function Trace(stack: Text, name: Option<Text>, message: Option<Text>): Text {
    var block := MessageBlock(name, message);
    if block != [] && StartsWith(stack, block) then stack[|block|..] else stack
  }

  /** The lines that are left out because the message has them. */
  function HiddenLines(message: Option<Text>): seq<Text> {
    if message.Some? && message.value != [] then Lines(message.value) else []
  }

  function Without(lines: seq<Text>, hidden: seq<Text>): (r: seq<Text>)
    ensures forall l :: l in r <==> l in lines && l !in hidden
  {
    if lines == [] then []
    else (if lines[0] in hidden then [] else [lines[0]]) + Without(lines[1..], hidden)
  }

  /** The line that is logged for a line, if one is. */
  function Frame(line: Text): seq<Text> {
    match FrameLocation(line)
    case None => []
    case Some(location) => [AT + location]
  }

  function Framed(lines: seq<Text>): seq<Text> {
    if lines == [] then [] else Frame(lines[0]) + Framed(lines[1..])
  }

  /** The frames of a stack: one for each line that is one and is not a line of the message. */
  function Frames(stack: Text, name: Option<Text>, message: Option<Text>): seq<Text> {
    Framed(Without(Lines(Trace(stack, name, message)), HiddenLines(message)))
  }

  lemma {:induction false} LinesJoined(ls: seq<Text>)
    requires ls != [] && forall l | l in ls :: U('\n') !in l
    ensures Lines(JoinLines(ls)) == ls
  {
    var t, first := JoinLines(ls), ls[0];
    hide IndexOf;
    assert first in ls;
    if |ls| == 1 {
      assert IndexOf(t, U('\n')) == |t|;
    } else {
      var rest := JoinLines(ls[1..]);
      assert t == first + [U('\n')] + rest;
      hide JoinLines;
      assert t[|first|] == U('\n') && forall i | 0 <= i < |first| :: t[i] == first[i];
      assert IndexOf(t, U('\n')) == |first|;
      assert t[..|first|] == first && t[|first| + 1..] == rest;
      LinesJoined(ls[1..]);
    }
  }

  lemma {:induction false} FramedAppend(a: seq<Text>, b: seq<Text>)
    ensures Framed(a + b) == Framed(a) + Framed(b)
  {
    hide Frame;
    if a == [] {
      assert a + b == b;
    } else {
      assert (a + b)[0] == a[0] && (a + b)[1..] == a[1..] + b;
      FramedAppend(a[1..], b);
    }
  }

  /** The loop of `locationsFromStack` over what is left of the stack. */
  method LocationsFromStack(stack: Text, name: Option<Text>, message: Option<Text>) returns (locations: seq<Text>)
    ensures locations == Frames(stack, name, message)
  {
    var trace := Trace(stack, name, message);
    if message.Some? && message.value != [] {
      trace := JoinLines(Without(Lines(trace), Lines(message.value)));
    }
    TraceFrames(stack, name, message);
    hide Frames, Lines, JoinLines, Without, Framed, FrameLocation, Trace;
    var lines := Lines(trace);
    locations := [];
    for i := 0 to |lines|
      invariant locations == Framed(lines[..i])
    {
      var location := FrameLocation(lines[i]);
      if location.Some? {
        locations := locations + [AT + location.value];
      }
      FramedNext(lines, i);
    }
    assert lines[..|lines|] == lines;
  }

  lemma FramedNext(lines: seq<Text>, i: nat)
    requires i < |lines|
    ensures Framed(lines[..i + 1]) == Framed(lines[..i]) + Frame(lines[i])
  {
    hide Frame;
    assert lines[..i + 1] == lines[..i] + [lines[i]];
    FramedAppend(lines[..i], [lines[i]]);
    assert Framed([lines[i]]) == Frame(lines[i]);
  }

  lemma TraceFrames(stack: Text, name: Option<Text>, message: Option<Text>)
    ensures var trace := Trace(stack, name, message);
      var visible :=
        if message.Some? && message.value != [] then JoinLines(Without(Lines(trace), Lines(message.value)))
        else trace;
      Framed(Lines(visible)) == Frames(stack, name, message)
  {
    hide Lines, JoinLines, Trace;
    var lines := Lines(Trace(stack, name, message));
    if message.Some? && message.value != [] {
      var left := Without(lines, Lines(message.value));
      if left == [] {
        NoFrameInNothing();
      } else {
        LinesJoined(left);
      }
    } else {
      WithoutNothing(lines);
    }
  }

  lemma NoFrameInNothing()
    ensures Framed(Lines(JoinLines([]))) == []
  {
    var t: Text := [];
    assert Lines(t) == [t];
    assert !StartsWith(t, AT);
  }

  lemma {:induction false} WithoutNothing(lines: seq<Text>)
    ensures Without(lines, []) == lines
  {
    if lines != [] {
      WithoutNothing(lines[1..]);
    }
  }

  // ----- the chain of causes

  /** A thrown value that is an object, its own properties read; `None` where reading gives no string or no object. */
  datatype Thrown = Thrown(stack: Option<Text>, name: Option<Text>, message: Option<Text>, cause: Option<nat>)

  type Heap = map<nat, Thrown>

  function OwnFrames(e: Thrown): seq<Text> {
    if e.stack.None? then [] else Frames(e.stack.value, e.name, e.message)
  }

  function FramesOf(heap: Heap, ids: seq<nat>): seq<Text>
    requires forall id | id in ids :: id in heap
  {
    if ids == [] then [] else OwnFrames(heap[ids[0]]) + FramesOf(heap, ids[1..])
  }

  /** `cause` stops the walk when it is no object or has been seen, or when enough have been. */
  predicate Stops(heap: Heap, cause: Option<nat>, seen: set<nat>) {
    cause.None? || cause.value !in heap || cause.value in seen || |seen| > 8
  }

  /** The objects a walk goes through. */
  function Visited(heap: Heap, cause: Option<nat>, seen: set<nat>): (r: seq<nat>)
    requires |seen| <= 9
    ensures |seen| + |r| <= 9 && forall id | id in r :: id in heap && id !in seen
    decreases 9 - |seen|
  {
    if Stops(heap, cause, seen) then []
    else [cause.value] + Visited(heap, heap[cause.value].cause, seen + {cause.value})
  }

  /** The cause `n` links down the chain, whether or not the chain has come round. */
  function CauseAt(heap: Heap, cause: Option<nat>, n: nat): Option<nat>
    decreases n
  {
    if n == 0 || cause.None? then cause
    else if cause.value !in heap then None
    else CauseAt(heap, heap[cause.value].cause, n - 1)
  }

  function Ids(ids: seq<nat>): set<nat> {
    set id | id in ids
  }

  ghost predicate Follows(heap: Heap, cause: Option<nat>, ids: seq<nat>) {
    forall i | 0 <= i < |ids| :: CauseAt(heap, cause, i) == Some(ids[i])
  }

  ghost predicate Distinct(ids: seq<nat>) {
    forall i, k | 0 <= i < k < |ids| :: ids[i] != ids[k]
  }

  lemma FollowsOn(heap: Heap, id: nat, more: seq<nat>)
    requires id in heap && Follows(heap, heap[id].cause, more)
    ensures Follows(heap, Some(id), [id] + more)
    ensures CauseAt(heap, Some(id), |more| + 1) == CauseAt(heap, heap[id].cause, |more|)
  {
    var ids := [id] + more;
    forall i | 0 < i < |ids| ensures CauseAt(heap, Some(id), i) == Some(ids[i]) {
      assert ids[i] == more[i - 1];
    }
  }

  lemma DistinctOn(id: nat, more: seq<nat>)
    requires id !in more && Distinct(more)
    ensures Distinct([id] + more) && Ids([id] + more) == {id} + Ids(more)
  {
  }

  /**
   * The walk goes down the chain link by link, meets nothing twice, and ends only where the chain
   * ends, comes round, or nine objects have been seen.
   */
  lemma {:induction false} WalkFollowsChain(heap: Heap, cause: Option<nat>, seen: set<nat>)
    requires |seen| <= 9
    ensures var ids := Visited(heap, cause, seen);
      && Follows(heap, cause, ids)
      && Distinct(ids)
      && Stops(heap, CauseAt(heap, cause, |ids|), seen + Ids(ids))
    decreases 9 - |seen|
  {
    hide Follows, Distinct, CauseAt, Ids;
    if Stops(heap, cause, seen) {
      NoneFollow(heap, cause);
      assert seen + Ids([]) == seen;
    } else {
      var id := cause.value;
      var more := Visited(heap, heap[id].cause, seen + {id});
      WalkFollowsChain(heap, heap[id].cause, seen + {id});
      assert Visited(heap, cause, seen) == [id] + more;
      hide Visited, Stops;
      FollowsOn(heap, id, more);
      DistinctOn(id, more);
      assert seen + ({id} + Ids(more)) == (seen + {id}) + Ids(more);
    }
  }

  lemma NoneFollow(heap: Heap, cause: Option<nat>)
    ensures Follows(heap, cause, []) && Distinct([]) && CauseAt(heap, cause, 0) == cause && Ids([]) == {}
  {
  }

  class CauseWalk {
    const heap: Heap
    var seen: set<nat>

    constructor (heap: Heap, error: nat)
      ensures this.heap == heap && seen == {error}
    {
      this.heap := heap;
      seen := {error};
    }

    /** `causeLocations`. */
    method CauseLocations(cause: Option<nat>) returns (locations: seq<Text>)
      requires |seen| <= 9
      modifies this`seen
      ensures seen == old(seen) + Ids(Visited(heap, cause, old(seen)))
      ensures locations == FramesOf(heap, Visited(heap, cause, old(seen)))
      decreases 9 - |seen|
    {
      hide Frames, FramesOf, Visited;
      VisitedFirst(heap, cause, seen);
      if Stops(heap, cause, seen) {
        locations := [];
        return;
      }
      var id := cause.value;
      seen := seen + {id};
      var own: seq<Text> := [];
      if heap[id].stack.Some? {
        own := LocationsFromStack(heap[id].stack.value, heap[id].name, heap[id].message);
      }
      var rest := CauseLocations(heap[id].cause);
      locations := own + rest;
    }
  }

  lemma VisitedFirst(heap: Heap, cause: Option<nat>, seen: set<nat>)
    requires |seen| <= 9
    ensures var ids := Visited(heap, cause, seen);
      if Stops(heap, cause, seen) then seen + Ids(ids) == seen && FramesOf(heap, ids) == []
      else
        var more := Visited(heap, heap[cause.value].cause, seen + {cause.value});
        && seen + Ids(ids) == seen + {cause.value} + Ids(more)
        && FramesOf(heap, ids) == OwnFrames(heap[cause.value]) + FramesOf(heap, more)
  {
    if !Stops(heap, cause, seen) {
      VisitedOn(heap, cause.value, seen);
      hide Visited, FramesOf;
      var more := Visited(heap, heap[cause.value].cause, seen + {cause.value});
      assert seen + ({cause.value} + Ids(more)) == seen + {cause.value} + Ids(more);
    }
  }

  lemma VisitedOn(heap: Heap, id: nat, seen: set<nat>)
    requires id in heap && id !in seen && |seen| <= 8
    ensures var more := Visited(heap, heap[id].cause, seen + {id});
      && Ids(Visited(heap, Some(id), seen)) == {id} + Ids(more)
      && FramesOf(heap, Visited(heap, Some(id), seen)) == OwnFrames(heap[id]) + FramesOf(heap, more)
  {
    hide Frames;
    var more := Visited(heap, heap[id].cause, seen + {id});
    assert Visited(heap, Some(id), seen) == [id] + more;
    hide Visited;
    assert ([id] + more)[1..] == more;
  }

  const NO_STACK: Text := Ascii("(no stack)")

  /** The lines the log shows for an error: its own frames, then those of its causes. */
  function StackLines(heap: Heap, error: nat): seq<Text>
    requires error in heap
  {
    OwnFrames(heap[error]) + FramesOf(heap, Visited(heap, heap[error].cause, {error}))
  }

  /** `stackFrames`. */
  method StackFrames(heap: Heap, error: nat) returns (text: Text)
    requires error in heap
    ensures text ==
      if heap[error].stack.None? || StackLines(heap, error) == [] then NO_STACK
      else JoinLines(StackLines(heap, error))
  {
    var e := heap[error];
    if e.stack.None? {
      return NO_STACK;
    }
    var own := LocationsFromStack(e.stack.value, e.name, e.message);
    var walk := new CauseWalk(heap, error);
    var causes := walk.CauseLocations(e.cause);
    var lines := own + causes;
    text := if lines == [] then NO_STACK else JoinLines(lines);
  }

  // ----- what is logged

  ghost predicate CleanFrame(frame: Text) {
    AT <= frame && CleanLocation(frame[|AT|..])
  }

  /** A frame comes from a line of the stack that is no line of the message, and is clean. */
  lemma {:induction false} FramedFrom(lines: seq<Text>, frame: Text)
    requires frame in Framed(lines)
    ensures CleanFrame(frame)
    ensures exists line | line in lines :: FrameLocation(line) == Some(frame[|AT|..])
  {
    hide FrameLocation, CleanLocation;
    var location := FrameLocation(lines[0]);
    if location.Some? && frame == AT + location.value {
      assert frame[|AT|..] == location.value;
      LoggedLocations(location.value);
      assert lines[0] in lines;
    } else {
      FramedFrom(lines[1..], frame);
      var line :| line in lines[1..] && FrameLocation(line) == Some(frame[|AT|..]);
      assert line in lines;
    }
  }

  lemma FramesFrom(stack: Text, name: Option<Text>, message: Option<Text>, frame: Text)
    requires frame in Frames(stack, name, message)
    ensures CleanFrame(frame)
    ensures exists line | line in Lines(Trace(stack, name, message)) && line !in HiddenLines(message) ::
              FrameLocation(line) == Some(frame[|AT|..])
  {
    hide Framed, Lines, Trace, HiddenLines, FrameLocation, CleanFrame;
    FramedFrom(Without(Lines(Trace(stack, name, message)), HiddenLines(message)), frame);
  }

  lemma {:induction false} FramedAgain(frames: seq<Text>)
    requires forall f | f in frames :: CleanFrame(f)
    ensures Framed(frames) == frames
  {
    hide FrameLocation, CleanLocation;
    if frames != [] {
      var f := frames[0];
      assert f in frames && f == AT + f[|AT|..];
      LoggedLocations(f[|AT|..]);
      FramedAgain(frames[1..]);
      assert frames == [f] + frames[1..];
    }
  }

  lemma {:induction false} FramesOfClean(heap: Heap, ids: seq<nat>, frame: Text)
    requires forall id | id in ids :: id in heap
    requires frame in FramesOf(heap, ids)
    ensures CleanFrame(frame)
  {
    hide Frames, CleanFrame;
    var e := heap[ids[0]];
    if frame in OwnFrames(e) {
      FramesFrom(e.stack.value, e.name, e.message, frame);
    } else {
      FramesOfClean(heap, ids[1..], frame);
    }
  }

  lemma CleanFrameIsLine(frame: Text)
    requires CleanFrame(frame)
    ensures U('\n') !in frame
  {
    var location := frame[|AT|..];
    hide CleanLocation;
    CleanIsLocated(location);
    assert IsSpace(U('\n'));
    hide IsSpace;
    assert frame == AT + location && U('\n') !in AT;
  }

  /** Every line logged for an error is clean, and the whole text, read as a stack, gives those lines again. */
  lemma StackReadsBack(heap: Heap, error: nat)
    requires error in heap && StackLines(heap, error) != []
    ensures forall f | f in StackLines(heap, error) :: CleanFrame(f)
    ensures Frames(JoinLines(StackLines(heap, error)), None, None) == StackLines(heap, error)
  {
    hide Frames, CleanFrame, Visited;
    var frames, e := StackLines(heap, error), heap[error];
    var ids := Visited(heap, e.cause, {error});
    forall f | f in frames ensures CleanFrame(f) && U('\n') !in f {
      if f in OwnFrames(e) {
        FramesFrom(e.stack.value, e.name, e.message, f);
      } else {
        FramesOfClean(heap, ids, f);
      }
      CleanFrameIsLine(f);
    }
    FramedAgain(frames);
    LinesJoined(frames);
    PlainFrames(JoinLines(frames));
  }

  lemma PlainFrames(stack: Text)
    ensures Frames(stack, None, None) == Framed(Lines(stack))
  {
    WithoutNothing(Lines(stack));
  }
}
