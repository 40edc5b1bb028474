/** `importExactDocuments`: the worker that claims document runs, retires the unusable ones and does one batch. */
module ExactQueue {
  import opened Wrappers

  const MAX_RETIRED_PER_TICK := 50
  const CLAIM_LEASE_MS := 600_000

  datatype State = Pending | Paused | Running | Done | Failed

  /** A run, for the administration it belongs to. `stored` stands for the counters, which are added to. */
  datatype Run = Run(entity: nat, state: State, updated: nat, cursor: nat, stored: nat)

  /** What a batch reports: how it stands, how far it got and what it stored. */
  datatype Batch = Batch(state: State, cursor: nat, stored: nat)

  /** The runs, oldest request first. */
  type Runs = seq<Run>

  predicate Waiting(r: Run) {
    r.state == Pending || r.state == Paused
  }

  /** A claim is a lease: a run nobody has written to for that long may be taken again. */
  predicate Claimable(r: Run, now: nat) {
    Waiting(r) || (r.state == Running && r.updated + CLAIM_LEASE_MS < now)
  }

  function Oldest(runs: Runs, now: nat): (r: nat)
    ensures r <= |runs| && (r < |runs| ==> Claimable(runs[r], now)) && forall i | 0 <= i < r :: !Claimable(runs[i], now)
  {
    if runs == [] || Claimable(runs[0], now) then 0 else 1 + Oldest(runs[1..], now)
  }

  function Claimed(runs: Runs, now: nat): (r: Option<nat>)
    ensures r.Some? ==> r.value < |runs| && r.value == Oldest(runs, now)
  {
    var i := Oldest(runs, now);
    if i < |runs| then Some(i) else None
  }

  /** The queue with the oldest run claimed. */
  function Taken(runs: Runs, now: nat): (r: Runs)
    ensures |r| == |runs|
  {
    match Claimed(runs, now)
    case None => runs
    case Some(i) => runs[i := runs[i].(state := Running, updated := now)]
  }

  function Saved(r: Run, state: State, cursor: nat, stored: nat, now: nat): Run {
    r.(state := state, cursor := cursor, stored := r.stored + stored, updated := now)
  }

  function Retired(r: Run, now: nat): Run {
    Saved(r, Failed, r.cursor, 0, now)
  }

  /** `running` goes back to `pending`, for the next tick to claim. */
  function Batched(r: Run, b: Batch, now: nat): Run {
    Saved(r, if b.state == Running then Pending else b.state, b.cursor, b.stored, now)
  }

  // ----- what a tick does, in one pass over the queue

  /** The first run that can be claimed and used, or the length. */
  function FirstUsable(runs: Runs, usable: set<nat>, now: nat): (r: nat)
    ensures r <= |runs|
    ensures r < |runs| ==> Claimable(runs[r], now) && runs[r].entity in usable
    ensures forall i | 0 <= i < r :: Claimable(runs[i], now) ==> runs[i].entity !in usable
  {
    if runs == [] || (Claimable(runs[0], now) && runs[0].entity in usable) then 0
    else 1 + FirstUsable(runs[1..], usable, now)
  }

  function CountClaimable(runs: Runs, now: nat): (r: nat)
    ensures r <= |runs|
  {
    if runs == [] then 0 else (if Claimable(runs[0], now) then 1 else 0) + CountClaimable(runs[1..], now)
  }

  /** The first `n` claimable runs failed, the others as they were. */
  function RetireFirst(runs: Runs, now: nat, n: nat): (r: Runs)
    ensures |r| == |runs|
  {
    if runs == [] || n == 0 then runs
    else if Claimable(runs[0], now) then [Retired(runs[0], now)] + RetireFirst(runs[1..], now, n - 1)
    else [runs[0]] + RetireFirst(runs[1..], now, n)
  }

  /** The unusable runs in front of the first usable one. */
  function InFront(runs: Runs, usable: set<nat>, now: nat): nat {
    CountClaimable(runs[..FirstUsable(runs, usable, now)], now)
  }

  /** Which run a tick does a batch of: the first usable one, unless more than fifty have to be retired first. */
  function Chosen(runs: Runs, usable: set<nat>, now: nat): (r: Option<nat>)
    ensures r.Some? ==> r.value < |runs| && Claimable(runs[r.value], now) && runs[r.value].entity in usable
  {
    var t := FirstUsable(runs, usable, now);
    if InFront(runs, usable, now) > MAX_RETIRED_PER_TICK || t == |runs| then None else Some(t)
  }

  function RetiredNow(runs: Runs, usable: set<nat>, now: nat): nat {
    var n := InFront(runs, usable, now);
    if n > MAX_RETIRED_PER_TICK then MAX_RETIRED_PER_TICK + 1 else n
  }

  function AfterTick(runs: Runs, usable: set<nat>, now: nat, batch: Run -> Batch): (r: Runs)
    ensures |r| == |runs|
  {
    var left := RetireFirst(runs, now, RetiredNow(runs, usable, now));
    match Chosen(runs, usable, now)
    case None => left
    case Some(t) =>
      var claimed := runs[t].(state := Running, updated := now);
      left[t := Batched(claimed, batch(claimed), now)]
  }

  lemma CountNext(runs: Runs, now: nat, i: nat)
    requires 0 < i <= |runs|
    ensures CountClaimable(runs[..i], now) ==
      (if Claimable(runs[0], now) then 1 else 0) + CountClaimable(runs[1..][..i - 1], now)
  {
    assert runs[..i][0] == runs[0] && runs[..i][1..] == runs[1..][..i - 1];
  }

  lemma {:induction false} CountOrder(runs: Runs, now: nat, i: nat, k: nat)
    requires i < k <= |runs|
    ensures CountClaimable(runs[..i], now)
      + (if Claimable(runs[i], now) then 1 else 0) <= CountClaimable(runs[..k], now)
  {
    CountNext(runs, now, k);
    if i > 0 {
      CountNext(runs, now, i);
      CountOrder(runs[1..], now, i - 1, k - 1);
    }
  }

  /** Behind `n` claimable runs, retiring the first `n` changes nothing. */
  lemma {:induction false} NotRetired(runs: Runs, now: nat, n: nat, i: nat)
    requires i < |runs| && CountClaimable(runs[..i], now) >= n
    ensures RetireFirst(runs, now, n)[i] == runs[i]
  {
    if i > 0 && n > 0 {
      CountNext(runs, now, i);
      NotRetired(runs[1..], now, if Claimable(runs[0], now) then n - 1 else n, i - 1);
    }
  }

  /** With the first `n` retired, the oldest that is left is the next one. */
  ghost predicate NextLeft(runs: Runs, now: nat, n: nat) {
    var before := RetireFirst(runs, now, n);
    var i := Oldest(before, now);
    if i < |runs| then
      && CountClaimable(runs[..i], now) == n && before[i] == runs[i]
      && RetireFirst(runs, now, n + 1) == before[i := Retired(before[i], now)]
    else CountClaimable(runs, now) <= n
  }

  lemma {:induction false} OldestLeft(runs: Runs, now: nat, n: nat)
    ensures NextLeft(runs, now, n)
  {
    if runs != [] {
      hide Retired, NextLeft;
      if Claimable(runs[0], now) && n == 0 {
        OldestIsFirst(runs, now);
      } else {
        OldestLeft(runs[1..], now, if Claimable(runs[0], now) then n - 1 else n);
        LeftBehind(runs, now, n);
      }
    }
  }

  lemma OldestIsFirst(runs: Runs, now: nat)
    requires runs != [] && Claimable(runs[0], now)
    ensures NextLeft(runs, now, 0)
  {
    assert RetireFirst(runs[1..], now, 0) == runs[1..];
    assert RetireFirst(runs, now, 1) == [Retired(runs[0], now)] + runs[1..];
  }

  lemma {:induction false} LeftBehind(runs: Runs, now: nat, n: nat)
    requires runs != [] && (Claimable(runs[0], now) ==> n > 0)
    requires NextLeft(runs[1..], now, if Claimable(runs[0], now) then n - 1 else n)
    ensures NextLeft(runs, now, n)
  {
    RetireHead(runs, now, n);
    CountHead(runs, now);
    var m := if Claimable(runs[0], now) then n - 1 else n;
    var before, tail := RetireFirst(runs, now, n), RetireFirst(runs[1..], now, m);
    var k := Oldest(tail, now);
    if k < |tail| {
      var next, r := RetireFirst(runs, now, n + 1), Retired(tail[k], now);
      hide RetireFirst, Retired, Claimable, CountClaimable, Oldest;
      assert next == [before[0]] + tail[k := r];
      UpdateBehind(runs, now, before, tail, next, k, r);
    }
  }

  lemma UpdateBehind(runs: Runs, now: nat, before: Runs, tail: Runs, next: Runs, k: nat, r: Run)
    requires |before| == |runs| && runs != [] && k < |tail| && before == [before[0]] + tail
    requires next == [before[0]] + tail[k := r] && tail[k] == runs[1..][k]
    ensures before[k + 1] == runs[k + 1] && next == before[k + 1 := r]
    ensures CountClaimable(runs[..k + 1], now) ==
      (if Claimable(runs[0], now) then 1 else 0) + CountClaimable(runs[1..][..k], now)
  {
    CountNext(runs, now, k + 1);
    hide CountClaimable, Claimable;
    assert runs[1..][k] == runs[k + 1];
  }

  lemma CountHead(runs: Runs, now: nat)
    requires runs != []
    ensures CountClaimable(runs, now) == (if Claimable(runs[0], now) then 1 else 0) + CountClaimable(runs[1..], now)
  {
  }

  lemma RetireHead(runs: Runs, now: nat, n: nat)
    requires runs != [] && (Claimable(runs[0], now) ==> n > 0)
    ensures var m := if Claimable(runs[0], now) then n - 1 else n;
      var before := RetireFirst(runs, now, n);
      && before == [before[0]] + RetireFirst(runs[1..], now, m)
      && RetireFirst(runs, now, n + 1) == [before[0]] + RetireFirst(runs[1..], now, m + 1)
      && Oldest(before, now) == 1 + Oldest(RetireFirst(runs[1..], now, m), now)
  {
    assert RetireFirst(runs[1..], now, 0) == runs[1..];
    RetiredIsFinal(runs[0], now);
    OldestBehind(RetireFirst(runs, now, n)[0], RetireFirst(runs, now, n)[1..], now);
  }

  lemma OldestBehind(head: Run, tail: Runs, now: nat)
    requires !Claimable(head, now)
    ensures Oldest([head] + tail, now) == 1 + Oldest(tail, now)
  {
    assert ([head] + tail)[1..] == tail;
  }

  lemma RetiredIsFinal(r: Run, now: nat)
    ensures forall later: nat :: !Claimable(Retired(r, now), later)
  {
  }

  /** What the loop has in hand when it has retired `n` runs. */
  lemma InHand(runs: Runs, usable: set<nat>, now: nat, n: nat)
    requires n <= InFront(runs, usable, now)
    ensures var before, t := RetireFirst(runs, now, n), FirstUsable(runs, usable, now);
      var i := Oldest(before, now);
      if i < |runs| && runs[i].entity !in usable then
        n < InFront(runs, usable, now) && before[i] == runs[i]
          && RetireFirst(runs, now, n + 1) == before[i := Retired(before[i], now)]
      else
        n == InFront(runs, usable, now) && i == t && (i < |runs| ==> before[i] == runs[i])
  {
    var before, t := RetireFirst(runs, now, n), FirstUsable(runs, usable, now);
    var i := Oldest(before, now);
    OldestLeft(runs, now, n);
    if t < |runs| {
      NotRetired(runs, now, n, t);
      CountOrder(runs, now, t, |runs|);
    }
    if i < t {
      CountOrder(runs, now, i, t);
    }
    assert runs[..|runs|] == runs;
  }

  // ----- the loop

  class Queue {
    var runs: Runs

    constructor (runs: Runs)
      ensures this.runs == runs
    {
      this.runs := runs;
    }

    /** `claim`. */
    method Claim(now: nat) returns (claimed: Option<nat>)
      modifies this
      ensures claimed == Claimed(old(runs), now) && runs == Taken(old(runs), now)
    {
      var i := Oldest(runs, now);
      if i == |runs| {
        return None;
      }
      runs := runs[i := runs[i].(state := Running, updated := now)];
      return Some(i);
    }

    /** `advance`. */
    method Advance(i: nat, state: State, cursor: nat, stored: nat, now: nat)
      requires i < |runs|
      modifies this
      ensures runs == old(runs)[i := Saved(old(runs)[i], state, cursor, stored, now)]
      ensures runs[i] == Run(old(runs)[i].entity, state, now, cursor, old(runs)[i].stored + stored)
    {
      runs := runs[i := Saved(runs[i], state, cursor, stored, now)];
    }

    /** One tick; the result is the run a batch was done of. */
    method ImportExactDocuments(usable: set<nat>, now: nat, batch: Run -> Batch) returns (done: Option<nat>)
      modifies this
      ensures done == Chosen(old(runs), usable, now)
      ensures runs == AfterTick(old(runs), usable, now, batch)
    {
      hide RetireFirst, InFront, FirstUsable, Oldest, Chosen, AfterTick, Claimed, Taken, Retired, Saved, Batched;
      ghost var start, before := runs, runs;
      NoneRetired(runs, now);
      var run := Claim(now);
      var retired := 0;
      while run.Some? && runs[run.value].entity !in usable
        invariant retired <= MAX_RETIRED_PER_TICK && retired <= InFront(start, usable, now)
        invariant before == RetireFirst(start, now, retired)
        invariant run == Claimed(before, now) && runs == Taken(before, now)
        decreases MAX_RETIRED_PER_TICK - retired
      {
        var unusable := run.value;
        TakenRun(before, now);
        InHand(start, usable, now, retired);
        Advance(unusable, Failed, runs[unusable].cursor, 0, now);
        before := runs;
        if retired >= MAX_RETIRED_PER_TICK {
          TickGivesUp(start, usable, now, batch);
          return None;
        }
        run := Claim(now);
        retired := retired + 1;
      }
      TakenRun(before, now);
      InHand(start, usable, now, retired);
      TickEnds(start, usable, now, batch);
      if run.None? {
        return None;
      }
      var claimed := run.value;
      var result := batch(runs[claimed]);
      Advance(claimed, if result.state == Running then Pending else result.state, result.cursor, result.stored, now);
      return Some(claimed);
    }
  }

  /** What the claimed run looks like, and what saving it makes of the queue. */
  lemma TakenRun(runs: Runs, now: nat)
    ensures match Claimed(runs, now)
            case None => Oldest(runs, now) == |runs| && Taken(runs, now) == runs
            case Some(i) =>
              var r := Taken(runs, now)[i];
              && i < |runs| && r == runs[i].(state := Running, updated := now)
              && Taken(runs, now)[i := Saved(r, Failed, r.cursor, 0, now)] == runs[i := Retired(runs[i], now)]
              && forall b: Batch :: var state := if b.state == Running then Pending else b.state;
                   Taken(runs, now)[i := Saved(r, state, b.cursor, b.stored, now)] == runs[i := Batched(r, b, now)]
  {
  }

  lemma NoneRetired(runs: Runs, now: nat)
    ensures RetireFirst(runs, now, 0) == runs
  {
  }

  lemma TickGivesUp(runs: Runs, usable: set<nat>, now: nat, batch: Run -> Batch)
    requires InFront(runs, usable, now) > MAX_RETIRED_PER_TICK
    ensures Chosen(runs, usable, now) == None
    ensures AfterTick(runs, usable, now, batch) == RetireFirst(runs, now, MAX_RETIRED_PER_TICK + 1)
  {
  }

  lemma TickEnds(runs: Runs, usable: set<nat>, now: nat, batch: Run -> Batch)
    requires InFront(runs, usable, now) <= MAX_RETIRED_PER_TICK
    ensures var before, t := RetireFirst(runs, now, InFront(runs, usable, now)), FirstUsable(runs, usable, now);
      if t == |runs| then Chosen(runs, usable, now) == None && AfterTick(runs, usable, now, batch) == before
      else
        var claimed := runs[t].(state := Running, updated := now);
        && Chosen(runs, usable, now) == Some(t)
        && AfterTick(runs, usable, now, batch) == before[t := Batched(claimed, batch(claimed), now)]
  {
  }

  // ----- what the ticks come to

  /** No run is left as claimed: what is `running` after a tick is as it was before. */
  lemma NoneStranded(runs: Runs, usable: set<nat>, now: nat, batch: Run -> Batch, i: nat)
    requires i < |runs|
    ensures var after := AfterTick(runs, usable, now, batch);
      after[i].state == Running ==> after[i] == runs[i] && !(i == Oldest(runs, now))
  {
    var n := RetiredNow(runs, usable, now);
    RetiredOrKept(runs, now, n, i);
    InHand(runs, usable, now, 0);
    if n > 0 && i == Oldest(runs, now) {
      FirstRetired(runs, now, n);
    }
  }

  lemma {:induction false} RetiredOrKept(runs: Runs, now: nat, n: nat, i: nat)
    requires i < |runs|
    ensures RetireFirst(runs, now, n)[i] in {runs[i], Retired(runs[i], now)}
  {
    if n > 0 && i > 0 {
      RetiredOrKept(runs[1..], now, if Claimable(runs[0], now) then n - 1 else n, i - 1);
    }
  }

  lemma {:induction false} FirstRetired(runs: Runs, now: nat, n: nat)
    requires n > 0 && Oldest(runs, now) < |runs|
    ensures var i := Oldest(runs, now); RetireFirst(runs, now, n)[i] == Retired(runs[i], now)
  {
    if !Claimable(runs[0], now) {
      FirstRetired(runs[1..], now, n);
    }
  }

  /** One tick at each of some instants. */
  function Ticks(runs: Runs, usable: set<nat>, nows: seq<nat>, batch: Run -> Batch): (r: Runs)
    ensures |r| == |runs|
    decreases |nows|
  {
    if nows == [] then runs else Ticks(AfterTick(runs, usable, nows[0], batch), usable, nows[1..], batch)
  }

  predicate NoneRunning(runs: Runs) {
    forall r | r in runs :: r.state != Running
  }

  function CountWaiting(runs: Runs): nat {
    if runs == [] then 0 else (if Waiting(runs[0]) then 1 else 0) + CountWaiting(runs[1..])
  }

  /** The runs that wait or whose claim is held, and may be over by the next tick or not. */
  function CountUnfinished(runs: Runs): nat {
    if runs == [] then 0
    else (if Waiting(runs[0]) || runs[0].state == Running then 1 else 0) + CountUnfinished(runs[1..])
  }

  /** A usable run that waits behind unusable ones. Behind it anything may stand. */
  predicate InLine(runs: Runs, usable: set<nat>, t: nat) {
    && t < |runs| && Waiting(runs[t]) && runs[t].entity in usable
    && forall i | 0 <= i < t && (Waiting(runs[i]) || runs[i].state == Running) :: runs[i].entity !in usable
  }

  lemma {:induction false} ClaimableBetween(runs: Runs, now: nat)
    ensures CountWaiting(runs) <= CountClaimable(runs, now) <= CountUnfinished(runs)
  {
    if runs != [] {
      ClaimableBetween(runs[1..], now);
    }
  }

  lemma InLineNow(runs: Runs, usable: set<nat>, t: nat, now: nat)
    requires InLine(runs, usable, t)
    ensures FirstUsable(runs, usable, now) == t && InFront(runs, usable, now) == CountClaimable(runs[..t], now)
    ensures CountWaiting(runs[..t]) <= InFront(runs, usable, now) <= CountUnfinished(runs[..t])
  {
    ClaimableBetween(runs[..t], now);
  }

  lemma {:induction false} RetiringCounts(runs: Runs, now: nat, n: nat, t: nat)
    requires t <= |runs| && n <= CountClaimable(runs[..t], now)
    ensures CountUnfinished(RetireFirst(runs, now, n)[..t]) == CountUnfinished(runs[..t]) - n
    ensures CountWaiting(RetireFirst(runs, now, n)[..t]) + n >= CountWaiting(runs[..t])
  {
    if t > 0 && n > 0 {
      var after := RetireFirst(runs, now, n);
      CountNext(runs, now, t);
      assert runs[..t][0] == runs[0] && runs[..t][1..] == runs[1..][..t - 1];
      assert after[..t][0] == after[0] && after[..t][1..] == after[1..][..t - 1];
      RetiringCounts(runs[1..], now, if Claimable(runs[0], now) then n - 1 else n, t - 1);
    }
  }

  /** A tick that has more than fifty runs to retire brings those in line 51 places nearer. */
  lemma LineMoves(runs: Runs, usable: set<nat>, t: nat, now: nat, batch: Run -> Batch)
    requires InLine(runs, usable, t) && InFront(runs, usable, now) > MAX_RETIRED_PER_TICK
    ensures Chosen(runs, usable, now) == None
    ensures var after, n := AfterTick(runs, usable, now, batch), MAX_RETIRED_PER_TICK + 1;
      && InLine(after, usable, t)
      && CountUnfinished(after[..t]) == CountUnfinished(runs[..t]) - n
      && CountWaiting(after[..t]) + n >= CountWaiting(runs[..t])
  {
    var n := MAX_RETIRED_PER_TICK + 1;
    InLineNow(runs, usable, t, now);
    RetiringCounts(runs, now, n, t);
    NotRetired(runs, now, n, t);
    var after := RetireFirst(runs, now, n);
    assert AfterTick(runs, usable, now, batch) == after;
    forall i | 0 <= i < t && (Waiting(after[i]) || after[i].state == Running) ensures after[i].entity !in usable {
      RetiredOrKept(runs, now, n, i);
    }
  }

  lemma TurnNow(runs: Runs, usable: set<nat>, t: nat, now: nat)
    requires InLine(runs, usable, t) && InFront(runs, usable, now) <= MAX_RETIRED_PER_TICK
    ensures Chosen(runs, usable, now) == Some(t) && CountWaiting(runs[..t]) <= MAX_RETIRED_PER_TICK
  {
    InLineNow(runs, usable, t, now);
  }

  lemma TickFirst(runs: Runs, usable: set<nat>, nows: seq<nat>, k: nat, batch: Run -> Batch)
    requires 0 < k <= |nows|
    ensures Ticks(runs, usable, nows[..k], batch) ==
      Ticks(AfterTick(runs, usable, nows[0], batch), usable, nows[1..][..k - 1], batch)
  {
    hide AfterTick;
    assert nows[..k][0] == nows[0] && nows[..k][1..] == nows[1..][..k - 1];
  }

  /** The first batch is that of `t`, in the tick after `m` others. */
  ghost predicate TurnAt(runs: Runs, usable: set<nat>, t: nat, nows: seq<nat>, batch: Run -> Batch, m: nat) {
    && m < |nows|
    && Chosen(Ticks(runs, usable, nows[..m], batch), usable, nows[m]) == Some(t)
    && forall k | 0 <= k < m :: Chosen(Ticks(runs, usable, nows[..k], batch), usable, nows[k]) == None
  }

  lemma TurnLater(runs: Runs, usable: set<nat>, t: nat, nows: seq<nat>, batch: Run -> Batch, m: nat)
    requires nows != [] && Chosen(runs, usable, nows[0]) == None
    requires TurnAt(AfterTick(runs, usable, nows[0], batch), usable, t, nows[1..], batch, m)
    ensures TurnAt(runs, usable, t, nows, batch, m + 1)
  {
    hide Chosen, AfterTick;
    var after := AfterTick(runs, usable, nows[0], batch);
    forall k | 0 < k <= m + 1
      ensures Ticks(runs, usable, nows[..k], batch) == Ticks(after, usable, nows[1..][..k - 1], batch)
    {
      TickFirst(runs, usable, nows, k, batch);
    }
    assert forall k | 0 < k <= m + 1 :: nows[1..][k - 1] == nows[k];
    assert nows[..0] == [];
  }

  /**
   * Behind `w` unusable runs that wait and `r` that are held, a usable one gets its batch no earlier
   * than in tick `w / 51 + 1` and no later than in tick `(w + r) / 51 + 1`, and no batch is done before.
   */
  lemma {:induction false} TurnComesBetween(runs: Runs, usable: set<nat>, t: nat, nows: seq<nat>, batch: Run -> Batch)
    returns (m: nat)
    requires InLine(runs, usable, t)
    requires |nows| > CountUnfinished(runs[..t]) / (MAX_RETIRED_PER_TICK + 1)
    ensures CountWaiting(runs[..t]) / (MAX_RETIRED_PER_TICK + 1) <= m
    ensures m <= CountUnfinished(runs[..t]) / (MAX_RETIRED_PER_TICK + 1)
    ensures TurnAt(runs, usable, t, nows, batch, m)
    decreases |nows|
  {
    if InFront(runs, usable, nows[0]) <= MAX_RETIRED_PER_TICK {
      m := 0;
      TurnNow(runs, usable, t, nows[0]);
      assert nows[..0] == [];
    } else {
      LineMoves(runs, usable, t, nows[0], batch);
      hide Chosen, AfterTick, InFront, CountWaiting, CountUnfinished, InLine, TurnAt;
      m := TurnComesBetween(AfterTick(runs, usable, nows[0], batch), usable, t, nows[1..], batch);
      TurnLater(runs, usable, t, nows, batch, m);
      m := m + 1;
    }
  }

  lemma {:induction false} NoneHeld(runs: Runs)
    requires NoneRunning(runs)
    ensures CountUnfinished(runs) == CountWaiting(runs)
  {
    if runs != [] {
      assert runs[0] in runs;
      NoneHeld(runs[1..]);
    }
  }

  /** With none held in front, it is tick `w / 51 + 1` exactly. */
  lemma TurnComes(runs: Runs, usable: set<nat>, t: nat, nows: seq<nat>, batch: Run -> Batch)
    requires InLine(runs, usable, t) && NoneRunning(runs[..t])
    requires |nows| > CountWaiting(runs[..t]) / (MAX_RETIRED_PER_TICK + 1)
    ensures TurnAt(runs, usable, t, nows, batch, CountWaiting(runs[..t]) / (MAX_RETIRED_PER_TICK + 1))
  {
    hide TurnAt;
    NoneHeld(runs[..t]);
    var m := TurnComesBetween(runs, usable, t, nows, batch);
  }

  // ----- what becomes of each row

  /** Which rows a worker may take: those that wait, and those nobody has written to for ten minutes. */
  lemma WhoIsClaimable(r: Run, now: nat)
    ensures Claimable(r, now) <==> match r.state
      case Pending => true
      case Paused => true
      case Running => now - r.updated > 10 * 60 * 1000
      case Done => false
      case Failed => false
  {
  }

  /** Retired are the claimable rows with fewer than `n` claimable ones before them. */
  lemma {:induction false} RetiredExactly(runs: Runs, now: nat, n: nat, i: nat)
    requires i < |runs|
    ensures var r := runs[i];
      RetireFirst(runs, now, n)[i] ==
        if Claimable(r, now) && CountClaimable(runs[..i], now) < n
        then Run(r.entity, Failed, now, r.cursor, r.stored) else r
  {
    if i == 0 {
      assert runs[..0] == [];
    } else if n > 0 {
      CountNext(runs, now, i);
      RetiredExactly(runs[1..], now, if Claimable(runs[0], now) then n - 1 else n, i - 1);
    }
  }

  /**
   * Every row after a tick: the run that got the batch has its cursor, what it stored on top of what
   * was there, and `pending` where there is more to do; the unusable ones before it have failed, the
   * first fifty-one of them if there are more; and all others are as they were.
   */
  lemma RowAfterTick(runs: Runs, usable: set<nat>, now: nat, batch: Run -> Batch, i: nat)
    requires i < |runs|
    ensures var r, t := runs[i], FirstUsable(runs, usable, now);
      var before, unusable := CountClaimable(runs[..i], now), CountClaimable(runs[..t], now);
      AfterTick(runs, usable, now, batch)[i] ==
        if i == t && unusable <= 50 then
          var b := batch(Run(r.entity, Running, now, r.cursor, r.stored));
          Run(r.entity, if b.state == Running then Pending else b.state, now, b.cursor, r.stored + b.stored)
        else if i < t && Claimable(r, now) && before < 51 then Run(r.entity, Failed, now, r.cursor, r.stored)
        else r
  {
    var t := FirstUsable(runs, usable, now);
    var n := RetiredNow(runs, usable, now);
    RetiredExactly(runs, now, n, i);
    if i < t {
      CountOrder(runs, now, i, t);
    } else if t < i {
      CountOrder(runs, now, t, i);
    }
  }

  // ----- several workers

  datatype Worker =
    | Idle
    | Selected(run: nat, now: nat)
    | Working(run: nat, since: nat)

  datatype World = World(clock: nat, runs: Runs, workers: map<nat, Worker>)

  /**
   * A claim looks for the oldest run and then updates it where it still qualifies; a worker that
   * has a run saves it once, or crashes. `Wait` lets time pass.
   */
  datatype Step = Select | Take | Save(state: State, cursor: nat, stored: nat) | Crash | Wait(ms: nat)

  predicate Can(w: World, worker: nat, s: Step) {
    && worker in w.workers
    && match s
       case Select => w.workers[worker].Idle? && Oldest(w.runs, w.clock) < |w.runs|
       case Take => w.workers[worker].Selected? && w.workers[worker].run < |w.runs|
       case Save(state, _, _) => w.workers[worker].Working? && w.workers[worker].run < |w.runs| && state != Running
       case Crash => true
       case Wait(_) => true
  }

  function Do(w: World, worker: nat, s: Step): World
    requires Can(w, worker, s)
  {
    match s
    case Select => w.(workers := w.workers[worker := Selected(Oldest(w.runs, w.clock), w.clock)])
    case Take =>
      var Selected(i, now) := w.workers[worker];
      if Claimable(w.runs[i], now) then
        w.(runs := w.runs[i := w.runs[i].(state := Running, updated := now)],
           workers := w.workers[worker := Working(i, now)])
      else w.(workers := w.workers[worker := Idle])
    case Save(state, cursor, stored) =>
      var i := w.workers[worker].run;
      w.(runs := w.runs[i := Saved(w.runs[i], state, cursor, stored, w.clock)], workers := w.workers[worker := Idle])
    case Crash => w.(workers := w.workers[worker := Idle])
    case Wait(ms) => w.(clock := w.clock + ms)
  }

  type Schedule = seq<(nat, Step)>

  ghost predicate Possible(w: World, schedule: Schedule)
    decreases |schedule|
  {
    schedule == [] ||
    (Can(w, schedule[0].0, schedule[0].1) && Possible(Do(w, schedule[0].0, schedule[0].1), schedule[1..]))
  }

  ghost function After(w: World, schedule: Schedule): World
    requires Possible(w, schedule)
    decreases |schedule|
  {
    if schedule == [] then w else After(Do(w, schedule[0].0, schedule[0].1), schedule[1..])
  }

  ghost predicate Initial(w: World) {
    forall p | p in w.workers :: w.workers[p].Idle?
  }

  /** No worker is still at a run when its lease is over. */
  ghost predicate Prompt(w: World) {
    forall p | p in w.workers && w.workers[p].Working? :: w.clock <= w.workers[p].since + CLAIM_LEASE_MS
  }

  ghost predicate AlwaysPrompt(w: World, schedule: Schedule)
    requires Possible(w, schedule)
    decreases |schedule|
  {
    Prompt(w) && (schedule != [] ==> AlwaysPrompt(Do(w, schedule[0].0, schedule[0].1), schedule[1..]))
  }

  /** What a worker at a run may rely on: the row is `running`, and it is its own claim that stands there. */
  ghost predicate Owns(w: World, p: nat)
    requires p in w.workers
  {
    match w.workers[p]
    case Working(i, since) => i < |w.runs| && w.runs[i].state == Running && w.runs[i].updated == since
    case Selected(i, now) => i < |w.runs| && now <= w.clock
    case Idle => true
  }

  /** No two workers are at one run. */
  ghost predicate Exclusive(w: World) {
    forall p, q | p in w.workers && q in w.workers && p != q && w.workers[p].Working? && w.workers[q].Working? ::
      w.workers[p].run != w.workers[q].run
  }

  ghost predicate Leased(w: World) {
    Exclusive(w) && forall p | p in w.workers :: Owns(w, p)
  }

  lemma StepLeased(w: World, p: nat, s: Step)
    requires Leased(w) && Prompt(w) && Can(w, p, s)
    ensures Leased(Do(w, p, s))
  {
    var end := Do(w, p, s);
    forall q | q in end.workers ensures Owns(end, q) {
      assert Owns(w, q) && Owns(w, p);
    }
    if s == Take {
      var Selected(i, now) := w.workers[p];
      forall q | q in w.workers && w.workers[q].Working? && w.workers[q].run == i ensures !Claimable(w.runs[i], now) {
        assert Owns(w, q) && Owns(w, p);
      }
    }
  }

  lemma {:induction false} StaysLeased(w: World, schedule: Schedule)
    requires Leased(w) && Possible(w, schedule) && AlwaysPrompt(w, schedule)
    ensures Leased(After(w, schedule))
    decreases |schedule|
  {
    if schedule != [] {
      StepLeased(w, schedule[0].0, schedule[0].1);
      StaysLeased(Do(w, schedule[0].0, schedule[0].1), schedule[1..]);
    }
  }

  /**
   * Whatever the workers do and whenever they crash, as long as no batch outlives its lease no run
   * has two workers, and what a worker saves is on top of its own claim.
   */
  lemma OneWorkerEach(w: World, schedule: Schedule)
    requires Initial(w) && Possible(w, schedule) && AlwaysPrompt(w, schedule)
    ensures Exclusive(After(w, schedule))
    ensures forall p | p in After(w, schedule).workers :: Owns(After(w, schedule), p)
  {
    StaysLeased(w, schedule);
  }

  /** A run whose worker is overdue is taken by the next one, and then two are at it. */
  lemma OverdueIsShared(w: World, p: nat, q: nat)
    requires p in w.workers && q in w.workers && p != q
    requires w.workers[p].Working? && w.workers[q].Idle? && Owns(w, p)
    requires w.clock > w.workers[p].since + CLAIM_LEASE_MS && Oldest(w.runs, w.clock) == w.workers[p].run
    ensures Possible(w, [(q, Select), (q, Take)]) && !Exclusive(After(w, [(q, Select), (q, Take)]))
  {
    var one := Do(w, q, Select);
    assert Owns(w, p);
    var two := Do(one, q, Take);
    assert two.workers[p].run == two.workers[q].run;
    assert [(q, Select), (q, Take)][1..] == [(q, Take)] && [(q, Take)][1..] == [];
    assert Possible(one, [(q, Take)]) && After(one, [(q, Take)]) == two by {
      assert Possible(two, []) && After(two, []) == two;
    }
  }

  // ----- exactly when a run can come to have two workers

  ghost predicate NoTimePasses(schedule: Schedule) {
    forall e | e in schedule :: !e.1.Wait?
  }

  /** No worker is between selecting a run and taking it. */
  ghost predicate NoneBetween(w: World) {
    forall p | p in w.workers :: !w.workers[p].Selected?
  }

  /** What was selected or taken, was so within the time of a lease. */
  ghost predicate Recent(w: World) {
    Prompt(w) && forall p | p in w.workers && w.workers[p].Selected? :: w.clock <= w.workers[p].now + CLAIM_LEASE_MS
  }

  lemma {:induction false} StaysRecent(w: World, schedule: Schedule)
    requires Recent(w) && Possible(w, schedule) && NoTimePasses(schedule)
    ensures AlwaysPrompt(w, schedule)
    decreases |schedule|
  {
    if schedule != [] {
      assert schedule[0] in schedule;
      StaysRecent(Do(w, schedule[0].0, schedule[0].1), schedule[1..]);
    }
  }

  /** Two schedules, one after the other. */
  lemma {:induction false} Continues(w: World, a: Schedule, b: Schedule)
    requires Possible(w, a) && Possible(After(w, a), b)
    ensures Possible(w, a + b) && After(w, a + b) == After(After(w, a), b)
    decreases |a|
  {
    if a == [] {
      assert a + b == b;
    } else {
      assert (a + b)[1..] == a[1..] + b;
      Continues(Do(w, a[0].0, a[0].1), a[1..], b);
    }
  }

  lemma {:induction false} FewerClaimable(runs: Runs, now: nat, i: nat, r: Run)
    requires i < |runs| && Claimable(runs[i], now) && !Claimable(r, now)
    ensures CountClaimable(runs[i := r], now) == CountClaimable(runs, now) - 1
  {
    if i > 0 {
      FewerClaimable(runs[1..], now, i - 1, r);
      assert runs[i := r][1..] == runs[1..][i - 1 := r];
    } else {
      assert runs[i := r][1..] == runs[1..];
    }
  }

  /** An idle worker takes the oldest run, and comes to nothing with it. */
  lemma TakesAndCrashes(w: World, q: nat)
    requires q in w.workers && w.workers[q].Idle? && Oldest(w.runs, w.clock) < |w.runs|
    ensures var i := Oldest(w.runs, w.clock); var schedule := [(q, Select), (q, Take), (q, Crash)];
      && Possible(w, schedule)
      && After(w, schedule) == w.(runs := w.runs[i := w.runs[i].(state := Running, updated := w.clock)])
  {
    var i := Oldest(w.runs, w.clock);
    var one := Do(w, q, Select);
    var two := Do(one, q, Take);
    var three := Do(two, q, Crash);
    assert three.workers == w.workers;
    assert [(q, Select), (q, Take), (q, Crash)][1..] == [(q, Take), (q, Crash)];
    assert [(q, Take), (q, Crash)][1..] == [(q, Crash)] && [(q, Crash)][1..] == [];
    assert Possible(three, []) && After(three, []) == three;
    assert Possible(two, [(q, Crash)]) && After(two, [(q, Crash)]) == three;
    assert Possible(one, [(q, Take), (q, Crash)]) && After(one, [(q, Take), (q, Crash)]) == three;
  }

  /** Past its lease at `i`, a worker can be joined there: the runs before it are claimed first, one by one. */
  lemma {:induction false} OverdueIsJoined(w: World, p: nat, q: nat) returns (schedule: Schedule)
    requires p in w.workers && q in w.workers && p != q && w.workers[p].Working? && w.workers[q].Idle? && Owns(w, p)
    requires w.clock > w.workers[p].since + CLAIM_LEASE_MS
    ensures Possible(w, schedule) && NoTimePasses(schedule) && !Exclusive(After(w, schedule))
    decreases CountClaimable(w.runs, w.clock)
  {
    var i := Oldest(w.runs, w.clock);
    if i == w.workers[p].run {
      schedule := [(q, Select), (q, Take)];
      OverdueIsShared(w, p, q);
    } else {
      var first := [(q, Select), (q, Take), (q, Crash)];
      TakesAndCrashes(w, q);
      FewerClaimable(w.runs, w.clock, i, w.runs[i].(state := Running, updated := w.clock));
      var rest := OverdueIsJoined(After(w, first), p, q);
      Continues(w, first, rest);
      schedule := first + rest;
    }
  }

  /**
   * Without time passing, workers can come to share a run if and only if one of them is past its
   * lease: then another one, if need be after a crash, claims its way to that run.
   */
  lemma SharedIffOverdue(w: World, a: nat, b: nat)
    requires Leased(w) && NoneBetween(w) && a in w.workers && b in w.workers && a != b
    ensures (exists schedule :: Possible(w, schedule) && NoTimePasses(schedule) && !Exclusive(After(w, schedule)))
      <==> !Prompt(w)
  {
    if Prompt(w) {
      forall schedule | Possible(w, schedule) && NoTimePasses(schedule) ensures Exclusive(After(w, schedule)) {
        StaysRecent(w, schedule);
        StaysLeased(w, schedule);
      }
    } else {
      var p :| p in w.workers && w.workers[p].Working? && w.clock > w.workers[p].since + CLAIM_LEASE_MS;
      var q := if p == a then b else a;
      var idle := Do(w, q, Crash);
      assert Owns(w, p);
      var rest := OverdueIsJoined(idle, p, q);
      assert Possible(idle, []) && [(q, Crash)][1..] == [];
      assert Possible(w, [(q, Crash)]) && After(w, [(q, Crash)]) == idle;
      Continues(w, [(q, Crash)], rest);
    }
  }
}
