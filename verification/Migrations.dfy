/** `runMigrations`: forward-only migrations, by any number of processes that may crash at any point. */
module Migrations {
  import opened Wrappers

  /**
   * A migration file. A name is given by its place in the order `localeCompare` puts names in; the
   * checksum stands for the content.
   */
  datatype File = File(name: nat, checksum: nat)

  /** The bookkeeping table: names and checksums. */
  type Rows = map<nat, nat>

  /** The migrations directory of one deployment, in name order. */
  predicate IsDirectory(files: seq<File>) {
    forall i, k | 0 <= i < k < |files| :: files[i].name < files[k].name
  }

  function RowsOf(log: seq<File>): (r: Rows)
    ensures forall n :: n in r <==> exists f :: f in log && f.name == n
  {
    if log == [] then map[]
    else
      var last := log[|log| - 1];
      assert log == log[..|log| - 1] + [last];
      RowsOf(log[..|log| - 1])[last.name := last.checksum]
  }

  /** The files that a table does not know, in order. */
  function Fresh(known: Rows, files: seq<File>): (r: seq<File>)
    ensures forall f :: f in r <==> f in files && f.name !in known
  {
    if files == [] then []
    else
      var last := files[|files| - 1];
      assert files == files[..|files| - 1] + [last];
      Fresh(known, files[..|files| - 1]) + if last.name in known then [] else [last]
  }

  lemma FreshStep(known: Rows, files: seq<File>, i: nat)
    requires i < |files|
    ensures Fresh(known, files[..i + 1]) == Fresh(known, files[..i]) + if files[i].name in known then [] else [files[i]]
  {
    assert files[..i + 1][..i] == files[..i];
  }

  lemma {:induction false} NamesStep(known: Rows, files: seq<File>, i: nat)
    requires i < |files|
    ensures Names(Fresh(known, files[..i + 1])) ==
      Names(Fresh(known, files[..i])) + if files[i].name in known then [] else [files[i].name]
  {
    FreshStep(known, files, i);
  }

  /** No file was edited after the table recorded it. */
  predicate Unchanged(known: Rows, files: seq<File>) {
    forall f | f in files && f.name in known :: known[f.name] == f.checksum
  }

  /** How a run ends: by returning, or by one of the exceptions. */
  datatype Outcome =
    | Completed(applied: seq<nat>, alreadyApplied: nat)
    | ChangedFile(file: File)
    | StatementFailed(file: File)

  function Names(files: seq<File>): seq<nat> {
    seq(|files|, i requires 0 <= i < |files| => files[i].name)
  }

  // ----- one run, start to finish

  /** The database: the effects committed so far in order, the table, and who holds the advisory lock. */
  class Database {
    var log: seq<File>
    var rows: Rows
    var locked: bool

    ghost predicate Valid()
      reads this
    {
      rows == RowsOf(log)
    }

    /** A transaction: the statements and the row together, or nothing. */
    method Begin(file: File, succeeds: bool) returns (committed: bool)
      requires Valid()
      modifies this`log, this`rows
      ensures Valid() && committed == (succeeds && file.name !in old(rows))
      ensures log == old(log) + if committed then [file] else []
    {
      committed := succeeds && file.name !in rows;
      if committed {
        log := log + [file];
        rows := rows[file.name := file.checksum];
        assert log[..|log| - 1] == old(log);
      }
    }

    /** `runMigrations`, the lock being free; `succeeds` says which files' statements go through. */
    method RunMigrations(files: seq<File>, succeeds: nat -> bool) returns (outcome: Outcome)
      requires Valid() && IsDirectory(files) && !locked
      modifies this
      ensures Valid() && !locked
      ensures Ends(old(rows), files, old(log), log, outcome)
      ensures outcome.StatementFailed? ==> !succeeds(outcome.file.name)
      ensures outcome.Completed? ==> forall f | f in files && f.name !in old(rows) :: succeeds(f.name)
    {
      locked := true;
      var existing := rows;
      var applied: seq<nat> := [];
      outcome := Completed([], 0);
      Begins(existing, files, log);
      for i := 0 to |files|
        invariant Valid() && existing == old(rows)
        invariant Progress(existing, files, old(log), log, i)
        invariant applied == Names(Fresh(existing, files[..i]))
        invariant forall k | 0 <= k < i && files[k].name !in existing :: succeeds(files[k].name)
      {
        hide RowsOf, Progress, Ends, Fresh, Names;
        var file := files[i];
        NamesStep(existing, files, i);
        Stop(existing, files, old(log), log, i);
        if file.name in existing {
          if existing[file.name] != file.checksum {
            locked := false;
            return ChangedFile(file);
          }
          Skip(existing, files, old(log), log, i);
          continue;
        }
        NotYetIn(old(log), log, existing, files, i);
        Apply(existing, files, old(log), log, i);
        var committed := Begin(file, succeeds(file.name));
        if !committed {
          locked := false;
          return StatementFailed(file);
        }
        applied := applied + [file.name];
      }
      Stop(existing, files, old(log), log, |files|);
      assert files[..|files|] == files;
      locked := false;
      return Completed(applied, |existing|);
    }
  }

  /** The loop of a run before file `i`. */
  ghost predicate Progress(known: Rows, files: seq<File>, before: seq<File>, log: seq<File>, i: nat) {
    i <= |files| && known == RowsOf(before) && Unchanged(known, files[..i]) && log == before + Fresh(known, files[..i])
  }

  lemma Begins(known: Rows, files: seq<File>, log: seq<File>)
    requires known == RowsOf(log)
    ensures Progress(known, files, log, log, 0) && Fresh(known, files[..0]) == []
  {
    assert files[..0] == [] && log + [] == log;
  }

  lemma {:induction false} Skip(known: Rows, files: seq<File>, before: seq<File>, log: seq<File>, i: nat)
    requires Progress(known, files, before, log, i)
    requires i < |files| && files[i].name in known && known[files[i].name] == files[i].checksum
    ensures Progress(known, files, before, log, i + 1)
  {
    FreshStep(known, files, i);
    hide RowsOf, Fresh;
    assert Fresh(known, files[..i + 1]) == Fresh(known, files[..i]);
    assert files[..i + 1] == files[..i] + [files[i]];
  }

  lemma Apply(known: Rows, files: seq<File>, before: seq<File>, log: seq<File>, i: nat)
    requires Progress(known, files, before, log, i)
    requires i < |files| && files[i].name !in known
    ensures Progress(known, files, before, log + [files[i]], i + 1)
  {
    hide RowsOf;
    FreshStep(known, files, i);
    assert files[..i + 1] == files[..i] + [files[i]];
  }

  lemma {:induction false} Stop(known: Rows, files: seq<File>, before: seq<File>, log: seq<File>, i: nat)
    requires Progress(known, files, before, log, i)
    ensures i < |files| && files[i].name in known && known[files[i].name] != files[i].checksum ==>
      Ends(known, files, before, log, ChangedFile(files[i]))
    ensures i < |files| && files[i].name !in known ==> Ends(known, files, before, log, StatementFailed(files[i]))
    ensures i == |files| ==> Ends(known, files, before, log, Completed(Names(Fresh(known, files)), |known|))
  {
    hide RowsOf, Fresh, Names;
    assert i < |files| ==> StoppedAt(known, files, before, log, i);
    assert files[..|files|] == files;
  }

  /** What a run that found `before` and left `after` did, for each way it can end. */
  ghost predicate Ends(known: Rows, files: seq<File>, before: seq<File>, after: seq<File>, outcome: Outcome) {
    known == RowsOf(before) &&
    match outcome
    case Completed(applied, already) =>
      && Unchanged(known, files)
      && after == before + Fresh(known, files)
      && applied == Names(Fresh(known, files)) && already == |known|
    case ChangedFile(file) =>
      && file.name in known && known[file.name] != file.checksum
      && exists i | 0 <= i < |files| && files[i] == file :: StoppedAt(known, files, before, after, i)
    case StatementFailed(file) =>
      && file.name !in known
      && exists i | 0 <= i < |files| && files[i] == file :: StoppedAt(known, files, before, after, i)
  }

  /** The files before the one at `i` were dealt with, and nothing else was done. */
  ghost predicate StoppedAt(known: Rows, files: seq<File>, before: seq<File>, after: seq<File>, i: nat)
    requires i < |files|
  {
    Unchanged(known, files[..i]) && after == before + Fresh(known, files[..i])
  }

  lemma NotYetIn(before: seq<File>, log: seq<File>, known: Rows, files: seq<File>, i: nat)
    requires Progress(known, files, before, log, i) && IsDirectory(files)
    requires i < |files| && files[i].name !in known
    ensures files[i].name !in RowsOf(log)
  {
    forall f | f in log ensures f.name != files[i].name {
      if f in Fresh(known, files[..i]) {
        var k :| 0 <= k < i && files[k] == f;
      }
    }
  }

  // ----- many runs at once

  type Pid = nat

  /**
   * Where a process stands. `since` is how long the log was when the process read the table, kept
   * to speak about the run afterwards.
   */
  datatype Phase =
    | Idle
    | Locked
    | Scanning(known: Rows, since: nat, next: nat)
    | InTransaction(known: Rows, since: nat, next: nat)
    | Releasing(outcome: Outcome, known: Rows, since: nat, until: nat)
    | Finished(outcome: Outcome, known: Rows, since: nat, until: nat)
    | Crashed

  datatype World = World(log: seq<File>, rows: Rows, holder: Option<Pid>, phases: map<Pid, Phase>)

  /** Which directory each process was deployed with. */
  type Fleet = map<Pid, seq<File>>

  /**
   * One step of a process: taking the lock, reading the table, going to the next file, committing a
   * transaction or having it fail, releasing the lock. `Lose` is the lock going with its connection
   * while the process goes on over a new one; `Crash` ends the process, and with it any transaction.
   */
  datatype Step = Take | ReadTable | Visit | Commit | Fail | Release | Lose | Crash

  function Put(w: World, p: Pid, phase: Phase): World {
    w.(phases := w.phases[p := phase])
  }

  function Freed(w: World, p: Pid): World {
    if w.holder == Some(p) then w.(holder := None) else w
  }

  ghost predicate Enabled(fleet: Fleet, w: World, p: Pid, s: Step) {
    && p in w.phases && p in fleet
    && var phase := w.phases[p];
       match s
       case Take => phase.Idle? && w.holder.None?
       case ReadTable => phase.Locked?
       case Visit => phase.Scanning? && phase.next <= |fleet[p]|
       case Commit => phase.InTransaction? && phase.next < |fleet[p]| && fleet[p][phase.next].name !in w.rows
       case Fail => phase.InTransaction? && phase.next < |fleet[p]|
       case Release => phase.Releasing?
       case Lose => w.holder == Some(p)
       case Crash => !phase.Finished? && !phase.Crashed?
  }

  ghost function Do(fleet: Fleet, w: World, p: Pid, s: Step): World
    requires Enabled(fleet, w, p, s)
  {
    var phase, files := w.phases[p], fleet[p];
    match s
    case Take => Put(w, p, Locked).(holder := Some(p))
    case ReadTable => Put(w, p, Scanning(w.rows, |w.log|, 0))
    case Visit =>
      var known, since, next := phase.known, phase.since, phase.next;
      if next == |files| then
        Put(w, p, Releasing(Completed(Names(Fresh(known, files)), |known|), known, since, |w.log|))
      else if files[next].name !in known then Put(w, p, InTransaction(known, since, next))
      else if known[files[next].name] != files[next].checksum then
        Put(w, p, Releasing(ChangedFile(files[next]), known, since, |w.log|))
      else Put(w, p, Scanning(known, since, next + 1))
    case Commit =>
      var file := files[phase.next];
      Put(w, p, Scanning(phase.known, phase.since, phase.next + 1))
        .(log := w.log + [file], rows := w.rows[file.name := file.checksum])
    case Fail => Put(w, p, Releasing(StatementFailed(files[phase.next]), phase.known, phase.since, |w.log|))
    case Release => Freed(Put(w, p, Finished(phase.outcome, phase.known, phase.since, phase.until)), p)
    case Lose => w.(holder := None)
    case Crash => Freed(Put(w, p, Crashed), p)
  }

  type Schedule = seq<(Pid, Step)>

  ghost predicate Possible(fleet: Fleet, w: World, schedule: Schedule)
    decreases |schedule|
  {
    schedule == [] ||
    (&& Enabled(fleet, w, schedule[0].0, schedule[0].1)
     && Possible(fleet, Do(fleet, w, schedule[0].0, schedule[0].1), schedule[1..]))
  }

  ghost function After(fleet: Fleet, w: World, schedule: Schedule): World
    requires Possible(fleet, w, schedule)
    decreases |schedule|
  {
    if schedule == [] then w else After(fleet, Do(fleet, w, schedule[0].0, schedule[0].1), schedule[1..])
  }

  /** Nobody has started, and the table tells what the database has been through. */
  ghost predicate Initial(fleet: Fleet, w: World) {
    && w.holder == None
    && Once(w)
    && w.phases.Keys == fleet.Keys
    && forall p | p in fleet :: w.phases[p] == Idle && IsDirectory(fleet[p])
  }

  // ----- no effect twice, and no effect without its row

  ghost predicate Once(w: World) {
    && w.rows == RowsOf(w.log)
    && forall i, k | 0 <= i < k < |w.log| :: w.log[i].name != w.log[k].name
  }

  lemma OnceStep(fleet: Fleet, w: World, p: Pid, s: Step)
    requires Enabled(fleet, w, p, s) && Once(w)
    ensures Once(Do(fleet, w, p, s)) && w.log <= Do(fleet, w, p, s).log
  {
    if s == Commit {
      var file := fleet[p][w.phases[p].next];
      assert (w.log + [file])[..|w.log|] == w.log;
      forall i | 0 <= i < |w.log| ensures w.log[i].name != file.name {
        assert w.log[i] in w.log;
      }
    }
  }

  /** In every interleaving, with crashes and lost locks, effects and rows agree and no file runs twice. */
  lemma {:induction false} NeverTwice(fleet: Fleet, w: World, schedule: Schedule)
    requires Once(w) && Possible(fleet, w, schedule)
    ensures Once(After(fleet, w, schedule)) && w.log <= After(fleet, w, schedule).log
    decreases |schedule|
  {
    if schedule != [] {
      OnceStep(fleet, w, schedule[0].0, schedule[0].1);
      NeverTwice(fleet, Do(fleet, w, schedule[0].0, schedule[0].1), schedule[1..]);
    }
  }

  // ----- each run does its own work

  /** What each process has committed, one step later. */
  ghost function Noted(fleet: Fleet, w: World, p: Pid, s: Step, made: map<Pid, seq<File>>): map<Pid, seq<File>>
    requires Enabled(fleet, w, p, s) && made.Keys == fleet.Keys
  {
    if s == Commit then made[p := made[p] + [fleet[p][w.phases[p].next]]] else made
  }

  /** What each process has committed at the end of a schedule. */
  ghost function Made(fleet: Fleet, w: World, schedule: Schedule, made: map<Pid, seq<File>>): (r: map<Pid, seq<File>>)
    requires Possible(fleet, w, schedule) && made.Keys == fleet.Keys
    ensures r.Keys == fleet.Keys
    decreases |schedule|
  {
    if schedule == [] then made
    else
      var (p, s) := schedule[0];
      Made(fleet, Do(fleet, w, p, s), schedule[1..], Noted(fleet, w, p, s, made))
  }

  ghost function NothingMade(fleet: Fleet): map<Pid, seq<File>> {
    map p | p in fleet :: []
  }

  /** A run that read the table at `since` has passed the files before `next`, having committed `mine`. */
  ghost predicate Passed(files: seq<File>, log: seq<File>, since: nat, next: nat, mine: seq<File>) {
    since <= |log| && Progress(RowsOf(log[..since]), files, log[..since], log[..since] + mine, next)
  }

  /** A run that read the table at `since` and committed `mine` did what it does alone on what was there then. */
  ghost predicate Did(files: seq<File>, log: seq<File>, since: nat, until: nat, mine: seq<File>, outcome: Outcome) {
    since <= until <= |log| && Ends(RowsOf(log[..since]), files, log[..since], log[..since] + mine, outcome)
  }

  /** Of what a process commits, each is its own file, in order, and none lies behind a changed or failing one. */
  ghost predicate OwnWork(fleet: Fleet, w: World, p: Pid, mine: seq<File>)
    requires p in w.phases && p in fleet
  {
    var files, log := fleet[p], w.log;
    match w.phases[p]
    case Idle => mine == []
    case Locked => mine == []
    case Scanning(known, since, next) =>
      Passed(files, log, since, next, mine) && known == RowsOf(log[..since])
    case InTransaction(known, since, next) =>
      && Passed(files, log, since, next, mine) && known == RowsOf(log[..since])
      && next < |files| && files[next].name !in known
    case Releasing(outcome, known, since, until) => Did(files, log, since, until, mine, outcome)
    case Finished(outcome, known, since, until) => Did(files, log, since, until, mine, outcome)
    case Crashed => exists since, next :: Passed(files, log, since, next, mine)
  }

  ghost predicate AllOwnWork(fleet: Fleet, w: World, made: map<Pid, seq<File>>) {
    && w.phases.Keys == fleet.Keys == made.Keys
    && forall p | p in fleet :: IsDirectory(fleet[p]) && OwnWork(fleet, w, p, made[p])
  }

  lemma NothingPassed(files: seq<File>, log: seq<File>)
    ensures Passed(files, log, |log|, 0, [])
  {
    assert log[..|log|] == log;
    Begins(RowsOf(log), files, log);
    assert log + [] == log;
  }

  /** A run that ended has passed the files before the one it stopped at. */
  lemma DidPass(files: seq<File>, log: seq<File>, since: nat, until: nat, mine: seq<File>, outcome: Outcome)
    requires Did(files, log, since, until, mine, outcome)
    ensures exists next :: Passed(files, log, since, next, mine)
  {
    var before := log[..since];
    hide RowsOf, Fresh, Names;
    if outcome.Completed? {
      assert files[..|files|] == files;
      assert Passed(files, log, since, |files|, mine);
    } else {
      var i :| 0 <= i < |files| && files[i] == outcome.file
        && StoppedAt(RowsOf(before), files, before, before + mine, i);
      assert Passed(files, log, since, i, mine);
    }
  }

  lemma CommitWorks(fleet: Fleet, w: World, p: Pid, mine: seq<File>)
    requires Enabled(fleet, w, p, Commit) && OwnWork(fleet, w, p, mine)
    ensures OwnWork(fleet, Do(fleet, w, p, Commit), p, mine + [fleet[p][w.phases[p].next]])
  {
    var phase, files, log := w.phases[p], fleet[p], w.log;
    hide RowsOf, Fresh, Names, Progress, Ends;
    var file := files[phase.next];
    var before := log[..phase.since];
    assert (log + [file])[..phase.since] == before && before + (mine + [file]) == before + mine + [file];
    Apply(phase.known, files, before, before + mine, phase.next);
  }

  lemma VisitWorks(fleet: Fleet, w: World, p: Pid, mine: seq<File>)
    requires Enabled(fleet, w, p, Visit) && OwnWork(fleet, w, p, mine)
    ensures OwnWork(fleet, Do(fleet, w, p, Visit), p, mine)
  {
    var phase, files := w.phases[p], fleet[p];
    hide RowsOf, Fresh, Names, Progress, Ends;
    assert Do(fleet, w, p, Visit).log == w.log;
    var before := w.log[..phase.since];
    Stop(phase.known, files, before, before + mine, phase.next);
    if phase.next < |files| && files[phase.next].name in phase.known
      && phase.known[files[phase.next].name] == files[phase.next].checksum {
      Skip(phase.known, files, before, before + mine, phase.next);
    }
  }

  lemma FailWorks(fleet: Fleet, w: World, p: Pid, mine: seq<File>)
    requires Enabled(fleet, w, p, Fail) && OwnWork(fleet, w, p, mine)
    ensures OwnWork(fleet, Do(fleet, w, p, Fail), p, mine)
  {
    var phase := w.phases[p];
    hide RowsOf, Fresh, Names, Progress, Ends;
    assert Do(fleet, w, p, Fail).log == w.log;
    var before := w.log[..phase.since];
    Stop(phase.known, fleet[p], before, before + mine, phase.next);
  }

  /** Wherever a process stands, it has passed some files. */
  lemma HasPassed(fleet: Fleet, w: World, p: Pid, mine: seq<File>) returns (since: nat, next: nat)
    requires p in w.phases && p in fleet && OwnWork(fleet, w, p, mine)
    ensures Passed(fleet[p], w.log, since, next, mine)
  {
    var phase := w.phases[p];
    hide RowsOf, Passed, Did;
    match phase
    case Scanning(_, s, n) => since, next := s, n;
    case InTransaction(_, s, n) => since, next := s, n;
    case Releasing(outcome, _, s, until) =>
      DidPass(fleet[p], w.log, s, until, mine, outcome);
      since := s;
      next :| Passed(fleet[p], w.log, since, next, mine);
    case Finished(outcome, _, s, until) =>
      DidPass(fleet[p], w.log, s, until, mine, outcome);
      since := s;
      next :| Passed(fleet[p], w.log, since, next, mine);
    case Crashed => since, next :| Passed(fleet[p], w.log, since, next, mine);
    case _ =>
      NothingPassed(fleet[p], w.log);
      since, next := |w.log|, 0;
  }

  lemma CrashWorks(fleet: Fleet, w: World, p: Pid, mine: seq<File>)
    requires Enabled(fleet, w, p, Crash) && OwnWork(fleet, w, p, mine)
    ensures OwnWork(fleet, Do(fleet, w, p, Crash), p, mine)
  {
    var since, next := HasPassed(fleet, w, p, mine);
    var w' := Do(fleet, w, p, Crash);
    assert w'.log == w.log && w'.phases[p] == Crashed;
    hide Passed, Do;
  }

  lemma ReadWorks(fleet: Fleet, w: World, p: Pid)
    requires Once(w) && Enabled(fleet, w, p, ReadTable)
    ensures OwnWork(fleet, Do(fleet, w, p, ReadTable), p, [])
  {
    hide RowsOf, Fresh, Names, Progress, Ends, Passed;
    assert w.log[..|w.log|] == w.log;
    NothingPassed(fleet[p], w.log);
  }

  lemma LockWorks(fleet: Fleet, w: World, p: Pid, s: Step, mine: seq<File>)
    requires Enabled(fleet, w, p, s) && (s == Take || s == Release || s == Lose) && OwnWork(fleet, w, p, mine)
    ensures OwnWork(fleet, Do(fleet, w, p, s), p, mine)
  {
    hide RowsOf, Fresh, Names, Passed, Did;
  }

  lemma MoverWorks(fleet: Fleet, w: World, p: Pid, s: Step, mine: seq<File>)
    requires Once(w) && Enabled(fleet, w, p, s) && OwnWork(fleet, w, p, mine)
    ensures OwnWork(fleet, Do(fleet, w, p, s), p,
      mine + if s == Commit then [fleet[p][w.phases[p].next]] else [])
  {
    assert mine + [] == mine;
    assert s == ReadTable ==> mine == [];
    hide Once, OwnWork, Do;
    match s
    case Commit => CommitWorks(fleet, w, p, mine);
    case Visit => VisitWorks(fleet, w, p, mine);
    case Fail => FailWorks(fleet, w, p, mine);
    case Crash => CrashWorks(fleet, w, p, mine);
    case ReadTable => ReadWorks(fleet, w, p);
    case Take => LockWorks(fleet, w, p, s, mine);
    case Release => LockWorks(fleet, w, p, s, mine);
    case Lose => LockWorks(fleet, w, p, s, mine);
  }

  /** What others do does not change what a process did. */
  lemma OthersWork(fleet: Fleet, w: World, w': World, q: Pid, mine: seq<File>)
    requires q in fleet && q in w.phases && q in w'.phases && w'.phases[q] == w.phases[q] && w.log <= w'.log
    requires OwnWork(fleet, w, q, mine)
    ensures OwnWork(fleet, w', q, mine)
  {
    hide RowsOf, Progress, Ends;
    assert forall n | 0 <= n <= |w.log| :: w'.log[..n] == w.log[..n];
    if w.phases[q].Crashed? {
      var since, next :| Passed(fleet[q], w.log, since, next, mine);
      assert Passed(fleet[q], w'.log, since, next, mine);
    }
  }

  lemma OthersStay(fleet: Fleet, w: World, p: Pid, s: Step)
    requires Enabled(fleet, w, p, s)
    ensures var w' := Do(fleet, w, p, s);
      w'.phases.Keys == w.phases.Keys && forall q | q in w.phases && q != p :: w'.phases[q] == w.phases[q]
  {
    hide RowsOf, Fresh, Names;
  }

  lemma AllOthersWork(
      fleet: Fleet, w: World, w': World, p: Pid, made: map<Pid, seq<File>>, made': map<Pid, seq<File>>)
    requires AllOwnWork(fleet, w, made) && p in fleet && made'.Keys == made.Keys && w'.phases.Keys == w.phases.Keys
    requires w.log <= w'.log && OwnWork(fleet, w', p, made'[p])
    requires forall q | q in fleet && q != p :: w'.phases[q] == w.phases[q] && made'[q] == made[q]
    ensures AllOwnWork(fleet, w', made')
  {
    hide OwnWork, IsDirectory;
    forall q | q in fleet ensures OwnWork(fleet, w', q, made'[q]) {
      if q != p {
        OthersWork(fleet, w, w', q, made[q]);
      }
    }
  }

  /** Every step of every process keeps it, the loss of a lock included. */
  lemma StepWorks(fleet: Fleet, w: World, p: Pid, s: Step, made: map<Pid, seq<File>>)
    requires Once(w) && AllOwnWork(fleet, w, made) && Enabled(fleet, w, p, s)
    ensures AllOwnWork(fleet, Do(fleet, w, p, s), Noted(fleet, w, p, s, made))
  {
    hide Once, OwnWork, Do, IsDirectory;
    OnceStep(fleet, w, p, s);
    OthersStay(fleet, w, p, s);
    MoverWorks(fleet, w, p, s, made[p]);
    var made' := Noted(fleet, w, p, s, made);
    assert made'[p] == made[p] + if s == Commit then [fleet[p][w.phases[p].next]] else [];
    AllOthersWork(fleet, w, Do(fleet, w, p, s), p, made, made');
  }

  lemma {:induction false} StaysOwnWork(fleet: Fleet, w: World, schedule: Schedule, made: map<Pid, seq<File>>)
    requires Once(w) && AllOwnWork(fleet, w, made) && Possible(fleet, w, schedule)
    ensures AllOwnWork(fleet, After(fleet, w, schedule), Made(fleet, w, schedule, made))
    decreases |schedule|
  {
    if schedule != [] {
      var (p, s) := schedule[0];
      OnceStep(fleet, w, p, s);
      StepWorks(fleet, w, p, s, made);
      StaysOwnWork(fleet, Do(fleet, w, p, s), schedule[1..], Noted(fleet, w, p, s, made));
    }
  }

  lemma {:induction false} FreshInOrder(known: Rows, files: seq<File>)
    requires IsDirectory(files)
    ensures IsDirectory(Fresh(known, files))
  {
    if files != [] {
      var n := |files| - 1;
      FreshInOrder(known, files[..n]);
      forall f | f in Fresh(known, files[..n]) ensures f.name < files[n].name {
        var k :| 0 <= k < n && files[k] == f;
      }
    }
  }

  lemma PassedInOrder(files: seq<File>, log: seq<File>, since: nat, next: nat, mine: seq<File>)
    requires IsDirectory(files) && Passed(files, log, since, next, mine)
    ensures IsDirectory(mine)
  {
    hide RowsOf, Fresh;
    var before := log[..since];
    var rest := Fresh(RowsOf(before), files[..next]);
    FreshInOrder(RowsOf(before), files[..next]);
    assert (before + mine)[since..] == mine && (before + rest)[since..] == rest;
  }

  lemma OwnInOrder(fleet: Fleet, w: World, p: Pid, mine: seq<File>)
    requires p in w.phases && p in fleet && IsDirectory(fleet[p]) && OwnWork(fleet, w, p, mine)
    ensures IsDirectory(mine)
  {
    hide Progress, Did, Passed;
    var phase := w.phases[p];
    if phase.Releasing? || phase.Finished? {
      DidPass(fleet[p], w.log, phase.since, phase.until, mine, phase.outcome);
      var next :| Passed(fleet[p], w.log, phase.since, next, mine);
      PassedInOrder(fleet[p], w.log, phase.since, next, mine);
    } else if phase.Crashed? {
      var since, next :| Passed(fleet[p], w.log, since, next, mine);
      PassedInOrder(fleet[p], w.log, since, next, mine);
    } else if phase.Scanning? || phase.InTransaction? {
      PassedInOrder(fleet[p], w.log, phase.since, phase.next, mine);
    }
  }

  lemma InitialWork(fleet: Fleet, w: World)
    requires Initial(fleet, w)
    ensures AllOwnWork(fleet, w, NothingMade(fleet))
  {
  }

  /**
   * In every interleaving of any number of runs, with crashes anywhere and locks lost at any moment,
   * each process commits its own files only, in name order: those that the table it read did not
   * know, up to the file it has come to, and none from a changed or failing file on.
   */
  lemma EachRunItsOwn(fleet: Fleet, w: World, schedule: Schedule, p: Pid)
    requires Initial(fleet, w) && Possible(fleet, w, schedule) && p in fleet
    ensures var end := After(fleet, w, schedule); var mine := Made(fleet, w, schedule, NothingMade(fleet))[p];
      p in end.phases && OwnWork(fleet, end, p, mine) && IsDirectory(mine)
  {
    InitialWork(fleet, w);
    StaysOwnWork(fleet, w, schedule, NothingMade(fleet));
    hide Initial, OwnWork, IsDirectory, Possible, After, Made;
    var end := After(fleet, w, schedule);
    OwnInOrder(fleet, end, p, Made(fleet, w, schedule, NothingMade(fleet))[p]);
  }

  // ----- with locks kept, nothing comes in between

  /** Between what a process found and where it is, the log has what it committed and nothing else. */
  ghost predicate Undisturbed(w: World, p: Pid, mine: seq<File>)
    requires p in w.phases
  {
    match w.phases[p]
    case Idle => w.holder != Some(p)
    case Crashed => w.holder != Some(p)
    case Locked => w.holder == Some(p) && mine == []
    case Scanning(_, since, _) => w.holder == Some(p) && since <= |w.log| && w.log == w.log[..since] + mine
    case InTransaction(_, since, _) => w.holder == Some(p) && since <= |w.log| && w.log == w.log[..since] + mine
    case Releasing(_, _, since, until) =>
      w.holder == Some(p) && since <= until <= |w.log| && w.log[..until] == w.log[..since] + mine
    case Finished(_, _, since, until) =>
      w.holder != Some(p) && since <= until <= |w.log| && w.log[..until] == w.log[..since] + mine
  }

  ghost predicate AllUndisturbed(fleet: Fleet, w: World, made: map<Pid, seq<File>>) {
    && w.phases.Keys == fleet.Keys == made.Keys
    && (forall p | p in fleet :: Undisturbed(w, p, made[p]))
    && (forall p | p in fleet :: w.phases[p].Idle? ==> made[p] == [])
  }

  /** A process that does not move is not disturbed by the one that does: they are not both at work. */
  lemma OthersUndisturbed(w: World, w': World, p: Pid, q: Pid, mine: seq<File>)
    requires q in w.phases && Undisturbed(w, q, mine) && p != q
    requires q in w'.phases && w'.phases[q] == w.phases[q] && w.log <= w'.log
    requires w.holder == Some(p) || w'.log == w.log
    requires w'.holder == w.holder || w.holder == Some(p) || (w.holder == None && w'.holder == Some(p))
    requires w'.holder == Some(q) ==> w.holder == Some(q)
    ensures Undisturbed(w', q, mine)
  {
    assert forall n | 0 <= n <= |w.log| :: w'.log[..n] == w.log[..n];
  }

  lemma MoverUndisturbed(fleet: Fleet, w: World, p: Pid, s: Step, mine: seq<File>)
    requires Enabled(fleet, w, p, s) && s != Lose
    requires Undisturbed(w, p, mine) && (w.phases[p].Idle? ==> mine == [])
    ensures !Do(fleet, w, p, s).phases[p].Idle?
    ensures Undisturbed(Do(fleet, w, p, s), p, mine + if s == Commit then [fleet[p][w.phases[p].next]] else [])
  {
    hide RowsOf, Fresh, Names;
    var log := w.log;
    assert mine + [] == mine && log[..|log|] == log;
    if s == Commit {
      var file, since := fleet[p][w.phases[p].next], w.phases[p].since;
      assert (log + [file])[..since] == log[..since] && log[..since] + (mine + [file]) == log[..since] + mine + [file];
    }
  }

  /** Only the holder of the lock, or a process taking it when it is free, moves log or lock. */
  lemma MoverHolds(fleet: Fleet, w: World, p: Pid, s: Step, mine: seq<File>)
    requires Enabled(fleet, w, p, s) && s != Lose && Undisturbed(w, p, mine)
    ensures var w' := Do(fleet, w, p, s);
      && (w.holder == Some(p) || w'.log == w.log)
      && (w'.holder == w.holder || w.holder == Some(p) || (w.holder == None && w'.holder == Some(p)))
      && (forall q | q != p && w'.holder == Some(q) :: w.holder == Some(q))
  {
    hide RowsOf, Fresh, Names;
  }

  lemma AllOthersUndisturbed(
      fleet: Fleet, w: World, w': World, p: Pid, made: map<Pid, seq<File>>, made': map<Pid, seq<File>>)
    requires AllUndisturbed(fleet, w, made) && p in fleet
    requires made'.Keys == made.Keys && w'.phases.Keys == w.phases.Keys && w.log <= w'.log
    requires Undisturbed(w', p, made'[p]) && (w'.phases[p].Idle? ==> made'[p] == [])
    requires forall q | q in fleet && q != p :: w'.phases[q] == w.phases[q] && made'[q] == made[q]
    requires w.holder == Some(p) || w'.log == w.log
    requires w'.holder == w.holder || w.holder == Some(p) || (w.holder == None && w'.holder == Some(p))
    requires forall q | q != p && w'.holder == Some(q) :: w.holder == Some(q)
    ensures AllUndisturbed(fleet, w', made')
  {
    hide Undisturbed;
    forall q | q in fleet ensures Undisturbed(w', q, made'[q]) && (w'.phases[q].Idle? ==> made'[q] == []) {
      if q != p {
        OthersUndisturbed(w, w', p, q, made[q]);
      }
    }
  }

  lemma StepUndisturbed(fleet: Fleet, w: World, p: Pid, s: Step, made: map<Pid, seq<File>>)
    requires Once(w) && AllUndisturbed(fleet, w, made) && Enabled(fleet, w, p, s) && s != Lose
    ensures AllUndisturbed(fleet, Do(fleet, w, p, s), Noted(fleet, w, p, s, made))
  {
    hide Once, Undisturbed, Do;
    OnceStep(fleet, w, p, s);
    OthersStay(fleet, w, p, s);
    MoverHolds(fleet, w, p, s, made[p]);
    MoverUndisturbed(fleet, w, p, s, made[p]);
    var made' := Noted(fleet, w, p, s, made);
    assert made'[p] == made[p] + if s == Commit then [fleet[p][w.phases[p].next]] else [];
    AllOthersUndisturbed(fleet, w, Do(fleet, w, p, s), p, made, made');
  }

  ghost predicate KeepsLocks(schedule: Schedule) {
    forall e | e in schedule :: e.1 != Lose
  }

  lemma {:induction false} StaysUndisturbed(fleet: Fleet, w: World, schedule: Schedule, made: map<Pid, seq<File>>)
    requires Once(w) && AllUndisturbed(fleet, w, made) && Possible(fleet, w, schedule) && KeepsLocks(schedule)
    ensures AllUndisturbed(fleet, After(fleet, w, schedule), Made(fleet, w, schedule, made))
    decreases |schedule|
  {
    if schedule != [] {
      var (p, s) := schedule[0];
      assert schedule[0] in schedule;
      OnceStep(fleet, w, p, s);
      StepUndisturbed(fleet, w, p, s, made);
      StaysUndisturbed(fleet, Do(fleet, w, p, s), schedule[1..], Noted(fleet, w, p, s, made));
    }
  }

  /** A run took the database from `log[..since]` to `log[..until]` as it does alone, by committing `mine`. */
  ghost predicate RanAlone(
      files: seq<File>, log: seq<File>, since: nat, until: nat, mine: seq<File>, outcome: Outcome)
  {
    && since <= until <= |log| && log[since..until] == mine
    && Ends(RowsOf(log[..since]), files, log[..since], log[..until], outcome)
  }

  lemma InitiallyUndisturbed(fleet: Fleet, w: World)
    requires Initial(fleet, w)
    ensures Once(w) && AllUndisturbed(fleet, w, NothingMade(fleet))
  {
  }

  lemma WorkedAlone(fleet: Fleet, w: World, p: Pid, mine: seq<File>)
    requires p in fleet && p in w.phases && w.phases[p].Finished?
    requires OwnWork(fleet, w, p, mine) && Undisturbed(w, p, mine)
    ensures var run := w.phases[p]; RanAlone(fleet[p], w.log, run.since, run.until, mine, run.outcome)
  {
    hide Ends, RowsOf;
    var run := w.phases[p];
    assert w.log[run.since..run.until] == w.log[..run.until][run.since..];
  }

  /**
   * In every interleaving of any number of runs, with crashes anywhere, but no lock lost, each run
   * that ended did to the database what `runMigrations` does alone: what came into the log between
   * its start and its end is what it committed, one file after the other.
   */
  lemma EachRunAlone(fleet: Fleet, w: World, schedule: Schedule, p: Pid)
    requires Initial(fleet, w) && Possible(fleet, w, schedule) && KeepsLocks(schedule)
    requires p in fleet && p in After(fleet, w, schedule).phases && After(fleet, w, schedule).phases[p].Finished?
    ensures var end := After(fleet, w, schedule); var run := end.phases[p];
      RanAlone(fleet[p], end.log, run.since, run.until, Made(fleet, w, schedule, NothingMade(fleet))[p], run.outcome)
  {
    hide OwnWork, Undisturbed, KeepsLocks, RanAlone, Possible, After, Made, NothingMade, Initial, Once;
    EachRunItsOwn(fleet, w, schedule, p);
    InitiallyUndisturbed(fleet, w);
    StaysUndisturbed(fleet, w, schedule, NothingMade(fleet));
    WorkedAlone(fleet, After(fleet, w, schedule), p, Made(fleet, w, schedule, NothingMade(fleet))[p]);
  }

  // ----- a process that is left alone gets through

  /** Steps of one process, none of them a failure. */
  ghost predicate Untroubled(schedule: Schedule, p: Pid) {
    forall e | e in schedule :: e.0 == p && e.1 != Fail && e.1 != Lose && e.1 != Crash
  }

  lemma {:induction false} Continues(fleet: Fleet, w: World, a: Schedule, b: Schedule)
    requires Possible(fleet, w, a) && Possible(fleet, After(fleet, w, a), b)
    ensures Possible(fleet, w, a + b) && After(fleet, w, a + b) == After(fleet, After(fleet, w, a), b)
    decreases |a|
  {
    hide Enabled, Do;
    if a == [] {
      assert a + b == b;
    } else {
      assert (a + b)[1..] == a[1..] + b;
      Continues(fleet, Do(fleet, w, a[0].0, a[0].1), a[1..], b);
    }
  }

  lemma OneStep(fleet: Fleet, w: World, p: Pid, s: Step)
    requires Enabled(fleet, w, p, s)
    ensures Possible(fleet, w, [(p, s)]) && After(fleet, w, [(p, s)]) == Do(fleet, w, p, s)
  {
    hide Enabled, Do;
    assert [(p, s)][1..] == [];
    assert Possible(fleet, Do(fleet, w, p, s), []);
  }

  /** A run over files of which none was edited and none else has come in since it read the table. */
  ghost predicate Ready(fleet: Fleet, w: World, p: Pid) {
    && p in w.phases && p in fleet && w.phases[p].Scanning? && IsDirectory(fleet[p])
    && var files, known, next := fleet[p], w.phases[p].known, w.phases[p].next;
       next <= |files| && Unchanged(known, files)
       && forall k | next <= k < |files| && files[k].name !in known :: files[k].name !in w.rows
  }

  lemma NextFile(fleet: Fleet, w: World, p: Pid) returns (schedule: Schedule)
    requires Ready(fleet, w, p) && w.phases[p].next < |fleet[p]|
    ensures Untroubled(schedule, p) && Possible(fleet, w, schedule)
    ensures Ready(fleet, After(fleet, w, schedule), p)
    ensures After(fleet, w, schedule).phases[p].next == w.phases[p].next + 1
  {
    var files, known, next := fleet[p], w.phases[p].known, w.phases[p].next;
    hide Possible, After;
    assert files[next] in files;
    var visited := Do(fleet, w, p, Visit);
    OneStep(fleet, w, p, Visit);
    schedule := [(p, Visit)];
    if files[next].name !in known {
      OneStep(fleet, visited, p, Commit);
      Continues(fleet, w, schedule, [(p, Commit)]);
      schedule := schedule + [(p, Commit)];
    }
  }

  lemma {:induction false} Completes(fleet: Fleet, w: World, p: Pid) returns (schedule: Schedule)
    requires Ready(fleet, w, p)
    ensures Untroubled(schedule, p) && Possible(fleet, w, schedule)
    ensures var end := After(fleet, w, schedule);
      p in end.phases && end.phases[p].Finished? && end.phases[p].outcome.Completed?
    decreases |fleet[p]| - w.phases[p].next
  {
    hide Possible, After;
    if w.phases[p].next < |fleet[p]| {
      schedule := NextFile(fleet, w, p);
      var rest := Completes(fleet, After(fleet, w, schedule), p);
      Continues(fleet, w, schedule, rest);
      schedule := schedule + rest;
    } else {
      OneStep(fleet, w, p, Visit);
      OneStep(fleet, Do(fleet, w, p, Visit), p, Release);
      schedule := [(p, Visit)] + [(p, Release)];
      Continues(fleet, w, [(p, Visit)], [(p, Release)]);
    }
  }

  /** From the start, a process whose files nobody edited can complete by itself. */
  lemma AloneItCompletes(fleet: Fleet, w: World, p: Pid) returns (schedule: Schedule)
    requires Initial(fleet, w) && p in fleet && Unchanged(w.rows, fleet[p])
    ensures Untroubled(schedule, p) && Possible(fleet, w, schedule)
    ensures var end := After(fleet, w, schedule);
      p in end.phases && end.phases[p].Finished? && end.phases[p].outcome.Completed?
  {
    hide Possible, After, RowsOf;
    var locked := Do(fleet, w, p, Take);
    var reading := Do(fleet, locked, p, ReadTable);
    OneStep(fleet, w, p, Take);
    OneStep(fleet, locked, p, ReadTable);
    Continues(fleet, w, [(p, Take)], [(p, ReadTable)]);
    schedule := [(p, Take)] + [(p, ReadTable)];
    var rest := Completes(fleet, reading, p);
    Continues(fleet, w, schedule, rest);
    schedule := schedule + rest;
  }

  // ----- one final state

  /** The table after a prefix knows exactly the files of the prefix. */
  lemma KnownPrefix(final: seq<File>, m: nat, k: nat)
    requires IsDirectory(final) && m <= |final| && k < |final|
    ensures final[k].name in RowsOf(final[..m]) <==> k < m
  {
    if k < m {
      assert final[..m][k] == final[k] && final[k] in final[..m];
    } else {
      forall f | f in final[..m] ensures f.name != final[k].name {
        var i :| 0 <= i < m && final[i] == f;
      }
    }
  }

  lemma OneMoreFresh(known: Rows, final: seq<File>, m: nat, k: nat)
    requires m <= |final| && k < |final|
    requires final[k].name in known <==> k < m
    requires Fresh(known, final[..k]) == if k <= m then [] else final[m..k]
    ensures Fresh(known, final[..k + 1]) == if k + 1 <= m then [] else final[m..k + 1]
  {
    hide Fresh;
    FreshStep(known, final, k);
    if k > m {
      assert final[m..k + 1] == final[m..k] + [final[k]];
    }
  }

  lemma FreshNone(known: Rows)
    ensures Fresh(known, []) == []
  {
  }

  /** Of a directory whose first `m` files are known, the rest is fresh. */
  lemma {:induction false} FreshRest(known: Rows, final: seq<File>, m: nat, n: nat)
    requires m <= |final| && n <= |final|
    requires forall k | 0 <= k < |final| :: final[k].name in known <==> k < m
    ensures Fresh(known, final[..n]) == if n <= m then [] else final[m..n]
  {
    FreshNone(known);
    hide Fresh;
    if n == 0 {
      assert final[..n] == [];
    } else {
      FreshRest(known, final, m, n - 1);
      OneMoreFresh(known, final, m, n - 1);
    }
  }

  lemma FreshPrefix(final: seq<File>, m: nat, n: nat)
    requires IsDirectory(final) && m <= |final| && n <= |final|
    ensures Fresh(RowsOf(final[..m]), final[..n]) == if n <= m then [] else final[m..n]
  {
    var known := RowsOf(final[..m]);
    forall k | 0 <= k < |final| ensures final[k].name in known <==> k < m {
      KnownPrefix(final, m, k);
    }
    hide RowsOf, Fresh;
    FreshRest(known, final, m, n);
  }

  /** A completed run reaches the state of a clean one just when what was there is where a clean one starts. */
  lemma CleanAfter(before: seq<File>, files: seq<File>, after: seq<File>, outcome: Outcome)
    requires IsDirectory(files) && outcome.Completed?
    requires Ends(RowsOf(before), files, before, after, outcome)
    ensures after == files <==> before <= files
  {
    hide RowsOf, Fresh, Names, IsDirectory;
    if before <= files {
      FreshPrefix(files, |before|, |files|);
      assert files[..|before|] == before && files[..|files|] == files;
      assert files == files[..|before|] + files[|before|..];
    }
  }

  /** Deployments in which new files sort after those of the older ones. */
  ghost predicate ForwardOnly(fleet: Fleet, final: seq<File>) {
    IsDirectory(final) && forall p | p in fleet :: fleet[p] <= final
  }

  /** What a process on the way knows: every file it has passed, and each of a completed run, is in the table. */
  ghost predicate Known(fleet: Fleet, w: World, p: Pid)
    requires p in w.phases && p in fleet
  {
    var files := fleet[p];
    match w.phases[p]
    case Scanning(known, _, next) =>
      known.Keys <= w.rows.Keys && next <= |files| && forall k | 0 <= k < next :: files[k].name in w.rows
    case InTransaction(known, _, next) =>
      known.Keys <= w.rows.Keys && next < |files| && forall k | 0 <= k < next :: files[k].name in w.rows
    case Releasing(outcome, _, _, _) => outcome.Completed? ==> forall f | f in files :: f.name in w.rows
    case Finished(outcome, _, _, _) => outcome.Completed? ==> forall f | f in files :: f.name in w.rows
    case _ => true
  }

  ghost predicate OnTheWay(fleet: Fleet, w: World, final: seq<File>) {
    && Once(w) && w.log <= final && w.phases.Keys == fleet.Keys
    && forall p | p in fleet :: Known(fleet, w, p)
  }

  /** A transaction that goes through on the way meets a log that is exactly the files before its own. */
  lemma CommitsNext(files: seq<File>, log: seq<File>, final: seq<File>, next: nat)
    requires IsDirectory(final) && files <= final && log <= final && next < |files|
    requires forall k | 0 <= k < next :: files[k].name in RowsOf(log)
    requires files[next].name !in RowsOf(log)
    ensures log == files[..next] && log + [files[next]] <= final
  {
    hide RowsOf;
    assert log == final[..|log|];
    KnownPrefix(final, |log|, next);
    if next > 0 {
      KnownPrefix(final, |log|, next - 1);
    }
  }

  lemma StepKnown(fleet: Fleet, w: World, p: Pid, s: Step, q: Pid)
    requires Once(w) && Enabled(fleet, w, p, s) && q in fleet && q in w.phases && Known(fleet, w, q)
    ensures q in Do(fleet, w, p, s).phases && Known(fleet, Do(fleet, w, p, s), q)
  {
    hide RowsOf, Fresh, Names, Once;
    assert w.rows.Keys <= Do(fleet, w, p, s).rows.Keys;
  }

  lemma LogOnTheWay(fleet: Fleet, w: World, final: seq<File>, p: Pid, s: Step)
    requires ForwardOnly(fleet, final) && OnTheWay(fleet, w, final) && Enabled(fleet, w, p, s)
    ensures Do(fleet, w, p, s).log <= final
  {
    if s == Commit {
      assert Known(fleet, w, p) && p in fleet && fleet[p] <= final;
      hide RowsOf, Fresh, Names;
      CommitsNext(fleet[p], w.log, final, w.phases[p].next);
    } else {
      hide Known, RowsOf, Fresh, Names, Once;
      assert Do(fleet, w, p, s).log == w.log;
    }
  }

  lemma StepOnTheWay(fleet: Fleet, w: World, final: seq<File>, p: Pid, s: Step)
    requires ForwardOnly(fleet, final) && OnTheWay(fleet, w, final) && Enabled(fleet, w, p, s)
    ensures OnTheWay(fleet, Do(fleet, w, p, s), final)
  {
    hide Do, Enabled, Known, Once, ForwardOnly;
    OnceStep(fleet, w, p, s);
    OthersStay(fleet, w, p, s);
    LogOnTheWay(fleet, w, final, p, s);
    forall q | q in fleet ensures Known(fleet, Do(fleet, w, p, s), q) {
      StepKnown(fleet, w, p, s, q);
    }
  }

  lemma {:induction false} StaysOnTheWay(fleet: Fleet, w: World, schedule: Schedule, final: seq<File>)
    requires ForwardOnly(fleet, final) && OnTheWay(fleet, w, final) && Possible(fleet, w, schedule)
    ensures OnTheWay(fleet, After(fleet, w, schedule), final)
    decreases |schedule|
  {
    if schedule != [] {
      var (p, s) := schedule[0];
      StepOnTheWay(fleet, w, final, p, s);
      StaysOnTheWay(fleet, Do(fleet, w, p, s), schedule[1..], final);
    }
  }

  lemma AllApplied(files: seq<File>, log: seq<File>, final: seq<File>)
    requires IsDirectory(final) && files <= final && log <= final
    requires forall f | f in files :: f.name in RowsOf(log)
    ensures files <= log
  {
    hide RowsOf;
    assert log == final[..|log|];
    if files != [] {
      assert files[|files| - 1] in files;
      KnownPrefix(final, |log|, |files| - 1);
    }
  }

  /**
   * When new files always sort after applied ones, every schedule keeps the database on the way to
   * one state, with crashes anywhere and locks lost at any moment. Once a process completes, all its
   * files are there; and once one that carries all the files does, that state is reached.
   */
  lemma Converges(fleet: Fleet, w: World, schedule: Schedule, final: seq<File>, p: Pid)
    requires Initial(fleet, w) && Possible(fleet, w, schedule)
    requires ForwardOnly(fleet, final) && w.log <= final
    requires p in fleet
    ensures var end := After(fleet, w, schedule);
      && end.log <= final && end.rows == RowsOf(end.log)
      && (p in end.phases && end.phases[p].Finished? && end.phases[p].outcome.Completed? ==>
            fleet[p] <= end.log && (fleet[p] == final ==> end.log == final))
  {
    StaysOnTheWay(fleet, w, schedule, final);
    var end := After(fleet, w, schedule);
    hide RowsOf, After, Possible, Initial;
    if p in end.phases && end.phases[p].Finished? && end.phases[p].outcome.Completed? {
      assert Known(fleet, end, p);
      AllApplied(fleet[p], end.log, final);
    }
  }
}
