/**
 * The lock file that gives a checkout to one preview. Every change to it happens inside a database
 * transaction, so acquisitions and releases are single steps; a process may be killed inside one.
 */
module CheckoutLock {
  import opened Options
  import Automaton

  /** `Unreadable`: incomplete, not JSON, or without a positive integer process ID. */
  datatype LockFile = Written(pid: int, token: nat) | Unreadable

  datatype World = World(
    file: Option<LockFile>,
    /** The running processes; an ID may be used again once its process is gone. */
    live: set<int>,
    /** The acquisitions of running processes that have not been released, by token. */
    held: map<nat, int>,
    /** Tokens are never drawn twice. */
    nextToken: nat)

  /** How far an acquisition got before its process was killed. */
  datatype Stage = OwnerUnlinked | FileCreated | FileWritten

  datatype Event =
    | Spawn(pid: int)
    | Die(pid: int)
    | Acquire(pid: int)
    | AcquireKilled(pid: int, stage: Stage)
    | Release(pid: int, token: nat)

  const INITIAL := World(None, {}, map[], 0)

  /** An acquisition may go ahead: there is no file, or its owner is dead. */
  predicate Available(w: World) {
    w.file.None? || (w.file.value.Written? && w.file.value.pid > 0 && w.file.value.pid !in w.live)
  }

  function AfterAcquire(w: World, pid: int): World {
    if Available(w) then
      w.(file := Some(Written(pid, w.nextToken)), held := w.held[w.nextToken := pid], nextToken := w.nextToken + 1)
    else w.(nextToken := w.nextToken + 1)
  }

  /** Only the acquisition's own file is removed. */
  function AfterRelease(w: World, pid: int, token: nat): World {
    w.(file := if w.file == Some(Written(pid, token)) then None else w.file, held := w.held - {token})
  }

  function AfterDeath(w: World, pid: int): World {
    w.(live := w.live - {pid}, held := map t | t in w.held && w.held[t] != pid :: w.held[t])
  }

  function AfterKilled(w: World, pid: int, stage: Stage): World {
    var dead := AfterDeath(w, pid).(nextToken := w.nextToken + 1);
    if !Available(w) then dead else
    match stage
    case OwnerUnlinked => dead.(file := None)
    case FileCreated => dead.(file := Some(Unreadable))
    case FileWritten => dead.(file := Some(Written(pid, w.nextToken)))
  }

  function Step(w: World, e: Event): Option<World> {
    match e
    case Spawn(pid) => if pid > 0 && pid !in w.live then Some(w.(live := w.live + {pid})) else None
    case Die(pid) => if pid in w.live then Some(AfterDeath(w, pid)) else None
    case Acquire(pid) => if pid in w.live then Some(AfterAcquire(w, pid)) else None
    case AcquireKilled(pid, stage) => if pid in w.live then Some(AfterKilled(w, pid, stage)) else None
    /** A release runs in the process that acquired, once or again. */
    case Release(pid, token) =>
      if pid in w.live && token < w.nextToken && (token in w.held ==> w.held[token] == pid)
      then Some(AfterRelease(w, pid, token)) else None
  }

  function Run(w: World, es: seq<Event>): Option<World> {
    Automaton.Run(Step, w, es)
  }

  /** Every acquisition held by a running process is the one the file names. */
  predicate Exclusive(w: World) {
    && (forall pid :: pid in w.live ==> pid > 0)
    && (forall t :: t in w.held ==> w.held[t] in w.live && w.file == Some(Written(w.held[t], t)))
    && (w.file.Some? && w.file.value.Written? ==> w.file.value.token < w.nextToken)
    && (forall t :: t in w.held ==> t < w.nextToken)
  }

  lemma AvailableMeansUnheld(w: World)
    requires Exclusive(w)
    ensures Available(w) ==> w.held == map[]
  {
    assert Available(w) ==> forall t :: t !in w.held;
  }

  lemma StepKeepsExclusive(w: World, e: Event)
    requires Exclusive(w) && Step(w, e).Some?
    ensures Exclusive(Step(w, e).value)
  {}

  lemma {:induction false} RunsAreExclusive(w: World, es: seq<Event>)
    requires Exclusive(w) && Run(w, es).Some?
    ensures Exclusive(Run(w, es).value)
    decreases |es|
  {
    if es != [] {
      RunsAreExclusive(w, es[..|es| - 1]);
      StepKeepsExclusive(Run(w, es[..|es| - 1]).value, es[|es| - 1]);
    }
  }

  /** In every reachable state at most one acquisition is held by a running process, and the file names it. */
  lemma AtMostOneHolder(es: seq<Event>, s: nat, t: nat)
    requires Run(INITIAL, es).Some?
    requires var w := Run(INITIAL, es).value; s in w.held && t in w.held
    ensures s == t
    ensures var w := Run(INITIAL, es).value; w.held[t] in w.live && w.file == Some(Written(w.held[t], t))
  {
    RunsAreExclusive(INITIAL, es);
  }

  /** The file changes hands only when there is none or the process it names is gone. */
  lemma TakeoverOnlyFromTheDead(es: seq<Event>, e: Event)
    requires Run(INITIAL, es).Some? && Step(Run(INITIAL, es).value, e).Some?
    ensures var w, after := Run(INITIAL, es).value, Step(Run(INITIAL, es).value, e).value;
            w.file.Some? && after.file != w.file ==>
              || (w.file.value.Written? && w.file.value.pid !in w.live)
              || (w.file.value.Written? && e == Release(w.file.value.pid, w.file.value.token))
  {}

  /**
   * A release whose acquisition the file does not name leaves the file as it was, whether or not anyone
   * holds the lock; a stale one, whose acquisition is no longer held, leaves every holder too.
   */
  lemma StaleReleaseChangesNothing(es: seq<Event>, pid: int, token: nat)
    requires Run(INITIAL, es).Some? && Step(Run(INITIAL, es).value, Release(pid, token)).Some?
    ensures var w, after := Run(INITIAL, es).value, Step(Run(INITIAL, es).value, Release(pid, token)).value;
            && (w.file != Some(Written(pid, token)) ==> after.file == w.file)
            && (token !in w.held ==> after.held == w.held && (w.held != map[] ==> after.file == w.file))
            && (forall t :: t in w.held && t != token ==>
                  t in after.held && after.held[t] == w.held[t] && after.file == w.file)
  {
    var w := Run(INITIAL, es).value;
    RunsAreExclusive(INITIAL, es);
    if token !in w.held {
      assert w.held - {token} == w.held;
      if w.held != map[] {
        var t :| t in w.held;
        assert w.file == Some(Written(w.held[t], t));
      }
    }
  }

  /** A lock that cannot be read is owned for good: no run takes it over. */
  lemma {:induction false} UnreadableIsNeverTaken(w: World, es: seq<Event>)
    requires w.file == Some(Unreadable) && w.held == map[] && Run(w, es).Some?
    ensures Run(w, es).value.file == Some(Unreadable) && Run(w, es).value.held == map[]
    decreases |es|
  {
    if es != [] { UnreadableIsNeverTaken(w, es[..|es| - 1]); }
  }

  /** While its process runs, a holder keeps the lock until it releases it, whatever the others do. */
  lemma {:induction false} HolderKeepsLock(w: World, es: seq<Event>, token: nat)
    requires Exclusive(w) && token in w.held && Run(w, es).Some?
    requires forall k :: 0 <= k < |es| ==> es[k] != Release(w.held[token], token) && es[k] != Die(w.held[token])
                                           && !(es[k].AcquireKilled? && es[k].pid == w.held[token])
    ensures var after := Run(w, es).value;
            token in after.held && after.held[token] == w.held[token] && after.file == w.file
    decreases |es|
  {
    if es != [] {
      var before := es[..|es| - 1];
      HolderKeepsLock(w, before, token);
      RunsAreExclusive(w, before);
      assert es[|es| - 1] != Release(w.held[token], token);
    }
  }

  // ----- the lock comes back -----

  /** The process gets the lock when it asks for it. */
  predicate Gets(w: World, pid: int) {
    && Step(w, Acquire(pid)).Some?
    && var after := Step(w, Acquire(pid)).value;
       after.held == map[w.nextToken := pid] && after.file == Some(Written(pid, w.nextToken))
  }

  /** Once its holder has released the lock or died, any running process gets it. */
  lemma LockComesBack(es: seq<Event>, token: nat, e: Event, pid: int)
    requires Run(INITIAL, es).Some? && token in Run(INITIAL, es).value.held
    requires var holder := Run(INITIAL, es).value.held[token]; e == Release(holder, token) || e == Die(holder)
    ensures var w := Run(INITIAL, es).value;
            Step(w, e).Some? && (pid in Step(w, e).value.live ==> Gets(Step(w, e).value, pid))
  {
    RunsAreExclusive(INITIAL, es);
    var w := Run(INITIAL, es).value;
    StepKeepsExclusive(w, e);
    var t := Step(w, e).value;
    assert forall k :: k !in t.held;
  }

  /** In every reachable state a running process gets the lock exactly when there is no file or its owner is dead. */
  lemma GetsOnlyWhenFree(es: seq<Event>, pid: int)
    requires Run(INITIAL, es).Some? && pid in Run(INITIAL, es).value.live
    ensures var w := Run(INITIAL, es).value;
            Gets(w, pid) <==>
            w.file.None? || (w.file.value.Written? && w.file.value.pid > 0 && w.file.value.pid !in w.live)
  {
    var w := Run(INITIAL, es).value;
    RunsAreExclusive(INITIAL, es);
    AvailableMeansUnheld(w);
    if Gets(w, pid) { assert w.nextToken in AfterAcquire(w, pid).held; }
  }

  /**
   * A process killed inside an acquisition leaves the lock to others, unless it was killed after creating the
   * file and before writing it: then nobody gets it.
   */
  lemma KilledBlocksIffUnwritten(es: seq<Event>, killed: int, stage: Stage, pid: int)
    requires Run(INITIAL, es).Some? && killed in Run(INITIAL, es).value.live && Gets(Run(INITIAL, es).value, killed)
    requires pid in Run(INITIAL, es).value.live && pid != killed
    ensures Step(Run(INITIAL, es).value, AcquireKilled(killed, stage)).Some?
    ensures Gets(Step(Run(INITIAL, es).value, AcquireKilled(killed, stage)).value, pid) <==> stage != FileCreated
  {
    var w := Run(INITIAL, es).value;
    GetsOnlyWhenFree(es, killed);
    Automaton.RunThen(Step, INITIAL, es, AcquireKilled(killed, stage));
    GetsOnlyWhenFree(es + [AcquireKilled(killed, stage)], pid);
    RunsAreExclusive(INITIAL, es);
  }

  /** A run in which the lock goes from a process that died holding it to another. */
  lemma HandsOver() returns (es: seq<Event>)
    ensures es == [Spawn(1), Spawn(2), Acquire(1), Acquire(2), Die(1), Acquire(2)]
    ensures Run(INITIAL, es[..4]).Some? && Run(INITIAL, es[..4]).value.held == map[0 := 1]
    ensures Run(INITIAL, es).Some? && Run(INITIAL, es).value.held == map[2 := 2]
  {
    es := [Spawn(1), Spawn(2), Acquire(1), Acquire(2), Die(1), Acquire(2)];
    forall k | 0 <= k < 6 ensures es[..k + 1] == es[..k] + [es[k]] {}
    Automaton.RunThen(Step, INITIAL, es[..0], es[0]);
    Automaton.RunThen(Step, INITIAL, es[..1], es[1]);
    Automaton.RunThen(Step, INITIAL, es[..2], es[2]);
    Automaton.RunThen(Step, INITIAL, es[..3], es[3]);
    Automaton.RunThen(Step, INITIAL, es[..4], es[4]);
    Automaton.RunThen(Step, INITIAL, es[..5], es[5]);
    assert es[..6] == es;
  }

  // ----- the operations -----

  /** The machine the lock file lives on. */
  class Machine {
    var file: Option<LockFile>
    var live: set<int>
    ghost var held: map<nat, int>
    var nextToken: nat

    ghost function Now(): World
      reads this
    {
      World(file, live, held, nextToken)
    }

    ghost predicate Valid()
      reads this
    {
      Exclusive(Now())
    }

    constructor ()
      ensures Valid() && Now() == INITIAL
    {
      file, live, held, nextToken := None, {}, map[], 0;
    }

    /** `None` is the refusal: another process owns the checkout, or may. */
    method AcquireCheckoutLock(pid: int) returns (token: Option<nat>)
      requires Valid() && pid in live
      modifies this
      ensures Valid() && Now() == AfterAcquire(old(Now()), pid) && live == old(live)
      ensures token.Some? <==>
                || old(file).None?
                || (old(file).value.Written? && old(file).value.pid > 0 && old(file).value.pid !in live)
      ensures token.Some? ==> token.value == old(nextToken) && held == map[token.value := pid]
                              && file == Some(Written(pid, token.value))
      ensures token.None? ==> file == old(file) && held == old(held)
    {
      StepKeepsExclusive(Now(), Acquire(pid));
      AvailableMeansUnheld(Now());
      var mine := nextToken;
      nextToken := nextToken + 1;
      if file.Some? {
        if file.value.Unreadable? || file.value.pid <= 0 || file.value.pid in live { return None; }
        file := None;
      }
      file := Some(Written(pid, mine));
      held := held[mine := pid];
      return Some(mine);
    }

    method Release(pid: int, token: nat)
      requires Valid() && pid in live && token < nextToken && (token in held ==> held[token] == pid)
      modifies this
      ensures Valid() && Now() == AfterRelease(old(Now()), pid, token)
      ensures file == (if old(file) == Some(Written(pid, token)) then None else old(file))
      ensures held == old(held) - {token} && live == old(live) && nextToken == old(nextToken)
    {
      StepKeepsExclusive(Now(), Event.Release(pid, token));
      if file == Some(Written(pid, token)) { file := None; }
      held := held - {token};
    }
  }
}
