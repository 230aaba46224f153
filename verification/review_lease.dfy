/**
 * The two bot writers that hold a pull request's submission lease: a review's "pending" start
 * marker and its close-out. Each is given as an automaton over the steps its code takes. The
 * methods of `ReviewBot` are proved to take only these steps, and `ReviewProtocol` runs the same
 * automata against the control plane and GitHub.
 */
module ReviewLease {
  import opened Options
  import opened Automaton

  const GITHUB_API_REQUEST_TIMEOUT_MS := 10_000
  const LEASE_WRITE_MARGIN_MS := 5_000
  const START_MARKER_LEASE_MS := 30_000
  const REVIEW_SUBMISSION_LEASE_MS := 120_000

  type GrantId = nat

  /** A lease grant as the bot knows it: `requestedAt` is on the bot's own clock. */
  datatype LeaseGrant = LeaseGrant(grantId: GrantId, requestedAt: int, leaseExpiresInMs: int)

  /** The last moment, on the bot's clock, at which a write may be started under `grant`. */
  function LeaseWriteDeadline(grant: LeaseGrant): int {
    grant.requestedAt + grant.leaseExpiresInMs - GITHUB_API_REQUEST_TIMEOUT_MS - LEASE_WRITE_MARGIN_MS
  }

  datatype Status = Pending | Error | Failure | Success

  /** What posting a commit status answers: landed, an HTTP refusal, or no HTTP answer at all. */
  datatype PostResult = Posted | HttpError(status: nat) | NoAnswer

  /** GitHub has decided the write's fate: it landed, or a 4xx refused it. */
  predicate Settled(result: PostResult) {
    result.Posted? || (result.HttpError? && 400 <= result.status < 500)
  }

  // ----- the start marker (postPendingReviewStatus) -----

  datatype LeaseAnswer = Granted(grant: LeaseGrant) | Busy | Superseded | RequestFailed

  datatype MarkerEvent =
    | LeaseAnswered(answer: LeaseAnswer)
    | MarkerDeadlineChecked(at: int)
    | MarkerSent(sentAt: int)
    | MarkerAnswered(result: PostResult)
    | LeaseReleased(grantId: GrantId)

  datatype MarkerPc =
    | Waiting
    | Holding(grant: LeaseGrant)
    | Cleared(grant: LeaseGrant, checkedAt: int)
    | Sent(grant: LeaseGrant)
    | OwesRelease(grant: LeaseGrant)
    | Released(grant: LeaseGrant)
    /** Ended without a release: no grant, or a write GitHub may still land. */
    | Left

  function MarkerStep(pc: MarkerPc, e: MarkerEvent): Option<MarkerPc> {
    match (pc, e)
    case (Waiting, LeaseAnswered(Granted(g))) => Some(Holding(g))
    case (Waiting, LeaseAnswered(Busy)) => Some(Waiting)
    case (Waiting, LeaseAnswered(Superseded)) => Some(Left)
    case (Waiting, LeaseAnswered(RequestFailed)) => Some(Left)
    case (Holding(g), MarkerDeadlineChecked(at)) =>
      Some(if at <= LeaseWriteDeadline(g) then Cleared(g, at) else OwesRelease(g))
    case (Cleared(g, _), MarkerSent(_)) => Some(Sent(g))
    case (Sent(g), MarkerAnswered(r)) => Some(if Settled(r) then OwesRelease(g) else Left)
    case (OwesRelease(g), LeaseReleased(id)) => if id == g.grantId then Some(Released(g)) else None
    case _ => None
  }

  function MarkerRun(pc: MarkerPc, es: seq<MarkerEvent>): Option<MarkerPc> {
    Run(MarkerStep, pc, es)
  }

  /** Where a start marker that was not interrupted ends. */
  predicate MarkerEnds(pc: MarkerPc) {
    pc.Waiting? || pc.Left? || pc.Released?
  }

  // ----- the close-out (completeCloseOut) -----

  datatype StatusRead = Unreadable | Readable(state: Option<Status>)
  datatype PullRead = PullUnreadable | PullOpen | PullNotOpen
  datatype Finalize = Done | Retry

  /** Why a close-out ended the way it did. */
  datatype CloseOutEnding =
    | AlreadyTerminal
    | PrNotOpen
    | ClosedOut
    | StatusUnreadable
    | LeaseBudgetExhausted
    | StatusWriteFailed(result: PostResult)
    | Threw

  predicate Terminal(state: Option<Status>) {
    state.Some? && state.value != Pending
  }

  function FinalizeOf(ending: CloseOutEnding): Finalize {
    if ending.AlreadyTerminal? || ending.PrNotOpen? || ending.ClosedOut? then Done else Retry
  }

  datatype CloseOutEvent =
    | TokenFailed
    | StatusObserved(read: StatusRead)
    | PullObserved(pull: PullRead)
    | CloseOutDeadlineChecked(at: int)
    | CloseOutSent(sentAt: int)
    | CloseOutAnswered(result: PostResult)
    | CloseOutFinalized(grantId: GrantId, finalize: Finalize)

  datatype CloseOutPc =
    | Reading(grant: LeaseGrant)
    | Owed(grant: LeaseGrant)
    | Checking(grant: LeaseGrant)
    | MayWrite(grant: LeaseGrant, checkedAt: int)
    | Writing(grant: LeaseGrant)
    | Ending(grant: LeaseGrant, ending: CloseOutEnding)
    | Finalized(grant: LeaseGrant, ending: CloseOutEnding)

  function CloseOutStep(pc: CloseOutPc, e: CloseOutEvent): Option<CloseOutPc> {
    match (pc, e)
    case (Reading(g), TokenFailed) => Some(Ending(g, Threw))
    case (Reading(g), StatusObserved(Unreadable)) => Some(Ending(g, StatusUnreadable))
    case (Reading(g), StatusObserved(Readable(state))) =>
      Some(if Terminal(state) then Ending(g, AlreadyTerminal) else Owed(g))
    case (Owed(g), PullObserved(p)) => Some(if p.PullNotOpen? then Ending(g, PrNotOpen) else Checking(g))
    case (Checking(g), CloseOutDeadlineChecked(at)) =>
      Some(if at <= LeaseWriteDeadline(g) then MayWrite(g, at) else Ending(g, LeaseBudgetExhausted))
    case (MayWrite(g, _), CloseOutSent(_)) => Some(Writing(g))
    case (Writing(g), CloseOutAnswered(r)) =>
      Some(Ending(g, if r.Posted? then ClosedOut else StatusWriteFailed(r)))
    case (Ending(g, ending), CloseOutFinalized(id, f)) =>
      if id == g.grantId && f == FinalizeOf(ending) then Some(Finalized(g, ending)) else None
    case _ => None
  }

  function CloseOutRun(pc: CloseOutPc, es: seq<CloseOutEvent>): Option<CloseOutPc> {
    Run(CloseOutStep, pc, es)
  }

  // ----- what the automata say about a whole run -----

  function MarkerSends(es: seq<MarkerEvent>): nat {
    if es == [] then 0 else MarkerSends(es[..|es| - 1]) + if es[|es| - 1].MarkerSent? then 1 else 0
  }

  function MarkerReleases(es: seq<MarkerEvent>): nat {
    if es == [] then 0 else MarkerReleases(es[..|es| - 1]) + if es[|es| - 1].LeaseReleased? then 1 else 0
  }

  /** GitHub acknowledged the write, or refused it with a 4xx. */
  predicate AnsweredSettled(es: seq<MarkerEvent>) {
    exists k :: 0 <= k < |es| && es[k].MarkerAnswered?
      && (es[k].result.Posted? || (es[k].result.HttpError? && 400 <= es[k].result.status < 500))
  }

  predicate GrantedTo(es: seq<MarkerEvent>, g: LeaseGrant) {
    LeaseAnswered(Granted(g)) in es
  }

  /** What each point of the start marker's automaton remembers. */
  lemma {:induction false} MarkerHistory(es: seq<MarkerEvent>)
    requires MarkerRun(Waiting, es).Some?
    ensures var pc := MarkerRun(Waiting, es).value;
            && (pc.Waiting? || pc.Holding? || pc.Cleared? ==> MarkerSends(es) == 0)
            && MarkerSends(es) <= 1
            && MarkerReleases(es) == (if pc.Released? then 1 else 0)
            && ((pc.OwesRelease? || pc.Released?) && MarkerSends(es) == 1 ==> AnsweredSettled(es))
            && (!pc.Waiting? && !pc.Left? ==> GrantedTo(es, pc.grant))
    decreases |es|
  {
    if es != [] {
      var before := es[..|es| - 1];
      MarkerHistory(before);
      assert es == before + [es[|es| - 1]];
      if AnsweredSettled(before) {
        var k :| 0 <= k < |before| && before[k].MarkerAnswered?
          && (before[k].result.Posted? || (before[k].result.HttpError? && 400 <= before[k].result.status < 500));
        assert es[k] == before[k];
      }
    }
  }

  /**
   * A start marker sends at most one write and releases at most once; it releases only a lease it was
   * granted, and after a write only once GitHub has settled it.
   */
  lemma {:induction false} MarkerDiscipline(es: seq<MarkerEvent>)
    requires MarkerRun(Waiting, es).Some?
    ensures MarkerSends(es) <= 1 && MarkerReleases(es) <= 1
    ensures MarkerReleases(es) == 1 <==> MarkerRun(Waiting, es).value.Released?
    ensures MarkerReleases(es) == 1 && MarkerSends(es) == 1 ==> AnsweredSettled(es)
    ensures MarkerReleases(es) == 1 ==> GrantedTo(es, MarkerRun(Waiting, es).value.grant)
    decreases |es|
  {
    MarkerHistory(es);
  }

  function Finalizes(es: seq<CloseOutEvent>): nat {
    if es == [] then 0 else Finalizes(es[..|es| - 1]) + if es[|es| - 1].CloseOutFinalized? then 1 else 0
  }

  function CloseOutSends(es: seq<CloseOutEvent>): nat {
    if es == [] then 0 else CloseOutSends(es[..|es| - 1]) + if es[|es| - 1].CloseOutSent? then 1 else 0
  }

  /** The head was read as error, failure or success. */
  predicate ReadsTerminal(e: CloseOutEvent) {
    e in {StatusObserved(Readable(Some(Error))), StatusObserved(Readable(Some(Failure))),
          StatusObserved(Readable(Some(Success)))}
  }

  /** The close-out read a terminal status, had its write acknowledged, or found the PR no longer open. */
  predicate DoneEvidence(es: seq<CloseOutEvent>) {
    exists k :: 0 <= k < |es| &&
      (ReadsTerminal(es[k]) || es[k] == CloseOutAnswered(Posted) || es[k] == PullObserved(PullNotOpen))
  }

  predicate ReadTerminal(es: seq<CloseOutEvent>) {
    exists k :: 0 <= k < |es| && ReadsTerminal(es[k])
  }

  lemma DoneEvidenceLasts(before: seq<CloseOutEvent>, es: seq<CloseOutEvent>)
    requires before <= es && DoneEvidence(before)
    ensures DoneEvidence(es)
  {
    var k :| 0 <= k < |before| &&
      (ReadsTerminal(before[k]) || before[k] == CloseOutAnswered(Posted) || before[k] == PullObserved(PullNotOpen));
    assert es[k] == before[k];
  }

  /** What each point of the close-out's automaton remembers. */
  lemma {:induction false} CloseOutHistory(grant: LeaseGrant, es: seq<CloseOutEvent>)
    requires CloseOutRun(Reading(grant), es).Some?
    ensures var pc := CloseOutRun(Reading(grant), es).value;
            && pc.grant == grant
            && Finalizes(es) == (if pc.Finalized? then 1 else 0)
            && CloseOutSends(es) <= 1
            && (pc.Reading? || pc.Owed? || pc.Checking? || pc.MayWrite? ==> CloseOutSends(es) == 0)
            && (ReadTerminal(es) ==> CloseOutSends(es) == 0)
            && (ReadTerminal(es) ==> (pc.Ending? || pc.Finalized?) && pc.ending.AlreadyTerminal?)
            && (DoneEvidence(es) <==> (pc.Ending? || pc.Finalized?) && FinalizeOf(pc.ending).Done?)
    decreases |es|
  {
    if es != [] {
      var n := |es| - 1;
      var before := es[..n];
      CloseOutHistory(grant, before);
      assert es == before + [es[n]];
      if DoneEvidence(before) { DoneEvidenceLasts(before, es); }
      if ReadTerminal(before) {
        var k :| 0 <= k < |before| && ReadsTerminal(before[k]);
        assert es[k] == before[k];
      }
      forall k | 0 <= k < n ensures es[k] == before[k] {}
    }
  }

  // ----- every run, written out -----

  /** What a start marker does with a lease whose write deadline is `deadline`. */
  predicate PostsInTime(es: seq<MarkerEvent>, id: GrantId, deadline: int) {
    && es != [] && es[0].MarkerDeadlineChecked?
    && if es[0].at > deadline then es[1..] == [LeaseReleased(id)]
       else |es| >= 3 && es[1].MarkerSent? && es[2].MarkerAnswered?
            && es[3..] == match es[2].result
                          case Posted => [LeaseReleased(id)]
                          case HttpError(status) => if 400 <= status < 500 then [LeaseReleased(id)] else []
                          case NoAnswer => []
  }

  /**
   * The whole of a start marker: it asks while the answer is busy, and gives up on any other refusal. A
   * lease it is granted it hands back unwritten when its deadline has passed, and after a write exactly
   * when GitHub acknowledged it or refused it with a 4xx.
   */
  predicate PostsPending(es: seq<MarkerEvent>) {
    es == [] ||
    match es[0]
    case LeaseAnswered(Busy) => PostsPending(es[1..])
    case LeaseAnswered(Granted(g)) =>
      PostsInTime(es[1..], g.grantId, g.requestedAt + g.leaseExpiresInMs - 15_000)
    case LeaseAnswered(_) => |es| == 1
    case _ => false
  }

  /** One event at the front of a run. */
  lemma MarkerTakes(pc: MarkerPc, es: seq<MarkerEvent>)
    requires es != []
    ensures MarkerRun(pc, es)
            == (if MarkerStep(pc, es[0]).Some? then MarkerRun(MarkerStep(pc, es[0]).value, es[1..]) else None)
  {
    RunThen(MarkerStep, pc, [], es[0]);
    assert [] + [es[0]] == [es[0]] && [es[0]] + es[1..] == es;
    RunJoins(MarkerStep, pc, [es[0]], es[1..]);
  }

  lemma OwesReleaseExactly(g: LeaseGrant, es: seq<MarkerEvent>)
    ensures MarkerRun(OwesRelease(g), es).Some? && MarkerEnds(MarkerRun(OwesRelease(g), es).value) <==>
            es == [LeaseReleased(g.grantId)]
  {
    if es != [] {
      MarkerTakes(OwesRelease(g), es);
      if |es| > 1 { MarkerTakes(Released(g), es[1..]); }
    }
  }

  lemma LeftExactly(es: seq<MarkerEvent>)
    ensures MarkerRun(Left, es).Some? <==> es == []
  {
    if es != [] { MarkerTakes(Left, es); }
  }

  lemma SentExactly(g: LeaseGrant, es: seq<MarkerEvent>)
    ensures MarkerRun(Sent(g), es).Some? && MarkerEnds(MarkerRun(Sent(g), es).value) <==>
            |es| >= 1 && es[0].MarkerAnswered?
            && es[1..] == (match es[0].result
                           case Posted => [LeaseReleased(g.grantId)]
                           case HttpError(status) => if 400 <= status < 500 then [LeaseReleased(g.grantId)] else []
                           case NoAnswer => [])
  {
    if es != [] {
      MarkerTakes(Sent(g), es);
      OwesReleaseExactly(g, es[1..]);
      LeftExactly(es[1..]);
    }
  }

  lemma HoldingExactly(g: LeaseGrant, es: seq<MarkerEvent>)
    ensures MarkerRun(Holding(g), es).Some? && MarkerEnds(MarkerRun(Holding(g), es).value) <==>
            PostsInTime(es, g.grantId, g.requestedAt + g.leaseExpiresInMs - 15_000)
  {
    if es != [] {
      MarkerTakes(Holding(g), es);
      OwesReleaseExactly(g, es[1..]);
      if |es| > 1 && es[0].MarkerDeadlineChecked? {
        MarkerTakes(Cleared(g, es[0].at), es[1..]);
        SentExactly(g, es[2..]);
      }
    }
  }

  /** The start marker's finished runs are exactly those. */
  lemma {:induction false} PostsPendingExactly(es: seq<MarkerEvent>)
    ensures MarkerRun(Waiting, es).Some? && MarkerEnds(MarkerRun(Waiting, es).value) <==> PostsPending(es)
    decreases |es|
  {
    if es != [] {
      MarkerTakes(Waiting, es);
      LeftExactly(es[1..]);
      match es[0]
      case LeaseAnswered(Busy) => PostsPendingExactly(es[1..]);
      case LeaseAnswered(Granted(g)) => HoldingExactly(g, es[1..]);
      case _ =>
    }
  }

  /** One event at the front of a run. */
  lemma CloseOutTakes(pc: CloseOutPc, es: seq<CloseOutEvent>)
    requires es != []
    ensures CloseOutRun(pc, es)
            == (if CloseOutStep(pc, es[0]).Some? then CloseOutRun(CloseOutStep(pc, es[0]).value, es[1..]) else None)
  {
    RunThen(CloseOutStep, pc, [], es[0]);
    assert [] + [es[0]] == [es[0]] && [es[0]] + es[1..] == es;
    RunJoins(CloseOutStep, pc, [es[0]], es[1..]);
  }

  /** Past its reads: what a close-out does with a lease whose write deadline is `deadline`. */
  predicate WritesInTime(es: seq<CloseOutEvent>, id: GrantId, deadline: int) {
    && es != [] && es[0].CloseOutDeadlineChecked?
    && if es[0].at > deadline then es[1..] == [CloseOutFinalized(id, Retry)]
       else |es| == 4 && es[1].CloseOutSent? && es[2].CloseOutAnswered?
            && es[3] == CloseOutFinalized(id, if es[2].result == Posted then Done else Retry)
  }

  /**
   * The whole of a close-out. A token that cannot be had and a status that cannot be read end it with a
   * retry, a terminal status or a pull request known not to be open with nothing more to do. A status that
   * is pending or absent, on a pull request that is open or cannot be read, is written over in time.
   */
  predicate ClosesOut(es: seq<CloseOutEvent>, id: GrantId, deadline: int) {
    || es == [TokenFailed, CloseOutFinalized(id, Retry)]
    || es == [StatusObserved(Unreadable), CloseOutFinalized(id, Retry)]
    || (|es| == 2 && ReadsTerminal(es[0]) && es[1] == CloseOutFinalized(id, Done))
    || (|es| >= 2 && es[0] in {StatusObserved(Readable(None)), StatusObserved(Readable(Some(Pending)))}
        && ( es[1..] == [PullObserved(PullNotOpen), CloseOutFinalized(id, Done)]
          || (es[1] in {PullObserved(PullOpen), PullObserved(PullUnreadable)} && WritesInTime(es[2..], id, deadline))))
  }

  predicate Completes(pc: CloseOutPc, es: seq<CloseOutEvent>) {
    CloseOutRun(pc, es).Some? && CloseOutRun(pc, es).value.Finalized?
  }

  lemma CompletesTakes(pc: CloseOutPc, es: seq<CloseOutEvent>)
    ensures Completes(pc, es) <==>
            if es == [] then pc.Finalized?
            else CloseOutStep(pc, es[0]).Some? && Completes(CloseOutStep(pc, es[0]).value, es[1..])
  {
    if es != [] { CloseOutTakes(pc, es); }
  }

  lemma EndingExactly(g: LeaseGrant, ending: CloseOutEnding, es: seq<CloseOutEvent>)
    ensures Completes(Ending(g, ending), es) <==> es == [CloseOutFinalized(g.grantId, FinalizeOf(ending))]
  {
    CompletesTakes(Ending(g, ending), es);
    if es != [] { CompletesTakes(Finalized(g, ending), es[1..]); }
  }

  lemma WritingExactly(g: LeaseGrant, es: seq<CloseOutEvent>)
    ensures Completes(Writing(g), es) <==>
            |es| == 2 && es[0].CloseOutAnswered?
            && es[1] == CloseOutFinalized(g.grantId, if es[0].result == Posted then Done else Retry)
  {
    CompletesTakes(Writing(g), es);
    if es != [] && es[0].CloseOutAnswered? {
      EndingExactly(g, if es[0].result == Posted then ClosedOut else StatusWriteFailed(es[0].result), es[1..]);
    }
  }

  lemma CheckingExactly(g: LeaseGrant, es: seq<CloseOutEvent>)
    ensures Completes(Checking(g), es) <==>
            WritesInTime(es, g.grantId, g.requestedAt + g.leaseExpiresInMs - 15_000)
  {
    CompletesTakes(Checking(g), es);
    if es != [] && es[0].CloseOutDeadlineChecked? {
      EndingExactly(g, LeaseBudgetExhausted, es[1..]);
      CompletesTakes(MayWrite(g, es[0].at), es[1..]);
      if |es| > 1 {
        WritingExactly(g, es[2..]);
        assert es[1..][1..] == es[2..];
      }
    }
  }

  lemma OwedExactly(g: LeaseGrant, es: seq<CloseOutEvent>)
    ensures Completes(Owed(g), es) <==>
            ( es == [PullObserved(PullNotOpen), CloseOutFinalized(g.grantId, Done)]
            || (es != [] && es[0] in {PullObserved(PullOpen), PullObserved(PullUnreadable)}
                && WritesInTime(es[1..], g.grantId, g.requestedAt + g.leaseExpiresInMs - 15_000)))
  {
    CompletesTakes(Owed(g), es);
    if es != [] {
      EndingExactly(g, PrNotOpen, es[1..]);
      CheckingExactly(g, es[1..]);
    }
  }

  /** The close-out's finished runs are exactly those. */
  lemma ClosesOutExactly(g: LeaseGrant, es: seq<CloseOutEvent>)
    ensures CloseOutRun(Reading(g), es).Some? && CloseOutRun(Reading(g), es).value.Finalized? <==>
            ClosesOut(es, g.grantId, g.requestedAt + g.leaseExpiresInMs - 15_000)
  {
    CompletesTakes(Reading(g), es);
    if es != [] {
      var rest := es[1..];
      assert es == [es[0]] + rest;
      match es[0]
      case TokenFailed => EndingExactly(g, Threw, rest);
      case StatusObserved(Unreadable) => EndingExactly(g, StatusUnreadable, rest);
      case StatusObserved(Readable(state)) =>
        if Terminal(state) { EndingExactly(g, AlreadyTerminal, rest); }
        else {
          assert state in {None, Some(Pending)};
          OwedExactly(g, rest);
          assert rest != [] ==> rest[1..] == es[2..];
        }
      case _ =>
    }
  }
}
