/**
 * The review path of a GitHub webhook: stand-down, admission, session creation, start marker, prompt
 * and close-out, as the ordered effects its handlers perform. Every answer from GitHub and the
 * control plane is arbitrary, and time passes arbitrarily while waiting for one.
 */
module ReviewBot {
  import opened Options
  import opened Automaton
  import opened ReviewLease
  import opened ReviewEffects
  import opened ReviewFates

  const START_MARKER_LEASE_WAIT_MS := 5_000
  const START_MARKER_LEASE_RETRY_MS := 1_000

  datatype Admission = Admitted(generation: nat, draft: bool) | NotAdmitted(result: HandlerResult)

  class Bot {
    /** This worker's clock, in milliseconds. */
    var clock: int
    var log: seq<Effect>

    constructor (clock: int)
      ensures this.clock == clock && log == []
    {
      this.clock, log := clock, [];
    }

    /** One effect on the outside world, which takes any time to be answered. */
    method Do(e: Effect)
      modifies this
      ensures log == old(log) + [e] && clock >= old(clock)
    {
      var elapsed: nat :| true;
      clock := clock + elapsed;
      log := log + [e];
    }

    // ----- stand-down -----

    /** The rest of a stand-down, once it has claimed `generation`. */
    method EstablishSkip(generation: nat) returns (r: StandDown, ghost es: seq<Effect>)
      modifies this
      ensures log == old(log) + es && clock >= old(clock) && r != Stale
      ensures SkipTrace(es, generation, r.StoodDown?) && |es| >= 2
      ensures es[0] in {HeadStatusRead(Readable(None)), HeadStatusRead(Readable(Some(Pending)))} <==> es[1].SkipPosted?
      ensures r == StoodDown <==>
                || es[1] == SkipPosted(Posted)
                || es[0] in {HeadStatusRead(Readable(Some(Error))), HeadStatusRead(Readable(Some(Failure))),
                             HeadStatusRead(Readable(Some(Success)))}
      ensures es[|es| - 1] == if r == StoodDown then Swept(generation) else ReleaseRequested(generation)
    {
      var status: StatusRead :| true;
      Do(HeadStatusRead(status));
      es := [HeadStatusRead(status)];
      if status.Unreadable? {
        Do(ReleaseRequested(generation));
        return Review, es + [ReleaseRequested(generation)];
      }
      if status.state.None? || status.state.value.Pending? {
        var result: PostResult :| true;
        Do(SkipPosted(result));
        es := es + [SkipPosted(result)];
        if !result.Posted? {
          Do(ReleaseRequested(generation));
          return Review, es + [ReleaseRequested(generation)];
        }
      }
      Do(Swept(generation));
      return StoodDown, es + [Swept(generation)];
    }

    /**
     * `stale` touches nothing; `review` hands back any generation it claimed and never sweeps;
     * `stood_down` claims, reads, writes unless the head is already terminal, and only then sweeps.
     */
    method StandDownApprovedReview(headSha: string) returns (r: StandDown, ghost es: seq<Effect>)
      modifies this
      ensures log == old(log) + es && clock >= old(clock)
      ensures StandDownTrace(es, headSha, r) && es != [] && es[0].SnapshotRead?
      ensures r == Stale <==>
                es[0].snapshot.Snapshot?
                && (es[0].snapshot.headSha != headSha || !es[0].snapshot.open || es[0].snapshot.draft)
      ensures |es| == 1 <==> r == Stale || es[0].snapshot == SnapshotUnreadable
      ensures |es| >= 2 ==> es[1].Claimed? && (|es| == 2 <==> es[1].obtained.None?)
      ensures r == StoodDown <==> es[|es| - 1].Swept?
    {
      var freshness: Snapshot :| true;
      Do(SnapshotRead(freshness));
      es := [SnapshotRead(freshness)];
      if freshness.SnapshotUnreadable? { return Review, es; }
      if freshness.headSha != headSha || !freshness.open || freshness.draft { return Stale, es; }
      var generation: Option<nat> :| true;
      Do(Claimed(generation));
      es := es + [Claimed(generation)];
      if generation.None? { return Review, es; }
      ghost var rest;
      r, rest := EstablishSkip(generation.value);
      es := es + rest;
      assert es[2..] == rest;
    }

    /** Only an automatic review on a pull request that is not brand new can stand down. */
    method StandDownIfApproved(review: ReviewRequest) returns (skip: Option<HandlerResult>, ghost es: seq<Effect>)
      modifies this
      ensures log == old(log) + es && clock >= old(clock)
      ensures StandDownIfApprovedTrace(es, review, skip)
      ensures review.trigger in {None, Some(Opened)} <==> es == []
      ensures es != [] ==> es[0].ApprovalRead? && (|es| == 1 <==> es[0].approval != Approved)
      ensures |es| <= 1 ==> skip == None
      ensures |es| >= 2 ==>
                && es[1].SnapshotRead?
                && (skip == Some(Skipped(PrApproved)) <==> es[|es| - 1].Swept?)
                && (skip == Some(Skipped(StaleHeadSha)) <==>
                      es[1].snapshot != SnapshotUnreadable && es[1].snapshot != Snapshot(review.headSha, true, false))
                && (skip == None || skip == Some(Skipped(PrApproved)) || skip == Some(Skipped(StaleHeadSha)))
    {
      if review.trigger.None? || review.trigger.value.Opened? { return None, []; }
      var approval: Approval :| true;
      Do(ApprovalRead(approval));
      es := [ApprovalRead(approval)];
      if !approval.Approved? { return None, es; }
      ghost var rest;
      var standDown;
      standDown, rest := StandDownApprovedReview(review.headSha);
      es := es + rest;
      assert es[1..] == rest;
      match standDown {
        case Stale => skip := Some(Skipped(StaleHeadSha));
        case StoodDown => skip := Some(Skipped(PrApproved));
        case Review => skip := None;
      }
    }

    // ----- admission -----

    /** The live pull request against the trigger, then the claim: nothing happens in between. */
    method AdmitReview(review: ReviewRequest) returns (a: Admission, ghost es: seq<Effect>)
      modifies this
      ensures log == old(log) + es && clock >= old(clock)
      ensures es != [] && es[0].SnapshotRead?
      ensures es[0].snapshot.SnapshotUnreadable? ==> |es| == 1 && a == NotAdmitted(Skipped(FreshnessCheckFailed))
      ensures a == NotAdmitted(Skipped(StaleHeadSha)) <==>
                var s := es[0].snapshot;
                s.Snapshot? && (s.headSha != review.headSha || !s.open || (s.draft && review.trigger != None))
      ensures a == NotAdmitted(Skipped(StaleHeadSha)) ==> |es| == 1
      ensures Admissible(es[0].snapshot, review) ==> (
                && |es| == 2 && es[1].Claimed?
                && a == if es[1].obtained.Some? then Admitted(es[1].obtained.value, es[0].snapshot.draft)
                        else NotAdmitted(Failed))
    {
      var freshness: Snapshot :| true;
      Do(SnapshotRead(freshness));
      es := [SnapshotRead(freshness)];
      if freshness.SnapshotUnreadable? { return NotAdmitted(Skipped(FreshnessCheckFailed)), es; }
      var draftStale := review.trigger.Some? && freshness.draft;
      if freshness.headSha != review.headSha || !freshness.open || draftStale {
        return NotAdmitted(Skipped(StaleHeadSha)), es;
      }
      var generation: Option<nat> :| true;
      Do(Claimed(generation));
      es := es + [Claimed(generation)];
      if generation.None? { return NotAdmitted(Failed), es; }
      return Admitted(generation.value, freshness.draft), es;
    }

    /** A newer trigger's claim stands; after any other failure this review's claim is rolled back. */
    method AbandonReview(g: nat, creation: Creation) returns (skip: Option<HandlerResult>, ghost es: seq<Effect>)
      requires !creation.Created?
      modifies this
      ensures log == old(log) + es && clock >= old(clock)
      ensures if creation == CreationRefused(409, None) then es == [] && skip == Some(Skipped(SupersededReview))
              else es == [ReleaseRequested(g)] && skip.None?
    {
      if creation.CreationRefused? && creation.status == 409 && creation.code.None? {
        return Some(Skipped(SupersededReview)), [];
      }
      Do(ReleaseRequested(g));
      return None, [ReleaseRequested(g)];
    }

    // ----- the start marker -----

    /** One lease request; still unanswered at `giveUpAt`, it is abandoned. */
    method RequestStartMarkerLease(giveUpAt: int) returns (answer: LeaseAnswer)
      modifies `clock
      ensures clock >= old(clock)
      ensures answer.Granted? ==> answer.grant.requestedAt == old(clock) && clock <= giveUpAt
    {
      var requestedAt := clock;
      var answeredAt: int :| answeredAt >= clock;
      answer :| true;
      if answeredAt > giveUpAt {
        clock := if clock < giveUpAt then giveUpAt else clock;
        return RequestFailed;
      }
      clock := answeredAt;
      if answer.Granted? { answer := Granted(answer.grant.(requestedAt := requestedAt)); }
    }

    /**
     * Asks for the lease until it is answered something other than busy, for at most the lease wait.
     * A pause may be late, but is never shorter than asked for.
     */
    method AcquireStartMarkerLease() returns (grant: Option<LeaseGrant>, es: seq<MarkerEvent>)
      modifies `clock
      ensures clock >= old(clock)
      ensures MarkerRun(Waiting, es).Some?
      ensures grant.Some? ==> MarkerRun(Waiting, es) == Some(Holding(grant.value))
      ensures grant.None? ==> MarkerRun(Waiting, es).value.Waiting? || MarkerRun(Waiting, es).value.Left?
      ensures 1 <= |es| <= 6
      ensures forall k :: 0 <= k < |es| - 1 ==> es[k] == LeaseAnswered(Busy)
      ensures grant.None? ==> es[|es| - 1].LeaseAnswered? && !es[|es| - 1].answer.Granted?
      ensures grant.Some? ==> es[|es| - 1] == LeaseAnswered(Granted(grant.value))
      ensures es[|es| - 1] == LeaseAnswered(Busy) ==> clock + 1_000 > old(clock) + 5_000
      ensures grant.Some? ==> old(clock) <= grant.value.requestedAt <= clock <= old(clock) + 5_000
    {
      var giveUpAt := clock + START_MARKER_LEASE_WAIT_MS;
      es := [];
      while true
        invariant MarkerRun(Waiting, es) == Some(Waiting)
        invariant forall k :: 0 <= k < |es| ==> es[k] == LeaseAnswered(Busy)
        invariant clock >= old(clock) + |es| * START_MARKER_LEASE_RETRY_MS
        invariant |es| <= START_MARKER_LEASE_WAIT_MS / START_MARKER_LEASE_RETRY_MS
        decreases giveUpAt - clock
      {
        var answer := RequestStartMarkerLease(giveUpAt);
        ghost var asked := es;
        es := es + [LeaseAnswered(answer)];
        assert es[..|es| - 1] == asked;
        match answer {
          case Granted(g) => return Some(g), es;
          case Superseded => return None, es;
          case RequestFailed => return None, es;
          case Busy =>
            if clock + START_MARKER_LEASE_RETRY_MS > giveUpAt { return None, es; }
            var late: nat :| true;
            clock := clock + START_MARKER_LEASE_RETRY_MS + late;
        }
      }
    }

    /**
     * The write itself, once the lease is held: never started past its deadline, and the lease handed back
     * once GitHub has acknowledged the write or refused it with a 4xx.
     */
    method PostUnderLease(grant: LeaseGrant) returns (es: seq<MarkerEvent>)
      ensures MarkerRun(Holding(grant), es).Some?
      ensures MarkerRun(Holding(grant), es).value in {Left, Released(grant)}
      ensures clock > grant.requestedAt + grant.leaseExpiresInMs - 15_000 ==>
                es == [MarkerDeadlineChecked(clock), LeaseReleased(grant.grantId)]
      ensures clock <= grant.requestedAt + grant.leaseExpiresInMs - 15_000 ==>
                |es| >= 3 && es[..2] == [MarkerDeadlineChecked(clock), MarkerSent(clock)] && es[2].MarkerAnswered?
                && var r := es[2].result;
                   es[3..] == if r.Posted? || (r.HttpError? && 400 <= r.status < 500)
                              then [LeaseReleased(grant.grantId)] else []
    {
      var now := clock;
      es := [MarkerDeadlineChecked(now)];
      RunThen(MarkerStep, Holding(grant), [], es[0]);
      if now > LeaseWriteDeadline(grant) {
        RunThen(MarkerStep, Holding(grant), es, LeaseReleased(grant.grantId));
        return es + [LeaseReleased(grant.grantId)];
      }
      var result: PostResult :| true;
      RunThen(MarkerStep, Holding(grant), es, MarkerSent(now));
      es := es + [MarkerSent(now)];
      RunThen(MarkerStep, Holding(grant), es, MarkerAnswered(result));
      es := es + [MarkerAnswered(result)];
      if Settled(result) {
        RunThen(MarkerStep, Holding(grant), es, LeaseReleased(grant.grantId));
        es := es + [LeaseReleased(grant.grantId)];
      }
    }

    /**
     * Writes "pending" under the lease. The steps are a finished run of the start marker, so the lease
     * is released exactly when no write of it can be outstanding.
     */
    method PostPendingReviewStatus() returns (ghost es: seq<MarkerEvent>)
      modifies this
      ensures log == old(log) + [StartMarker(es)] && clock >= old(clock)
      ensures MarkerCompleted(es) && PostsPending(es) && es != []
    {
      var grant, taken := AcquireStartMarkerLease();
      if grant.Some? {
        var rest := PostUnderLease(grant.value);
        RunJoins(MarkerStep, Waiting, taken, rest);
        taken := taken + rest;
      }
      PostsPendingExactly(taken);
      Do(StartMarker(taken));
      es := taken;
    }

    // ----- the close-out -----

    /** The write of a status read as pending or absent on an open pull request. */
    method WriteWithinDeadline(grant: LeaseGrant) returns (ending: CloseOutEnding, es: seq<CloseOutEvent>)
      ensures CloseOutRun(Checking(grant), es) == Some(Ending(grant, ending))
      ensures clock > grant.requestedAt + grant.leaseExpiresInMs - 15_000 ==>
                es == [CloseOutDeadlineChecked(clock)] && ending == LeaseBudgetExhausted
      ensures clock <= grant.requestedAt + grant.leaseExpiresInMs - 15_000 ==>
                |es| == 3 && es[..2] == [CloseOutDeadlineChecked(clock), CloseOutSent(clock)] && es[2].CloseOutAnswered?
                && ending == if es[2].result.Posted? then ClosedOut else StatusWriteFailed(es[2].result)
    {
      var now := clock;
      RunThen(CloseOutStep, Checking(grant), [], CloseOutDeadlineChecked(now));
      es := [] + [CloseOutDeadlineChecked(now)];
      if now > LeaseWriteDeadline(grant) { return LeaseBudgetExhausted, es; }
      var result: PostResult :| true;
      RunThen(CloseOutStep, Checking(grant), es, CloseOutSent(now));
      es := es + [CloseOutSent(now)];
      RunThen(CloseOutStep, Checking(grant), es, CloseOutAnswered(result));
      es := es + [CloseOutAnswered(result)];
      return if result.Posted? then ClosedOut else StatusWriteFailed(result), es;
    }

    /**
     * What follows a status read as pending or absent: nothing on a pull request known not to be open, and
     * the write on any other, one that could not be read included.
     */
    method WriteIfOpen(grant: LeaseGrant) returns (ending: CloseOutEnding, es: seq<CloseOutEvent>)
      modifies `clock
      ensures CloseOutRun(Owed(grant), es) == Some(Ending(grant, ending)) && clock >= old(clock)
      ensures es != [] && es[0].PullObserved?
      ensures es[0].pull == PullNotOpen ==> |es| == 1 && ending == PrNotOpen
      ensures es[0].pull in {PullOpen, PullUnreadable} ==> |es| >= 2 && es[1] == CloseOutDeadlineChecked(clock)
    {
      var pullRequest: PullRead :| true;
      RunThen(CloseOutStep, Owed(grant), [], PullObserved(pullRequest));
      es := [] + [PullObserved(pullRequest)];
      if pullRequest.PullNotOpen? { return PrNotOpen, es; }
      var elapsed: nat :| true;
      clock := clock + elapsed;
      var rest;
      ending, rest := WriteWithinDeadline(grant);
      RunJoins(CloseOutStep, Owed(grant), es, rest);
      es := es + rest;
    }

    /** Reads the head, and replaces a status it reads as pending or absent while the lease lasts. */
    method WriteTerminalStatus(grant: LeaseGrant) returns (ending: CloseOutEnding, es: seq<CloseOutEvent>)
      modifies `clock
      ensures CloseOutRun(Reading(grant), es) == Some(Ending(grant, ending)) && clock >= old(clock)
      ensures es != [] && (es[0] == TokenFailed || es[0].StatusObserved?)
      ensures es[0] == TokenFailed ==> |es| == 1 && ending == CloseOutEnding.Threw
      ensures es[0] == StatusObserved(Unreadable) ==> |es| == 1 && ending == StatusUnreadable
      ensures es[0].StatusObserved? && es[0].read.Readable? ==>
                if es[0].read.state in {Some(Error), Some(Failure), Some(Success)}
                then |es| == 1 && ending == AlreadyTerminal
                else |es| >= 2 && es[1].PullObserved?
    {
      var token: bool :| true;
      RunThen(CloseOutStep, Reading(grant), [], TokenFailed);
      if !token { return CloseOutEnding.Threw, [] + [TokenFailed]; }
      var status: StatusRead :| true;
      RunThen(CloseOutStep, Reading(grant), [], StatusObserved(status));
      es := [] + [StatusObserved(status)];
      if status.Unreadable? { return StatusUnreadable, es; }
      if Terminal(status.state) { return AlreadyTerminal, es; }
      var rest;
      ending, rest := WriteIfOpen(grant);
      RunJoins(CloseOutStep, Reading(grant), es, rest);
      es := es + rest;
    }

    /** However writing ends, a failed token included, the grant is finalized exactly once, last. */
    method CompleteCloseOut(grant: LeaseGrant) returns (ending: CloseOutEnding, es: seq<CloseOutEvent>)
      modifies `clock
      ensures CloseOutRun(Reading(grant), es) == Some(Finalized(grant, ending)) && clock >= old(clock)
      ensures es != [] && Finalizes(es) == 1
      ensures ClosesOut(es, grant.grantId, grant.requestedAt + grant.leaseExpiresInMs - 15_000)
      ensures es[|es| - 1] == CloseOutFinalized(grant.grantId, if DoneEvidence(es) then Done else Retry)
      ensures ReadTerminal(es) ==> CloseOutSends(es) == 0
    {
      var written;
      ending, written := WriteTerminalStatus(grant);
      es := written + [CloseOutFinalized(grant.grantId, FinalizeOf(ending))];
      RunThen(CloseOutStep, Reading(grant), written, es[|es| - 1]);
      CloseOutHistory(grant, es);
      ClosesOutExactly(grant, es);
    }

    /** Requests a close-out and, when granted, completes it inline; it never throws. */
    method CloseOutReviewStatus() returns (ghost grant: Option<LeaseGrant>, ghost es: seq<CloseOutEvent>)
      modifies this
      ensures log == old(log) + [CloseOutRequested(grant, es)] && clock >= old(clock)
      ensures CloseOutCompleted(grant, es)
      ensures grant.Some? ==>
                && grant.value.requestedAt == old(clock)
                && ClosesOut(es, grant.value.grantId, old(clock) + grant.value.leaseExpiresInMs - 15_000)
    {
      var requestedAt := clock;
      var granted: Option<LeaseGrant> :| granted.None? || granted.value.requestedAt == requestedAt;
      var closeOut: seq<CloseOutEvent> := [];
      if granted.Some? {
        var ending;
        ending, closeOut := CompleteCloseOut(granted.value);
      }
      Do(CloseOutRequested(granted, closeOut));
      grant, es := granted, closeOut;
    }

    // ----- the whole session -----

    /** Sweep, then start marker: neither may stop a review whose session exists. */
    method BeginReview(g: nat) returns (ghost es: seq<Effect>)
      modifies this
      ensures log == old(log) + es && clock >= old(clock)
      ensures |es| == 2 && es[0] == Swept(g) && es[1].StartMarker? && MarkerCompleted(es[1].marker)
    {
      Do(Swept(g));
      ghost var marker := PostPendingReviewStatus();
      es := [Swept(g), StartMarker(marker)];
    }

    /** A definitely rejected review prompt is closed out here; any other failure is left to the reaper. */
    method SendReviewPrompt() returns (r: HandlerResult, ghost es: seq<Effect>)
      modifies this
      ensures log == old(log) + es && clock >= old(clock)
      ensures PromptTrace(es, r)
      ensures es[0] == PromptSent(Accepted) <==> r == Processed
      ensures es[0] == PromptSent(Rejected) <==> |es| == 2 && es[1].CloseOutRequested?
      ensures r in {Processed, Failed} && |es| <= 2
    {
      var outcome: PromptOutcome :| true;
      Do(PromptSent(outcome));
      es := [PromptSent(outcome)];
      if outcome.Accepted? { return Processed, es; }
      if outcome.Rejected? {
        ghost var grant, closeOut := CloseOutReviewStatus();
        es := es + [CloseOutRequested(grant, closeOut)];
      }
      return Failed, es;
    }

    /** A refusal the user can act on is commented on; every other one throws. */
    method ReportFailure(creation: Creation) returns (r: HandlerResult, ghost es: seq<Effect>)
      requires !creation.Created?
      modifies this
      ensures log == old(log) + es && clock >= old(clock)
      ensures if creation in {CreationRefused(403, Some("not_member")), CreationRefused(409, Some("team_archived")),
                              CreationRefused(409, Some("target_team_missing_grant"))}
              then es == [RefusalCommented(r == Skipped(CommentedRefusal))] && r in {Skipped(CommentedRefusal), Failed}
              else es == [] && r == Failed
    {
      var explained := creation.CreationRefused? && creation.code.Some? &&
        ( (creation.status == 403 && creation.code.value == "not_member")
        || (creation.status == 409
            && (creation.code.value == "target_team_missing_grant" || creation.code.value == "team_archived")));
      if !explained { return Failed, []; }
      var posted: bool :| true;
      Do(RefusalCommented(posted));
      return if posted then Skipped(CommentedRefusal) else Failed, [RefusalCommented(posted)];
    }

    /** What follows the session's creation, or its refusal. */
    method FinishReview(g: nat, creation: Creation) returns (r: HandlerResult, ghost es: seq<Effect>)
      modifies this
      ensures log == old(log) + es && clock >= old(clock)
      ensures AfterCreation(es, g, creation, r)
    {
      ghost var rest;
      if creation.Created? {
        es := BeginReview(g);
        r, rest := SendReviewPrompt();
        es := es + rest;
        assert es[2..] == rest;
        return;
      }
      var superseded;
      superseded, es := AbandonReview(g, creation);
      if superseded.Some? { return superseded.value, es; }
      r, rest := ReportFailure(creation);
      es := es + rest;
    }

    /** Admission and everything after it, for a review. */
    method StartReview(review: ReviewRequest) returns (r: HandlerResult, ghost es: seq<Effect>)
      modifies this
      ensures log == old(log) + es && clock >= old(clock)
      ensures ReviewTrace(es, review, r)
    {
      var admission;
      admission, es := AdmitReview(review);
      if admission.NotAdmitted? { return admission.result, es; }
      var g := admission.generation;
      var creation: Creation :| true;
      Do(SessionAsked(Some(g), creation));
      ghost var rest;
      r, rest := FinishReview(g, creation);
      es := es + [SessionAsked(Some(g), creation)] + rest;
      assert es[3..] == rest;
    }

    /** Model selection, routing and target resolution: a refusal is commented on, or any of it throws. */
    method SelectTarget() returns (refusal: Option<HandlerResult>)
      modifies this
      ensures log == old(log) + [Elsewhere] && clock >= old(clock)
      ensures refusal.Some? ==> refusal.value in {Skipped(CommentedRefusal), Failed}
    {
      Do(Elsewhere);
      var outcome: nat :| true;
      refusal := if outcome == 0 then None else if outcome == 1 then Some(Skipped(CommentedRefusal)) else Some(Failed);
    }

    /** A session that answers a mention: it has no fence. */
    method StartPlainSession() returns (r: HandlerResult, ghost es: seq<Effect>)
      modifies this
      ensures log == old(log) + es && clock >= old(clock)
      ensures PlainTrace(es, r)
      ensures r == Processed <==> es[|es| - 1] == PromptSent(Accepted)
      ensures es[|es| - 1].PromptSent? <==> |es| == 3 && es[1].SessionAsked? && es[1].creation.Created?
    {
      var refusal := SelectTarget();
      es := [Elsewhere];
      if refusal.Some? { return refusal.value, es; }
      var creation: Creation :| true;
      Do(SessionAsked(None, creation));
      es := es + [SessionAsked(None, creation)];
      if creation.Created? {
        var outcome: PromptOutcome :| true;
        Do(PromptSent(outcome));
        return if outcome.Accepted? then Processed else Failed, es + [PromptSent(outcome)];
      }
      ghost var rest;
      r, rest := ReportFailure(creation);
      es := es + rest;
    }

    method StartReviewSession(review: ReviewRequest)
      returns (r: HandlerResult, ghost es: seq<Effect>, ghost standDown: seq<Effect>, ghost start: seq<Effect>)
      modifies this
      ensures log == old(log) + es && clock >= old(clock)
      ensures es != [] && SessionTrace(es, Some(review), standDown, start, r)
    {
      var skip;
      skip, standDown := StandDownIfApproved(review);
      es, start := standDown, [];
      if skip.Some? { return skip.value, es, standDown, start; }
      var refusal := SelectTarget();
      es := es + [Elsewhere];
      if refusal.Some? { return refusal.value, es, standDown, start; }
      r, start := StartReview(review);
      es := es + start;
    }

    /** The preflight checks, and the session when they pass. */
    method GatedSession(review: Option<ReviewRequest>)
      returns (r: HandlerResult, ghost es: seq<Effect>, ghost standDown: seq<Effect>, ghost start: seq<Effect>)
      modifies this
      ensures log == old(log) + es && clock >= old(clock)
      ensures SessionTrace(es, review, standDown, start, r)
    {
      es, standDown, start := [], [], [];
      var gate: Option<HandlerResult> :| gate.None? || gate.value in {Skipped(Preflight), Failed};
      if gate.Some? { return gate.value, es, standDown, start; }
      if review.Some? {
        r, es, standDown, start := StartReviewSession(review.value);
      } else {
        r, es := StartPlainSession();
      }
    }

    /**
     * A webhook's session, from its preflight checks to its prompt. However it ends, every generation it
     * obtained has had exactly one fate, told by its result.
     */
    method StartSession(review: Option<ReviewRequest>)
      returns (r: HandlerResult, ghost es: seq<Effect>, ghost fates: seq<(nat, Fate)>)
      modifies this
      ensures log == old(log) + es && clock >= old(clock)
      ensures exists standDown, start :: SessionTrace(es, review, standDown, start, r)
      ensures Fated(es, fates) && |fates| <= 2 && (|fates| == 2 ==> fates[0].1 == RolledBack)
      ensures review.None? ==> fates == []
      ensures r == Processed && review.Some? ==> fates != [] && fates[|fates| - 1].1 == SessionStarted
      ensures r == Skipped(PrApproved) ==> |fates| == 1 && fates[0].1 == SkipEstablished
      ensures r == Skipped(SupersededReview) ==> fates != [] && fates[|fates| - 1].1 == SupersededByNewer
    {
      ghost var standDown, start;
      r, es, standDown, start := GatedSession(review);
      fates := EveryGenerationHasOneFate(es, review, standDown, start, r);
    }
  }
}
