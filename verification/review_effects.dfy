/**
 * What a webhook handler does to the outside world, as a log of effects; the order a review's handler
 * takes them in; and the ledger of the generations it obtained, each of which ends with one fate.
 */
module ReviewEffects {
  import opened Options
  import opened ReviewLease

  datatype Snapshot = SnapshotUnreadable | Snapshot(headSha: string, open: bool, draft: bool)

  datatype Approval = ApprovalUnreadable | Approved | NotApproved

  datatype Creation = Created(sessionId: nat) | CreationRefused(status: nat, code: Option<string>) | CreationThrew

  /** `Rejected` is a 4xx; `Unclear` any failure after which the prompt may have arrived. */
  datatype PromptOutcome = Accepted | Rejected | Unclear

  datatype Effect =
    | ApprovalRead(approval: Approval)
    | SnapshotRead(snapshot: Snapshot)
    /** `None`: the claim threw, so no generation was obtained. */
    | Claimed(obtained: Option<nat>)
    | ReleaseRequested(generation: nat)
    | Swept(generation: nat)
    | HeadStatusRead(read: StatusRead)
    | SkipPosted(result: PostResult)
    /** `fence` is the generation the session was created under, for a review. */
    | SessionAsked(fence: Option<nat>, creation: Creation)
    /** The steps of a review's start marker, and of a close-out when it was granted. */
    | StartMarker(marker: seq<MarkerEvent>)
    | CloseOutRequested(grant: Option<LeaseGrant>, closeOut: seq<CloseOutEvent>)
    | PromptSent(outcome: PromptOutcome)
    /** A comment that explains why no session was created, posted or not. */
    | RefusalCommented(posted: bool)
    /** Comments, reactions, routing and settings lookups. */
    | Elsewhere

  // ----- requests and results -----

  datatype Trigger = Opened | Reopened | Synchronize | ReadyForReview

  /** `trigger` is absent for a review somebody asked for. */
  datatype ReviewRequest = ReviewRequest(headSha: string, trigger: Option<Trigger>)

  datatype SkipReason =
    | Preflight | StaleHeadSha | PrApproved | FreshnessCheckFailed | SupersededReview | CommentedRefusal

  datatype HandlerResult = Processed | Skipped(reason: SkipReason) | Failed

  datatype StandDown = StoodDown | Stale | Review

  /** A 409 without a refusal code: a newer trigger claimed the pull request first. */
  predicate SupersededCreation(c: Creation) {
    c.CreationRefused? && c.status == 409 && c.code.None?
  }

  /** The refusals a pull request comment explains. */
  predicate Explained(c: Creation) {
    c.CreationRefused? &&
    ( (c.status == 403 && c.code == Some("not_member"))
    || (c.status == 409 && c.code in {Some("target_team_missing_grant"), Some("team_archived")}))
  }

  // ----- the order of effects -----

  /** The head the trigger saw, open, and not a draft. */
  predicate Fresh(s: Snapshot, headSha: string) {
    s == Snapshot(headSha, true, false)
  }

  /** A stand-down once it has claimed `g`: it holds the skip, or hands the claim back. */
  predicate SkipTrace(es: seq<Effect>, g: nat, stood: bool) {
    && es != [] && es[0].HeadStatusRead?
    && (if stood then es[0].read.Readable?
                      && es[1..] == (if es[0].read.state in {None, Some(Pending)} then [SkipPosted(Posted)] else [])
                                    + [Swept(g)]
        else if es[0].read.Unreadable? then es[1..] == [ReleaseRequested(g)]
        else es[0].read.state in {None, Some(Pending)} && |es| == 3 && es[1].SkipPosted?
             && !es[1].result.Posted? && es[2] == ReleaseRequested(g))
  }

  predicate StandDownTrace(es: seq<Effect>, headSha: string, r: StandDown) {
    && es != [] && es[0].SnapshotRead?
    && if es[0].snapshot.SnapshotUnreadable? then r == Review && |es| == 1
       else if !Fresh(es[0].snapshot, headSha) then r == Stale && |es| == 1
       else |es| >= 2 && es[1].Claimed? && r != Stale
            && if es[1].obtained.None? then r == Review && |es| == 2
               else SkipTrace(es[2..], es[1].obtained.value, r.StoodDown?)
  }

  /** The skip a stand-down ends the handler with, when it does. */
  function SkipOf(r: StandDown): Option<HandlerResult> {
    match r
    case Stale => Some(Skipped(StaleHeadSha))
    case StoodDown => Some(Skipped(PrApproved))
    case Review => None
  }

  /** Only an automatic review of a pull request that is not brand new looks for an approval. */
  predicate StandDownIfApprovedTrace(es: seq<Effect>, review: ReviewRequest, skip: Option<HandlerResult>) {
    if review.trigger.None? || review.trigger.value.Opened? then es == [] && skip.None?
    else es != [] && es[0].ApprovalRead?
         && if !es[0].approval.Approved? then |es| == 1 && skip.None?
            else exists r :: StandDownTrace(es[1..], review.headSha, r) && skip == SkipOf(r)
  }

  predicate Admissible(s: Snapshot, review: ReviewRequest) {
    s.Snapshot? && s.headSha == review.headSha && s.open && !(review.trigger.Some? && s.draft)
  }

  predicate CloseOutCompleted(grant: Option<LeaseGrant>, es: seq<CloseOutEvent>) {
    if grant.None? then es == []
    else CloseOutRun(Reading(grant.value), es).Some? && CloseOutRun(Reading(grant.value), es).value.Finalized?
  }

  /** A close-out is requested exactly when the prompt was definitely rejected. */
  predicate PromptTrace(es: seq<Effect>, r: HandlerResult) {
    && es != [] && es[0].PromptSent?
    && r == (if es[0].outcome.Accepted? then Processed else Failed)
    && if es[0].outcome.Rejected?
       then |es| == 2 && es[1].CloseOutRequested? && CloseOutCompleted(es[1].grant, es[1].closeOut)
       else |es| == 1
  }

  predicate MarkerCompleted(es: seq<MarkerEvent>) {
    MarkerRun(Waiting, es).Some? && MarkerEnds(MarkerRun(Waiting, es).value)
  }

  /** After a session was asked for under `g`: what is left to do, and what the handler answers. */
  predicate AfterCreation(es: seq<Effect>, g: nat, c: Creation, r: HandlerResult) {
    if c.Created? then
      |es| >= 3 && es[0] == Swept(g) && es[1].StartMarker? && MarkerCompleted(es[1].marker)
      && PromptTrace(es[2..], r)
    else if SupersededCreation(c) then es == [] && r == Skipped(SupersededReview)
    else if Explained(c) then
      es == [ReleaseRequested(g), RefusalCommented(r == Skipped(CommentedRefusal))]
      && r in {Skipped(CommentedRefusal), Failed}
    else es == [ReleaseRequested(g)] && r == Failed
  }

  /** Admission directly before creation: snapshot, claim, create, and nothing in between. */
  predicate ReviewTrace(es: seq<Effect>, review: ReviewRequest, r: HandlerResult) {
    && es != [] && es[0].SnapshotRead?
    && if es[0].snapshot.SnapshotUnreadable? then |es| == 1 && r == Skipped(FreshnessCheckFailed)
       else if !Admissible(es[0].snapshot, review) then |es| == 1 && r == Skipped(StaleHeadSha)
       else |es| >= 2 && es[1].Claimed?
            && if es[1].obtained.None? then |es| == 2 && r == Failed
               else |es| >= 3 && es[2].SessionAsked? && es[2].fence == es[1].obtained
                    && AfterCreation(es[3..], es[1].obtained.value, es[2].creation, r)
  }

  // ----- the ledger -----

  datatype Fate = SessionStarted | SkipEstablished | SupersededByNewer | RolledBack

  datatype Ledger = Ledger(fates: seq<(nat, Fate)>, open: Option<nat>)

  function Settle(l: Ledger, g: nat, fate: Fate): Option<Ledger> {
    if l.open == Some(g) then Some(Ledger(l.fates + [(g, fate)], None)) else None
  }

  /** `None` when the effect would give a generation a second fate, or one that was never obtained. */
  function LedgerStep(l: Ledger, e: Effect): Option<Ledger> {
    match e
    case Claimed(Some(g)) => if l.open.None? then Some(l.(open := Some(g))) else None
    case Claimed(None) => if l.open.None? then Some(l) else None
    case ReleaseRequested(g) => Settle(l, g, RolledBack)
    case Swept(g) =>
      if l.open.None? && |l.fates| > 0 && l.fates[|l.fates| - 1] == (g, SessionStarted) then Some(l)
      else Settle(l, g, SkipEstablished)
    case SessionAsked(Some(g), creation) =>
      if creation.Created? then Settle(l, g, SessionStarted)
      else if SupersededCreation(creation) then Settle(l, g, SupersededByNewer)
      else if l.open == Some(g) then Some(l) else None
    case SessionAsked(None, _) => if l.open.None? then Some(l) else None
    case _ => Some(l)
  }

  function LedgerRun(l: Ledger, es: seq<Effect>): Option<Ledger>
    decreases |es|
  {
    if es == [] then Some(l) else
    match LedgerStep(l, es[0])
    case None => None
    case Some(next) => LedgerRun(next, es[1..])
  }

  /** From a ledger with nothing open, `es` obtains generations with exactly these fates. */
  ghost predicate Fated(es: seq<Effect>, fates: seq<(nat, Fate)>) {
    forall before: seq<(nat, Fate)> :: LedgerRun(Ledger(before, None), es) == Some(Ledger(before + fates, None))
  }

  lemma {:induction false} LedgerRunJoins(l: Ledger, a: seq<Effect>, b: seq<Effect>)
    requires LedgerRun(l, a).Some?
    ensures LedgerRun(l, a + b) == LedgerRun(LedgerRun(l, a).value, b)
    decreases |a|
  {
    if a == [] { assert a + b == b; }
    else {
      assert (a + b)[1..] == a[1..] + b;
      LedgerRunJoins(LedgerStep(l, a[0]).value, a[1..], b);
    }
  }

  lemma FatedJoins(a: seq<Effect>, b: seq<Effect>, f: seq<(nat, Fate)>, g: seq<(nat, Fate)>)
    requires Fated(a, f) && Fated(b, g)
    ensures Fated(a + b, f + g)
  {
    forall before: seq<(nat, Fate)>
      ensures LedgerRun(Ledger(before, None), a + b) == Some(Ledger(before + (f + g), None))
    {
      LedgerRunJoins(Ledger(before, None), a, b);
      assert before + f + g == before + (f + g);
    }
  }

  /** One effect at the front of a run. */
  lemma LedgerTakes(l: Ledger, e: Effect, es: seq<Effect>)
    ensures LedgerRun(l, [e] + es) == (if LedgerStep(l, e).Some? then LedgerRun(LedgerStep(l, e).value, es) else None)
  {
    assert ([e] + es)[1..] == es;
  }
}
