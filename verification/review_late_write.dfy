/**
 * Two comments of the review code do not hold on every run. Each gets a concrete run and an exact
 * condition: which answers let a close-out's write outlive its lease, and for how long a skip is at risk
 * from a close-out granted after the claim.
 */
module ReviewLateWrite {
  import opened Options
  import opened ReviewLease
  import opened ReviewProtocol
  import opened ReviewSafety
  import opened ReviewRuns
  import opened ReviewDrives

  ghost predicate Ends(h: History, s: PR) {
    IsRun(h) && h.states[|h.steps|] == s
  }

  /** One more step of a concrete run. */
  lemma Then(h: History, s: PR, e: Event) returns (h': History, s': PR)
    requires Ends(h, s) && Step(s, e).Some?
    ensures h' == History(h.states + [s'], h.steps + [e]) && Ends(h', s') && Some(s') == Step(s, e)
  {
    s' := Step(s, e).value;
    h' := History(h.states + [s'], h.steps + [e]);
    forall k: nat | k < |h'.steps| ensures Moves(h', k) {
      if k < |h.steps| { assert Moves(h, k); }
    }
  }

  const REQUESTED_REVIEW := map[1 := Row(1, 7, Requested, true)]
  const FIRST_GRANT := LeaseGrant(0, 0, REVIEW_SUBMISSION_LEASE_MS)

  function Closer(pc: CloseOutPc): map<GrantId, Writer> {
    map[0 := Writer(1, FIRST_GRANT, 0, 0, CloseOut(pc))]
  }

  lemma ReviewEnded() returns (h: History, s: PR)
    ensures Ends(h, s) && h.steps == [Claim, Create(1, 1, 7), Admit(1), Record(1)]
    ensures s == PR(0, 1, REQUESTED_REVIEW, map[1 := 7], None, map[], map[], map[], {})
  {
    h, s := Then(History([FRESH], []), FRESH, Claim);
    h, s := Then(h, s, Create(1, 1, 7));
    assert s == PR(0, 1, map[1 := Row(1, 7, Open, false)], map[1 := 7], None, map[], map[], map[], {});
    h, s := Then(h, s, Admit(1));
    assert s == PR(0, 1, map[1 := Row(1, 7, Open, true)], map[1 := 7], None, map[], map[], map[], {});
    h, s := Then(h, s, Record(1));
  }

  /** Review 1 of head 7 reaches a granted close-out, with a newer claim just before the grant if `claimed`. */
  lemma CloseOutGranted(claimed: bool) returns (h: History, s: PR)
    ensures Ends(h, s)
    ensures h.steps == [Claim, Create(1, 1, 7), Admit(1), Record(1)] + (if claimed then [Claim] else [])
                       + [GrantCloseOut(1, 0, 0, 0)]
    ensures s == PR(0, if claimed then 2 else 1, REQUESTED_REVIEW, map[1 := 7],
                    Some(Lease(Grant(0), REVIEW_SUBMISSION_LEASE_MS)), Closer(Reading(FIRST_GRANT)), map[], map[], {})
  {
    h, s := ReviewEnded();
    if claimed { h, s := Then(h, s, Claim); }
    assert !HeadReclaimed(s, 1);
    h, s := Then(h, s, GrantCloseOut(1, 0, 0, 0));
  }

  /** One more step of a close-out. */
  lemma WriterSteps(h0: History, s0: PR, c: GrantId, e: CloseOutEvent) returns (h: History, s: PR)
    requires Ends(h0, s0) && c in s0.writers && s0.writers[c].role.CloseOut?
    requires CloseOutStep(s0.writers[c].role.closeOut, e).Some? && CloseOutEffect(s0, c, s0.writers[c], e).Some?
    ensures Ends(h, s) && h.steps == h0.steps + [Bot(c, CloseOutStepped(e))] && h.states == h0.states + [s]
    ensures var w := s0.writers[c];
            s == CloseOutEffect(s0, c, w, e).value.(
                   writers := s0.writers[c := w.(role := CloseOut(CloseOutStep(w.role.closeOut, e).value))])
  {
    h, s := Then(h0, s0, Bot(c, CloseOutStepped(e)));
  }

  /** One more step of that close-out. */
  lemma CloserSteps(h0: History, s0: PR, pc: CloseOutPc, e: CloseOutEvent) returns (h: History, s: PR)
    requires Ends(h0, s0) && s0.writers == Closer(pc)
    requires CloseOutStep(pc, e).Some? && CloseOutEffect(s0, 0, Closer(pc)[0], e).Some?
    ensures Ends(h, s) && h.steps == h0.steps + [Bot(0, CloseOutStepped(e))] && h.states == h0.states + [s]
    ensures s == CloseOutEffect(s0, 0, Closer(pc)[0], e).value.(writers := Closer(CloseOutStep(pc, e).value))
  {
    h, s := WriterSteps(h0, s0, 0, e);
  }

  /** That close-out reads no status, finds the PR open and its deadline not passed, and sends its write. */
  lemma CloseOutSends(h0: History, s0: PR) returns (h: History, s: PR)
    requires Ends(h0, s0) && s0.now == 0 && s0.shown == map[] && s0.writers == Closer(Reading(FIRST_GRANT))
    ensures Ends(h, s) && |h.steps| == |h0.steps| + 4 && h.steps[..|h0.steps|] == h0.steps
    ensures s == s0.(writers := Closer(Writing(FIRST_GRANT)), writes := s0.writes[0 := Write(0, InFlight)])
  {
    h, s := CloserSteps(h0, s0, Reading(FIRST_GRANT), StatusObserved(Readable(None)));
    h, s := CloserSteps(h, s, Owed(FIRST_GRANT), PullObserved(PullOpen));
    h, s := CloserSteps(h, s, Checking(FIRST_GRANT), CloseOutDeadlineChecked(0));
    h, s := CloserSteps(h, s, MayWrite(FIRST_GRANT, 0), CloseOutSent(0));
  }

  /** The close-out of a review that is still the latest finalizes `retry` on an unsettled answer. */
  lemma CloseOutGivesUp(r: PostResult) returns (h: History, s: PR)
    requires LeavesWriteOpen(r)
    ensures Ends(h, s)
    ensures s == PR(0, 1, REQUESTED_REVIEW, map[1 := 7], Some(Lease(Grant(0), REVIEW_SUBMISSION_LEASE_MS)),
                    Closer(Finalized(FIRST_GRANT, StatusWriteFailed(r))), map[0 := Write(0, InFlight)], map[], {})
  {
    h, s := CloseOutGranted(false);
    h, s := CloseOutSends(h, s);
    h, s := CloserSteps(h, s, Writing(FIRST_GRANT), CloseOutAnswered(r));
    h, s := CloserSteps(h, s, Ending(FIRST_GRANT, StatusWriteFailed(r)), CloseOutFinalized(0, Retry));
  }

  /** And gives its lease back. */
  lemma LeaseGivenBack(r: PostResult) returns (h: History, s: PR)
    requires LeavesWriteOpen(r)
    ensures Ends(h, s)
    ensures s == PR(0, 1, REQUESTED_REVIEW, map[1 := 7], Some(Lease(Grant(0), -1)),
                    Closer(Finalized(FIRST_GRANT, StatusWriteFailed(r))), map[0 := Write(0, InFlight)], map[], {})
  {
    h, s := CloseOutGivesUp(r);
    h, s := Then(h, s, EndLease(0));
  }

  lemma NewerReviewAdmitted(h0: History, s0: PR) returns (h: History, s: PR)
    requires Ends(h0, s0) && s0.generation == 1 && s0.rows == REQUESTED_REVIEW && s0.heads == map[1 := 7]
    ensures Ends(h, s)
    ensures s == s0.(generation := 2, rows := REQUESTED_REVIEW[2 := Row(2, 7, Open, true)],
                     heads := map[1 := 7, 2 := 7])
  {
    h, s := Then(h0, s0, Claim);
    h, s := Then(h, s, Create(2, 2, 7));
    assert s.rows == REQUESTED_REVIEW[2 := Row(2, 7, Open, false)];
    h, s := Then(h, s, Admit(2));
  }

  /** The lease is free, and the agent of a newer review of the same head takes it. */
  lemma NewerReviewTakesLease(h0: History, s0: PR) returns (h: History, s: PR)
    requires Ends(h0, s0) && s0.now == 0 && s0.generation == 1 && LeaseFree(s0)
    requires s0.rows == REQUESTED_REVIEW && s0.heads == map[1 := 7]
    ensures Ends(h, s)
    ensures s == s0.(generation := 2, rows := REQUESTED_REVIEW[2 := Row(2, 7, Open, true)],
                     heads := map[1 := 7, 2 := 7],
                     lease := Some(Lease(Agent(2), REVIEW_SUBMISSION_LEASE_MS)))
  {
    h, s := NewerReviewAdmitted(h0, s0);
    h, s := Then(h, s, AgentAcquire(2));
  }

  /** A verdict or a skip lands on the head of review 1, then the error of its first close-out. */
  lemma ErrorLandsOver(h0: History, s0: PR) returns (h: History, s: PR, t: PR)
    requires Ends(h0, s0) && s0.shown == map[] && 1 in s0.heads && s0.heads[1] == 7 && CanLand(s0, 0)
    requires s0.writers[0].role.CloseOut? && s0.writers[0].session == 1
    ensures Ends(h, t) && h.steps == h0.steps + [OtherWrite(7, Success), Land(0)] && h.states == h0.states + [s, t]
    ensures s == s0.(shown := map[7 := Shown(Success, ByOther)])
    ensures t.lease == s0.lease && t.now == s0.now && t.shown == map[7 := Shown(Error, ByCloseOut(1))]
  {
    h, s := Then(h0, s0, OtherWrite(7, Success));
    h, t := Then(h, s, Land(0));
  }

  /**
   * The close-out's comment says nothing was written when its post was not acknowledged. After an
   * answer that does not settle the write, the close-out gives its lease back all the same: here a
   * newer review of the head takes the lease and publishes, and the old error lands over its success.
   */
  lemma UnsettledCloseOutOverwritesNewerVerdict(r: PostResult) returns (h: History, s: PR, t: PR)
    requires LeavesWriteOpen(r)
    ensures Ends(h, t) && |h.steps| > 0 && h.states[|h.steps| - 1] == s && h.steps[|h.steps| - 1] == Land(0)
    ensures t.lease == Some(Lease(Agent(2), REVIEW_SUBMISSION_LEASE_MS)) && !LeaseFree(t)
    ensures s.shown == map[7 := Shown(Success, ByOther)] && t.shown == map[7 := Shown(Error, ByCloseOut(1))]
  {
    h, s := LeaseGivenBack(r);
    h, s := NewerReviewTakesLease(h, s);
    h, s, t := ErrorLandsOver(h, s);
  }

  predicate FinalizedOn(w: Writer, r: PostResult) {
    w.role.CloseOut? && w.role.closeOut.Finalized? && w.role.closeOut.ending == StatusWriteFailed(r)
  }

  /** In some run, a close-out has finalized on answer `r` and its write may still land. */
  ghost predicate CanOutliveFinalize(r: PostResult) {
    exists h: History, k: nat, id: GrantId :: IsRun(h) && k <= |h.steps| && CanLand(h.states[k], id)
      && FinalizedOn(h.states[k].writers[id], r)
  }

  /** A close-out's write can outlive its finalize exactly when the answer did not settle it. */
  lemma WriteOutlivesFinalizeIffUnsettled(r: PostResult)
    ensures CanOutliveFinalize(r) <==> r == NoAnswer || (r.HttpError? && !(400 <= r.status < 500))
  {
    if LeavesWriteOpen(r) {
      var h, s := CloseOutGivesUp(r);
      assert CanLand(h.states[|h.steps|], 0);
    } else {
      forall h: History, k: nat, id | IsRun(h) && k <= |h.steps| && CanLand(h.states[k], id)
        ensures !FinalizedOn(h.states[k].writers[id], r)
      { FinalizedWrites(h, k, id); }
    }
  }

  /**
   * The stand-down's comment says only a writer that held the lease when the claim landed can land
   * over its skip. A close-out of an older review can also be granted after the claim, read "pending"
   * or nothing before the skip lands, and land its error after it.
   */
  lemma CloseOutGrantedAfterClaimOverwritesSkip() returns (h: History, s: PR)
    ensures Ends(h, s) && |h.steps| == 12
    ensures h.steps[4] == Claim && h.steps[5].GrantCloseOut? && h.steps[10] == OtherWrite(7, Success)
    ensures h.steps[11] == Land(0)
    ensures s.shown == map[7 := Shown(Error, ByCloseOut(1))]
  {
    h, s := CloseOutGranted(true);
    var granted := h.steps;
    h, s := CloseOutSends(h, s);
    assert h.steps[..6][4] == granted[4] && h.steps[..6][5] == granted[5];
    var skipped;
    h, skipped, s := ErrorLandsOver(h, s);
  }

  // ----- how long a skip is at risk -----

  ghost predicate OverwritesSkip(h: History, i: nat, g: nat, k: nat, m: nat, c: GrantId, head: Head, d: nat) {
    && IsRun(h) && i < g < k < m < |h.steps|
    && h.steps[i] == Claim && h.steps[g].GrantCloseOut? && h.steps[g].id == c && h.steps[k] == OtherWrite(head, Success)
    && CloseOutLandsOn(h, m, c, head) && NoPendingBetween(h, k + 1, m, head)
    && h.states[m].now == h.states[k + 1].now + d
  }

  /**
   * In some run a claim is followed by the grant of an older review's close-out, then by the skip, and the
   * close-out's error lands over the skip `d` milliseconds after it, with no "pending" in between.
   */
  ghost predicate CanOverwriteSkipAfter(d: nat) {
    exists h: History, i: nat, g: nat, k: nat, m: nat, c: GrantId, head: Head ::
      OverwritesSkip(h, i, g, k, m, c, head, d)
  }

  /** A close-out granted after a claim has read its head and found the PR open when the skip lands. */
  lemma SkipLandsAfterRead() returns (h: History, s: PR)
    ensures Ends(h, s) && |h.steps| == 9 && h.steps[4] == Claim && h.steps[5].GrantCloseOut? && h.steps[5].id == 0
    ensures h.steps[8] == OtherWrite(7, Success)
    ensures s == PR(0, 2, REQUESTED_REVIEW, map[1 := 7], Some(Lease(Grant(0), REVIEW_SUBMISSION_LEASE_MS)),
                    Closer(Checking(FIRST_GRANT)), map[], map[7 := Shown(Success, ByOther)], {})
  {
    h, s := CloseOutGranted(true);
    h, s := CloserSteps(h, s, Reading(FIRST_GRANT), StatusObserved(Readable(None)));
    h, s := CloserSteps(h, s, Owed(FIRST_GRANT), PullObserved(PullOpen));
    h, s := Then(h, s, OtherWrite(7, Success));
  }

  function Earlier(a: nat, b: nat): nat { if a <= b then a else b }

  /** A close-out just granted its lease has read its head, and finds its pull request open. */
  predicate JustChecking(s: PR, c: GrantId) {
    c in s.writers && c !in s.writes &&
    var w := s.writers[c];
    && w.role == CloseOut(Checking(w.grant)) && w.session in s.heads
    && w.grant.requestedAt == s.now + w.skew && w.grant.leaseExpiresInMs == REVIEW_SUBMISSION_LEASE_MS
  }

  /** Nothing lands in the steps a run goes on with. */
  ghost predicate LandsNothing(h0: History, h: History) {
    && h0.steps <= h.steps && h0.states <= h.states
    && forall n :: |h0.steps| <= n < |h.steps| ==> !h.steps[n].Land?
  }

  /** It checks its deadline and sends as late as it may, to land `d` milliseconds later. */
  lemma SendsToLandAfter(h0: History, s0: PR, c: GrantId, d: nat) returns (h: History, s: PR)
    requires Ends(h0, s0) && JustChecking(s0, c) && d <= REVIEW_SUBMISSION_LEASE_MS
    ensures Ends(h, s) && s.now == s0.now + d && CanLand(s, c) && LandsNothing(h0, h)
    ensures s.writers == s0.writers[c := s0.writers[c].(role := CloseOut(Writing(s0.writers[c].grant)))]
    ensures s.heads == s0.heads
  {
    var w := s0.writers[c];
    var allowed := LeaseWriteDeadline(w.grant) - w.grant.requestedAt;
    var checked := Earlier(d, allowed);
    var sent := Earlier(d, allowed + LEASE_WRITE_MARGIN_MS);
    h, s := Then(h0, s0, Tick(checked));
    h, s := WriterSteps(h, s, c, CloseOutDeadlineChecked(s.now + w.skew));
    h, s := Then(h, s, Tick(sent - checked));
    h, s := WriterSteps(h, s, c, CloseOutSent(s.now + w.skew));
    h, s := Then(h, s, Tick(d - sent));
  }

  lemma OverwritesAfter(d: nat)
    requires d <= REVIEW_SUBMISSION_LEASE_MS
    ensures CanOverwriteSkipAfter(d)
  {
    var h0, s0 := SkipLandsAfterRead();
    var h1, s1 := SendsToLandAfter(h0, s0, 0, d);
    var h, s := Then(h1, s1, Land(0));
    var m := |h1.steps|;
    assert h.states[m] == s1 && h.steps[m] == Land(0);
    assert h.states[9] == h1.states[9] == h0.states[9] == s0;
    assert forall n :: 9 <= n < m ==> h.steps[n] == h1.steps[n];
    assert CloseOutLandsOn(h, m, 0, 7);
    assert h.steps[4] == h0.steps[4] && h.steps[5] == h0.steps[5] && h.steps[8] == h0.steps[8];
    assert OverwritesSkip(h, 4, 5, 8, m, 0, 7, d);
  }

  lemma OverwritesWithinLease(h: History, k: nat, m: nat, c: GrantId, head: Head)
    requires IsRun(h) && k < m < |h.steps| && h.steps[k] == OtherWrite(head, Success)
    requires CloseOutLandsOn(h, m, c, head) && NoPendingBetween(h, k + 1, m, head)
    ensures h.states[m].now <= h.states[k + 1].now + REVIEW_SUBMISSION_LEASE_MS
  {
    assert Moves(h, k);
    assert ShowsVerdict(h.states[k + 1], head);
    var j, state := OverwriterReadBefore(h, k + 1, m, c, head);
  }

  /**
   * The skip is at risk from a close-out granted after the claim for exactly one submission lease: after
   * that no such close-out can land over it, and up to then one can.
   */
  lemma SkipAtRiskForOneLease(d: nat)
    ensures CanOverwriteSkipAfter(d) <==> d <= 120_000
  {
    if d <= REVIEW_SUBMISSION_LEASE_MS { OverwritesAfter(d); }
    if h: History, i: nat, g: nat, k: nat, m: nat, c: GrantId, head: Head :| OverwritesSkip(h, i, g, k, m, c, head, d) {
      OverwritesWithinLease(h, k, m, c, head);
    }
  }
}
