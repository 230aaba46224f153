/**
 * Who gets the submission lease, and after how long: no lease outlives its holder by more than its term,
 * so a review that is entitled to the lease gets it by waiting, and no other review does.
 */
module ReviewProgress {
  import opened Options
  import opened ReviewLease
  import opened ReviewProtocol
  import opened ReviewSafety
  import opened ReviewRuns
  import opened ReviewLateWrite

  // ----- leases end -----

  predicate LeaseBounded(s: PR) {
    s.lease.Some? ==> s.lease.value.expiresAt <= s.now + 120_000
  }

  lemma StepKeepsLeaseBounded(s: PR, e: Event)
    requires Inv(s) && LeaseBounded(s) && Step(s, e).Some?
    ensures LeaseBounded(Step(s, e).value)
  {
    if e.Bot? { BotStepIsLocal(s, e.id, e.step); }
  }

  lemma {:induction false} LeasesAreBounded(h: History, k: nat)
    requires IsRun(h) && k <= |h.steps|
    ensures LeaseBounded(h.states[k])
  {
    if k > 0 {
      LeasesAreBounded(h, k - 1);
      Reached(h, k - 1);
      assert Moves(h, k - 1);
      StepKeepsLeaseBounded(h.states[k - 1], h.steps[k - 1]);
    }
  }

  // ----- who is entitled -----

  /** Its turn has ended, and no newer admitted review is registered on its head. */
  predicate OwedCloseOut(s: PR, x: SessionId) {
    && x in s.rows && s.rows[x].request == Requested
    && forall y :: y in s.rows && s.rows[y].head == s.rows[x].head && s.rows[y].admitted ==>
         s.rows[y].generation <= s.rows[x].generation
  }

  /** It is the latest claim's review, and its turn has not ended. */
  predicate LatestRunning(s: PR, x: SessionId) {
    x in s.rows && s.rows[x].generation == s.generation && s.rows[x].request == Open
  }

  /** Nobody's lease is live `d` milliseconds on. */
  predicate NoLeaseAfter(s: PR, d: nat) {
    s.lease == None || s.lease.value.expiresAt < s.now + d
  }

  /** Asked for `d` milliseconds on, the lease is granted to `holder` for `term` milliseconds. */
  predicate GetsLeaseAfter(s: PR, d: nat, e: Event, holder: Holder, term: nat) {
    var later := s.(now := s.now + d);
    && Step(s, Tick(d)) == Some(later) && Step(later, e).Some?
    && Step(later, e).value.lease == Some(Lease(holder, s.now + d + term))
  }

  lemma CloseOutGets(s: PR, d: nat, x: SessionId, id: GrantId)
    requires Inv(s)
    ensures GetsLeaseAfter(s, d, GrantCloseOut(x, id, s.now, 0), Grant(id), 120_000) <==>
            OwedCloseOut(s, x) && NoLeaseAfter(s, d) && id !in s.writers
  {}

  lemma MarkerGets(s: PR, d: nat, x: SessionId, id: GrantId)
    requires Inv(s)
    ensures GetsLeaseAfter(s, d, GrantMarker(x, id, s.now, 0), Grant(id), 30_000) <==>
            LatestRunning(s, x) && NoLeaseAfter(s, d) && id !in s.writers
  {}

  lemma AgentGets(s: PR, d: nat, x: SessionId)
    ensures GetsLeaseAfter(s, d, AgentAcquire(x), Agent(x), 120_000) <==>
            LatestRunning(s, x) && (NoLeaseAfter(s, d) || s.lease.value.holder == Agent(x))
  {}

  lemma {:induction false} UnusedId(ids: set<GrantId>) returns (id: GrantId)
    ensures forall n :: n in ids ==> n < id
  {
    id := 0;
    if ids != {} {
      var m :| m in ids;
      id := UnusedId(ids - {m});
      if id <= m { id := m + 1; }
      assert forall n :: n in ids ==> n == m || n in ids - {m};
    }
  }

  /**
   * In every reachable state: a review gets the lease for its close-out by waiting exactly when its close-out
   * is owed, for its start marker and for its agent exactly when it is the latest and still running; and it
   * need not wait longer than one submission lease.
   */
  lemma EntitledGetLease(h: History, k: nat, x: SessionId)
    requires IsRun(h) && k <= |h.steps|
    ensures var s := h.states[k];
            && (OwedCloseOut(s, x) <==>
                 exists d: nat, id :: GetsLeaseAfter(s, d, GrantCloseOut(x, id, s.now, 0), Grant(id), 120_000))
            && (LatestRunning(s, x) <==>
                 exists d: nat, id :: GetsLeaseAfter(s, d, GrantMarker(x, id, s.now, 0), Grant(id), 30_000))
            && (LatestRunning(s, x) <==>
                 exists d: nat :: GetsLeaseAfter(s, d, AgentAcquire(x), Agent(x), 120_000))
            && NoLeaseAfter(s, 120_001)
  {
    var s := h.states[k];
    Reached(h, k);
    LeasesAreBounded(h, k);
    var id := UnusedId(s.writers.Keys);
    forall d: nat, i ensures
      && (GetsLeaseAfter(s, d, GrantCloseOut(x, i, s.now, 0), Grant(i), 120_000) ==> OwedCloseOut(s, x))
      && (GetsLeaseAfter(s, d, GrantMarker(x, i, s.now, 0), Grant(i), 30_000) ==> LatestRunning(s, x))
      && (GetsLeaseAfter(s, d, AgentAcquire(x), Agent(x), 120_000) ==> LatestRunning(s, x))
    {
      CloseOutGets(s, d, x, i);
      MarkerGets(s, d, x, i);
      AgentGets(s, d, x);
    }
    CloseOutGets(s, 120_001, x, id);
    MarkerGets(s, 120_001, x, id);
    AgentGets(s, 120_001, x);
  }

  // ----- a claim given back -----

  /** A claim rolled back before anyone else acts leaves everything as it was. */
  lemma ClaimRolledBack(h: History, k: nat)
    requires IsRun(h) && k <= |h.steps|
    ensures var s := h.states[k];
            Step(s, Claim).Some? && Step(Step(s, Claim).value, Unclaim(s.generation + 1)) == Some(s)
  {
    RowsReached(h, k);
  }

  /** A rollback that comes after a newer claim, or after its own session's registration, changes nothing. */
  lemma LateRollbackIgnored(s: PR, claimed: int)
    ensures claimed != s.generation ==> Step(s, Unclaim(claimed)) == Some(s)
    ensures (exists x :: x in s.rows && s.rows[x].generation == claimed) ==> Step(s, Unclaim(claimed)) == Some(s)
  {}

  // ----- a whole life -----

  const CLOSE_OUT_GRANT := LeaseGrant(1, 0, REVIEW_SUBMISSION_LEASE_MS)
  const MARKER_GRANT := LeaseGrant(0, 0, START_MARKER_LEASE_MS)

  function Marked(pc: MarkerPc): map<GrantId, Writer> {
    map[0 := Writer(1, MARKER_GRANT, 0, 0, Marker(pc))]
  }

  lemma MarkerSteps(h0: History, s0: PR, pc: MarkerPc, e: MarkerEvent) returns (h: History, s: PR)
    requires Ends(h0, s0) && s0.writers == Marked(pc)
    requires MarkerStep(pc, e).Some? && MarkerEffect(s0, 0, Marked(pc)[0], e).Some?
    ensures Ends(h, s)
    ensures s == MarkerEffect(s0, 0, Marked(pc)[0], e).value.(writers := Marked(MarkerStep(pc, e).value))
  {
    h, s := Then(h0, s0, Bot(0, MarkerStepped(e)));
  }

  lemma MarkerGranted() returns (h: History, s: PR)
    ensures Ends(h, s)
    ensures s == PR(0, 1, map[1 := Row(1, 7, Open, true)], map[1 := 7], Some(Lease(Grant(0), START_MARKER_LEASE_MS)),
                    Marked(Holding(MARKER_GRANT)), map[], map[], {})
  {
    h, s := Then(History([FRESH], []), FRESH, Claim);
    h, s := Then(h, s, Create(1, 1, 7));
    assert s == PR(0, 1, map[1 := Row(1, 7, Open, false)], map[1 := 7], None, map[], map[], map[], {});
    h, s := Then(h, s, Admit(1));
    assert s == PR(0, 1, map[1 := Row(1, 7, Open, true)], map[1 := 7], None, map[], map[], map[], {});
    h, s := Then(h, s, GrantMarker(1, 0, 0, 0));
  }

  /** A review's start marker posts "pending" and hands its lease back. */
  lemma PendingShown() returns (h: History, s: PR)
    ensures Ends(h, s)
    ensures s == PR(0, 1, map[1 := Row(1, 7, Open, true)], map[1 := 7], None, Marked(Released(MARKER_GRANT)),
                    map[0 := Write(0, Landed)], map[7 := Shown(Pending, ByMarker(1))], {})
  {
    h, s := MarkerGranted();
    h, s := MarkerSteps(h, s, Holding(MARKER_GRANT), MarkerDeadlineChecked(0));
    h, s := MarkerSteps(h, s, Cleared(MARKER_GRANT, 0), MarkerSent(0));
    h, s := Then(h, s, Land(0));
    h, s := MarkerSteps(h, s, Sent(MARKER_GRANT), MarkerAnswered(Posted));
    h, s := MarkerSteps(h, s, OwesRelease(MARKER_GRANT), LeaseReleased(0));
    h, s := Then(h, s, EndLease(0));
  }

  lemma AgentTurn() returns (h: History, s: PR)
    ensures Ends(h, s)
    ensures s == PR(0, 1, map[1 := Row(1, 7, Open, true)], map[1 := 7], None, Marked(Released(MARKER_GRANT)),
                    map[0 := Write(0, Landed)], map[7 := Shown(Pending, ByMarker(1))], {})
  {
    var h0, s0 := PendingShown();
    h, s := Then(h0, s0, AgentAcquire(1));
    assert s == s0.(lease := Some(Lease(Agent(1), REVIEW_SUBMISSION_LEASE_MS)));
    h, s := Then(h, s, AgentRelease(1));
  }

  lemma SuspectedAndFoundRunning() returns (h: History, s: PR)
    ensures Ends(h, s)
    ensures s == PR(0, 1, map[1 := Row(1, 7, Open, true)], map[1 := 7], None, Marked(Released(MARKER_GRANT)),
                    map[0 := Write(0, Landed)], map[7 := Shown(Pending, ByMarker(1))], {})
  {
    var h0, s0 := AgentTurn();
    h, s := Then(h0, s0, Suspect(1));
    assert s == s0.(rows := map[1 := Row(1, 7, Suspected, true)]);
    h, s := Then(h, s, Withdraw(1));
    assert s.rows == map[1 := Row(1, 7, Open, true)];
  }

  /** Its agent takes the lease and gives it back; it is suspected of having ended, found running, and then ended. */
  lemma TurnEnds() returns (h: History, s: PR)
    ensures Ends(h, s)
    ensures s == PR(0, 1, REQUESTED_REVIEW, map[1 := 7], None, Marked(Released(MARKER_GRANT)),
                    map[0 := Write(0, Landed)], map[7 := Shown(Pending, ByMarker(1))], {})
  {
    var h0, s0 := SuspectedAndFoundRunning();
    h, s := Then(h0, s0, Suspect(1));
    assert s == s0.(rows := map[1 := Row(1, 7, Suspected, true)]);
    h, s := Then(h, s, Promote(1));
    assert s.rows == REQUESTED_REVIEW;
  }

  /** The close-out of review 1, under the second grant, stands at `pc`. */
  predicate SecondGrantAt(s: PR, pc: CloseOutPc) {
    && s.now == 0 && s.rows == REQUESTED_REVIEW && s.heads == map[1 := 7] && s.closed == {} && HoldsRecord(s, 1)
    && 1 in s.writers && s.writers[1] == Writer(1, CLOSE_OUT_GRANT, 0, 0, CloseOut(pc))
  }

  lemma PendingRead(h0: History, s0: PR) returns (h: History, s: PR)
    requires Ends(h0, s0) && s0.shown == map[7 := Shown(Pending, ByMarker(1))]
    requires SecondGrantAt(s0, Reading(CLOSE_OUT_GRANT)) && 1 !in s0.writes
    ensures Ends(h, s) && SecondGrantAt(s, Checking(CLOSE_OUT_GRANT)) && h0.states <= h.states
    ensures 1 !in s.writes && s.shown == s0.shown
  {
    h, s := WriterSteps(h0, s0, 1, StatusObserved(Readable(Some(Pending))));
    h, s := WriterSteps(h, s, 1, PullObserved(PullUnreadable));
  }

  lemma ErrorSent(h0: History, s0: PR) returns (h: History, s: PR)
    requires Ends(h0, s0) && SecondGrantAt(s0, Checking(CLOSE_OUT_GRANT))
    requires 1 !in s0.writes && s0.shown == map[7 := Shown(Pending, ByMarker(1))]
    ensures Ends(h, s) && SecondGrantAt(s, Writing(CLOSE_OUT_GRANT)) && h0.states <= h.states
    ensures 1 in s.writes && s.writes[1] == Write(0, InFlight) && s.shown == s0.shown
  {
    h, s := WriterSteps(h0, s0, 1, CloseOutDeadlineChecked(0));
    h, s := WriterSteps(h, s, 1, CloseOutSent(0));
  }

  lemma ErrorLands(h0: History, s0: PR) returns (h: History, s: PR)
    requires Ends(h0, s0) && SecondGrantAt(s0, Writing(CLOSE_OUT_GRANT))
    requires 1 in s0.writes && s0.writes[1] == Write(0, InFlight) && s0.shown == map[7 := Shown(Pending, ByMarker(1))]
    ensures Ends(h, s) && SecondGrantAt(s, Ending(CLOSE_OUT_GRANT, ClosedOut)) && h0.states <= h.states
    ensures s.shown == map[7 := Shown(Error, ByCloseOut(1))]
  {
    h, s := Then(h0, s0, Land(1));
    assert SecondGrantAt(s, Writing(CLOSE_OUT_GRANT));
    h, s := WriterSteps(h, s, 1, CloseOutAnswered(Posted));
  }

  lemma DoneEndsLease(h0: History, s0: PR) returns (h: History, s: PR)
    requires Ends(h0, s0) && SecondGrantAt(s0, Ending(CLOSE_OUT_GRANT, ClosedOut))
    ensures Ends(h, s) && h0.states <= h.states
    ensures s.shown == s0.shown && s.lease == None && s.rows == map[] && s.closed == {1}
  {
    h, s := WriterSteps(h0, s0, 1, CloseOutFinalized(1, Done));
    h, s := Then(h, s, EndLease(1));
    assert s.rows == map[];
  }

  lemma SecondGranted(h0: History, s0: PR) returns (h: History, s: PR)
    requires Ends(h0, s0) && s0.now == 0 && s0.rows == REQUESTED_REVIEW && s0.heads == map[1 := 7]
    requires s0.lease == None && 1 !in s0.writers && 1 !in s0.writes && s0.closed == {}
    ensures Ends(h, s) && h.states == h0.states + [s] && s.shown == s0.shown
    ensures SecondGrantAt(s, Reading(CLOSE_OUT_GRANT)) && 1 !in s.writes
  {
    assert !HeadReclaimed(s0, 1);
    h, s := Then(h0, s0, GrantCloseOut(1, 1, 0, 0));
  }

  /**
   * A review that never published is closed out: its "pending" is read and replaced by an error, the lease is
   * free again, and nothing of the review is left to do.
   */
  lemma PendingIsClosedOut() returns (h: History, before: PR, after: PR)
    ensures IsRun(h) && before in h.states && h.states[|h.steps|] == after
    ensures before.shown == map[7 := Shown(Pending, ByMarker(1))]
    ensures after.shown == map[7 := Shown(Error, ByCloseOut(1))]
    ensures after.lease == None && after.rows == map[] && after.closed == {1}
  {
    var h0;
    h0, before := TurnEnds();
    var h1, s1 := SecondGranted(h0, before);
    var h2, s2 := PendingRead(h1, s1);
    var h3, s3 := ErrorSent(h2, s2);
    var h4, s4 := ErrorLands(h3, s3);
    h, after := DoneEndsLease(h4, s4);
    assert h0.states <= h1.states <= h2.states <= h3.states <= h4.states <= h.states;
    assert h.states[|h0.steps|] == before;
  }
}
