/**
 * The runs in which a close-out does land over a verdict, and exactly when there is one: from a given
 * state, and after another close-out of the head has read the verdict.
 */
module ReviewOverwrite {
  import opened Options
  import opened ReviewLease
  import opened ReviewProtocol
  import opened ReviewSafety
  import opened ReviewRuns
  import opened ReviewDrives
  import opened ReviewLateWrite

  // ----- from a given state -----

  /** A close-out found to be in time sends its write, which lands at once. */
  lemma SendsAndCanLand(h0: History, s0: PR, c: GrantId) returns (h: History, s: PR)
    requires Ends(h0, s0) && CanStillLand(s0, c) && s0.writers[c].role.closeOut.MayWrite?
    ensures Ends(h, s) && CanLand(s, c) && LandsNothing(h0, h) && c in s0.writers
    ensures s.heads == s0.heads && s.writers[c] == s0.writers[c].(role := s.writers[c].role)
    ensures s.writers[c].role.CloseOut?
  {
    h, s := WriterSteps(h0, s0, c, CloseOutSent(s0.now + s0.writers[c].skew));
  }

  lemma ChecksAndCanLand(h0: History, s0: PR, c: GrantId) returns (h: History, s: PR)
    requires Ends(h0, s0) && CanStillLand(s0, c) && s0.writers[c].role.closeOut.Checking?
    ensures Ends(h, s) && CanLand(s, c) && LandsNothing(h0, h) && c in s0.writers
    ensures s.heads == s0.heads && s.writers[c] == s0.writers[c].(role := s.writers[c].role)
    ensures s.writers[c].role.CloseOut?
  {
    var h1, s1 := WriterSteps(h0, s0, c, CloseOutDeadlineChecked(s0.now + s0.writers[c].skew));
    h, s := SendsAndCanLand(h1, s1, c);
  }

  /** Whatever it still has to do, a close-out that can still land its write gets there without waiting. */
  lemma GetsToLand(h0: History, s0: PR, c: GrantId) returns (h: History, s: PR)
    requires Ends(h0, s0) && CanStillLand(s0, c)
    ensures Ends(h, s) && CanLand(s, c) && LandsNothing(h0, h) && c in s0.writers
    ensures s.heads == s0.heads && s.writers[c] == s0.writers[c].(role := s.writers[c].role)
    ensures s.writers[c].role.CloseOut?
  {
    match s0.writers[c].role.closeOut {
      case Owed(_) =>
        var h1, s1 := WriterSteps(h0, s0, c, PullObserved(PullOpen));
        h, s := ChecksAndCanLand(h1, s1, c);
      case Checking(_) => h, s := ChecksAndCanLand(h0, s0, c);
      case MayWrite(_, _) => h, s := SendsAndCanLand(h0, s0, c);
      case _ => h, s := h0, s0;
    }
  }

  ghost predicate OverwritesIn(h: History, longer: History, m: nat, c: GrantId, head: Head) {
    && IsRun(longer) && h.steps <= longer.steps && h.states <= longer.states
    && |h.steps| <= m < |longer.steps|
    && CloseOutLandsOn(longer, m, c, head) && NoPendingBetween(longer, |h.steps|, m, head)
  }

  /** In the run `h` goes on with, a close-out lands over what `head` shows, with no "pending" in between. */
  ghost predicate OverwrittenLater(h: History, head: Head) {
    exists longer: History, m: nat, c: GrantId :: OverwritesIn(h, longer, m, c, head)
  }

  lemma LandsLater(h: History, s: PR, c: GrantId, head: Head)
    requires Ends(h, s) && CanStillLand(s, c) && HeadOf(s, c) == Some(head)
    ensures OverwrittenLater(h, head)
  {
    var h1, s1 := GetsToLand(h, s, c);
    var longer, t := Then(h1, s1, Land(c));
    var m := |h1.steps|;
    assert longer.states[m] == s1 && longer.steps[m] == Land(c);
    assert forall n :: |h.steps| <= n < m ==> longer.steps[n] == h1.steps[n];
    assert CloseOutLandsOn(longer, m, c, head);
    assert OverwritesIn(h, longer, m, c, head);
  }

  /** A shown verdict can yet be overwritten exactly when some close-out of its head can still land its write. */
  lemma OverwrittenLaterIffCanStillLand(h: History, s: PR, head: Head)
    requires Ends(h, s) && ShowsVerdict(s, head)
    ensures OverwrittenLater(h, head) <==> exists c :: CanStillLand(s, c) && HeadOf(s, c) == Some(head)
  {
    if c :| CanStillLand(s, c) && HeadOf(s, c) == Some(head) { LandsLater(h, s, c, head); }
    if longer: History, m: nat, c: GrantId :| OverwritesIn(h, longer, m, c, head) {
      assert longer.states[|h.steps|] == s;
      OverwriterCouldLand(longer, |h.steps|, m, c, head);
    }
  }

  // ----- after another close-out has read it -----

  /** A close-out's write lands over a verdict `d` milliseconds after another close-out has read it. */
  ghost predicate RewritesRead(h: History, i: nat, m: nat, reader: GrantId, first: Option<Status>, c: GrantId,
                               head: Head, d: nat) {
    && IsRun(h) && i < m < |h.steps|
    && ReadsAt(h, i, reader, Readable(first)) && Terminal(first)
    && reader in h.states[i].writers && HeadOf(h.states[i], reader) == Some(head)
    && CloseOutLandsOn(h, m, c, head) && NoPendingBetween(h, i, m, head)
    && h.states[m].now == h.states[i].now + d
  }

  ghost predicate CanRewriteReadAfter(d: nat) {
    exists h: History, i: nat, m: nat, reader: GrantId, first: Option<Status>, c: GrantId, head: Head ::
      RewritesRead(h, i, m, reader, first, c, head, d)
  }

  /** When the first close-out's lease has run out. */
  const SECOND_GRANTED_AT := REVIEW_SUBMISSION_LEASE_MS + 1
  const SECOND_GRANT := LeaseGrant(1, SECOND_GRANTED_AT, REVIEW_SUBMISSION_LEASE_MS)

  /** Two close-outs of review 1: the stalled first, and the one granted once its lease has run out. */
  function TwoClosers(first: CloseOutPc, second: CloseOutPc): map<GrantId, Writer> {
    map[0 := Writer(1, FIRST_GRANT, 0, 0, CloseOut(first)),
        1 := Writer(1, SECOND_GRANT, 0, SECOND_GRANTED_AT, CloseOut(second))]
  }

  lemma SecondGranted() returns (h: History, s: PR)
    ensures Ends(h, s)
    ensures s == PR(SECOND_GRANTED_AT, 1, REQUESTED_REVIEW, map[1 := 7],
                    Some(Lease(Grant(1), SECOND_GRANTED_AT + REVIEW_SUBMISSION_LEASE_MS)),
                    TwoClosers(Reading(FIRST_GRANT), Reading(SECOND_GRANT)), map[], map[], {})
  {
    h, s := CloseOutGranted(false);
    h, s := Then(h, s, Tick(SECOND_GRANTED_AT));
    assert LeaseFree(s) && !HeadReclaimed(s, 1);
    h, s := Then(h, s, GrantCloseOut(1, 1, SECOND_GRANTED_AT, 0));
    assert s.writers == TwoClosers(Reading(FIRST_GRANT), Reading(SECOND_GRANT));
  }

  /** The second reads no status; then a verdict is shown, and the first comes back and reads it. */
  lemma VerdictReadMeanwhile() returns (h: History, s: PR, i: nat)
    ensures Ends(h, s) && i == |h.steps| - 1 && ReadsAt(h, i, 0, Readable(Some(Success)))
    ensures h.states[i].now == s.now && 0 in h.states[i].writers && HeadOf(h.states[i], 0) == Some(7)
    ensures JustChecking(s, 1) && s.heads == map[1 := 7] && s.writers[1].session == 1
  {
    h, s := SecondGranted();
    h, s := WriterSteps(h, s, 1, StatusObserved(Readable(None)));
    h, s := WriterSteps(h, s, 1, PullObserved(PullOpen));
    assert s.writers == TwoClosers(Reading(FIRST_GRANT), Checking(SECOND_GRANT));
    h, s := Then(h, s, OtherWrite(7, Success));
    i := |h.steps|;
    var shown := s;
    h, s := WriterSteps(h, s, 0, StatusObserved(Readable(Some(Success))));
    assert h.states[i] == shown;
  }

  lemma RewritesReadAfter(d: nat)
    requires d <= REVIEW_SUBMISSION_LEASE_MS
    ensures CanRewriteReadAfter(d)
  {
    var h0, s0, i := VerdictReadMeanwhile();
    var h1, s1 := SendsToLandAfter(h0, s0, 1, d);
    var h, s := Then(h1, s1, Land(1));
    var m := |h1.steps|;
    assert h.states[m] == s1 && h.steps[m] == Land(1);
    assert h.states[i] == h1.states[i] == h0.states[i] && h.steps[i] == h1.steps[i] == h0.steps[i];
    assert forall n :: i < n < m ==> h.steps[n] == h1.steps[n];
    assert CloseOutLandsOn(h, m, 1, 7);
    assert RewritesRead(h, i, m, 0, Some(Success), 1, 7, d);
  }

  /** A verdict that a close-out has read can be rewritten by another exactly up to one submission lease later. */
  lemma ReadVerdictAtRiskForOneLease(d: nat)
    ensures CanRewriteReadAfter(d) <==> d <= 120_000
  {
    if d <= REVIEW_SUBMISSION_LEASE_MS { RewritesReadAfter(d); }
    if h: History, i: nat, m: nat, reader: GrantId, first: Option<Status>, c: GrantId, head: Head :|
         RewritesRead(h, i, m, reader, first, c, head, d) {
      var j, state := ReadVerdictRewrittenOnlyByEarlierReader(h, i, m, reader, c, first, head);
    }
  }

  // ----- after another close-out has finalized it -----

  /** The first close-out has given up unsettled, a verdict is shown, and the review's close-out is granted again. */
  lemma DrivenAgain(r: PostResult) returns (h: History, s: PR)
    requires LeavesWriteOpen(r)
    ensures Ends(h, s)
    ensures s.now == 0 && s.rows == REQUESTED_REVIEW && s.heads == map[1 := 7] && s.closed == {} && HoldsRecord(s, 1)
    ensures s.shown == map[7 := Shown(Success, ByOther)] && s.writes == map[0 := Write(0, InFlight)]
    ensures 0 in s.writers && s.writers[0].session == 1 && s.writers[0].role.CloseOut?
    ensures 1 in s.writers && s.writers[1].session == 1
    ensures s.writers[1].grant.grantId == 1 && s.writers[1].role == CloseOut(Reading(s.writers[1].grant))
  {
    h, s := LeaseGivenBack(r);
    var back := s;
    h, s := Then(h, s, OtherWrite(7, Success));
    assert s == back.(shown := map[7 := Shown(Success, ByOther)]);
    assert LeaseFree(s) && !HeadReclaimed(s, 1);
    h, s := Then(h, s, GrantCloseOut(1, 1, 0, 0));
  }

  /** It reads the verdict and finalizes `done`, which takes the review off the control plane's list. */
  lemma FinalizesDone(h0: History, s0: PR) returns (h: History, s: PR)
    requires Ends(h0, s0) && s0.rows == REQUESTED_REVIEW && s0.heads == map[1 := 7] && HoldsRecord(s0, 1)
    requires s0.shown == map[7 := Shown(Success, ByOther)] && 1 in s0.writers && s0.writers[1].session == 1
    requires s0.writers[1].grant.grantId == 1 && s0.writers[1].role == CloseOut(Reading(s0.writers[1].grant))
    ensures Ends(h, s) && s.rows == map[] && s.closed == s0.closed + {1} && s.now == s0.now
    ensures s.heads == s0.heads && s.shown == s0.shown && s.writes == s0.writes
    ensures forall c :: c in s0.writers && c != 1 ==> c in s.writers && s.writers[c] == s0.writers[c]
  {
    h, s := WriterSteps(h0, s0, 1, StatusObserved(Readable(Some(Success))));
    h, s := WriterSteps(h, s, 1, CloseOutFinalized(1, Done));
    h, s := Then(h, s, EndLease(1));
    assert s.rows == map[];
  }

  /**
   * A close-out finalized `done` on a verdict it read does not settle the head: for every unsettled answer
   * an earlier drive got, that drive's error can land over the verdict afterwards, when the review has left
   * the control plane's list and nobody drives it again.
   */
  lemma DoneVerdictOverwritten(r: PostResult) returns (h: History, s: PR, t: PR)
    requires LeavesWriteOpen(r)
    ensures Ends(h, t) && |h.steps| > 0 && h.states[|h.steps| - 1] == s && h.steps[|h.steps| - 1] == Land(0)
    ensures s.closed == {1} && s.rows == map[] && s.shown == map[7 := Shown(Success, ByOther)]
    ensures t.shown == map[7 := Shown(Error, ByCloseOut(1))]
  {
    h, s := DrivenAgain(r);
    h, s := FinalizesDone(h, s);
    h, t := Then(h, s, Land(0));
  }
}
