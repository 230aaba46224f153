/**
 * What a verdict shown on a head is safe from. A close-out that reads it sends nothing. One that read the
 * head before it was shown may still land over it, also after another has read it and finalized `done`.
 */
module ReviewDrives {
  import opened Options
  import opened ReviewLease
  import opened ReviewProtocol
  import opened ReviewSafety
  import opened ReviewRuns

  predicate ShowsVerdict(s: PR, head: Head) {
    head in s.shown && s.shown[head].status != Pending
  }

  /** A start marker's "pending" lands on `head`. */
  predicate LandsPendingOn(s: PR, e: Event, head: Head) {
    e.Land? && e.id in s.writers && s.writers[e.id].role.Marker?
    && s.writers[e.id].session in s.heads && s.heads[s.writers[e.id].session] == head
  }

  lemma StepKeepsVerdict(s: PR, e: Event, head: Head)
    requires Inv(s) && Step(s, e).Some? && ShowsVerdict(s, head) && !LandsPendingOn(s, e, head)
    ensures ShowsVerdict(Step(s, e).value, head)
  {
    if e.Bot? { BotStepIsLocal(s, e.id, e.step); }
  }

  /** Only another review's start marker takes a verdict off a head. */
  lemma {:induction false} VerdictStays(h: History, i: nat, j: nat, head: Head)
    requires IsRun(h) && i <= j <= |h.steps| && ShowsVerdict(h.states[i], head)
    requires forall k | i <= k < j :: !LandsPendingOn(h.states[k], h.steps[k], head)
    ensures ShowsVerdict(h.states[j], head)
    decreases j - i
  {
    if i < j {
      VerdictStays(h, i, j - 1, head);
      Reached(h, j - 1);
      assert Moves(h, j - 1);
      StepKeepsVerdict(h.states[j - 1], h.steps[j - 1], head);
    }
  }

  // ----- a writer over time -----

  function HeadOf(s: PR, c: GrantId): Option<Head> {
    if c in s.writers && s.writers[c].session in s.heads then Some(s.heads[s.writers[c].session]) else None
  }

  lemma StepKeepsHeads(s: PR, e: Event, x: SessionId)
    requires Inv(s) && Step(s, e).Some? && x in s.heads
    ensures x in Step(s, e).value.heads && Step(s, e).value.heads[x] == s.heads[x]
  {
    if e.Bot? { BotStepIsLocal(s, e.id, e.step); }
  }

  /** A writer stays, with its grant and its head. */
  lemma {:induction false} WriterStays(h: History, i: nat, j: nat, c: GrantId)
    requires IsRun(h) && i <= j <= |h.steps| && c in h.states[i].writers
    ensures c in h.states[j].writers
    ensures h.states[j].writers[c] == h.states[i].writers[c].(role := h.states[j].writers[c].role)
    ensures h.states[j].writers[c].role.CloseOut? == h.states[i].writers[c].role.CloseOut?
    ensures HeadOf(h.states[i], c).Some? && HeadOf(h.states[j], c) == HeadOf(h.states[i], c)
    decreases j - i
  {
    Reached(h, i);
    assert WriterOk(h.states[i], c);
    if i < j {
      WriterStays(h, i, j - 1, c);
      Reached(h, j - 1);
      assert Moves(h, j - 1);
      WriterKept(h.states[j - 1], h.steps[j - 1], c);
      StepKeepsHeads(h.states[j - 1], h.steps[j - 1], h.states[i].writers[c].session);
    }
  }

  /** The close-out has an ending that goes with having sent nothing. */
  predicate EndedWithoutWriting(w: Writer) {
    match w.role
    case CloseOut(Ending(_, ending)) => ending.AlreadyTerminal? || ending.StatusUnreadable?
    case CloseOut(Finalized(_, ending)) => ending.AlreadyTerminal? || ending.StatusUnreadable?
    case _ => false
  }

  lemma StaysEnded(s: PR, e: Event, c: GrantId)
    requires Inv(s) && Step(s, e).Some? && c in s.writers && EndedWithoutWriting(s.writers[c])
    ensures c in Step(s, e).value.writers && EndedWithoutWriting(Step(s, e).value.writers[c])
  {
    WriterKept(s, e, c);
  }

  lemma {:induction false} EndedLasts(h: History, i: nat, j: nat, c: GrantId)
    requires IsRun(h) && i <= j <= |h.steps| && c in h.states[i].writers && EndedWithoutWriting(h.states[i].writers[c])
    ensures c in h.states[j].writers && EndedWithoutWriting(h.states[j].writers[c])
    decreases j - i
  {
    if i < j {
      EndedLasts(h, i, j - 1, c);
      Reached(h, j - 1);
      assert Moves(h, j - 1);
      StaysEnded(h.states[j - 1], h.steps[j - 1], c);
    }
  }

  // ----- reading -----

  /** Step `j` is the close-out's reading of its head's status. */
  ghost predicate ReadsAt(h: History, j: nat, c: GrantId, read: StatusRead) {
    j < |h.steps| && h.steps[j] == Bot(c, CloseOutStepped(StatusObserved(read)))
  }

  lemma ReadsWhatIsShown(h: History, i: nat, c: GrantId, read: StatusRead)
    requires IsRun(h) && i < |h.steps| && ReadsAt(h, i, c, read)
    ensures c in h.states[i].writers && h.states[i].writers[c].role.CloseOut?
    ensures read.Readable? && HeadOf(h.states[i], c).Some? ==>
              (Terminal(read.state) <==> ShowsVerdict(h.states[i], HeadOf(h.states[i], c).value))
  {
    assert Moves(h, i);
  }

  /** A close-out that reads a terminal status, or none it can read, sends no write, then or later. */
  lemma TerminalReadSendsNothing(h: History, i: nat, m: nat, c: GrantId, read: StatusRead, at: int)
    requires IsRun(h) && i < m < |h.steps| && ReadsAt(h, i, c, read)
    requires read.Readable? ==> Terminal(read.state)
    ensures h.steps[m] != Bot(c, CloseOutStepped(CloseOutSent(at)))
  {
    assert Moves(h, i);
    EndedLasts(h, i + 1, m, c);
    assert Moves(h, m);
  }

  /** Where a close-out's write stands: sent, and perhaps answered. */
  predicate Wrote(w: Writer) {
    match w.role
    case CloseOut(Writing(_)) => true
    case CloseOut(Ending(_, ending)) => ending.StatusWriteFailed?
    case CloseOut(Finalized(_, ending)) => ending.StatusWriteFailed?
    case _ => false
  }

  /** It has read its head's status and goes on from there. */
  predicate WentOn(w: Writer) {
    match w.role
    case CloseOut(Owed(_)) => true
    case CloseOut(Checking(_)) => true
    case CloseOut(MayWrite(_, _)) => true
    case _ => Wrote(w)
  }

  lemma BeforeGoingOn(s: PR, e: Event, c: GrantId)
    requires Inv(s) && Step(s, e).Some? && c in Step(s, e).value.writers && WentOn(Step(s, e).value.writers[c])
    ensures c in s.writers
    ensures WentOn(s.writers[c])
            || (exists state :: e == Bot(c, CloseOutStepped(StatusObserved(Readable(state)))) && !Terminal(state))
  {
    if c in s.writers { WriterKept(s, e, c); } else { WritersKept(s, e); }
  }

  /** A close-out that went on to write had read its head as pending or without a status. */
  lemma {:induction false} ReadBefore(h: History, m: nat, c: GrantId) returns (j: nat, state: Option<Status>)
    requires IsRun(h) && m <= |h.steps| && c in h.states[m].writers && WentOn(h.states[m].writers[c])
    ensures j < m && ReadsAt(h, j, c, Readable(state)) && !Terminal(state) && c in h.states[j].writers
  {
    assert m > 0;
    Reached(h, m - 1);
    assert Moves(h, m - 1);
    BeforeGoingOn(h.states[m - 1], h.steps[m - 1], c);
    if WentOn(h.states[m - 1].writers[c]) {
      j, state := ReadBefore(h, m - 1, c);
    } else {
      j := m - 1;
      state :| h.steps[j] == Bot(c, CloseOutStepped(StatusObserved(Readable(state)))) && !Terminal(state);
    }
  }

  /** A close-out's write that may still land was sent: the close-out went on to write. */
  lemma LandableWasSent(h: History, m: nat, c: GrantId)
    requires IsRun(h) && m <= |h.steps| && CanLand(h.states[m], c) && h.states[m].writers[c].role.CloseOut?
    ensures Wrote(h.states[m].writers[c])
  {
    Reached(h, m);
    EndingsReached(h, m);
    assert EndingOk(h.states[m], c);
    assert WriteOk(h.states[m], c);
  }

  /** It lands within one lease of its close-out's being granted. */
  lemma LandsWithinItsLease(h: History, j: nat, m: nat, c: GrantId)
    requires IsRun(h) && j <= m <= |h.steps| && c in h.states[j].writers && CanLand(h.states[m], c)
    requires h.states[m].writers[c].role.CloseOut?
    ensures h.states[m].now <= h.states[j].now + REVIEW_SUBMISSION_LEASE_MS
  {
    Reached(h, j);
    Reached(h, m);
    WriterStays(h, j, m, c);
    assert WriterOk(h.states[j], c) && WriterOk(h.states[m], c) && WriteOk(h.states[m], c);
  }

  // ----- what a verdict is safe from -----

  /** A close-out's write lands on `head` at step `m`. */
  ghost predicate CloseOutLandsOn(h: History, m: nat, c: GrantId, head: Head) {
    && m < |h.steps| < |h.states|
    && h.steps[m] == Land(c) && c in h.states[m].writers
    && h.states[m].writers[c].role.CloseOut? && HeadOf(h.states[m], c) == Some(head)
  }

  /** No start marker's "pending" lands on `head` from step `i` up to step `m`. */
  ghost predicate NoPendingBetween(h: History, i: nat, m: nat, head: Head) {
    m <= |h.steps| < |h.states| &&
    forall k | i <= k < m :: !LandsPendingOn(h.states[k], h.steps[k], head)
  }

  /**
   * A close-out's write that lands over a verdict, an agent's or a stand-down's skip, is that of a
   * close-out which had read the head before the verdict was shown, as pending or without a status; and it
   * lands within one submission lease of that moment. Any other close-out leaves the verdict alone.
   */
  lemma OverwriterReadBefore(h: History, k: nat, m: nat, c: GrantId, head: Head) returns (j: nat, state: Option<Status>)
    requires IsRun(h) && k <= m < |h.steps| && ShowsVerdict(h.states[k], head)
    requires CloseOutLandsOn(h, m, c, head) && NoPendingBetween(h, k, m, head)
    ensures j < k && ReadsAt(h, j, c, Readable(state)) && !Terminal(state)
    ensures h.states[m].now <= h.states[k].now + REVIEW_SUBMISSION_LEASE_MS
  {
    assert Moves(h, m);
    LandableWasSent(h, m, c);
    j, state := ReadBefore(h, m, c);
    WriterStays(h, j, m, c);
    if j >= k {
      VerdictStays(h, k, j, head);
      ReadsWhatIsShown(h, j, c, Readable(state));
      assert false;
    }
    WriterStays(h, j, k, c);
    LandsWithinItsLease(h, k, m, c);
  }

  /** Since step `k`, a close-out that went on had done so already, or read its head as pending or without a status. */
  lemma {:induction false} GoneOnSince(h: History, k: nat, m: nat, c: GrantId)
    requires IsRun(h) && k <= m <= |h.steps| && c in h.states[m].writers && WentOn(h.states[m].writers[c])
    ensures || (c in h.states[k].writers && WentOn(h.states[k].writers[c]))
            || exists j, state :: k <= j < m && ReadsAt(h, j, c, Readable(state)) && !Terminal(state)
    decreases m
  {
    if k < m {
      Reached(h, m - 1);
      assert Moves(h, m - 1);
      BeforeGoingOn(h.states[m - 1], h.steps[m - 1], c);
      if WentOn(h.states[m - 1].writers[c]) {
        GoneOnSince(h, k, m - 1, c);
      } else {
        var state :| h.steps[m - 1] == Bot(c, CloseOutStepped(StatusObserved(Readable(state)))) && !Terminal(state);
        assert ReadsAt(h, m - 1, c, Readable(state));
      }
    }
  }

  /** The close-out that overwrites a verdict was already going on to write when the verdict was shown. */
  lemma OverwriterHadGoneOn(h: History, k: nat, m: nat, c: GrantId, head: Head)
    requires IsRun(h) && k <= m < |h.steps| && ShowsVerdict(h.states[k], head)
    requires CloseOutLandsOn(h, m, c, head) && NoPendingBetween(h, k, m, head)
    ensures c in h.states[k].writers && WentOn(h.states[k].writers[c]) && HeadOf(h.states[k], c) == Some(head)
  {
    assert Moves(h, m);
    LandableWasSent(h, m, c);
    GoneOnSince(h, k, m, c);
    if j, state :| k <= j < m && ReadsAt(h, j, c, Readable(state)) && !Terminal(state) {
      ReadsWhatIsShown(h, j, c, Readable(state));
      WriterStays(h, j, m, c);
      VerdictStays(h, k, j, head);
    }
    WriterStays(h, k, m, c);
  }

  /**
   * In this state the close-out's write can yet land: it is sent and has time left, or it can still be
   * sent, on the close-out's own clock.
   */
  predicate CanStillLand(s: PR, c: GrantId) {
    c in s.writers &&
    var w := s.writers[c];
    match w.role
    case CloseOut(Owed(g)) => s.now + w.skew <= LeaseWriteDeadline(g)
    case CloseOut(Checking(g)) => s.now + w.skew <= LeaseWriteDeadline(g)
    case CloseOut(MayWrite(_, at)) => s.now + w.skew <= at + LEASE_WRITE_MARGIN_MS
    case CloseOut(Reading(_)) => false
    case CloseOut(_) => CanLand(s, c)
    case Marker(_) => false
  }

  /** The close-out is past its read, and its write can land no more. */
  predicate Hopeless(s: PR, c: GrantId) {
    c in s.writers && s.writers[c].role.CloseOut? && !s.writers[c].role.closeOut.Reading? && !CanStillLand(s, c)
  }

  lemma OwnStepStaysHopeless(s: PR, c: GrantId, e: CloseOutEvent)
    requires Inv(s) && EndingsOk(s) && Hopeless(s, c) && BotNext(s, c, CloseOutStepped(e)).Some?
    ensures Hopeless(BotNext(s, c, CloseOutStepped(e)).value, c)
  {
    assert WriterOk(s, c) && EndingOk(s, c);
    CloseOutStepIsLocal(s, c, e);
  }

  /** A write in flight was in flight before, sent when it was sent, and no earlier than now does time run out. */
  lemma OthersNeverSend(s: PR, e: Event, c: GrantId)
    requires Inv(s) && Step(s, e).Some? && !(e.Bot? && e.id == c)
    ensures var t := Step(s, e).value;
            && t.now >= s.now
            && (c in t.writes && t.writes[c].fate.InFlight? ==> c in s.writes && t.writes[c] == s.writes[c])
  {
    if e.Bot? { BotStepIsLocal(s, e.id, e.step); }
  }

  lemma OthersStepsStayHopeless(s: PR, e: Event, c: GrantId)
    requires Inv(s) && Hopeless(s, c) && Step(s, e).Some? && !(e.Bot? && e.id == c)
    ensures Hopeless(Step(s, e).value, c)
  {
    WriterKept(s, e, c);
    OthersKeepWrite(s, e, c);
    OthersNeverSend(s, e, c);
  }

  lemma StaysHopeless(s: PR, e: Event, c: GrantId)
    requires Inv(s) && EndingsOk(s) && Hopeless(s, c) && Step(s, e).Some?
    ensures Hopeless(Step(s, e).value, c)
  {
    if e.Bot? && e.id == c {
      match e.step
      case CloseOutStepped(ce) => OwnStepStaysHopeless(s, c, ce);
    } else {
      OthersStepsStayHopeless(s, e, c);
    }
  }

  lemma {:induction false} HopelessLasts(h: History, k: nat, m: nat, c: GrantId)
    requires IsRun(h) && k <= m <= |h.steps| && Hopeless(h.states[k], c)
    ensures Hopeless(h.states[m], c)
    decreases m
  {
    if k < m {
      HopelessLasts(h, k, m - 1, c);
      Reached(h, m - 1);
      EndingsReached(h, m - 1);
      assert Moves(h, m - 1);
      StaysHopeless(h.states[m - 1], h.steps[m - 1], c);
    }
  }

  /** A close-out that overwrites a verdict could, when the verdict was shown, still land its write. */
  lemma OverwriterCouldLand(h: History, k: nat, m: nat, c: GrantId, head: Head)
    requires IsRun(h) && k <= m < |h.steps| && ShowsVerdict(h.states[k], head)
    requires CloseOutLandsOn(h, m, c, head) && NoPendingBetween(h, k, m, head)
    ensures CanStillLand(h.states[k], c) && HeadOf(h.states[k], c) == Some(head)
  {
    OverwriterHadGoneOn(h, k, m, c, head);
    assert Moves(h, m);
    LandableWasSent(h, m, c);
    if Hopeless(h.states[k], c) { HopelessLasts(h, k, m, c); }
  }

  /** The status shown on `head` is written at step `k` by an agent or a stand-down. */
  predicate OthersWriteOn(e: Event, head: Head) {
    e.OtherWrite? && e.head == head
  }

  lemma ShownUnlessWritten(s: PR, e: Event, head: Head)
    requires Inv(s) && Step(s, e).Some? && ShowsVerdict(s, head)
    requires !LandsPendingOn(s, e, head) && !OthersWriteOn(e, head)
    requires e.Land? && e.id in s.writers && s.writers[e.id].role.CloseOut? ==> HeadOf(s, e.id) != Some(head)
    ensures ShowsVerdict(Step(s, e).value, head) && Step(s, e).value.shown[head] == s.shown[head]
  {
    if e.Bot? { BotStepIsLocal(s, e.id, e.step); }
  }

  /**
   * A verdict survives every close-out, exactly as it is and for good, if no close-out of its head can
   * still land its write when it is shown.
   */
  lemma {:induction false} VerdictSurvives(h: History, k: nat, m: nat, head: Head)
    requires IsRun(h) && k <= m <= |h.steps| && ShowsVerdict(h.states[k], head) && NoPendingBetween(h, k, m, head)
    requires forall n | k <= n < m :: !OthersWriteOn(h.steps[n], head)
    requires forall c :: CanStillLand(h.states[k], c) ==> HeadOf(h.states[k], c) != Some(head)
    ensures head in h.states[m].shown && h.states[m].shown[head] == h.states[k].shown[head]
    decreases m
  {
    if k < m {
      VerdictSurvives(h, k, m - 1, head);
      Reached(h, m - 1);
      assert Moves(h, m - 1);
      var e := h.steps[m - 1];
      if e.Land? && e.id in h.states[m - 1].writers && CloseOutLandsOn(h, m - 1, e.id, head) {
        OverwriterCouldLand(h, k, m - 1, e.id, head);
        assert false;
      }
      ShownUnlessWritten(h.states[m - 1], e, head);
    }
  }

  /**
   * Once a close-out has read a verdict on a head, only a close-out that had read the head before can still
   * land there, overlapping or later, and within one lease, unless a start marker's "pending" landed in
   * between.
   */
  lemma ReadVerdictRewrittenOnlyByEarlierReader(h: History, i: nat, m: nat, c: GrantId, d: GrantId,
                                                first: Option<Status>, head: Head)
    returns (j: nat, state: Option<Status>)
    requires IsRun(h) && i < m < |h.steps| && ReadsAt(h, i, c, Readable(first)) && Terminal(first)
    requires c in h.states[i].writers && HeadOf(h.states[i], c) == Some(head)
    requires NoPendingBetween(h, i, m, head) && CloseOutLandsOn(h, m, d, head)
    ensures d != c && h.states[m].now <= h.states[i].now + REVIEW_SUBMISSION_LEASE_MS
    ensures j < i && ReadsAt(h, j, d, Readable(state)) && !Terminal(state)
  {
    ReadsWhatIsShown(h, i, c, Readable(first));
    j, state := OverwriterReadBefore(h, i, m, d, head);
    assert Moves(h, i) && Moves(h, m);
    LandableWasSent(h, m, d);
    EndedLasts(h, i + 1, m, c);
  }

  /** And a close-out that reads the head afterwards reads a verdict too, and sends nothing. */
  lemma LaterReaderSendsNothing(h: History, i: nat, j: nat, m: nat, c: GrantId, d: GrantId, first: Option<Status>,
                                again: StatusRead,
                                head: Head, at: int)
    requires IsRun(h) && i <= j < m < |h.steps| && ReadsAt(h, i, c, Readable(first)) && Terminal(first)
    requires ReadsAt(h, j, d, again)
    requires c in h.states[i].writers && d in h.states[j].writers
    requires HeadOf(h.states[i], c) == Some(head) && HeadOf(h.states[j], d) == Some(head)
    requires NoPendingBetween(h, i, j, head)
    ensures again.Readable? ==> Terminal(again.state)
    ensures h.steps[m] != Bot(d, CloseOutStepped(CloseOutSent(at)))
  {
    ReadsWhatIsShown(h, i, c, Readable(first));
    VerdictStays(h, i, j, head);
    ReadsWhatIsShown(h, j, d, again);
    TerminalReadSendsNothing(h, j, m, d, again, at);
  }
}
