/** The guarantees of `ReviewSafety` over whole runs, and the one write that escapes its lease. */
module ReviewRuns {
  import opened Options
  import opened ReviewLease
  import opened ReviewProtocol
  import opened ReviewSafety

  lemma {:induction false} Reached(h: History, k: nat)
    requires IsRun(h) && k <= |h.steps|
    ensures Inv(h.states[k])
  {
    if k > 0 {
      Reached(h, k - 1);
      assert Moves(h, k - 1);
      StepKeepsInv(h.states[k - 1], h.steps[k - 1]);
    }
  }

  /** Only a writer's own steps change it; a grant adds one. */
  lemma WritersKept(s: PR, e: Event)
    requires Step(s, e).Some? && !e.Bot?
    ensures var t := Step(s, e).value;
            t.writers == s.writers
            || ((e.GrantMarker? || e.GrantCloseOut?) && e.id !in s.writers && e.id in t.writers
                && t.writers == s.writers[e.id := t.writers[e.id]])
  {}

  /** A writer keeps its review and its kind. */
  lemma WriterKept(s: PR, e: Event, id: GrantId)
    requires Inv(s) && Step(s, e).Some? && id in s.writers
    ensures id in Step(s, e).value.writers
    ensures var w, w' := s.writers[id], Step(s, e).value.writers[id];
            && w' == w.(role := w'.role) && w'.role.Marker? == w.role.Marker?
            && (!(e.Bot? && e.id == id) ==> w' == w)
  {
    if e.Bot? { BotStepIsLocal(s, e.id, e.step); } else { WritersKept(s, e); }
  }

  lemma ClosingLasts(h: History, i: nat, j: nat, x: SessionId)
    requires IsRun(h) && i <= j <= |h.steps| && Closing(h.states[i], x)
    ensures Closing(h.states[j], x)
    decreases j - i
  {
    if i < j {
      Reached(h, i);
      var s, t := h.states[i], h.states[i + 1];
      var c :| c in s.writers && IsCloseOutOf(s.writers[c], x);
      assert Moves(h, i);
      WriterKept(s, h.steps[i], c);
      assert IsCloseOutOf(t.writers[c], x);
      ClosingLasts(h, i + 1, j, x);
    }
  }

  // ----- what runs guarantee -----

  lemma NoPendingWhileClosing(h: History, i: nat, j: nat, x: SessionId, id: GrantId)
    requires IsRun(h) && i <= j < |h.steps| && Closing(h.states[i], x) && h.steps[j] == Land(id)
    ensures var s := h.states[j]; id in s.writers && !(s.writers[id].role.Marker? && s.writers[id].session == x)
  {
    ClosingLasts(h, i, j, x);
    Reached(h, j);
    assert Moves(h, j);
    SealedMarkerCannotLand(h.states[j], id);
  }

  /**
   * Once a review's close-out has been granted, and so before that close-out reads the head, the
   * review's own "pending" never lands again.
   */
  lemma NoPendingOnceCloseOutGranted(h: History, i: nat, j: nat, x: SessionId, id: GrantId)
    requires IsRun(h) && i < j < |h.steps|
    requires h.steps[i].GrantCloseOut? && h.steps[i].session == x
    requires h.steps[j] == Land(id)
    ensures var s := h.states[j]; id in s.writers && !(s.writers[id].role.Marker? && s.writers[id].session == x)
  {
    assert Moves(h, i);
    assert IsCloseOutOf(h.states[i + 1].writers[h.steps[i].id], x);
    NoPendingWhileClosing(h, i + 1, j, x, id);
  }

  /** The same from the moment the close-out reads the head's status. */
  lemma NoPendingOnceHeadRead(h: History, i: nat, j: nat, c: GrantId, read: StatusRead, id: GrantId)
    requires IsRun(h) && i < j < |h.steps|
    requires h.steps[i] == Bot(c, CloseOutStepped(StatusObserved(read)))
    requires h.steps[j] == Land(id)
    ensures c in h.states[i].writers
    ensures var s := h.states[j];
            id in s.writers && !(s.writers[id].role.Marker? && s.writers[id].session == h.states[i].writers[c].session)
  {
    assert Moves(h, i);
    var x := h.states[i].writers[c].session;
    assert IsCloseOutOf(h.states[i].writers[c], x);
    NoPendingWhileClosing(h, i, j, x, id);
  }

  /**
   * No review leaves its "pending" behind: from the moment a close-out finalizes on a status it
   * read as terminal or wrote, the head never again shows that review's start marker.
   */
  lemma NoPendingLeftBehind(h: History, k: nat, x: SessionId)
    requires IsRun(h) && k <= |h.steps| && x in h.states[k].closed
    ensures NotLeftPending(h.states[k], x)
  {
    Reached(h, k);
  }

  /** The writer's lease is on record and has not run out. */
  predicate Protected(s: PR, id: GrantId) {
    id in s.writers && Holds(s, id) && s.now <= ExpiryOf(s.writers[id])
  }

  /** After this answer the write may still land: a 5xx or another status outside 4xx, or no answer. */
  predicate LeavesWriteOpen(r: PostResult) {
    r.NoAnswer? || (r.HttpError? && !(400 <= r.status < 500))
  }

  /** A close-out finalized after an answer that did not settle its write. */
  predicate GaveUpUnsettled(w: Writer) {
    && w.role.CloseOut? && w.role.closeOut.Finalized?
    && w.role.closeOut.ending.StatusWriteFailed? && LeavesWriteOpen(w.role.closeOut.ending.result)
  }

  // ----- the second invariant: what a close-out's ending says about its write -----

  predicate SettledAs(s: PR, id: GrantId, ending: CloseOutEnding) {
    if ending.StatusWriteFailed?
    then !ending.result.Posted? && (id in s.writes && !LeavesWriteOpen(ending.result) ==> s.writes[id].fate.Lost?)
    else id in s.writes ==> s.writes[id].fate.Landed?
  }

  /** The write is settled as the ending says, and none is in flight when none was sent. */
  predicate EndingOk(s: PR, id: GrantId) {
    id in s.writers &&
    var w := s.writers[id];
    match w.role
    case CloseOut(Ending(_, ending)) => SettledAs(s, id, ending)
    case CloseOut(Finalized(_, ending)) => SettledAs(s, id, ending)
    case CloseOut(Writing(_)) => true
    case CloseOut(_) => id !in s.writes
    case Marker(_) => true
  }

  ghost predicate EndingsOk(s: PR) {
    forall id :: id in s.writers ==> EndingOk(s, id)
  }

  /** A new writer has just been granted its lease and has written nothing. */
  lemma NewWriterBegins(s: PR, e: Event, id: GrantId)
    requires Inv(s) && Step(s, e).Some? && id !in s.writers && id in Step(s, e).value.writers
    ensures var t := Step(s, e).value;
            (t.writers[id].role.CloseOut? ==> t.writers[id].role.closeOut.Reading?) && t.writes == s.writes
  {
    if e.Bot? { BotStepIsLocal(s, e.id, e.step); } else { WritersKept(s, e); }
  }

  lemma NewWriterEndingOk(s: PR, e: Event, id: GrantId)
    requires Inv(s) && Step(s, e).Some? && id !in s.writers && id in Step(s, e).value.writers
    ensures EndingOk(Step(s, e).value, id)
  {
    NewWriterBegins(s, e, id);
    assert id in s.writes ==> WriteOk(s, id);
  }

  lemma OwnStepKeepsEnding(s: PR, id: GrantId, step: BotStep)
    requires Inv(s) && id in s.writers && BotNext(s, id, step).Some? && EndingOk(s, id)
    ensures id in BotNext(s, id, step).value.writers && EndingOk(BotNext(s, id, step).value, id)
  {
    assert WriterOk(s, id);
  }

  lemma WritesKept(s: PR, e: Event, id: GrantId)
    requires Step(s, e).Some? && !e.Bot?
    ensures var t := Step(s, e).value;
            && (id in t.writes <==> id in s.writes)
            && (id in s.writes && !s.writes[id].fate.InFlight? ==> t.writes[id] == s.writes[id])
  {}

  /** Other steps change only the fate of a write still in flight. */
  lemma OthersKeepWrite(s: PR, e: Event, id: GrantId)
    requires Inv(s) && Step(s, e).Some? && !(e.Bot? && e.id == id)
    ensures var t := Step(s, e).value;
            && (id in t.writes <==> id in s.writes)
            && (id in s.writes && !s.writes[id].fate.InFlight? ==> t.writes[id] == s.writes[id])
  {
    if e.Bot? { BotStepIsLocal(s, e.id, e.step); } else { WritesKept(s, e, id); }
  }

  lemma OthersKeepEnding(s: PR, e: Event, id: GrantId)
    requires Inv(s) && Step(s, e).Some? && id in s.writers && EndingOk(s, id)
    requires !(e.Bot? && e.id == id)
    ensures id in Step(s, e).value.writers && EndingOk(Step(s, e).value, id)
  {
    WriterKept(s, e, id);
    OthersKeepWrite(s, e, id);
  }

  lemma StepKeepsEndings(s: PR, e: Event)
    requires Inv(s) && EndingsOk(s) && Step(s, e).Some?
    ensures EndingsOk(Step(s, e).value)
  {
    forall id | id in Step(s, e).value.writers ensures EndingOk(Step(s, e).value, id) {
      if id !in s.writers { NewWriterEndingOk(s, e, id); }
      else if e.Bot? && e.id == id { OwnStepKeepsEnding(s, id, e.step); }
      else { OthersKeepEnding(s, e, id); }
    }
  }

  lemma {:induction false} EndingsReached(h: History, k: nat)
    requires IsRun(h) && k <= |h.steps|
    ensures EndingsOk(h.states[k])
  {
    if k > 0 {
      EndingsReached(h, k - 1);
      Reached(h, k - 1);
      assert Moves(h, k - 1);
      StepKeepsEndings(h.states[k - 1], h.steps[k - 1]);
    }
  }

  /** A finalized close-out whose write may still land gave up on an unsettled answer. */
  lemma FinalizedWrites(h: History, k: nat, id: GrantId)
    requires IsRun(h) && k <= |h.steps| && CanLand(h.states[k], id)
    ensures var w := h.states[k].writers[id]; w.role.CloseOut? && w.role.closeOut.Finalized? ==> GaveUpUnsettled(w)
  {
    EndingsReached(h, k);
    assert EndingOk(h.states[k], id);
  }

  /** A write that may still land has its writer's live lease, unless a close-out gave up on it unsettled. */
  lemma WritesLandUnderTheirLease(h: History, k: nat, id: GrantId)
    requires IsRun(h) && k <= |h.steps| && CanLand(h.states[k], id)
    ensures Protected(h.states[k], id) || GaveUpUnsettled(h.states[k].writers[id])
  {
    Reached(h, k);
    assert WriterOk(h.states[k], id) && WriteOk(h.states[k], id);
    FinalizedWrites(h, k, id);
  }

  /** At most one leased write is on its way to GitHub, apart from those a close-out gave up on. */
  lemma OneLeasedWriteAtATime(h: History, k: nat, a: GrantId, b: GrantId)
    requires IsRun(h) && k <= |h.steps| && CanLand(h.states[k], a) && CanLand(h.states[k], b)
    requires !GaveUpUnsettled(h.states[k].writers[a]) && !GaveUpUnsettled(h.states[k].writers[b])
    ensures a == b
  {
    WritesLandUnderTheirLease(h, k, a);
    WritesLandUnderTheirLease(h, k, b);
  }

  // ----- a claim outranks older reviews -----

  predicate Outranked(s: PR, x: SessionId) {
    x in s.rows ==> s.rows[x].generation < s.generation
  }

  lemma NewMarkerIsLatest(s: PR, e: Event, id: GrantId)
    requires Step(s, e).Some? && id !in s.writers && id in Step(s, e).value.writers
    ensures var w := Step(s, e).value.writers[id]; w.role.Marker? ==> LatestAndOpen(s, w.session)
  {}

  lemma OutrankedMarkersAreOld(h: History, i: nat, j: nat, x: SessionId)
    requires IsRun(h) && i <= j <= |h.steps|
    requires forall k | i <= k < j :: Outranked(h.states[k], x)
    ensures forall id :: id in h.states[j].writers && h.states[j].writers[id].role.Marker?
                         && h.states[j].writers[id].session == x
                         ==> h.states[j].writers[id].grantedAt <= h.states[i].now
    decreases j - i
  {
    if i == j {
      Reached(h, i);
      forall id | id in h.states[i].writers ensures h.states[i].writers[id].grantedAt <= h.states[i].now {
        assert WriterOk(h.states[i], id);
      }
    } else {
      OutrankedMarkersAreOld(h, i, j - 1, x);
      Reached(h, j - 1);
      var s, t := h.states[j - 1], h.states[j];
      assert Outranked(s, x) && Moves(h, j - 1);
      forall id | id in t.writers && t.writers[id].role.Marker? && t.writers[id].session == x
        ensures t.writers[id].grantedAt <= h.states[i].now
      {
        if id in s.writers { WriterKept(s, h.steps[j - 1], id); } else { NewMarkerIsLatest(s, h.steps[j - 1], id); }
      }
    }
  }

  /** While a newer claim stands, an older review's "pending" lands only within one start-marker lease of it. */
  lemma OutrankedPendingLandsWithinOneLease(h: History, i: nat, j: nat, x: SessionId, id: GrantId)
    requires IsRun(h) && i <= j < |h.steps| && h.steps[j] == Land(id)
    requires forall k | i <= k <= j :: Outranked(h.states[k], x)
    requires id in h.states[j].writers && h.states[j].writers[id].role.Marker?
                         && h.states[j].writers[id].session == x
    ensures h.states[j].now <= h.states[i].now + 30_000
  {
    OutrankedMarkersAreOld(h, i, j, x);
    Reached(h, j);
    assert Moves(h, j);
    assert WriterOk(h.states[j], id) && WriteOk(h.states[j], id);
  }

  // ----- one latest review -----

  /** No row outranks the latest claim, and a generation has at most one row. */
  ghost predicate RowsOk(s: PR) {
    && (forall x :: x in s.rows ==> s.rows[x].generation <= s.generation)
    && (forall x, y :: x in s.rows && y in s.rows && s.rows[x].generation == s.rows[y].generation ==> x == y)
  }

  lemma ClaimedOncePerRow(s: PR, e: Event)
    requires Inv(s) && RowsOk(s) && (e.Create? || e.Unclaim?) && Step(s, e).Some?
    ensures RowsOk(Step(s, e).value)
  {}

  lemma RowGenerationsKept(s: PR, e: Event)
    requires !e.Bot? && !e.Create? && !e.Unclaim? && Step(s, e).Some?
    ensures var t := Step(s, e).value;
            && t.generation >= s.generation
            && forall x :: x in t.rows ==> x in s.rows && t.rows[x].generation == s.rows[x].generation
  {}

  lemma BotKeepsRows(s: PR, id: GrantId, step: BotStep)
    requires id in s.writers && BotNext(s, id, step).Some?
    ensures BotNext(s, id, step).value.rows == s.rows && BotNext(s, id, step).value.generation == s.generation
  {}

  lemma StepKeepsRows(s: PR, e: Event)
    requires Inv(s) && RowsOk(s) && Step(s, e).Some?
    ensures RowsOk(Step(s, e).value)
  {
    if e.Bot? { BotKeepsRows(s, e.id, e.step); }
    else if e.Create? || e.Unclaim? { ClaimedOncePerRow(s, e); }
    else { RowGenerationsKept(s, e); }
  }

  lemma {:induction false} RowsReached(h: History, k: nat)
    requires IsRun(h) && k <= |h.steps|
    ensures RowsOk(h.states[k])
  {
    if k > 0 {
      RowsReached(h, k - 1);
      Reached(h, k - 1);
      assert Moves(h, k - 1);
      StepKeepsRows(h.states[k - 1], h.steps[k - 1]);
    }
  }

  /**
   * At most one review can be granted the lease as an agent or a start marker, however claims are
   * made, rolled back and their numbers issued again; a rollback never outranks a registered review.
   */
  lemma OneEligibleReview(h: History, k: nat, x: SessionId, y: SessionId)
    requires IsRun(h) && k <= |h.steps|
    requires LatestAndOpen(h.states[k], x) && LatestAndOpen(h.states[k], y)
    ensures x == y
    ensures forall z :: z in h.states[k].rows ==>
              z == x || h.states[k].rows[z].generation < h.states[k].rows[x].generation
  {
    RowsReached(h, k);
  }
}
