/** What every run of `ReviewProtocol` keeps, and what follows for the statuses a head shows. */
module ReviewSafety {
  import opened Options
  import opened ReviewLease
  import opened ReviewProtocol

  // ----- the invariant -----

  function LeaseMs(role: Role): int {
    if role.Marker? then START_MARKER_LEASE_MS else REVIEW_SUBMISSION_LEASE_MS
  }

  function ExpiryOf(w: Writer): int {
    w.grantedAt + w.grant.leaseExpiresInMs
  }

  predicate Holds(s: PR, id: GrantId) {
    id in s.writers && s.lease == Some(Lease(Grant(id), ExpiryOf(s.writers[id])))
  }

  function GrantOf(role: Role): Option<LeaseGrant> {
    match role
    case Marker(Waiting) => None
    case Marker(Left) => None
    case Marker(pc) => Some(pc.grant)
    case CloseOut(pc) => Some(pc.grant)
  }

  /** The writer's own view: its grant, its clock, and its deadline check. */
  predicate WriterOk(s: PR, id: GrantId) {
    id in s.writers &&
    var w := s.writers[id];
    && w.grant.grantId == id
    && w.grant.leaseExpiresInMs == LeaseMs(w.role)
    && w.grant.requestedAt <= w.grantedAt + w.skew
    && w.grantedAt <= s.now
    && w.session in s.heads
    && (w.role.Marker? ==> !w.role.marker.Waiting?)
    && (GrantOf(w.role).Some? ==> GrantOf(w.role).value == w.grant)
    && (ClearedAt(w).Some? ==> ClearedAt(w).value <= LeaseWriteDeadline(w.grant))
    && (!AskedToEnd(w) ==> Holds(s, id) || s.now > ExpiryOf(w))
  }

  predicate MarkerEnding(w: Writer) {
    w.role.Marker? && (w.role.marker.OwesRelease? || w.role.marker.Released?)
  }

  predicate BeforeSending(w: Writer) {
    match w.role
    case Marker(pc) => pc.Holding? || pc.Cleared?
    case CloseOut(pc) => pc.Reading? || pc.Owed? || pc.Checking? || pc.MayWrite?
  }

  /** A write is sent early enough to land within its lease, and a released marker's is settled. */
  predicate WriteOk(s: PR, id: GrantId) {
    && id in s.writes && id in s.writers
    && s.writes[id].sentAt + GITHUB_API_REQUEST_TIMEOUT_MS <= ExpiryOf(s.writers[id])
    && (MarkerEnding(s.writers[id]) ==> !s.writes[id].fate.InFlight?)
    && (s.writes[id].fate.InFlight? ==> !BeforeSending(s.writers[id]))
  }

  predicate IsCloseOutOf(w: Writer, x: SessionId) {
    w.role.CloseOut? && w.session == x
  }

  /** Some close-out of `x` has been granted. */
  ghost predicate Closing(s: PR, x: SessionId) {
    exists id :: id in s.writers && IsCloseOutOf(s.writers[id], x)
  }

  /** No start marker of `x` can be granted, and none already granted can write in its lease. */
  ghost predicate Sealed(s: PR, x: SessionId) {
    && (x in s.rows ==> s.rows[x].request.Requested?)
    && x in s.heads
    && forall m :: m in s.writers && s.writers[m].role.Marker? && s.writers[m].session == x
                   ==> AskedToEnd(s.writers[m]) || s.now > ExpiryOf(s.writers[m])
  }

  /** The head of `x` does not show the "pending" of `x`'s own start marker. */
  predicate NotLeftPending(s: PR, x: SessionId) {
    x in s.heads && s.heads[x] in s.shown ==> s.shown[s.heads[x]] != Shown(Pending, ByMarker(x))
  }

  predicate EndsTerminal(ending: CloseOutEnding) {
    ending.AlreadyTerminal? || ending.ClosedOut?
  }

  /** The close-out has read or made the status terminal. */
  predicate SawTerminal(s: PR, id: GrantId) {
    id in s.writers &&
    var w := s.writers[id];
    w.role.CloseOut? &&
    ( (id in s.writes && s.writes[id].fate.Landed?)
    || (w.role.closeOut.Ending? && EndsTerminal(w.role.closeOut.ending))
    || (w.role.closeOut.Finalized? && EndsTerminal(w.role.closeOut.ending)))
  }

  ghost predicate Inv(s: PR) {
    && (forall x :: x in s.rows ==> x in s.heads)
    && (forall id :: id in s.writers ==> WriterOk(s, id))
    && (forall id :: id in s.writes ==> WriteOk(s, id))
    && (forall x :: Closing(s, x) ==> Sealed(s, x))
    && (forall id :: id in s.writers && SawTerminal(s, id) ==> NotLeftPending(s, s.writers[id].session))
    && (forall x :: x in s.closed ==> Closing(s, x) && NotLeftPending(s, x))
  }

  // ----- every step keeps it -----

  /** A marker whose review's close-out was granted cannot land its write any more. */
  lemma SealedMarkerCannotLand(s: PR, id: GrantId)
    requires Inv(s) && id in s.writers
    ensures s.writers[id].role.Marker? && Closing(s, s.writers[id].session) ==> !CanLand(s, id)
  {
    assert WriterOk(s, id);
    if id in s.writes { assert WriteOk(s, id); }
  }

  /** A lease that was free, or another holder's, can be replaced. */
  lemma OnlyLeaseChanged(s: PR, t: PR)
    requires Inv(s) && t == s.(lease := t.lease)
    requires forall id :: id in s.writers && Holds(s, id) && !AskedToEnd(s.writers[id])
                          ==> Holds(t, id) || s.now > ExpiryOf(s.writers[id])
    ensures Inv(t)
  {
    forall id | id in t.writers ensures WriterOk(t, id) { assert WriterOk(s, id); }
    forall id | id in t.writes ensures WriteOk(t, id) { assert WriteOk(s, id); }
    forall x | Closing(t, x) ensures Sealed(t, x) { assert Closing(s, x); }
    forall id | id in t.writers && SawTerminal(t, id) ensures NotLeftPending(t, t.writers[id].session) {
      assert SawTerminal(s, id);
    }
    forall x | x in t.closed ensures Closing(t, x) && NotLeftPending(t, x) { assert Closing(s, x); }
  }

  lemma KeepsGrant(s: PR, t: PR, x: SessionId, id: GrantId)
    requires Inv(s) && LeaseFree(s) && id !in s.writers && id in t.writers && x in s.heads
    requires var w := t.writers[id];
      && t == s.(lease := Some(Lease(Grant(id), ExpiryOf(w))), writers := s.writers[id := w])
      && w.session == x && w.grantedAt == s.now && WriterOk(t, id) && BeforeSending(w)
      && (w.role.Marker? ==> LatestAndOpen(s, x))
      && (w.role.CloseOut? ==> x in s.rows && s.rows[x].request.Requested?)
    ensures Inv(t)
  {
    assert id in s.writes ==> WriteOk(s, id);
    forall o | o in t.writers ensures WriterOk(t, o) { if o != id { assert WriterOk(s, o); } }
    forall o | o in t.writes ensures WriteOk(t, o) { assert WriteOk(s, o); }
    forall y | Closing(t, y) ensures Sealed(t, y) {
      if Closing(s, y) { assert Sealed(s, y); }
      else {
        assert y == x;
        forall m | m in t.writers && t.writers[m].role.Marker? && t.writers[m].session == x
          ensures AskedToEnd(t.writers[m]) || t.now > ExpiryOf(t.writers[m])
        { assert m in s.writers && WriterOk(s, m); }
      }
    }
    forall o | o in t.writers && SawTerminal(t, o) ensures NotLeftPending(t, t.writers[o].session) {
      assert SawTerminal(s, o);
    }
    forall y | y in t.closed ensures Closing(t, y) && NotLeftPending(t, y) {
      var c :| c in s.writers && IsCloseOutOf(s.writers[c], y);
      assert IsCloseOutOf(t.writers[c], y);
    }
  }

  lemma AgentStepKeepsInv(s: PR, e: Event)
    requires Inv(s) && Step(s, e).Some? && (e.AgentAcquire? || e.AgentRelease?)
    ensures Inv(Step(s, e).value)
  {
    OnlyLeaseChanged(s, Step(s, e).value);
  }

  lemma GrantKeepsInv(s: PR, e: Event)
    requires Inv(s) && Step(s, e).Some? && (e.GrantMarker? || e.GrantCloseOut?)
    ensures Inv(Step(s, e).value)
  {
    KeepsGrant(s, Step(s, e).value, e.session, e.id);
  }

  /** Steps that touch only the clock, the generation and the rows. */
  ghost predicate Quiet(s: PR, t: PR) {
    && t == s.(now := t.now, generation := t.generation, rows := t.rows, heads := t.heads)
    && t.now >= s.now
    && (forall x :: x in s.heads ==> x in t.heads && t.heads[x] == s.heads[x])
    && (forall x :: x in t.rows ==> x in t.heads)
    && (forall x :: x in t.rows && x in s.heads ==>
          x in s.rows && (s.rows[x].request.Requested? ==> t.rows[x].request.Requested?))
  }

  lemma ClaimStepIsQuiet(s: PR, e: Event)
    requires Inv(s) && Step(s, e).Some? && (e.Tick? || e.Claim? || e.Unclaim? || e.Create? || e.Admit?)
    ensures Quiet(s, Step(s, e).value)
  {}

  lemma RequestStepIsQuiet(s: PR, e: Event)
    requires Inv(s) && Step(s, e).Some? && (e.Record? || e.Suspect? || e.Withdraw? || e.Promote? || e.DropRow?)
    ensures Quiet(s, Step(s, e).value)
  {}

  lemma KeepsQuiet(s: PR, t: PR)
    requires Inv(s) && Quiet(s, t)
    ensures Inv(t)
  {
    forall id | id in t.writers ensures WriterOk(t, id) { assert WriterOk(s, id); }
    forall id | id in t.writes ensures WriteOk(t, id) { assert WriteOk(s, id); }
    forall x | Closing(t, x) ensures Sealed(t, x) {
      var id :| id in t.writers && IsCloseOutOf(t.writers[id], x);
      assert Closing(s, x);
    }
    forall id | id in t.writers && SawTerminal(t, id) ensures NotLeftPending(t, t.writers[id].session) {
      assert SawTerminal(s, id) && WriterOk(s, id);
    }
    forall x | x in t.closed ensures Closing(t, x) && NotLeftPending(t, x) {
      var id :| id in s.writers && IsCloseOutOf(s.writers[id], x);
      assert WriterOk(s, id);
      assert IsCloseOutOf(t.writers[id], x);
    }
  }

  lemma KeepsEndLease(s: PR, id: GrantId)
    requires Inv(s) && id in s.writers && AskedToEnd(s.writers[id])
    ensures Inv(EndLeaseNext(s, id))
  {
    var t := EndLeaseNext(s, id);
    var r := s.(rows := t.rows);
    KeepsQuiet(s, r);
    OnlyLeaseChanged(r, t);
  }

  lemma KeepsLose(s: PR, id: GrantId)
    requires Inv(s) && id in s.writes && s.writes[id].fate.InFlight?
    ensures Inv(s.(writes := s.writes[id := s.writes[id].(fate := Lost)]))
  {
    var t := s.(writes := s.writes[id := s.writes[id].(fate := Lost)]);
    forall o | o in t.writers ensures WriterOk(t, o) { assert WriterOk(s, o); }
    forall o | o in t.writes ensures WriteOk(t, o) { assert WriteOk(s, o); }
    forall x | Closing(t, x) ensures Sealed(t, x) { assert Closing(s, x); }
    forall o | o in t.writers && SawTerminal(t, o) ensures NotLeftPending(t, t.writers[o].session) {
      assert SawTerminal(s, o);
    }
    forall x | x in t.closed ensures Closing(t, x) && NotLeftPending(t, x) { assert Closing(s, x); }
  }

  /** A head's status may change, but not to the "pending" of a review being closed out. */
  lemma KeepsShown(s: PR, t: PR)
    requires Inv(s) && t == s.(shown := t.shown)
    requires forall x :: Closing(s, x) && NotLeftPending(s, x) ==> NotLeftPending(t, x)
    ensures Inv(t)
  {
    forall id | id in t.writers ensures WriterOk(t, id) { assert WriterOk(s, id); }
    forall id | id in t.writes ensures WriteOk(t, id) { assert WriteOk(s, id); }
    forall x | Closing(t, x) ensures Sealed(t, x) { assert Closing(s, x); }
    forall id | id in t.writers && SawTerminal(t, id) ensures NotLeftPending(t, t.writers[id].session) {
      assert SawTerminal(s, id);
      assert IsCloseOutOf(s.writers[id], s.writers[id].session);
    }
    forall x | x in t.closed ensures Closing(t, x) && NotLeftPending(t, x) { assert Closing(s, x); }
  }

  lemma KeepsLanded(s: PR, t: PR, id: GrantId)
    requires Inv(s) && CanLand(s, id) && t == s.(writes := s.writes[id := s.writes[id].(fate := Landed)])
    requires NotLeftPending(s, s.writers[id].session) || s.writers[id].role.Marker?
    ensures Inv(t)
  {
    forall o | o in t.writers ensures WriterOk(t, o) { assert WriterOk(s, o); }
    forall o | o in t.writes ensures WriteOk(t, o) { assert WriteOk(s, o); }
    forall x | Closing(t, x) ensures Sealed(t, x) { assert Closing(s, x); }
    forall o | o in t.writers && SawTerminal(t, o) ensures NotLeftPending(t, t.writers[o].session) {
      if o != id { assert SawTerminal(s, o); }
    }
    forall x | x in t.closed ensures Closing(t, x) && NotLeftPending(t, x) { assert Closing(s, x); }
  }

  lemma KeepsLand(s: PR, t: PR, id: GrantId)
    requires Inv(s) && CanLand(s, id) && s.writers[id].session in s.heads
    requires t == s.(writes := s.writes[id := s.writes[id].(fate := Landed)],
                     shown := s.shown[s.heads[s.writers[id].session] := ShownBy(s.writers[id])])
    ensures Inv(t)
  {
    var r := s.(shown := t.shown);
    SealedMarkerCannotLand(s, id);
    assert forall x :: Closing(s, x) && NotLeftPending(s, x) ==> NotLeftPending(r, x);
    KeepsShown(s, r);
    KeepsLanded(r, t, id);
  }

  /** What a writer's own step may change: its place in its automaton, its write, and its review's closing. */
  ghost predicate Local(s: PR, t: PR, id: GrantId) {
    && id in s.writers && id in t.writers
    && t.writers == s.writers[id := s.writers[id].(role := t.writers[id].role)]
    && t.writers[id].role.Marker? == s.writers[id].role.Marker?
    && t == s.(writers := t.writers, writes := t.writes, closed := t.closed)
    && (t.writes == s.writes || t.writes == s.writes[id := Write(s.now, InFlight)])
  }

  lemma MarkerStepIsLocal(s: PR, id: GrantId, e: MarkerEvent)
    requires id in s.writers && s.writers[id].role.Marker? && BotNext(s, id, MarkerStepped(e)).Some?
    ensures Local(s, BotNext(s, id, MarkerStepped(e)).value, id) && !AskedToEnd(s.writers[id])
  {}

  lemma MarkerStepKeepsWriterOk(s: PR, id: GrantId, e: MarkerEvent)
    requires id in s.writers && WriterOk(s, id) && s.writers[id].role.Marker? && BotNext(s, id, MarkerStepped(e)).Some?
    ensures var t := BotNext(s, id, MarkerStepped(e)).value; id in t.writers && WriterOk(t, id)
  {}

  lemma CloseOutStepIsLocal(s: PR, id: GrantId, e: CloseOutEvent)
    requires id in s.writers && s.writers[id].role.CloseOut? && BotNext(s, id, CloseOutStepped(e)).Some?
    ensures Local(s, BotNext(s, id, CloseOutStepped(e)).value, id) && !AskedToEnd(s.writers[id])
  {}

  lemma CloseOutStepKeepsWriterOk(s: PR, id: GrantId, e: CloseOutEvent)
    requires id in s.writers && WriterOk(s, id) && s.writers[id].role.CloseOut?
    requires BotNext(s, id, CloseOutStepped(e)).Some?
    ensures var t := BotNext(s, id, CloseOutStepped(e)).value; id in t.writers && WriterOk(t, id)
  {}

  lemma BotStepIsLocal(s: PR, id: GrantId, step: BotStep)
    requires Inv(s) && id in s.writers && BotNext(s, id, step).Some?
    ensures var t := BotNext(s, id, step).value;
            Local(s, t, id) && WriterOk(t, id) && !AskedToEnd(s.writers[id])
  {
    assert WriterOk(s, id);
    match step
    case MarkerStepped(e) => MarkerStepIsLocal(s, id, e); MarkerStepKeepsWriterOk(s, id, e);
    case CloseOutStepped(e) => CloseOutStepIsLocal(s, id, e); CloseOutStepKeepsWriterOk(s, id, e);
  }

  lemma MarkerWriteOk(s: PR, id: GrantId, e: MarkerEvent)
    requires Inv(s) && id in s.writers && s.writers[id].role.Marker? && BotNext(s, id, MarkerStepped(e)).Some?
    ensures var t := BotNext(s, id, MarkerStepped(e)).value; id in t.writes ==> WriteOk(t, id)
  {
    assert WriterOk(s, id);
    if id in s.writes { assert WriteOk(s, id); }
  }

  lemma CloseOutWriteOk(s: PR, id: GrantId, e: CloseOutEvent)
    requires Inv(s) && id in s.writers && s.writers[id].role.CloseOut? && BotNext(s, id, CloseOutStepped(e)).Some?
    ensures var t := BotNext(s, id, CloseOutStepped(e)).value; id in t.writes ==> WriteOk(t, id)
  {
    assert WriterOk(s, id);
    if id in s.writes { assert WriteOk(s, id); }
  }

  lemma OthersWritesOk(s: PR, t: PR, id: GrantId)
    requires Inv(s) && Local(s, t, id) && (id in t.writes ==> WriteOk(t, id))
    ensures forall o :: o in t.writes ==> WriteOk(t, o)
  {
    forall o | o in t.writes && o != id ensures WriteOk(t, o) { assert WriteOk(s, o); }
  }

  lemma BotWritesOk(s: PR, id: GrantId, step: BotStep)
    requires Inv(s) && id in s.writers && BotNext(s, id, step).Some?
    ensures var t := BotNext(s, id, step).value; forall o :: o in t.writes ==> WriteOk(t, o)
  {
    BotStepIsLocal(s, id, step);
    match step {
      case MarkerStepped(e) => MarkerWriteOk(s, id, e);
      case CloseOutStepped(e) => CloseOutWriteOk(s, id, e);
    }
    OthersWritesOk(s, BotNext(s, id, step).value, id);
  }

  /** What the writer's step says of its review's closing. */
  ghost predicate ClosesTruly(s: PR, t: PR, id: GrantId) {
    id in s.writers &&
    var x := s.writers[id].session;
    && id in t.writers
    && (SawTerminal(t, id) ==> NotLeftPending(s, x))
    && (t.closed == s.closed || (t.closed == s.closed + {x} && SawTerminal(t, id)))
  }

  lemma CloseOutStepClosesTruly(s: PR, id: GrantId, e: CloseOutEvent)
    requires Inv(s) && id in s.writers && s.writers[id].role.CloseOut? && BotNext(s, id, CloseOutStepped(e)).Some?
    ensures ClosesTruly(s, BotNext(s, id, CloseOutStepped(e)).value, id)
  {
    assert WriterOk(s, id);
    assert SawTerminal(s, id) ==> NotLeftPending(s, s.writers[id].session);
  }

  lemma MarkerStepClosesTruly(s: PR, id: GrantId, e: MarkerEvent)
    requires id in s.writers && s.writers[id].role.Marker? && BotNext(s, id, MarkerStepped(e)).Some?
    ensures ClosesTruly(s, BotNext(s, id, MarkerStepped(e)).value, id)
  {}

  lemma BotStepSawTerminal(s: PR, id: GrantId, step: BotStep)
    requires Inv(s) && id in s.writers && BotNext(s, id, step).Some?
    ensures ClosesTruly(s, BotNext(s, id, step).value, id)
  {
    match step
    case MarkerStepped(e) => MarkerStepClosesTruly(s, id, e);
    case CloseOutStepped(e) => CloseOutStepClosesTruly(s, id, e);
  }

  lemma SameCloseOuts(s: PR, t: PR, id: GrantId)
    requires id in s.writers && id in t.writers
    requires t.writers == s.writers[id := s.writers[id].(role := t.writers[id].role)]
    requires t.writers[id].role.Marker? == s.writers[id].role.Marker?
    ensures forall x :: Closing(s, x) <==> Closing(t, x)
  {
    forall x ensures Closing(s, x) <==> Closing(t, x) {
      if Closing(s, x) {
        var c :| c in s.writers && IsCloseOutOf(s.writers[c], x);
        assert IsCloseOutOf(t.writers[c], x);
      }
      if Closing(t, x) {
        var c :| c in t.writers && IsCloseOutOf(t.writers[c], x);
        assert IsCloseOutOf(s.writers[c], x);
      }
    }
  }

  /** A change to one writer that keeps its role, whose own facts still hold, keeps everyone's. */
  lemma KeepsLocal(s: PR, t: PR, id: GrantId)
    requires Inv(s) && Local(s, t, id) && WriterOk(t, id) && !AskedToEnd(s.writers[id])
    requires (forall o :: o in t.writes ==> WriteOk(t, o)) && ClosesTruly(s, t, id)
    ensures Inv(t)
  {
    forall o | o in t.writers ensures WriterOk(t, o) { if o != id { assert WriterOk(s, o); } }
    SameCloseOuts(s, t, id);
    forall x | Closing(t, x) ensures Sealed(t, x) {}
    forall o | o in t.writers && SawTerminal(t, o) ensures NotLeftPending(t, t.writers[o].session) {
      if o != id { assert SawTerminal(s, o); }
    }
    forall x | x in t.closed ensures Closing(t, x) && NotLeftPending(t, x) {
      if x !in s.closed { assert IsCloseOutOf(t.writers[id], x); }
    }
  }

  lemma KeepsBot(s: PR, id: GrantId, step: BotStep)
    requires Inv(s) && id in s.writers && BotNext(s, id, step).Some?
    ensures Inv(BotNext(s, id, step).value)
  {
    var t := BotNext(s, id, step).value;
    BotStepIsLocal(s, id, step);
    BotStepSawTerminal(s, id, step);
    BotWritesOk(s, id, step);
    KeepsLocal(s, t, id);
  }

  lemma StepKeepsInv(s: PR, e: Event)
    requires Inv(s) && Step(s, e).Some?
    ensures Inv(Step(s, e).value)
  {
    match e
    case Bot(id, step) => KeepsBot(s, id, step);
    case EndLease(id) => KeepsEndLease(s, id);
    case Land(id) => KeepsLand(s, Step(s, e).value, id);
    case Lose(id) => KeepsLose(s, id);
    case OtherWrite(_, _) => KeepsShown(s, Step(s, e).value);
    case AgentAcquire(_) => AgentStepKeepsInv(s, e);
    case AgentRelease(_) => AgentStepKeepsInv(s, e);
    case GrantMarker(_, _, _, _) => GrantKeepsInv(s, e);
    case GrantCloseOut(_, _, _, _) => GrantKeepsInv(s, e);
    case _ =>
      if e.Tick? || e.Claim? || e.Unclaim? || e.Create? || e.Admit? {
        ClaimStepIsQuiet(s, e);
      } else {
        RequestStepIsQuiet(s, e);
      }
      KeepsQuiet(s, Step(s, e).value);
  }
}
