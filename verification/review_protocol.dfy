/**
 * One pull request's review statuses under concurrency: the control plane's fence rows and single
 * submission lease, GitHub's commit statuses, and every start marker and close-out as a writer
 * running the automata of `ReviewLease`. A step is one atomic action of one party; a run is any
 * sequence of enabled steps. A writer that crashes, or never hears its answer, just stops stepping.
 *
 * The environment is constrained as follows. GitHub lands a write within the request timeout of its
 * being sent, or never; a write it acknowledged has landed, and one it refused with a 4xx never lands. A
 * status read shows the latest write that has landed. A write is sent within the write margin of its
 * deadline check. Nobody but a start marker writes "pending". Each of the control plane's statements is
 * one step, and its clock and a writer's differ by a constant while the writer lives.
 */
module ReviewProtocol {
  import opened Options
  import opened ReviewLease

  type SessionId = nat
  type Head = nat

  /** `Suspected` is the reaper's provisional marker: neither open nor yet a close-out request. */
  datatype Request = Open | Suspected | Requested

  datatype Row = Row(generation: int, head: Head, request: Request, admitted: bool)

  datatype Holder = Agent(session: SessionId) | Grant(id: GrantId)
  datatype Lease = Lease(holder: Holder, expiresAt: int)

  datatype Role = Marker(marker: MarkerPc) | CloseOut(closeOut: CloseOutPc)

  /** A leased writer. `skew` is its own clock minus the control plane's. */
  datatype Writer = Writer(session: SessionId, grant: LeaseGrant, skew: int, grantedAt: int, role: Role)

  datatype Fate = InFlight | Landed | Lost
  datatype Write = Write(sentAt: int, fate: Fate)

  datatype Author = ByMarker(session: SessionId) | ByCloseOut(session: SessionId) | ByOther
  datatype Shown = Shown(status: Status, author: Author)

  datatype PR = PR(
    now: int,
    generation: int,
    rows: map<SessionId, Row>,
    /** The head each session was ever fenced to. */
    heads: map<SessionId, Head>,
    lease: Option<Lease>,
    writers: map<GrantId, Writer>,
    writes: map<GrantId, Write>,
    shown: map<Head, Shown>,
    /** Sessions whose close-out was finalized on a status it saw or made terminal. */
    closed: set<SessionId>)

  const FRESH := PR(0, 0, map[], map[], None, map[], map[], map[], {})

  datatype BotStep = MarkerStepped(me: MarkerEvent) | CloseOutStepped(ce: CloseOutEvent)

  datatype Event =
    | Tick(elapsed: nat)
    | Claim
    | Unclaim(claimed: int)
    | Create(session: SessionId, claimed: int, head: Head)
    | Admit(session: SessionId)
    | Record(session: SessionId)
    | Suspect(session: SessionId)
    | Withdraw(session: SessionId)
    | Promote(session: SessionId)
    | DropRow(session: SessionId)
    | AgentAcquire(session: SessionId)
    | AgentRelease(session: SessionId)
    | GrantMarker(session: SessionId, id: GrantId, askedAt: int, skew: int)
    | GrantCloseOut(session: SessionId, id: GrantId, askedAt: int, skew: int)
    | Bot(id: GrantId, step: BotStep)
    | EndLease(id: GrantId)
    | Land(id: GrantId)
    | Lose(id: GrantId)
    /** An agent's verdict or a stand-down's skip: never "pending". */
    | OtherWrite(head: Head, status: Status)

  // ----- the control plane's conditions -----

  predicate LeaseFree(s: PR) {
    s.lease.None? || s.lease.value.expiresAt < s.now
  }

  /** The terms an agent and a start marker are granted the lease on, beyond its being free. */
  predicate LatestAndOpen(s: PR, x: SessionId) {
    x in s.rows && s.rows[x].generation == s.generation && s.rows[x].request.Open?
  }

  predicate HeadReclaimed(s: PR, x: SessionId) {
    x in s.rows &&
    exists y :: y in s.rows && s.rows[y].generation > s.rows[x].generation
                && s.rows[y].head == s.rows[x].head && s.rows[y].admitted
  }

  predicate CloseOutOwed(s: PR, x: SessionId) {
    x in s.rows && s.rows[x].request.Requested? && !HeadReclaimed(s, x)
  }

  // ----- the writers -----

  function WithRequest(s: PR, x: SessionId, r: Request): PR
    requires x in s.rows
  {
    s.(rows := s.rows[x := s.rows[x].(request := r)])
  }

  function WithWriter(s: PR, id: GrantId, w: Writer): PR {
    s.(lease := Some(Lease(Grant(id), s.now + w.grant.leaseExpiresInMs)), writers := s.writers[id := w])
  }

  /** When the writer found its deadline not yet passed, on its own clock. */
  function ClearedAt(w: Writer): Option<int> {
    match w.role
    case Marker(Cleared(_, at)) => Some(at)
    case CloseOut(MayWrite(_, at)) => Some(at)
    case _ => None
  }

  function SendEffect(s: PR, id: GrantId, w: Writer, at: int): Option<PR> {
    if ClearedAt(w).Some? && at == s.now + w.skew && at <= ClearedAt(w).value + LEASE_WRITE_MARGIN_MS
    then Some(s.(writes := s.writes[id := Write(s.now, InFlight)]))
    else None
  }

  /** An acknowledged write has landed and a 4xx never lands; any other answer tells nothing. */
  function AnswerEffect(s: PR, id: GrantId, r: PostResult): Option<PR> {
    if id in s.writes
       && (r.Posted? ==> s.writes[id].fate.Landed?)
       && (r.HttpError? && 400 <= r.status < 500 ==> s.writes[id].fate.Lost?)
    then Some(s) else None
  }

  /** What a start marker's next step also needs of the world, and does to it. */
  function MarkerEffect(s: PR, id: GrantId, w: Writer, e: MarkerEvent): Option<PR> {
    match e
    case MarkerDeadlineChecked(at) => if at == s.now + w.skew then Some(s) else None
    case MarkerSent(at) => SendEffect(s, id, w, at)
    case MarkerAnswered(r) => AnswerEffect(s, id, r)
    case _ => Some(s)
  }

  function StatusOf(s: PR, x: SessionId): Option<Status> {
    if x in s.heads && s.heads[x] in s.shown then Some(s.shown[s.heads[x]].status) else None
  }

  function CloseOutEffect(s: PR, id: GrantId, w: Writer, e: CloseOutEvent): Option<PR> {
    match e
    case StatusObserved(Readable(state)) => if state == StatusOf(s, w.session) then Some(s) else None
    case CloseOutDeadlineChecked(at) => if at == s.now + w.skew then Some(s) else None
    case CloseOutSent(at) => SendEffect(s, id, w, at)
    case CloseOutAnswered(r) => AnswerEffect(s, id, r)
    case CloseOutFinalized(_, _) =>
      if w.role.CloseOut? && w.role.closeOut.Ending?
         && (w.role.closeOut.ending.AlreadyTerminal? || w.role.closeOut.ending.ClosedOut?)
      then Some(s.(closed := s.closed + {w.session})) else Some(s)
    case _ => Some(s)
  }

  function BotNext(s: PR, id: GrantId, step: BotStep): Option<PR>
    requires id in s.writers
  {
    var w := s.writers[id];
    match (w.role, step)
    case (Marker(pc), MarkerStepped(e)) =>
      (match (MarkerStep(pc, e), MarkerEffect(s, id, w, e))
       case (Some(pc'), Some(s')) => Some(s'.(writers := s.writers[id := w.(role := Marker(pc'))]))
       case _ => None)
    case (CloseOut(pc), CloseOutStepped(e)) =>
      (match (CloseOutStep(pc, e), CloseOutEffect(s, id, w, e))
       case (Some(pc'), Some(s')) => Some(s'.(writers := s.writers[id := w.(role := CloseOut(pc'))]))
       case _ => None)
    case _ => None
  }

  /** The writer has asked the control plane to end its lease: a release, or a finalize. */
  predicate AskedToEnd(w: Writer) {
    match w.role
    case Marker(pc) => pc.Released?
    case CloseOut(pc) => pc.Finalized?
  }

  predicate HoldsRecord(s: PR, id: GrantId) {
    s.lease.Some? && s.lease.value.holder == Grant(id)
  }

  /** A release or finalize reaches the control plane; it acts only while that grant holds the lease. */
  function EndLeaseNext(s: PR, id: GrantId): PR
    requires id in s.writers
  {
    var w := s.writers[id];
    if !HoldsRecord(s, id) then s
    else if w.role.CloseOut? && w.role.closeOut.Finalized? && FinalizeOf(w.role.closeOut.ending).Retry?
    then s.(lease := Some(s.lease.value.(expiresAt := s.now - 1)))
    else if w.role.CloseOut?
    then s.(lease := None, rows := s.rows - {w.session})
    else s.(lease := None)
  }

  predicate CanLand(s: PR, id: GrantId) {
    id in s.writers && id in s.writes && s.writes[id].fate.InFlight?
    && s.now <= s.writes[id].sentAt + GITHUB_API_REQUEST_TIMEOUT_MS
  }

  function ShownBy(w: Writer): Shown {
    if w.role.Marker? then Shown(Pending, ByMarker(w.session)) else Shown(Error, ByCloseOut(w.session))
  }

  // ----- one step, and runs -----

  function Step(s: PR, e: Event): Option<PR> {
    match e
    case Tick(d) => Some(s.(now := s.now + d))
    case Claim => Some(s.(generation := s.generation + 1))
    case Unclaim(g) =>
      if g == s.generation && forall x :: x in s.rows ==> s.rows[x].generation != g
      then Some(s.(generation := g - 1)) else Some(s)
    case Create(x, g, h) =>
      if g == s.generation && x !in s.heads && forall y :: y in s.rows ==> s.rows[y].generation != g
      then Some(s.(rows := s.rows[x := Row(g, h, Open, false)], heads := s.heads[x := h])) else None
    case Admit(x) =>
      if x in s.rows then Some(s.(rows := s.rows[x := s.rows[x].(admitted := true)])) else Some(s)
    case Record(x) =>
      if x in s.rows then Some(WithRequest(s, x, Requested)) else Some(s)
    case Suspect(x) =>
      if x in s.rows && s.rows[x].request.Open? then Some(WithRequest(s, x, Suspected)) else None
    case Withdraw(x) =>
      if x in s.rows && s.rows[x].request.Suspected? then Some(WithRequest(s, x, Open)) else None
    case Promote(x) =>
      if x in s.rows && s.rows[x].request.Suspected? then Some(WithRequest(s, x, Requested)) else None
    case DropRow(x) => Some(s.(rows := s.rows - {x}))
    case AgentAcquire(x) =>
      if LatestAndOpen(s, x) && (LeaseFree(s) || s.lease.value.holder == Agent(x))
      then Some(s.(lease := Some(Lease(Agent(x), s.now + REVIEW_SUBMISSION_LEASE_MS)))) else None
    case AgentRelease(x) =>
      if s.lease.Some? && s.lease.value.holder == Agent(x) then Some(s.(lease := None)) else Some(s)
    case GrantMarker(x, id, askedAt, skew) =>
      if LatestAndOpen(s, x) && x in s.heads && LeaseFree(s) && id !in s.writers && askedAt <= s.now then
        var g := LeaseGrant(id, askedAt + skew, START_MARKER_LEASE_MS);
        Some(WithWriter(s, id, Writer(x, g, skew, s.now, Marker(Holding(g)))))
      else None
    case GrantCloseOut(x, id, askedAt, skew) =>
      if CloseOutOwed(s, x) && x in s.heads && LeaseFree(s) && id !in s.writers && askedAt <= s.now then
        var g := LeaseGrant(id, askedAt + skew, REVIEW_SUBMISSION_LEASE_MS);
        Some(WithWriter(s, id, Writer(x, g, skew, s.now, CloseOut(Reading(g)))))
      else None
    case Bot(id, step) => if id in s.writers then BotNext(s, id, step) else None
    case EndLease(id) =>
      if id in s.writers && AskedToEnd(s.writers[id]) then Some(EndLeaseNext(s, id)) else None
    case Land(id) =>
      if CanLand(s, id) && s.writers[id].session in s.heads then
        Some(s.(writes := s.writes[id := s.writes[id].(fate := Landed)],
                shown := s.shown[s.heads[s.writers[id].session] := ShownBy(s.writers[id])]))
      else None
    case Lose(id) =>
      if id in s.writes && s.writes[id].fate.InFlight?
      then Some(s.(writes := s.writes[id := s.writes[id].(fate := Lost)])) else None
    case OtherWrite(h, status) =>
      if status != Pending then Some(s.(shown := s.shown[h := Shown(status, ByOther)])) else None
  }

  /** A run: the states it passes through, and the step taken in each but the last. */
  datatype History = History(states: seq<PR>, steps: seq<Event>)

  ghost predicate Moves(h: History, k: nat) {
    k < |h.steps| < |h.states| &&
    Step(h.states[k], h.steps[k]) == Some(h.states[k + 1])
  }

  ghost predicate IsRun(h: History) {
    && |h.states| == |h.steps| + 1
    && h.states[0] == FRESH
    && forall k: nat :: k < |h.steps| ==> Moves(h, k)
  }
}
