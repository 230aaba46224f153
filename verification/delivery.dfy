/**
 * One attempt at a webhook delivery: the steps of its handler, from the dedupe marker to the marker's
 * end. `Delivery` runs the same automaton for any number of attempts over one key-value store.
 */
module DeliveryAttempt {
  import opened Options
  import Automaton

  datatype Status = Processing | Processed

  datatype CheckpointRead = ReadFailed | Found | NotFound

  /**
   * `Completed`: the handler's work is done, or a comment explained why it was not. `NotCheckpointed`:
   * any other skip, which a redelivery decides again.
   */
  datatype DispatchResult = Completed | NotCheckpointed | Threw

  /** A write or delete that failed may have been applied all the same. */
  datatype Event =
    | MarkerRead(marker: Option<Status>)
    | Enqueued(ok: bool)
    | CheckpointLookup(read: CheckpointRead)
    /** The control plane created a session; its prompt is still to come. */
    | SessionCreated
    | Dispatched(result: DispatchResult)
    | CheckpointPut(ok: bool, stored: bool)
    | Forwarded(ok: bool)
    | ProcessedPut(ok: bool, stored: bool)
    | MarkerCleared(ok: bool, removed: bool)

  datatype Pc =
    | Arriving
    | Rejected(acknowledged: bool)
    | Enqueueing
    | Reading(enqueued: bool)
    /** `started`: a session exists already. */
    | Dispatching(enqueued: bool, started: bool)
    | Checkpointing(enqueued: bool)
    | Forwarding(enqueued: bool, dispatched: bool)
    | Settling(clean: bool)
    | Done(clean: bool)

  /** A duplicate is acknowledged only when the delivery has been processed; then it is turned away. */
  function AttemptStep(pc: Pc, e: Event): Option<Pc> {
    match (pc, e)
    case (Arriving, MarkerRead(Some(status))) => Some(Rejected(status == Processed))
    case (Arriving, MarkerRead(None)) => Some(Enqueueing)
    case (Enqueueing, Enqueued(ok)) => Some(Reading(ok))
    case (Reading(q), CheckpointLookup(r)) =>
      Some(if r.NotFound? then Dispatching(q, false) else Forwarding(q, r.Found?))
    case (Dispatching(q, false), SessionCreated) => Some(Dispatching(q, true))
    case (Dispatching(q, _), Dispatched(Completed)) => Some(Checkpointing(q))
    case (Dispatching(q, false), Dispatched(NotCheckpointed)) => Some(Forwarding(q, true))
    case (Dispatching(q, _), Dispatched(Threw)) => Some(Forwarding(q, false))
    case (Checkpointing(q), CheckpointPut(ok, _)) => Some(Forwarding(q, ok))
    case (Forwarding(q, d), Forwarded(ok)) => Some(Settling(q && d && ok))
    case (Settling(true), ProcessedPut(_, _)) => Some(Done(true))
    case (Settling(false), MarkerCleared(_, _)) => Some(Done(false))
    case _ => None
  }

  function AttemptRun(pc: Pc, es: seq<Event>): Option<Pc> {
    Automaton.Run(AttemptStep, pc, es)
  }

  /** The autofix event was queued, or there was none. */
  predicate QueuedOk(es: seq<Event>) { Enqueued(true) in es }

  predicate ForwardedOk(es: seq<Event>) { Forwarded(true) in es }

  /** Dispatch had been checkpointed before, ended in a skip that needs no checkpoint, or was checkpointed now. */
  predicate DispatchOk(es: seq<Event>) {
    || CheckpointLookup(Found) in es
    || Dispatched(NotCheckpointed) in es
    || (Dispatched(Completed) in es && exists stored :: CheckpointPut(true, stored) in es)
  }

  predicate ProcessedIn(es: seq<Event>) {
    exists k :: 0 <= k < |es| && es[k].ProcessedPut?
  }

  /** What each point of an attempt remembers. */
  lemma {:induction false} AttemptHistory(es: seq<Event>)
    requires AttemptRun(Arriving, es).Some?
    ensures var pc := AttemptRun(Arriving, es).value;
            && ((pc.Reading? || pc.Dispatching? || pc.Checkpointing? || pc.Forwarding?) && pc.enqueued ==> QueuedOk(es))
            && (pc.Checkpointing? ==> Dispatched(Completed) in es)
            && (pc.Forwarding? && pc.dispatched ==> DispatchOk(es))
            && ((pc.Settling? || pc.Done?) && pc.clean ==> QueuedOk(es) && DispatchOk(es) && ForwardedOk(es))
            && (ProcessedIn(es) ==> pc == Done(true))
    decreases |es|
  {
    if es != [] {
      var n := |es| - 1;
      var before := es[..n];
      AttemptHistory(before);
      assert es == before + [es[n]];
      assert DispatchOk(before) ==> DispatchOk(es);
    }
  }

  /** `processed` is written only after dispatch, forwarding and the autofix queue all went without failure. */
  lemma ProcessedOnlyWhenClean(es: seq<Event>)
    requires AttemptRun(Arriving, es).Some? && ProcessedIn(es)
    ensures QueuedOk(es) && DispatchOk(es) && ForwardedOk(es)
  {
    AttemptHistory(es);
  }

  // ----- every attempt, written out -----

  /** Forwards, then marks the delivery processed when nothing failed, and clears its marker otherwise. */
  predicate Ends(es: seq<Event>, clean: bool) {
    && |es| == 2 && es[0].Forwarded?
    && if clean && es[0].ok then es[1].ProcessedPut? else es[1].MarkerCleared?
  }

  /** A dispatch that throws has failed, a completed one when its checkpoint cannot be put, any other skip has not. */
  predicate DispatchesAndEnds(es: seq<Event>, queued: bool, started: bool) {
    && es != [] && es[0].Dispatched?
    && match es[0].result
       case Threw => Ends(es[1..], false)
       case NotCheckpointed => !started && Ends(es[1..], queued)
       case Completed => |es| >= 2 && es[1].CheckpointPut? && Ends(es[2..], queued && es[1].ok)
  }

  /**
   * The whole of an attempt. One that finds a marker does nothing more. Any other queues the autofix event,
   * dispatches unless a checkpoint is found or cannot be looked up, and forwards whatever came of that.
   */
  predicate Attempted(es: seq<Event>) {
    && es != [] && es[0].MarkerRead?
    && if es[0].marker.Some? then |es| == 1
       else |es| >= 3 && es[1].Enqueued? && es[2].CheckpointLookup?
            && match es[2].read
               case Found => Ends(es[3..], es[1].ok)
               case ReadFailed => Ends(es[3..], false)
               case NotFound =>
                 if |es| >= 4 && es[3] == SessionCreated then DispatchesAndEnds(es[4..], es[1].ok, true)
                 else DispatchesAndEnds(es[3..], es[1].ok, false)
  }

  predicate Finishes(pc: Pc, es: seq<Event>) {
    AttemptRun(pc, es).Some? && (AttemptRun(pc, es).value.Rejected? || AttemptRun(pc, es).value.Done?)
  }

  /** One event at the front of a run. */
  lemma FinishesFrom(pc: Pc, es: seq<Event>)
    ensures Finishes(pc, es) <==>
            if es == [] then pc.Rejected? || pc.Done?
            else AttemptStep(pc, es[0]).Some? && Finishes(AttemptStep(pc, es[0]).value, es[1..])
  {
    if es != [] {
      Automaton.RunThen(AttemptStep, pc, [], es[0]);
      assert [] + [es[0]] == [es[0]] && [es[0]] + es[1..] == es;
      Automaton.RunJoins(AttemptStep, pc, [es[0]], es[1..]);
    }
  }

  lemma EndsExactly(queued: bool, dispatched: bool, es: seq<Event>)
    ensures Finishes(Forwarding(queued, dispatched), es) <==> Ends(es, queued && dispatched)
  {
    FinishesFrom(Forwarding(queued, dispatched), es);
    if es != [] && es[0].Forwarded? {
      var clean := queued && dispatched && es[0].ok;
      FinishesFrom(Settling(clean), es[1..]);
      if |es| > 1 { FinishesFrom(Done(clean), es[2..]); }
    }
  }

  lemma DispatchEndsExactly(queued: bool, started: bool, es: seq<Event>)
    requires es == [] || es[0] != SessionCreated
    ensures Finishes(Dispatching(queued, started), es) <==> DispatchesAndEnds(es, queued, started)
  {
    FinishesFrom(Dispatching(queued, started), es);
    if es != [] && es[0].Dispatched? {
      EndsExactly(queued, true, es[1..]);
      EndsExactly(queued, false, es[1..]);
      FinishesFrom(Checkpointing(queued), es[1..]);
      if |es| > 1 && es[1].CheckpointPut? {
        assert es[1..][1..] == es[2..];
        EndsExactly(queued, es[1].ok, es[2..]);
      }
    }
  }

  lemma DispatchExactly(queued: bool, es: seq<Event>)
    ensures Finishes(Dispatching(queued, false), es) <==>
            if es != [] && es[0] == SessionCreated then DispatchesAndEnds(es[1..], queued, true)
            else DispatchesAndEnds(es, queued, false)
  {
    if es != [] && es[0] == SessionCreated {
      FinishesFrom(Dispatching(queued, false), es);
      FinishesFrom(Dispatching(queued, true), es[1..]);
      if |es| > 1 && es[1] != SessionCreated { DispatchEndsExactly(queued, true, es[1..]); }
    } else {
      DispatchEndsExactly(queued, false, es);
    }
  }

  lemma LookedUpExactly(queued: bool, es: seq<Event>)
    ensures Finishes(Reading(queued), es) <==>
            && es != [] && es[0].CheckpointLookup?
            && match es[0].read
               case Found => Ends(es[1..], queued)
               case ReadFailed => Ends(es[1..], false)
               case NotFound =>
                 if |es| >= 2 && es[1] == SessionCreated then DispatchesAndEnds(es[2..], queued, true)
                 else DispatchesAndEnds(es[1..], queued, false)
  {
    FinishesFrom(Reading(queued), es);
    if es != [] && es[0].CheckpointLookup? {
      EndsExactly(queued, true, es[1..]);
      EndsExactly(queued, false, es[1..]);
      DispatchExactly(queued, es[1..]);
      assert |es| >= 2 ==> es[1..][1..] == es[2..];
    }
  }

  /** The attempts that come to an end are exactly those. */
  lemma AttemptsExactly(es: seq<Event>)
    ensures Finishes(Arriving, es) <==> Attempted(es)
  {
    FinishesFrom(Arriving, es);
    if es != [] && es[0].MarkerRead? {
      var rest := es[1..];
      if es[0].marker.Some? {
        FinishesFrom(Rejected(es[0].marker.value == Processed), rest);
      } else {
        FinishesFrom(Enqueueing, rest);
        if rest != [] && rest[0].Enqueued? { LookedUpExactly(rest[0].ok, rest[1..]); }
        assert rest != [] ==> rest[1..] == es[2..];
      }
    }
  }
}

/** Any number of attempts at one delivery, interleaved step by step over the marker and the checkpoint. */
module Delivery {
  import opened Options
  import Automaton
  import opened DeliveryAttempt

  const DELIVERY_PROCESSING_TTL_MS := 300_000
  const DELIVERY_DEDUPE_TTL_MS := 604_800_000

  datatype Marker = Marker(status: Status, expiresAt: int)

  datatype Attempt = Attempt(pc: Pc, arrivedAt: int)

  datatype State = State(
    clock: int,
    marker: Option<Marker>,
    /** When the dispatch checkpoint expires, once stored. */
    checkpoint: Option<int>,
    attempts: map<nat, Attempt>,
    /** How many dispatches were completed, and how many sessions were created. */
    completed: nat,
    sessions: nat)

  datatype Move = Advance(ms: nat) | Act(id: nat, event: Event)

  const INITIAL := State(0, None, None, map[], 0, 0)

  function LiveMarker(s: State): Option<Status> {
    if s.marker.Some? && s.clock < s.marker.value.expiresAt then Some(s.marker.value.status) else None
  }

  predicate LiveCheckpoint(s: State) {
    s.checkpoint.Some? && s.clock < s.checkpoint.value
  }

  function AttemptOf(s: State, id: nat): Attempt {
    if id in s.attempts then s.attempts[id] else Attempt(Arriving, s.clock)
  }

  /** What the store and the clock allow an event to say. */
  predicate Truthful(s: State, e: Event) {
    match e
    case MarkerRead(m) => m == LiveMarker(s)
    case CheckpointLookup(r) => r.ReadFailed? || r.Found? == LiveCheckpoint(s)
    case CheckpointPut(ok, stored) => ok ==> stored
    case ProcessedPut(ok, stored) => ok ==> stored
    case MarkerCleared(ok, removed) => ok ==> removed
    case _ => true
  }

  /** Reading no marker and putting one is one step. */
  function StoreAfter(s: State, e: Event): State {
    match e
    case MarkerRead(None) => s.(marker := Some(Marker(Processing, s.clock + DELIVERY_PROCESSING_TTL_MS)))
    case CheckpointPut(_, true) => s.(checkpoint := Some(s.clock + DELIVERY_DEDUPE_TTL_MS))
    case ProcessedPut(_, true) => s.(marker := Some(Marker(Processed, s.clock + DELIVERY_DEDUPE_TTL_MS)))
    case MarkerCleared(_, true) => s.(marker := None)
    case Dispatched(Completed) => s.(completed := s.completed + 1)
    case SessionCreated => s.(sessions := s.sessions + 1)
    case _ => s
  }

  function Step(s: State, m: Move): Option<State> {
    match m
    case Advance(ms) => Some(s.(clock := s.clock + ms))
    case Act(id, e) =>
      var a := AttemptOf(s, id);
      var next := AttemptStep(a.pc, e);
      if next.None? || !Truthful(s, e) then None
      else Some(StoreAfter(s, e).(attempts := s.attempts[id := a.(pc := next.value)]))
  }

  function Run(s: State, ms: seq<Move>): Option<State> {
    Automaton.Run(Step, s, ms)
  }

  // ----- the marker says what happened -----

  predicate SomeClean(s: State) {
    exists id :: id in s.attempts && s.attempts[id].pc == Done(true)
  }

  /** The moves of one attempt, in order. */
  function Mine(ms: seq<Move>, id: nat): seq<Event>
    decreases |ms|
  {
    if ms == [] then [] else
    var last := ms[|ms| - 1];
    Mine(ms[..|ms| - 1], id) + if last.Act? && last.id == id then [last.event] else []
  }

  /** Every attempt follows its own automaton, whatever the others do. */
  lemma {:induction false} AttemptsFollowTheHandler(s: State, ms: seq<Move>, id: nat)
    requires s.attempts == map[] && Run(s, ms).Some?
    ensures id in Run(s, ms).value.attempts ==>
              AttemptRun(Arriving, Mine(ms, id)) == Some(Run(s, ms).value.attempts[id].pc)
    ensures id !in Run(s, ms).value.attempts ==> Mine(ms, id) == []
    decreases |ms|
  {
    if ms != [] {
      var before, last := ms[..|ms| - 1], ms[|ms| - 1];
      AttemptsFollowTheHandler(s, before, id);
      if last.Act? && last.id == id { Automaton.RunThen(AttemptStep, Arriving, Mine(before, id), last.event); }
      assert Mine(before, id) + [] == Mine(before, id);
    }
  }

  lemma {:induction false} ProcessedMarkerHasCleanAttempt(ms: seq<Move>)
    requires Run(INITIAL, ms).Some?
    ensures var s := Run(INITIAL, ms).value;
            s.marker.Some? && s.marker.value.status.Processed? ==> SomeClean(s)
    decreases |ms|
  {
    if ms != [] {
      var before, last := ms[..|ms| - 1], ms[|ms| - 1];
      ProcessedMarkerHasCleanAttempt(before);
      var p, s := Run(INITIAL, before).value, Run(INITIAL, ms).value;
      if last.Act? && last.event.ProcessedPut? {
        assert s.attempts[last.id].pc == Done(true);
      } else if SomeClean(p) {
        var id :| id in p.attempts && p.attempts[id].pc == Done(true);
        assert s.attempts[id].pc == Done(true);
      }
    }
  }

  /** A stored `processed` was put there by an attempt that dispatched, forwarded and queued without failure. */
  lemma ProcessedMeansClean(ms: seq<Move>) returns (id: nat)
    requires Run(INITIAL, ms).Some? && Run(INITIAL, ms).value.marker.Some?
    requires Run(INITIAL, ms).value.marker.value.status.Processed?
    ensures QueuedOk(Mine(ms, id)) && DispatchOk(Mine(ms, id)) && ForwardedOk(Mine(ms, id))
  {
    ProcessedMarkerHasCleanAttempt(ms);
    var s := Run(INITIAL, ms).value;
    id :| id in s.attempts && s.attempts[id].pc == Done(true);
    AttemptsFollowTheHandler(INITIAL, ms, id);
    AttemptHistory(Mine(ms, id));
  }

  /** A stored success stays one. */
  lemma StaysClean(s: State, m: Move)
    requires SomeClean(s) && Step(s, m).Some?
    ensures SomeClean(Step(s, m).value)
  {
    var id :| id in s.attempts && s.attempts[id].pc == Done(true);
    assert Step(s, m).value.attempts[id].pc == Done(true);
  }

  lemma ArrivingHasDoneNothing(es: seq<Event>)
    ensures AttemptRun(Arriving, es) == Some(Arriving) ==> es == []
  {}

  /**
   * A duplicate read the marker and did nothing more. It was acknowledged exactly when that said
   * `processed`, and then some attempt has ended without failure.
   */
  lemma {:induction false} DuplicatesAnswered(ms: seq<Move>, id: nat)
    requires Run(INITIAL, ms).Some?
    ensures var s := Run(INITIAL, ms).value;
            id in s.attempts && s.attempts[id].pc.Rejected? ==>
              if s.attempts[id].pc.acknowledged then Mine(ms, id) == [MarkerRead(Some(Processed))] && SomeClean(s)
              else Mine(ms, id) == [MarkerRead(Some(Processing))]
    decreases |ms|
  {
    if ms != [] {
      var before, last := ms[..|ms| - 1], ms[|ms| - 1];
      var p := Run(INITIAL, before).value;
      DuplicatesAnswered(before, id);
      if SomeClean(p) { StaysClean(p, last); }
      if last.Act? && last.id == id {
        AttemptsFollowTheHandler(INITIAL, before, id);
        ProcessedMarkerHasCleanAttempt(before);
        ArrivingHasDoneNothing(Mine(before, id));
      }
      assert Mine(before, id) + [] == Mine(before, id);
    }
  }

  // ----- the checkpoint holds -----

  /** The attempt creates a session, or ends its dispatch. */
  predicate Dispatches(ms: seq<Move>, id: nat) {
    exists k :: 0 <= k < |ms| && ms[k].Act? && ms[k].id == id
                && (ms[k].event.SessionCreated? || ms[k].event.Dispatched?)
  }

  /** No checkpoint outlasts one stored now. */
  predicate Dated(s: State) {
    s.checkpoint.Some? ==> s.checkpoint.value <= s.clock + 604_800_000
  }

  lemma {:induction false} RunsAreDated(s: State, ms: seq<Move>)
    requires Run(s, ms).Some? && Dated(s)
    ensures Dated(Run(s, ms).value)
    decreases |ms|
  {
    if ms != [] { RunsAreDated(s, ms[..|ms| - 1]); }
  }

  /** While the checkpoint lives, an attempt that is not dispatching already never does, nor does one yet to arrive. */
  lemma {:induction false} NoDispatchUnderCheckpoint(s: State, ms: seq<Move>, id: nat)
    requires Run(s, ms).Some? && LiveCheckpoint(s) && Dated(s)
    requires !AttemptOf(s, id).pc.Dispatching?
    requires Run(s, ms).value.clock < s.checkpoint.value
    ensures !Dispatches(ms, id)
    ensures var t := Run(s, ms).value;
            t.clock >= s.clock && t.checkpoint.Some? && t.checkpoint.value >= s.checkpoint.value
            && !AttemptOf(t, id).pc.Dispatching?
    decreases |ms|
  {
    if ms != [] {
      var before, last := ms[..|ms| - 1], ms[|ms| - 1];
      assert Run(s, before).value.clock <= Run(s, ms).value.clock;
      NoDispatchUnderCheckpoint(s, before, id);
      forall k | 0 <= k < |ms|
        ensures !(ms[k].Act? && ms[k].id == id && (ms[k].event.SessionCreated? || ms[k].event.Dispatched?))
      {
        if k < |ms| - 1 { assert before[k] == ms[k]; }
      }
    }
  }

  /** Once a checkpoint is stored, an attempt not dispatching already does not dispatch within a week. */
  lemma NoDispatchForAWeek(s: State, holder: nat, ok: bool, ms: seq<Move>, id: nat)
    requires Dated(s) && Step(s, Act(holder, CheckpointPut(ok, true))).Some?
    requires var t := Step(s, Act(holder, CheckpointPut(ok, true))).value;
             Run(t, ms).Some? && Run(t, ms).value.clock < s.clock + 604_800_000 && !AttemptOf(t, id).pc.Dispatching?
    ensures !Dispatches(ms, id)
  {
    NoDispatchUnderCheckpoint(Step(s, Act(holder, CheckpointPut(ok, true))).value, ms, id);
  }

  /** An attempt can dispatch while a stored checkpoint lives exactly when it was dispatching before. */
  lemma DispatchUnderCheckpointIffUnderWay(s: State, id: nat)
    requires LiveCheckpoint(s) && Dated(s)
    ensures (exists ms :: Run(s, ms).Some? && Run(s, ms).value.clock < s.checkpoint.value && Dispatches(ms, id))
            <==> AttemptOf(s, id).pc.Dispatching?
  {
    if AttemptOf(s, id).pc.Dispatching? {
      var ms := [Act(id, Dispatched(Threw))];
      Automaton.RunThen(Step, s, [], ms[0]);
      assert [] + [ms[0]] == ms;
      assert Step(s, ms[0]).Some?;
      assert ms[0].event.Dispatched?;
      assert Dispatches(ms, id);
    } else {
      forall ms | Run(s, ms).Some? && Run(s, ms).value.clock < s.checkpoint.value ensures !Dispatches(ms, id) {
        NoDispatchUnderCheckpoint(s, ms, id);
      }
    }
  }

  // ----- what may go wrong -----

  predicate Unsettled(a: Attempt) {
    !a.pc.Rejected? && !a.pc.Done?
  }

  datatype Fault =
    /** An attempt is still under way when its marker lapses. */
    | MarkerOutlived
    /** The checkpoint of a completed dispatch is not stored. */
    | CheckpointLost
    /** The delivery is still being redelivered when its checkpoint lapses. */
    | CheckpointLapsed
    /** A dispatch throws after it has created a session. */
    | ThrewLate

  function FaultsOf(s: State, m: Move): set<Fault> {
    match m
    case Advance(ms) =>
      (if exists id :: id in s.attempts && Unsettled(s.attempts[id])
                       && s.clock + ms >= s.attempts[id].arrivedAt + 300_000
       then {MarkerOutlived} else {})
      + (if s.checkpoint.Some? && s.clock + ms >= s.checkpoint.value then {CheckpointLapsed} else {})
    case Act(_, CheckpointPut(_, false)) => {CheckpointLost}
    case Act(id, Dispatched(Threw)) =>
      (match AttemptOf(s, id).pc case Dispatching(_, true) => {ThrewLate} case _ => {})
    case _ => {}
  }

  /** Everything that went wrong in a run. */
  function RunFaults(ms: seq<Move>): set<Fault>
    decreases |ms|
  {
    if ms == [] then {} else
    var before := ms[..|ms| - 1];
    RunFaults(before) + if Run(INITIAL, before).Some? then FaultsOf(Run(INITIAL, before).value, ms[|ms| - 1]) else {}
  }

  // ----- the marker has one owner -----

  /** No attempt outlives its marker. */
  predicate InTime(faults: set<Fault>) {
    MarkerOutlived !in faults
  }

  /** An attempt under way owns the marker. */
  predicate HoldsMarker(s: State, a: Attempt) {
    && s.marker == Some(Marker(Processing, a.arrivedAt + 300_000))
    && s.clock < a.arrivedAt + 300_000
  }

  predicate MarkerOwned(s: State) {
    && (forall id, other ::
          (id in s.attempts && other in s.attempts && Unsettled(s.attempts[id]) && Unsettled(s.attempts[other]))
          ==> id == other)
    && (forall id :: id in s.attempts ==> !s.attempts[id].pc.Arriving?)
    && (forall id :: id in s.attempts && Unsettled(s.attempts[id]) ==> HoldsMarker(s, s.attempts[id]))
  }

  /** Whoever acts unsettled is alone: any other unsettled attempt would hold the marker it found missing. */
  lemma OnlyOneUnsettled(s: State, id: nat, e: Event)
    requires MarkerOwned(s) && Step(s, Act(id, e)).Some?
    ensures var t := Step(s, Act(id, e)).value;
            forall other :: other in t.attempts && other != id && Unsettled(t.attempts[other]) ==>
              !Unsettled(t.attempts[id])
  {
    var t := Step(s, Act(id, e)).value;
    forall other | other in t.attempts && other != id && Unsettled(t.attempts[other])
      ensures !Unsettled(t.attempts[id])
    {
      assert other in s.attempts && HoldsMarker(s, s.attempts[other]);
    }
  }

  lemma UnsettledHoldMarker(s: State, id: nat, e: Event)
    requires MarkerOwned(s) && Step(s, Act(id, e)).Some?
    ensures var t := Step(s, Act(id, e)).value;
            forall other :: other in t.attempts && Unsettled(t.attempts[other]) ==> HoldsMarker(t, t.attempts[other])
  {
    var t := Step(s, Act(id, e)).value;
    OnlyOneUnsettled(s, id, e);
    assert id in s.attempts ==> Unsettled(s.attempts[id]) && HoldsMarker(s, s.attempts[id]);
    forall other | other in t.attempts && other != id && Unsettled(t.attempts[other])
      ensures HoldsMarker(t, t.attempts[other])
    {
      assert HoldsMarker(s, s.attempts[other]);
    }
  }

  lemma MarkerOwnedStep(s: State, m: Move)
    requires MarkerOwned(s) && Step(s, m).Some? && InTime(FaultsOf(s, m))
    ensures MarkerOwned(Step(s, m).value)
  {
    if m.Act? {
      OnlyOneUnsettled(s, m.id, m.event);
      UnsettledHoldMarker(s, m.id, m.event);
    }
  }

  lemma {:induction false} MarkersAreOwned(ms: seq<Move>)
    requires Run(INITIAL, ms).Some? && InTime(RunFaults(ms))
    ensures MarkerOwned(Run(INITIAL, ms).value)
    decreases |ms|
  {
    if ms != [] {
      MarkersAreOwned(ms[..|ms| - 1]);
      MarkerOwnedStep(Run(INITIAL, ms[..|ms| - 1]).value, ms[|ms| - 1]);
    }
  }

  /** Some attempt's step removes or replaces a `processed` that has not lapsed. */
  predicate TouchesProcessed(s: State, m: Move) {
    m.Act? && LiveMarker(s) == Some(Processed) && Step(s, m).Some? && Step(s, m).value.marker != s.marker
  }

  /** Nobody under way owns a `processed`, and whoever arrives while it lives is turned away. */
  lemma OwnedMarkerIsLeftAlone(s: State, m: Move)
    requires MarkerOwned(s)
    ensures !TouchesProcessed(s, m)
  {
    if m.Act? && m.id in s.attempts {
      assert Unsettled(s.attempts[m.id]) ==> HoldsMarker(s, s.attempts[m.id]);
    }
  }

  /** While nobody outlives its marker, a live `processed` is left alone, whatever else goes wrong. */
  lemma ProcessedIsLeftAlone(ms: seq<Move>, m: Move)
    requires Run(INITIAL, ms).Some? && InTime(RunFaults(ms))
    ensures !TouchesProcessed(Run(INITIAL, ms).value, m)
  {
    MarkersAreOwned(ms);
    OwnedMarkerIsLeftAlone(Run(INITIAL, ms).value, m);
  }

  // ----- at most one dispatch -----

  /** It dispatches only while nothing has been completed. */
  predicate Holds(s: State, a: Attempt) {
    && HoldsMarker(s, a)
    && (a.pc.Dispatching? ==> s.completed == 0)
    && (a.pc.Checkpointing? ==> s.completed == 1)
  }

  predicate Exclusive(s: State) {
    && MarkerOwned(s)
    && s.completed <= 1
    && (s.checkpoint.Some? ==> s.clock < s.checkpoint.value <= s.clock + 604_800_000)
    && (forall id :: id in s.attempts && Unsettled(s.attempts[id]) ==> Holds(s, s.attempts[id]))
    && (s.completed == 1 && s.checkpoint.None? ==>
         exists id :: id in s.attempts && s.attempts[id].pc.Checkpointing?)
  }

  lemma CompletedIsCheckpointed(s: State, id: nat, e: Event)
    requires Exclusive(s) && Step(s, Act(id, e)).Some? && FaultsOf(s, Act(id, e)) <= {ThrewLate}
    ensures var t := Step(s, Act(id, e)).value;
            t.completed == 1 && t.checkpoint.None? ==> exists h :: h in t.attempts && t.attempts[h].pc.Checkpointing?
  {
    var t := Step(s, Act(id, e)).value;
    if s.completed == 1 && s.checkpoint.None? {
      var holder :| holder in s.attempts && s.attempts[holder].pc.Checkpointing?;
      assert Unsettled(s.attempts[holder]) && Holds(s, s.attempts[holder]);
      assert holder != id ==> t.attempts[holder].pc.Checkpointing?;
    }
    assert e == Dispatched(Completed) ==> t.attempts[id].pc.Checkpointing?;
  }

  lemma UnsettledHold(s: State, id: nat, e: Event)
    requires Exclusive(s) && Step(s, Act(id, e)).Some?
    ensures var t := Step(s, Act(id, e)).value;
            forall other :: other in t.attempts && Unsettled(t.attempts[other]) ==> Holds(t, t.attempts[other])
  {
    var t := Step(s, Act(id, e)).value;
    OnlyOneUnsettled(s, id, e);
    UnsettledHoldMarker(s, id, e);
    assert id in s.attempts ==> Unsettled(s.attempts[id]) && Holds(s, s.attempts[id]);
    forall other | other in t.attempts && other != id && Unsettled(t.attempts[other])
      ensures Holds(t, t.attempts[other])
    {
      assert Holds(s, s.attempts[other]);
    }
  }

  lemma ExclusiveAct(s: State, id: nat, e: Event)
    requires Exclusive(s) && Step(s, Act(id, e)).Some? && FaultsOf(s, Act(id, e)) <= {ThrewLate}
    ensures Exclusive(Step(s, Act(id, e)).value)
  {
    MarkerOwnedStep(s, Act(id, e));
    UnsettledHold(s, id, e);
    CompletedIsCheckpointed(s, id, e);
    assert id in s.attempts ==> Unsettled(s.attempts[id]) && Holds(s, s.attempts[id]);
  }

  lemma ExclusiveAdvance(s: State, ms: nat)
    requires Exclusive(s) && FaultsOf(s, Advance(ms)) <= {ThrewLate}
    ensures Exclusive(Step(s, Advance(ms)).value)
  {
    var t := Step(s, Advance(ms)).value;
    assert MarkerOutlived !in FaultsOf(s, Advance(ms)) && CheckpointLapsed !in FaultsOf(s, Advance(ms));
    if s.completed == 1 && s.checkpoint.None? {
      var id :| id in s.attempts && s.attempts[id].pc.Checkpointing?;
      assert t.attempts[id].pc.Checkpointing?;
    }
  }

  lemma ExclusiveStep(s: State, m: Move)
    requires Exclusive(s) && Step(s, m).Some? && FaultsOf(s, m) <= {ThrewLate}
    ensures Exclusive(Step(s, m).value)
  {
    match m
    case Advance(ms) => ExclusiveAdvance(s, ms);
    case Act(id, e) => ExclusiveAct(s, id, e);
  }

  lemma {:induction false} RunsAreExclusive(ms: seq<Move>)
    requires Run(INITIAL, ms).Some? && RunFaults(ms) <= {ThrewLate}
    ensures Exclusive(Run(INITIAL, ms).value)
    decreases |ms|
  {
    if ms != [] {
      RunsAreExclusive(ms[..|ms| - 1]);
      ExclusiveStep(Run(INITIAL, ms[..|ms| - 1]).value, ms[|ms| - 1]);
    }
  }

  /** A delivery is dispatched to completion at most once, unless something goes wrong with a marker or a checkpoint. */
  lemma AtMostOneCompletedDispatch(ms: seq<Move>)
    requires Run(INITIAL, ms).Some? && RunFaults(ms) <= {ThrewLate}
    ensures Run(INITIAL, ms).value.completed <= 1
  {
    RunsAreExclusive(ms);
  }

  // ----- at most one session -----

  /** A session belongs to the completed dispatch, or to the one under way. */
  predicate SessionsOwned(s: State) {
    && s.sessions <= 1
    && (s.sessions == 1 && s.completed == 0 ==>
         exists id :: id in s.attempts && s.attempts[id].pc.Dispatching? && s.attempts[id].pc.started)
  }

  lemma SessionsOwnedStep(s: State, m: Move)
    requires Exclusive(s) && SessionsOwned(s) && Step(s, m).Some? && FaultsOf(s, m) == {}
    ensures SessionsOwned(Step(s, m).value)
  {
    var t := Step(s, m).value;
    if s.sessions == 1 && s.completed == 0 {
      var owner :| owner in s.attempts && s.attempts[owner].pc.Dispatching? && s.attempts[owner].pc.started;
      assert Unsettled(s.attempts[owner]) && Holds(s, s.attempts[owner]);
      if m.Act? && m.id in s.attempts { assert Unsettled(s.attempts[m.id]); }
      if t.completed == 0 { assert t.attempts[owner] == s.attempts[owner]; }
    } else if m.Act? && m.event.SessionCreated? {
      assert m.id in s.attempts && Unsettled(s.attempts[m.id]) && Holds(s, s.attempts[m.id]);
      assert t.attempts[m.id].pc.started;
    }
  }

  lemma {:induction false} SessionsAreOwned(ms: seq<Move>)
    requires Run(INITIAL, ms).Some? && RunFaults(ms) == {}
    ensures SessionsOwned(Run(INITIAL, ms).value)
    decreases |ms|
  {
    if ms != [] {
      var before := ms[..|ms| - 1];
      SessionsAreOwned(before);
      RunsAreExclusive(before);
      SessionsOwnedStep(Run(INITIAL, before).value, ms[|ms| - 1]);
    }
  }

  /** Over every run in which nothing goes wrong, a delivery starts at most one session. */
  lemma AtMostOneSession(ms: seq<Move>)
    requires Run(INITIAL, ms).Some? && RunFaults(ms) == {}
    ensures Run(INITIAL, ms).value.sessions <= 1
  {
    SessionsAreOwned(ms);
  }
}
