/** What each fault can do alone: a concrete run with that fault and no other. */
module DeliveryLimits {
  import opened Options
  import Automaton
  import opened DeliveryAttempt
  import opened Delivery

  /** A run that reaches `s` with exactly these faults. */
  predicate Reaches(ms: seq<Move>, s: State, faults: set<Fault>) {
    Run(INITIAL, ms) == Some(s) && RunFaults(ms) == faults
  }

  /** One more move. */
  lemma Then(ms: seq<Move>, s: State, faults: set<Fault>, m: Move) returns (longer: seq<Move>, t: State)
    requires Reaches(ms, s, faults) && Step(s, m).Some?
    ensures longer == ms + [m] && t == Step(s, m).value && Reaches(longer, t, faults + FaultsOf(s, m))
  {
    longer := ms + [m];
    Automaton.RunThen(Step, INITIAL, ms, m);
    assert longer[..|ms|] == ms;
    t := Step(s, m).value;
  }

  /** One move in which nothing goes wrong. */
  lemma ThenFaultless(ms: seq<Move>, s: State, faults: set<Fault>, m: Move) returns (longer: seq<Move>, t: State)
    requires Reaches(ms, s, faults) && Step(s, m).Some? && FaultsOf(s, m) == {}
    ensures longer == ms + [m] && t == Step(s, m).value && Reaches(longer, t, faults)
  {
    longer, t := Then(ms, s, faults, m);
    assert faults + {} == faults;
  }

  function AtPc(s: State, id: nat, pc: Pc, arrivedAt: int): State {
    s.(attempts := s.attempts[id := Attempt(pc, arrivedAt)])
  }

  lemma AtPcTwice(s: State, id: nat, first: Pc, second: Pc, arrivedAt: int)
    ensures AtPc(AtPc(s, id, first, arrivedAt), id, second, arrivedAt) == AtPc(s, id, second, arrivedAt)
  {
    assert AtPc(AtPc(s, id, first, arrivedAt), id, second, arrivedAt).attempts
        == AtPc(s, id, second, arrivedAt).attempts;
  }

  /** One step of an attempt that leaves the store as it was. */
  lemma Moves(ms: seq<Move>, s: State, faults: set<Fault>, id: nat, from: Pc, arrivedAt: int, e: Event, to: Pc)
    returns (longer: seq<Move>, t: State)
    requires Reaches(ms, AtPc(s, id, from, arrivedAt), faults)
    requires AttemptStep(from, e) == Some(to) && Truthful(AtPc(s, id, from, arrivedAt), e)
    requires e.Enqueued? || e.CheckpointLookup? || e.Forwarded? || e == Dispatched(NotCheckpointed)
             || (e == Dispatched(Threw) && !from.started)
    ensures t == AtPc(s, id, to, arrivedAt) && Reaches(longer, t, faults)
  {
    longer, t := ThenFaultless(ms, AtPc(s, id, from, arrivedAt), faults, Act(id, e));
    AtPcTwice(s, id, from, to, arrivedAt);
  }

  /** An attempt that arrives when nothing is stored, and goes on to dispatch. */
  lemma ArrivesAndLooksUp(ms: seq<Move>, s: State, faults: set<Fault>, id: nat) returns (longer: seq<Move>, t: State)
    requires Reaches(ms, s, faults) && id !in s.attempts && LiveMarker(s).None? && !LiveCheckpoint(s)
    ensures Reaches(longer, t, faults)
    ensures t == AtPc(s.(marker := Some(Marker(Processing, s.clock + DELIVERY_PROCESSING_TTL_MS))),
                      id, Dispatching(true, false), s.clock)
  {
    var claimed := s.(marker := Some(Marker(Processing, s.clock + DELIVERY_PROCESSING_TTL_MS)));
    longer, t := ThenFaultless(ms, s, faults, Act(id, MarkerRead(None)));
    assert t == AtPc(claimed, id, Enqueueing, s.clock);
    longer, t := Moves(longer, claimed, faults, id, Enqueueing, s.clock, Enqueued(true), Reading(true));
    longer, t := Moves(longer, claimed, faults, id, Reading(true), s.clock, CheckpointLookup(NotFound),
                       Dispatching(true, false));
  }

  /** And creates a session. */
  lemma StartsSession(ms: seq<Move>, s: State, faults: set<Fault>, id: nat) returns (longer: seq<Move>, t: State)
    requires Reaches(ms, s, faults) && id !in s.attempts && LiveMarker(s).None? && !LiveCheckpoint(s)
    ensures Reaches(longer, t, faults)
    ensures t == AtPc(s.(marker := Some(Marker(Processing, s.clock + DELIVERY_PROCESSING_TTL_MS)),
                         sessions := s.sessions + 1),
                      id, Dispatching(true, true), s.clock)
  {
    longer, t := ArrivesAndLooksUp(ms, s, faults, id);
    longer, t := ThenFaultless(longer, t, faults, Act(id, SessionCreated));
    AtPcTwice(s, id, Dispatching(true, false), Dispatching(true, true), s.clock);
  }

  /** A dispatch under way is completed. */
  lemma Completes(ms: seq<Move>, s: State, faults: set<Fault>, id: nat, started: bool, arrivedAt: int)
    returns (longer: seq<Move>, t: State)
    requires Reaches(ms, s, faults) && id in s.attempts
    requires s.attempts[id] == Attempt(Dispatching(true, started), arrivedAt)
    ensures Reaches(longer, t, faults)
    ensures t == AtPc(s.(completed := s.completed + 1), id, Checkpointing(true), arrivedAt)
  {
    longer, t := ThenFaultless(ms, s, faults, Act(id, Dispatched(Completed)));
  }

  /** After a failure, the attempt forwards and clears its marker. */
  lemma FailsAndClears(ms: seq<Move>, s: State, faults: set<Fault>, id: nat, arrivedAt: int)
    returns (longer: seq<Move>, t: State)
    requires Reaches(ms, AtPc(s, id, Forwarding(true, false), arrivedAt), faults)
    ensures Reaches(longer, t, faults)
    ensures t == AtPc(s.(marker := None), id, Done(false), arrivedAt)
  {
    longer, t := Moves(ms, s, faults, id, Forwarding(true, false), arrivedAt, Forwarded(true), Settling(false));
    longer, t := ThenFaultless(longer, t, faults, Act(id, MarkerCleared(true, true)));
    AtPcTwice(s, id, Settling(false), Done(false), arrivedAt);
  }

  lemma PutsProcessed(ms: seq<Move>, s: State, faults: set<Fault>, id: nat, arrivedAt: int)
    returns (longer: seq<Move>, t: State)
    requires Reaches(ms, AtPc(s, id, Settling(true), arrivedAt), faults)
    ensures Reaches(longer, t, faults)
    ensures t == AtPc(s.(marker := Some(Marker(Processed, s.clock + DELIVERY_DEDUPE_TTL_MS))),
                      id, Done(true), arrivedAt)
  {
    var settling := AtPc(s, id, Settling(true), arrivedAt);
    assert Step(settling, Act(id, ProcessedPut(true, true))).Some?;
    longer, t := ThenFaultless(ms, settling, faults, Act(id, ProcessedPut(true, true)));
    AtPcTwice(s, id, Settling(true), Done(true), arrivedAt);
  }

  /** After a success, the attempt forwards and marks the delivery processed. */
  lemma IsProcessed(ms: seq<Move>, s: State, faults: set<Fault>, id: nat, arrivedAt: int)
    returns (longer: seq<Move>, t: State)
    requires Reaches(ms, AtPc(s, id, Forwarding(true, true), arrivedAt), faults)
    ensures Reaches(longer, t, faults)
    ensures t == AtPc(s.(marker := Some(Marker(Processed, s.clock + DELIVERY_DEDUPE_TTL_MS))),
                      id, Done(true), arrivedAt)
  {
    longer, t := Moves(ms, s, faults, id, Forwarding(true, true), arrivedAt, Forwarded(true), Settling(true));
    longer, t := PutsProcessed(longer, s, faults, id, arrivedAt);
  }

  // ----- one fault each -----

  /** A dispatch that takes as long as the marker lives is dispatched again by a redelivery. */
  lemma DispatchOutlivesMarker() returns (ms: seq<Move>)
    ensures Run(INITIAL, ms).Some? && RunFaults(ms) == {MarkerOutlived}
    ensures Run(INITIAL, ms).value.completed == 2 && Run(INITIAL, ms).value.sessions == 2
  {
    var s;
    ms, s := StartsSession([], INITIAL, {}, 0);
    assert 0 in s.attempts && Unsettled(s.attempts[0]);
    ms, s := Then(ms, s, {}, Advance(DELIVERY_PROCESSING_TTL_MS));
    ms, s := StartsSession(ms, s, {MarkerOutlived}, 1);
    ms, s := Completes(ms, s, {MarkerOutlived}, 0, true, 0);
    ms, s := Completes(ms, s, {MarkerOutlived}, 1, true, DELIVERY_PROCESSING_TTL_MS);
  }

  /** A completed dispatch whose checkpoint could not be stored is dispatched again by a redelivery. */
  lemma CheckpointNotStored() returns (ms: seq<Move>)
    ensures Run(INITIAL, ms).Some? && RunFaults(ms) == {CheckpointLost}
    ensures Run(INITIAL, ms).value.completed == 2 && Run(INITIAL, ms).value.sessions == 2
  {
    var s;
    ms, s := StartsSession([], INITIAL, {}, 0);
    ms, s := Completes(ms, s, {}, 0, true, 0);
    ms, s := Then(ms, s, {}, Act(0, CheckpointPut(false, false)));
    assert AtPc(s, 0, Forwarding(true, false), 0) == s;
    ms, s := FailsAndClears(ms, s, {CheckpointLost}, 0, 0);
    ms, s := StartsSession(ms, s, {CheckpointLost}, 1);
    ms, s := Completes(ms, s, {CheckpointLost}, 1, true, 0);
  }

  /** A redelivery after the checkpoint has lapsed is dispatched again. */
  lemma RedeliveredLate() returns (ms: seq<Move>)
    ensures Run(INITIAL, ms).Some? && RunFaults(ms) == {CheckpointLapsed}
    ensures Run(INITIAL, ms).value.completed == 2 && Run(INITIAL, ms).value.sessions == 2
  {
    var s;
    ms, s := StartsSession([], INITIAL, {}, 0);
    ms, s := Completes(ms, s, {}, 0, true, 0);
    ms, s := ThenFaultless(ms, s, {}, Act(0, CheckpointPut(true, true)));
    assert AtPc(s, 0, Forwarding(true, true), 0) == s;
    ms, s := IsProcessed(ms, s, {}, 0, 0);
    ms, s := Then(ms, s, {}, Advance(DELIVERY_DEDUPE_TTL_MS));
    ms, s := StartsSession(ms, s, {CheckpointLapsed}, 1);
    ms, s := Completes(ms, s, {CheckpointLapsed}, 1, true, DELIVERY_DEDUPE_TTL_MS);
  }

  /**
   * A dispatch that created a session and then threw is dispatched again: a second session, though nothing
   * lapsed or was lost.
   */
  lemma PromptFailsAfterSession() returns (ms: seq<Move>)
    ensures Run(INITIAL, ms).Some? && RunFaults(ms) == {ThrewLate} && Run(INITIAL, ms).value.sessions == 2
  {
    var s;
    ms, s := StartsSession([], INITIAL, {}, 0);
    ms, s := Then(ms, s, {}, Act(0, Dispatched(Threw)));
    assert AtPc(s, 0, Forwarding(true, false), 0) == s;
    ms, s := FailsAndClears(ms, s, {ThrewLate}, 0, 0);
    ms, s := StartsSession(ms, s, {ThrewLate}, 1);
  }

  /** A delivery can start a second session exactly when something may go wrong, whatever it is. */
  lemma SecondSessionIffFault(faults: set<Fault>)
    ensures (exists ms :: Run(INITIAL, ms).Some? && RunFaults(ms) <= faults && Run(INITIAL, ms).value.sessions >= 2)
            <==> faults != {}
  {
    if faults != {} {
      var fault :| fault in faults;
      var ms;
      match fault {
        case MarkerOutlived => ms := DispatchOutlivesMarker();
        case CheckpointLost => ms := CheckpointNotStored();
        case CheckpointLapsed => ms := RedeliveredLate();
        case ThrewLate => ms := PromptFailsAfterSession();
      }
    } else {
      forall ms | Run(INITIAL, ms).Some? && RunFaults(ms) <= faults ensures Run(INITIAL, ms).value.sessions < 2 {
        AtMostOneSession(ms);
      }
    }
  }

  /** It can be dispatched to completion twice exactly when a marker or a checkpoint may fail it. */
  lemma SecondCompletionIffStoreFault(faults: set<Fault>)
    ensures (exists ms :: Run(INITIAL, ms).Some? && RunFaults(ms) <= faults && Run(INITIAL, ms).value.completed >= 2)
            <==> !(faults <= {ThrewLate})
  {
    if fault :| fault in faults && fault != ThrewLate {
      var ms;
      match fault {
        case MarkerOutlived => ms := DispatchOutlivesMarker();
        case CheckpointLost => ms := CheckpointNotStored();
        case CheckpointLapsed => ms := RedeliveredLate();
      }
    } else {
      forall ms | Run(INITIAL, ms).Some? && RunFaults(ms) <= faults ensures Run(INITIAL, ms).value.completed < 2 {
        AtMostOneCompletedDispatch(ms);
      }
    }
  }

  /** An attempt whose marker has lapsed is still dispatching while a redelivery is processed. */
  lemma ProcessedMeanwhile() returns (ms: seq<Move>, s: State)
    ensures Reaches(ms, s, {MarkerOutlived})
    ensures s.clock == DELIVERY_PROCESSING_TTL_MS && LiveMarker(s) == Some(Processed)
    ensures s.attempts == map[0 := Attempt(Dispatching(true, false), 0),
                              1 := Attempt(Done(true), DELIVERY_PROCESSING_TTL_MS)]
  {
    ms, s := ArrivesAndLooksUp([], INITIAL, {}, 0);
    assert 0 in s.attempts && Unsettled(s.attempts[0]);
    ms, s := Then(ms, s, {}, Advance(DELIVERY_PROCESSING_TTL_MS));
    ms, s := ArrivesAndLooksUp(ms, s, {MarkerOutlived}, 1);
    var second := s;
    assert AtPc(second, 1, Dispatching(true, false), DELIVERY_PROCESSING_TTL_MS) == second;
    ms, s := Moves(ms, second, {MarkerOutlived}, 1, Dispatching(true, false), DELIVERY_PROCESSING_TTL_MS,
                   Dispatched(NotCheckpointed), Forwarding(true, true));
    ms, s := IsProcessed(ms, second, {MarkerOutlived}, 1, DELIVERY_PROCESSING_TTL_MS);
  }

  /** It then fails, and is about to clear a marker. */
  lemma FailsLate() returns (ms: seq<Move>, s: State)
    ensures Reaches(ms, s, {MarkerOutlived})
    ensures s.clock == DELIVERY_PROCESSING_TTL_MS && LiveMarker(s) == Some(Processed)
    ensures s.attempts == map[0 := Attempt(Settling(false), 0),
                              1 := Attempt(Done(true), DELIVERY_PROCESSING_TTL_MS)]
  {
    ms, s := ProcessedMeanwhile();
    var processed := s;
    assert AtPc(processed, 0, Dispatching(true, false), 0) == processed;
    ms, s := Moves(ms, processed, {MarkerOutlived}, 0, Dispatching(true, false), 0, Dispatched(Threw),
                   Forwarding(true, false));
    ms, s := Moves(ms, processed, {MarkerOutlived}, 0, Forwarding(true, false), 0, Forwarded(true), Settling(false));
  }

  /** The move takes away the live `processed` of an attempt that succeeded, by one whose own marker has lapsed. */
  predicate LateClear(s: State, id: nat) {
    && LiveMarker(s) == Some(Processed) && SomeClean(s)
    && id in s.attempts && s.clock >= s.attempts[id].arrivedAt + 300_000
    && s.attempts[id].pc == Settling(false)
    && Step(s, Act(id, MarkerCleared(true, true))).Some?
    && Step(s, Act(id, MarkerCleared(true, true))).value.marker.None?
  }

  /** A failed attempt that outlived its marker removes the live `processed` of the attempt that succeeded. */
  lemma LateClearRemovesProcessed() returns (ms: seq<Move>, s: State, id: nat)
    ensures Reaches(ms, s, {MarkerOutlived}) && LateClear(s, id)
    ensures RunFaults(ms + [Act(id, MarkerCleared(true, true))]) == {MarkerOutlived}
  {
    id := 0;
    ms, s := FailsLate();
    assert s.attempts[1].pc == Done(true);
    var longer, t := ThenFaultless(ms, s, {MarkerOutlived}, Act(0, MarkerCleared(true, true)));
  }

  /**
   * With a given set of faults allowed, some run has a live `processed` removed, or touched at all, exactly
   * when an attempt may outlive its marker.
   */
  lemma ProcessedLostIffMarkerOutlived(faults: set<Fault>)
    ensures (exists ms, id :: Run(INITIAL, ms).Some? && RunFaults(ms) <= faults
                            && LateClear(Run(INITIAL, ms).value, id))
            <==> MarkerOutlived in faults
    ensures (exists ms, m :: Run(INITIAL, ms).Some? && RunFaults(ms) <= faults
                           && TouchesProcessed(Run(INITIAL, ms).value, m))
            <==> MarkerOutlived in faults
  {
    if MarkerOutlived in faults {
      var ms, s, id := LateClearRemovesProcessed();
      assert LateClear(Run(INITIAL, ms).value, id);
      assert TouchesProcessed(Run(INITIAL, ms).value, Act(id, MarkerCleared(true, true)));
    } else {
      forall ms, m | Run(INITIAL, ms).Some? && RunFaults(ms) <= faults
        ensures !TouchesProcessed(Run(INITIAL, ms).value, m)
      {
        ProcessedIsLeftAlone(ms, m);
      }
      forall ms, id | Run(INITIAL, ms).Some? && RunFaults(ms) <= faults ensures !LateClear(Run(INITIAL, ms).value, id) {
        ProcessedIsLeftAlone(ms, Act(id, MarkerCleared(true, true)));
      }
    }
  }
}
