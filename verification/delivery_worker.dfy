/** The webhook's handler as it runs: each store and network answer is arbitrary. */
module DeliveryWorker {
  import opened Options
  import Automaton
  import opened DeliveryAttempt

  datatype Response = Ok200 | Unavailable503

  class Worker {
    /** The events of this worker's attempts so far. */
    var log: seq<Event>

    constructor ()
      ensures log == []
    {
      log := [];
    }

    method Do(e: Event)
      modifies this
      ensures log == old(log) + [e]
    {
      log := log + [e];
    }

    /** One step of an attempt at `pc`. */
    method Take(pc: Pc, e: Event, ghost es: seq<Event>) returns (ghost longer: seq<Event>)
      requires AttemptRun(pc, es).Some? && AttemptStep(AttemptRun(pc, es).value, e).Some?
      modifies this
      ensures longer == es + [e] && log == old(log) + [e]
      ensures AttemptRun(pc, longer) == AttemptStep(AttemptRun(pc, es).value, e)
    {
      Do(e);
      Automaton.RunThen(AttemptStep, pc, es, e);
      longer := es + [e];
    }

    /** A dispatch's end, with or without a session, and the checkpoint of what it completed. */
    method EndDispatch(queued: bool, started: bool) returns (failed: bool, ghost es: seq<Event>)
      modifies this
      ensures log == old(log) + es
      ensures AttemptRun(Dispatching(queued, started), es) == Some(Forwarding(queued, !failed))
    {
      var result: DispatchResult :| started ==> !result.NotCheckpointed?;
      es := Take(Dispatching(queued, started), Dispatched(result), []);
      if !result.Completed? { return result.Threw?, es; }
      var stored: bool :| true;
      var ok: bool :| ok ==> stored;
      es := Take(Dispatching(queued, started), CheckpointPut(ok, stored), es);
      failed := !ok;
    }

    /** One dispatch, which may create a session. */
    method Dispatch(queued: bool) returns (failed: bool, ghost es: seq<Event>)
      modifies this
      ensures log == old(log) + es
      ensures AttemptRun(Dispatching(queued, false), es) == Some(Forwarding(queued, !failed))
    {
      var started: bool :| true;
      if !started {
        failed, es := EndDispatch(queued, false);
        return;
      }
      es := Take(Dispatching(queued, false), SessionCreated, []);
      ghost var rest;
      failed, rest := EndDispatch(queued, true);
      Automaton.RunJoins(AttemptStep, Dispatching(queued, false), es, rest);
      es := es + rest;
    }

    /** Dispatch unless it was checkpointed. */
    method DispatchOnce(queued: bool) returns (failed: bool, ghost es: seq<Event>)
      modifies this
      ensures log == old(log) + es
      ensures AttemptRun(Reading(queued), es) == Some(Forwarding(queued, !failed))
    {
      var checkpoint: CheckpointRead :| true;
      es := Take(Reading(queued), CheckpointLookup(checkpoint), []);
      if !checkpoint.NotFound? { return checkpoint.ReadFailed?, es; }
      ghost var rest;
      failed, rest := Dispatch(queued);
      Automaton.RunJoins(AttemptStep, Reading(queued), es, rest);
      es := es + rest;
    }

    /** Forwards the event, whether or not it was dispatched; fails exactly when dispatch or forwarding did. */
    method HandleWebhook(queued: bool) returns (failed: bool, ghost es: seq<Event>)
      modifies this
      ensures log == old(log) + es
      ensures AttemptRun(Reading(queued), es) == Some(Settling(queued && !failed))
      ensures es != [] && es[|es| - 1].Forwarded?
      ensures exists dispatched ::
                && AttemptRun(Reading(queued), es[..|es| - 1]) == Some(Forwarding(queued, dispatched))
                && (failed <==> !dispatched || es[|es| - 1] == Forwarded(false))
    {
      var dispatchFailed;
      dispatchFailed, es := DispatchOnce(queued);
      ghost var dispatch := es;
      var forwarded: bool :| true;
      es := Take(Reading(queued), Forwarded(forwarded), es);
      assert es[..|es| - 1] == dispatch;
      failed := dispatchFailed || !forwarded;
    }

    /** Marks a clean delivery as processed; clears the marker of any other, so that it can be redelivered. */
    method Settle(clean: bool) returns (ghost es: seq<Event>)
      modifies this
      ensures log == old(log) + es
      ensures AttemptRun(Settling(clean), es) == Some(Done(clean))
    {
      var applied: bool :| true;
      var ok: bool :| ok ==> applied;
      es := Take(Settling(clean), if clean then ProcessedPut(ok, applied) else MarkerCleared(ok, applied), []);
    }

    /** What is left of a new delivery once its event is queued, or is not. */
    method Process(queued: bool) returns (ghost es: seq<Event>)
      modifies this
      ensures log == old(log) + es && Finishes(Reading(queued), es)
    {
      ghost var handled, settled;
      var failed;
      failed, handled := HandleWebhook(queued);
      settled := Settle(queued && !failed);
      Automaton.RunJoins(AttemptStep, Reading(queued), handled, settled);
      es := handled + settled;
    }

    /** A delivery that is not a duplicate. */
    method Accept() returns (response: Response, ghost es: seq<Event>)
      modifies this
      ensures log == old(log) + es && es != [] && es[0] == Enqueued(response == Ok200)
      ensures Finishes(Enqueueing, es)
    {
      var queued: bool :| true;
      es := Take(Enqueueing, Enqueued(queued), []);
      ghost var rest := Process(queued);
      Automaton.RunJoins(AttemptStep, Enqueueing, es, rest);
      es := es + rest;
      return if queued then Ok200 else Unavailable503, es;
    }

    /**
     * The response a delivery gets, and the steps its attempt takes, to its end. A duplicate of one still
     * being processed is refused, and of one that has been processed acknowledged.
     */
    method Webhook() returns (response: Response, ghost es: seq<Event>)
      modifies this
      ensures log == old(log) + es && Finishes(Arriving, es) && Attempted(es)
      ensures es[0] == MarkerRead(Some(Processing)) ==> |es| == 1 && response == Unavailable503
      ensures es[0] == MarkerRead(Some(Processed)) ==> |es| == 1 && response == Ok200
      ensures es[0] == MarkerRead(None) ==> es[1] == Enqueued(response == Ok200)
    {
      var existing: Option<Status> :| true;
      es := Take(Arriving, MarkerRead(existing), []);
      if existing.Some? {
        response := if existing.value.Processing? then Unavailable503 else Ok200;
      } else {
        ghost var rest;
        response, rest := Accept();
        Automaton.RunJoins(AttemptStep, Arriving, es, rest);
        es := es + rest;
      }
      AttemptsExactly(es);
    }
  }
}
