/** Every generation a handler obtains has exactly one fate, whatever the answers it got. */
module ReviewFates {
  import opened Options
  import opened ReviewLease
  import opened ReviewEffects

  /** A session that answers a mention: it has no fence, and no review of its own. */
  predicate PlainTrace(es: seq<Effect>, r: HandlerResult) {
    && es != [] && es[0] == Elsewhere
    && (forall e :: e in es ==>
          e.Elsewhere? || e.RefusalCommented? || e.PromptSent? || (e.SessionAsked? && e.fence.None?))
    && r in {Processed, Skipped(CommentedRefusal), Failed}
  }

  /** The whole handler: the stand-down's effects, then settings lookups, then the review's. */
  predicate SessionTrace(es: seq<Effect>, review: Option<ReviewRequest>, standDown: seq<Effect>, start: seq<Effect>,
                         r: HandlerResult) {
    if es == [] then r in {Skipped(Preflight), Failed}
    else match review
      case None => PlainTrace(es, r)
      case Some(q) =>
        if StandDownIfApprovedTrace(standDown, q, Some(r)) then es == standDown
        else StandDownIfApprovedTrace(standDown, q, None)
             && if start == [] then es == standDown + [Elsewhere] && r in {Skipped(CommentedRefusal), Failed}
                else es == standDown + [Elsewhere] + start && ReviewTrace(start, q, r)
  }

  lemma SkipTraceFate(before: seq<(nat, Fate)>, es: seq<Effect>, g: nat, stood: bool)
    requires SkipTrace(es, g, stood)
    ensures LedgerRun(Ledger(before, Some(g)), es)
              == Some(Ledger(before + [(g, if stood then SkipEstablished else RolledBack)], None))
  {
    var open := Ledger(before, Some(g));
    var done := Ledger(before + [(g, if stood then SkipEstablished else RolledBack)], None);
    assert es == [es[0]] + es[1..];
    LedgerTakes(open, es[0], es[1..]);
    var last := es[|es| - 1];
    LedgerTakes(open, last, []);
    assert [last] + [] == [last];
    if |es| == 3 {
      assert es[1..] == [es[1]] + [last];
      LedgerTakes(open, es[1], [last]);
    } else {
      assert es[1..] == [last];
    }
  }

  /** A stand-down obtains at most one generation: held when it stood down, handed back when it did not. */
  lemma StandDownFate(es: seq<Effect>, headSha: string, r: StandDown) returns (fates: seq<(nat, Fate)>)
    requires StandDownTrace(es, headSha, r)
    ensures Fated(es, fates) && |fates| <= 1
    ensures r.StoodDown? ==> |fates| == 1 && fates[0].1 == SkipEstablished
    ensures r.Review? && fates != [] ==> fates[0].1 == RolledBack
    ensures r.Stale? ==> fates == []
  {
    fates := [];
    if |es| >= 2 && es[1].obtained.Some? {
      var g := es[1].obtained.value;
      fates := [(g, if r.StoodDown? then SkipEstablished else RolledBack)];
    }
    forall before: seq<(nat, Fate)> ensures LedgerRun(Ledger(before, None), es) == Some(Ledger(before + fates, None)) {
      var l := Ledger(before, None);
      assert es == [es[0]] + es[1..];
      LedgerTakes(l, es[0], es[1..]);
      if |es| >= 2 {
        assert es[1..] == [es[1]] + es[2..];
        LedgerTakes(l, es[1], es[2..]);
        if es[1].obtained.Some? { SkipTraceFate(before, es[2..], es[1].obtained.value, r.StoodDown?); }
      }
      assert before + [] == before;
    }
  }

  lemma PromptSettlesNothing(l: Ledger, es: seq<Effect>, r: HandlerResult)
    requires PromptTrace(es, r)
    ensures LedgerRun(l, es) == Some(l)
  {
    assert es == [es[0]] + es[1..];
    LedgerTakes(l, es[0], es[1..]);
    if |es| == 2 {
      assert es[1..] == [es[1]] + [];
      LedgerTakes(l, es[1], []);
    }
  }

  /** The fate of a generation a session was asked for under. */
  function FateOf(c: Creation): Fate {
    if c.Created? then SessionStarted else if SupersededCreation(c) then SupersededByNewer else RolledBack
  }

  lemma AfterCreationFate(before: seq<(nat, Fate)>, es: seq<Effect>, g: nat, c: Creation, r: HandlerResult)
    requires AfterCreation(es, g, c, r)
    ensures LedgerRun(Ledger(before, Some(g)), [SessionAsked(Some(g), c)] + es)
            == Some(Ledger(before + [(g, FateOf(c))], None))
  {
    var open := Ledger(before, Some(g));
    LedgerTakes(open, SessionAsked(Some(g), c), es);
    if c.Created? {
      var l := Ledger(before + [(g, SessionStarted)], None);
      assert es == [es[0]] + ([es[1]] + es[2..]);
      LedgerTakes(l, es[0], [es[1]] + es[2..]);
      LedgerTakes(l, es[1], es[2..]);
      PromptSettlesNothing(l, es[2..], r);
    } else if !SupersededCreation(c) {
      var l := Ledger(before + [(g, RolledBack)], None);
      assert es == [es[0]] + es[1..];
      LedgerTakes(open, es[0], es[1..]);
      if Explained(c) {
        assert es[1..] == [es[1]] + [];
        LedgerTakes(l, es[1], []);
      }
    }
  }

  /** A review obtains at most one generation, and its result tells its fate. */
  lemma ReviewFate(es: seq<Effect>, review: ReviewRequest, r: HandlerResult) returns (fates: seq<(nat, Fate)>)
    requires ReviewTrace(es, review, r)
    ensures Fated(es, fates) && |fates| <= 1
    ensures r == Processed ==> |fates| == 1 && fates[0].1 == SessionStarted
    ensures r == Skipped(SupersededReview) <==> |fates| == 1 && fates[0].1 == SupersededByNewer
    ensures |fates| == 1 ==> fates[0].1 != SkipEstablished
  {
    fates := [];
    if |es| >= 3 {
      var c := es[2].creation;
      fates := [(es[1].obtained.value,
                 FateOf(c))];
    }
    forall before: seq<(nat, Fate)> ensures LedgerRun(Ledger(before, None), es) == Some(Ledger(before + fates, None)) {
      var l := Ledger(before, None);
      assert es == [es[0]] + es[1..];
      LedgerTakes(l, es[0], es[1..]);
      if |es| >= 2 {
        assert es[1..] == [es[1]] + es[2..];
        LedgerTakes(l, es[1], es[2..]);
        if |es| >= 3 {
          assert es[2..] == [es[2]] + es[3..];
          AfterCreationFate(before, es[3..], es[1].obtained.value, es[2].creation, r);
        }
      }
      assert before + [] == before;
    }
  }

  predicate SettlesNothing(e: Effect) {
    e.Elsewhere? || e.RefusalCommented? || e.PromptSent? || e.ApprovalRead? || (e.SessionAsked? && e.fence.None?)
  }

  lemma {:induction false} UnfencedRun(before: seq<(nat, Fate)>, es: seq<Effect>)
    requires forall e :: e in es ==> SettlesNothing(e)
    ensures LedgerRun(Ledger(before, None), es) == Some(Ledger(before, None))
    decreases |es|
  {
    if es != [] {
      assert es[0] in es;
      UnfencedRun(before, es[1..]);
    }
  }

  /** Effects that neither claim, release, sweep nor create under a fence settle nothing. */
  lemma {:induction false} UnfencedFates(es: seq<Effect>)
    requires forall e :: e in es ==> SettlesNothing(e)
    ensures Fated(es, [])
  {
    forall before: seq<(nat, Fate)> ensures LedgerRun(Ledger(before, None), es) == Some(Ledger(before + [], None)) {
      UnfencedRun(before, es);
      assert before + [] == before;
    }
  }

  lemma StandDownIfApprovedFate(es: seq<Effect>, q: ReviewRequest, skip: Option<HandlerResult>)
    returns (fates: seq<(nat, Fate)>)
    requires StandDownIfApprovedTrace(es, q, skip)
    ensures Fated(es, fates) && |fates| <= 1
    ensures skip == Some(Skipped(PrApproved)) <==> |fates| == 1 && fates[0].1 == SkipEstablished
    ensures skip.None? && fates != [] ==> fates[0].1 == RolledBack
  {
    if |es| <= 1 && skip.None? && (es == [] || !es[0].approval.Approved?) {
      fates := [];
      UnfencedFates(es);
    } else {
      var r :| StandDownTrace(es[1..], q.headSha, r) && skip == SkipOf(r);
      var rest := StandDownFate(es[1..], q.headSha, r);
      UnfencedFates([es[0]]);
      FatedJoins([es[0]], es[1..], [], rest);
      assert [es[0]] + es[1..] == es && [] + rest == rest;
      fates := rest;
    }
  }

  /**
   * Every generation a handler obtains has exactly one fate: a session started under it, an
   * established skip, a newer trigger's claim, or one release request. It obtains two only when a
   * stand-down fell back to a review, and then the first was handed back before the second claim.
   */
  lemma EveryGenerationHasOneFate(es: seq<Effect>, review: Option<ReviewRequest>, standDown: seq<Effect>,
                                  start: seq<Effect>, r: HandlerResult) returns (fates: seq<(nat, Fate)>)
    requires SessionTrace(es, review, standDown, start, r)
    ensures Fated(es, fates)
    ensures |fates| <= 2 && (|fates| == 2 ==> fates[0].1 == RolledBack)
    ensures review.None? ==> fates == []
    ensures r == Processed && review.Some? ==> fates != [] && fates[|fates| - 1].1 == SessionStarted
    ensures r == Skipped(PrApproved) ==> |fates| == 1 && fates[0].1 == SkipEstablished
    ensures r == Skipped(SupersededReview) ==> fates != [] && fates[|fates| - 1].1 == SupersededByNewer
  {
    if es == [] || review.None? {
      UnfencedFates(es);
      return [];
    }
    var q := review.value;
    if StandDownIfApprovedTrace(standDown, q, Some(r)) {
      fates := StandDownIfApprovedFate(standDown, q, Some(r));
      return;
    }
    var first := StandDownIfApprovedFate(standDown, q, None);
    UnfencedFates([Elsewhere]);
    FatedJoins(standDown, [Elsewhere], first, []);
    assert first + [] == first;
    if start == [] { return first; }
    var second := ReviewFate(start, q, r);
    FatedJoins(standDown + [Elsewhere], start, first, second);
    fates := first + second;
  }

  // ----- counting -----

  function Obtained(es: seq<Effect>): nat {
    if es == [] then 0 else (if es[0].Claimed? && es[0].obtained.Some? then 1 else 0) + Obtained(es[1..])
  }

  function Releases(es: seq<Effect>): nat {
    if es == [] then 0 else (if es[0].ReleaseRequested? then 1 else 0) + Releases(es[1..])
  }

  function Started(es: seq<Effect>): nat {
    if es == [] then 0
    else (if es[0].SessionAsked? && es[0].fence.Some? && es[0].creation.Created? then 1 else 0) + Started(es[1..])
  }

  function Refused(es: seq<Effect>): nat {
    if es == [] then 0
    else (if es[0].SessionAsked? && es[0].fence.Some? && SupersededCreation(es[0].creation) then 1 else 0)
         + Refused(es[1..])
  }

  function Count(fates: seq<(nat, Fate)>, fate: Fate): nat {
    if fates == [] then 0 else Count(fates[..|fates| - 1], fate) + if fates[|fates| - 1].1 == fate then 1 else 0
  }

  /** The ledger's entries are the log's effects: none is counted twice and none is missing. */
  lemma {:induction false} LedgerCounts(l: Ledger, es: seq<Effect>)
    requires LedgerRun(l, es).Some?
    ensures var t := LedgerRun(l, es).value;
            && Obtained(es) == |t.fates| + (if t.open.Some? then 1 else 0) - |l.fates| - (if l.open.Some? then 1 else 0)
            && Releases(es) == Count(t.fates, RolledBack) - Count(l.fates, RolledBack)
            && Started(es) == Count(t.fates, SessionStarted) - Count(l.fates, SessionStarted)
            && Refused(es) == Count(t.fates, SupersededByNewer) - Count(l.fates, SupersededByNewer)
    decreases |es|
  {
    if es != [] {
      var next := LedgerStep(l, es[0]).value;
      assert |next.fates| == |l.fates| + 1 ==> next.fates[..|l.fates|] == l.fates;
      LedgerCounts(next, es[1..]);
    }
  }

  lemma {:induction false} FatesAddUp(fates: seq<(nat, Fate)>)
    ensures |fates| == Count(fates, SessionStarted) + Count(fates, SkipEstablished)
                       + Count(fates, SupersededByNewer) + Count(fates, RolledBack)
    decreases |fates|
  {
    if fates != [] { FatesAddUp(fates[..|fates| - 1]); }
  }

  /** The claims answered equal the sessions started, skips held, claims lost and releases asked for. */
  lemma GenerationsAddUp(es: seq<Effect>, fates: seq<(nat, Fate)>)
    requires Fated(es, fates)
    ensures Obtained(es) == Started(es) + Count(fates, SkipEstablished) + Refused(es) + Releases(es)
  {
    assert LedgerRun(Ledger([], None), es) == Some(Ledger([] + fates, None));
    assert [] + fates == fates;
    LedgerCounts(Ledger([], None), es);
    FatesAddUp(fates);
  }
}
