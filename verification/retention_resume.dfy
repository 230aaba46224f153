/**
 * What a retention plan promises: a partly executed plan is resumed exactly, protected references and
 * the newest ready snapshots survive, and a stricter policy or an earlier time deletes no more.
 */
module RetentionResume {
  import opened Options
  import opened StableSort
  import opened Retention

  // ----- the inventory without some artifacts -----

  function Remains(gone: set<Reference>): Snapshot -> bool {
    (s: Snapshot) => Ref(s) !in gone
  }

  function Without(inventory: seq<Snapshot>, gone: set<Reference>): seq<Snapshot> {
    Filter(inventory, Remains(gone))
  }

  function NotIn(gone: set<Reference>): Reference -> bool {
    (r: Reference) => r !in gone
  }

  // ----- pieces -----

  lemma {:induction false} FilterKeepsValidIds(s: seq<Snapshot>, p: Snapshot -> bool)
    requires ValidIds(s)
    ensures ValidIds(Filter(s, p))
  {
    if s != [] {
      FilterKeepsValidIds(s[1..], p);
      FilterContents(s[1..], p);
      forall x | x in Filter(s[1..], p) ensures x.id != s[0].id {}
    }
  }

  lemma {:induction false} TakeFilter<T(!new)>(s: seq<T>, p: T -> bool, n: nat)
    requires forall x :: x in Take(s, n) ==> p(x)
    ensures Take(Filter(s, p), n) == Take(s, n)
  {
    if s != [] && n > 0 {
      assert s[0] in Take(s, n);
      assert Take(s, n) == [s[0]] + Take(s[1..], n - 1);
      TakeFilter(s[1..], p, n - 1);
      assert Take(Filter(s, p), n) == [s[0]] + Take(Filter(s[1..], p), n - 1);
    }
  }

  lemma {:induction false} RefsFilter(s: seq<Snapshot>, gone: set<Reference>)
    ensures Refs(Filter(s, Remains(gone))) == Filter(Refs(s), NotIn(gone))
    decreases |s|
  {
    if s != [] {
      var n := |s| - 1;
      RefsFilter(s[..n], gone);
      assert s == s[..n] + [s[n]];
      FilterJoins(s[..n], [s[n]], Remains(gone));
      FilterJoins(Refs(s[..n]), [Ref(s[n])], NotIn(gone));
      FilterCons(s[n], [], Remains(gone));
      FilterCons(Ref(s[n]), [], NotIn(gone));
      var kept := Filter(s[..n], Remains(gone));
      assert [s[n]] + [] == [s[n]] && [Ref(s[n])] + [] == [Ref(s[n])] && kept + [] == kept;
      assert (kept + [s[n]])[..|kept|] == kept;
    }
  }

  lemma RankIsPreorder(idLe: (string, string) -> bool)
    requires TotalPreorder(idLe)
    ensures TotalPreorder(RankLe(idLe))
  {
    var le := RankLe(idLe);
    forall a, b ensures le(a, b) || le(b, a) { assert idLe(a.id, b.id) || idLe(b.id, a.id); }
    forall a, b, c | le(a, b) && le(b, c) ensures le(a, c) {
      assert idLe(a.id, b.id) && idLe(b.id, c.id) ==> idLe(a.id, c.id);
    }
  }

  /** A doomed snapshot is neither protected nor among the newest, by its reference alone. */
  lemma DoomedReference(managed: seq<Snapshot>, policy: Policy, newest: set<string>, nowMs: int, r: Reference)
    returns (s: Snapshot)
    requires r in DeleteList(managed, policy, newest, nowMs)
    ensures s in managed && Ref(s) == r && Reason(s, policy, newest, nowMs).None?
    ensures r.id !in policy.protectedReferences && r.name !in policy.protectedReferences && r.id !in newest
  {
    var doomed := Filter(managed, IsDoomed(policy, newest, nowMs));
    FilterContents(managed, IsDoomed(policy, newest, nowMs));
    var k :| 0 <= k < |doomed| && Refs(doomed)[k] == r;
    s := doomed[k];
    assert s in doomed;
  }

  lemma SameIdSameSnapshot(managed: seq<Snapshot>, s: Snapshot, t: Snapshot)
    requires ValidIds(managed) && s in managed && t in managed && s.id == t.id
    ensures s == t
  {
    var i :| 0 <= i < |managed| && managed[i] == s;
    var j :| 0 <= j < |managed| && managed[j] == t;
  }

  lemma TopAfter(managed: seq<Snapshot>, policy: Policy, idLe: (string, string) -> bool, gone: set<Reference>)
    requires TotalPreorder(idLe)
    requires forall s :: s in Top(managed, policy, idLe) ==> Ref(s) !in gone
    ensures Top(Without(managed, gone), policy, idLe) == Top(managed, policy, idLe)
  {
    RankIsPreorder(idLe);
    FilterFilter(managed, Remains(gone), IsRankable());
    SortFilter(Filter(managed, IsRankable()), RankLe(idLe), Remains(gone));
    TakeFilter(Ranking(managed, idLe), Remains(gone), policy.keepLatest);
  }

  lemma {:induction false} DistinctContents(s: seq<string>)
    ensures forall r :: r in Distinct(s) <==> r in s
    decreases |s|
  {
    if s != [] {
      DistinctContents(s[..|s| - 1]);
      assert s == s[..|s| - 1] + [s[|s| - 1]];
    }
  }

  /** Nothing is unmatched exactly when every protected reference names a managed snapshot. */
  lemma NothingUnmatched(managed: seq<Snapshot>, policy: Policy)
    ensures Unmatched(managed, policy) == [] <==> forall r :: r in policy.protectedReferences ==> Matched(managed, r)
  {
    DistinctContents(policy.protectedReferences);
    FilterContents(Distinct(policy.protectedReferences), r => !Matched(managed, r));
    var u := Unmatched(managed, policy);
    if u != [] { assert u[0] in u; }
  }

  lemma MatchedAfter(managed: seq<Snapshot>, policy: Policy, newest: set<string>, nowMs: int, gone: set<Reference>,
                     reference: string)
    requires forall r :: r in gone ==> r in DeleteList(managed, policy, newest, nowMs)
    requires reference in policy.protectedReferences && Matched(managed, reference)
    ensures Matched(Without(managed, gone), reference)
  {
    var i :| 0 <= i < |managed| && Matches(managed[i], reference);
    var s := managed[i];
    if Ref(s) in gone { var d := DoomedReference(managed, policy, newest, nowMs, Ref(s)); assert false; }
    FilterContents(managed, Remains(gone));
    var after := Without(managed, gone);
    assert s in after;
    var j :| 0 <= j < |after| && after[j] == s;
  }

  // ----- resuming -----

  lemma KeepAfter(managed: seq<Snapshot>, policy: Policy, newest: set<string>, nowMs: int, gone: set<Reference>)
    requires ValidIds(managed)
    requires forall r :: r in gone ==> r in DeleteList(managed, policy, newest, nowMs)
    ensures KeepList(Without(managed, gone), policy, newest, nowMs) == KeepList(managed, policy, newest, nowMs)
  {
    var kept := IsKept(policy, newest, nowMs);
    FilterFilter(managed, Remains(gone), kept);
    FilterContents(managed, kept);
    forall s | s in Filter(managed, kept) ensures Remains(gone)(s) {
      if Ref(s) in gone {
        var d := DoomedReference(managed, policy, newest, nowMs, Ref(s));
        SameIdSameSnapshot(managed, s, d);
        assert false;
      }
    }
    FilterAll(Filter(managed, kept), Remains(gone));
  }

  /** The plan for the managed snapshots that remain, when only planned deletions are gone. */
  lemma ManagedReplan(managed: seq<Snapshot>, policy: Policy, nowMs: int, idLe: (string, string) -> bool,
                      gone: set<Reference>)
    requires TotalPreorder(idLe) && PlanManaged(managed, policy, nowMs, idLe).Ok?
    requires forall r :: r in gone ==> r in PlanManaged(managed, policy, nowMs, idLe).value.delete
    ensures var plan := PlanManaged(managed, policy, nowMs, idLe).value;
            PlanManaged(Without(managed, gone), policy, nowMs, idLe)
            == Ok(plan.(delete := Filter(plan.delete, NotIn(gone))))
  {
    var newest := Ids(Top(managed, policy, idLe));
    var after := Without(managed, gone);
    forall r | r in gone ensures r.id !in newest {
      var d := DoomedReference(managed, policy, newest, nowMs, r);
    }
    TopAfter(managed, policy, idLe, gone);
    FilterKeepsValidIds(managed, Remains(gone));
    NothingUnmatched(managed, policy);
    NothingUnmatched(after, policy);
    forall r | r in policy.protectedReferences ensures Matched(after, r) {
      MatchedAfter(managed, policy, newest, nowMs, gone, r);
    }
    KeepAfter(managed, policy, newest, nowMs, gone);
    FilterFilter(managed, Remains(gone), IsDoomed(policy, newest, nowMs));
    RefsFilter(Filter(managed, IsDoomed(policy, newest, nowMs)), gone);
  }

  /**
   * With any of a plan's deletions already carried out, planning again keeps exactly the same snapshots
   * for the same reasons, and deletes exactly the others, in the same order.
   */
  lemma ReplanDeletesTheRest(inventory: seq<Snapshot>, input: PolicyInput, nowMs: int, idLe: (string, string) -> bool,
                             gone: set<Reference>)
    requires TotalPreorder(idLe) && Plan(inventory, input, nowMs, idLe).Ok?
    requires forall r :: r in gone ==> r in Plan(inventory, input, nowMs, idLe).value.delete
    ensures var plan := Plan(inventory, input, nowMs, idLe).value;
            Plan(Without(inventory, gone), input, nowMs, idLe) == Ok(plan.(delete := Filter(plan.delete, NotIn(gone))))
  {
    var policy := ValidatePolicy(input).value;
    FilterFilter(inventory, Remains(gone), IsManaged(policy));
    ManagedReplan(Filter(inventory, IsManaged(policy)), policy, nowMs, idLe, gone);
  }

  // ----- what a plan keeps -----

  lemma {:induction false} FilterSplits<T(!new)>(s: seq<T>, p: T -> bool, q: T -> bool)
    requires forall x :: x in s ==> p(x) == !q(x)
    ensures |Filter(s, p)| + |Filter(s, q)| == |s|
  {
    if s != [] { FilterSplits(s[1..], p, q); }
  }

  lemma InKeepList(managed: seq<Snapshot>, policy: Policy, newest: set<string>, nowMs: int, s: Snapshot)
    requires s in managed && Reason(s, policy, newest, nowMs).Some?
    ensures Kept(Ref(s), Reason(s, policy, newest, nowMs).value) in KeepList(managed, policy, newest, nowMs)
  {
    var kept := Filter(managed, IsKept(policy, newest, nowMs));
    FilterContents(managed, IsKept(policy, newest, nowMs));
    assert s in kept;
    var k :| 0 <= k < |kept| && kept[k] == s;
    assert KeptEntries(kept, policy, newest, nowMs)[k] == Kept(Ref(s), Reason(s, policy, newest, nowMs).value);
  }

  lemma InDeleteList(managed: seq<Snapshot>, policy: Policy, newest: set<string>, nowMs: int, s: Snapshot)
    requires s in managed && Reason(s, policy, newest, nowMs).None?
    ensures Ref(s) in DeleteList(managed, policy, newest, nowMs)
  {
    var doomed := Filter(managed, IsDoomed(policy, newest, nowMs));
    FilterContents(managed, IsDoomed(policy, newest, nowMs));
    assert s in doomed;
    var k :| 0 <= k < |doomed| && doomed[k] == s;
    assert Refs(doomed)[k] == Ref(s);
  }

  lemma KeptReference(managed: seq<Snapshot>, policy: Policy, newest: set<string>, nowMs: int, k: Kept)
    returns (s: Snapshot)
    requires k in KeepList(managed, policy, newest, nowMs)
    ensures s in managed && Ref(s) == k.reference && Reason(s, policy, newest, nowMs) == Some(k.reason)
  {
    var kept := Filter(managed, IsKept(policy, newest, nowMs));
    FilterContents(managed, IsKept(policy, newest, nowMs));
    var i :| 0 <= i < |kept| && KeptEntries(kept, policy, newest, nowMs)[i] == k;
    s := kept[i];
    assert s in kept;
  }

  /** Every managed snapshot is in exactly one of the two lists, once, and nothing else is in either. */
  lemma KeepAndDeletePartition(managed: seq<Snapshot>, policy: Policy, newest: set<string>, nowMs: int)
    requires ValidIds(managed)
    ensures forall s :: s in managed ==>
              ((exists k :: k in KeepList(managed, policy, newest, nowMs) && k.reference == Ref(s))
               <==> Ref(s) !in DeleteList(managed, policy, newest, nowMs))
    ensures |KeepList(managed, policy, newest, nowMs)| + |DeleteList(managed, policy, newest, nowMs)| == |managed|
    ensures forall r :: r in DeleteList(managed, policy, newest, nowMs) ==> exists s :: s in managed && Ref(s) == r
    ensures forall k :: k in KeepList(managed, policy, newest, nowMs) ==>
              exists s :: s in managed && Ref(s) == k.reference
  {
    var isKept, isDoomed := IsKept(policy, newest, nowMs), IsDoomed(policy, newest, nowMs);
    var keep, delete := KeepList(managed, policy, newest, nowMs), DeleteList(managed, policy, newest, nowMs);
    FilterContents(managed, isKept);
    forall s | s in managed
      ensures (exists k :: k in keep && k.reference == Ref(s)) <==> Ref(s) !in delete
    {
      if isKept(s) {
        InKeepList(managed, policy, newest, nowMs, s);
        if Ref(s) in delete {
          var d := DoomedReference(managed, policy, newest, nowMs, Ref(s));
          SameIdSameSnapshot(managed, s, d);
          assert false;
        }
      } else {
        InDeleteList(managed, policy, newest, nowMs, s);
        if k :| k in keep && k.reference == Ref(s) {
          var t := KeptReference(managed, policy, newest, nowMs, k);
          SameIdSameSnapshot(managed, s, t);
          assert false;
        }
      }
    }
    FilterSplits(managed, isKept, isDoomed);
    forall r | r in delete ensures exists s :: s in managed && Ref(s) == r {
      var d := DoomedReference(managed, policy, newest, nowMs, r);
    }
    forall k | k in keep ensures exists s :: s in managed && Ref(s) == k.reference {
      var t := KeptReference(managed, policy, newest, nowMs, k);
    }
  }

  /** Every protected reference still names something the plan keeps. */
  lemma ProtectedSurvive(inventory: seq<Snapshot>, input: PolicyInput, nowMs: int, idLe: (string, string) -> bool,
                         reference: string)
    requires Plan(inventory, input, nowMs, idLe).Ok?
    requires input.protectedReferences.Given? && reference in input.protectedReferences.value
    ensures exists k :: k in Plan(inventory, input, nowMs, idLe).value.keep && k.reason.Protected?
                        && (k.reference.id == reference || k.reference.name == reference)
  {
    var policy := ValidatePolicy(input).value;
    var managed := Filter(inventory, IsManaged(policy));
    NothingUnmatched(managed, policy);
    var i :| 0 <= i < |managed| && Matches(managed[i], reference);
    InKeepList(managed, policy, Ids(Top(managed, policy, idLe)), nowMs, managed[i]);
  }

  lemma AtTwoPlaces(b: seq<Snapshot>, i: nat, j: nat)
    requires i < j < |b| && b[i] == b[j]
    ensures multiset(b)[b[i]] >= 2
  {
    assert b == b[..j] + [b[j]] + b[j + 1..];
    assert b[i] in b[..j];
  }

  lemma {:induction false} OnceEach(a: seq<Snapshot>, s: Snapshot)
    requires ValidIds(a)
    ensures multiset(a)[s] <= 1
  {
    if a != [] {
      OnceEach(a[1..], s);
      assert a == [a[0]] + a[1..];
      if a[0] == s { assert s !in a[1..]; }
    }
  }

  lemma ReorderedValidIds(a: seq<Snapshot>, b: seq<Snapshot>)
    requires ValidIds(a) && multiset(a) == multiset(b)
    ensures ValidIds(b)
  {
    forall i | 0 <= i < |b| ensures b[i].id != "" { assert b[i] in multiset(b); }
    forall i, j | 0 <= i < j < |b| ensures b[i].id != b[j].id {
      if b[i].id == b[j].id {
        assert b[i] in multiset(b) && b[j] in multiset(b);
        SameIdSameSnapshot(a, b[i], b[j]);
        AtTwoPlaces(b, i, j);
        OnceEach(a, b[i]);
        assert false;
      }
    }
  }

  /** `a` is newer than `b` by its creation time in milliseconds, or as new with no later an ID. */
  predicate Outranks(a: Snapshot, b: Snapshot, idLe: (string, string) -> bool) {
    && a.createdAt.Finite? && b.createdAt.Finite?
    && (a.createdAt.ms > b.createdAt.ms || (a.createdAt.ms == b.createdAt.ms && idLe(a.id, b.id)))
  }

  predicate ReadyAndDated(s: Snapshot) {
    s.ready && s.createdAt.Finite?
  }

  lemma RankingContents(managed: seq<Snapshot>, idLe: (string, string) -> bool)
    requires ValidIds(managed)
    ensures ValidIds(Ranking(managed, idLe))
    ensures forall s :: s in Ranking(managed, idLe) <==> s in managed && ReadyAndDated(s)
  {
    var rankable, ranking := Filter(managed, IsRankable()), Ranking(managed, idLe);
    FilterContents(managed, IsRankable());
    SortContents(rankable, RankLe(idLe));
    FilterKeepsValidIds(managed, IsRankable());
    ReorderedValidIds(rankable, ranking);
    forall s ensures s in ranking <==> s in managed && ReadyAndDated(s) {
      assert s in ranking <==> s in multiset(ranking);
      assert s in rankable <==> s in multiset(rankable);
      assert IsRankable()(s) <==> ReadyAndDated(s);
    }
  }

  /** The ranking is the ready snapshots of known age, each once, the newest first. */
  lemma RankingInOrder(managed: seq<Snapshot>, idLe: (string, string) -> bool)
    requires TotalPreorder(idLe) && ValidIds(managed)
    ensures var ranking := Ranking(managed, idLe);
            && ValidIds(ranking)
            && (forall s :: s in ranking <==> s in managed && ReadyAndDated(s))
            && forall i, j :: 0 <= i < j < |ranking| ==> Outranks(ranking[i], ranking[j], idLe)
  {
    var ranking := Ranking(managed, idLe);
    RankIsPreorder(idLe);
    SortSorted(Filter(managed, IsRankable()), RankLe(idLe));
    RankingContents(managed, idLe);
    forall i, j | 0 <= i < j < |ranking| ensures Outranks(ranking[i], ranking[j], idLe) {
      var a, b := ranking[i], ranking[j];
      assert a in ranking && b in ranking && RankLe(idLe)(a, b);
      assert Millis(a.createdAt) == a.createdAt.ms && Millis(b.createdAt) == b.createdAt.ms;
      assert a.createdAt.ms > b.createdAt.ms || (a.createdAt.ms == b.createdAt.ms && idLe(a.id, b.id));
    }
  }

  lemma RankingLength(managed: seq<Snapshot>, idLe: (string, string) -> bool)
    ensures |Ranking(managed, idLe)| == |Filter(managed, IsRankable())|
  {
    SortContents(Filter(managed, IsRankable()), RankLe(idLe));
    assert |Ranking(managed, idLe)| == |multiset(Ranking(managed, idLe))|;
    assert |Filter(managed, IsRankable())| == |multiset(Filter(managed, IsRankable()))|;
  }

  /** What is taken stands before what is not. */
  lemma TakeSplits(s: seq<Snapshot>, n: nat)
    ensures forall x :: x in Take(s, n) ==> exists i :: 0 <= i < |Take(s, n)| && s[i] == x
    ensures forall x :: x in s && x !in Take(s, n) ==> exists j :: |Take(s, n)| <= j < |s| && s[j] == x
  {
    var top := Take(s, n);
    assert top == s[..|top|] && s == top + s[|top|..];
  }

  /** The kept newest are as many rankable snapshots as there are, up to `keepLatest`, none worse than one left out. */
  lemma TopIsBest(managed: seq<Snapshot>, policy: Policy, idLe: (string, string) -> bool)
    requires TotalPreorder(idLe) && ValidIds(managed)
    ensures var top, rankable := Top(managed, policy, idLe), Filter(managed, IsRankable());
            && |top| == (if |rankable| <= policy.keepLatest then |rankable| else policy.keepLatest)
            && ValidIds(top) && (forall t :: t in top ==> t in managed && ReadyAndDated(t))
            && forall t, u :: t in top && u in managed && ReadyAndDated(u) && u !in top ==> Outranks(t, u, idLe)
  {
    var ranking, top, rankable := Ranking(managed, idLe), Top(managed, policy, idLe), Filter(managed, IsRankable());
    RankingInOrder(managed, idLe);
    RankingLength(managed, idLe);
    FilterContents(managed, IsRankable());
    TakeSplits(ranking, policy.keepLatest);
    forall t, u | t in top && u in managed && ReadyAndDated(u) && u !in top ensures Outranks(t, u, idLe) {
      var i :| 0 <= i < |top| && ranking[i] == t;
      var j :| |top| <= j < |ranking| && ranking[j] == u;
    }
  }

  /** At least `minAgeMs` have passed since `t`. */
  predicate LongAgo(t: Time, policy: Policy, nowMs: int) {
    t.Finite? && nowMs - t.ms >= policy.minAgeMs
  }

  /**
   * Deleted are exactly the managed snapshots that are terminal, not protected, not among the newest,
   * and at a known time long ago both created and last used; one never used counts as used at the epoch.
   */
  lemma DeletedExactly(managed: seq<Snapshot>, policy: Policy, newest: set<string>, nowMs: int, s: Snapshot)
    requires ValidIds(managed) && s in managed
    ensures Ref(s) in DeleteList(managed, policy, newest, nowMs) <==>
            && s.terminal && s.id !in newest
            && s.id !in policy.protectedReferences && s.name !in policy.protectedReferences
            && LongAgo(s.createdAt, policy, nowMs)
            && LongAgo(if s.lastUsedAt.Some? then s.lastUsedAt.value else Finite(0), policy, nowMs)
  {
    if Ref(s) in DeleteList(managed, policy, newest, nowMs) {
      var d := DoomedReference(managed, policy, newest, nowMs, Ref(s));
      SameIdSameSnapshot(managed, s, d);
    } else if Reason(s, policy, newest, nowMs).None? {
      InDeleteList(managed, policy, newest, nowMs, s);
    }
  }

  /** A snapshot that can be ranked is deleted only below `keepLatest` others, all ready and all kept. */
  lemma DeletedRankBelowTheNewest(managed: seq<Snapshot>, policy: Policy, nowMs: int, idLe: (string, string) -> bool,
                                  s: Snapshot)
    requires TotalPreorder(idLe) && ValidIds(managed)
    requires s in managed && s.ready && Reason(s, policy, Ids(Top(managed, policy, idLe)), nowMs).None?
    ensures var top := Top(managed, policy, idLe);
            && |top| == policy.keepLatest && ValidIds(top)
            && forall n :: n in top ==> n in managed && n.ready && n.id != s.id && Outranks(n, s, idLe)
                                        && Reason(n, policy, Ids(top), nowMs).Some?
  {
    var ranking, top := Ranking(managed, idLe), Top(managed, policy, idLe);
    RankingInOrder(managed, idLe);
    var i :| 0 <= i < |ranking| && ranking[i] == s;
    forall k | 0 <= k < |top| ensures ranking[k] != s { assert top[k] in top; }
    forall n | n in top ensures n in managed && n.ready && n.id != s.id && Outranks(n, s, idLe) {
      var j :| 0 <= j < |top| && top[j] == n;
      assert ranking[j] == n && n in ranking;
    }
  }

  // ----- monotony -----

  /** Later, or under a policy that keeps fewer or shorter, at least as much is deleted. */
  lemma LooserPolicyDeletesMore(managed: seq<Snapshot>, policy: Policy, nowMs: int, looser: Policy, laterMs: int,
                                idLe: (string, string) -> bool)
    requires looser.provider == policy.provider && looser.protectedReferences == policy.protectedReferences
    requires looser.keepLatest <= policy.keepLatest && looser.minAgeMs <= policy.minAgeMs && nowMs <= laterMs
    ensures var newest, fewer := Ids(Top(managed, policy, idLe)), Ids(Top(managed, looser, idLe));
            forall r :: r in DeleteList(managed, policy, newest, nowMs) ==>
              r in DeleteList(managed, looser, fewer, laterMs)
  {
    var newest, fewer := Ids(Top(managed, policy, idLe)), Ids(Top(managed, looser, idLe));
    forall x | x in Top(managed, looser, idLe) ensures x in Top(managed, policy, idLe) {
      var i :| 0 <= i < |Top(managed, looser, idLe)| && Top(managed, looser, idLe)[i] == x;
      assert Top(managed, policy, idLe)[i] == x;
    }
    forall r | r in DeleteList(managed, policy, newest, nowMs)
      ensures r in DeleteList(managed, looser, fewer, laterMs)
    {
      var s := DoomedReference(managed, policy, newest, nowMs, r);
      InDeleteList(managed, looser, fewer, laterMs, s);
    }
  }

  /** A cleanup resumed later deletes at least everything that was still to be deleted. */
  lemma ResumedLater(inventory: seq<Snapshot>, input: PolicyInput, nowMs: int, laterMs: int,
                     idLe: (string, string) -> bool, gone: set<Reference>)
    requires TotalPreorder(idLe) && Plan(inventory, input, nowMs, idLe).Ok? && nowMs <= laterMs
    requires forall r :: r in gone ==> r in Plan(inventory, input, nowMs, idLe).value.delete
    ensures Plan(Without(inventory, gone), input, laterMs, idLe).Ok?
    ensures forall r :: r in Plan(inventory, input, nowMs, idLe).value.delete && r !in gone ==>
                        r in Plan(Without(inventory, gone), input, laterMs, idLe).value.delete
  {
    ReplanDeletesTheRest(inventory, input, nowMs, idLe, gone);
    FilterContents(Plan(inventory, input, nowMs, idLe).value.delete, NotIn(gone));
    var policy := ValidatePolicy(input).value;
    LooserPolicyDeletesMore(Filter(Without(inventory, gone), IsManaged(policy)), policy, nowMs, policy, laterMs, idLe);
  }
}
