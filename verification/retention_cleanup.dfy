/**
 * Planning with the loops the cleanup script uses, and the deletion loop, which may stop at any
 * artifact. However it stops, planning again continues where it stopped.
 */
module RetentionCleanup {
  import opened Options
  import opened StableSort
  import opened Retention
  import opened RetentionResume

  // ----- planning -----

  lemma Appended(managed: seq<Snapshot>, i: nat, p: Snapshot -> bool)
    requires i < |managed|
    ensures Filter(managed[..i + 1], p) == Filter(managed[..i], p) + if p(managed[i]) then [managed[i]] else []
  {
    assert managed[..i + 1] == managed[..i] + [managed[i]];
    FilterJoins(managed[..i], [managed[i]], p);
    FilterCons(managed[i], [], p);
    assert [managed[i]] + [] == [managed[i]];
  }

  lemma EntriesAppended(managed: seq<Snapshot>, i: nat, policy: Policy, newest: set<string>, nowMs: int)
    requires i < |managed|
    ensures var reason := Reason(managed[i], policy, newest, nowMs);
            && KeepList(managed[..i + 1], policy, newest, nowMs)
                 == KeepList(managed[..i], policy, newest, nowMs)
                    + (if reason.Some? then [Kept(Ref(managed[i]), reason.value)] else [])
            && DeleteList(managed[..i + 1], policy, newest, nowMs)
                 == DeleteList(managed[..i], policy, newest, nowMs) + (if reason.None? then [Ref(managed[i])] else [])
  {
    var isKept, isDoomed := IsKept(policy, newest, nowMs), IsDoomed(policy, newest, nowMs);
    Appended(managed, i, isKept);
    Appended(managed, i, isDoomed);
    FilterContents(managed[..i], isKept);
    FilterContents(managed[..i + 1], isKept);
    var keep, delete := Filter(managed[..i], isKept), Filter(managed[..i], isDoomed);
    assert (keep + [managed[i]])[..|keep|] == keep && (delete + [managed[i]])[..|delete|] == delete;
    assert keep + [] == keep && delete + [] == delete;
  }

  /** The duplicate check: every ID is non-empty and none was seen before. */
  method AllIdsValid(managed: seq<Snapshot>) returns (ok: bool)
    ensures ok <==> ValidIds(managed)
  {
    var seen: set<string> := {};
    for i := 0 to |managed|
      invariant seen == set k | 0 <= k < i :: managed[k].id
      invariant forall k :: 0 <= k < i ==> managed[k].id != ""
      invariant forall j, k :: 0 <= j < k < i ==> managed[j].id != managed[k].id
    {
      if managed[i].id == "" || managed[i].id in seen { return false; }
      seen := seen + {managed[i].id};
    }
    return true;
  }

  method PlanCleanup(inventory: seq<Snapshot>, input: PolicyInput, nowMs: int, idLe: (string, string) -> bool)
    returns (r: Result<CleanupPlan, PlanError>)
    ensures r == Plan(inventory, input, nowMs, idLe)
  {
    var validated := ValidatePolicy(input);
    if validated.Err? { return Err(PolicyInvalid(validated.error)); }
    var policy := validated.value;
    var managed := Filter(inventory, IsManaged(policy));
    var distinct := AllIdsValid(managed);
    if !distinct { return Err(InvalidOrDuplicateId); }
    var unmatched := Unmatched(managed, policy);
    if unmatched != [] { return Err(UnmatchedReferences(unmatched)); }
    var newest := Ids(Top(managed, policy, idLe));
    var keep, delete := [], [];
    for i := 0 to |managed|
      invariant keep == KeepList(managed[..i], policy, newest, nowMs)
      invariant delete == DeleteList(managed[..i], policy, newest, nowMs)
    {
      EntriesAppended(managed, i, policy, newest, nowMs);
      var reason := Reason(managed[i], policy, newest, nowMs);
      if reason.Some? { keep := keep + [Kept(Ref(managed[i]), reason.value)]; }
      else { delete := delete + [Ref(managed[i])]; }
    }
    assert managed[..|managed|] == managed;
    return Ok(CleanupPlan(policy.provider, keep, delete));
  }

  // ----- deleting -----

  datatype Outcome =
    | ListingFailed
    | Refused(error: PlanError)
    | Completed(plan: CleanupPlan, apply: bool, deleted: seq<Reference>)
    /** `remaining` is what is left of the plan, with the artifact whose deletion failed at its head. */
    | Interrupted(plan: CleanupPlan, deleted: seq<Reference>, failed: Reference, remaining: seq<Reference>)

  function Gone(s: seq<Reference>): set<Reference> {
    set x | x in s
  }

  /** The first `n` deletions have happened, and planning again deletes exactly the others. */
  ghost predicate StoppedAt(before: seq<Snapshot>, after: seq<Snapshot>, input: PolicyInput, nowMs: int,
                            idLe: (string, string) -> bool, plan: CleanupPlan, n: nat)
  {
    && n <= |plan.delete|
    && after == Without(before, Gone(plan.delete[..n]))
    && Plan(after, input, nowMs, idLe) == Ok(plan.(delete := plan.delete[n..]))
  }

  lemma {:induction false} NothingGone(inventory: seq<Snapshot>)
    ensures Without(inventory, Gone([])) == inventory
  {
    FilterAll(inventory, Remains(Gone([])));
  }

  lemma {:induction false} FilterTwice(s: seq<Snapshot>, a: set<Reference>, b: set<Reference>)
    ensures Without(Without(s, a), b) == Without(s, a + b)
  {
    if s != [] {
      FilterTwice(s[1..], a, b);
      FilterCons(s[0], Filter(s[1..], Remains(a)), Remains(b));
    }
  }

  lemma GoneToo(inventory: seq<Snapshot>, deleted: seq<Reference>, r: Reference)
    ensures Without(Without(inventory, Gone(deleted)), {r}) == Without(inventory, Gone(deleted + [r]))
  {
    FilterTwice(inventory, Gone(deleted), {r});
    assert Gone(deleted + [r]) == Gone(deleted) + {r};
  }

  lemma {:induction false} FilterNone<T(!new)>(s: seq<T>, p: T -> bool)
    requires forall x :: x in s ==> !p(x)
    ensures Filter(s, p) == []
  {
    if s != [] { FilterNone(s[1..], p); }
  }

  lemma LaterDiffer(delete: seq<Reference>, i: nat)
    requires i <= |delete| && forall j, k :: 0 <= j < k < |delete| ==> delete[j].id != delete[k].id
    ensures forall x :: x in delete[i..] ==> x !in Gone(delete[..i])
  {
    forall x | x in delete[i..] ensures x !in delete[..i] {
      var k :| i <= k < |delete| && delete[k] == x;
      forall j | 0 <= j < i ensures delete[j] != x { assert delete[j].id != delete[k].id; }
    }
  }

  lemma FilterOutFirst(a: seq<Reference>, b: seq<Reference>)
    requires forall x :: x in b ==> x !in Gone(a)
    ensures Filter(a + b, NotIn(Gone(a))) == b
  {
    FilterJoins(a, b, NotIn(Gone(a)));
    FilterNone(a, NotIn(Gone(a)));
    FilterAll(b, NotIn(Gone(a)));
  }

  lemma RestOfDistinct(delete: seq<Reference>, i: nat)
    requires i <= |delete| && forall j, k :: 0 <= j < k < |delete| ==> delete[j].id != delete[k].id
    ensures Filter(delete, NotIn(Gone(delete[..i]))) == delete[i..]
  {
    LaterDiffer(delete, i);
    FilterOutFirst(delete[..i], delete[i..]);
    assert delete == delete[..i] + delete[i..];
  }

  /** No artifact is planned for deletion twice. */
  lemma DeletionsDiffer(inventory: seq<Snapshot>, input: PolicyInput, nowMs: int, idLe: (string, string) -> bool)
    requires Plan(inventory, input, nowMs, idLe).Ok?
    ensures var delete := Plan(inventory, input, nowMs, idLe).value.delete;
            forall j, k :: 0 <= j < k < |delete| ==> delete[j].id != delete[k].id
  {
    var policy := ValidatePolicy(input).value;
    var managed := Filter(inventory, IsManaged(policy));
    FilterKeepsValidIds(managed, IsDoomed(policy, Ids(Top(managed, policy, idLe)), nowMs));
  }

  /** After the first `i` planned deletions, the plan is the same with the others left to delete. */
  lemma ResumesAt(before: seq<Snapshot>, after: seq<Snapshot>, input: PolicyInput, nowMs: int,
                  idLe: (string, string) -> bool,
                  plan: CleanupPlan, i: nat)
    requires TotalPreorder(idLe) && Plan(before, input, nowMs, idLe) == Ok(plan) && i <= |plan.delete|
    ensures after == Without(before, Gone(plan.delete[..i])) ==> StoppedAt(before, after, input, nowMs, idLe, plan, i)
  {
    var delete := plan.delete;
    DeletionsDiffer(before, input, nowMs, idLe);
    RestOfDistinct(delete, i);
    forall r | r in Gone(delete[..i]) ensures r in delete { assert delete[..i] <= delete; }
    ReplanDeletesTheRest(before, input, nowMs, idLe, Gone(delete[..i]));
  }

  /** The provider's artifact store. */
  class Client {
    var inventory: seq<Snapshot>
    /** How many deletions have failed. */
    ghost var failures: nat

    constructor (inventory: seq<Snapshot>)
      ensures this.inventory == inventory && failures == 0
    {
      this.inventory, failures := inventory, 0;
    }

    method List() returns (r: Option<seq<Snapshot>>)
      ensures r.Some? ==> r.value == inventory
    {
      var reachable: bool :| true;
      return if reachable then Some(inventory) else None;
    }

    /** A failed request may still have removed the artifact. */
    method Delete(reference: Reference) returns (ok: bool)
      modifies this
      ensures inventory == Without(old(inventory), {reference}) || (!ok && inventory == old(inventory))
      ensures failures == old(failures) + if ok then 0 else 1
    {
      var removed: bool :| true;
      ok :| ok ==> removed;
      if removed { inventory := Without(inventory, {reference}); }
      if !ok { failures := failures + 1; }
    }

    /** Deletes in order until a deletion fails; that artifact may be gone all the same. */
    method DeleteInOrder(delete: seq<Reference>) returns (n: nat, ghost gone: nat)
      modifies this
      ensures n <= gone <= |delete| && gone <= n + 1
      ensures inventory == Without(old(inventory), Gone(delete[..gone]))
      ensures failures == old(failures) + if n < |delete| then 1 else 0
    {
      n, gone := 0, 0;
      NothingGone(inventory);
      while n < |delete|
        invariant n == gone <= |delete|
        invariant inventory == Without(old(inventory), Gone(delete[..n]))
        invariant failures == old(failures)
      {
        ghost var before := inventory;
        var ok := Delete(delete[n]);
        GoneToo(old(inventory), delete[..n], delete[n]);
        assert delete[..n + 1] == delete[..n] + [delete[n]];
        gone := if ok || inventory != before then n + 1 else n;
        if !ok { return; }
        n := n + 1;
      }
    }

    /** Listing and planning are finished before anything is deleted. */
    method ListAndPlan(input: PolicyInput, nowMs: int, idLe: (string, string) -> bool)
      returns (refusal: Option<Outcome>, plan: CleanupPlan)
      ensures refusal.None? ==> Plan(inventory, input, nowMs, idLe) == Ok(plan)
      ensures refusal.Some? ==> refusal.value.ListingFailed?
                                || (refusal.value.Refused?
                                    && Plan(inventory, input, nowMs, idLe) == Err(refusal.value.error))
    {
      plan := CleanupPlan(Vercel, [], []);
      var listed := List();
      if listed.None? { return Some(ListingFailed), plan; }
      var planned := PlanCleanup(listed.value, input, nowMs, idLe);
      if planned.Err? { return Some(Refused(planned.error)), plan; }
      return None, planned.value;
    }

    /** A plan's deletions, reported. */
    method Apply(plan: CleanupPlan) returns (r: Outcome, ghost gone: nat)
      modifies this
      ensures gone <= |plan.delete| && inventory == Without(old(inventory), Gone(plan.delete[..gone]))
      ensures r.Completed? || r.Interrupted?
      ensures failures == old(failures) + if r.Interrupted? then 1 else 0
      ensures r.Completed? ==> r == Completed(plan, true, plan.delete) && gone == |plan.delete|
      ensures r.Interrupted? ==> r.plan == plan && plan.delete == r.deleted + r.remaining
                                 && r.remaining != [] && r.failed == r.remaining[0]
                                 && |r.deleted| <= gone <= |r.deleted| + 1
    {
      var n: nat;
      n, gone := DeleteInOrder(plan.delete);
      if n == |plan.delete| { return Completed(plan, true, plan.delete), gone; }
      assert plan.delete == plan.delete[..n] + plan.delete[n..];
      return Interrupted(plan, plan.delete[..n], plan.delete[n], plan.delete[n..]), gone;
    }

    /**
     * Lists, plans, and deletes in plan order, stopping at the first failure. Planning again then
     * deletes exactly `remaining`, less the failed artifact if it is gone after all, and a completed
     * cleanup leaves nothing to delete; what is kept, and why, has not changed.
     */
    method Cleanup(input: PolicyInput, apply: bool, nowMs: int, idLe: (string, string) -> bool) returns (r: Outcome)
      requires TotalPreorder(idLe)
      modifies this
      ensures r.ListingFailed? || r.Refused? || !apply ==> inventory == old(inventory)
      ensures r.Refused? ==> Plan(old(inventory), input, nowMs, idLe) == Err(r.error)
      ensures r.Completed? || r.Interrupted? ==> Plan(old(inventory), input, nowMs, idLe) == Ok(r.plan)
      ensures r.Completed? ==> r.apply == apply && r.deleted == if apply then r.plan.delete else []
      ensures r.Completed? && apply ==>
                StoppedAt(old(inventory), inventory, input, nowMs, idLe, r.plan, |r.plan.delete|)
      ensures r.Interrupted? ==> apply && r.plan.delete == r.deleted + r.remaining && r.remaining != []
                                 && r.failed == r.remaining[0]
      ensures failures == old(failures) + if r.Interrupted? then 1 else 0
      ensures r.Interrupted? ==> StoppedAt(old(inventory), inventory, input, nowMs, idLe, r.plan, |r.deleted|)
                                 || StoppedAt(old(inventory), inventory, input, nowMs, idLe, r.plan, |r.deleted| + 1)
    {
      var refusal, planned := ListAndPlan(input, nowMs, idLe);
      if refusal.Some? { return refusal.value; }
      var plan := planned;
      if !apply { return Completed(plan, apply, []); }
      ghost var gone;
      r, gone := Apply(plan);
      ResumesAt(old(inventory), inventory, input, nowMs, idLe, plan, gone);
    }
  }
}
