/**
 * What a retention plan is, in the policy's own terms: which policies are accepted, which names are
 * managed, and for every managed snapshot whether and why it is kept, or that it is deleted.
 */
module RetentionPlan {
  import opened Options
  import opened JsText
  import opened StableSort
  import opened Retention
  import opened RetentionResume

  // ----- the policy -----

  /** Letters, digits, dashes and underscores, the first a letter or digit. */
  predicate PlainPrefix(p: string) {
    && p != "" && p[0] != '-' && p[0] != '_'
    && forall c :: c in p ==> 'a' <= c <= 'z' || 'A' <= c <= 'Z' || '0' <= c <= '9' || c == '-' || c == '_'
  }

  /** Whole numbers that a double holds exactly. */
  predicate SafeFrom(least: int, n: int) {
    least <= n <= 9_007_199_254_740_991
  }

  /** A policy is accepted exactly with these values: five snapshots and seven days when not given. */
  lemma PolicyExactly(input: PolicyInput, policy: Policy)
    ensures ValidatePolicy(input) == Ok(policy) <==>
            && input.provider == Given(if policy.provider.Vercel? then "vercel" else "daytona")
            && (input.prefix == Given(policy.prefix)
                || (input.prefix == Absent && policy.provider.Vercel? && policy.prefix == "openinspect-base"))
            && PlainPrefix(policy.prefix)
            && input.protectedReferences == Given(policy.protectedReferences)
            && policy.protectedReferences != []
            && (forall r :: r in policy.protectedReferences ==> r != "" && Trimmed(r))
            && (input.keepLatest == Given(policy.keepLatest) || (input.keepLatest == Absent && policy.keepLatest == 5))
            && SafeFrom(1, policy.keepLatest)
            && (input.minAgeMs == Given(policy.minAgeMs)
                || (input.minAgeMs == Absent && policy.minAgeMs == 7 * 24 * 60 * 60 * 1000))
            && SafeFrom(0, policy.minAgeMs)
  {
    forall r: string ensures r == Trim(r) <==> Trimmed(r) { TrimmedIsFixed(r); }
    assert PlainPrefix("openinspect-base");
    forall p: string ensures ValidPrefix(p) <==> PlainPrefix(p) {
      if p != "" { assert p[0] in p; }
    }
  }

  predicate ProviderGiven(input: PolicyInput) {
    input.provider == Given("vercel") || input.provider == Given("daytona")
  }

  predicate PrefixGiven(input: PolicyInput) {
    || (input.prefix.Given? && PlainPrefix(input.prefix.value))
    || (input.prefix.Absent? && input.provider == Given("vercel"))
  }

  predicate ReferencesGiven(input: PolicyInput) {
    && input.protectedReferences.Given? && input.protectedReferences.value != []
    && forall r :: r in input.protectedReferences.value ==> r != "" && Trimmed(r)
  }

  predicate NumberGiven(n: Field<int>, least: int) {
    n.Absent? || (n.Given? && SafeFrom(least, n.value))
  }

  /** Any other policy is refused for the first thing wrong with it. */
  lemma PolicyRefused(input: PolicyInput, e: PolicyError)
    ensures ValidatePolicy(input) == Err(e) <==>
            if !ProviderGiven(input) then e == BadProvider
            else if !PrefixGiven(input) then e == BadPrefix
            else if !ReferencesGiven(input) then e == BadProtectedReferences
            else if !NumberGiven(input.keepLatest, 1) then e == BadKeepLatest
            else !NumberGiven(input.minAgeMs, 0) && e == BadMinAge
  {
    forall r: string ensures r == Trim(r) <==> Trimmed(r) { TrimmedIsFixed(r); }
    assert PlainPrefix("openinspect-base");
    forall p: string ensures ValidPrefix(p) <==> PlainPrefix(p) {
      if p != "" { assert p[0] in p; }
    }
  }

  // ----- managed names -----

  predicate HexDigits(h: string) {
    forall k :: 0 <= k < |h| ==> '0' <= h[k] <= '9' || 'a' <= h[k] <= 'f'
  }

  /** A decimal number without leading zeros. */
  predicate Counting(n: string) {
    n != "" && '1' <= n[0] <= '9' && forall k :: 0 <= k < |n| ==> '0' <= n[k] <= '9'
  }

  /** The prefix, on Daytona a generation number, and sixteen hexadecimal digits. */
  predicate NamedWith(provider: Provider, prefix: string, n: string, h: string, name: string) {
    |h| == 16 && HexDigits(h) &&
    if provider.Vercel? then n == "" && name == prefix + "-" + h
    else Counting(n) && name == prefix + "-m" + n + "-" + h
  }

  ghost predicate NamedUnder(provider: Provider, prefix: string, name: string) {
    exists n: string, h: string :: NamedWith(provider, prefix, n, h, name)
  }

  lemma HashEndsSuffix(s: string)
    requires |s| >= 17 && HashTail(s[|s| - 17..])
    ensures s == s[..|s| - 17] + "-" + s[|s| - 16..] && HexDigits(s[|s| - 16..])
  {
    var h, tail := s[|s| - 16..], s[|s| - 17..];
    forall k | 0 <= k < 16 ensures '0' <= h[k] <= '9' || 'a' <= h[k] <= 'f' {
      assert h[k] == tail[k + 1] && HexLower(tail[k + 1]);
    }
    assert s[|s| - 17] == tail[0];
  }

  lemma ManagedIsNamed(provider: Provider, prefix: string, name: string)
    requires ManagedName(provider, prefix, name)
    ensures NamedUnder(provider, prefix, name)
  {
    var s := name[|prefix|..];
    HashEndsSuffix(s);
    var front, h := s[..|s| - 17], s[|s| - 16..];
    assert name == prefix + (front + "-" + h);
    if provider.Vercel? {
      assert NamedWith(provider, prefix, "", h, name);
    } else {
      var n := front[2..];
      assert front == "-m" + n;
      assert name == prefix + "-m" + n + "-" + h;
      assert Counting(n);
      assert NamedWith(provider, prefix, n, h, name);
    }
  }

  lemma SuffixEndsInHash(s: string, front: string, h: string)
    requires s == front + "-" + h && |h| == 16 && HexDigits(h)
    ensures |s| == |front| + 17 && HashTail(s[|s| - 17..])
  {
    var tail := s[|s| - 17..];
    assert tail == "-" + h;
    forall k | 1 <= k < 17 ensures HexLower(tail[k]) { assert tail[k] == h[k - 1]; }
  }

  lemma NamedIsManaged(provider: Provider, prefix: string, name: string)
    requires NamedUnder(provider, prefix, name)
    ensures ManagedName(provider, prefix, name)
  {
    var n: string, h: string :| NamedWith(provider, prefix, n, h, name);
    var front := if provider.Vercel? then "" else "-m" + n;
    assert name == prefix + (front + "-" + h);
    SuffixEndsInHash(front + "-" + h, front, h);
    if provider.Daytona? {
      forall k | 3 <= k < |front| ensures Digit(front[k]) { assert front[k] == n[k - 2]; }
    }
  }

  /** The names a policy manages are exactly those. */
  lemma ManagedExactly(provider: Provider, prefix: string, name: string)
    ensures ManagedName(provider, prefix, name) <==> NamedUnder(provider, prefix, name)
  {
    if ManagedName(provider, prefix, name) { ManagedIsNamed(provider, prefix, name); }
    if NamedUnder(provider, prefix, name) { NamedIsManaged(provider, prefix, name); }
  }

  // ----- which snapshots -----

  ghost predicate Manages(policy: Policy, s: Snapshot) {
    NamedUnder(policy.provider, policy.prefix, s.name)
  }

  /** The managed part of an inventory. */
  ghost function Managed(inventory: seq<Snapshot>, policy: Policy): set<Snapshot> {
    set s | s in inventory && Manages(policy, s)
  }

  lemma ManagedPart(inventory: seq<Snapshot>, policy: Policy)
    ensures forall s :: s in Filter(inventory, IsManaged(policy)) <==> s in Managed(inventory, policy)
  {
    FilterContents(inventory, IsManaged(policy));
    forall s ensures IsManaged(policy)(s) <==> Manages(policy, s) {
      ManagedExactly(policy.provider, policy.prefix, s.name);
    }
  }

  predicate IdsDifferBy(inventory: seq<Snapshot>, p: Snapshot -> bool) {
    && (forall i :: 0 <= i < |inventory| && p(inventory[i]) ==> inventory[i].id != "")
    && forall i, j :: 0 <= i < j < |inventory| && p(inventory[i]) && p(inventory[j]) ==>
         inventory[i].id != inventory[j].id
  }

  lemma ValidIdsCons(x: Snapshot, s: seq<Snapshot>)
    ensures ValidIds([x] + s) <==> x.id != "" && ValidIds(s) && forall y :: y in s ==> y.id != x.id
  {
    var t := [x] + s;
    assert forall i :: 0 <= i < |s| ==> t[i + 1] == s[i];
    if ValidIds(t) {
      assert t[0] == x;
      forall y | y in s ensures y.id != x.id { var i :| 0 <= i < |s| && s[i] == y; assert t[i + 1] == y; }
      forall i | 0 <= i < |s| ensures s[i].id != "" { assert t[i + 1] == s[i]; }
      forall i, j | 0 <= i < j < |s| ensures s[i].id != s[j].id { assert t[i + 1] == s[i] && t[j + 1] == s[j]; }
    }
  }

  lemma IdsDifferCons(inventory: seq<Snapshot>, p: Snapshot -> bool)
    requires inventory != []
    ensures var x, s := inventory[0], inventory[1..];
            IdsDifferBy(inventory, p) <==>
            IdsDifferBy(s, p) && (p(x) ==> x.id != "" && forall y :: y in s && p(y) ==> y.id != x.id)
  {
    var x, s := inventory[0], inventory[1..];
    assert forall i :: 0 <= i < |s| ==> inventory[i + 1] == s[i];
    if IdsDifferBy(inventory, p) {
      forall i | 0 <= i < |s| && p(s[i]) ensures s[i].id != "" { assert inventory[i + 1] == s[i]; }
      forall i, j | 0 <= i < j < |s| && p(s[i]) && p(s[j]) ensures s[i].id != s[j].id {
        assert inventory[i + 1] == s[i] && inventory[j + 1] == s[j];
      }
      if p(x) {
        forall y | y in s && p(y) ensures y.id != x.id {
          var i :| 0 <= i < |s| && s[i] == y;
          assert inventory[i + 1] == y;
        }
      }
    }
  }

  lemma {:induction false} ValidIdsFiltered(inventory: seq<Snapshot>, p: Snapshot -> bool)
    ensures ValidIds(Filter(inventory, p)) <==> IdsDifferBy(inventory, p)
  {
    if inventory != [] {
      IdsDifferCons(inventory, p);
      FilterContents(inventory[1..], p);
      ValidIdsCons(inventory[0], Filter(inventory[1..], p));
      ValidIdsFiltered(inventory[1..], p);
    }
  }

  /** Every managed snapshot has an ID, and no two have the same. */
  ghost predicate IdsDiffer(inventory: seq<Snapshot>, policy: Policy) {
    && (forall i :: 0 <= i < |inventory| && Manages(policy, inventory[i]) ==> inventory[i].id != "")
    && forall i, j :: 0 <= i < j < |inventory| && Manages(policy, inventory[i]) && Manages(policy, inventory[j]) ==>
         inventory[i].id != inventory[j].id
  }

  lemma ValidIdsExactly(inventory: seq<Snapshot>, policy: Policy)
    ensures ValidIds(Filter(inventory, IsManaged(policy))) <==> IdsDiffer(inventory, policy)
  {
    ValidIdsFiltered(inventory, IsManaged(policy));
    forall s ensures IsManaged(policy)(s) <==> Manages(policy, s) {
      ManagedExactly(policy.provider, policy.prefix, s.name);
    }
  }

  // ----- refusals -----

  ghost predicate NamesManaged(reference: string, inventory: seq<Snapshot>, policy: Policy) {
    exists s :: s in Managed(inventory, policy) && (s.id == reference || s.name == reference)
  }

  /** The first `b` comes after an `a`. */
  predicate FirstBefore(s: seq<string>, a: string, b: string) {
    exists k :: 0 <= k < |s| && a in s[..k] && b !in s[..k] && b in s
  }

  lemma {:induction false} DistinctInOrder(s: seq<string>, i: nat, j: nat)
    requires i < j < |Distinct(s)|
    ensures Distinct(s)[i] != Distinct(s)[j] && FirstBefore(s, Distinct(s)[i], Distinct(s)[j])
    decreases |s|
  {
    var n := |s| - 1;
    var before := s[..n];
    DistinctContents(before);
    assert s == before + [s[n]];
    if j < |Distinct(before)| {
      DistinctInOrder(before, i, j);
      var a, b := Distinct(s)[i], Distinct(s)[j];
      var k :| 0 <= k < |before| && a in before[..k] && b !in before[..k] && b in before;
      assert s[..k] == before[..k];
    } else {
      assert s[..n] == before && Distinct(before)[i] in Distinct(before);
    }
  }

  /** What a filter leaves of two elements stood in that order. */
  lemma {:induction false} FilteredFrom<T(!new)>(s: seq<T>, p: T -> bool, i: nat, j: nat) returns (a: nat, b: nat)
    requires i < j < |Filter(s, p)|
    ensures a < b < |s| && s[a] == Filter(s, p)[i] && s[b] == Filter(s, p)[j]
  {
    FilterContents(s[1..], p);
    var rest := Filter(s[1..], p);
    if p(s[0]) && i == 0 {
      assert rest[j - 1] in s[1..];
      var k :| 0 <= k < |s[1..]| && s[1..][k] == rest[j - 1];
      a, b := 0, k + 1;
    } else {
      var k := if p(s[0]) then 1 else 0;
      a, b := FilteredFrom(s[1..], p, i - k, j - k);
      a, b := a + 1, b + 1;
    }
  }

  lemma UnmatchedExactly(inventory: seq<Snapshot>, policy: Policy)
    ensures var us := Unmatched(Filter(inventory, IsManaged(policy)), policy);
            && (forall r :: r in us <==> r in policy.protectedReferences && !NamesManaged(r, inventory, policy))
            && forall i, j :: 0 <= i < j < |us| ==>
                 us[i] != us[j] && FirstBefore(policy.protectedReferences, us[i], us[j])
  {
    var managed, refs := Filter(inventory, IsManaged(policy)), policy.protectedReferences;
    var unmatched := r => !Matched(managed, r);
    var us := Filter(Distinct(refs), unmatched);
    assert us == Unmatched(managed, policy);
    ManagedPart(inventory, policy);
    DistinctContents(refs);
    FilterContents(Distinct(refs), unmatched);
    forall r ensures Matched(managed, r) <==> NamesManaged(r, inventory, policy) {
      if s :| s in Managed(inventory, policy) && (s.id == r || s.name == r) {
        assert s in managed;
        var k :| 0 <= k < |managed| && managed[k] == s;
        assert Matches(managed[k], r);
      }
    }
    forall i, j | 0 <= i < j < |us| ensures us[i] != us[j] && FirstBefore(refs, us[i], us[j]) {
      var a, b := FilteredFrom(Distinct(refs), unmatched, i, j);
      DistinctInOrder(refs, a, b);
    }
  }

  /**
   * Planning is refused exactly for a policy that is not accepted, for managed snapshots without an ID or
   * with the same one, and for protected references that name no managed snapshot: just those, each once,
   * in the order given.
   */
  lemma RefusedExactly(inventory: seq<Snapshot>, input: PolicyInput, nowMs: int, idLe: (string, string) -> bool)
    ensures Plan(inventory, input, nowMs, idLe).Ok? ==> ValidatePolicy(input).Ok?
    ensures forall e ::
              Plan(inventory, input, nowMs, idLe) == Err(PolicyInvalid(e)) <==> ValidatePolicy(input) == Err(e)
    ensures ValidatePolicy(input).Ok? ==>
              var policy, r := ValidatePolicy(input).value, Plan(inventory, input, nowMs, idLe);
              && (r == Err(InvalidOrDuplicateId) <==> !IdsDiffer(inventory, policy))
              && (r.Ok? <==> IdsDiffer(inventory, policy)
                             && forall x :: x in policy.protectedReferences ==> NamesManaged(x, inventory, policy))
    ensures forall us | Plan(inventory, input, nowMs, idLe) == Err(UnmatchedReferences(us)) ::
              var policy := ValidatePolicy(input).value;
              && (forall r :: r in us <==> r in policy.protectedReferences && !NamesManaged(r, inventory, policy))
              && forall i, j :: 0 <= i < j < |us| ==>
                   us[i] != us[j] && FirstBefore(policy.protectedReferences, us[i], us[j])
  {
    if ValidatePolicy(input).Ok? {
      var policy := ValidatePolicy(input).value;
      ValidIdsExactly(inventory, policy);
      UnmatchedExactly(inventory, policy);
      var us := Unmatched(Filter(inventory, IsManaged(policy)), policy);
      assert us != [] ==> us[0] in us;
    }
  }

  // ----- the plan -----

  /** The newest `n` ready snapshots of known age, or all of them when there are no more. */
  predicate IsNewest(top: set<Snapshot>, managed: set<Snapshot>, n: nat, idLe: (string, string) -> bool) {
    && top <= managed && (forall t :: t in top ==> ReadyAndDated(t))
    && (|top| == n || (|top| < n && forall s :: s in managed && ReadyAndDated(s) ==> s in top))
    && forall t, s :: t in top && s in managed && ReadyAndDated(s) && s !in top ==> Outranks(t, s, idLe)
  }

  predicate NamedProtected(s: Snapshot, policy: Policy) {
    s.id in policy.protectedReferences || s.name in policy.protectedReferences
  }

  /** A snapshot that only its age can keep. */
  predicate Expendable(s: Snapshot, policy: Policy, top: set<Snapshot>) {
    !NamedProtected(s, policy) && s !in top && s.terminal
  }

  /** When it was last used; a snapshot never used counts as used at the epoch. */
  function LastUsed(s: Snapshot): Time {
    if s.lastUsedAt.Some? then s.lastUsedAt.value else Finite(0)
  }

  /** For one managed snapshot: why it is kept, or that it is deleted. */
  predicate Judged(s: Snapshot, policy: Policy, top: set<Snapshot>, nowMs: int, plan: CleanupPlan) {
    var dated := s.createdAt.Finite? && LastUsed(s).Finite?;
    var longAgo := dated && nowMs - s.createdAt.ms >= policy.minAgeMs && nowMs - LastUsed(s).ms >= policy.minAgeMs;
    && (Kept(Ref(s), Protected) in plan.keep <==> NamedProtected(s, policy))
    && (Kept(Ref(s), Newest) in plan.keep <==> !NamedProtected(s, policy) && s in top)
    && (Kept(Ref(s), NotTerminal) in plan.keep <==> !NamedProtected(s, policy) && s !in top && !s.terminal)
    && (Kept(Ref(s), UnknownAge) in plan.keep <==> Expendable(s, policy, top) && !dated)
    && (Kept(Ref(s), Recent) in plan.keep <==> Expendable(s, policy, top) && dated && !longAgo)
    && (Ref(s) in plan.delete <==> Expendable(s, policy, top) && longAgo)
  }

  lemma {:induction false} SetOfDistinct(s: seq<Snapshot>)
    requires ValidIds(s)
    ensures |(set x | x in s)| == |s|
  {
    if s != [] {
      SetOfDistinct(s[1..]);
      assert (set x | x in s) == {s[0]} + set x | x in s[1..];
      assert s[0] !in s[1..];
    }
  }

  lemma AllTaken(managed: seq<Snapshot>, policy: Policy, idLe: (string, string) -> bool)
    requires TotalPreorder(idLe) && ValidIds(managed) && |Top(managed, policy, idLe)| < policy.keepLatest
    ensures forall s :: s in managed && ReadyAndDated(s) ==> s in Top(managed, policy, idLe)
  {
    RankingInOrder(managed, idLe);
  }

  lemma NewestAreTop(managed: seq<Snapshot>, policy: Policy, idLe: (string, string) -> bool)
    returns (top: set<Snapshot>)
    requires TotalPreorder(idLe) && ValidIds(managed)
    ensures IsNewest(top, (set s | s in managed), policy.keepLatest, idLe)
    ensures forall s :: s in managed ==> (s in top <==> s.id in Ids(Top(managed, policy, idLe)))
  {
    var best, rankable := Top(managed, policy, idLe), Filter(managed, IsRankable());
    TopIsBest(managed, policy, idLe);
    SetOfDistinct(best);
    top := set s | s in best;
    FilterContents(managed, IsRankable());
    forall s | s in managed ensures s in top <==> s.id in Ids(best) {
      if t :| t in best && t.id == s.id { SameIdSameSnapshot(managed, s, t); }
    }
    if |top| < policy.keepLatest { AllTaken(managed, policy, idLe); }
  }

  lemma KeptFor(managed: seq<Snapshot>, policy: Policy, newest: set<string>, nowMs: int, s: Snapshot,
                reason: KeepReason)
    requires ValidIds(managed) && s in managed
    ensures Kept(Ref(s), reason) in KeepList(managed, policy, newest, nowMs) <==>
            Reason(s, policy, newest, nowMs) == Some(reason)
  {
    if Kept(Ref(s), reason) in KeepList(managed, policy, newest, nowMs) {
      var t := KeptReference(managed, policy, newest, nowMs, Kept(Ref(s), reason));
      SameIdSameSnapshot(managed, s, t);
    }
    if Reason(s, policy, newest, nowMs) == Some(reason) { InKeepList(managed, policy, newest, nowMs, s); }
  }

  lemma DeletedFor(managed: seq<Snapshot>, policy: Policy, newest: set<string>, nowMs: int, s: Snapshot)
    requires ValidIds(managed) && s in managed
    ensures Ref(s) in DeleteList(managed, policy, newest, nowMs) <==> Reason(s, policy, newest, nowMs).None?
  {
    if Ref(s) in DeleteList(managed, policy, newest, nowMs) {
      var t := DoomedReference(managed, policy, newest, nowMs, Ref(s));
      SameIdSameSnapshot(managed, s, t);
    } else if Reason(s, policy, newest, nowMs).None? { InDeleteList(managed, policy, newest, nowMs, s); }
  }

  lemma JudgedTruly(managed: seq<Snapshot>, policy: Policy, nowMs: int, idLe: (string, string) -> bool,
                    top: set<Snapshot>, s: Snapshot)
    requires PlanManaged(managed, policy, nowMs, idLe).Ok? && s in managed
    requires s in top <==> s.id in Ids(Top(managed, policy, idLe))
    ensures Judged(s, policy, top, nowMs, PlanManaged(managed, policy, nowMs, idLe).value)
  {
    var newest := Ids(Top(managed, policy, idLe));
    KeptFor(managed, policy, newest, nowMs, s, Protected);
    KeptFor(managed, policy, newest, nowMs, s, Newest);
    KeptFor(managed, policy, newest, nowMs, s, NotTerminal);
    KeptFor(managed, policy, newest, nowMs, s, UnknownAge);
    KeptFor(managed, policy, newest, nowMs, s, Recent);
    DeletedFor(managed, policy, newest, nowMs, s);
  }

  /**
   * Of any inventory with a plan: some snapshots are the newest ready ones by creation time, as many as the
   * policy keeps or all there are, and each managed snapshot is judged by them and by its own times.
   */
  lemma PlanJudges(inventory: seq<Snapshot>, input: PolicyInput, nowMs: int, idLe: (string, string) -> bool)
    returns (policy: Policy, top: set<Snapshot>)
    requires TotalPreorder(idLe) && Plan(inventory, input, nowMs, idLe).Ok?
    ensures ValidatePolicy(input) == Ok(policy) && Plan(inventory, input, nowMs, idLe).value.provider == policy.provider
    ensures IsNewest(top, Managed(inventory, policy), policy.keepLatest, idLe)
    ensures forall s :: s in Managed(inventory, policy) ==>
              Judged(s, policy, top, nowMs, Plan(inventory, input, nowMs, idLe).value)
  {
    policy := ValidatePolicy(input).value;
    var managed := Filter(inventory, IsManaged(policy));
    ManagedPart(inventory, policy);
    top := NewestAreTop(managed, policy, idLe);
    assert (set s | s in managed) == Managed(inventory, policy);
    forall s | s in Managed(inventory, policy)
      ensures Judged(s, policy, top, nowMs, Plan(inventory, input, nowMs, idLe).value)
    {
      JudgedTruly(managed, policy, nowMs, idLe, top, s);
    }
  }

  lemma DeletesOnlyManaged(inventory: seq<Snapshot>, input: PolicyInput, nowMs: int, idLe: (string, string) -> bool,
                           policy: Policy, s: Snapshot)
    requires ValidatePolicy(input) == Ok(policy) && Plan(inventory, input, nowMs, idLe).Ok?
    requires s in inventory && Ref(s) in Plan(inventory, input, nowMs, idLe).value.delete
    ensures s in Managed(inventory, policy)
  {
    var managed := Filter(inventory, IsManaged(policy));
    var d := DoomedReference(managed, policy, Ids(Top(managed, policy, idLe)), nowMs, Ref(s));
    ManagedPart(inventory, policy);
    assert d.name == s.name;
  }

  /**
   * A ready snapshot is deleted only when as many others as the policy keeps are kept, all managed, all
   * ready, and each created later in milliseconds, or at the same time and with no later an ID.
   */
  lemma DeletedOnlyBelowNewer(inventory: seq<Snapshot>, input: PolicyInput, nowMs: int, idLe: (string, string) -> bool,
                              s: Snapshot) returns (policy: Policy, newer: set<Snapshot>)
    requires TotalPreorder(idLe) && Plan(inventory, input, nowMs, idLe).Ok?
    requires s in inventory && s.ready && Ref(s) in Plan(inventory, input, nowMs, idLe).value.delete
    ensures ValidatePolicy(input) == Ok(policy) && |newer| == policy.keepLatest && s !in newer
    ensures Manages(policy, s) && s.createdAt.Finite?
    ensures forall n | n in newer ::
              && n in inventory && Manages(policy, n) && n.ready && n.createdAt.Finite?
              && (n.createdAt.ms > s.createdAt.ms || (n.createdAt.ms == s.createdAt.ms && idLe(n.id, s.id)))
    ensures forall n :: n in newer ==>
              exists k :: k in Plan(inventory, input, nowMs, idLe).value.keep && k.reference == Ref(n)
  {
    policy, newer := PlanJudges(inventory, input, nowMs, idLe);
    var plan := Plan(inventory, input, nowMs, idLe).value;
    DeletesOnlyManaged(inventory, input, nowMs, idLe, policy, s);
    assert Judged(s, policy, newer, nowMs, plan);
    assert ReadyAndDated(s);
    forall n | n in newer ensures exists k :: k in plan.keep && k.reference == Ref(n) {
      assert Judged(n, policy, newer, nowMs, plan);
      assert Kept(Ref(n), if NamedProtected(n, policy) then Protected else Newest) in plan.keep;
    }
    forall n | n in newer ensures Outranks(n, s, idLe) {}
  }

  /** `newest` as a reason is given only to snapshots that outrank every ready one left to the other rules. */
  lemma NewestOutrankTheRest(inventory: seq<Snapshot>, input: PolicyInput, nowMs: int, idLe: (string, string) -> bool,
                             a: Snapshot, b: Snapshot) returns (policy: Policy)
    requires TotalPreorder(idLe) && Plan(inventory, input, nowMs, idLe).Ok?
    ensures ValidatePolicy(input) == Ok(policy)
    ensures var plan := Plan(inventory, input, nowMs, idLe).value;
            a in Managed(inventory, policy) && Kept(Ref(a), Newest) in plan.keep
            && b in Managed(inventory, policy) && b.ready && b.createdAt.Finite?
            && Kept(Ref(b), Newest) !in plan.keep && Kept(Ref(b), Protected) !in plan.keep
            ==> a.createdAt.Finite?
                && (a.createdAt.ms > b.createdAt.ms || (a.createdAt.ms == b.createdAt.ms && idLe(a.id, b.id)))
  {
    var top;
    policy, top := PlanJudges(inventory, input, nowMs, idLe);
    var plan := Plan(inventory, input, nowMs, idLe).value;
    if a in Managed(inventory, policy) && b in Managed(inventory, policy) {
      assert Judged(a, policy, top, nowMs, plan) && Judged(b, policy, top, nowMs, plan);
      assert a in top && ReadyAndDated(b) && b !in top ==> Outranks(a, b, idLe);
    }
  }

  /** `x` stands before `y`. */
  predicate InOrder(inventory: seq<Snapshot>, x: Reference, y: Reference) {
    exists i, j :: 0 <= i < j < |inventory| && Ref(inventory[i]) == x && Ref(inventory[j]) == y
  }

  lemma RefsInOrder(inventory: seq<Snapshot>, p: Snapshot -> bool, q: Snapshot -> bool, i: nat, j: nat)
    requires i < j < |Filter(Filter(inventory, p), q)|
    ensures InOrder(inventory, Ref(Filter(Filter(inventory, p), q)[i]), Ref(Filter(Filter(inventory, p), q)[j]))
  {
    var a, b := FilteredFrom(Filter(inventory, p), q, i, j);
    var c, d := FilteredFrom(inventory, p, a, b);
  }

  /** Both lists keep the order of the inventory, and together they are the managed snapshots. */
  lemma PlanListsInOrder(inventory: seq<Snapshot>, input: PolicyInput, nowMs: int, idLe: (string, string) -> bool)
    returns (policy: Policy)
    requires Plan(inventory, input, nowMs, idLe).Ok?
    ensures ValidatePolicy(input) == Ok(policy)
    ensures var plan := Plan(inventory, input, nowMs, idLe).value;
            && (forall i, j :: 0 <= i < j < |plan.delete| ==> InOrder(inventory, plan.delete[i], plan.delete[j]))
            && (forall i, j :: 0 <= i < j < |plan.keep| ==>
                  InOrder(inventory, plan.keep[i].reference, plan.keep[j].reference))
            && |plan.keep| + |plan.delete| == |Managed(inventory, policy)|
  {
    policy := ValidatePolicy(input).value;
    var managed := Filter(inventory, IsManaged(policy));
    var newest := Ids(Top(managed, policy, idLe));
    var plan := Plan(inventory, input, nowMs, idLe).value;
    forall i, j | 0 <= i < j < |plan.delete| ensures InOrder(inventory, plan.delete[i], plan.delete[j]) {
      RefsInOrder(inventory, IsManaged(policy), IsDoomed(policy, newest, nowMs), i, j);
    }
    FilterContents(managed, IsKept(policy, newest, nowMs));
    forall i, j | 0 <= i < j < |plan.keep|
      ensures InOrder(inventory, plan.keep[i].reference, plan.keep[j].reference)
    {
      RefsInOrder(inventory, IsManaged(policy), IsKept(policy, newest, nowMs), i, j);
    }
    ManagedPart(inventory, policy);
    SetOfDistinct(managed);
    assert (set s | s in managed) == Managed(inventory, policy);
    KeepAndDeletePartition(managed, policy, newest, nowMs);
  }
}
