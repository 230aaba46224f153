/**
 * Which base snapshots a retention policy deletes. The plan is a function of the inventory, the
 * policy and the time; `idLe` is the locale order of snapshot IDs, of which only totality and
 * transitivity are used.
 */
module Retention {
  import opened Options
  import opened JsText
  import opened StableSort

  const MAX_SAFE_INTEGER := 9_007_199_254_740_991
  const DEFAULT_KEEP_LATEST := 5
  const DEFAULT_MIN_AGE_MS := 604_800_000

  datatype Provider = Vercel | Daytona

  /** A property of an unvalidated policy: not given, of another type, or given. */
  datatype Field<+T> = Absent | Mistyped | Given(value: T)

  datatype PolicyInput = PolicyInput(
    provider: Field<string>, prefix: Field<string>, protectedReferences: Field<seq<string>>,
    keepLatest: Field<int>, minAgeMs: Field<int>)

  datatype Policy = Policy(provider: Provider, prefix: string, protectedReferences: seq<string>,
                           keepLatest: nat, minAgeMs: nat)

  datatype PolicyError = BadProvider | BadPrefix | BadProtectedReferences | BadKeepLatest | BadMinAge

  /** Milliseconds since the epoch, or a timestamp that is not a finite number. */
  datatype Time = Finite(ms: int) | NonFinite

  datatype Snapshot = Snapshot(id: string, name: string, createdAt: Time, lastUsedAt: Option<Time>,
                               ready: bool, terminal: bool)

  datatype Reference = Reference(id: string, name: string)

  datatype KeepReason = Protected | Newest | NotTerminal | UnknownAge | Recent

  datatype Kept = Kept(reference: Reference, reason: KeepReason)

  datatype CleanupPlan = CleanupPlan(provider: Provider, keep: seq<Kept>, delete: seq<Reference>)

  datatype PlanError =
    | PolicyInvalid(error: PolicyError)
    | InvalidOrDuplicateId
    | UnmatchedReferences(references: seq<string>)

  // ----- the policy -----

  predicate ValidPrefix(p: string) {
    && p != "" && (Letter(p[0]) || Digit(p[0]))
    && forall c :: c in p ==> Letter(c) || Digit(c) || c == '_' || c == '-'
  }

  function OrDefault<T>(f: Field<T>, d: T): Field<T> {
    if f.Absent? then Given(d) else f
  }

  function ValidatePolicy(input: PolicyInput): Result<Policy, PolicyError> {
    if !(input.provider.Given? && input.provider.value in {"vercel", "daytona"}) then Err(BadProvider) else
    var provider := if input.provider.value == "vercel" then Vercel else Daytona;
    var prefix := if provider.Vercel? then OrDefault(input.prefix, "openinspect-base") else input.prefix;
    if !(prefix.Given? && ValidPrefix(prefix.value)) then Err(BadPrefix) else
    var refs := input.protectedReferences;
    if !(refs.Given? && refs.value != [] && forall r :: r in refs.value ==> r != "" && r == Trim(r)) then
      Err(BadProtectedReferences) else
    var keepLatest := OrDefault(input.keepLatest, DEFAULT_KEEP_LATEST);
    if !(keepLatest.Given? && 1 <= keepLatest.value <= MAX_SAFE_INTEGER) then Err(BadKeepLatest) else
    var minAgeMs := OrDefault(input.minAgeMs, DEFAULT_MIN_AGE_MS);
    if !(minAgeMs.Given? && 0 <= minAgeMs.value <= MAX_SAFE_INTEGER) then Err(BadMinAge) else
    Ok(Policy(provider, prefix.value, refs.value, keepLatest.value, minAgeMs.value))
  }

  // ----- managed names -----

  /** A dash and the sixteen hexadecimal digits every managed name ends with. */
  predicate HashTail(s: string) {
    |s| == 17 && s[0] == '-' && forall k :: 1 <= k < 17 ==> HexLower(s[k])
  }

  /** What follows the prefix: a generation number on Daytona, then the hash. */
  predicate ManagedSuffix(provider: Provider, s: string) {
    && |s| >= 17 && HashTail(s[|s| - 17..])
    && match provider
       case Vercel => |s| == 17
       case Daytona => |s| >= 20 && s[0] == '-' && s[1] == 'm' && '1' <= s[2] <= '9'
                       && forall k :: 3 <= k < |s| - 17 ==> Digit(s[k])
  }

  predicate ManagedName(provider: Provider, prefix: string, name: string) {
    prefix <= name && ManagedSuffix(provider, name[|prefix|..])
  }

  /** Of a managed suffix, no shorter end is one. */
  lemma SuffixIsWhole(provider: Provider, s: string, k: nat)
    requires ManagedSuffix(provider, s) && 0 < k <= |s|
    ensures !ManagedSuffix(provider, s[k..])
  {
    var part := s[k..];
    if provider.Daytona? && |part| >= 20 {
      assert part[0] == s[k] && part[1] == s[k + 1];
      assert k == 1 || Digit(s[k + 1]);
    }
  }

  lemma LongerPrefixManagesOthers(provider: Provider, p: string, q: string, name: string)
    requires ManagedName(provider, p, name) && |p| < |q| <= |name|
    ensures !ManagedName(provider, q, name)
  {
    SuffixIsWhole(provider, name[|p|..], |q| - |p|);
    assert name[|q|..] == name[|p|..][|q| - |p|..];
  }

  /** No snapshot is managed under two prefixes of one provider. */
  lemma ManagedUnderOnePrefix(provider: Provider, p: string, q: string, name: string)
    requires ManagedName(provider, p, name) && ManagedName(provider, q, name)
    ensures p == q
  {
    if |p| < |q| { LongerPrefixManagesOthers(provider, p, q, name); }
    if |q| < |p| { LongerPrefixManagesOthers(provider, q, p, name); }
    assert p == name[..|p|] && q == name[..|q|];
  }

  // ----- the plan -----

  function Ref(s: Snapshot): Reference { Reference(s.id, s.name) }

  function IsManaged(policy: Policy): Snapshot -> bool {
    (s: Snapshot) => ManagedName(policy.provider, policy.prefix, s.name)
  }

  predicate ValidIds(managed: seq<Snapshot>) {
    && (forall i :: 0 <= i < |managed| ==> managed[i].id != "")
    && (forall i, j :: 0 <= i < j < |managed| ==> managed[i].id != managed[j].id)
  }

  predicate Matches(s: Snapshot, reference: string) {
    s.id == reference || s.name == reference
  }

  predicate Matched(managed: seq<Snapshot>, reference: string) {
    exists i :: 0 <= i < |managed| && Matches(managed[i], reference)
  }

  /** The first occurrence of every element. */
  function Distinct(s: seq<string>): seq<string> {
    if s == [] then [] else
    var before := Distinct(s[..|s| - 1]);
    if s[|s| - 1] in before then before else before + [s[|s| - 1]]
  }

  function Unmatched(managed: seq<Snapshot>, policy: Policy): seq<string> {
    Filter(Distinct(policy.protectedReferences), r => !Matched(managed, r))
  }

  function Millis(t: Time): int { if t.Finite? then t.ms else 0 }

  /** The newest first; the earlier ID first among equally new ones. */
  function RankLe(idLe: (string, string) -> bool): (Snapshot, Snapshot) -> bool {
    (a: Snapshot, b: Snapshot) =>
      Millis(a.createdAt) > Millis(b.createdAt) || (Millis(a.createdAt) == Millis(b.createdAt) && idLe(a.id, b.id))
  }

  function IsRankable(): Snapshot -> bool {
    (s: Snapshot) => s.ready && s.createdAt.Finite?
  }

  function Ranking(managed: seq<Snapshot>, idLe: (string, string) -> bool): seq<Snapshot> {
    Sort(Filter(managed, IsRankable()), RankLe(idLe))
  }

  function Take<T>(s: seq<T>, n: nat): seq<T> {
    if n <= |s| then s[..n] else s
  }

  function Top(managed: seq<Snapshot>, policy: Policy, idLe: (string, string) -> bool): seq<Snapshot> {
    Take(Ranking(managed, idLe), policy.keepLatest)
  }

  function Ids(s: seq<Snapshot>): set<string> {
    set x | x in s :: x.id
  }

  predicate IsProtected(s: Snapshot, policy: Policy) {
    s.id in policy.protectedReferences || s.name in policy.protectedReferences
  }

  function Max(a: int, b: int): int { if a >= b then a else b }

  /** Why a managed snapshot is kept, or `None` when it is to be deleted. */
  function Reason(s: Snapshot, policy: Policy, newest: set<string>, nowMs: int): Option<KeepReason> {
    if IsProtected(s, policy) then Some(Protected)
    else if s.id in newest then Some(Newest)
    else if !s.terminal then Some(NotTerminal)
    else if s.createdAt.NonFinite? || (s.lastUsedAt.Some? && s.lastUsedAt.value.NonFinite?) then Some(UnknownAge)
    else if nowMs - Max(s.createdAt.ms, if s.lastUsedAt.Some? then s.lastUsedAt.value.ms else 0) < policy.minAgeMs
    then Some(Recent)
    else None
  }

  function IsKept(policy: Policy, newest: set<string>, nowMs: int): Snapshot -> bool {
    (s: Snapshot) => Reason(s, policy, newest, nowMs).Some?
  }

  function IsDoomed(policy: Policy, newest: set<string>, nowMs: int): Snapshot -> bool {
    (s: Snapshot) => Reason(s, policy, newest, nowMs).None?
  }

  function Refs(s: seq<Snapshot>): (r: seq<Reference>)
    ensures |r| == |s| && forall k :: 0 <= k < |s| ==> r[k] == Ref(s[k])
  {
    if s == [] then [] else Refs(s[..|s| - 1]) + [Ref(s[|s| - 1])]
  }

  function KeptEntries(s: seq<Snapshot>, policy: Policy, newest: set<string>, nowMs: int): (r: seq<Kept>)
    requires forall x :: x in s ==> Reason(x, policy, newest, nowMs).Some?
    ensures |r| == |s|
    ensures forall k :: 0 <= k < |s| ==> r[k] == Kept(Ref(s[k]), Reason(s[k], policy, newest, nowMs).value)
  {
    if s == [] then [] else
    KeptEntries(s[..|s| - 1], policy, newest, nowMs)
    + [Kept(Ref(s[|s| - 1]), Reason(s[|s| - 1], policy, newest, nowMs).value)]
  }

  function KeepList(managed: seq<Snapshot>, policy: Policy, newest: set<string>, nowMs: int): seq<Kept> {
    FilterContents(managed, IsKept(policy, newest, nowMs));
    KeptEntries(Filter(managed, IsKept(policy, newest, nowMs)), policy, newest, nowMs)
  }

  function DeleteList(managed: seq<Snapshot>, policy: Policy, newest: set<string>, nowMs: int): seq<Reference> {
    Refs(Filter(managed, IsDoomed(policy, newest, nowMs)))
  }

  function PlanManaged(managed: seq<Snapshot>, policy: Policy, nowMs: int, idLe: (string, string) -> bool)
    : Result<CleanupPlan, PlanError>
  {
    if !ValidIds(managed) then Err(InvalidOrDuplicateId)
    else if Unmatched(managed, policy) != [] then Err(UnmatchedReferences(Unmatched(managed, policy)))
    else var newest := Ids(Top(managed, policy, idLe));
         Ok(CleanupPlan(policy.provider, KeepList(managed, policy, newest, nowMs),
                        DeleteList(managed, policy, newest, nowMs)))
  }

  function Plan(inventory: seq<Snapshot>, input: PolicyInput, nowMs: int, idLe: (string, string) -> bool)
    : Result<CleanupPlan, PlanError>
  {
    match ValidatePolicy(input)
    case Err(e) => Err(PolicyInvalid(e))
    case Ok(policy) => PlanManaged(Filter(inventory, IsManaged(policy)), policy, nowMs, idLe)
  }
}
