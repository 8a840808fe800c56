/** Validation of an authoritative routing plan before anything runs
    (ovk/core/authoritative_runtime.py, with the identities of ovk/core/routing_pipeline.py). */
module PlanValidation {
  import opened Ordering
  import opened Text
  import opened ExecutionModels

  /** A caller-visible obligation. `content` stands for job id, input format and input. An
      absent intent is the empty string, which the source treats alike. */
  datatype RawObligation = RawObligation(lane: string, intentId: string, content: string)

  const LANE_TO_INTENT := map[
    "self_protection" := "agent-cannot-disable-own-ci-gate",
    "authorization" := "no-admin-route-bypass",
    "infrastructure" := "no-public-sensitive-resource",
    "ci_secrets" := "no-secrets-in-untrusted-context",
    "deployment" := "no-skipped-approval-state"]

  function IntentOf(item: RawObligation): string {
    if item.intentId != "" then item.intentId
    else if item.lane in LANE_TO_INTENT then LANE_TO_INTENT[item.lane] else item.lane
  }

  /** The plan, with its instance key, a truncated digest, left uninterpreted. */
  datatype Plan = Plan(
    typed: map<string, Obligation>, routing: map<string, Routing>, intents: map<string, string>,
    instanceKey: RawObligation -> string)

  datatype Revision = Revision(repo: string, headSha: string, baseSha: Option<string>)

  // ------------------------------------------------------------------- one route

  predicate SubjectMatches(subject: Subject, revision: Revision) {
    && subject.repo == revision.repo && subject.headSha == revision.headSha
    && (revision.baseSha.Some? ==> subject.baseSha == revision.baseSha)
  }

  /** `{item.backend: item for item in eligible}`: the last candidate of a backend wins. */
  function EligibleByBackend(eligible: seq<Candidate>): (m: map<string, Candidate>)
    ensures m.Keys == set c | c in eligible :: c.backend
    ensures forall b :: b in m ==> m[b] in eligible && m[b].backend == b
  {
    if eligible == [] then map[] else
      var last := eligible[|eligible| - 1];
      assert eligible == eligible[..|eligible| - 1] + [last];
      EligibleByBackend(eligible[..|eligible| - 1])[last.backend := last]
  }

  predicate SelectionMatches(s: Selection, routing: Routing) {
    var eligible := EligibleByBackend(routing.eligible);
    && s.backend in routing.requested && s.backend in eligible && s.backend !in routing.rejected
    && s.expectedGuarantee == eligible[s.backend].guaranteeType
  }

  function SelectedIds(routing: Routing): seq<string> {
    Map((s: Selection) => s.backend, routing.selected)
  }

  ghost predicate RouteMatches(routing: Routing, typed: Obligation) {
    && routing.obligationId == typed.obligationId && routing.policyDigest == typed.policyDigest
      && routing.routingId != ""
    && Distinct(SelectedIds(routing))
    && forall s :: s in routing.selected ==> SelectionMatches(s, routing)
  }

  method ValidateRoute(routing: Routing, typed: Obligation) returns (r: Result<()>)
    ensures r.Ok? <==> RouteMatches(routing, typed)
  {
    hide EligibleByBackend;
    if routing.obligationId != typed.obligationId {
      return Raised;
    }
    if routing.policyDigest != typed.policyDigest {
      return Raised;
    }
    if routing.routingId == "" {
      return Raised;
    }
    var requested := set b | b in routing.requested;
    var eligible := EligibleByBackend(routing.eligible);
    var rejected := set b | b in routing.rejected;
    var selectedIds := SelectedIds(routing);
    DistinctByCount(selectedIds);
    if |selectedIds| != |Members(selectedIds)| {
      return Raised;
    }
    for i := 0 to |routing.selected|
      invariant forall j :: 0 <= j < i ==> SelectionMatches(routing.selected[j], routing)
    {
      var s := routing.selected[i];
      assert s in routing.selected;
      if s.backend !in requested {
        return Raised;
      }
      if s.backend !in eligible {
        return Raised;
      }
      if s.backend in rejected {
        return Raised;
      }
      if s.expectedGuarantee != eligible[s.backend].guaranteeType {
        return Raised;
      }
    }
    r := Ok(());
  }

  // -------------------------------------------------------------------- the plan

  predicate IsProduction(item: RawObligation) { item.lane in LANE_TO_INTENT }

  /** Everything one production obligation demands of the plan. */
  ghost predicate InstanceMatches(item: RawObligation, plan: Plan, revision: Revision) {
    var key := plan.instanceKey(item);
    && key in plan.typed && key in plan.routing && key in plan.intents
    && plan.intents[key] == IntentOf(item) && plan.typed[key].intentId == IntentOf(item)
    && SubjectMatches(plan.typed[key].subject, revision)
    && RouteMatches(plan.routing[key], plan.typed[key])
  }

  /** The instance keys of the production obligations, in order. */
  function InstanceKeys(obligations: seq<RawObligation>, plan: Plan): seq<string> {
    Map((item: RawObligation) => plan.instanceKey(item), Filter(IsProduction, obligations))
  }

  /** The plan covers exactly the production obligations, each once, and each checks out. */
  ghost predicate PlanMatches(obligations: seq<RawObligation>, plan: Plan, revision: Revision) {
    var keys := InstanceKeys(obligations, plan);
    && Distinct(keys)
    && plan.typed.Keys == plan.routing.Keys == plan.intents.Keys == Members(keys)
    && forall item :: item in obligations && IsProduction(item) ==> InstanceMatches(item, plan, revision)
  }

  method ValidateInstance(item: RawObligation, plan: Plan, revision: Revision) returns (r: Result<()>)
    ensures r.Ok? <==> InstanceMatches(item, plan, revision)
  {
    var intent, key := IntentOf(item), plan.instanceKey(item);
    if key !in plan.typed {
      return Raised;
    }
    if key !in plan.routing {
      return Raised;
    }
    if key !in plan.intents || plan.intents[key] != intent {
      return Raised;
    }
    if plan.typed[key].intentId != intent {
      return Raised;
    }
    var subject := plan.typed[key].subject;
    if subject.repo != revision.repo || subject.headSha != revision.headSha {
      return Raised;
    }
    if revision.baseSha.Some? && subject.baseSha != revision.baseSha {
      return Raised;
    }
    r := ValidateRoute(plan.routing[key], plan.typed[key]);
  }

  method ValidateAuthoritativePlan(obligations: seq<RawObligation>, plan: Plan, revision: Revision)
      returns (r: Result<()>)
    ensures r.Ok? <==> PlanMatches(obligations, plan, revision)
  {
    hide InstanceMatches, InstanceKeys, Distinct;
    var expected: set<string> := {};
    ghost var keys := InstanceKeys(obligations, plan);
    NoKeys(plan);
    for i := 0 to |obligations|
      invariant Distinct(InstanceKeys(obligations[..i], plan))
      invariant expected == Members(InstanceKeys(obligations[..i], plan))
      invariant InstanceKeys(obligations[..i], plan) <= keys
      invariant forall item :: item in obligations[..i] && IsProduction(item) ==> InstanceMatches(item, plan, revision)
    {
      var item := obligations[i];
      KeysSnoc(obligations, i, plan);
      if item.lane !in LANE_TO_INTENT {
        continue;
      }
      var key := plan.instanceKey(item);
      if key in expected {
        RepeatedKey(InstanceKeys(obligations[..i], plan), key, keys);
        return Raised;
      }
      DistinctSnoc(InstanceKeys(obligations[..i], plan), key);
      expected := expected + {key};
      var checked := ValidateInstance(item, plan, revision);
      if checked.Raised? {
        assert item in obligations;
        return Raised;
      }
    }
    assert obligations[..|obligations|] == obligations;
    forall k | k in keys ensures k in plan.typed && k in plan.routing && k in plan.intents {
      KeyIsMatched(obligations, plan, revision, k);
    }
    assert expected == Members(keys);
    r := RefuseExtras(plan, expected);
  }

  /** Routes and intents that no production obligation asked for. */
  method RefuseExtras(plan: Plan, expected: set<string>) returns (r: Result<()>)
    requires expected <= plan.typed.Keys && expected <= plan.routing.Keys && expected <= plan.intents.Keys
    ensures r.Ok? <==> plan.typed.Keys == plan.routing.Keys == plan.intents.Keys == expected
  {
    if plan.typed.Keys - expected != {} || plan.routing.Keys - expected != {} || plan.intents.Keys - expected != {} {
      return Raised;
    }
    NoExtras(plan.typed.Keys, expected);
    NoExtras(plan.routing.Keys, expected);
    NoExtras(plan.intents.Keys, expected);
    r := Ok(());
  }

  lemma NoExtras(keys: set<string>, expected: set<string>)
    requires keys - expected == {} && expected <= keys
    ensures keys == expected
  {
    forall k | k in keys ensures k in expected { assert k !in expected ==> k in keys - expected; }
  }

  /** The prefix of the keys after one more obligation. */
  lemma KeysSnoc(obligations: seq<RawObligation>, i: nat, plan: Plan)
    requires i < |obligations|
    ensures var seen := InstanceKeys(obligations[..i], plan);
      InstanceKeys(obligations[..i + 1], plan)
        == if IsProduction(obligations[i]) then seen + [plan.instanceKey(obligations[i])] else seen
    ensures InstanceKeys(obligations[..i + 1], plan) <= InstanceKeys(obligations, plan)
    ensures forall item :: item in obligations[..i + 1] <==> item in obligations[..i] || item == obligations[i]
  {
    hide *;
    var front, item, back := obligations[..i], obligations[i], obligations[i + 1..];
    assert obligations[..i + 1] == front + [item];
    assert obligations == (front + [item]) + back;
    KeysConcat(front, [item], plan);
    KeysConcat(front + [item], back, plan);
    KeysOfOne(item, plan);
  }

  lemma KeysOfOne(item: RawObligation, plan: Plan)
    ensures InstanceKeys([item], plan) == if IsProduction(item) then [plan.instanceKey(item)] else []
  {
  }

  lemma KeysConcat(a: seq<RawObligation>, b: seq<RawObligation>, plan: Plan)
    ensures InstanceKeys(a + b, plan) == InstanceKeys(a, plan) + InstanceKeys(b, plan)
  {
    hide Filter, Map;
    FilterConcat(IsProduction, a, b);
    MapConcat((x: RawObligation) => plan.instanceKey(x), Filter(IsProduction, a), Filter(IsProduction, b));
  }

  lemma NoKeys(plan: Plan)
    ensures InstanceKeys([], plan) == [] && Distinct(InstanceKeys([], plan))
  {
  }

  lemma RepeatedKey(seen: seq<string>, key: string, keys: seq<string>)
    requires key in seen && seen + [key] <= keys
    ensures !Distinct(keys)
  {
    var j :| 0 <= j < |seen| && seen[j] == key;
    assert keys[j] == keys[|seen|];
  }

  lemma KeyIsMatched(obligations: seq<RawObligation>, plan: Plan, revision: Revision, k: string)
    requires k in InstanceKeys(obligations, plan)
    requires forall item :: item in obligations && IsProduction(item) ==> InstanceMatches(item, plan, revision)
    ensures k in plan.typed && k in plan.routing && k in plan.intents
  {
    hide RouteMatches, SubjectMatches;
    var items, keys := Filter(IsProduction, obligations), InstanceKeys(obligations, plan);
    var i :| 0 <= i < |keys| && keys[i] == k;
    assert items[i] in items;
  }

  // ------------------------------------------------------------------- theorems

  /** An accepted plan is in bijection with the production obligations: as many entries as
      obligations, and each entry belongs to exactly one of them. */
  lemma AcceptedBijection(obligations: seq<RawObligation>, plan: Plan, revision: Revision, key: string)
    requires PlanMatches(obligations, plan, revision)
    ensures |plan.typed| == |plan.routing| == |plan.intents| == |Filter(IsProduction, obligations)|
    ensures key in plan.typed ==>
      exists i :: 0 <= i < |InstanceKeys(obligations, plan)| && InstanceKeys(obligations, plan)[i] == key
        && forall j :: 0 <= j < |InstanceKeys(obligations, plan)| && j != i ==>
          InstanceKeys(obligations, plan)[j] != key
  {
    hide InstanceMatches;
    var keys := InstanceKeys(obligations, plan);
    DistinctByCount(keys);
    assert |plan.typed| == |plan.typed.Keys| && |plan.routing| == |plan.routing.Keys|
      && |plan.intents| == |plan.intents.Keys|;
    if key in plan.typed {
      var i :| 0 <= i < |keys| && keys[i] == key;
      assert forall j :: 0 <= j < |keys| && j != i ==> keys[j] != key;
    }
  }

  // ------------------------------------------------- acceptance, in the plan's own fields

  /** The five production lanes, and what each of them stands for when no intent is named. */
  lemma IntentExactly(item: RawObligation)
    ensures IsProduction(item) <==>
      item.lane in {"self_protection", "authorization", "infrastructure", "ci_secrets", "deployment"}
    ensures item.intentId != "" ==> IntentOf(item) == item.intentId
    ensures item.intentId == "" ==>
      && (item.lane == "self_protection" ==> IntentOf(item) == "agent-cannot-disable-own-ci-gate")
      && (item.lane == "authorization" ==> IntentOf(item) == "no-admin-route-bypass")
      && (item.lane == "infrastructure" ==> IntentOf(item) == "no-public-sensitive-resource")
      && (item.lane == "ci_secrets" ==> IntentOf(item) == "no-secrets-in-untrusted-context")
      && (item.lane == "deployment" ==> IntentOf(item) == "no-skipped-approval-state")
      && (!IsProduction(item) ==> IntentOf(item) == item.lane)
  {
    LanesDiffer();
  }

  lemma LanesDiffer()
    ensures "self_protection" != "authorization" && "self_protection" != "infrastructure"
    ensures "self_protection" != "ci_secrets" && "self_protection" != "deployment"
    ensures "authorization" != "infrastructure" && "authorization" != "ci_secrets" && "authorization" != "deployment"
    ensures "infrastructure" != "ci_secrets" && "infrastructure" != "deployment" && "ci_secrets" != "deployment"
  {
    assert "self_protection"[0] == 's' && "authorization"[0] == 'a' && "infrastructure"[0] == 'i'
      && "ci_secrets"[0] == 'c' && "deployment"[0] == 'd';
  }

  /** The candidate that is looked up is the last of its backend. */
  lemma {:induction false} EligibleExactly(eligible: seq<Candidate>, c: Candidate)
    ensures IsLast((x: Candidate) => x.backend, eligible, c) <==>
      c.backend in EligibleByBackend(eligible) && EligibleByBackend(eligible)[c.backend] == c
  {
    hide IsLast;
    if eligible == [] {
      NothingLast((x: Candidate) => x.backend, c);
    } else {
      var n := |eligible| - 1;
      assert eligible == eligible[..n] + [eligible[n]];
      EligibleSnoc(eligible[..n], eligible[n]);
      hide *;
      EligibleExactly(eligible[..n], c);
      LastSnoc((x: Candidate) => x.backend, eligible[..n], eligible[n], c);
    }
  }

  lemma EligibleSnoc(front: seq<Candidate>, last: Candidate)
    ensures EligibleByBackend(front + [last]) == EligibleByBackend(front)[last.backend := last]
  {
    assert (front + [last])[..|front|] == front;
  }

  /** What makes a route acceptable, field by field: it names its obligation and policy, selects no
      backend twice, and selects only requested, unrejected backends whose last eligible candidate
      gives the very guarantee that the selection expects. */
  lemma RouteExactly(routing: Routing, typed: Obligation)
    ensures RouteMatches(routing, typed) <==>
      && routing.obligationId == typed.obligationId && routing.policyDigest == typed.policyDigest
      && routing.routingId != ""
      && (forall i, j :: 0 <= i < j < |routing.selected| ==> routing.selected[i].backend != routing.selected[j].backend)
      && forall s :: s in routing.selected ==>
           && s.backend in routing.requested && s.backend !in routing.rejected
           && IsLast((x: Candidate) => x.backend, routing.eligible, Candidate(s.backend, s.expectedGuarantee))
  {
    hide EligibleByBackend, IsLast;
    forall c ensures IsLast((x: Candidate) => x.backend, routing.eligible, c) <==>
      c.backend in EligibleByBackend(routing.eligible) && EligibleByBackend(routing.eligible)[c.backend] == c {
      EligibleExactly(routing.eligible, c);
    }
    var ids := SelectedIds(routing);
    assert forall i :: 0 <= i < |ids| ==> ids[i] == routing.selected[i].backend;
    assert Distinct(ids) <==> forall i, j :: 0 <= i < j < |routing.selected| ==>
      routing.selected[i].backend != routing.selected[j].backend;
  }

  /** What one obligation of an accepted plan is guaranteed: its recorded and its typed intent are
      the ones it stands for, and its subject is the revision under test. */
  lemma InstanceExactly(item: RawObligation, plan: Plan, revision: Revision)
    ensures InstanceMatches(item, plan, revision) <==>
      var key := plan.instanceKey(item);
      && key in plan.typed && key in plan.routing && key in plan.intents
      && plan.intents[key] == IntentOf(item) == plan.typed[key].intentId
      && plan.typed[key].subject.repo == revision.repo && plan.typed[key].subject.headSha == revision.headSha
      && (revision.baseSha.None? || plan.typed[key].subject.baseSha == revision.baseSha)
      && RouteMatches(plan.routing[key], plan.typed[key])
  {
  }

  /** Acceptance of a plan, in the obligations' own terms: production obligations have different
      instance keys, each key is in all three maps, no other key is in any, and each obligation
      checks out. */
  lemma PlanExactly(obligations: seq<RawObligation>, plan: Plan, revision: Revision)
    ensures PlanMatches(obligations, plan, revision) <==>
      && (forall i, j :: 0 <= i < j < |obligations| && IsProduction(obligations[i]) && IsProduction(obligations[j]) ==>
            plan.instanceKey(obligations[i]) != plan.instanceKey(obligations[j]))
      && (forall key :: key in plan.typed || key in plan.routing || key in plan.intents ==>
            exists item :: item in obligations && IsProduction(item) && plan.instanceKey(item) == key)
      && (forall item :: item in obligations && IsProduction(item) ==> InstanceMatches(item, plan, revision))
  {
    hide IsProduction, InstanceMatches, InstanceKeys, Distinct;
    KeysDistinct(obligations, plan);
    var keys := InstanceKeys(obligations, plan);
    forall key ensures key in keys <==> exists item ::
      item in obligations && IsProduction(item) && plan.instanceKey(item) == key {
      KeysAre(obligations, plan, key);
    }
    forall item | InstanceMatches(item, plan, revision)
      ensures var key := plan.instanceKey(item); key in plan.typed && key in plan.routing && key in plan.intents {
      InstanceExactly(item, plan, revision);
    }
  }

  lemma KeysAre(obligations: seq<RawObligation>, plan: Plan, key: string)
    ensures key in InstanceKeys(obligations, plan) <==>
      exists item :: item in obligations && IsProduction(item) && plan.instanceKey(item) == key
  {
    hide IsProduction;
    var items, keys := Filter(IsProduction, obligations), InstanceKeys(obligations, plan);
    assert |keys| == |items| && forall i :: 0 <= i < |keys| ==> keys[i] == plan.instanceKey(items[i]);
    if i :| 0 <= i < |keys| && keys[i] == key { assert items[i] in items; }
    if item :| item in items && plan.instanceKey(item) == key {
      var i :| 0 <= i < |items| && items[i] == item;
      assert keys[i] == key;
    }
  }

  lemma {:induction false} KeysDistinct(obligations: seq<RawObligation>, plan: Plan)
    ensures Distinct(InstanceKeys(obligations, plan)) <==> forall i, j ::
      0 <= i < j < |obligations| && IsProduction(obligations[i]) && IsProduction(obligations[j]) ==>
      plan.instanceKey(obligations[i]) != plan.instanceKey(obligations[j])
  {
    hide IsProduction, InstanceKeys;
    if obligations == [] {
      NoKeys(plan);
    } else {
      var n := |obligations| - 1;
      var front, last := obligations[..n], obligations[n];
      KeysDistinct(front, plan);
      KeysSnoc(obligations, n, plan);
      assert obligations[..n + 1] == obligations;
      forall key ensures key in InstanceKeys(front, plan) <==> exists item ::
        item in front && IsProduction(item) && plan.instanceKey(item) == key {
        KeysAre(front, plan, key);
      }
      DistinctOneMore(InstanceKeys(front, plan), plan.instanceKey(last));
      assert forall item :: item in front <==> exists i :: 0 <= i < n && obligations[i] == item;
      assert forall i :: 0 <= i < n ==> front[i] == obligations[i];
    }
  }

  lemma DistinctOneMore(s: seq<string>, x: string)
    ensures Distinct(s + [x]) <==> Distinct(s) && x !in s
  {
    if Distinct(s + [x]) {
      assert forall i :: 0 <= i < |s| ==> (s + [x])[i] == s[i] != (s + [x])[|s|];
    }
  }
}
