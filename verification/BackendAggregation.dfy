/** Fail-dominant aggregation of backend results (ovk/core/backend_aggregation.py). */
module BackendAggregation {
  import opened Ordering
  import opened Text
  import opened Decision
  import opened ExecutionModels

  datatype Verdict = Verdict(used: bool, accepted: bool, cause: Option<Termination>)

  datatype Aggregation = Aggregation(
    status: Status, decisionState: State, originalState: State, recommendation: Recommendation,
    controllingIds: seq<string>, qualityError: bool, fallback: Verdict)

  // ------------------------------------------------------------------- fallback

  predicate IsBlocking(t: Termination) {
    t in {Timeout, ToolError, InvalidOutput, ResourceExhausted}
  }

  /** `next((item for item in results if item.backend == backend), None)` */
  function FirstResult(results: seq<BackendResult>, backend: string): (r: Option<BackendResult>)
    ensures r.Some? ==> r.value in results && r.value.backend == backend
    ensures r.None? <==> forall x :: x in results ==> x.backend != backend
  {
    if results == [] then None
    else if results[0].backend == backend then Some(results[0])
    else FirstResult(results[1..], backend)
  }

  /** `{item.backend: item for item in attempts}.get(backend)`: the last attempt wins. */
  function LastAttempt(attempts: seq<Attempt>, backend: string): (r: Option<Attempt>)
    ensures r.Some? ==> r.value in attempts && r.value.backend == backend
    ensures r.None? <==> forall x :: x in attempts ==> x.backend != backend
  {
    if attempts == [] then None
    else if attempts[|attempts| - 1].backend == backend then Some(attempts[|attempts| - 1])
    else
      assert attempts == attempts[..|attempts| - 1] + [attempts[|attempts| - 1]];
      LastAttempt(attempts[..|attempts| - 1], backend)
  }

  function TerminationOf(attempts: seq<Attempt>, backend: string): Option<Termination> {
    var attempt := LastAttempt(attempts, backend);
    if attempt.Some? then Some(attempt.value.termination) else None
  }

  /** The selection is required and its result passed with an unacceptable guarantee. */
  predicate NeedsFallback(s: Selection, attempts: seq<Attempt>, results: seq<BackendResult>, acceptable: set<string>) {
    var result, attempt := FirstResult(results, s.backend), LastAttempt(attempts, s.backend);
    s.required && result.Some? && attempt.Some? && result.value.status == Pass
      && result.value.guaranteeType !in acceptable
  }

  /** What a weaker guarantee must meet to stand in for an acceptable one. */
  predicate Qualifies(policy: FallbackPolicy, backend: string, t: Termination, guarantee: string) {
    && !IsBlocking(t)
    && policy.allowFallback
    && policy.OutcomeForTermination(t) !in {ToFail, ToError}
    && (policy.fallbackBackends == [] || backend in policy.fallbackBackends)
    && (policy.acceptableFallbackGuarantees == [] || guarantee in policy.acceptableFallbackGuarantees)
  }

  predicate FallbackQualifies(policy: FallbackPolicy, s: Selection, attempts: seq<Attempt>,
      results: seq<BackendResult>) {
    var result, attempt := FirstResult(results, s.backend), LastAttempt(attempts, s.backend);
    result.Some? && attempt.Some? && Qualifies(policy, s.backend, attempt.value.termination, result.value.guaranteeType)
  }

  /** `k` is the selection whose termination is reported as the cause: the first that does
      not qualify, or else the last that needed fallback. */
  ghost predicate IsCause(k: nat, accepted: bool, needs: seq<bool>, qualifies: seq<bool>)
    requires k < |needs| == |qualifies|
  {
    && needs[k]
    && if accepted then forall j :: k < j < |needs| ==> !needs[j]
       else !qualifies[k] && forall j :: 0 <= j < k && needs[j] ==> qualifies[j]
  }

  ghost function NeedsOf(selected: seq<Selection>, attempts: seq<Attempt>, results: seq<BackendResult>,
      acceptable: set<string>): seq<bool> {
    Map(s => NeedsFallback(s, attempts, results, acceptable), selected)
  }

  ghost function QualifiesOf(policy: FallbackPolicy, selected: seq<Selection>, attempts: seq<Attempt>,
      results: seq<BackendResult>): seq<bool> {
    Map(s => FallbackQualifies(policy, s, attempts, results), selected)
  }

  /** Fallback is used when some selection needs it, and accepted when moreover every
      selection that needs it qualifies. */
  ghost predicate IsVerdict(v: Verdict, policy: FallbackPolicy, selected: seq<Selection>, attempts: seq<Attempt>,
                            results: seq<BackendResult>, acceptable: set<string>) {
    var needs := NeedsOf(selected, attempts, results, acceptable);
    var qualifies := QualifiesOf(policy, selected, attempts, results);
    && (v.used <==> acceptable != {} && true in needs)
    && (v.accepted <==> v.used && forall j :: 0 <= j < |needs| && needs[j] ==> qualifies[j])
    && (v.cause.None? <==> !v.used)
    && (v.used ==> exists k ::
        0 <= k < |needs| && IsCause(k, v.accepted, needs, qualifies)
        && v.cause == TerminationOf(attempts, selected[k].backend))
  }

  /** One pass of the loop body: whether the selection needs fallback, and if so whether it
      qualifies and how its attempt ended. */
  method Inspect(policy: FallbackPolicy, s: Selection, attempts: seq<Attempt>, results: seq<BackendResult>,
      acceptable: set<string>)
    returns (termination: Option<Termination>, qualified: bool)
    ensures termination.Some? <==> NeedsFallback(s, attempts, results, acceptable)
    ensures termination.Some? ==> termination == TerminationOf(attempts, s.backend)
    ensures termination.Some? ==> qualified == FallbackQualifies(policy, s, attempts, results)
  {
    if !s.required {
      return None, false;
    }
    var result := FirstResult(results, s.backend);
    var attempt := LastAttempt(attempts, s.backend);
    if result.None? || attempt.None? {
      return None, false;
    }
    if result.value.status != Pass {
      return None, false;
    }
    if result.value.guaranteeType in acceptable {
      return None, false;
    }
    var t := attempt.value.termination;
    if IsBlocking(t) {
      return Some(t), false;
    }
    if !policy.allowFallback {
      return Some(t), false;
    }
    if policy.OutcomeForTermination(t) in {ToFail, ToError} {
      return Some(t), false;
    }
    if policy.fallbackBackends != [] && s.backend !in policy.fallbackBackends {
      return Some(t), false;
    }
    if policy.acceptableFallbackGuarantees != [] && result.value.guaranteeType !in policy.acceptableFallbackGuarantees {
      return Some(t), false;
    }
    return Some(t), true;
  }

  lemma NeedsAt(policy: FallbackPolicy, selected: seq<Selection>, attempts: seq<Attempt>, results: seq<BackendResult>,
                acceptable: set<string>)
    ensures var needs := NeedsOf(selected, attempts, results, acceptable);
      |needs| == |selected| && forall j :: 0 <= j < |needs| ==>
        needs[j] == NeedsFallback(selected[j], attempts, results, acceptable)
    ensures var qualifies := QualifiesOf(policy, selected, attempts, results);
      |qualifies| == |selected|
      && forall j :: 0 <= j < |qualifies| ==> qualifies[j] == FallbackQualifies(policy, selected[j], attempts, results)
  {
    hide NeedsFallback, FallbackQualifies;
  }

  /** The verdict after looking at every selection, or up to the first that does not qualify. */
  lemma VerdictAfter(policy: FallbackPolicy, selected: seq<Selection>, attempts: seq<Attempt>,
                     results: seq<BackendResult>, acceptable: set<string>, used: bool, accepted: bool, last: nat)
    requires var needs := NeedsOf(selected, attempts, results, acceptable);
      var qualifies := QualifiesOf(policy, selected, attempts, results);
      && |needs| == |qualifies| == |selected|
      && (used ==> acceptable != {} && last < |needs| && IsCause(last, accepted, needs, qualifies))
      && (!used ==> acceptable == {} || forall j :: 0 <= j < |needs| ==> !needs[j])
      && (accepted <==> used && forall j :: 0 <= j < |needs| && needs[j] ==> qualifies[j])
    requires used ==> TerminationOf(attempts, selected[last].backend).Some?
    ensures IsVerdict(Verdict(used, accepted, if used then TerminationOf(attempts, selected[last].backend) else None),
                      policy, selected, attempts, results, acceptable)
  {
    hide NeedsOf, QualifiesOf, TerminationOf;
  }

  method EvaluateFallbackAcceptance(policy: FallbackPolicy, selected: seq<Selection>, attempts: seq<Attempt>,
                                    results: seq<BackendResult>, acceptable: set<string>) returns (v: Verdict)
    ensures IsVerdict(v, policy, selected, attempts, results, acceptable)
  {
    hide NeedsFallback, FallbackQualifies, TerminationOf, NeedsOf, QualifiesOf, IsVerdict;
    ghost var needs := NeedsOf(selected, attempts, results, acceptable);
    ghost var qualifies := QualifiesOf(policy, selected, attempts, results);
    NeedsAt(policy, selected, attempts, results, acceptable);
    if acceptable == {} {
      VerdictAfter(policy, selected, attempts, results, acceptable, false, false, 0);
      return Verdict(false, false, None);
    }
    var used, cause := false, None;
    ghost var last := 0;
    for i := 0 to |selected|
      invariant !used ==> cause.None? && forall j :: 0 <= j < i ==> !needs[j]
      invariant forall j :: 0 <= j < i && needs[j] ==> qualifies[j]
      invariant used ==> 0 <= last < i && needs[last] && forall j :: last < j < i ==> !needs[j]
      invariant used ==> cause.Some? && cause == TerminationOf(attempts, selected[last].backend)
    {
      var termination, qualified := Inspect(policy, selected[i], attempts, results, acceptable);
      if termination.Some? {
        used, cause, last := true, termination, i;
        if !qualified {
          VerdictAfter(policy, selected, attempts, results, acceptable, true, false, i);
          return Verdict(true, false, cause);
        }
      }
    }
    VerdictAfter(policy, selected, attempts, results, acceptable, used, used, last);
    v := Verdict(used, used, cause);
  }

  // ---------------------------------------------------------------- aggregation

  /** The arguments of `aggregate_fail_dominant_v1`. */
  datatype Request = Request(
    obligationId: string, selected: seq<Selection>, results: seq<BackendResult>, acceptable: set<string>,
    fallbackAccepted: bool, policy: FallbackPolicy, attempts: Option<seq<Attempt>>)
  {
    function SelectedIds(): set<string> { set s | s in selected :: s.backend }

    function RequiredIds(): set<string> { set s | s in selected && s.required :: s.backend }

    function ExecutedIds(): set<string> { set r | r in results :: r.backend }

    /** The results of required backends. */
    function RequiredResults(): seq<BackendResult> {
      Filter((r: BackendResult) => r.backend in RequiredIds(), results)
    }

    function Findings(): seq<Finding> {
      Map((r: BackendResult) => Finding(FindingId(r.backend), r.status, r.backend in RequiredIds()), results)
    }

    function RequiredFindingIds(): seq<string> {
      Map((r: BackendResult) => FindingId(r.backend), RequiredResults())
    }

    function FindingId(backend: string): string { obligationId + ":" + backend }
  }

  /** `DEFAULT`: the policy strings of `aggregate_decision`'s defaults. */
  const DEFAULT_POLICY := Policy("require_human_review", "skipped")

  /** Backends were selected and executed consistently. */
  predicate SetsAgree(q: Request) {
    q.SelectedIds() == q.ExecutedIds()
  }

  /** The guarantee gate: everything required passed, but some guarantee is too weak. */
  predicate GateFires(q: Request, accepted: bool) {
    && q.results != []
    && (forall r :: r in q.results && r.backend in q.RequiredIds() ==> r.status == Pass)
    && !accepted && q.acceptable != {}
    && exists r :: r in q.results && r.backend in q.RequiredIds() && r.guaranteeType !in q.acceptable
  }

  function StatusOfState(s: State): Status {
    match s
    case Block => Fail
    case Allow => Pass
    case Error => Status.Error
    case Skipped => Status.Skipped
    case _ => Status.Unknown
  }

  ghost function AggregationOf(q: Request, v: Verdict): Aggregation {
    if !SetsAgree(q) then
      Aggregation(Status.Unknown, NeedsReview, NeedsReview, RequireHumanReview, [], true, Verdict(false, false, None))
    else if GateFires(q, v.accepted) then
      Aggregation(Status.Unknown, NeedsReview, NeedsReview, RequireStrongerCheck,
        SortStrings(q.RequiredFindingIds()), false, v)
    else
      var o := OutcomeOf(q.Findings(), Strict, DEFAULT_POLICY, None);
      Aggregation(StatusOfState(o.decisionState), o.decisionState, o.originalState,
        o.recommendation, o.controllingIds, false, v)
  }

  /** The verdict the request is judged by: evaluated from the attempts when there are
      any, else the caller's flag. */
  ghost predicate JudgedBy(q: Request, v: Verdict) {
    match q.attempts
    case Some(attempts) => IsVerdict(v, q.policy, q.selected, attempts, q.results, q.acceptable)
    case None => v == Verdict(false, q.fallbackAccepted, None)
  }

  /** The loop of the guarantee gate, with its `break`. */
  method StrongerCheck(required: seq<BackendResult>, acceptable: set<string>, accepted: bool) returns (stronger: bool)
    ensures stronger <==> !accepted && acceptable != {} && exists r :: r in required && r.guaranteeType !in acceptable
  {
    stronger := false;
    for i := 0 to |required|
      invariant !stronger
      invariant forall j :: 0 <= j < i ==> accepted || acceptable == {} || required[j].guaranteeType in acceptable
    {
      if acceptable != {} && required[i].guaranteeType !in acceptable && !accepted {
        stronger := true;
        break;
      }
    }
  }

  /** `r` is the aggregation under the request's verdict, of which there is exactly one. */
  ghost predicate IsAggregation(r: Aggregation, q: Request) {
    exists v :: JudgedBy(q, v) && r == AggregationOf(q, v)
  }

  method AggregateFailDominant(q: Request) returns (r: Aggregation)
    ensures IsAggregation(r, q)
  {
    hide IsVerdict, OutcomeOf;
    var fallback: Verdict;
    if q.attempts.Some? {
      fallback := EvaluateFallbackAcceptance(q.policy, q.selected, q.attempts.value, q.results, q.acceptable);
    } else {
      fallback := Verdict(false, q.fallbackAccepted, None);
    }
    assert JudgedBy(q, fallback);
    var selectedRequired := Filter((s: Selection) => s.required, q.selected);
    var requiredResults := q.RequiredResults();
    RequiredAreExecuted(q);
    assert selectedRequired != [] ==> selectedRequired[0] in q.selected && selectedRequired[0].required;
    // Two exits of the source with the same outcome: the backend sets differ, or nothing
    // required was executed.
    if q.SelectedIds() != q.ExecutedIds() || (selectedRequired != [] && requiredResults == []) {
      return Aggregation(Status.Unknown, NeedsReview, NeedsReview,
        RequireHumanReview, [], true, Verdict(false, false, None));
    }
    var findings := q.Findings();
    var stronger := false;
    if findings != [] && forall f :: f in findings ==> !f.required || f.status == Pass {
      stronger := StrongerCheck(requiredResults, q.acceptable, fallback.accepted);
    }
    GateIs(q, stronger, fallback.accepted);
    if stronger {
      var ids := SortStrings(q.RequiredFindingIds());
      return Aggregation(Status.Unknown, NeedsReview, NeedsReview, RequireStrongerCheck, ids, false, fallback);
    }
    var o := AggregateDecision(findings, Strict, DEFAULT_POLICY, None);
    var status := if o.decisionState == Block then Fail
                  else if o.decisionState == Allow then Pass
                  else if o.decisionState == State.Error then Status.Error
                  else if o.decisionState == State.Skipped then Status.Skipped
                  else Status.Unknown;
    r := Aggregation(status, o.decisionState, o.originalState, o.recommendation, o.controllingIds, false, fallback);
    assert r == AggregationOf(q, fallback);
  }

  /** When the backend sets agree, a required selection has a required result: the exit for
      a missing required result is never taken on its own. */
  lemma RequiredAreExecuted(q: Request)
    ensures SetsAgree(q) && (exists s :: s in q.selected && s.required) ==> q.RequiredResults() != []
  {
    if SetsAgree(q) {
      if s :| s in q.selected && s.required {
        assert s.backend in q.SelectedIds() && s.backend in q.RequiredIds();
        var x :| x in q.results && x.backend == s.backend;
        assert x in q.RequiredResults();
      }
    }
  }

  lemma FindingsAre(q: Request)
    ensures forall r :: r in q.results ==>
      Finding(q.FindingId(r.backend), r.status, r.backend in q.RequiredIds()) in q.Findings()
    ensures forall f :: f in q.Findings() ==> exists r ::
      r in q.results && f == Finding(q.FindingId(r.backend), r.status, r.backend in q.RequiredIds())
  {
  }

  lemma GateIs(q: Request, stronger: bool, accepted: bool)
    requires stronger <==>
      && q.Findings() != [] && (forall f :: f in q.Findings() ==> !f.required || f.status == Pass)
      && !accepted && q.acceptable != {} && exists r :: r in q.RequiredResults() && r.guaranteeType !in q.acceptable
    ensures stronger <==> GateFires(q, accepted)
  {
  }

  // ------------------------------------------------------- the decision table

  predicate RequiredReports(q: Request, s: Status) {
    exists r :: r in q.results && r.backend in q.RequiredIds() && r.status == s
  }

  predicate Reports(q: Request, s: Status) {
    exists r :: r in q.results && r.status == s
  }

  /** Every required result passed with a guarantee that is acceptable, unrestricted, or
      covered by an accepted fallback. */
  predicate RequiredSatisfied(q: Request, accepted: bool) {
    forall r :: r in q.results && r.backend in q.RequiredIds() ==>
      r.status == Pass && (q.acceptable == {} || accepted || r.guaranteeType in q.acceptable)
  }

  /** The state the fail-dominant policy assigns, read off selections and results. */
  function TableState(q: Request, accepted: bool): State {
    if !SetsAgree(q) || GateFires(q, accepted) then NeedsReview else LatticeState(q)
  }

  function LatticeState(q: Request): State {
    if Reports(q, Fail) then Block
    else if RequiredReports(q, Status.Error) then State.Error
    else if RequiredReports(q, Status.Unknown) then NeedsReview
    else if RequiredReports(q, Status.Skipped) then State.Skipped
    else if exists s :: s in q.selected && s.required then Allow
    else NeedsReview
  }

  lemma FindingStatuses(q: Request)
    ensures AnyFail(q.Findings()) <==> Reports(q, Fail)
    ensures forall s :: RequiredHas(q.Findings(), s) <==> RequiredReports(q, s)
    ensures SetsAgree(q) ==> (SomeRequired(q.Findings()) <==> exists s :: s in q.selected && s.required)
  {
    FindingsAre(q);
    RequiredAreExecuted(q);
    if SetsAgree(q) && exists s :: s in q.selected && s.required {
      var x := q.RequiredResults()[0];
      assert x in q.RequiredResults();
      assert Finding(q.FindingId(x.backend), x.status, true) in q.Findings();
    }
  }

  lemma DefaultPolicyBlocksNothing()
    ensures !UnknownBlocks(DEFAULT_POLICY) && !SkipBlocks(DEFAULT_POLICY)
  {
    var a, b := DEFAULT_POLICY.onUnknown, DEFAULT_POLICY.onRequiredSkip;
    StripFixed(a);
    StripFixed(b);
    assert |Strip(a)| != |"block"| && |Map(LowerChar, Strip(b))| != |"block"|;
  }

  /** The table below the gate is the lattice applied to the findings. */
  lemma LatticeTable(q: Request)
    requires SetsAgree(q)
    ensures Overlay(OriginalState(q.Findings()), Strict, DEFAULT_POLICY) == LatticeState(q)
  {
    hide SetsAgree, RequiredHas, AnyFail, SomeRequired, RequiredReports, Reports, UnknownBlocks, SkipBlocks;
    FindingStatuses(q);
    DefaultPolicyBlocksNothing();
    var findings := q.Findings();
    assert RequiredHas(findings, Status.Error) <==> RequiredReports(q, Status.Error);
    assert RequiredHas(findings, Status.Unknown) <==> RequiredReports(q, Status.Unknown);
    assert RequiredHas(findings, Status.Skipped) <==> RequiredReports(q, Status.Skipped);
  }

  /** The full decision table: the aggregate is the table's state for every request. */
  lemma DecisionTable(q: Request, v: Verdict)
    ensures AggregationOf(q, v).decisionState == TableState(q, v.accepted)
    ensures AggregationOf(q, v).qualityError <==> !SetsAgree(q)
    ensures AggregationOf(q, v).status == StatusOfState(TableState(q, v.accepted))
  {
    hide SetsAgree, GateFires, LatticeState, OriginalState;
    if SetsAgree(q) {
      LatticeTable(q);
    }
  }

  /** ALLOW, exactly. */
  lemma AllowExactly(q: Request, v: Verdict)
    ensures AggregationOf(q, v).decisionState == Allow <==>
      && SetsAgree(q) && (exists s :: s in q.selected && s.required)
      && !Reports(q, Fail) && RequiredSatisfied(q, v.accepted)
  {
    hide SetsAgree;
    DecisionTable(q, v);
    RequiredAreExecuted(q);
    hide AggregationOf;
    SatisfiedAllows(q, v.accepted);
    if TableState(q, v.accepted) == Allow {
      assert q.RequiredResults()[0] in q.RequiredResults();
      AllowSatisfies(q, v.accepted);
    }
  }

  lemma SatisfiedAllows(q: Request, accepted: bool)
    ensures RequiredSatisfied(q, accepted) ==>
      && !GateFires(q, accepted) && !RequiredReports(q, Status.Error)
      && !RequiredReports(q, Status.Unknown) && !RequiredReports(q, Status.Skipped)
  {
    hide Request.RequiredIds;
  }

  lemma AllowSatisfies(q: Request, accepted: bool)
    requires TableState(q, accepted) == Allow && q.results != []
    ensures RequiredSatisfied(q, accepted)
  {
    hide Request.RequiredIds, SetsAgree;
    forall r | r in q.results && r.backend in q.RequiredIds() ensures r.status == Pass {
      assert RequiredReports(q, r.status) && Reports(q, r.status);
    }
  }

  /** BLOCK, exactly: any failure, optional ones included, unless the guarantee gate has
      already asked for a stronger check. */
  lemma BlockExactly(q: Request, v: Verdict)
    ensures AggregationOf(q, v).decisionState == Block
      <==> SetsAgree(q) && Reports(q, Fail) && !GateFires(q, v.accepted)
  {
    DecisionTable(q, v);
  }

  // --------------------------------------------------------- fallback soundness

  predicate GuaranteeListed(policy: FallbackPolicy, guarantee: string) {
    policy.acceptableFallbackGuarantees == [] || guarantee in policy.acceptableFallbackGuarantees
  }

  predicate BackendListed(policy: FallbackPolicy, backend: string) {
    policy.fallbackBackends == [] || backend in policy.fallbackBackends
  }

  predicate EndedWell(policy: FallbackPolicy, t: Termination) {
    !IsBlocking(t) && policy.OutcomeForTermination(t) !in {ToFail, ToError}
  }

  /** `r` is a required result with an unacceptable guarantee, in a request that allows. */
  ghost predicate WeakUnderAllow(q: Request, v: Verdict, r: BackendResult) {
    && q.attempts.Some? && JudgedBy(q, v) && AggregationOf(q, v).decisionState == Allow
    && q.acceptable != {} && r in q.results && r.backend in q.RequiredIds() && r.guaranteeType !in q.acceptable
  }

  /** Fallback soundness, exactly, for every request. When the first result of a backend was
      itself examined, any weak result of that backend qualifies if and only if its own
      guarantee is listed. When the first result is acceptable, the weak one behind it was never
      examined: only the permission to fall back is established, and it qualifies if and only if
      its attempt ended well and both its backend and its guarantee are listed. */
  lemma FallbackExactly(q: Request, v: Verdict, r: BackendResult)
    requires WeakUnderAllow(q, v, r) && LastAttempt(q.attempts.value, r.backend).Some?
    ensures var first := FirstResult(q.results, r.backend);
      var t := LastAttempt(q.attempts.value, r.backend).value.termination;
      && first.Some?
      && (Qualifies(q.policy, r.backend, t, r.guaranteeType) <==>
          if first.value.guaranteeType !in q.acceptable then GuaranteeListed(q.policy, r.guaranteeType)
          else
            && EndedWell(q.policy, t)
            && BackendListed(q.policy, r.backend)
            && GuaranteeListed(q.policy, r.guaranteeType))
  {
    hide AggregationOf, SetsAgree, GateFires, Reports;
    AllowExactly(q, v);
    var first := FirstResult(q.results, r.backend).value;
    assert first.status == Pass && v.accepted;
    if first.guaranteeType !in q.acceptable {
      FirstQualifies(q, q.attempts.value, v, r.backend);
    }
    AcceptedAllowsFallback(q, q.attempts.value, v);
  }

  /** An accepted verdict qualified every required backend whose first result is weak. */
  lemma FirstQualifies(q: Request, attempts: seq<Attempt>, v: Verdict, backend: string)
    requires IsVerdict(v, q.policy, q.selected, attempts, q.results, q.acceptable) && v.accepted
    requires backend in q.RequiredIds()
    requires FirstResult(q.results, backend).Some? && LastAttempt(attempts, backend).Some?
    requires var first := FirstResult(q.results, backend).value;
      first.status == Pass && first.guaranteeType !in q.acceptable
    ensures Qualifies(q.policy, backend, LastAttempt(attempts, backend).value.termination,
                      FirstResult(q.results, backend).value.guaranteeType)
  {
    hide Qualifies;
    var s :| s in q.selected && s.required && s.backend == backend;
    var i :| 0 <= i < |q.selected| && q.selected[i] == s;
    var needs := NeedsOf(q.selected, attempts, q.results, q.acceptable);
    var qualifies := QualifiesOf(q.policy, q.selected, attempts, q.results);
    assert NeedsFallback(s, attempts, q.results, q.acceptable);
    assert needs[i] ==> qualifies[i];
    assert FallbackQualifies(q.policy, s, attempts, q.results);
  }

  /** Some selection was examined, so the policy allows fallback. */
  lemma AcceptedAllowsFallback(q: Request, attempts: seq<Attempt>, v: Verdict)
    requires IsVerdict(v, q.policy, q.selected, attempts, q.results, q.acceptable) && v.accepted
    ensures q.policy.allowFallback
  {
    hide NeedsFallback;
    var needs := NeedsOf(q.selected, attempts, q.results, q.acceptable);
    var k :| 0 <= k < |needs| && needs[k];
    assert QualifiesOf(q.policy, q.selected, attempts, q.results)[k];
  }

  /** ALLOW with restricted guarantees, when the first result of the backend shows the guarantee
      of `r`: it ended without a blocking termination, under an allowing policy, on a listed
      backend and guarantee. One accepted fallback never carries an unqualified one along. */
  lemma FallbackSound(q: Request, v: Verdict, r: BackendResult)
    requires WeakUnderAllow(q, v, r) && LastAttempt(q.attempts.value, r.backend).Some?
    requires FirstResult(q.results, r.backend).Some?
    requires FirstResult(q.results, r.backend).value.guaranteeType == r.guaranteeType
    ensures Qualifies(q.policy, r.backend, LastAttempt(q.attempts.value, r.backend).value.termination, r.guaranteeType)
  {
    hide AggregationOf, SetsAgree, GateFires, Reports;
    AllowExactly(q, v);
    FirstQualifies(q, q.attempts.value, v, r.backend);
  }

  /** No two results answer for the same backend. */
  ghost predicate OneResultPerBackend(results: seq<BackendResult>) {
    forall a, b :: a in results && b in results && a.backend == b.backend ==> a == b
  }

  /** In particular, without repeated backends every weak required result qualified. */
  lemma FallbackSoundWhenDistinct(q: Request, v: Verdict, r: BackendResult)
    requires WeakUnderAllow(q, v, r) && LastAttempt(q.attempts.value, r.backend).Some?
    requires OneResultPerBackend(q.results)
    ensures Qualifies(q.policy, r.backend, LastAttempt(q.attempts.value, r.backend).value.termination, r.guaranteeType)
  {
    hide JudgedBy, AggregationOf, Qualifies;
    assert FirstResult(q.results, r.backend) == Some(r);
    FallbackSound(q, v, r);
  }

  /** Results behind the first of their backend do not enter the verdict at all. */
  lemma VerdictReadsFirst(v: Verdict, q: Request, attempts: seq<Attempt>, others: seq<BackendResult>)
    requires forall backend :: FirstResult(q.results, backend) == FirstResult(others, backend)
    ensures IsVerdict(v, q.policy, q.selected, attempts, q.results, q.acceptable)
       <==> IsVerdict(v, q.policy, q.selected, attempts, others, q.acceptable)
  {
    hide Qualifies, Map, FirstResult, LastAttempt;
    assert NeedsOf(q.selected, attempts, q.results, q.acceptable)
      == NeedsOf(q.selected, attempts, others, q.acceptable);
    assert QualifiesOf(q.policy, q.selected, attempts, q.results)
      == QualifiesOf(q.policy, q.selected, attempts, others);
  }

  // ------------------------------------------------ what aggregation looks at

  /** The part of a result that decisions depend on: not its attempt id. */
  datatype ResultView = ResultView(backend: string, status: Status, guaranteeType: string)

  /** The part of an attempt that decisions depend on: not its id, nor its `required` flag. */
  datatype AttemptView = AttemptView(backendObligationId: string, backend: string, termination: Termination,
      details: string)

  function ViewResult(r: BackendResult): ResultView { ResultView(r.backend, r.status, r.guaranteeType) }

  function ViewAttempt(a: Attempt): AttemptView {
    AttemptView(a.backendObligationId, a.backend, a.termination, a.details)
  }

  lemma {:induction false} FirstResultView(x: seq<BackendResult>, y: seq<BackendResult>, backend: string)
    requires Map(ViewResult, x) == Map(ViewResult, y)
    ensures FirstResult(x, backend).Some? <==> FirstResult(y, backend).Some?
    ensures FirstResult(x, backend).Some?
      ==> ViewResult(FirstResult(x, backend).value) == ViewResult(FirstResult(y, backend).value)
  {
    assert |x| == |Map(ViewResult, x)| == |y|;
    if x != [] {
      assert Map(ViewResult, x)[0] == Map(ViewResult, y)[0];
      assert Map(ViewResult, x[1..]) == Map(ViewResult, x)[1..] == Map(ViewResult, y)[1..] == Map(ViewResult, y[1..]);
      FirstResultView(x[1..], y[1..], backend);
    }
  }

  lemma {:induction false} TerminationView(x: seq<Attempt>, y: seq<Attempt>, backend: string)
    requires Map(ViewAttempt, x) == Map(ViewAttempt, y)
    ensures TerminationOf(x, backend) == TerminationOf(y, backend)
  {
    assert |x| == |Map(ViewAttempt, x)| == |y|;
    if x != [] {
      var n := |x| - 1;
      assert Map(ViewAttempt, x)[n] == Map(ViewAttempt, y)[n];
      assert Map(ViewAttempt, x[..n]) == Map(ViewAttempt, x)[..n]
        == Map(ViewAttempt, y)[..n] == Map(ViewAttempt, y[..n]);
      TerminationView(x[..n], y[..n], backend);
    }
  }

  /** Verdicts depend on the views of attempts and results only. */
  lemma VerdictView(v: Verdict, policy: FallbackPolicy, selected: seq<Selection>, a: seq<Attempt>, b: seq<Attempt>,
                    x: seq<BackendResult>, y: seq<BackendResult>, acceptable: set<string>)
    requires Map(ViewAttempt, a) == Map(ViewAttempt, b) && Map(ViewResult, x) == Map(ViewResult, y)
    ensures IsVerdict(v, policy, selected, a, x, acceptable) <==> IsVerdict(v, policy, selected, b, y, acceptable)
  {
    hide Qualifies, Map, FirstResult, LastAttempt;
    forall backend ensures TerminationOf(a, backend) == TerminationOf(b, backend) { TerminationView(a, b, backend); }
    forall s ensures NeedsFallback(s, a, x, acceptable) == NeedsFallback(s, b, y, acceptable)
                  && FallbackQualifies(policy, s, a, x) == FallbackQualifies(policy, s, b, y) {
      FirstResultView(x, y, s.backend);
      assert TerminationOf(a, s.backend) == TerminationOf(b, s.backend);
    }
    hide NeedsFallback, FallbackQualifies, TerminationOf;
    assert NeedsOf(selected, a, x, acceptable) == NeedsOf(selected, b, y, acceptable);
    assert QualifiesOf(policy, selected, a, x) == QualifiesOf(policy, selected, b, y);
  }

  /** A request has exactly one verdict. */
  lemma VerdictUnique(v: Verdict, w: Verdict, policy: FallbackPolicy, selected: seq<Selection>, attempts: seq<Attempt>,
                      results: seq<BackendResult>, acceptable: set<string>)
    requires IsVerdict(v, policy, selected, attempts, results, acceptable)
      && IsVerdict(w, policy, selected, attempts, results, acceptable)
    ensures v == w
  {
  }

  lemma {:induction false} FilterView(f: BackendResult -> bool, g: BackendResult -> string, x: seq<BackendResult>,
      y: seq<BackendResult>)
    requires Map(ViewResult, x) == Map(ViewResult, y)
    requires forall a, b :: ViewResult(a) == ViewResult(b) ==> f(a) == f(b) && g(a) == g(b)
    ensures Map(g, Filter(f, x)) == Map(g, Filter(f, y))
  {
    hide *;
    assert |x| == |Map(ViewResult, x)| == |y|;
    if x == [] {
      assert y == [];
    } else {
      ViewsAfterFirst(x, y);
      FilterView(f, g, x[1..], y[1..]);
      FilterMapFirst(f, g, x);
      FilterMapFirst(f, g, y);
    }
  }

  lemma ViewsAfterFirst(x: seq<BackendResult>, y: seq<BackendResult>)
    requires Map(ViewResult, x) == Map(ViewResult, y) && x != [] && y != []
    ensures ViewResult(x[0]) == ViewResult(y[0]) && Map(ViewResult, x[1..]) == Map(ViewResult, y[1..])
  {
  }

  lemma FilterMapFirst(f: BackendResult -> bool, g: BackendResult -> string, x: seq<BackendResult>)
    requires x != []
    ensures Map(g, Filter(f, x)) == (if f(x[0]) then [g(x[0])] else []) + Map(g, Filter(f, x[1..]))
  {
  }

  /** The requests differ at most in attempts, attempt ids and stored flags. */
  ghost predicate SameView(p: Request, q: Request) {
    && p.(results := [], attempts := None) == q.(results := [], attempts := None)
    && |p.results| == |q.results|
    && forall i :: 0 <= i < |p.results| ==> ViewResult(p.results[i]) == ViewResult(q.results[i])
  }

  lemma SameViewFields(p: Request, q: Request)
    requires SameView(p, q)
    ensures p.selected == q.selected && p.obligationId == q.obligationId && p.acceptable == q.acceptable
    ensures p.RequiredIds() == q.RequiredIds()
    ensures Map(ViewResult, p.results) == Map(ViewResult, q.results)
  {
  }

  lemma SetsView(p: Request, q: Request)
    requires SameView(p, q)
    ensures SetsAgree(p) == SetsAgree(q)
  {
  }

  lemma GateView(p: Request, q: Request, accepted: bool)
    requires SameView(p, q)
    ensures GateFires(p, accepted) == GateFires(q, accepted)
  {
  }

  lemma RequiredIdsView(p: Request, q: Request)
    requires SameView(p, q)
    ensures p.RequiredFindingIds() == q.RequiredFindingIds()
  {
    SameViewFields(p, q);
    var f := (r: BackendResult) => r.backend in p.RequiredIds();
    var g := (r: BackendResult) => p.FindingId(r.backend);
    FilterView(f, g, p.results, q.results);
    SameFilter(f, (r: BackendResult) => r.backend in q.RequiredIds(), q.results);
  }

  lemma {:induction false} SameFilter(f: BackendResult -> bool, g: BackendResult -> bool, s: seq<BackendResult>)
    requires forall x :: f(x) == g(x)
    ensures Filter(f, s) == Filter(g, s)
  {
    if s != [] { SameFilter(f, g, s[1..]); }
  }

  /** So does the whole aggregation. */
  lemma AggregationView(p: Request, q: Request, v: Verdict)
    requires SameView(p, q)
    ensures AggregationOf(p, v) == AggregationOf(q, v)
  {
    hide OutcomeOf, SortStrings, SetsAgree, GateFires, Request.RequiredFindingIds;
    SetsView(p, q);
    GateView(p, q, v.accepted);
    RequiredIdsView(p, q);
    SameViewFields(p, q);
    assert p.Findings() == q.Findings();
  }

  // ---------------------------------------- what escapes behind a first result

  const ATTEMPT := Attempt(AttemptId("o", "b", true, Completed, ""), "o", "b", true, Completed, "")

  const LISTING := DEFAULT_FALLBACK_POLICY.(allowFallback := true, acceptableFallbackGuarantees := ["listed"])

  /** Two results of one backend, the first a listed fallback, the second an unlisted one. */
  const SHADOWING := Request("o", [Selection("b", "", true)],
    [BackendResult(ATTEMPT.attemptId, "b", Pass, "listed"), BackendResult(ATTEMPT.attemptId, "b", Pass, "unlisted")],
    {"strong"}, false, LISTING, Some([ATTEMPT]))

  lemma ShadowingVerdict(v: Verdict)
    requires JudgedBy(SHADOWING, v)
    ensures v.accepted
  {
  }

  lemma ShadowingSatisfied(accepted: bool)
    requires accepted
    ensures SetsAgree(SHADOWING) && !Reports(SHADOWING, Fail) && RequiredSatisfied(SHADOWING, accepted)
    ensures exists s :: s in SHADOWING.selected && s.required
  {
  }

  /** Only the first result of a backend is examined: a second, unqualified one passes. */
  lemma DuplicateResultsEscape(v: Verdict)
    requires JudgedBy(SHADOWING, v)
    ensures AggregationOf(SHADOWING, v).decisionState == Allow
    ensures !Qualifies(SHADOWING.policy, "b", Completed, SHADOWING.results[1].guaranteeType)
  {
    hide AggregationOf, JudgedBy, SetsAgree, Reports, RequiredSatisfied;
    ShadowingVerdict(v);
    ShadowingSatisfied(v.accepted);
    AllowExactly(SHADOWING, v);
    assert "unlisted" !in ["listed"] by { assert |"unlisted"| != |"listed"|; }
  }
}
