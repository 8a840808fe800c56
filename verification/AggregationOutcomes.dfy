/** What fail-dominant aggregation answers, read off the request itself: selections, results,
    attempts and policy fields (ovk/core/backend_aggregation.py). */
module AggregationOutcomes {
  import opened Ordering
  import opened Text
  import opened Decision
  import opened ExecutionModels
  import opened BackendAggregation

  // --------------------------------------------------------------- terminations

  /** `outcome_for_termination`: four ends are configured, the other three are unknown. */
  lemma OutcomeExactly(policy: FallbackPolicy)
    ensures policy.OutcomeForTermination(Timeout) == policy.onTimeout
    ensures policy.OutcomeForTermination(ToolUnavailable) == policy.onToolUnavailable
    ensures policy.OutcomeForTermination(InvalidOutput) == policy.onInvalidOutput
    ensures policy.OutcomeForTermination(ResourceExhausted) == policy.onResourceExhausted
    ensures forall t :: t in {Completed, ToolError, Cancelled} ==> policy.OutcomeForTermination(t) == ToUnknown
  {
  }

  /** What a fallback must show, by termination and policy field: only a run that completed, was
      cancelled, or found its tool missing can stand in, and a missing tool only where the
      policy calls that neither a failure nor an error. */
  lemma QualifiesExactly(policy: FallbackPolicy, backend: string, t: Termination, guarantee: string)
    ensures Qualifies(policy, backend, t, guarantee) <==>
      && t in {Completed, ToolUnavailable, Cancelled}
      && (t == ToolUnavailable ==> policy.onToolUnavailable in {ToUnknown, ToFallback})
      && policy.allowFallback
      && (policy.fallbackBackends == [] || backend in policy.fallbackBackends)
      && (policy.acceptableFallbackGuarantees == [] || guarantee in policy.acceptableFallbackGuarantees)
  {
    var o := policy.onToolUnavailable;
    assert o.ToUnknown? || o.ToError? || o.ToFail? || o.ToFallback?;
    assert t.Completed? || t.Cancelled? || t.ToolUnavailable? || IsBlocking(t);
  }

  // -------------------------------------------------------- the examined records

  /** `r` is the first result of the backend: what stands before it is of other backends. */
  ghost predicate IsFirstResult(results: seq<BackendResult>, backend: string, r: BackendResult) {
    exists front, back :: results == front + [r] + back && r.backend == backend && NoneOf(front, backend)
  }

  predicate NoneOf(results: seq<BackendResult>, backend: string) {
    forall x :: x in results ==> x.backend != backend
  }

  /** The result that is examined is the first of its backend. */
  lemma FirstResultExactly(results: seq<BackendResult>, backend: string, r: BackendResult)
    ensures FirstResult(results, backend) == Some(r) <==> IsFirstResult(results, backend, r)
  {
    if FirstResult(results, backend) == Some(r) {
      var front, back := SplitAtFirst(results, backend);
    }
    if IsFirstResult(results, backend, r) {
      var front, back :| results == front + [r] + back && r.backend == backend && NoneOf(front, backend);
      FirstBehind(front, r, back);
    }
  }

  lemma {:induction false} SplitAtFirst(results: seq<BackendResult>, backend: string)
    returns (front: seq<BackendResult>, back: seq<BackendResult>)
    requires FirstResult(results, backend).Some?
    ensures results == front + [FirstResult(results, backend).value] + back && NoneOf(front, backend)
  {
    if results[0].backend == backend {
      front, back := [], results[1..];
    } else {
      front, back := SplitAtFirst(results[1..], backend);
      front := [results[0]] + front;
    }
  }

  lemma {:induction false} FirstBehind(front: seq<BackendResult>, r: BackendResult, back: seq<BackendResult>)
    requires NoneOf(front, r.backend)
    ensures FirstResult(front + [r] + back, r.backend) == Some(r)
  {
    if front != [] {
      FirstBehind(front[1..], r, back);
      assert (front + [r] + back)[1..] == front[1..] + [r] + back;
    }
  }

  /** The attempt that is examined is the last of its backend. */
  lemma {:induction false} LastAttemptExactly(attempts: seq<Attempt>, backend: string, a: Attempt)
    ensures LastAttempt(attempts, backend) == Some(a) <==> exists i | 0 <= i < |attempts| ::
      attempts[i] == a && a.backend == backend && forall j :: i < j < |attempts| ==> attempts[j].backend != backend
  {
    if attempts != [] {
      var n := |attempts| - 1;
      assert attempts == attempts[..n] + [attempts[n]];
      if attempts[n].backend != backend { LastAttemptExactly(attempts[..n], backend, a); }
    }
  }

  /** A required selection that passed with a guarantee outside the acceptable ones. */
  predicate IsWeak(s: Selection, attempts: seq<Attempt>, results: seq<BackendResult>, acceptable: set<string>) {
    var r, a := FirstResult(results, s.backend), LastAttempt(attempts, s.backend);
    s.required && a.Some? && r.Some? && r.value.status == Pass && r.value.guaranteeType !in acceptable
  }

  predicate StandsIn(policy: FallbackPolicy, s: Selection, attempts: seq<Attempt>, results: seq<BackendResult>) {
    var r, a := FirstResult(results, s.backend), LastAttempt(attempts, s.backend);
    a.Some? && r.Some? && Qualifies(policy, s.backend, a.value.termination, r.value.guaranteeType)
  }

  /** The fallback verdict, exactly: used when some selection is weak, accepted when moreover
      every weak one may stand in; the cause is the end of the last weak one, or of the first
      that may not stand in. */
  lemma VerdictExactly(v: Verdict, policy: FallbackPolicy, selected: seq<Selection>, attempts: seq<Attempt>,
                       results: seq<BackendResult>, acceptable: set<string>)
    requires IsVerdict(v, policy, selected, attempts, results, acceptable)
    ensures v.used <==> acceptable != {} && exists s :: s in selected && IsWeak(s, attempts, results, acceptable)
    ensures v.accepted <==> v.used && forall s ::
      s in selected && IsWeak(s, attempts, results, acceptable) ==> StandsIn(policy, s, attempts, results)
    ensures v.used <==> v.cause.Some?
    ensures v.used ==> exists k | 0 <= k < |selected| ::
      && IsWeak(selected[k], attempts, results, acceptable)
      && v.cause == Some(LastAttempt(attempts, selected[k].backend).value.termination)
      && if v.accepted then forall j :: k < j < |selected| ==> !IsWeak(selected[j], attempts, results, acceptable)
         else !StandsIn(policy, selected[k], attempts, results) && forall j :: 0 <= j < k ==>
           (IsWeak(selected[j], attempts, results, acceptable) ==> StandsIn(policy, selected[j], attempts, results))
  {
    hide Qualifies, FirstResult, LastAttempt;
    NeedsAt(policy, selected, attempts, results, acceptable);
    forall s ensures NeedsFallback(s, attempts, results, acceptable) == IsWeak(s, attempts, results, acceptable)
                  && FallbackQualifies(policy, s, attempts, results) == StandsIn(policy, s, attempts, results) {}
    hide NeedsFallback, FallbackQualifies, StandsIn, NeedsOf, QualifiesOf;
  }

  /** An examined selection that is weak and timed out, broke, gave no usable output or ran out
      of resources never lets the request allow, whatever the policy says. */
  lemma BlockedEndNeverAllows(q: Request, v: Verdict, s: Selection, attempts: seq<Attempt>)
    requires q.attempts == Some(attempts) && JudgedBy(q, v) && q.acceptable != {}
    requires s in q.selected && IsWeak(s, attempts, q.results, q.acceptable)
    requires LastAttempt(attempts, s.backend).value.termination in
      {Timeout, ToolError, InvalidOutput, ResourceExhausted}
    ensures !v.accepted && AggregationOf(q, v).decisionState != Allow
  {
    hide AggregationOf, SetsAgree, Reports, IsVerdict, FirstResult, LastAttempt;
    VerdictExactly(v, q.policy, q.selected, attempts, q.results, q.acceptable);
    QualifiesExactly(q.policy, s.backend, LastAttempt(attempts, s.backend).value.termination,
                     FirstResult(q.results, s.backend).value.guaranteeType);
    BackendAggregation.AllowExactly(q, v);
    assert s.backend in q.RequiredIds();
    var r := FirstResult(q.results, s.backend).value;
    FirstResultExactly(q.results, s.backend, r);
    assert r in q.results;
  }

  /** Under ALLOW, the attempt behind a required result outside the acceptable guarantees, by its end. */
  lemma WeakEndUnderAllow(q: Request, v: Verdict, r: BackendResult)
    requires WeakUnderAllow(q, v, r) && LastAttempt(q.attempts.value, r.backend).Some?
    requires var first := FirstResult(q.results, r.backend);
      first.Some? && first.value.guaranteeType !in q.acceptable
    ensures var end := LastAttempt(q.attempts.value, r.backend).value.termination;
      && end in {Completed, ToolUnavailable, Cancelled}
      && (end == ToolUnavailable ==> q.policy.onToolUnavailable in {ToUnknown, ToFallback})
      && q.policy.allowFallback
  {
    var first := FirstResult(q.results, r.backend).value;
    assert WeakUnderAllow(q, v, first);
    hide *;
    FallbackSound(q, v, first);
    QualifiesExactly(q.policy, first.backend, LastAttempt(q.attempts.value, r.backend).value.termination,
                     first.guaranteeType);
  }

  // -------------------------------------------------------- the aggregate, exactly

  ghost predicate IsRequired(q: Request, backend: string) {
    exists s :: s in q.selected && s.required && s.backend == backend
  }

  /** Every selected backend answered, and no other did. */
  ghost predicate Answered(q: Request) {
    && (forall s :: s in q.selected ==> WasExecuted(q, s.backend))
    && (forall r :: r in q.results ==> WasSelected(q, r.backend))
  }

  ghost predicate WasSelected(q: Request, backend: string) {
    exists s :: s in q.selected && s.backend == backend
  }

  ghost predicate WasExecuted(q: Request, backend: string) {
    exists r :: r in q.results && r.backend == backend
  }

  /** All required results passed, and one of them with a guarantee that nothing covers. */
  ghost predicate TooWeak(q: Request, accepted: bool) {
    && q.acceptable != {} && !accepted
    && (forall r :: r in q.results && IsRequired(q, r.backend) ==> r.status == Pass)
    && exists r :: r in q.results && IsRequired(q, r.backend) && r.guaranteeType !in q.acceptable
  }

  ghost predicate SomeReports(q: Request, s: Status) {
    exists r :: r in q.results && r.status == s
  }

  ghost predicate SomeRequiredReports(q: Request, s: Status) {
    exists r :: r in q.results && IsRequired(q, r.backend) && r.status == s
  }

  lemma SameConditions(q: Request, accepted: bool)
    ensures SetsAgree(q) <==> Answered(q)
    ensures GateFires(q, accepted) <==> TooWeak(q, accepted)
    ensures forall s :: Reports(q, s) <==> SomeReports(q, s)
    ensures forall s :: RequiredReports(q, s) <==> SomeRequiredReports(q, s)
  {
    hide SetsAgree, Answered, GateFires, TooWeak, Request.RequiredIds, IsRequired;
    AgreeIsAnswered(q);
    GateIsTooWeak(q, accepted);
    RequiredIdsAre(q);
  }

  lemma RequiredIdsAre(q: Request)
    ensures forall b :: b in q.RequiredIds() <==> IsRequired(q, b)
  {
  }

  lemma AgreeIsAnswered(q: Request)
    ensures SetsAgree(q) <==> Answered(q)
  {
    IdsAre(q);
    hide Request.SelectedIds, Request.ExecutedIds;
    if Answered(q) {
      assert forall b :: WasSelected(q, b) <==> WasExecuted(q, b);
    }
    if SetsAgree(q) {
      assert forall s :: s in q.selected ==> WasSelected(q, s.backend) && WasExecuted(q, s.backend);
      assert forall r :: r in q.results ==> WasExecuted(q, r.backend) && WasSelected(q, r.backend);
    }
  }

  lemma IdsAre(q: Request)
    ensures forall b :: b in q.SelectedIds() <==> WasSelected(q, b)
    ensures forall b :: b in q.ExecutedIds() <==> WasExecuted(q, b)
  {
  }

  lemma GateIsTooWeak(q: Request, accepted: bool)
    ensures GateFires(q, accepted) <==> TooWeak(q, accepted)
  {
    hide Request.RequiredIds, IsRequired;
    RequiredIdsAre(q);
  }

  /** The decision, exactly, state by state. The guarantee gate comes before an optional failure;
      UNKNOWN is never the decision, since it is asked to be reviewed. */
  lemma StateExactly(q: Request, v: Verdict)
    ensures var r := AggregationOf(q, v);
      var settled := Answered(q) && !TooWeak(q, v.accepted);
      && (r.qualityError <==> !Answered(q))
      && (r.decisionState == Block <==> settled && SomeReports(q, Fail))
      && (r.decisionState == State.Error <==>
          settled && !SomeReports(q, Fail) && SomeRequiredReports(q, Status.Error))
      && (r.decisionState == State.Skipped <==>
          && settled && !SomeReports(q, Fail) && !SomeRequiredReports(q, Status.Error)
          && !SomeRequiredReports(q, Status.Unknown) && SomeRequiredReports(q, Status.Skipped))
      && (r.decisionState == Allow <==>
          && settled && !SomeReports(q, Fail) && (exists s :: s in q.selected && s.required)
          && forall x :: x in q.results && IsRequired(q, x.backend) ==> x.status == Pass)
      && r.decisionState in {Block, State.Error, State.Skipped, Allow, NeedsReview}
  {
    hide SetsAgree, GateFires, Reports, RequiredReports, Answered, TooWeak, SomeReports, IsRequired, AggregationOf;
    DecisionTable(q, v);
    SameConditions(q, v.accepted);
    if forall x :: x in q.results && IsRequired(q, x.backend) ==> x.status == Pass {
      assert !SomeRequiredReports(q, Status.Error) && !SomeRequiredReports(q, Status.Unknown)
        && !SomeRequiredReports(q, Status.Skipped);
    }
    forall x | !SomeReports(q, Fail) && x in q.results && IsRequired(q, x.backend) && x.status != Pass
      ensures SomeRequiredReports(q, x.status) && x.status != Fail {
      assert SomeRequiredReports(q, x.status);
      PassOrReported(q, x);
    }
  }

  lemma PassOrReported(q: Request, x: BackendResult)
    requires x in q.results
    ensures SomeReports(q, x.status)
  {
  }

  /** What is recorded beside the state: the aggregate status, the state before policy, and the
      recommendation. */
  lemma RecordedExactly(q: Request, v: Verdict)
    ensures var r := AggregationOf(q, v);
      var settled := Answered(q) && !TooWeak(q, v.accepted);
      && (r.status == Pass <==> r.decisionState == Allow)
      && (r.status == Fail <==> r.decisionState == Block)
      && (r.status == Status.Error <==> r.decisionState == State.Error)
      && (r.status == Status.Skipped <==> r.decisionState == State.Skipped)
      && (r.originalState == State.Unknown <==>
          && settled && !SomeReports(q, Fail) && !SomeRequiredReports(q, Status.Error)
          && SomeRequiredReports(q, Status.Unknown))
      && (r.originalState != State.Unknown ==> r.originalState == r.decisionState)
      && (r.recommendation == MergeAllow <==> r.decisionState == Allow)
      && (r.recommendation == MergeBlock <==> r.decisionState == Block)
      && (r.recommendation == RequireStrongerCheck <==> Answered(q) && TooWeak(q, v.accepted))
      && r.recommendation in {MergeAllow, MergeBlock, RequireStrongerCheck, RequireHumanReview}
      && r.fallback == if Answered(q) then v else Verdict(false, false, None)
  {
    hide SetsAgree, GateFires, Reports, RequiredReports, Answered, TooWeak, SomeReports, SomeRequiredReports;
    hide OriginalState, Strip, Request.Findings, Request.RequiredFindingIds, SkipBlocks;
    DecisionTable(q, v);
    SameConditions(q, v.accepted);
    FindingStatuses(q);
    if SetsAgree(q) {
      OriginalOfFindings(q);
      RecommendationExactly(q.Findings(), Strict, DEFAULT_POLICY, None);
      OverlayExactly(q.Findings(), Strict, DEFAULT_POLICY, None);
      DefaultPolicyBlocksNothing();
    }
  }

  lemma OriginalOfFindings(q: Request)
    ensures OriginalState(q.Findings()) == State.Unknown <==>
      && !SomeReports(q, Fail) && !SomeRequiredReports(q, Status.Error) && SomeRequiredReports(q, Status.Unknown)
  {
    hide Reports, RequiredReports, SomeReports, SomeRequiredReports, AnyFail, RequiredHas, SomeRequired;
    hide Request.Findings;
    FindingStatuses(q);
    SameConditions(q, true);
  }

  /** The controlling ids, exactly, each naming the obligation and a backend. */
  lemma ControllersExactly(q: Request, v: Verdict, id: string)
    ensures var a := AggregationOf(q, v);
      && (!Answered(q) ==> a.controllingIds == [])
      && (Answered(q) ==> (id in a.controllingIds <==> exists r | r in q.results ::
            && id == q.obligationId + ":" + r.backend
            && if TooWeak(q, v.accepted) then IsRequired(q, r.backend) else ResultControls(q, a.originalState, r)))
  {
    hide SetsAgree, GateFires, TooWeak, Answered, OriginalState, Request.Findings;
    SameConditions(q, v.accepted);
    if !SetsAgree(q) {
      assert AggregationOf(q, v).controllingIds == [];
    } else if GateFires(q, v.accepted) {
      RequiredIdsAre(q);
      GateControllers(q, id);
    } else {
      LatticeControllers(q, id);
    }
  }

  /** Whether a result controls a lattice decision taken from `original`. */
  ghost predicate ResultControls(q: Request, original: State, r: BackendResult) {
    match original
    case Block => r.status == Fail
    case Error => IsRequired(q, r.backend) && r.status == Status.Error
    case Unknown => IsRequired(q, r.backend) && r.status == Status.Unknown
    case Skipped => IsRequired(q, r.backend) && r.status == Status.Skipped
    case Allow => IsRequired(q, r.backend) && r.status == Pass
    case NeedsReview => false
  }

  lemma LatticeControllers(q: Request, id: string)
    ensures var o := OutcomeOf(q.Findings(), Strict, DEFAULT_POLICY, None);
      id in o.controllingIds <==> exists r ::
        r in q.results && id == q.obligationId + ":" + r.backend && ResultControls(q, o.originalState, r)
  {
    hide OutcomeOf, Request.Findings, Request.RequiredIds, IsRequired;
    Decision.ControllersExactly(q.Findings(), Strict, DEFAULT_POLICY, None, id);
    FindingsAre(q);
    RequiredIdsAre(q);
  }

  lemma GateControllers(q: Request, id: string)
    ensures id in q.RequiredFindingIds() <==> exists r ::
      r in q.results && r.backend in q.RequiredIds() && id == q.obligationId + ":" + r.backend
  {
    var required := q.RequiredResults();
    assert forall r :: r in required <==> r in q.results && r.backend in q.RequiredIds();
    assert forall i :: 0 <= i < |required| ==> q.RequiredFindingIds()[i] == q.obligationId + ":" + required[i].backend;
    hide Request.RequiredResults, Request.RequiredIds, Request.RequiredFindingIds;
    if r :| r in q.results && r.backend in q.RequiredIds() && id == q.obligationId + ":" + r.backend {
      var i :| 0 <= i < |required| && required[i] == r;
      assert q.RequiredFindingIds()[i] == id;
    }
  }
}
