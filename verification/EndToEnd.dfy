/** What the record of a control-plane call guarantees, in any history and whatever stage of
    whatever adapter or cache access raises. */
module EndToEnd {
  import opened Ordering
  import opened Text
  import opened Decision
  import opened ExecutionModels
  import opened BackendAggregation
  import AggregationOutcomes
  import opened ControlPlane
  import opened CacheTransparency

  // ----------------------------------------------------------------- pairing

  /** Whatever stage raises, a step pairs its attempt and its result. */
  lemma StepPaired(adapters: Adapters, c: Call, s: Selection, access: Access, entries: Entries)
    ensures FreshStep(adapters, c, s).attempt.attemptId == FreshStep(adapters, c, s).result.attemptId
    ensures var step := CachedStep(adapters, c, s, access, entries).0; step.attempt.attemptId == step.result.attemptId
  {
  }

  predicate Paired(steps: seq<Step>) {
    forall i :: 0 <= i < |steps| ==> steps[i].attempt.attemptId == steps[i].result.attemptId
  }

  lemma CachedPaired(adapters: Adapters, c: Call, selections: seq<Selection>, entries: Entries)
    ensures Paired(CachedSteps(adapters, c, selections, entries).0)
  {
    hide CachedStep, CachedSteps, FreshStep;
    forall k | 0 <= k < |selections|
      ensures var step := CachedSteps(adapters, c, selections, entries).0[k];
        step.attempt.attemptId == step.result.attemptId
    {
      StepAt(adapters, c, selections, entries, k);
      StepPaired(adapters, c, selections[k], c.access(k), EntriesAt(adapters, c, selections, entries, k));
    }
  }

  function AttemptIdOf(a: Attempt): AttemptId { a.attemptId }

  function ResultIdOf(r: BackendResult): AttemptId { r.attemptId }

  /** A record holds one attempt and one result per selection, and their attempt ids match
      one to one, sorted lists or not. */
  lemma OneAttemptOneResult(record: Record, c: Call, steps: seq<Step>)
    requires IsRecord(record, c, steps) && Paired(steps)
    ensures |record.attempts| == |record.results| == |steps|
    ensures multiset(Map(AttemptIdOf, record.attempts)) == multiset(Map(ResultIdOf, record.results))
  {
    hide AggregationOf, JudgedBy, SortBy, Map, CompiledOf, RequestOf;
    MapMultiset(AttemptIdOf, record.attempts, Map(AttemptOf, steps));
    MapMultiset(ResultIdOf, record.results, Map(ResultOf, steps));
    assert Map(AttemptIdOf, Map(AttemptOf, steps)) == Map(ResultIdOf, Map(ResultOf, steps));
  }

  // ------------------------------------------------------------------ labels

  /** Adapters label what they produce with their own backend id. */
  ghost predicate Labelled(adapters: Adapters, calls: seq<Call>) {
    forall c, s :: c in calls && s in c.routing.selected ==>
      LabelledRun(Prepare(adapters, c, s), c.routing.budget, s.backend)
  }

  predicate LabelledRun(p: Prepared, budget: Budget, backend: string) {
    p.Ready? ==>
      var run := FreshRun(p.adapter, p.compiled, budget);
      run.Finished? ==> run.raw.backend == backend && run.normalized.backend == backend
  }

  lemma StepLabel(adapters: Adapters, calls: seq<Call>, c: Call, s: Selection, step: Step)
    requires Labelled(adapters, calls) && c in calls && s in c.routing.selected && FollowsAt(adapters, c, s, step)
    ensures step.result.backend == s.backend == step.attempt.backend
  {
  }

  ghost predicate LabelsMatch(c: Call, steps: seq<Step>) {
    |steps| == |Ordered(c)| && forall i :: 0 <= i < |steps| ==>
      steps[i].result.backend == Ordered(c)[i].backend == steps[i].attempt.backend
  }

  /** With labelled outputs each attempt and result answers for its selection, cached or not. */
  lemma StepLabels(adapters: Adapters, calls: seq<Call>, c: Call, steps: seq<Step>)
    requires Labelled(adapters, calls) && c in calls && Follows(adapters, c, steps)
    ensures LabelsMatch(c, steps)
  {
    hide SortBy, Labelled, FollowsAt;
    forall i | 0 <= i < |steps| ensures steps[i].result.backend == Ordered(c)[i].backend == steps[i].attempt.backend {
      assert Ordered(c)[i] in Ordered(c) && Ordered(c)[i] in c.routing.selected;
      StepLabel(adapters, calls, c, Ordered(c)[i], steps[i]);
    }
  }

  /** Then the executed backends are exactly the selected ones. */
  lemma SelectedAreExecuted(c: Call, steps: seq<Step>, record: Record)
    requires IsRecord(record, c, steps) && LabelsMatch(c, steps)
    ensures SetsAgree(RequestOf(c, record.attempts, record.results))
  {
    hide AggregationOf, JudgedBy, SortBy, Map, CompiledOf;
    var request := RequestOf(c, record.attempts, record.results);
    var selections, results := Ordered(c), Map(ResultOf, steps);
    assert forall s :: s in selections <==> s in c.routing.selected;
    assert forall r :: r in record.results <==> r in results;
    forall b | b in request.SelectedIds() ensures b in request.ExecutedIds() {
      var s :| s in selections && s.backend == b;
      var i :| 0 <= i < |selections| && selections[i] == s;
      assert results[i] in record.results;
    }
    forall b | b in request.ExecutedIds() ensures b in request.SelectedIds() {
      var r :| r in results && r.backend == b;
      var i :| 0 <= i < |results| && results[i] == r;
      assert selections[i] in selections;
    }
  }

  // --------------------------------------------- transparency of records, exactly

  /** Spoiled selections of one backend would all have shown its one finished run. */
  lemma SpoiledRunsAgree(adapters: Adapters, c: Call, s: Selection, t: Selection, a: Access, b: Access, x: Entries,
      y: Entries)
    requires Spoiled(adapters, c, s, a, x) && Spoiled(adapters, c, t, b, y) && s.backend == t.backend
    ensures ViewStep(FreshStep(adapters, c, s)) == ViewStep(FreshStep(adapters, c, t))
  {
  }

  lemma {:induction false} FewerOccurrences<T>(x: T, a: seq<T>, b: seq<T>, j: nat)
    requires |a| == |b| && j < |a| && a[j] != x && b[j] == x
    requires forall k :: 0 <= k < |a| && a[k] == x ==> b[k] == x
    ensures multiset(a)[x] < multiset(b)[x]
  {
    var n := |a| - 1;
    assert a == a[..n] + [a[n]] && b == b[..n] + [b[n]];
    if j < n {
      FewerOccurrences(x, a[..n], b[..n], j);
    } else {
      NoMoreOccurrences(x, a[..n], b[..n]);
    }
  }

  lemma {:induction false} NoMoreOccurrences<T>(x: T, a: seq<T>, b: seq<T>)
    requires |a| == |b| && forall k :: 0 <= k < |a| && a[k] == x ==> b[k] == x
    ensures multiset(a)[x] <= multiset(b)[x]
  {
    if a != [] {
      var n := |a| - 1;
      assert a == a[..n] + [a[n]] && b == b[..n] + [b[n]];
      NoMoreOccurrences(x, a[..n], b[..n]);
    }
  }

  /** What the attempts and results of a record show, as multisets. */
  lemma RecordViews(record: Record, c: Call, steps: seq<Step>)
    requires IsRecord(record, c, steps)
    ensures multiset(Map(ViewAttempt, record.attempts)) == multiset(Map(ViewAttempt, Map(AttemptOf, steps)))
    ensures multiset(Map(ViewResult, record.results)) == multiset(Map(ViewResult, Map(ResultOf, steps)))
  {
    hide SortBy, Map, IsAggregation, CompiledOf;
    MapMultiset(ViewAttempt, record.attempts, Map(AttemptOf, steps));
    MapMultiset(ViewResult, record.results, Map(ResultOf, steps));
  }

  /** A spoiled selection leaves a record with a different attempt or a different result. */
  lemma SpoiledRecordDiffers(adapters: Adapters, calls: seq<Call>, c: Call, entries: Entries, steps: seq<Step>, j: nat,
                             cached: Record, uncached: Record)
    requires Labelled(adapters, calls) && c in calls && j < |steps| == |Ordered(c)|
      && SpoiledAt(adapters, c, entries, j)
    requires forall k :: 0 <= k < |steps| ==> ComparedAt(adapters, c, entries, steps, k)
    requires IsRecord(cached, c, steps) && IsRecord(uncached, c, FreshSteps(adapters, c, Ordered(c)))
    ensures Map(ViewAttempt, cached.attempts) != Map(ViewAttempt, uncached.attempts)
         || Map(ViewResult, cached.results) != Map(ViewResult, uncached.results)
  {
    hide IsRecord, SortBy, Spoiled, FreshSteps, Labelled, ViewAttempt, ViewResult, Map, FreshStep, HandledStep;
    var uncachedSteps := FreshSteps(adapters, c, Ordered(c));
    RecordViews(cached, c, steps);
    RecordViews(uncached, c, uncachedSteps);
    var shown := ViewStep(uncachedSteps[j]);
    forall k | 0 <= k < |steps|
      ensures ViewAttempt(steps[k].attempt) == shown.attempt ==> ViewAttempt(uncachedSteps[k].attempt) == shown.attempt
      ensures ViewResult(steps[k].result) == shown.result ==> ViewResult(uncachedSteps[k].result) == shown.result
    {
      KeepsShowing(adapters, calls, c, entries, steps, j, k);
    }
    SpoiledShows(adapters, c, entries, steps, j);
    if ViewAttempt(steps[j].attempt) != shown.attempt {
      FewerOccurrences(shown.attempt, Map(ViewAttempt, Map(AttemptOf, steps)),
        Map(ViewAttempt, Map(AttemptOf, uncachedSteps)), j);
    } else {
      FewerOccurrences(shown.result, Map(ViewResult, Map(ResultOf, steps)),
        Map(ViewResult, Map(ResultOf, uncachedSteps)), j);
    }
  }

  /** A step that shows the spoiled run's attempt or result shows it without a cache as well. */
  lemma KeepsShowing(adapters: Adapters, calls: seq<Call>, c: Call, entries: Entries, steps: seq<Step>, j: nat, k: nat)
    requires Labelled(adapters, calls) && c in calls && j < |steps| == |Ordered(c)| && k < |steps|
    requires SpoiledAt(adapters, c, entries, j) && ComparedAt(adapters, c, entries, steps, k)
    ensures var shown := ViewStep(FreshStep(adapters, c, Ordered(c)[j]));
      var uncached := FreshStep(adapters, c, Ordered(c)[k]);
      && (ViewAttempt(steps[k].attempt) == shown.attempt ==> ViewAttempt(uncached.attempt) == shown.attempt)
      && (ViewResult(steps[k].result) == shown.result ==> ViewResult(uncached.result) == shown.result)
  {
    hide SortBy, Spoiled, Labelled, FreshStep;
    var s, t := Ordered(c)[j], Ordered(c)[k];
    assert s in Ordered(c) && t in Ordered(c);
    StepLabel(adapters, calls, c, s, FreshStep(adapters, c, s));
    if SpoiledAt(adapters, c, entries, k) && s.backend == t.backend {
      SpoiledRunsAgree(adapters, c, s, t, c.access(j), c.access(k),
                       EntriesAt(adapters, c, Ordered(c), entries, j), EntriesAt(adapters, c, Ordered(c), entries, k));
    }
  }

  lemma SpoiledShows(adapters: Adapters, c: Call, entries: Entries, steps: seq<Step>, j: nat)
    requires j < |steps| == |Ordered(c)| && SpoiledAt(adapters, c, entries, j)
      && ComparedAt(adapters, c, entries, steps, j)
    ensures var shown := ViewStep(FreshStep(adapters, c, Ordered(c)[j]));
      ViewAttempt(steps[j].attempt) != shown.attempt || ViewResult(steps[j].result) != shown.result
  {
    hide SortBy, FreshStep;
  }

  /** Cache transparency, exactly: with labelled adapters, the record of a call in a history from
      an empty cache shows the attempts, results and obligations of cache-free execution if and
      only if none of its selections is spoiled; and then it decides the same. */
  lemma TransparentExactly(adapters: Adapters, calls: seq<Call>, i: nat, cached: Record, uncached: Record)
    requires ContentAddressed(adapters, calls) && Labelled(adapters, calls) && i < |calls|
    requires IsRecord(cached, calls[i], History(adapters, calls, map[]).0[i])
    requires IsRecord(uncached, calls[i], FreshSteps(adapters, calls[i], Ordered(calls[i])))
    ensures Unspoiled(adapters, calls[i], Before(adapters, calls, i)) <==>
      && Map(ViewAttempt, cached.attempts) == Map(ViewAttempt, uncached.attempts)
      && Map(ViewResult, cached.results) == Map(ViewResult, uncached.results)
    ensures Unspoiled(adapters, calls[i], Before(adapters, calls, i)) ==>
      cached.aggregation == uncached.aggregation && cached.backendObligations == uncached.backendObligations
  {
    hide ContentAddressed, Labelled, IsRecord, History, FreshSteps, Map,
      ComparedAt, SpoiledAt, Sound, Ordered, CachedSteps;
    var c, entries := calls[i], Before(adapters, calls, i);
    if Unspoiled(adapters, c, entries) {
      CacheTransparent(adapters, calls, i, cached, uncached);
    } else {
      EmptyCacheSound(adapters, calls);
      HistorySound(adapters, calls, calls[..i], map[]);
      HistoryAt(adapters, calls, map[], i);
      var steps := CachedSteps(adapters, c, Ordered(c), entries).0;
      forall k | 0 <= k < |steps| ensures ComparedAt(adapters, c, entries, steps, k) {
        CompareAt(adapters, calls, c, entries, k);
      }
      var j :| 0 <= j < |Ordered(c)| && SpoiledAt(adapters, c, entries, j);
      SpoiledRecordDiffers(adapters, calls, c, entries, steps, j, cached, uncached);
    }
  }

  // ------------------------------------------------------------ what ALLOW means

  /** End to end: in any history from an empty cache, with labelled adapters, no call reports a
      quality error, and a call that allows had a required selection, every required result
      passed, and nothing failed. */
  lemma AllowEndToEnd(adapters: Adapters, calls: seq<Call>, i: nat, record: Record)
    requires ContentAddressed(adapters, calls) && Labelled(adapters, calls) && i < |calls|
    requires IsRecord(record, calls[i], History(adapters, calls, map[]).0[i])
    ensures !record.aggregation.qualityError
    ensures record.aggregation.decisionState == Allow ==>
      && (exists s :: s in calls[i].routing.selected && s.required)
      && (forall s, r :: s in calls[i].routing.selected && s.required && r in record.results ==>
            (r.backend == s.backend ==> r.status == Pass))
      && (forall s :: s in calls[i].routing.selected ==> exists r :: r in record.results && r.backend == s.backend)
      && forall r :: r in record.results ==> r.status != Fail
  {
    hide ContentAddressed, Unspoiled, History, Follows, FreshSteps, Labelled,
      AggregationOf, SortBy, IsVerdict, LabelsMatch;
    HistoryTransparent(adapters, calls, i);
    StepLabels(adapters, calls, calls[i], History(adapters, calls, map[]).0[i]);
    SelectedAreExecuted(calls[i], History(adapters, calls, map[]).0[i], record);
    var q := RequestOf(calls[i], record.attempts, record.results);
    var v :| JudgedBy(q, v) && record.aggregation == AggregationOf(q, v);
    DecisionTable(q, v);
    BackendAggregation.AllowExactly(q, v);
    AllowMeans(q, v.accepted);
  }

  lemma AllowMeans(q: Request, accepted: bool)
    requires SetsAgree(q)
    ensures RequiredSatisfied(q, accepted) ==>
      forall s, r :: s in q.selected && s.required && r in q.results && r.backend == s.backend ==> r.status == Pass
    ensures forall s :: s in q.selected ==> exists r :: r in q.results && r.backend == s.backend
    ensures !Reports(q, Fail) ==> forall r :: r in q.results ==> r.status != Fail
  {
    forall s | s in q.selected ensures exists r :: r in q.results && r.backend == s.backend {
      assert s.backend in q.SelectedIds();
    }
  }

  // ------------------------------------------------------------ fallback

  /** A passing step shows the one run of its backend: repeated selections of a backend that
      pass show the same. */
  lemma PassingStepsAgree(adapters: Adapters, c: Call, s: Selection, t: Selection, x: Step, y: Step)
    requires FollowsAt(adapters, c, s, x) && FollowsAt(adapters, c, t, y) && s.backend == t.backend
    requires x.result.status == Pass && y.result.status == Pass
    ensures ViewStep(x) == ViewStep(y)
  {
  }

  /** All results and attempts of a required backend show the same under ALLOW. */
  lemma OneView(adapters: Adapters, c: Call, steps: seq<Step>, record: Record, k: nat)
    requires IsRecord(record, c, steps) && Follows(adapters, c, steps) && LabelsMatch(c, steps) && k < |steps|
    requires forall r :: r in record.results && r.backend == steps[k].result.backend ==> r.status == Pass
    ensures forall r :: r in record.results && r.backend == steps[k].result.backend ==>
      ViewResult(r) == ViewResult(steps[k].result)
    ensures forall a :: a in record.attempts && a.backend == steps[k].result.backend ==>
      ViewAttempt(a) == ViewAttempt(steps[k].attempt)
    ensures steps[k].attempt in record.attempts && steps[k].result in record.results
  {
    hide SortBy, IsAggregation, CompiledOf, FollowsAt, ViewAttempt, ViewResult;
    var results, attempts := Map(ResultOf, steps), Map(AttemptOf, steps);
    assert results[k] in results && attempts[k] in attempts;
    forall j | 0 <= j < |steps| && steps[j].result.backend == steps[k].result.backend
      ensures ViewStep(steps[j]) == ViewStep(steps[k]) {
      assert results[j] in results && results[j] in record.results;
      PassingStepsAgree(adapters, c, Ordered(c)[j], Ordered(c)[k], steps[j], steps[k]);
    }
    forall r | r in record.results && r.backend == steps[k].result.backend
      ensures ViewResult(r) == ViewResult(steps[k].result) {
      var j :| 0 <= j < |results| && results[j] == r;
    }
    forall a | a in record.attempts && a.backend == steps[k].result.backend
      ensures ViewAttempt(a) == ViewAttempt(steps[k].attempt) {
      var j :| 0 <= j < |attempts| && attempts[j] == a;
    }
  }

  /** Fallback soundness of execution itself: in any history, when a call with restricted
      guarantees allows, each required result outside them came with an attempt whose
      termination and policy qualify it as a fallback on its own, repeated backends included: it
      completed, was cancelled, or missed its tool where the policy tolerates that. */
  lemma FallbackEndToEnd(adapters: Adapters, calls: seq<Call>, i: nat, record: Record, r: BackendResult)
    requires ContentAddressed(adapters, calls) && Labelled(adapters, calls) && i < |calls|
    requires IsRecord(record, calls[i], History(adapters, calls, map[]).0[i])
    requires record.aggregation.decisionState == Allow && calls[i].obligation.acceptableGuarantees != []
    requires r in record.results && r.guaranteeType !in calls[i].obligation.acceptableGuarantees
    requires exists s :: s in calls[i].routing.selected && s.required && s.backend == r.backend
    ensures exists a ::
      && a in record.attempts && a.backend == r.backend && a.attemptId == r.attemptId
      && Qualifies(calls[i].routing.fallbackPolicy, r.backend, a.termination, r.guaranteeType)
      && a.termination in {Completed, ToolUnavailable, Cancelled}
      && (a.termination == ToolUnavailable ==>
          calls[i].routing.fallbackPolicy.onToolUnavailable in {ToUnknown, ToFallback})
  {
    hide ContentAddressed, Unspoiled, Follows, History, FreshSteps, Labelled,
      AggregationOf, SortBy, IsVerdict, Qualifies;
    hide CachedSteps, Ordered;
    var c, steps := calls[i], History(adapters, calls, map[]).0[i];
    HistoryTransparent(adapters, calls, i);
    StepLabels(adapters, calls, c, steps);
    HistoryAt(adapters, calls, map[], i);
    CachedPaired(adapters, c, Ordered(c), Before(adapters, calls, i));
    AllowEndToEnd(adapters, calls, i, record);
    var results := Map(ResultOf, steps);
    assert r in results;
    var k :| 0 <= k < |results| && results[k] == r;
    QualifiedStep(adapters, c, steps, record, k);
    AggregationOutcomes.QualifiesExactly(c.routing.fallbackPolicy, r.backend, steps[k].attempt.termination,
                                         r.guaranteeType);
  }

  lemma QualifiedStep(adapters: Adapters, c: Call, steps: seq<Step>, record: Record, k: nat)
    requires IsRecord(record, c, steps) && Paired(steps) && Follows(adapters, c, steps)
      && LabelsMatch(c, steps) && k < |steps|
    requires record.aggregation.decisionState == Allow && c.obligation.acceptableGuarantees != []
    requires steps[k].result.guaranteeType !in c.obligation.acceptableGuarantees
    requires forall r :: r in record.results && r.backend == steps[k].result.backend ==> r.status == Pass
    requires exists s :: s in c.routing.selected && s.required && s.backend == steps[k].result.backend
    ensures var a, r := steps[k].attempt, steps[k].result;
      && a in record.attempts && a.backend == r.backend && a.attemptId == r.attemptId
      && Qualifies(c.routing.fallbackPolicy, r.backend, a.termination, r.guaranteeType)
  {
    hide AggregationOf, SortBy, IsVerdict, Qualifies, LastAttempt, CompiledOf, Follows, Map;
    var q, r := RequestOf(c, record.attempts, record.results), steps[k].result;
    OneView(adapters, c, steps, record, k);
    assert c.obligation.acceptableGuarantees[0] in q.acceptable;
    assert r.backend in q.RequiredIds();
    var v :| JudgedBy(q, v) && record.aggregation == AggregationOf(q, v);
    FallbackSound(q, v, r);
  }

  // ------------------------------------------- a refused write changes a decision

  const PASSING := Adapter(
    "b", "adapter", "1", Raised, true,
    (o: Obligation) => Raised,
    (o: Obligation, r: Routing) => Ok(BackendObligation("id", "b", "1", "1", "payload", "digest", "")),
    (compiled: BackendObligation) => Ok(Fingerprint("environment", None, None)),
    (compiled: BackendObligation, budget: Budget) => Ok(RawExecution("b", "id", Completed, "details", true)),
    (raw: RawExecution, compiled: BackendObligation) => Ok(Normalized("b", Pass, "strong")))

  const REFUSED := Call(
    Obligation("o", Subject("repo", "head", None), "intent", [], "policy", None),
    Routing("routing", "o", ["b"], [], [Selection("b", "", true)], [], FAIL_DOMINANT_V1,
            DEFAULT_FALLBACK_POLICY, Budget(1.0, 1, false, false), "policy"),
    (n: nat) => Access(Delivered, WriteRaised(false)))

  const SELECTED := Selection("b", "", true)

  lemma RefusedSteps()
    ensures var adapters := map["b" := PASSING];
      && REFUSED.routing.selected == [SELECTED] == Ordered(REFUSED)
      && FreshStep(adapters, REFUSED, SELECTED).result.status == Pass
      && FreshStep(adapters, REFUSED, SELECTED).result.backend == SELECTED.backend
      && HandledStep(adapters, REFUSED, SELECTED).result.backend == SELECTED.backend
      && Interrupted(adapters, REFUSED, SELECTED, REFUSED.access(0), map[])
  {
  }

  lemma RefusedRuns()
    ensures var adapters := map["b" := PASSING];
      && FreshSteps(adapters, REFUSED, [SELECTED]) == [FreshStep(adapters, REFUSED, SELECTED)]
      && History(adapters, [REFUSED], map[]).0[0]
        == [CachedStep(adapters, REFUSED, SELECTED, REFUSED.access(0), map[]).0]
  {
    RefusedSteps();
    hide FreshStep, CachedStep, PASSING, REFUSED, SELECTED, Ordered;
    var adapters := map["b" := PASSING];
    HistoryAt(adapters, [REFUSED], map[], 0);
    StepAt(adapters, REFUSED, [SELECTED], map[], 0);
    assert [REFUSED][..0] == [] && [SELECTED][..0] == [];
  }

  lemma OneResultDecides(c: Call, step: Step, record: Record)
    requires IsRecord(record, c, [step]) && |c.routing.selected| == 1 && c.routing.selected[0].required
    requires step.result.backend == c.routing.selected[0].backend && c.obligation.acceptableGuarantees == []
    ensures step.result.status == Pass ==> record.aggregation.decisionState == Allow
    ensures step.result.status == Status.Error ==> record.aggregation.decisionState == State.Error
  {
    hide AggregationOf, IsVerdict;
    var q := RequestOf(c, record.attempts, record.results);
    assert record.results == [step.result];
    var v :| JudgedBy(q, v) && record.aggregation == AggregationOf(q, v);
    assert c.routing.selected == [c.routing.selected[0]];
    assert q.SelectedIds() == {step.result.backend} && q.ExecutedIds() == {step.result.backend};
    assert c.routing.selected[0] in q.selected && step.result in q.results;
    DecisionTable(q, v);
  }

  /** The cache-free record allows; with the refused write the same call ends in ERROR. */
  lemma RefusedWriteLosesAllow(cached: Record, uncached: Record)
    requires IsRecord(cached, REFUSED, History(map["b" := PASSING], [REFUSED], map[]).0[0])
    requires IsRecord(uncached, REFUSED, FreshSteps(map["b" := PASSING], REFUSED, Ordered(REFUSED)))
    ensures uncached.aggregation.decisionState == Allow && cached.aggregation.decisionState == State.Error
  {
    var adapters := map["b" := PASSING];
    RefusedSteps();
    RefusedRuns();
    assert SELECTED.required && REFUSED.obligation.acceptableGuarantees == [];
    hide IsRecord, Interrupted, FreshStep, CachedStep, HandledStep, Spoiled,
      SELECTED, PASSING, REFUSED, History, FreshSteps;
    RefusedWriteErrs(adapters, REFUSED, SELECTED, REFUSED.access(0), map[]);
    OneResultDecides(REFUSED, FreshStep(adapters, REFUSED, SELECTED), uncached);
    OneResultDecides(REFUSED, CachedStep(adapters, REFUSED, SELECTED, REFUSED.access(0), map[]).0, cached);
  }
}
