/** Whole histories of control-plane calls that share one cache. */
module CacheTransparency {
  import opened Ordering
  import opened Text
  import opened Decision
  import opened ExecutionModels
  import opened BackendAggregation
  import opened ControlPlane
  import BackendRegistry

  type Adapters = map<string, Adapter>

  // ------------------------------------------------------------------ histories

  /** The steps of every call of a history, and the entries it leaves behind. */
  function History(adapters: Adapters, calls: seq<Call>, start: Entries): (r: (seq<seq<Step>>, Entries))
    ensures |r.0| == |calls|
  {
    if calls == [] then ([], start) else
      var front := History(adapters, calls[..|calls| - 1], start);
      var last := CachedSteps(adapters, calls[|calls| - 1], Ordered(calls[|calls| - 1]), front.1);
      (front.0 + [last.0], last.1)
  }

  /** The i-th call runs on the entries that the calls before it left. */
  lemma {:induction false} HistoryAt(adapters: Adapters, calls: seq<Call>, start: Entries, i: nat)
    requires i < |calls|
    ensures History(adapters, calls, start).0[i] ==
      CachedSteps(adapters, calls[i], Ordered(calls[i]), History(adapters, calls[..i], start).1).0
  {
    hide CachedSteps, Ordered;
    var n := |calls| - 1;
    if i < n {
      HistoryAt(adapters, calls[..n], start, i);
      assert calls[..n][..i] == calls[..i];
    }
  }

  /** Calls made one after the other on one cache, as their callers make them. */
  method ExecuteHistory(plane: BackendControlPlane, calls: seq<Call>,
      registry: BackendRegistry.Registry, cache: ResultCache)
    returns (records: seq<Result<Record>>)
    modifies cache
    ensures |records| == |calls| && cache.entries == History(registry.byBackend, calls, old(cache.entries)).1
    ensures forall i :: 0 <= i < |calls| ==>
      && (records[i].Ok? <==> calls[i].routing.aggregationPolicy == FAIL_DOMINANT_V1)
      && (records[i].Ok? ==>
            IsRecord(records[i].value, calls[i], History(registry.byBackend, calls, old(cache.entries)).0[i]))
  {
    hide IsRecord, CachedSteps, Ordered;
    records := [];
    ghost var start := cache.entries;
    for i := 0 to |calls|
      invariant |records| == i && cache.entries == History(registry.byBackend, calls[..i], start).1
      invariant forall j :: 0 <= j < i ==>
        && (records[j].Ok? <==> calls[j].routing.aggregationPolicy == FAIL_DOMINANT_V1)
        && (records[j].Ok? ==> IsRecord(records[j].value, calls[j], History(registry.byBackend, calls, start).0[j]))
    {
      var r := plane.Execute(calls[i], registry, Some(cache));
      HistoryAt(registry.byBackend, calls, start, i);
      assert calls[..i + 1][..i] == calls[..i];
      records := records + [r];
    }
    assert calls[..|calls|] == calls;
  }

  /** Backend obligation ids and routing ids are content digests: over the history they
      determine the compiled obligation and the budget. */
  ghost predicate ContentAddressed(adapters: Adapters, calls: seq<Call>) {
    && (forall c, d :: c in calls && d in calls && c.routing.routingId == d.routing.routingId ==>
          c.routing.budget == d.routing.budget)
    && (forall c, d, s, t :: c in calls && d in calls && s in c.routing.selected && t in d.routing.selected ==>
          SameCompilation(Prepare(adapters, c, s), Prepare(adapters, d, t)))
  }

  predicate SameCompilation(p: Prepared, q: Prepared) {
    p.Ready? && q.Ready? && p.compiled.backendObligationId == q.compiled.backendObligationId ==>
      p.compiled == q.compiled
  }

  /** What a run under a key yields, up to the attempt's own `required` flag and id. */
  datatype RunView = RunView(attempt: AttemptView, result: ResultView)

  function ViewEntry(e: CachedExecution): RunView {
    RunView(ViewAttempt(e.attempt), ViewResult(e.result))
  }

  predicate Yields(run: Run, view: RunView) {
    && run.Finished?
    && view.attempt == AttemptView(run.raw.backendObligationId, run.raw.backend, run.raw.termination, run.raw.details)
    && view.result == ResultView(run.normalized.backend, run.normalized.status, run.normalized.guaranteeType)
  }

  /** Every cached entry equals what a fresh run under its key yields. */
  ghost predicate Sound(adapters: Adapters, calls: seq<Call>, entries: Entries) {
    forall c, s :: c in calls && s in c.routing.selected
      ==> EntrySound(Prepare(adapters, c, s), c.routing.budget, entries)
  }

  predicate EntrySound(p: Prepared, budget: Budget, entries: Entries) {
    p.Ready? && p.key in entries ==> Yields(FreshRun(p.adapter, p.compiled, budget), ViewEntry(entries[p.key]))
  }

  // --------------------------------------------------------------- transparency

  datatype StepView = StepView(attempt: AttemptView, result: ResultView, compiled: Option<BackendObligation>)

  function ViewStep(s: Step): StepView {
    StepView(ViewAttempt(s.attempt), ViewResult(s.result), s.compiled)
  }

  /** The cache raises in the course of this step: while reading, or while storing a
      cacheable run that was not found. */
  predicate Interrupted(adapters: Adapters, c: Call, s: Selection, access: Access, entries: Entries) {
    var p := Prepare(adapters, c, s);
    p.Ready? &&
      (access.read.ReadRaised? ||
        var run := FreshRun(p.adapter, p.compiled, c.routing.budget);
        !(access.read.Delivered? && p.key in entries)
        && run.Finished? && run.raw.envelopeProduced && access.write.WriteRaised?)
  }

  /** What the exception handler records for the selection. */
  function HandledStep(adapters: Adapters, c: Call, s: Selection): Step {
    ErrorStep(s, FreshStep(adapters, c, s).compiled)
  }

  /** An interruption that shows: the selection would not have failed anyway. */
  predicate Spoiled(adapters: Adapters, c: Call, s: Selection, access: Access, entries: Entries) {
    Interrupted(adapters, c, s, access, entries)
    && ViewStep(FreshStep(adapters, c, s)) != ViewStep(HandledStep(adapters, c, s))
  }

  /** Equal keys mean equal runs. */
  lemma KeyDeterminesRun(adapters: Adapters, calls: seq<Call>, c: Call, d: Call, s: Selection, t: Selection)
    requires ContentAddressed(adapters, calls) && c in calls && d in calls
    requires s in c.routing.selected && t in d.routing.selected
    requires Prepare(adapters, c, s).Ready? && Prepare(adapters, d, t).Ready?
    requires Prepare(adapters, c, s).key == Prepare(adapters, d, t).key
    ensures var p, q := Prepare(adapters, c, s), Prepare(adapters, d, t);
      FreshRun(p.adapter, p.compiled, c.routing.budget) == FreshRun(q.adapter, q.compiled, d.routing.budget)
  {
  }

  lemma PutSound(adapters: Adapters, calls: seq<Call>, c: Call, s: Selection, entries: Entries, value: CachedExecution)
    requires ContentAddressed(adapters, calls) && Sound(adapters, calls, entries)
      && c in calls && s in c.routing.selected
    requires Prepare(adapters, c, s).Ready?
    requires var p := Prepare(adapters, c, s);
      Yields(FreshRun(p.adapter, p.compiled, c.routing.budget), ViewEntry(value))
    ensures Sound(adapters, calls, entries[Prepare(adapters, c, s).key := value])
  {
  }

  lemma LossSound(adapters: Adapters, calls: seq<Call>, entries: Entries, key: CacheKey)
    requires Sound(adapters, calls, entries)
    ensures Sound(adapters, calls, entries - {key})
  {
  }

  lemma SoundAt(adapters: Adapters, calls: seq<Call>, c: Call, s: Selection, entries: Entries)
    requires Sound(adapters, calls, entries) && c in calls && s in c.routing.selected
    ensures EntrySound(Prepare(adapters, c, s), c.routing.budget, entries)
  {
  }

  /** One selection through a sound cache, however its files behave: soundness is kept, and
      the step shows what it shows without a cache, unless it was spoiled; then it is the
      handler's. */
  lemma StepTransparent(adapters: Adapters, calls: seq<Call>, c: Call, s: Selection, access: Access, entries: Entries)
    requires ContentAddressed(adapters, calls) && Sound(adapters, calls, entries)
      && c in calls && s in c.routing.selected
    ensures Sound(adapters, calls, CachedStep(adapters, c, s, access, entries).1)
    ensures ViewStep(CachedStep(adapters, c, s, access, entries).0) == ViewStep(FreshStep(adapters, c, s))
       <==> !Spoiled(adapters, c, s, access, entries)
    ensures Spoiled(adapters, c, s, access, entries) ==>
      CachedStep(adapters, c, s, access, entries).0 == HandledStep(adapters, c, s)
  {
    hide Prepare, FreshRun, ContentAddressed, Sound;
    var p := Prepare(adapters, c, s);
    if p.Ready? {
      var live := AfterRead(entries, p.key, access.read);
      LossSound(adapters, calls, entries, p.key);
      LossSound(adapters, calls, live, p.key);
      SoundAt(adapters, calls, c, s, live);
      var run := FreshRun(p.adapter, p.compiled, c.routing.budget);
      if run.Finished? {
        var step := RunStep(run, s, p.compiled);
        PutSound(adapters, calls, c, s, live, CachedExecution(step.attempt, step.result));
      }
    }
  }

  /** A passing run whose result cannot be stored is recorded as an error, although the same
      selection passes without a cache. */
  lemma RefusedWriteErrs(adapters: Adapters, c: Call, s: Selection, access: Access, entries: Entries)
    requires Interrupted(adapters, c, s, access, entries) && FreshStep(adapters, c, s).result.status == Pass
    ensures CachedStep(adapters, c, s, access, entries).0 == HandledStep(adapters, c, s)
    ensures HandledStep(adapters, c, s).result.status == Status.Error
    ensures Spoiled(adapters, c, s, access, entries)
  {
  }

  /** The entries before the k-th selection of a call. */
  function EntriesAt(adapters: Adapters, c: Call, selections: seq<Selection>, entries: Entries, k: nat): Entries
    requires k <= |selections|
  {
    CachedSteps(adapters, c, selections[..k], entries).1
  }

  lemma {:induction false} StepAt(adapters: Adapters, c: Call, selections: seq<Selection>, entries: Entries, k: nat)
    requires k < |selections|
    ensures CachedSteps(adapters, c, selections, entries).0[k] ==
      CachedStep(adapters, c, selections[k], c.access(k), EntriesAt(adapters, c, selections, entries, k)).0
  {
    hide CachedStep;
    var n := |selections| - 1;
    if k < n {
      StepAt(adapters, c, selections[..n], entries, k);
      assert selections[..n][..k] == selections[..k];
    }
  }

  lemma {:induction false} StepsSound(adapters: Adapters, calls: seq<Call>, c: Call, selections: seq<Selection>,
      entries: Entries)
    requires ContentAddressed(adapters, calls) && Sound(adapters, calls, entries) && c in calls
    requires forall s :: s in selections ==> s in c.routing.selected
    ensures Sound(adapters, calls, CachedSteps(adapters, c, selections, entries).1)
  {
    hide ContentAddressed, Sound, CachedStep, Spoiled;
    if selections != [] {
      var n := |selections| - 1;
      StepsSound(adapters, calls, c, selections[..n], entries);
      StepTransparent(adapters, calls, c, selections[n], c.access(n),
        CachedSteps(adapters, c, selections[..n], entries).1);
    }
  }

  predicate SpoiledAt(adapters: Adapters, c: Call, entries: Entries, k: nat)
    requires k < |Ordered(c)|
  {
    Spoiled(adapters, c, Ordered(c)[k], c.access(k), EntriesAt(adapters, c, Ordered(c), entries, k))
  }

  /** No selection of the call is spoiled. */
  predicate Unspoiled(adapters: Adapters, c: Call, entries: Entries) {
    forall k :: 0 <= k < |Ordered(c)| ==> !SpoiledAt(adapters, c, entries, k)
  }

  /** Each step shows what a fresh run shows, or is the exception handler's. */
  ghost predicate Follows(adapters: Adapters, c: Call, steps: seq<Step>) {
    && |steps| == |Ordered(c)|
    && forall k :: 0 <= k < |steps| ==> FollowsAt(adapters, c, Ordered(c)[k], steps[k])
  }

  predicate FollowsAt(adapters: Adapters, c: Call, s: Selection, step: Step) {
    ViewStep(step) == ViewStep(FreshStep(adapters, c, s)) || step == HandledStep(adapters, c, s)
  }

  /** Each step of a call, against the cache-free step of its selection. */
  ghost predicate ComparedAt(adapters: Adapters, c: Call, entries: Entries, steps: seq<Step>, k: nat)
    requires k < |steps| == |Ordered(c)|
  {
    var s := Ordered(c)[k];
    && (!SpoiledAt(adapters, c, entries, k) ==> ViewStep(steps[k]) == ViewStep(FreshStep(adapters, c, s)))
    && (SpoiledAt(adapters, c, entries, k) ==> steps[k] == HandledStep(adapters, c, s))
  }

  lemma CompareAt(adapters: Adapters, calls: seq<Call>, c: Call, entries: Entries, k: nat)
    requires ContentAddressed(adapters, calls) && Sound(adapters, calls, entries) && c in calls && k < |Ordered(c)|
    ensures ComparedAt(adapters, c, entries, CachedSteps(adapters, c, Ordered(c), entries).0, k)
  {
    hide ContentAddressed, Sound, CachedSteps, CachedStep, FreshStep, Spoiled, SortBy, ViewStep, HandledStep;
    var selections := Ordered(c);
    assert selections[k] in selections;
    StepsSound(adapters, calls, c, selections[..k], entries);
    StepAt(adapters, c, selections, entries, k);
    StepTransparent(adapters, calls, c, selections[k], c.access(k), EntriesAt(adapters, c, selections, entries, k));
  }

  lemma ComparedMeans(adapters: Adapters, c: Call, entries: Entries, steps: seq<Step>, k: nat)
    requires k < |steps| == |Ordered(c)| && ComparedAt(adapters, c, entries, steps, k)
    ensures FollowsAt(adapters, c, Ordered(c)[k], steps[k])
    ensures ViewStep(steps[k]) == ViewStep(FreshStep(adapters, c, Ordered(c)[k]))
      <==> !SpoiledAt(adapters, c, entries, k)
  {
    hide FreshStep, SortBy, Interrupted;
  }

  /** A call through a sound cache follows cache-free execution, and shows all of it if and
      only if no selection is spoiled. */
  lemma CallTransparent(adapters: Adapters, calls: seq<Call>, c: Call, entries: Entries)
    requires ContentAddressed(adapters, calls) && Sound(adapters, calls, entries) && c in calls
    ensures var steps := CachedSteps(adapters, c, Ordered(c), entries);
      && Sound(adapters, calls, steps.1) && Follows(adapters, c, steps.0)
      && (Map(ViewStep, steps.0) == Map(ViewStep, FreshSteps(adapters, c, Ordered(c)))
        <==> Unspoiled(adapters, c, entries))
  {
    hide ContentAddressed, Sound, CachedSteps, FreshStep, SpoiledAt, SortBy, FollowsAt, FreshSteps, ComparedAt;
    var selections := Ordered(c);
    StepsSound(adapters, calls, c, selections, entries);
    var steps, uncached := CachedSteps(adapters, c, selections, entries).0, FreshSteps(adapters, c, selections);
    forall k | 0 <= k < |steps|
      ensures FollowsAt(adapters, c, selections[k], steps[k])
      ensures ViewStep(steps[k]) == ViewStep(uncached[k]) <==> !SpoiledAt(adapters, c, entries, k)
    {
      CompareAt(adapters, calls, c, entries, k);
      ComparedMeans(adapters, c, entries, steps, k);
    }
    SameViews(steps, uncached);
  }

  lemma SameViews(a: seq<Step>, b: seq<Step>)
    requires |a| == |b|
    ensures Map(ViewStep, a) == Map(ViewStep, b) <==> forall k :: 0 <= k < |a| ==> ViewStep(a[k]) == ViewStep(b[k])
  {
    hide ViewStep;
    if Map(ViewStep, a) == Map(ViewStep, b) {
      forall k | 0 <= k < |a|
        ensures ViewStep(a[k]) == ViewStep(b[k]) { assert Map(ViewStep, a)[k] == Map(ViewStep, b)[k]; }
    }
  }

  /** Over any history of calls on one sound cache, for example an empty one, and whatever its
      files do, the cache stays sound. */
  lemma {:induction false} HistorySound(adapters: Adapters, calls: seq<Call>, run: seq<Call>, start: Entries)
    requires ContentAddressed(adapters, calls) && Sound(adapters, calls, start)
    requires forall c :: c in run ==> c in calls
    ensures Sound(adapters, calls, History(adapters, run, start).1)
  {
    hide ContentAddressed, Sound, CachedSteps, SortBy, Follows, Unspoiled;
    if run != [] {
      var n := |run| - 1;
      HistorySound(adapters, calls, run[..n], start);
      CallTransparent(adapters, calls, run[n], History(adapters, run[..n], start).1);
    }
  }

  lemma EmptyCacheSound(adapters: Adapters, calls: seq<Call>)
    ensures Sound(adapters, calls, map[])
  {
  }

  /** The entries before the i-th call of a history from an empty cache. */
  function Before(adapters: Adapters, calls: seq<Call>, i: nat): Entries
    requires i <= |calls|
  {
    History(adapters, calls[..i], map[]).1
  }

  /** In any history from an empty cache each call follows cache-free execution. Its attempts and
      results are those of cache-free execution, but for stored `required` flags and the attempt
      ids derived from them, if and only if none of its selections is spoiled. */
  lemma HistoryTransparent(adapters: Adapters, calls: seq<Call>, i: nat)
    requires ContentAddressed(adapters, calls) && i < |calls|
    ensures Follows(adapters, calls[i], History(adapters, calls, map[]).0[i])
    ensures (Map(ViewStep, History(adapters, calls, map[]).0[i])
             == Map(ViewStep, FreshSteps(adapters, calls[i], Ordered(calls[i]))))
       <==> Unspoiled(adapters, calls[i], Before(adapters, calls, i))
  {
    hide ContentAddressed, Sound, CachedSteps, FreshSteps, SortBy, Map, Follows, Unspoiled, History;
    EmptyCacheSound(adapters, calls);
    HistorySound(adapters, calls, calls[..i], map[]);
    HistoryAt(adapters, calls, map[], i);
    CallTransparent(adapters, calls, calls[i], Before(adapters, calls, i));
  }

  // -------------------------------------------------------------------- records

  predicate AttemptViewLe(a: AttemptView, b: AttemptView) { StrLe(a.backend, b.backend) }

  predicate ResultViewLe(a: ResultView, b: ResultView) { StrLe(a.backend, b.backend) }

  /** Sorting attempts by backend respects their views. */
  lemma SortedAttempts(a: seq<Step>, b: seq<Step>)
    requires Map(ViewStep, a) == Map(ViewStep, b)
    ensures Map(ViewAttempt, SortBy(AttemptLe, Map(AttemptOf, a)))
      == Map(ViewAttempt, SortBy(AttemptLe, Map(AttemptOf, b)))
  {
    AttemptViews(a, b);
    AttemptOrders();
    hide *;
    MapSort(ViewAttempt, AttemptLe, AttemptViewLe, Map(AttemptOf, a));
    MapSort(ViewAttempt, AttemptLe, AttemptViewLe, Map(AttemptOf, b));
  }

  lemma AttemptViews(a: seq<Step>, b: seq<Step>)
    requires Map(ViewStep, a) == Map(ViewStep, b)
    ensures Map(ViewAttempt, Map(AttemptOf, a)) == Map(ViewAttempt, Map(AttemptOf, b))
  {
    assert |a| == |Map(ViewStep, a)| == |b|;
    SameViews(a, b);
    hide Map, ViewAttempt;
  }

  lemma AttemptOrders()
    ensures forall x, y :: AttemptLe(x, y) == AttemptViewLe(ViewAttempt(x), ViewAttempt(y))
  {
    hide StrLe;
  }

  /** Sorting results by backend respects their views. */
  lemma SortedResults(a: seq<Step>, b: seq<Step>)
    requires Map(ViewStep, a) == Map(ViewStep, b)
    ensures Map(ViewResult, SortBy(ResultLe, Map(ResultOf, a))) == Map(ViewResult, SortBy(ResultLe, Map(ResultOf, b)))
  {
    ResultViews(a, b);
    ResultOrders();
    hide *;
    MapSort(ViewResult, ResultLe, ResultViewLe, Map(ResultOf, a));
    MapSort(ViewResult, ResultLe, ResultViewLe, Map(ResultOf, b));
  }

  lemma ResultViews(a: seq<Step>, b: seq<Step>)
    requires Map(ViewStep, a) == Map(ViewStep, b)
    ensures Map(ViewResult, Map(ResultOf, a)) == Map(ViewResult, Map(ResultOf, b))
  {
    assert |a| == |Map(ViewStep, a)| == |b|;
    SameViews(a, b);
    hide Map, ViewResult;
  }

  lemma ResultOrders()
    ensures forall x, y :: ResultLe(x, y) == ResultViewLe(ViewResult(x), ViewResult(y))
  {
    hide StrLe;
  }

  lemma {:induction false} CompiledViews(a: seq<Step>, b: seq<Step>)
    requires |a| == |b| && forall i :: 0 <= i < |a| ==> a[i].compiled == b[i].compiled
    ensures CompiledOf(a) == CompiledOf(b)
  {
    if a != [] { CompiledViews(a[..|a| - 1], b[..|b| - 1]); }
  }

  /** Records built from steps with the same views carry the same decision: status, state,
      recommendation, controlling ids, fallback verdict, and obligations. */
  lemma RecordsAgree(x: Record, y: Record, c: Call, a: seq<Step>, b: seq<Step>)
    requires IsRecord(x, c, a) && IsRecord(y, c, b) && |a| == |b| && Map(ViewStep, a) == Map(ViewStep, b)
    ensures x.aggregation == y.aggregation && x.backendObligations == y.backendObligations
    ensures Map(ViewAttempt, x.attempts) == Map(ViewAttempt, y.attempts)
    ensures Map(ViewResult, x.results) == Map(ViewResult, y.results)
  {
    hide AggregationOf, IsVerdict, SortBy, Map;
    SortedAttempts(a, b);
    SortedResults(a, b);
    SameViews(a, b);
    CompiledViews(a, b);
    var p, q := RequestOf(c, x.attempts, x.results), RequestOf(c, y.attempts, y.results);
    var v :| JudgedBy(p, v) && x.aggregation == AggregationOf(p, v);
    var w :| JudgedBy(q, w) && y.aggregation == AggregationOf(q, w);
    VerdictView(v, p.policy, p.selected, x.attempts, y.attempts, x.results, y.results, p.acceptable);
    VerdictUnique(v, w, q.policy, q.selected, y.attempts, y.results, q.acceptable);
    ViewsOfResults(x.results, y.results);
    AggregationView(p, q, v);
  }

  lemma ViewsOfResults(x: seq<BackendResult>, y: seq<BackendResult>)
    requires Map(ViewResult, x) == Map(ViewResult, y)
    ensures |x| == |y| && forall i :: 0 <= i < |x| ==> ViewResult(x[i]) == ViewResult(y[i])
  {
  }

  /** Cache transparency: in a history from an empty cache, the record of any unspoiled call
      decides as the record of the same call without a cache. */
  lemma CacheTransparent(adapters: Adapters, calls: seq<Call>, i: nat, cached: Record, uncached: Record)
    requires ContentAddressed(adapters, calls) && i < |calls|
      && Unspoiled(adapters, calls[i], Before(adapters, calls, i))
    requires IsRecord(cached, calls[i], History(adapters, calls, map[]).0[i])
    requires IsRecord(uncached, calls[i], FreshSteps(adapters, calls[i], Ordered(calls[i])))
    ensures cached.aggregation == uncached.aggregation && cached.backendObligations == uncached.backendObligations
    ensures Map(ViewAttempt, cached.attempts) == Map(ViewAttempt, uncached.attempts)
    ensures Map(ViewResult, cached.results) == Map(ViewResult, uncached.results)
  {
    hide IsRecord, ContentAddressed, History, FreshSteps, Unspoiled, FollowsAt, SortBy;
    HistoryTransparent(adapters, calls, i);
    RecordsAgree(cached, uncached, calls[i], History(adapters, calls, map[]).0[i],
                 FreshSteps(adapters, calls[i], Ordered(calls[i])));
  }
}
