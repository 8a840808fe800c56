/** Compiling, caching, executing and aggregating the selected backends of one obligation
    (ovk/core/backend_control_plane.py, with the cache key of ovk/core/result_cache.py). */
module ControlPlane {
  import opened Ordering
  import opened Text
  import opened Decision
  import opened ExecutionModels
  import opened BackendAggregation
  import BackendRegistry

  // ------------------------------------------------------------------ the cache

  /** The identity components of one backend result. The key is their digest, taken as
      injective, so the key is the components themselves. */
  datatype CacheKey = CacheKey(
    subject: Subject, obligationId: string, routingId: string, backendObligationId: string,
    environmentDigest: string, policyDigest: string, compilerVersion: string, adapterVersion: string,
    fallbackMode: FallbackPolicy, aggregationPolicy: string, backend: string, payloadDigest: string,
    sourceProfile: Option<string>, toolDigest: Option<string>, workerImageDigest: Option<string>)

  function KeyOf(obligation: Obligation, routing: Routing, compiled: BackendObligation, f: Fingerprint): CacheKey {
    CacheKey(obligation.subject, obligation.obligationId, routing.routingId, compiled.backendObligationId,
      f.environmentDigest, obligation.policyDigest, compiled.compilerVersion, compiled.adapterVersion,
      routing.fallbackPolicy, routing.aggregationPolicy, compiled.backend, compiled.payloadDigest,
      obligation.sourceProfile, f.toolDigest, f.workerImageDigest)
  }

  datatype CachedExecution = CachedExecution(attempt: Attempt, result: BackendResult)

  type Entries = map<CacheKey, CachedExecution>

  /** What reading a cache file comes to: the entry is delivered; it is too old or does not
      validate and is removed; it cannot be read and stays; or reading raises. */
  datatype Read = Delivered | Removed | Unreadable | ReadRaised

  /** What writing a cache file comes to. A write that raises may have destroyed the old file. */
  datatype Write = Written | WriteRaised(lost: bool)

  /** What the file system and the clock answer while one selection runs. */
  datatype Access = Access(read: Read, write: Write)

  function AfterRead(entries: Entries, key: CacheKey, read: Read): Entries {
    if read.Removed? then entries - {key} else entries
  }

  function AfterWrite(entries: Entries, key: CacheKey, value: CachedExecution, write: Write): Entries {
    match write
    case Written => entries[key := value]
    case WriteRaised(lost) => if lost then entries - {key} else entries
  }

  class ResultCache {
    var entries: Entries

    constructor ()
      ensures entries == map[]
    {
      entries := map[];
    }

    method Get(key: CacheKey, read: Read) returns (r: Result<Option<CachedExecution>>)
      modifies this
      ensures entries == AfterRead(old(entries), key, read)
      ensures r.Raised? <==> read.ReadRaised?
      ensures r.Ok? ==> (r.value.Some? <==> read.Delivered? && key in old(entries))
      ensures r.Ok? && r.value.Some? ==> r.value.value == old(entries)[key]
    {
      match read
      case ReadRaised => r := Raised;
      case Unreadable => r := Ok(None);
      case Removed =>
        entries := entries - {key};
        r := Ok(None);
      case Delivered => r := Ok(if key in entries then Some(entries[key]) else None);
    }

    method Put(key: CacheKey, value: CachedExecution, write: Write) returns (r: Result<()>)
      modifies this
      ensures entries == AfterWrite(old(entries), key, value, write)
      ensures r.Raised? <==> write.WriteRaised?
    {
      match write
      case Written =>
        entries := entries[key := value];
        r := Ok(());
      case WriteRaised(lost) =>
        if lost {
          entries := entries - {key};
        }
        r := Raised;
    }
  }

  // ---------------------------------------------------------- one backend, as a value

  datatype Step = Step(attempt: Attempt, result: BackendResult, compiled: Option<BackendObligation>)

  /** One request to the control plane; `access` answers the cache of its i-th step. */
  datatype Call = Call(obligation: Obligation, routing: Routing, access: nat -> Access)

  function AttemptFromRaw(raw: RawExecution, required: bool): Attempt {
    Attempt(AttemptId(raw.backendObligationId, raw.backend, required, raw.termination, raw.details),
            raw.backendObligationId, raw.backend, required, raw.termination, raw.details)
  }

  /** The attempt and result recorded when any stage raises. */
  function ErrorStep(s: Selection, compiled: Option<BackendObligation>): Step {
    var id := if compiled.Some? then compiled.value.backendObligationId else "uncompiled";
    var attempt := AttemptFromRaw(RawExecution(s.backend, id, ToolError, "error", false), s.required);
    var guarantee := if s.expectedGuarantee == "" then "unknown" else s.expectedGuarantee;
    Step(attempt, BackendResult(attempt.attemptId, s.backend, Status.Error, guarantee), compiled)
  }

  /** The attempt and result recorded when the compiler broke its contract. */
  function MismatchStep(s: Selection, compiled: BackendObligation): Step {
    var raw := RawExecution(s.backend, compiled.backendObligationId, InvalidOutput, "compiler_contract", false);
    var attempt := AttemptFromRaw(raw, s.required);
    Step(attempt, BackendResult(attempt.attemptId, s.backend, Status.Unknown, s.expectedGuarantee), Some(compiled))
  }

  datatype Prepared = Settled(step: Step) | Ready(adapter: Adapter, compiled: BackendObligation, key: CacheKey)

  /** Lookup, compilation and fingerprinting: either the step is settled, or the backend
      is ready to be looked up in the cache and run. */
  function Prepare(adapters: map<string, Adapter>, c: Call, s: Selection): Prepared {
    if s.backend !in adapters then Settled(ErrorStep(s, None))
    else
      var adapter := adapters[s.backend];
      if adapter.backendId != s.backend then Settled(ErrorStep(s, None))
      else
        var compiled := adapter.compile(c.obligation, c.routing);
        if compiled.Raised? then Settled(ErrorStep(s, None))
        else if compiled.value.backend != s.backend then Settled(ErrorStep(s, Some(compiled.value)))
        else if compiled.value.expectedGuarantee != s.expectedGuarantee && s.expectedGuarantee != "" then
          Settled(MismatchStep(s, compiled.value))
        else
          var f := adapter.fingerprint(compiled.value);
          if f.Raised? then Settled(ErrorStep(s, Some(compiled.value)))
          else Ready(adapter, compiled.value, KeyOf(c.obligation, c.routing, compiled.value, f.value))
  }

  datatype Run = Failed | Finished(raw: RawExecution, normalized: Normalized)

  /** Running and normalizing, without the cache. */
  function FreshRun(adapter: Adapter, compiled: BackendObligation, budget: Budget): Run {
    var raw := adapter.run(compiled, budget);
    if raw.Raised? then Failed else
      var normalized := adapter.normalize(raw.value, compiled);
      if normalized.Raised? then Failed else Finished(raw.value, normalized.value)
  }

  function RunStep(run: Run, s: Selection, compiled: BackendObligation): Step {
    match run
    case Failed => ErrorStep(s, Some(compiled))
    case Finished(raw, n) =>
      var attempt := AttemptFromRaw(raw, s.required);
      Step(attempt, BackendResult(attempt.attemptId, n.backend, n.status, n.guaranteeType), Some(compiled))
  }

  /** What one selection yields without a cache. */
  function FreshStep(adapters: map<string, Adapter>, c: Call, s: Selection): Step {
    match Prepare(adapters, c, s)
    case Settled(step) => step
    case Ready(adapter, compiled, _) => RunStep(FreshRun(adapter, compiled, c.routing.budget), s, compiled)
  }

  /** What one selection yields with a cache, and the entries it leaves behind. A hit
      returns the stored attempt, with its stored `required` flag. An exception of the cache
      is an exception of the step. */
  function CachedStep(adapters: map<string, Adapter>,
      c: Call, s: Selection, access: Access, entries: Entries): (Step, Entries) {
    match Prepare(adapters, c, s)
    case Settled(step) => (step, entries)
    case Ready(adapter, compiled, key) =>
      var live := AfterRead(entries, key, access.read);
      if access.read.ReadRaised? then (ErrorStep(s, Some(compiled)), live)
      else if access.read.Delivered? && key in live then
        var hit := live[key];
        (Step(hit.attempt, hit.result.(attemptId := hit.attempt.attemptId), Some(compiled)), live)
      else
        var run := FreshRun(adapter, compiled, c.routing.budget);
        var step := RunStep(run, s, compiled);
        if run.Finished? && run.raw.envelopeProduced then
          (if access.write.WriteRaised? then ErrorStep(s, Some(compiled)) else step,
           AfterWrite(live, key, CachedExecution(step.attempt, step.result), access.write))
        else (step, live)
  }

  function CachedSteps(adapters: map<string, Adapter>, c: Call, selections: seq<Selection>,
      entries: Entries): (r: (seq<Step>, Entries))
    ensures |r.0| == |selections|
  {
    if selections == [] then ([], entries) else
      var front := CachedSteps(adapters, c, selections[..|selections| - 1], entries);
      var last := CachedStep(adapters, c, selections[|selections| - 1], c.access(|selections| - 1), front.1);
      (front.0 + [last.0], last.1)
  }

  function FreshSteps(adapters: map<string, Adapter>, c: Call, selections: seq<Selection>): (r: seq<Step>)
    ensures |r| == |selections|
    ensures forall i :: 0 <= i < |selections| ==> r[i] == FreshStep(adapters, c, selections[i])
  {
    if selections == [] then [] else [FreshStep(adapters, c, selections[0])] + FreshSteps(adapters, c, selections[1..])
  }

  // ------------------------------------------------------------------- execution

  /** Required backends first, then by backend id. */
  predicate SelectionLe(a: Selection, b: Selection) {
    if a.required == b.required then StrLe(a.backend, b.backend) else a.required
  }

  predicate AttemptLe(a: Attempt, b: Attempt) { StrLe(a.backend, b.backend) }

  predicate ResultLe(a: BackendResult, b: BackendResult) { StrLe(a.backend, b.backend) }

  predicate CompiledLe(a: BackendObligation, b: BackendObligation) { StrLe(a.backend, b.backend) }

  function AttemptOf(s: Step): Attempt { s.attempt }

  function ResultOf(s: Step): BackendResult { s.result }

  function CompiledOf(steps: seq<Step>): seq<BackendObligation> {
    if steps == [] then [] else
      var last := steps[|steps| - 1].compiled;
      CompiledOf(steps[..|steps| - 1]) + if last.Some? then [last.value] else []
  }

  const FAIL_DOMINANT_V1 := "ovk.aggregate.fail_dominant.v1"

  datatype Record = Record(
    backendObligations: seq<BackendObligation>, attempts: seq<Attempt>,
    results: seq<BackendResult>, aggregation: Aggregation)

  function RequestOf(c: Call, attempts: seq<Attempt>, results: seq<BackendResult>): Request {
    Request(c.obligation.obligationId, c.routing.selected, results, set g | g in c.obligation.acceptableGuarantees,
            false, c.routing.fallbackPolicy, Some(attempts))
  }

  /** `record` is what `execute` builds from the steps of its selections. */
  ghost predicate IsRecord(record: Record, c: Call, steps: seq<Step>) {
    && record.attempts == SortBy(AttemptLe, Map(AttemptOf, steps))
    && record.results == SortBy(ResultLe, Map(ResultOf, steps))
    && record.backendObligations == SortBy(CompiledLe, CompiledOf(steps))
    && IsAggregation(record.aggregation, RequestOf(c, record.attempts, record.results))
  }

  function Ordered(c: Call): seq<Selection> {
    SortBy(SelectionLe, c.routing.selected)
  }

  ghost function Contents(cache: ResultCache?): Option<Entries>
    reads if cache == null then {} else {cache}
  {
    if cache == null then None else Some(cache.entries)
  }

  /** `step` is what one selection yields, without a cache or with one. */
  ghost predicate RanOne(adapters: map<string, Adapter>, c: Call, s: Selection, access: Access, step: Step,
                         before: Option<Entries>, after: Option<Entries>) {
    match before
    case None => after == None && step == FreshStep(adapters, c, s)
    case Some(entries) =>
      var r := CachedStep(adapters, c, s, access, entries);
      after == Some(r.1) && step == r.0
  }

  ghost predicate Ran(adapters: map<string, Adapter>, c: Call, selections: seq<Selection>, steps: seq<Step>,
                      after: Option<Entries>, before: Option<Entries>) {
    match before
    case None => after == None && steps == FreshSteps(adapters, c, selections)
    case Some(entries) =>
      var r := CachedSteps(adapters, c, selections, entries);
      after == Some(r.1) && steps == r.0
  }

  lemma RanNothing(adapters: map<string, Adapter>, c: Call, contents: Option<Entries>)
    ensures Ran(adapters, c, [], [], contents, contents)
  {
  }

  lemma RanSnoc(adapters: map<string, Adapter>, c: Call, selections: seq<Selection>, s: Selection, steps: seq<Step>,
                step: Step, start: Option<Entries>, before: Option<Entries>, after: Option<Entries>)
    requires Ran(adapters, c, selections, steps, before, start)
    requires RanOne(adapters, c, s, c.access(|selections|), step, before, after)
    ensures Ran(adapters, c, selections + [s], steps + [step], after, start)
  {
  }

  class BackendControlPlane {
    const defaultCache: ResultCache?

    constructor (defaultCache: ResultCache?)
      ensures this.defaultCache == defaultCache
    {
      this.defaultCache := defaultCache;
    }

    /** With no explicit cache argument the default cache is active. */
    function Active(cache: Option<ResultCache?>): ResultCache? {
      if cache.Some? then cache.value else defaultCache
    }

    method Execute(c: Call, registry: BackendRegistry.Registry, cache: Option<ResultCache?>) returns (r: Result<Record>)
      modifies if Active(cache) == null then {} else {Active(cache)}
      ensures r.Ok? <==> c.routing.aggregationPolicy == "ovk.aggregate.fail_dominant.v1"
      ensures exists steps ::
        && Ran(registry.byBackend, c, Ordered(c), steps, Contents(Active(cache)), old(Contents(Active(cache))))
        && (r.Ok? ==> IsRecord(r.value, c, steps))
    {
      hide Ran;
      var active := Active(cache);
      var steps := ExecuteAll(c, SortBy(SelectionLe, c.routing.selected), registry, active);
      assert Ran(registry.byBackend, c, Ordered(c), steps, Contents(Active(cache)), old(Contents(Active(cache))));
      var attempts := SortBy(AttemptLe, Map(AttemptOf, steps));
      var results := SortBy(ResultLe, Map(ResultOf, steps));
      if c.routing.aggregationPolicy != FAIL_DOMINANT_V1 {
        return Raised;
      }
      var aggregation := AggregateFailDominant(RequestOf(c, attempts, results));
      var record := Record(SortBy(CompiledLe, CompiledOf(steps)), attempts, results, aggregation);
      RecordOf(record, c, steps);
      r := Ok(record);
    }

    /** The loop over the selections. Each step holds what it appends to the lists of
        attempts, results and backend obligations. */
    method ExecuteAll(c: Call, selected: seq<Selection>, registry: BackendRegistry.Registry, active: ResultCache?)
      returns (steps: seq<Step>)
      modifies if active == null then {} else {active}
      ensures Ran(registry.byBackend, c, selected, steps, Contents(active), old(Contents(active)))
    {
      hide *;
      steps := [];
      RanNothing(registry.byBackend, c, Contents(active));
      assert selected[..0] == [];
      for i := 0 to |selected|
        invariant Ran(registry.byBackend, c, selected[..i], steps, Contents(active), old(Contents(active)))
      {
        ghost var entries := Contents(active);
        var step := ExecuteOne(c, selected[i], c.access(i), registry, active);
        RanSnoc(registry.byBackend, c, selected[..i], selected[i], steps, step,
                old(Contents(active)), entries, Contents(active));
        steps := steps + [step];
        assert selected[..i + 1] == selected[..i] + [selected[i]];
      }
      assert selected[..|selected|] == selected;
    }

    /** Every `return ErrorStep` is the source's exception handler. */
    method ExecuteOne(c: Call, s: Selection, access: Access, registry: BackendRegistry.Registry, cache: ResultCache?)
      returns (step: Step)
      modifies if cache == null then {} else {cache}
      ensures RanOne(registry.byBackend, c, s, access, step, old(Contents(cache)), Contents(cache))
    {
      if s.backend !in registry.byBackend {
        return ErrorStep(s, None);
      }
      var adapter := registry.byBackend[s.backend];
      if adapter.backendId != s.backend {
        return ErrorStep(s, None);
      }
      var compilation := adapter.compile(c.obligation, c.routing);
      if compilation.Raised? {
        return ErrorStep(s, None);
      }
      var compiled := compilation.value;
      if compiled.backend != s.backend {
        return ErrorStep(s, Some(compiled));
      }
      if compiled.expectedGuarantee != s.expectedGuarantee && s.expectedGuarantee != "" {
        return MismatchStep(s, compiled);
      }
      var fingerprint := adapter.fingerprint(compiled);
      if fingerprint.Raised? {
        return ErrorStep(s, Some(compiled));
      }
      var key := KeyOf(c.obligation, c.routing, compiled, fingerprint.value);
      if cache != null {
        var cached := cache.Get(key, access.read);
        if cached.Raised? {
          return ErrorStep(s, Some(compiled));
        }
        if cached.value.Some? {
          var attempt := cached.value.value.attempt;
          return Step(attempt, cached.value.value.result.(attemptId := attempt.attemptId), Some(compiled));
        }
      }
      var raw := adapter.run(compiled, c.routing.budget);
      if raw.Raised? {
        return ErrorStep(s, Some(compiled));
      }
      var normalized := adapter.normalize(raw.value, compiled);
      if normalized.Raised? {
        return ErrorStep(s, Some(compiled));
      }
      var attempt := AttemptFromRaw(raw.value, s.required);
      var n := normalized.value;
      var result := BackendResult(attempt.attemptId, n.backend, n.status, n.guaranteeType);
      if cache != null && raw.value.envelopeProduced {
        var stored := cache.Put(key, CachedExecution(attempt, result), access.write);
        if stored.Raised? {
          return ErrorStep(s, Some(compiled));
        }
      }
      step := Step(attempt, result, Some(compiled));
    }
  }

  lemma RecordOf(record: Record, c: Call, steps: seq<Step>)
    requires record.attempts == SortBy(AttemptLe, Map(AttemptOf, steps))
    requires record.results == SortBy(ResultLe, Map(ResultOf, steps))
    requires record.backendObligations == SortBy(CompiledLe, CompiledOf(steps))
    requires IsAggregation(record.aggregation, RequestOf(c, record.attempts, record.results))
    ensures IsRecord(record, c, steps)
  {
  }
}
