/** What one selection comes to, over the operations of its adapter, and what an ALLOW of the
    control plane therefore rests on (ovk/core/backend_control_plane.py). */
module StepOutcomes {
  import opened Ordering
  import opened Text
  import opened Decision
  import opened ExecutionModels
  import opened BackendAggregation
  import opened ControlPlane
  import opened CacheTransparency
  import opened EndToEnd

  // --------------------------------------------------- a step without a cache

  /** What the compiler of the selected backend returns, where it gets that far. */
  function CompiledBy(adapters: Adapters, c: Call, s: Selection): Option<BackendObligation> {
    if s.backend !in adapters || adapters[s.backend].backendId != s.backend then None
    else
      match adapters[s.backend].compile(c.obligation, c.routing)
      case Ok(compiled) => Some(compiled)
      case Raised => None
  }

  /** The compiler answered for this backend, but with a guarantee that routing did not expect. */
  predicate ViolatesContract(adapters: Adapters, c: Call, s: Selection) {
    var compiled := CompiledBy(adapters, c, s);
    && compiled.Some? && compiled.value.backend == s.backend
    && s.expectedGuarantee != "" && compiled.value.expectedGuarantee != s.expectedGuarantee
  }

  /** The run and its normalized result, where every stage up to them returned. */
  ghost predicate RunsTo(adapters: Adapters, c: Call, s: Selection, raw: RawExecution, n: Normalized) {
    && CompiledBy(adapters, c, s).Some?
    && var adapter, compiled := adapters[s.backend], CompiledBy(adapters, c, s).value;
    && compiled.backend == s.backend && !ViolatesContract(adapters, c, s)
    && adapter.fingerprint(compiled).Ok?
    && adapter.run(compiled, c.routing.budget) == Ok(raw)
    && adapter.normalize(raw, compiled) == Ok(n)
  }

  /** An error is recorded under the selection's own backend, flag and expected guarantee. */
  predicate ShowsError(step: Step, s: Selection, compiled: Option<BackendObligation>) {
    && step.result.status == Status.Error && step.attempt.termination == ToolError
    && step.result.backend == s.backend && step.attempt.backend == s.backend
    && step.attempt.required == s.required
    && step.result.guaranteeType == (if s.expectedGuarantee == "" then "unknown" else s.expectedGuarantee)
    && step.attempt.backendObligationId == (if compiled.Some? then compiled.value.backendObligationId else "uncompiled")
    && step.compiled == compiled
  }

  /** A step, exactly, in three cases. A compiler that breaks its contract gives UNKNOWN and is
      not run. Where every stage returns, the step is what the adapter reported. And where any
      stage raises, or an identity does not match, the step is an error. */
  lemma StepExactly(adapters: Adapters, c: Call, s: Selection)
    ensures var step := FreshStep(adapters, c, s);
      && (ViolatesContract(adapters, c, s) ==>
          && step.result.status == Status.Unknown && step.attempt.termination == InvalidOutput
          && step.result.backend == s.backend == step.attempt.backend && step.attempt.required == s.required
          && step.result.guaranteeType == s.expectedGuarantee && step.compiled == CompiledBy(adapters, c, s)
          && step.attempt.backendObligationId == step.compiled.value.backendObligationId)
      && (forall raw, n :: RunsTo(adapters, c, s, raw, n) ==>
          && step.result.status == n.status && step.result.backend == n.backend
          && step.result.guaranteeType == n.guaranteeType
          && step.attempt.termination == raw.termination && step.attempt.backend == raw.backend
          && step.attempt.backendObligationId == raw.backendObligationId && step.attempt.details == raw.details
          && step.attempt.required == s.required && step.compiled == CompiledBy(adapters, c, s))
      && (!ViolatesContract(adapters, c, s) && (forall raw, n :: !RunsTo(adapters, c, s, raw, n)) ==>
          ShowsError(step, s, CompiledBy(adapters, c, s)))
  {
    var p := Prepare(adapters, c, s);
    if p.Ready? {
      var run := FreshRun(p.adapter, p.compiled, c.routing.budget);
      if run.Finished? {
        assert RunsTo(adapters, c, s, run.raw, run.normalized);
      }
    }
  }

  /** Each stage of the adapter that raises makes the step an error, and none makes it pass. */
  lemma RaisingIsError(adapters: Adapters, c: Call, s: Selection)
    requires s.backend in adapters && adapters[s.backend].backendId == s.backend
    ensures var step, adapter := FreshStep(adapters, c, s), adapters[s.backend];
      var compiled := adapter.compile(c.obligation, c.routing);
      && (compiled.Raised? ==> ShowsError(step, s, None))
      && (compiled.Ok? && !ViolatesContract(adapters, c, s) ==>
          && (compiled.value.backend != s.backend ==> ShowsError(step, s, Some(compiled.value)))
          && (adapter.fingerprint(compiled.value).Raised? ==> ShowsError(step, s, Some(compiled.value)))
          && match adapter.run(compiled.value, c.routing.budget)
             case Raised => ShowsError(step, s, Some(compiled.value))
             case Ok(raw) =>
               adapter.normalize(raw, compiled.value).Raised? ==> ShowsError(step, s, Some(compiled.value)))
  {
    StepExactly(adapters, c, s);
    hide FreshStep, ShowsError;
  }

  /** A backend that is not registered, or registered under another identity, is an error. */
  lemma UnknownBackendIsError(adapters: Adapters, c: Call, s: Selection)
    requires s.backend !in adapters || adapters[s.backend].backendId != s.backend
    ensures ShowsError(FreshStep(adapters, c, s), s, None)
  {
  }

  /** What the exception handler records shows an error, whatever was interrupted. */
  lemma HandledIsError(adapters: Adapters, c: Call, s: Selection)
    ensures ShowsError(HandledStep(adapters, c, s), s, CompiledBy(adapters, c, s))
  {
  }

  /** The id of an attempt holds exactly what the attempt holds, so equal ids mean equal attempts. */
  lemma AttemptIdentifies(adapters: Adapters, c: Call, s: Selection)
    ensures var a := FreshStep(adapters, c, s).attempt;
      a.attemptId == AttemptId(a.backendObligationId, a.backend, a.required, a.termination, a.details)
    ensures var h := HandledStep(adapters, c, s).attempt;
      h.attemptId == AttemptId(h.backendObligationId, h.backend, h.required, h.termination, h.details)
  {
  }

  // ------------------------------------------------------- a step with a cache

  /** The key of a result identifies everything the result may depend on. */
  lemma KeyExactly(o: Obligation, r: Routing, b: BackendObligation, f: Fingerprint,
                   p: Obligation, s: Routing, d: BackendObligation, g: Fingerprint)
    ensures KeyOf(o, r, b, f) == KeyOf(p, s, d, g) <==>
      && o.subject == p.subject && o.obligationId == p.obligationId && o.policyDigest == p.policyDigest
      && o.sourceProfile == p.sourceProfile
      && r.routingId == s.routingId && r.fallbackPolicy == s.fallbackPolicy
      && r.aggregationPolicy == s.aggregationPolicy
      && b.backendObligationId == d.backendObligationId && b.compilerVersion == d.compilerVersion
      && b.adapterVersion == d.adapterVersion && b.backend == d.backend && b.payloadDigest == d.payloadDigest
      && f.environmentDigest == g.environmentDigest && f.toolDigest == g.toolDigest
      && f.workerImageDigest == g.workerImageDigest
  {
  }

  /** A finished run that produced an envelope, was not answered by the cache, and was written. */
  predicate Stores(adapters: Adapters, c: Call, s: Selection, access: Access, entries: Entries) {
    var p := Prepare(adapters, c, s);
    && p.Ready? && access.read in {Delivered, Removed, Unreadable}
    && !(access.read.Delivered? && p.key in entries)
    && var run := FreshRun(p.adapter, p.compiled, c.routing.budget);
    run.Finished? && run.raw.envelopeProduced && access.write.Written?
  }

  /** The entries after a step, exactly. Only the entry of the step's own key can change: it is
      replaced by a storing run, and lost where its file was removed or a write destroyed it. */
  lemma EntriesExactly(adapters: Adapters, c: Call, s: Selection, access: Access, entries: Entries)
    ensures var p, r := Prepare(adapters, c, s), CachedStep(adapters, c, s, access, entries);
      && (p.Settled? ==> r.1 == entries)
      && (p.Ready? ==>
          && OthersKept(entries, r.1, p.key)
          && (Stores(adapters, c, s, access, entries) ==>
              p.key in r.1 && r.1[p.key] == CachedExecution(r.0.attempt, r.0.result))
          && (!Stores(adapters, c, s, access, entries) && p.key in r.1 ==>
              p.key in entries && r.1[p.key] == entries[p.key] && !access.read.Removed?)
          && (p.key in entries && p.key !in r.1 ==> access.read.Removed? || access.write == WriteRaised(true)))
  {
    hide Prepare, FreshRun, RunStep, ErrorStep, OthersKept, AfterRead, AfterWrite;
    var p := Prepare(adapters, c, s);
    if p.Ready? {
      var live := AfterRead(entries, p.key, access.read);
      ReadAt(entries, p.key, access.read);
      var run := FreshRun(p.adapter, p.compiled, c.routing.budget);
      var step := RunStep(run, s, p.compiled);
      WriteAt(entries, live, p.key, CachedExecution(step.attempt, step.result), access.write);
    }
  }

  ghost predicate OthersKept(entries: Entries, after: Entries, key: CacheKey) {
    && (forall k :: k != key ==> (k in after <==> k in entries))
    && (forall k :: k != key && k in after && k in entries ==> after[k] == entries[k])
  }

  lemma ReadAt(entries: Entries, key: CacheKey, read: Read)
    ensures var live := AfterRead(entries, key, read);
      && OthersKept(entries, live, key)
      && (key in live <==> key in entries && !read.Removed?)
      && (key in live ==> live[key] == entries[key])
  {
  }

  lemma WriteAt(entries: Entries, live: Entries, key: CacheKey, value: CachedExecution, write: Write)
    requires OthersKept(entries, live, key)
    ensures var after := AfterWrite(live, key, value, write);
      && OthersKept(entries, after, key)
      && (key in after <==> write.Written? || (key in live && write == WriteRaised(false)))
      && (key in after ==> after[key] == if write.Written? then value else live[key])
  {
  }

  /** The cache is used: what one selection stored is returned to the next that reads it under the
      same key, without running anything. */
  lemma StoredIsReturned(adapters: Adapters, c: Call, s: Selection, access: Access, entries: Entries,
                         others: Adapters, d: Call, t: Selection, later: Access)
    requires Stores(adapters, c, s, access, entries)
    requires Prepare(others, d, t).Ready? && Prepare(others, d, t).key == Prepare(adapters, c, s).key
    requires later.read.Delivered?
    ensures var first := CachedStep(adapters, c, s, access, entries);
      var second := CachedStep(others, d, t, later, first.1);
      && second.0.attempt == first.0.attempt && second.0.result == first.0.result && second.1 == first.1
  {
    StepPaired(adapters, c, s, access, entries);
  }

  // ---------------------------------------------------------------- the record

  /** Selections run with the required ones first, and by backend among equals. */
  lemma OrderedExactly(c: Call)
    ensures multiset(Ordered(c)) == multiset(c.routing.selected)
    ensures forall i, j :: 0 <= i < j < |Ordered(c)| ==>
      var a, b := Ordered(c)[i], Ordered(c)[j];
      (b.required ==> a.required) && (a.required == b.required ==> StrLe(a.backend, b.backend))
  {
    StrIsTotalOrder();
    assert TotalPreorder(SelectionLe) by { hide StrLe; }
    SortBySorted(SelectionLe, c.routing.selected);
  }

  /** The three lists of a record, each by backend. */
  lemma RecordSorted(record: Record, c: Call, steps: seq<Step>)
    requires IsRecord(record, c, steps)
    ensures forall i, j :: 0 <= i < j < |record.attempts| ==>
      StrLe(record.attempts[i].backend, record.attempts[j].backend)
    ensures forall i, j :: 0 <= i < j < |record.results| ==>
      StrLe(record.results[i].backend, record.results[j].backend)
    ensures forall i, j :: 0 <= i < j < |record.backendObligations| ==>
      StrLe(record.backendObligations[i].backend, record.backendObligations[j].backend)
    ensures forall b :: b in record.backendObligations <==> exists k ::
      0 <= k < |steps| && steps[k].compiled == Some(b)
  {
    StrIsTotalOrder();
    hide StrLe, IsAggregation, SortBy, Map, CompiledOf;
    SortBySorted(AttemptLe, Map(AttemptOf, steps));
    SortBySorted(ResultLe, Map(ResultOf, steps));
    SortBySorted(CompiledLe, CompiledOf(steps));
    forall b ensures b in CompiledOf(steps) <==> exists k :: 0 <= k < |steps| && steps[k].compiled == Some(b) {
      CompiledMembers(steps, b);
    }
  }

  lemma {:induction false} CompiledMembers(steps: seq<Step>, b: BackendObligation)
    ensures b in CompiledOf(steps) <==> exists k :: 0 <= k < |steps| && steps[k].compiled == Some(b)
  {
    if steps != [] {
      CompiledMembers(steps[..|steps| - 1], b);
      assert steps == steps[..|steps| - 1] + [steps[|steps| - 1]];
    }
  }

  // ---------------------------------------------------------- what ALLOW rests on

  /** In any history from an empty cache, with labelled adapters, whatever cache files do: when a
      call allows, every required backend is registered, its compiler, fingerprint, run and
      normalization all returned, the normalized status is PASS, and the record holds that
      run's end and that guarantee under one attempt id. */
  lemma AllowRan(adapters: Adapters, calls: seq<Call>, i: nat, record: Record, s: Selection)
    requires ContentAddressed(adapters, calls) && Labelled(adapters, calls) && i < |calls|
    requires IsRecord(record, calls[i], History(adapters, calls, map[]).0[i])
    requires record.aggregation.decisionState == Allow && s in calls[i].routing.selected && s.required
    ensures exists raw, n, r, a ::
      && RunsTo(adapters, calls[i], s, raw, n) && n.status == Pass
      && r in record.results && a in record.attempts && r.attemptId == a.attemptId
      && r.backend == a.backend == s.backend && r.status == Pass && r.guaranteeType == n.guaranteeType
      && a.termination == raw.termination
  {
    hide *;
    var c, steps := calls[i], History(adapters, calls, map[]).0[i];
    HistoryTransparent(adapters, calls, i);
    StepLabels(adapters, calls, c, steps);
    HistoryAt(adapters, calls, map[], i);
    CachedPaired(adapters, c, Ordered(c), History(adapters, calls[..i], map[]).1);
    AllowEndToEnd(adapters, calls, i, record);
    var k := IndexOf(c, s);
    FollowedAt(adapters, c, steps, k);
    LabelAt(c, steps, k);
    StepOfRecord(record, c, steps, k);
    PassingStepRan(adapters, c, s, steps[k]);
  }

  lemma IndexOf(c: Call, s: Selection) returns (k: nat)
    requires s in c.routing.selected
    ensures k < |Ordered(c)| && Ordered(c)[k] == s
  {
    assert s in Ordered(c);
    k :| 0 <= k < |Ordered(c)| && Ordered(c)[k] == s;
  }

  lemma LabelAt(c: Call, steps: seq<Step>, k: nat)
    requires LabelsMatch(c, steps) && Paired(steps) && k < |Ordered(c)|
    ensures k < |steps| && steps[k].result.backend == Ordered(c)[k].backend == steps[k].attempt.backend
    ensures steps[k].attempt.attemptId == steps[k].result.attemptId
  {
  }

  lemma FollowedAt(adapters: Adapters, c: Call, steps: seq<Step>, k: nat)
    requires Follows(adapters, c, steps) && k < |Ordered(c)|
    ensures k < |steps| && FollowsAt(adapters, c, Ordered(c)[k], steps[k])
  {
  }

  lemma StepOfRecord(record: Record, c: Call, steps: seq<Step>, k: nat)
    requires IsRecord(record, c, steps) && k < |steps|
    ensures steps[k].attempt in record.attempts && steps[k].result in record.results
  {
    hide SortBy, IsAggregation, CompiledOf;
    assert Map(ResultOf, steps)[k] in Map(ResultOf, steps) && Map(AttemptOf, steps)[k] in Map(AttemptOf, steps);
  }

  /** Only a run can pass. */
  lemma PassingStepRan(adapters: Adapters, c: Call, s: Selection, step: Step)
    requires FollowsAt(adapters, c, s, step) && step.result.status == Pass
    ensures exists raw, n ::
      && RunsTo(adapters, c, s, raw, n) && n.status == Pass
      && step.result.guaranteeType == n.guaranteeType && step.attempt.termination == raw.termination
  {
    hide FreshStep, RunsTo, ViolatesContract;
    StepExactly(adapters, c, s);
    assert HandledStep(adapters, c, s).result.status == Status.Error;
  }
}
