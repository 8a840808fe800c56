/** Reusing and refreshing Protected Effect evidence for one exact IR
    (ovk/core/automatic_pr_assurance.py, with the cache of ovk/core/protected_effect_evidence.py). */
module EvidenceMaterialization {
  import opened Ordering
  import opened Text

  datatype Runtime = Runtime(environmentDigest: string, toolDigest: string, workerImageDigest: string,
      nativeExecution: bool)

  datatype EvaluationStatus = Pass | Fail | Unknown

  /** `checkers` stands for the binding checkers observed during the evaluation. */
  datatype Evaluation = Evaluation(effectId: string, irDigest: string, status: EvaluationStatus, checkers: string)

  datatype Origin = FromEvaluation(evaluation: Evaluation) | Reissued(prior: Evidence)

  datatype Evidence = Evidence(
    effectId: string, semanticDigest: string, policyDigest: string, claim: EvaluationStatus,
    runtime: Option<Runtime>, checkers: string, origin: Origin)

  /** The identity components of cached evidence: the repository, but no revision. */
  datatype CacheKey = CacheKey(repo: string, effectId: string, semanticDigest: string, policyDigest: string,
      runtime: Runtime)

  type Entries = map<CacheKey, Evidence>

  datatype Ir = Ir(repo: string, digest: string, effectIds: seq<string>, semanticDigest: string -> string)

  /** One call, with what its surroundings answer: the runtime of an effect, the evaluator,
      whether evidence is still valid by age, signature, revocation and installed checkers,
      and whether a cache write goes through. */
  datatype Call = Call(
    ir: Ir, policyDigest: string, runtimeOf: string -> Option<Runtime>,
    evaluate: seq<string> -> Result<seq<Evaluation>>,
    stillValid: Evidence -> bool, writeSucceeds: Evidence -> bool)

  datatype Materialized = Materialized(evidence: seq<Evidence>, freshEffects: seq<string>, reusedEffects: seq<string>)

  // ------------------------------------------------------------- keys and reuse

  function KeyOf(c: Call, effectId: string, runtime: Runtime): CacheKey {
    CacheKey(c.ir.repo, effectId, c.ir.semanticDigest(effectId), c.policyDigest, runtime)
  }

  /** Prior evidence may be reused: a PASS bound to the same slice, policy and runtime. */
  predicate Eligible(c: Call, key: CacheKey, e: Evidence) {
    && e.effectId == key.effectId && e.semanticDigest == key.semanticDigest && e.policyDigest == key.policyDigest
    && e.claim == Pass && e.runtime == Some(key.runtime)
    && c.stillValid(e)
  }

  function Reissue(c: Call, key: CacheKey, prior: Evidence): Evidence {
    Evidence(key.effectId, key.semanticDigest, c.policyDigest, prior.claim,
      Some(key.runtime), prior.checkers, Reissued(prior))
  }

  /** What the cache offers for an effect, if anything; `None` stands for no cache. */
  function Reuse(c: Call, entries: Option<Entries>, effectId: string): Option<Evidence> {
    var runtime := c.runtimeOf(effectId);
    if runtime.None? || entries.None? then None
    else
      var key := KeyOf(c, effectId, runtime.value);
      if key in entries.value && Eligible(c, key, entries.value[key])
        then Some(Reissue(c, key, entries.value[key])) else None
  }

  /** Projects an evaluation into sealed evidence, or raises when it is not about this IR. */
  function ToEvidence(c: Call, evaluation: Evaluation): Result<Evidence> {
    if evaluation.irDigest != c.ir.digest || evaluation.effectId !in c.ir.effectIds || Strip(c.policyDigest) == ""
      then Raised
    else
      var runtime := c.runtimeOf(evaluation.effectId);
      Ok(Evidence(evaluation.effectId, c.ir.semanticDigest(evaluation.effectId),
                  Strip(c.policyDigest), evaluation.status,
                  runtime, evaluation.checkers, FromEvaluation(evaluation)))
  }

  /** The entries after trying to cache fresh evidence; a refused or failed write is ignored. */
  function Stored(c: Call, entries: Option<Entries>, e: Evidence): Option<Entries> {
    if e.claim != Pass || e.runtime.None? || entries.None? then entries
    else
      var key := KeyOf(c, e.effectId, e.runtime.value);
      if Eligible(c, key, e) && c.writeSucceeds(e) then Some(entries.value[key := e]) else entries
  }

  // --------------------------------------------------------------- one call, as a value

  function FreshIds(c: Call, entries: Option<Entries>): seq<string> {
    Filter((id: string) => Reuse(c, entries, id).None?, SortStrings(c.ir.effectIds))
  }

  function ReusedIds(c: Call, entries: Option<Entries>): seq<string> {
    Filter((id: string) => Reuse(c, entries, id).Some?, SortStrings(c.ir.effectIds))
  }

  /** `{item.protected_effect_id: item for item in evaluations}`: the last one wins. */
  function ById(evaluations: seq<Evaluation>): (m: map<string, Evaluation>)
    ensures m.Keys == set e | e in evaluations :: e.effectId
    ensures forall id :: id in m ==> m[id] in evaluations && m[id].effectId == id
  {
    if evaluations == [] then map[] else
      var last := evaluations[|evaluations| - 1];
      assert evaluations == evaluations[..|evaluations| - 1] + [last];
      ById(evaluations[..|evaluations| - 1])[last.effectId := last]
  }

  datatype Progress = Progress(evidence: Result<map<string, Evidence>>, entries: Option<Entries>)

  /** The second loop: each fresh effect in turn is converted, recorded and offered to the cache. */
  function Verified(c: Call, byId: map<string, Evaluation>, ids: seq<string>, start: Progress): Progress {
    if ids == [] then start else
      var p := Verified(c, byId, ids[..|ids| - 1], start);
      VerifyOne(c, byId, ids[|ids| - 1], p)
  }

  function VerifyOne(c: Call, byId: map<string, Evaluation>, id: string, p: Progress): Progress {
    if p.evidence.Raised? || id !in byId then Progress(Raised, p.entries)
    else
      var e := ToEvidence(c, byId[id]);
      if e.Raised? then Progress(Raised, p.entries)
      else Progress(Ok(p.evidence.value[id := e.value]), Stored(c, p.entries, e.value))
  }

  function ReusedEvidence(c: Call, entries: Option<Entries>): map<string, Evidence> {
    map id | id in c.ir.effectIds && Reuse(c, entries, id).Some? :: Reuse(c, entries, id).value
  }

  /** Evidence by effect and the entries left behind, or the exception and the entries left behind. */
  function Outcome(c: Call, entries: Option<Entries>): Progress {
    var ids := FreshIds(c, entries);
    var start := Progress(Ok(ReusedEvidence(c, entries)), entries);
    if ids == [] then start else
      var evaluations := c.evaluate(ids);
      if evaluations.Raised? || ById(evaluations.value).Keys != Members(ids) then Progress(Raised, entries)
      else Verified(c, ById(evaluations.value), ids, start)
  }

  /** `result` lists the evidence of every effect in id order, with the fresh and reused ids. */
  ghost predicate IsResult(result: Materialized, c: Call, entries: Option<Entries>, evidence: map<string, Evidence>) {
    && result.freshEffects == FreshIds(c, entries) && result.reusedEffects == ReusedIds(c, entries)
    && evidence.Keys == Members(c.ir.effectIds)
    && |result.evidence| == |SortedSet(evidence.Keys)|
    && forall i :: 0 <= i < |result.evidence| ==> result.evidence[i] == evidence[SortedSet(evidence.Keys)[i]]
  }

  // ------------------------------------------------------------------- as coded

  class EvidenceCache {
    var entries: Entries

    constructor ()
      ensures entries == map[]
    {
      entries := map[];
    }

    method ReuseForHead(c: Call, effectId: string, runtime: Runtime) returns (r: Option<Evidence>)
      requires c.runtimeOf(effectId) == Some(runtime)
      ensures r == Reuse(c, Some(entries), effectId)
    {
      var key := KeyOf(c, effectId, runtime);
      if key !in entries {
        return None;
      }
      if !Eligible(c, key, entries[key]) {
        return None;
      }
      r := Some(Reissue(c, key, entries[key]));
    }

    method Put(c: Call, e: Evidence, runtime: Runtime) returns (r: Result<()>)
      modifies this
      requires e.claim == Pass && e.runtime == Some(runtime)
      ensures Some(entries) == Stored(c, Some(old(entries)), e)
      ensures r.Raised? ==> entries == old(entries)
    {
      var key := KeyOf(c, e.effectId, runtime);
      if !Eligible(c, key, e) || !c.writeSucceeds(e) {
        return Raised;
      }
      entries := entries[key := e];
      r := Ok(());
    }
  }

  ghost function Contents(cache: EvidenceCache?): Option<Entries>
    reads if cache == null then {} else {cache}
  {
    if cache == null then None else Some(cache.entries)
  }

  method LookUpOne(c: Call, cache: EvidenceCache?, id: string) returns (reused: Option<Evidence>)
    ensures reused == Reuse(c, Contents(cache), id)
  {
    var runtime := c.runtimeOf(id);
    reused := None;
    if runtime.Some? && cache != null {
      reused := cache.ReuseForHead(c, id, runtime.value);
    }
  }

  /** The first loop: look every effect up, in id order. */
  method LookUp(c: Call, cache: EvidenceCache?)
    returns (evidence: map<string, Evidence>, freshIds: seq<string>, reusedIds: seq<string>)
    ensures evidence == ReusedEvidence(c, Contents(cache))
    ensures freshIds == FreshIds(c, Contents(cache)) && reusedIds == ReusedIds(c, Contents(cache))
  {
    hide Reuse, SortStrings, Filter;
    ghost var entries := Contents(cache);
    FilterEmpty((id: string) => Reuse(c, entries, id).None?);
    FilterEmpty((id: string) => Reuse(c, entries, id).Some?);
    var ids := SortStrings(c.ir.effectIds);
    evidence, freshIds, reusedIds := map[], [], [];
    for i := 0 to |ids|
      invariant freshIds == Filter((id: string) => Reuse(c, entries, id).None?, ids[..i])
      invariant reusedIds == Filter((id: string) => Reuse(c, entries, id).Some?, ids[..i])
      invariant forall id :: id in evidence <==> id in ids[..i] && Reuse(c, entries, id).Some?
      invariant forall id :: id in evidence ==> Some(evidence[id]) == Reuse(c, entries, id)
    {
      var id := ids[i];
      var reused := LookUpOne(c, cache, id);
      assert ids[..i + 1] == ids[..i] + [id];
      FilterSnoc((x: string) => Reuse(c, entries, x).None?, ids[..i], id);
      FilterSnoc((x: string) => Reuse(c, entries, x).Some?, ids[..i], id);
      if reused.Some? {
        evidence := evidence[id := reused.value];
        reusedIds := reusedIds + [id];
      } else {
        freshIds := freshIds + [id];
      }
    }
    assert ids[..|ids|] == ids;
    assert evidence == ReusedEvidence(c, entries);
  }

  lemma FilterEmpty(keep: string -> bool)
    ensures Filter(keep, []) == []
  {
  }

  // ---------------------------------------------------------- what a call returns

  lemma FreshOrReused(c: Call, entries: Option<Entries>)
    ensures Members(FreshIds(c, entries)) + ReusedEvidence(c, entries).Keys == Members(c.ir.effectIds)
    ensures Members(ReusedIds(c, entries)) == ReusedEvidence(c, entries).Keys
    ensures Members(FreshIds(c, entries)) !! Members(ReusedIds(c, entries))
  {
    hide Reuse, SortStrings;
  }

  lemma {:induction false} VerifiedKeys(c: Call, byId: map<string, Evaluation>, ids: seq<string>, start: Progress)
    requires start.evidence.Ok?
    ensures var p := Verified(c, byId, ids, start);
      p.evidence.Ok? ==> p.evidence.value.Keys == start.evidence.value.Keys + Members(ids)
  {
    hide ToEvidence, Stored;
    if ids != [] {
      VerifiedKeys(c, byId, ids[..|ids| - 1], start);
      assert ids == ids[..|ids| - 1] + [ids[|ids| - 1]];
    }
  }

  /** A call that returns covers every Protected Effect: the source's closing comparison of
      evidence and effects cannot fail. */
  lemma EveryEffectCovered(c: Call, entries: Option<Entries>)
    ensures Outcome(c, entries).evidence.Ok? ==> Outcome(c, entries).evidence.value.Keys == Members(c.ir.effectIds)
  {
    hide Reuse, FreshIds, ReusedEvidence, Verified;
    FreshOrReused(c, entries);
    var ids, start := FreshIds(c, entries), Progress(Ok(ReusedEvidence(c, entries)), entries);
    if ids != [] && c.evaluate(ids).Ok? {
      VerifiedKeys(c, ById(c.evaluate(ids).value), ids, start);
    } else {
      assert Members(ids) == {} || c.evaluate(ids).Raised?;
    }
  }

  lemma {:induction false} FilterSorted(keep: string -> bool, s: seq<string>)
    requires Sorted(StrLe, s)
    ensures Sorted(StrLe, Filter(keep, s))
  {
    hide StrLe;
    if s != [] {
      FilterSorted(keep, s[1..]);
      var more := Filter(keep, s[1..]);
      forall j | 0 <= j < |more| ensures StrLe(s[0], more[j]) {
        assert more[j] in s[1..];
        var k :| 0 <= k < |s[1..]| && s[1..][k] == more[j];
        assert StrLe(s[0], s[k + 1]);
      }
    }
  }

  /** The id lists are built in order, so the final sorts leave them as they are. */
  lemma AlreadySorted(keep: string -> bool, s: seq<string>)
    ensures SortStrings(Filter(keep, SortStrings(s))) == Filter(keep, SortStrings(s))
  {
    hide StrLe;
    var t := Filter(keep, SortStrings(s));
    FilterSorted(keep, SortStrings(s));
    StrIsTotalOrder();
    SortedUnique(StrLe, SortStrings(t), t);
  }

  lemma IdsAlreadySorted(c: Call, entries: Option<Entries>)
    ensures SortStrings(FreshIds(c, entries)) == FreshIds(c, entries)
      && SortStrings(ReusedIds(c, entries)) == ReusedIds(c, entries)
  {
    hide SortStrings, Filter, Reuse;
    AlreadySorted((id: string) => Reuse(c, entries, id).None?, c.ir.effectIds);
    AlreadySorted((id: string) => Reuse(c, entries, id).Some?, c.ir.effectIds);
  }

  method Listing(order: seq<string>, evidence: map<string, Evidence>) returns (items: seq<Evidence>)
    requires forall id :: id in order ==> id in evidence
    ensures |items| == |order| && forall i :: 0 <= i < |order| ==> items[i] == evidence[order[i]]
  {
    items := [];
    for i := 0 to |order|
      invariant |items| == i && forall j :: 0 <= j < i ==> items[j] == evidence[order[j]]
    {
      items := items + [evidence[order[i]]];
    }
  }

  method Materialize(c: Call, cache: EvidenceCache?) returns (r: Result<Materialized>)
    modifies if cache == null then {} else {cache}
    ensures Contents(cache) == Outcome(c, old(Contents(cache))).entries
    ensures r.Ok? <==> Outcome(c, old(Contents(cache))).evidence.Ok?
    ensures r.Ok? ==> IsResult(r.value, c, old(Contents(cache)), Outcome(c, old(Contents(cache))).evidence.value)
  {
    var evidence, freshIds, reusedIds := LookUp(c, cache);
    if freshIds != [] {
      var evaluations :- c.evaluate(freshIds);
      var byId := ById(evaluations);
      if byId.Keys != Members(freshIds) {
        return Raised;
      }
      evidence :- Verify(c, cache, byId, freshIds, evidence);
    }
    EveryEffectCovered(c, old(Contents(cache)));
    // The closing comparison of the source, evidence against effects, cannot fail here.
    assert evidence.Keys == Members(c.ir.effectIds);
    hide Outcome, Reuse, FreshIds, ReusedIds, SortStrings, SortedSet;
    var items := Listing(SortedSet(evidence.Keys), evidence);
    r := Ok(Materialized(items, SortStrings(freshIds), SortStrings(reusedIds)));
    IdsAlreadySorted(c, old(Contents(cache)));
  }

  method Verify(c: Call, cache: EvidenceCache?, byId: map<string, Evaluation>, freshIds: seq<string>,
      start: map<string, Evidence>)
    returns (r: Result<map<string, Evidence>>)
    requires byId.Keys == Members(freshIds)
    requires forall id :: id in byId ==> byId[id].effectId == id
    modifies if cache == null then {} else {cache}
    ensures Progress(r, Contents(cache)) == Verified(c, byId, freshIds, Progress(Ok(start), old(Contents(cache))))
  {
    var evidence := start;
    for i := 0 to |freshIds|
      invariant Progress(Ok(evidence), Contents(cache))
        == Verified(c, byId, freshIds[..i], Progress(Ok(start), old(Contents(cache))))
    {
      var id := freshIds[i];
      assert freshIds[..i + 1][..i] == freshIds[..i];
      var converted := ToEvidence(c, byId[id]);
      if converted.Raised? {
        RaisedStays(c, byId, freshIds, i + 1, Progress(Ok(start), old(Contents(cache))));
        return Raised;
      }
      var e := converted.value;
      evidence := evidence[id := e];
      if e.claim == Pass && e.runtime.Some? && cache != null {
        var _ := cache.Put(c, e, e.runtime.value);
      }
    }
    assert freshIds[..|freshIds|] == freshIds;
    r := Ok(evidence);
  }

  /** After an exception nothing more is recorded. */
  lemma {:induction false} RaisedStays(c: Call, byId: map<string, Evaluation>, ids: seq<string>,
      k: nat, start: Progress)
    requires k <= |ids| && Verified(c, byId, ids[..k], start).evidence.Raised?
    ensures Verified(c, byId, ids, start) == Verified(c, byId, ids[..k], start)
    decreases |ids|
  {
    if k < |ids| {
      var front := ids[..|ids| - 1];
      assert front[..k] == ids[..k];
      RaisedStays(c, byId, front, k, start);
    } else {
      assert ids[..k] == ids;
    }
  }

  // ------------------------------------------------------------------- theorems

  /** Evidence is filed under the effect it is about. */
  ghost predicate Filed(evidence: map<string, Evidence>) {
    forall id :: id in evidence ==> evidence[id].effectId == id
  }

  lemma {:induction false} VerifiedFiled(c: Call, byId: map<string, Evaluation>, ids: seq<string>, start: Progress)
    requires start.evidence.Ok? && Filed(start.evidence.value)
    requires forall id :: id in byId ==> byId[id].effectId == id
    ensures var p := Verified(c, byId, ids, start); p.evidence.Ok? ==> Filed(p.evidence.value)
  {
    hide Stored;
    if ids != [] { VerifiedFiled(c, byId, ids[..|ids| - 1], start); }
  }

  lemma OutcomeFiled(c: Call, entries: Option<Entries>)
    ensures Outcome(c, entries).evidence.Ok? ==> Filed(Outcome(c, entries).evidence.value)
  {
    hide FreshIds, Verified;
    var ids, start := FreshIds(c, entries), Progress(Ok(ReusedEvidence(c, entries)), entries);
    assert Filed(ReusedEvidence(c, entries));
    if ids != [] && c.evaluate(ids).Ok? {
      VerifiedFiled(c, ById(c.evaluate(ids).value), ids, start);
    }
  }

  /** Every successful call returns exactly one evidence item per Protected Effect, in id
      order, and its fresh and reused ids partition the effects. */
  lemma OneItemPerEffect(c: Call, entries: Option<Entries>, result: Materialized)
    requires Outcome(c, entries).evidence.Ok? && IsResult(result, c, entries, Outcome(c, entries).evidence.value)
    requires Distinct(c.ir.effectIds)
    ensures |result.evidence| == |c.ir.effectIds|
    ensures forall i :: 0 <= i < |result.evidence| ==> result.evidence[i].effectId == SortStrings(c.ir.effectIds)[i]
    ensures Members(result.freshEffects) + Members(result.reusedEffects) == Members(c.ir.effectIds)
    ensures Members(result.freshEffects) !! Members(result.reusedEffects)
    ensures |result.freshEffects| + |result.reusedEffects| == |c.ir.effectIds|
  {
    hide Outcome, Reuse, StrLe, SortStrings, SortedSet, Filter;
    OutcomeFiled(c, entries);
    FreshOrReused(c, entries);
    OneOrder(c.ir.effectIds);
    FilterSplits((id: string) => Reuse(c, entries, id).Some?,
      (id: string) => Reuse(c, entries, id).None?, SortStrings(c.ir.effectIds));
    hide FreshIds, ReusedIds;
    assert result.freshEffects == FreshIds(c, entries) && result.reusedEffects == ReusedIds(c, entries);
  }

  /** Sorting distinct ids or enumerating their set gives the same list. */
  lemma OneOrder(s: seq<string>)
    requires Distinct(s)
    ensures SortStrings(s) == SortedSet(Members(s))
  {
    hide StrLe, SortStrings, SortedSet;
    SortKeepsDistinctStrings(s);
    DistinctSameMembers(SortStrings(s), SortedSet(Members(s)));
    StrIsTotalOrder();
    SortedUnique(StrLe, SortStrings(s), SortedSet(Members(s)));
  }

  lemma SortKeepsDistinctStrings(s: seq<string>)
    requires Distinct(s)
    ensures Distinct(SortStrings(s))
  {
    DistinctByCount(s);
    DistinctByCount(SortStrings(s));
    assert Members(SortStrings(s)) == Members(s);
  }

  lemma {:induction false} FilterSplits(keep: string -> bool, drop: string -> bool, s: seq<string>)
    requires forall x :: keep(x) != drop(x)
    ensures |Filter(keep, s)| + |Filter(drop, s)| == |s|
  {
    if s != [] { FilterSplits(keep, drop, s[1..]); }
  }

  // ------------------------------------------------------------------ whole runs

  /** The entries after a run of calls from an empty cache. */
  function After(calls: seq<Call>): Entries {
    if calls == [] then map[] else
      var entries := Outcome(calls[|calls| - 1], Some(After(calls[..|calls| - 1]))).entries;
      if entries.Some? then entries.value else map[]
  }

  /** `e` was issued under `key` from an evaluation that this very call obtained, which
      passed, with a runtime fingerprint. */
  ghost predicate EvaluatedIn(c: Call, entries: Entries, key: CacheKey, e: Evidence) {
    && e.origin.FromEvaluation? && e.origin.evaluation.status == Pass && e.claim == Pass
    && e.effectId == key.effectId == e.origin.evaluation.effectId
    && c.runtimeOf(key.effectId) == Some(key.runtime) && e.runtime == Some(key.runtime)
    && key == KeyOf(c, key.effectId, key.runtime)
    && var answer := c.evaluate(FreshIds(c, Some(entries)));
       answer.Ok? && e.origin.evaluation in answer.value
  }

  /** Each entry traces to a call of the run. */
  ghost predicate Traced(calls: seq<Call>, key: CacheKey, e: Evidence) {
    exists j :: 0 <= j < |calls| && EvaluatedIn(calls[j], After(calls[..j]), key, e)
  }

  lemma StoredTraces(c: Call, entries: Entries, current: Option<Entries>, evaluation: Evaluation, key: CacheKey)
    requires ToEvidence(c, evaluation).Ok?
    requires c.evaluate(FreshIds(c, Some(entries))).Ok? && evaluation in c.evaluate(FreshIds(c, Some(entries))).value
    requires current.Some? && key in Stored(c, current, ToEvidence(c, evaluation).value).value
    ensures var now := Stored(c, current, ToEvidence(c, evaluation).value).value;
      (key in current.value && now[key] == current.value[key]) || EvaluatedIn(c, entries, key, now[key])
  {
    hide FreshIds;
  }

  /** Within one call, every entry either was there before or comes from its own evaluations. */
  lemma {:induction false} VerifiedTraces(c: Call, entries: Entries, evaluations: seq<Evaluation>, ids: seq<string>,
      start: Progress, key: CacheKey)
    requires start.entries.Some? && c.evaluate(FreshIds(c, Some(entries))) == Ok(evaluations)
    ensures var p := Verified(c, ById(evaluations), ids, start);
      && p.entries.Some?
      && (key in p.entries.value ==>
          (key in start.entries.value && p.entries.value[key] == start.entries.value[key])
            || EvaluatedIn(c, entries, key, p.entries.value[key]))
  {
    hide FreshIds, EvaluatedIn;
    if ids != [] {
      var n := |ids| - 1;
      var byId := ById(evaluations);
      VerifiedTraces(c, entries, evaluations, ids[..n], start, key);
      var p := Verified(c, byId, ids[..n], start);
      if p.evidence.Ok? && ids[n] in byId && ToEvidence(c, byId[ids[n]]).Ok? {
        var now := Stored(c, p.entries, ToEvidence(c, byId[ids[n]]).value);
        if key in now.value { StoredTraces(c, entries, p.entries, byId[ids[n]], key); }
      }
    }
  }

  lemma OutcomeTraces(c: Call, entries: Entries, key: CacheKey)
    ensures Outcome(c, Some(entries)).entries.Some?
    ensures var now := Outcome(c, Some(entries)).entries.value;
      key in now ==> (key in entries && now[key] == entries[key]) || EvaluatedIn(c, entries, key, now[key])
  {
    hide FreshIds, EvaluatedIn, Verified, ReusedEvidence;
    var ids := FreshIds(c, Some(entries));
    var start := Progress(Ok(ReusedEvidence(c, Some(entries))), Some(entries));
    if ids != [] && c.evaluate(ids).Ok? {
      VerifiedTraces(c, entries, c.evaluate(ids).value, ids, start, key);
    }
  }

  /** Across any run from an empty cache, each entry traces to an evaluation of the run. */
  lemma {:induction false} RunTraced(calls: seq<Call>, key: CacheKey)
    ensures key in After(calls) ==> Traced(calls, key, After(calls)[key])
  {
    hide EvaluatedIn, Outcome;
    if calls != [] {
      var n := |calls| - 1;
      var before := After(calls[..n]);
      RunTraced(calls[..n], key);
      OutcomeTraces(calls[n], before, key);
      if key in before && Traced(calls[..n], key, before[key]) {
        var j :| 0 <= j < n && EvaluatedIn(calls[..n][j], After(calls[..n][..j]), key, before[key]);
        assert calls[..n][..j] == calls[..j];
      }
    }
  }

  /** Every item that a call of the run reuses was reissued from evidence of an earlier call,
      whose evaluation of the same effect, slice, policy and runtime passed. */
  lemma ReusedTraces(calls: seq<Call>, i: nat, effectId: string)
    requires i < |calls| && Reuse(calls[i], Some(After(calls[..i])), effectId).Some?
    ensures var e := Reuse(calls[i], Some(After(calls[..i])), effectId).value;
      e.effectId == effectId && e.claim == Pass && e.origin.Reissued? && e.runtime.Some?
      && exists j | 0 <= j < i ::
        EvaluatedIn(calls[j], After(calls[..j]), KeyOf(calls[i], effectId, e.runtime.value), e.origin.prior)
  {
    hide EvaluatedIn, Outcome, After;
    var e := Reuse(calls[i], Some(After(calls[..i])), effectId).value;
    var key := KeyOf(calls[i], effectId, e.runtime.value);
    RunTraced(calls[..i], key);
    var j :| 0 <= j < i && EvaluatedIn(calls[..i][j], After(calls[..i][..j]), key, e.origin.prior);
    assert calls[..i][..j] == calls[..j];
  }
}
