/** What one call returns and caches for each effect, over the answers of the evaluator, the
    validity checks and the cache (ovk/core/automatic_pr_assurance.py). */
module EvidenceOutcomes {
  import opened Ordering
  import opened Text
  import opened EvidenceMaterialization

  // --------------------------------------------------------------------- reuse

  /** The key of an effect: repository, effect, slice, policy and runtime, and no revision. */
  lemma KeyExactly(c: Call, d: Call, effectId: string, otherId: string, runtime: Runtime, other: Runtime)
    ensures KeyOf(c, effectId, runtime) == KeyOf(d, otherId, other) <==>
      && c.ir.repo == d.ir.repo && effectId == otherId && c.ir.semanticDigest(effectId) == d.ir.semanticDigest(otherId)
      && c.policyDigest == d.policyDigest && runtime == other
  {
  }

  /** The cache holds a PASS for this effect, slice, policy and runtime that is still valid now. */
  predicate Holds(c: Call, entries: Option<Entries>, effectId: string, prior: Evidence) {
    && c.runtimeOf(effectId).Some? && entries.Some?
    && var key := CacheKey(c.ir.repo, effectId, c.ir.semanticDigest(effectId), c.policyDigest,
                           c.runtimeOf(effectId).value);
    && key in entries.value && entries.value[key] == prior
    && prior.claim == Pass && c.stillValid(prior)
    && prior.effectId == effectId && prior.semanticDigest == c.ir.semanticDigest(effectId)
    && prior.policyDigest == c.policyDigest && prior.runtime == c.runtimeOf(effectId)
  }

  /** Reuse, exactly: an effect is reused if and only if the cache holds such a PASS, and then
      what is returned is that PASS reissued for this very effect, slice, policy and runtime. */
  lemma ReuseExactly(c: Call, entries: Option<Entries>, effectId: string)
    ensures Reuse(c, entries, effectId).Some? <==> exists prior :: Holds(c, entries, effectId, prior)
    ensures forall prior :: Holds(c, entries, effectId, prior) ==>
      Reuse(c, entries, effectId) == Some(Evidence(
        effectId, c.ir.semanticDigest(effectId), c.policyDigest, Pass, c.runtimeOf(effectId), prior.checkers,
        Reissued(prior)))
  {
    if Reuse(c, entries, effectId).Some? {
      var key := KeyOf(c, effectId, c.runtimeOf(effectId).value);
      assert Holds(c, entries, effectId, entries.value[key]);
    }
  }

  /** Which effects are evaluated afresh, and in which order. */
  lemma FreshExactly(c: Call, entries: Option<Entries>, effectId: string)
    ensures effectId in FreshIds(c, entries) <==>
      effectId in c.ir.effectIds && forall prior :: !Holds(c, entries, effectId, prior)
    ensures effectId in ReusedIds(c, entries) <==>
      effectId in c.ir.effectIds && exists prior :: Holds(c, entries, effectId, prior)
    ensures Sorted(StrLe, FreshIds(c, entries)) && Sorted(StrLe, ReusedIds(c, entries))
  {
    hide Reuse, Holds, StrLe, SortStrings;
    ReuseExactly(c, entries, effectId);
    FilterSorted((id: string) => Reuse(c, entries, id).None?, SortStrings(c.ir.effectIds));
    FilterSorted((id: string) => Reuse(c, entries, id).Some?, SortStrings(c.ir.effectIds));
  }

  // ---------------------------------------------------------- fresh evaluations

  /** Of several evaluations of an effect the last counts. */
  lemma {:induction false} LastEvaluation(evaluations: seq<Evaluation>, e: Evaluation)
    ensures IsLast((x: Evaluation) => x.effectId, evaluations, e) <==>
      e.effectId in ById(evaluations) && ById(evaluations)[e.effectId] == e
  {
    hide IsLast;
    if evaluations == [] {
      NothingLast((x: Evaluation) => x.effectId, e);
    } else {
      var n := |evaluations| - 1;
      assert evaluations == evaluations[..n] + [evaluations[n]];
      ByIdSnoc(evaluations[..n], evaluations[n]);
      hide *;
      LastEvaluation(evaluations[..n], e);
      LastSnoc((x: Evaluation) => x.effectId, evaluations[..n], evaluations[n], e);
    }
  }

  lemma ByIdSnoc(front: seq<Evaluation>, last: Evaluation)
    ensures ById(front + [last]) == ById(front)[last.effectId := last]
  {
    assert (front + [last])[..|front|] == front;
  }

  /** Evidence of an evaluation, exactly: refused unless it is about this IR, one of its effects, and
      some policy; and else it claims what was evaluated, under the runtime of the effect. */
  lemma EvidenceExactly(c: Call, evaluation: Evaluation)
    ensures ToEvidence(c, evaluation).Ok? <==>
      && evaluation.irDigest == c.ir.digest && evaluation.effectId in c.ir.effectIds && Strip(c.policyDigest) != ""
    ensures ToEvidence(c, evaluation).Ok? ==> ToEvidence(c, evaluation).value == Evidence(
      evaluation.effectId, c.ir.semanticDigest(evaluation.effectId), Strip(c.policyDigest), evaluation.status,
      c.runtimeOf(evaluation.effectId), evaluation.checkers, FromEvaluation(evaluation))
  {
  }

  /** Fresh evidence is stored if and only if it claims PASS under a runtime, for a policy without
      surrounding space, is valid, and the write goes through. */
  predicate IsStored(c: Call, entries: Option<Entries>, e: Evidence) {
    && entries.Some? && e.claim == Pass && e.runtime.Some? && e.policyDigest == c.policyDigest
    && e.semanticDigest == c.ir.semanticDigest(e.effectId)
    && c.stillValid(e) && c.writeSucceeds(e)
  }

  lemma StoredExactly(c: Call, entries: Option<Entries>, e: Evidence)
    ensures Stored(c, entries, e) ==
      if IsStored(c, entries, e) then
        Some(entries.value[CacheKey(c.ir.repo, e.effectId, c.ir.semanticDigest(e.effectId), c.policyDigest,
                                    e.runtime.value) := e])
      else entries
  {
  }

  // ------------------------------------------------------------------- one call

  /** Every fresh effect got an evaluation, and no other effect did. */
  predicate Answers(evaluations: Result<seq<Evaluation>>, ids: seq<string>) {
    evaluations.Ok? && (set e | e in evaluations.value :: e.effectId) == (set id | id in ids)
  }

  /** The evidence of the fresh effect `id`, from the last evaluation of it. */
  function FreshEvidence(c: Call, evaluations: seq<Evaluation>, id: string): Option<Evidence> {
    if id !in ById(evaluations) then None
    else match ToEvidence(c, ById(evaluations)[id]) case Ok(e) => Some(e) case Raised => None
  }

  lemma {:induction false} VerifiedExactly(c: Call, evaluations: seq<Evaluation>, ids: seq<string>, start: Progress)
    requires start.evidence.Ok?
    ensures var p := Verified(c, ById(evaluations), ids, start);
      && (p.evidence.Ok? <==> forall id :: id in ids ==> FreshEvidence(c, evaluations, id).Some?)
      && (p.evidence.Ok? ==> forall id :: id in p.evidence.value ==>
            if id in ids then FreshEvidence(c, evaluations, id) == Some(p.evidence.value[id])
            else id in start.evidence.value && p.evidence.value[id] == start.evidence.value[id])
  {
    hide ToEvidence, Stored;
    if ids != [] {
      var n := |ids| - 1;
      VerifiedExactly(c, evaluations, ids[..n], start);
      assert forall id :: id in ids <==> id in ids[..n] || id == ids[n];
      var before := Verified(c, ById(evaluations), ids[..n], start);
      assert before.evidence.Ok? ==> (VerifyOne(c, ById(evaluations), ids[n], before).evidence.Ok?
        <==> FreshEvidence(c, evaluations, ids[n]).Some?);
    }
  }

  /** The evidence of a call, exactly. It returns if and only if nothing is fresh or the evaluator
      answers for exactly the fresh effects with evaluations that can be turned into evidence;
      and then each effect has its reissued PASS or the evidence of its last evaluation. */
  lemma OutcomeExactly(c: Call, entries: Option<Entries>)
    ensures var ids, evaluations := FreshIds(c, entries), c.evaluate(FreshIds(c, entries));
      && (Outcome(c, entries).evidence.Ok? <==>
          ids == [] || (Answers(evaluations, ids)
            && forall id :: id in ids ==> FreshEvidence(c, evaluations.value, id).Some?))
      && (Outcome(c, entries).evidence.Ok? ==> forall id :: id in Outcome(c, entries).evidence.value ==>
            var e := Outcome(c, entries).evidence.value[id];
            if id in ids then FreshEvidence(c, evaluations.value, id) == Some(e)
            else Reuse(c, entries, id) == Some(e))
  {
    hide FreshIds, Verified, FreshEvidence, Reuse;
    var ids, evaluations := FreshIds(c, entries), c.evaluate(FreshIds(c, entries));
    if ids != [] && evaluations.Ok? {
      VerifiedExactly(c, evaluations.value, ids, Progress(Ok(ReusedEvidence(c, entries)), entries));
      assert ById(evaluations.value).Keys == set e | e in evaluations.value :: e.effectId;
    }
  }

  /** The k-th fresh effect is reached, and its evidence is stored under the key. */
  predicate StoresAt(c: Call, evaluations: seq<Evaluation>, ids: seq<string>, k: nat, key: CacheKey)
    requires k < |ids|
  {
    && (forall j :: 0 <= j < k ==> FreshEvidence(c, evaluations, ids[j]).Some?)
    && Files(c, FreshEvidence(c, evaluations, ids[k]), key)
  }

  predicate Files(c: Call, e: Option<Evidence>, key: CacheKey) {
    && e.Some? && e.value.runtime.Some?
    && IsStored(c, Some(map[]), e.value)
    && key == CacheKey(c.ir.repo, e.value.effectId, c.ir.semanticDigest(e.value.effectId), c.policyDigest,
                       e.value.runtime.value)
  }

  /** What the second loop leaves under a key: the evidence of the fresh effect that is stored
      under it, up to the one at which an exception ends the loop, and else what was there. */
  predicate Leaves(c: Call, evaluations: seq<Evaluation>, ids: seq<string>, start: Entries, after: Entries,
                   key: CacheKey) {
    && (forall k :: 0 <= k < |ids| && StoresAt(c, evaluations, ids, k, key) ==>
          key in after && FreshEvidence(c, evaluations, ids[k]) == Some(after[key]))
    && ((forall k :: 0 <= k < |ids| ==> !StoresAt(c, evaluations, ids, k, key)) ==> SameAt(start, after, key))
  }

  predicate SameAt(start: Entries, after: Entries, key: CacheKey) {
    (key in after <==> key in start) && (key in after ==> after[key] == start[key])
  }

  lemma {:induction false} VerifiedEntries(c: Call, evaluations: seq<Evaluation>, ids: seq<string>, start: Progress,
                                           key: CacheKey)
    requires start.evidence.Ok? && start.entries.Some?
    ensures var p := Verified(c, ById(evaluations), ids, start);
      p.entries.Some? && Leaves(c, evaluations, ids, start.entries.value, p.entries.value, key)
  {
    if ids != [] {
      var n := |ids| - 1;
      var before := Verified(c, ById(evaluations), ids[..n], start);
      VerifiedLast(c, evaluations, ids, start);
      hide *;
      VerifiedEntries(c, evaluations, ids[..n], start, key);
      VerifiedExactly(c, evaluations, ids[..n], start);
      StepEntries(c, evaluations, ids[n], before, key);
      LeavesSnoc(c, evaluations, ids, start.entries.value, before.entries.value,
                 VerifyOne(c, ById(evaluations), ids[n], before).entries.value, key);
    }
  }

  lemma LeavesSnoc(c: Call, evaluations: seq<Evaluation>, ids: seq<string>, start: Entries, before: Entries,
                   after: Entries, key: CacheKey)
    requires ids != [] && Leaves(c, evaluations, ids[..|ids| - 1], start, before, key)
    requires var reached := forall id :: id in ids[..|ids| - 1] ==> FreshEvidence(c, evaluations, id).Some?;
      var e := FreshEvidence(c, evaluations, ids[|ids| - 1]);
      if reached && Files(c, e, key) then key in after && e == Some(after[key]) else SameAt(before, after, key)
    ensures Leaves(c, evaluations, ids, start, after, key)
  {
    hide FreshEvidence, StoresAt, Files;
    var n := |ids| - 1;
    StoresLast(c, evaluations, ids, key);
    forall k | 0 <= k < n ensures StoresAt(c, evaluations, ids, k, key) == StoresAt(c, evaluations, ids[..n], k, key) {
      StoresInFront(c, evaluations, ids, k, key);
    }
    forall k | 0 <= k < |ids| && StoresAt(c, evaluations, ids, k, key) ensures key.effectId == ids[k] {
      StoresOwn(c, evaluations, ids, k, key);
    }
  }

  lemma VerifiedLast(c: Call, evaluations: seq<Evaluation>, ids: seq<string>, start: Progress)
    requires ids != []
    ensures var n := |ids| - 1;
      Verified(c, ById(evaluations), ids, start) ==
        VerifyOne(c, ById(evaluations), ids[n], Verified(c, ById(evaluations), ids[..n], start))
  {
  }

  lemma StoresInFront(c: Call, evaluations: seq<Evaluation>, ids: seq<string>, k: nat, key: CacheKey)
    requires k < |ids| - 1
    ensures StoresAt(c, evaluations, ids, k, key) == StoresAt(c, evaluations, ids[..|ids| - 1], k, key)
  {
    hide Files, FreshEvidence;
    assert forall j :: 0 <= j <= k ==> ids[j] == ids[..|ids| - 1][j];
  }

  lemma StoresLast(c: Call, evaluations: seq<Evaluation>, ids: seq<string>, key: CacheKey)
    requires ids != []
    ensures var n := |ids| - 1;
      StoresAt(c, evaluations, ids, n, key) <==>
        && (forall id :: id in ids[..n] ==> FreshEvidence(c, evaluations, id).Some?)
        && Files(c, FreshEvidence(c, evaluations, ids[n]), key)
  {
    hide Files, FreshEvidence;
    var n := |ids| - 1;
    assert forall j :: 0 <= j < n ==> ids[j] in ids[..n];
  }

  lemma StoresOwn(c: Call, evaluations: seq<Evaluation>, ids: seq<string>, k: nat, key: CacheKey)
    requires k < |ids| && StoresAt(c, evaluations, ids, k, key)
    ensures key.effectId == ids[k]
  {
    FilesOwn(c, evaluations, ids[k], key);
    hide Files, FreshEvidence;
  }

  /** What a call leaves in the cache, key by key. A call without fresh effects, or whose evaluator
      raises or answers for other effects, leaves everything as it was. */
  lemma EntriesExactly(c: Call, entries: Entries, key: CacheKey)
    ensures var ids, evaluations := FreshIds(c, Some(entries)), c.evaluate(FreshIds(c, Some(entries)));
      var after := Outcome(c, Some(entries)).entries;
      && after.Some?
      && (ids == [] || !Answers(evaluations, ids) ==> after.value == entries)
      && (ids != [] && Answers(evaluations, ids) ==>
          Leaves(c, evaluations.value, ids, entries, after.value, key))
  {
    hide FreshIds, ReusedEvidence, Verified, Leaves;
    var ids := FreshIds(c, Some(entries));
    var evaluations := c.evaluate(ids);
    if ids != [] && evaluations.Ok? {
      assert ById(evaluations.value).Keys == set e | e in evaluations.value :: e.effectId;
      VerifiedEntries(c, evaluations.value, ids, Progress(Ok(ReusedEvidence(c, Some(entries))), Some(entries)), key);
    }
  }

  lemma FilesOwn(c: Call, evaluations: seq<Evaluation>, id: string, key: CacheKey)
    ensures Files(c, FreshEvidence(c, evaluations, id), key) ==> key.effectId == id
  {
  }

  lemma StepEntries(c: Call, evaluations: seq<Evaluation>, id: string, before: Progress, key: CacheKey)
    requires before.entries.Some?
    ensures var p := VerifyOne(c, ById(evaluations), id, before);
      && p.entries.Some?
      && if before.evidence.Ok? && Files(c, FreshEvidence(c, evaluations, id), key) then
           key in p.entries.value && FreshEvidence(c, evaluations, id) == Some(p.entries.value[key])
         else SameAt(before.entries.value, p.entries.value, key)
  {
    if before.evidence.Ok? && FreshEvidence(c, evaluations, id).Some? {
      StoredExactly(c, before.entries, FreshEvidence(c, evaluations, id).value);
    }
    hide ToEvidence, Stored, Eligible, ById;
  }

  // ------------------------------------------------------------------ whole runs

  /** What a call of a run reuses was stored by an earlier call, and is valid in the call that reuses it. */
  lemma ReusedStillValid(calls: seq<Call>, i: nat, effectId: string)
    requires i < |calls| && Reuse(calls[i], Some(After(calls[..i])), effectId).Some?
    ensures var c, e := calls[i], Reuse(calls[i], Some(After(calls[..i])), effectId).value;
      && e.origin.Reissued? && c.stillValid(e.origin.prior) && e.origin.prior.claim == Pass
      && e.origin.prior.policyDigest == e.policyDigest == c.policyDigest
      && e.origin.prior.semanticDigest == e.semanticDigest == c.ir.semanticDigest(effectId)
      && e.origin.prior.runtime == e.runtime == c.runtimeOf(effectId)
  {
    ReuseExactly(calls[i], Some(After(calls[..i])), effectId);
  }
}
