/** Claim-local coverage statuses read back from sealed effect evidence
    (ovk/core/automatic_pr_assurance.py). */
module EffectiveCoverage {
  import opened Ordering
  import opened Text

  /** The coverage metadata of an evidence item; missing values are empty strings. */
  datatype Coverage = Untyped | Typed(effectId: string, status: string)

  predicate WellTyped(c: Coverage) { c.Typed? && Strip(c.effectId) != "" && Strip(c.status) != "" }

  function CoveredIds(evidence: seq<Coverage>): seq<string> {
    Map((c: Coverage) => if c.Typed? then Strip(c.effectId) else "", evidence)
  }

  predicate Filed(c: Coverage, statuses: map<string, string>) {
    WellTyped(c) && Strip(c.effectId) in statuses && statuses[Strip(c.effectId)] == Strip(c.status)
  }

  /** One item of evidence, against the statuses filed so far. */
  method FileOne(coverage: Coverage, statuses: map<string, string>) returns (r: Result<map<string, string>>)
    ensures r.Ok? <==> WellTyped(coverage) && Strip(coverage.effectId) !in statuses
    ensures r.Ok? ==> r.value == statuses[Strip(coverage.effectId) := Strip(coverage.status)]
  {
    if coverage.Untyped? {
      return Raised;
    }
    var effectId, status := Strip(coverage.effectId), Strip(coverage.status);
    if effectId == "" || status == "" {
      return Raised;
    }
    if effectId in statuses {
      return Raised;
    }
    r := Ok(statuses[effectId := status]);
  }

  /** One status per effect, or an exception when identity or status is missing or repeated. */
  method EffectiveCoverageStatuses(evidence: seq<Coverage>) returns (r: Result<map<string, string>>)
    ensures r.Ok? <==>
      && (forall c :: c in evidence ==> c.Typed? && Strip(c.effectId) != "" && Strip(c.status) != "")
      && (forall i, j :: 0 <= i < j < |evidence| && evidence[i].Typed? && evidence[j].Typed? ==>
            Strip(evidence[i].effectId) != Strip(evidence[j].effectId))
    ensures r.Ok? ==> forall id :: id in r.value <==> exists c :: c in evidence && c.Typed? && Strip(c.effectId) == id
    ensures r.Ok? ==> forall c :: c in evidence && c.Typed? ==>
      Strip(c.effectId) in r.value && r.value[Strip(c.effectId)] == Strip(c.status)
  {
    r := FileAll(evidence);
    if forall c :: c in evidence ==> WellTyped(c) { CoveredExactly(evidence); }
    hide Strip, Distinct, CoveredIds;
  }

  lemma CoveredExactly(evidence: seq<Coverage>)
    requires forall c :: c in evidence ==> WellTyped(c)
    ensures Distinct(CoveredIds(evidence)) <==>
      forall i, j :: 0 <= i < j < |evidence| && evidence[i].Typed? && evidence[j].Typed? ==>
        Strip(evidence[i].effectId) != Strip(evidence[j].effectId)
    ensures forall id :: id in Members(CoveredIds(evidence)) <==>
      exists c :: c in evidence && c.Typed? && Strip(c.effectId) == id
  {
    hide Strip;
    FiledAreTyped(evidence);
    var ids := CoveredIds(evidence);
    assert forall i :: 0 <= i < |evidence| ==> evidence[i] in evidence && ids[i] == Strip(evidence[i].effectId);
  }

  /** The loop over the items. */
  method FileAll(evidence: seq<Coverage>) returns (r: Result<map<string, string>>)
    ensures r.Ok? <==> (forall c :: c in evidence ==> WellTyped(c)) && Distinct(CoveredIds(evidence))
    ensures r.Ok? ==> r.value.Keys == Members(CoveredIds(evidence))
    ensures r.Ok? ==> forall c :: c in evidence ==> Filed(c, r.value)
  {
    hide *;
    FiledAreTyped(evidence);
    var statuses: map<string, string> := map[];
    ghost var ids := CoveredIds(evidence);
    NothingYet(ids);
    for i := 0 to |evidence|
      invariant Distinct(ids[..i]) && statuses.Keys == Members(ids[..i])
      invariant forall c :: c in evidence[..i] ==> Filed(c, statuses)
    {
      assert evidence[i] in evidence;
      var filed := FileOne(evidence[i], statuses);
      NextId(ids, i);
      if filed.Raised? {
        return Raised;
      }
      KeepsFiled(evidence[..i], statuses, evidence[i]);
      statuses := filed.value;
      assert evidence[..i + 1] == evidence[..i] + [evidence[i]];
    }
    assert ids[..|evidence|] == ids && evidence[..|evidence|] == evidence;
    r := Ok(statuses);
  }

  lemma FiledAreTyped(evidence: seq<Coverage>)
    ensures forall c, statuses :: Filed(c, statuses) ==> WellTyped(c)
    ensures |CoveredIds(evidence)| == |evidence|
    ensures forall i :: 0 <= i < |evidence| && WellTyped(evidence[i]) ==>
      CoveredIds(evidence)[i] == Strip(evidence[i].effectId)
  {
    hide Strip;
  }

  lemma NothingYet(ids: seq<string>)
    ensures Distinct(ids[..0]) && Members(ids[..0]) == {}
  {
  }

  lemma NextId(ids: seq<string>, i: nat)
    requires i < |ids| && Distinct(ids[..i])
    ensures Members(ids[..i + 1]) == Members(ids[..i]) + {ids[i]}
    ensures if ids[i] in Members(ids[..i]) then !Distinct(ids) else Distinct(ids[..i + 1])
  {
  }

  lemma KeepsFiled(done: seq<Coverage>, statuses: map<string, string>, c: Coverage)
    requires WellTyped(c) && Strip(c.effectId) !in statuses && forall x :: x in done ==> Filed(x, statuses)
    ensures forall x :: x in done + [c] ==> Filed(x, statuses[Strip(c.effectId) := Strip(c.status)])
  {
    hide Strip;
  }
}
