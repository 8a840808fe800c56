/** The arithmetic behind the product-qualification gate (ovk/core/assurance_qualification.py),
    over exact rationals. */
module Qualification {
  import opened Ordering
  import opened Text

  datatype ValidationClass = Synthetic | ProductionShapedInternal | PublicUpstreamReduction | IndependentExternal

  datatype SafetyLabel = Safe | Unsafe

  datatype CaseResult = CaseResult(
    repository: string, validation: ValidationClass, safety: SafetyLabel,
    assuranceAvailable: bool, headEstablished: bool, semanticComplete: bool,
    unsafeFalseAssurance: bool, benignOpen: bool, humanAdjudicated: bool)

  // ------------------------------------------------------------------- counting

  function Count(keep: CaseResult -> bool, s: seq<CaseResult>): nat { |Filter(keep, s)| }

  lemma {:induction false} CountExtremes(keep: CaseResult -> bool, s: seq<CaseResult>)
    ensures Count(keep, s) == |s| <==> forall x :: x in s ==> keep(x)
    ensures Count(keep, s) == 0 <==> forall x :: x in s ==> !keep(x)
  {
    if s != [] {
      assert s == [s[0]] + s[1..];
      CountExtremes(keep, s[1..]);
    }
  }

  /** A property that splits another in two splits its count. */
  lemma {:induction false} CountSplits(whole: CaseResult -> bool, a: CaseResult -> bool, b: CaseResult -> bool,
      s: seq<CaseResult>)
    requires forall x :: x in s ==> (whole(x) <==> a(x) || b(x)) && !(a(x) && b(x))
    ensures Count(whole, s) == Count(a, s) + Count(b, s)
  {
    if s != [] {
      assert s == [s[0]] + s[1..];
      CountSplits(whole, a, b, s[1..]);
    }
  }

  // ----------------------------------------------------------- rates, percentile

  function Rate(numerator: int, denominator: int): Option<real> {
    if denominator <= 0 then None else Some(numerator as real / denominator as real)
  }

  /** The rate compares with a threshold as the cross-multiplied counts do. */
  lemma RateBelow(numerator: int, denominator: int, threshold: real)
    ensures (Rate(numerator, denominator).None? || Rate(numerator, denominator).value < threshold)
      <==> denominator <= 0 || numerator as real < threshold * denominator as real
    ensures (Rate(numerator, denominator).None? || Rate(numerator, denominator).value > threshold)
      <==> denominator <= 0 || numerator as real > threshold * denominator as real
  {
  }

  predicate RealLe(a: real, b: real) { a <= b }

  /** `fraction * len(values)` */
  function Share(fraction: real, n: nat): real { fraction * n as real }

  function Ceil(x: real): int { -(-x).Floor }

  /** None for no values, an exception for an index past the end. */
  function Percentile(values: seq<real>, fraction: real): Result<Option<real>> {
    if values == [] then Ok(None)
    else
      var ordered := SortBy(RealLe, values);
      var index := Ceil(Share(fraction, |ordered|)) - 1;
      if index >= |ordered| then Raised else Ok(Some(ordered[if index < 0 then 0 else index]))
  }

  function AtMost(values: seq<real>, v: real): nat { |Filter((x: real) => x <= v, values)| }

  function Below(values: seq<real>, v: real): nat { |Filter((x: real) => x < v, values)| }

  lemma {:induction false} FilterSort(keep: real -> bool, s: seq<real>)
    ensures |Filter(keep, SortBy(RealLe, s))| == |Filter(keep, s)|
  {
    if s != [] {
      FilterSort(keep, s[1..]);
      FilterInsert(keep, s[0], SortBy(RealLe, s[1..]));
    }
  }

  lemma {:induction false} FilterInsert(keep: real -> bool, x: real, s: seq<real>)
    ensures |Filter(keep, Insert(RealLe, x, s))| == |Filter(keep, s)| + if keep(x) then 1 else 0
  {
    if s == [] {
      assert Filter(keep, [x]) == if keep(x) then [x] else [];
    } else if RealLe(x, s[0]) {
      assert ([x] + s)[1..] == s;
    } else {
      FilterInsert(keep, x, s[1..]);
    }
  }

  lemma {:induction false} FilterExtremes(keep: real -> bool, s: seq<real>)
    ensures (forall x :: x in s ==> keep(x)) ==> |Filter(keep, s)| == |s|
    ensures (forall x :: x in s ==> !keep(x)) ==> |Filter(keep, s)| == 0
  {
    if s != [] {
      var rest := s[1..];
      assert s == [s[0]] + rest;
      FilterExtremes(keep, rest);
      assert (forall x :: x in s ==> keep(x)) ==> forall x :: x in rest ==> keep(x);
      assert (forall x :: x in s ==> !keep(x)) ==> forall x :: x in rest ==> !keep(x);
    }
  }

  /** In a sorted list, the value at `k` has `k + 1` values at or below it, and at most `k` below. */
  lemma RankInSorted(ordered: seq<real>, k: nat)
    requires Sorted(RealLe, ordered) && k < |ordered|
    ensures AtMost(ordered, ordered[k]) >= k + 1 && Below(ordered, ordered[k]) <= k
  {
    var v := ordered[k];
    var atMost, below := (x: real) => x <= v, (x: real) => x < v;
    assert ordered == ordered[..k + 1] + ordered[k + 1..] == ordered[..k] + ordered[k..];
    FilterConcat(atMost, ordered[..k + 1], ordered[k + 1..]);
    FilterConcat(below, ordered[..k], ordered[k..]);
    forall x | x in ordered[..k + 1]
      ensures atMost(x) { var i :| 0 <= i <= k && ordered[i] == x; assert i < k ==> RealLe(ordered[i], v); }
    forall x | x in ordered[k..]
      ensures !below(x) { var i :| k <= i < |ordered| && ordered[i] == x; assert k < i ==> RealLe(v, ordered[i]); }
    FilterExtremes(atMost, ordered[..k + 1]);
    FilterExtremes(below, ordered[k..]);
  }

  lemma {:induction false} FewerAtMost(values: seq<real>, low: real, high: real)
    requires low < high
    ensures AtMost(values, low) <= Below(values, high)
  {
    if values != [] {
      FewerAtMost(values[1..], low, high);
    }
  }

  predicate IsQuantile(values: seq<real>, fraction: real, v: real) {
    && v in values
    && AtMost(values, v) as real >= Share(fraction, |values|)
    && (Below(values, v) as real < Share(fraction, |values|) || (fraction <= 0.0 && Below(values, v) == 0))
  }

  /** The percentile of a non-empty list is the one element of the list with at least
      `fraction` of the values at or below it and less than `fraction` of them strictly below;
      at or below zero it is the minimum, and above one the index leaves the list. */
  lemma PercentileExactly(values: seq<real>, fraction: real, v: real)
    requires values != []
    ensures Percentile(values, fraction).Raised? <==> fraction > 1.0
    ensures fraction <= 1.0 ==> (Percentile(values, fraction) == Ok(Some(v)) <==> IsQuantile(values, fraction, v))
  {
    hide Share;
    PercentileInRange(values, fraction);
    if fraction <= 1.0 {
      PercentileIsQuantile(values, fraction);
      var w := Percentile(values, fraction).value.value;
      if IsQuantile(values, fraction, v) && v != w {
        FewerAtMost(values, if v < w then v else w, if v < w then w else v);
      }
    }
  }

  lemma IndexBounds(fraction: real, n: nat)
    requires n > 0
    ensures var target := Share(fraction, n);
      && Ceil(target) as real - 1.0 < target <= Ceil(target) as real
      && (fraction > 1.0 <==> Ceil(target) > n)
      && (fraction <= 0.0 <==> Ceil(target) <= 0)
  {
    var size := n as real;
    assert Share(fraction, n) - size == (fraction - 1.0) * size;
    Sign(fraction - 1.0, size);
    Sign(fraction, size);
  }

  lemma Sign(x: real, size: real)
    requires size > 0.0
    ensures x * size > 0.0 <==> x > 0.0
  {
  }

  lemma PercentileInRange(values: seq<real>, fraction: real)
    requires values != []
    ensures Percentile(values, fraction).Raised? <==> fraction > 1.0
    ensures Percentile(values, fraction).Ok? ==> Percentile(values, fraction).value.Some?
  {
    hide Ceil, Share;
    IndexBounds(fraction, |values|);
  }

  lemma RankInValues(values: seq<real>, k: nat)
    requires k < |values|
    ensures var v := SortBy(RealLe, values)[k];
      v in values && AtMost(values, v) >= k + 1 && Below(values, v) <= k
  {
    var ordered := SortBy(RealLe, values);
    SortBySorted(RealLe, values);
    RankInSorted(ordered, k);
    FilterSort((x: real) => x <= ordered[k], values);
    FilterSort((x: real) => x < ordered[k], values);
  }

  lemma PercentileIsQuantile(values: seq<real>, fraction: real)
    requires values != [] && fraction <= 1.0
    ensures Percentile(values, fraction).Ok? && Percentile(values, fraction).value.Some?
    ensures IsQuantile(values, fraction, Percentile(values, fraction).value.value)
  {
    hide Ceil, Share, SortBy, AtMost, Below;
    IndexBounds(fraction, |values|);
    var index := Ceil(Share(fraction, |values|)) - 1;
    RankInValues(values, if index < 0 then 0 else index);
  }

  // ------------------------------------------------------------------- the gate

  datatype Reason =
    | NoIndependentExternalCases
    | InsufficientRepositories
    | InsufficientAdjudicatedPrs(repository: string, adjudicated: nat)
    | UnsafeFalseAssuranceObserved
    | UnsafeDetectionBelowRate
    | SemanticCoverageBelowThreshold
    | BenignOpenAboveThreshold

  datatype StatusName = InternalSignalOnly | ProductionGateEligible | ExternalEvidenceIncomplete

  datatype Status = Status(name: StatusName, gateMet: bool, reasons: set<Reason>)

  predicate IsExternal(x: CaseResult) { x.validation == IndependentExternal }
  predicate IsUnsafe(x: CaseResult) { x.safety == Unsafe }
  predicate IsSafe(x: CaseResult) { x.safety == Safe }
  predicate IsDetected(x: CaseResult) { IsUnsafe(x) && x.assuranceAvailable && !x.headEstablished }
  predicate IsComplete(x: CaseResult) { x.semanticComplete }
  predicate IsBenignOpen(x: CaseResult) { IsSafe(x) && x.benignOpen }
  predicate IsAdjudicated(x: CaseResult) { x.humanAdjudicated }

  function External(results: seq<CaseResult>): seq<CaseResult> { Filter(IsExternal, results) }

  function Repositories(external: seq<CaseResult>): set<string> {
    set x | x in external :: x.repository
  }

  function InRepository(repository: string): CaseResult -> bool {
    (x: CaseResult) => x.repository == repository
  }

  function AdjudicatedIn(repository: string): CaseResult -> bool {
    (x: CaseResult) => x.repository == repository && x.humanAdjudicated
  }

  /** Each reason, as a condition on the external results. */
  predicate ReasonHolds(external: seq<CaseResult>, minRepos: int, minPrs: int, reason: Reason) {
    if external == [] then reason == NoIndependentExternalCases
    else
      match reason
      case NoIndependentExternalCases => false
      case InsufficientRepositories => |Repositories(external)| < minRepos
      case InsufficientAdjudicatedPrs(repository, n) =>
        repository in Repositories(external) && n == Count(AdjudicatedIn(repository), external) < minPrs
      case UnsafeFalseAssuranceObserved => exists x :: x in external && x.unsafeFalseAssurance
      case UnsafeDetectionBelowRate =>
        Count(IsUnsafe, external) == 0 || Count(IsDetected, external) < Count(IsUnsafe, external)
      case SemanticCoverageBelowThreshold => 10 * Count(IsComplete, external) < 9 * |external|
      case BenignOpenAboveThreshold =>
        Count(IsSafe, external) == 0 || 20 * Count(IsBenignOpen, external) > Count(IsSafe, external)
  }

  /** `by_repo` maps every repository to its external results, in order. */
  ghost predicate Grouped(byRepo: map<string, seq<CaseResult>>, external: seq<CaseResult>) {
    && byRepo.Keys == Repositories(external)
    && forall repository :: repository in byRepo ==> byRepo[repository] == Filter(InRepository(repository), external)
  }

  lemma GroupedSnoc(byRepo: map<string, seq<CaseResult>>, external: seq<CaseResult>, x: CaseResult)
    requires Grouped(byRepo, external)
    ensures Grouped(byRepo[x.repository := (if x.repository in byRepo then byRepo[x.repository] else []) + [x]],
      external + [x])
  {
    hide Filter;
    var now := byRepo[x.repository := (if x.repository in byRepo then byRepo[x.repository] else []) + [x]];
    assert Repositories(external + [x]) == Repositories(external) + {x.repository};
    forall repository | repository in now ensures now[repository] == Filter(InRepository(repository), external + [x]) {
      FilterSnoc(InRepository(repository), external, x);
      NoneInRepository(external, repository);
    }
  }

  lemma NoneInRepository(s: seq<CaseResult>, repository: string)
    ensures repository !in Repositories(s) ==> Filter(InRepository(repository), s) == []
  {
  }

  lemma NoneGrouped()
    ensures Grouped(map[], [])
  {
  }

  method GroupByRepository(external: seq<CaseResult>) returns (byRepo: map<string, seq<CaseResult>>)
    ensures Grouped(byRepo, external)
  {
    hide *;
    byRepo := map[];
    NoneGrouped();
    assert external[..0] == [];
    for i := 0 to |external|
      invariant Grouped(byRepo, external[..i])
    {
      var x := external[i];
      GroupedSnoc(byRepo, external[..i], x);
      assert external[..i + 1] == external[..i] + [x];
      var items := if x.repository in byRepo then byRepo[x.repository] else [];
      byRepo := byRepo[x.repository := items + [x]];
    }
    assert external[..|external|] == external;
  }

  predicate TooFew(byRepo: map<string, seq<CaseResult>>, minPrs: int, reason: Reason) {
    && reason.InsufficientAdjudicatedPrs? && reason.repository in byRepo
    && reason.adjudicated == Count(IsAdjudicated, byRepo[reason.repository]) < minPrs
  }

  method CountQualifying(byRepo: map<string, seq<CaseResult>>, minPrs: int)
      returns (qualifying: nat, reasons: set<Reason>)
    ensures qualifying <= |byRepo| && (qualifying == |byRepo| <==> reasons == {})
    ensures forall reason :: reason in reasons <==> TooFew(byRepo, minPrs, reason)
  {
    hide Count, TooFew;
    var order := SortedSet(byRepo.Keys);
    qualifying, reasons := CountInOrder(order, byRepo, minPrs);
    TooFewListed(byRepo, minPrs);
  }

  /** The loop over the repositories in order. */
  method CountInOrder(order: seq<string>, byRepo: map<string, seq<CaseResult>>, minPrs: int)
    returns (qualifying: nat, reasons: set<Reason>)
    requires forall k :: k in order ==> k in byRepo
    ensures qualifying <= |order| && (qualifying == |order| <==> reasons == {})
    ensures forall reason :: reason in reasons <==> TooFew(byRepo, minPrs, reason) && RepositoryOf(reason) in order
  {
    hide Count, TooFew;
    qualifying, reasons := 0, {};
    for i := 0 to |order|
      invariant qualifying <= i && (qualifying == i <==> reasons == {})
      invariant forall reason :: reason in reasons <==>
        TooFew(byRepo, minPrs, reason) && RepositoryOf(reason) in order[..i]
    {
      assert order[i] in order && order[..i + 1] == order[..i] + [order[i]];
      var adjudicated := Count(IsAdjudicated, byRepo[order[i]]);
      TooFewAt(byRepo, minPrs, order[i]);
      if adjudicated >= minPrs {
        qualifying := qualifying + 1;
      } else {
        reasons := reasons + {InsufficientAdjudicatedPrs(order[i], adjudicated)};
      }
    }
    assert order[..|order|] == order;
  }

  function RepositoryOf(reason: Reason): string {
    if reason.InsufficientAdjudicatedPrs? then reason.repository else ""
  }

  lemma TooFewListed(byRepo: map<string, seq<CaseResult>>, minPrs: int)
    ensures forall reason :: TooFew(byRepo, minPrs, reason) ==> RepositoryOf(reason) in byRepo
  {
  }

  lemma TooFewAt(byRepo: map<string, seq<CaseResult>>, minPrs: int, repository: string)
    requires repository in byRepo
    ensures var n := Count(IsAdjudicated, byRepo[repository]);
      forall reason :: TooFew(byRepo, minPrs, reason) && RepositoryOf(reason) == repository
                  <==> n < minPrs && reason == InsufficientAdjudicatedPrs(repository, n)
  {
  }

  predicate OfRates(reason: Reason) {
    reason.UnsafeFalseAssuranceObserved? || reason.UnsafeDetectionBelowRate? || reason.SemanticCoverageBelowThreshold?
    || reason.BenignOpenAboveThreshold?
  }

  /** The four checks that do not depend on the repositories. */
  method RateReasons(external: seq<CaseResult>, ghost minRepos: int, ghost minPrs: int) returns (reasons: set<Reason>)
    requires external != []
    ensures forall reason :: reason in reasons <==> OfRates(reason) && ReasonHolds(external, minRepos, minPrs, reason)
  {
    hide Filter, Count, Rate;
    var unsafeCases, safeCases := Count(IsUnsafe, external), Count(IsSafe, external);
    var detection := Rate(Count(IsDetected, external), unsafeCases);
    var coverage := Rate(Count(IsComplete, external), |external|);
    var open := Rate(Count(IsBenignOpen, external), safeCases);
    RateBelow(Count(IsDetected, external), unsafeCases, 1.0);
    RateBelow(Count(IsComplete, external), |external|, 0.90);
    RateBelow(Count(IsBenignOpen, external), safeCases, 0.05);
    reasons := {};
    if exists x :: x in external && x.unsafeFalseAssurance {
      reasons := reasons + {UnsafeFalseAssuranceObserved};
    }
    if detection.None? || detection.value < 1.0 {
      reasons := reasons + {UnsafeDetectionBelowRate};
    }
    if coverage.None? || coverage.value < 0.90 {
      reasons := reasons + {SemanticCoverageBelowThreshold};
    }
    if open.None? || open.value > 0.05 {
      reasons := reasons + {BenignOpenAboveThreshold};
    }
  }

  method QualificationStatus(results: seq<CaseResult>, minRepos: int, minPrs: int) returns (s: Status)
    ensures forall reason :: reason in s.reasons <==> ReasonHolds(External(results), minRepos, minPrs, reason)
    ensures s.gateMet <==> s.reasons == {}
    ensures s.name == if External(results) == [] then InternalSignalOnly
                      else if s.gateMet then ProductionGateEligible else ExternalEvidenceIncomplete
  {
    hide Filter, Count, External, Grouped;
    var external := External(results);
    if external == [] {
      return Status(InternalSignalOnly, false, {NoIndependentExternalCases});
    }
    var byRepo := GroupByRepository(external);
    assert |byRepo| == |byRepo.Keys| == |Repositories(external)| by { KeysAreRepositories(byRepo, external); }
    var reasons: set<Reason> := {};
    if |byRepo| < minRepos {
      reasons := reasons + {InsufficientRepositories};
    }
    var qualifying, tooFew := CountQualifying(byRepo, minPrs);
    TooFewHolds(byRepo, external, minRepos, minPrs);
    var rateReasons := RateReasons(external, minRepos, minPrs);
    reasons := reasons + tooFew + rateReasons;
    var gate := |byRepo| >= minRepos && qualifying >= minRepos && reasons == {};
    s := Status(if gate then ProductionGateEligible else ExternalEvidenceIncomplete, gate, reasons);
    assert reasons == {} ==> tooFew == {};
    hide OfRates;
    forall reason ensures reason in reasons <==> ReasonHolds(external, minRepos, minPrs, reason) {
      OfOneKind(external, minRepos, minPrs, reason);
    }
  }

  lemma KeysAreRepositories(byRepo: map<string, seq<CaseResult>>, external: seq<CaseResult>)
    requires Grouped(byRepo, external)
    ensures byRepo.Keys == Repositories(external) && |byRepo| == |byRepo.Keys|
  {
  }

  lemma OfOneKind(external: seq<CaseResult>, minRepos: int, minPrs: int, reason: Reason)
    requires external != []
    ensures ReasonHolds(external, minRepos, minPrs, reason) ==>
      OfRates(reason) || reason.InsufficientAdjudicatedPrs?
        || (reason.InsufficientRepositories? && |Repositories(external)| < minRepos)
    ensures ReasonHolds(external, minRepos, minPrs, InsufficientRepositories) <==> |Repositories(external)| < minRepos
  {
  }

  lemma TooFewHolds(byRepo: map<string, seq<CaseResult>>, external: seq<CaseResult>, minRepos: int, minPrs: int)
    requires Grouped(byRepo, external) && external != []
    ensures forall reason :: TooFew(byRepo, minPrs, reason) ==> reason.InsufficientAdjudicatedPrs?
    ensures forall reason: Reason :: reason.InsufficientAdjudicatedPrs? ==>
      (TooFew(byRepo, minPrs, reason) <==> ReasonHolds(external, minRepos, minPrs, reason))
  {
    hide Filter;
    forall repository | repository in byRepo
      ensures Count(IsAdjudicated, byRepo[repository]) == Count(AdjudicatedIn(repository), external)
    {
      CountWithin(repository, external);
    }
  }

  lemma {:induction false} CountWithin(repository: string, s: seq<CaseResult>)
    ensures Count(IsAdjudicated, Filter(InRepository(repository), s)) == Count(AdjudicatedIn(repository), s)
  {
    if s != [] {
      assert s == [s[0]] + s[1..];
      CountWithin(repository, s[1..]);
      FilterConcat(IsAdjudicated, if InRepository(repository)(s[0]) then [s[0]] else [],
        Filter(InRepository(repository), s[1..]));
    }
  }

  // ------------------------------------------------------------------- theorems

  ghost predicate GateMet(results: seq<CaseResult>, minRepos: int, minPrs: int) {
    forall reason :: !ReasonHolds(External(results), minRepos, minPrs, reason)
  }

  /** The gate opens exactly on enough repositories, enough adjudicated pull requests in every
      one of them, every unsafe case detected, and the two thresholds met on non-empty samples. */
  lemma GateExactly(results: seq<CaseResult>, minRepos: int, minPrs: int)
    ensures var external := External(results);
      GateMet(results, minRepos, minPrs) <==>
        && external != [] && |Repositories(external)| >= minRepos
        && (forall k :: k in Repositories(external) ==> Count(AdjudicatedIn(k), external) >= minPrs)
        && (forall x :: x in external ==> !x.unsafeFalseAssurance)
        && (exists x :: x in external && IsUnsafe(x)) && (forall x :: x in external && IsUnsafe(x) ==> IsDetected(x))
        && 10 * Count(IsComplete, external) >= 9 * |external|
        && (exists x :: x in external && IsSafe(x)) && 20 * Count(IsBenignOpen, external) <= Count(IsSafe, external)
  {
    hide External, Count;
    var external := External(results);
    DetectedAll(external);
    CountExtremes(IsUnsafe, external);
    CountExtremes(IsSafe, external);
    NoReason(external, minRepos, minPrs);
  }

  /** No reason holds exactly when none of the seven does. */
  lemma NoReason(external: seq<CaseResult>, minRepos: int, minPrs: int)
    ensures (forall reason :: !ReasonHolds(external, minRepos, minPrs, reason)) <==>
      && external != [] && |Repositories(external)| >= minRepos
      && (forall k :: k in Repositories(external) ==> Count(AdjudicatedIn(k), external) >= minPrs)
      && (forall x :: x in external ==> !x.unsafeFalseAssurance)
      && 0 < Count(IsUnsafe, external) <= Count(IsDetected, external)
      && 10 * Count(IsComplete, external) >= 9 * |external|
      && 0 < Count(IsSafe, external) && 20 * Count(IsBenignOpen, external) <= Count(IsSafe, external)
  {
    hide Count;
    if forall reason :: !ReasonHolds(external, minRepos, minPrs, reason) {
      assert !ReasonHolds(external, minRepos, minPrs, NoIndependentExternalCases);
      assert !ReasonHolds(external, minRepos, minPrs, InsufficientRepositories);
      assert !ReasonHolds(external, minRepos, minPrs, UnsafeFalseAssuranceObserved);
      assert !ReasonHolds(external, minRepos, minPrs, UnsafeDetectionBelowRate);
      assert !ReasonHolds(external, minRepos, minPrs, SemanticCoverageBelowThreshold);
      assert !ReasonHolds(external, minRepos, minPrs, BenignOpenAboveThreshold);
      forall k | k in Repositories(external) ensures Count(AdjudicatedIn(k), external) >= minPrs {
        assert !ReasonHolds(external, minRepos, minPrs,
          InsufficientAdjudicatedPrs(k, Count(AdjudicatedIn(k), external)));
      }
    }
  }

  lemma DetectedAll(s: seq<CaseResult>)
    ensures Count(IsUnsafe, s) <= Count(IsDetected, s) <==> forall x :: x in s && IsUnsafe(x) ==> IsDetected(x)
  {
    var missed := (x: CaseResult) => IsUnsafe(x) && !IsDetected(x);
    CountSplits(IsUnsafe, IsDetected, missed, s);
    CountExtremes(missed, s);
  }

  function AdjudicatedAmong(repositories: set<string>): CaseResult -> bool {
    (x: CaseResult) => x.repository in repositories && x.humanAdjudicated
  }

  lemma {:induction false} AdjudicatedSum(repositories: set<string>, s: seq<CaseResult>, minPrs: nat)
    requires forall k :: k in repositories ==> Count(AdjudicatedIn(k), s) >= minPrs
    ensures Count(AdjudicatedAmong(repositories), s) >= |repositories| * minPrs
  {
    hide Count;
    if repositories != {} {
      var k :| k in repositories;
      AdjudicatedSum(repositories - {k}, s, minPrs);
      CountSplits(AdjudicatedAmong(repositories), AdjudicatedAmong(repositories - {k}), AdjudicatedIn(k), s);
      assert |repositories| == |repositories - {k}| + 1;
    }
  }

  /** An open gate rests on at least `minRepos * minPrs` human-adjudicated external cases. */
  lemma GateAdjudicated(results: seq<CaseResult>, minRepos: nat, minPrs: nat)
    requires GateMet(results, minRepos, minPrs)
    ensures Count(IsAdjudicated, External(results)) >= minRepos * minPrs
  {
    hide External, Count;
    var external := External(results);
    NoReason(external, minRepos, minPrs);
    AdjudicatedSum(Repositories(external), external, minPrs);
    AmongAll(external);
    assert |Repositories(external)| * minPrs >= minRepos * minPrs;
  }

  lemma AmongAll(s: seq<CaseResult>)
    ensures Count(AdjudicatedAmong(Repositories(s)), s) == Count(IsAdjudicated, s)
  {
    CountSplits(AdjudicatedAmong(Repositories(s)), IsAdjudicated, (x: CaseResult) => false, s);
    CountExtremes((x: CaseResult) => false, s);
  }

  /** With the default minimums, at least sixty. */
  lemma DefaultGate(results: seq<CaseResult>)
    requires GateMet(results, 2, 30)
    ensures Count(IsAdjudicated, External(results)) >= 60
  {
    hide External, Count, GateMet;
    GateAdjudicated(results, 2, 30);
  }

  // ------------------------------------------------------------ scored by the harness

  /** What one harness run observes: whether assurance is available, and the head status of
      every guarantee. */
  datatype Observation = Observation(
    repository: string, validation: ValidationClass, safety: SafetyLabel, available: bool,
    statuses: map<string, Option<string>>, semanticComplete: bool, humanAdjudicated: bool)

  predicate HeadEstablished(o: Observation) {
    o.available && o.statuses != map[] && forall g :: g in o.statuses ==> o.statuses[g] == Some("established")
  }

  function Score(o: Observation): CaseResult {
    CaseResult(o.repository, o.validation, o.safety, o.available, HeadEstablished(o), o.semanticComplete,
               o.safety == Unsafe && HeadEstablished(o), o.safety == Safe && !HeadEstablished(o), o.humanAdjudicated)
  }

  predicate IsFalseAssurance(x: CaseResult) { IsUnsafe(x) && x.unsafeFalseAssurance }
  predicate IsUnavailable(x: CaseResult) { IsUnsafe(x) && !x.assuranceAvailable }
  predicate IsEstablishedSafe(x: CaseResult) { IsSafe(x) && x.headEstablished }

  /** Every unsafe case is falsely assured, detected or unavailable, and every safe case is open
      or established: the reported counts add up. */
  lemma OutcomesConserved(observations: seq<Observation>)
    ensures var results := Map(Score, observations);
      && Count(IsUnsafe, results)
        == Count(IsFalseAssurance, results) + Count(IsDetected, results) + Count(IsUnavailable, results)
      && Count(IsSafe, results) == Count(IsBenignOpen, results) + Count(IsEstablishedSafe, results)
      && |results| == Count(IsUnsafe, results) + Count(IsSafe, results)
  {
    hide Count;
    var results := Map(Score, observations);
    forall x | x in results ensures exists o :: x == Score(o) {
      var i :| 0 <= i < |results| && results[i] == x;
      assert x == Score(observations[i]);
    }
    var available := (x: CaseResult) => IsUnsafe(x) && x.assuranceAvailable;
    CountSplits(IsUnsafe, available, IsUnavailable, results);
    CountSplits(available, IsFalseAssurance, IsDetected, results);
    CountSplits(IsSafe, IsBenignOpen, IsEstablishedSafe, results);
    CountSplits((x: CaseResult) => true, IsUnsafe, IsSafe, results);
    CountExtremes((x: CaseResult) => true, results);
  }

  /** On harness results an open gate means that every external unsafe case was evaluated and
      left some guarantee unestablished, or had none to establish. The separate check for false
      assurance therefore never decides: whatever it refuses, the detection rate refuses. */
  lemma NoUnsafeEstablished(observations: seq<Observation>, minRepos: int, minPrs: int, o: Observation)
    requires o in observations && o.validation == IndependentExternal && o.safety == Unsafe
    ensures GateMet(Map(Score, observations), minRepos, minPrs) ==>
      o.available && (o.statuses == map[] || exists g :: g in o.statuses && o.statuses[g] != Some("established"))
    ensures Score(o).unsafeFalseAssurance ==>
      ReasonHolds(External(Map(Score, observations)), minRepos, minPrs, UnsafeDetectionBelowRate)
  {
    hide Count;
    var results := Map(Score, observations);
    var i :| 0 <= i < |observations| && observations[i] == o;
    assert results[i] == Score(o) && Score(o) in External(results);
    hide External, Map, Filter;
    DetectedAll(External(results));
    NoReason(External(results), minRepos, minPrs);
  }

  // ------------------------------------------------------- the gate, in the results' own fields

  /** Counting within the external results is counting external results. */
  lemma {:induction false} CountExternal(keep: CaseResult -> bool, both: CaseResult -> bool, results: seq<CaseResult>)
    requires forall x :: both(x) <==> x.validation == IndependentExternal && keep(x)
    ensures Count(keep, External(results)) == Count(both, results)
  {
    if results != [] {
      CountExternal(keep, both, results[1..]);
      var rest := External(results[1..]);
      assert External(results) == if IsExternal(results[0]) then [results[0]] + rest else rest;
      assert ([results[0]] + rest)[1..] == rest;
    }
  }

  function ExternalRepositories(results: seq<CaseResult>): set<string> {
    set x | x in results && x.validation == IndependentExternal :: x.repository
  }

  /** The counts behind the reasons, taken over the results as they are scored. */
  lemma CountsExactly(results: seq<CaseResult>)
    ensures |External(results)| == Count((x: CaseResult) => x.validation == IndependentExternal, results)
    ensures Count(IsComplete, External(results))
         == Count((x: CaseResult) => x.validation == IndependentExternal && x.semanticComplete, results)
    ensures Count(IsUnsafe, External(results))
         == Count((x: CaseResult) => x.validation == IndependentExternal && x.safety == Unsafe, results)
    ensures Count(IsDetected, External(results))
         == Count((x: CaseResult) => x.validation == IndependentExternal && x.safety == Unsafe
                    && x.assuranceAvailable && !x.headEstablished, results)
    ensures Count(IsSafe, External(results))
         == Count((x: CaseResult) => x.validation == IndependentExternal && x.safety == Safe, results)
    ensures Count(IsBenignOpen, External(results))
         == Count((x: CaseResult) => x.validation == IndependentExternal && x.safety == Safe && x.benignOpen, results)
  {
    hide Count, External;
    CountExternal((x: CaseResult) => true, (x: CaseResult) => x.validation == IndependentExternal, results);
    CountExtremes((x: CaseResult) => true, External(results));
    CountExternal(IsComplete, (x: CaseResult) => x.validation == IndependentExternal && x.semanticComplete, results);
    CountExternal(IsUnsafe, (x: CaseResult) => x.validation == IndependentExternal && x.safety == Unsafe, results);
    CountExternal(IsDetected, (x: CaseResult) => x.validation == IndependentExternal && x.safety == Unsafe
                    && x.assuranceAvailable && !x.headEstablished, results);
    CountExternal(IsSafe, (x: CaseResult) => x.validation == IndependentExternal && x.safety == Safe, results);
    CountExternal(IsBenignOpen, (x: CaseResult) => x.validation == IndependentExternal && x.safety == Safe
                    && x.benignOpen, results);
  }

  /** Every reason, exactly: what each of them says of the external results. */
  lemma ReasonsExactly(results: seq<CaseResult>, minRepos: int, minPrs: int)
    ensures var external := External(results);
      var unsafe, safe := Count(IsUnsafe, external), Count(IsSafe, external);
      var n := |external|;
      && (ReasonHolds(external, minRepos, minPrs, NoIndependentExternalCases) <==> n == 0)
      && (ReasonHolds(external, minRepos, minPrs, InsufficientRepositories) <==>
          n > 0 && |ExternalRepositories(results)| < minRepos)
      && (ReasonHolds(external, minRepos, minPrs, UnsafeFalseAssuranceObserved) <==>
          exists x :: x in results && x.validation == IndependentExternal && x.unsafeFalseAssurance)
      && (ReasonHolds(external, minRepos, minPrs, UnsafeDetectionBelowRate) <==>
          n > 0 && (unsafe == 0 || Count(IsDetected, external) < unsafe))
      && (ReasonHolds(external, minRepos, minPrs, SemanticCoverageBelowThreshold) <==>
          n > 0 && 10 * Count(IsComplete, external) < 9 * n)
      && (ReasonHolds(external, minRepos, minPrs, BenignOpenAboveThreshold) <==>
          n > 0 && (safe == 0 || 20 * Count(IsBenignOpen, external) > safe))
  {
    hide Count, Filter;
    assert Repositories(External(results)) == ExternalRepositories(results);
    assert forall x :: x in External(results) <==> x in results && x.validation == IndependentExternal;
    hide External;
  }

  /** Each repository with too few adjudicated cases is a reason of its own, with its count. */
  lemma AdjudicationExactly(results: seq<CaseResult>, minRepos: int, minPrs: int, repository: string, n: nat)
    ensures ReasonHolds(External(results), minRepos, minPrs, InsufficientAdjudicatedPrs(repository, n)) <==>
      && repository in ExternalRepositories(results) && n < minPrs
      && n == Count((x: CaseResult) => x.validation == IndependentExternal && x.repository == repository
                      && x.humanAdjudicated, results)
  {
    hide Count;
    CountExternal(AdjudicatedIn(repository), (x: CaseResult) => x.validation == IndependentExternal
                    && x.repository == repository && x.humanAdjudicated, results);
    assert Repositories(External(results)) == ExternalRepositories(results);
    assert External(results) == [] ==> Repositories(External(results)) == {};
  }

  /** The score of one run, exactly. */
  lemma ScoreExactly(o: Observation)
    ensures var established := o.available && o.statuses != map[]
      && forall g :: g in o.statuses ==> o.statuses[g] == Some("established");
      && Score(o).headEstablished == established
      && (Score(o).unsafeFalseAssurance <==> o.safety == Unsafe && established)
      && (Score(o).benignOpen <==> o.safety == Safe && !established)
      && Score(o).repository == o.repository && Score(o).validation == o.validation && Score(o).safety == o.safety
      && Score(o).assuranceAvailable == o.available && Score(o).semanticComplete == o.semanticComplete
      && Score(o).humanAdjudicated == o.humanAdjudicated
  {
  }
}
