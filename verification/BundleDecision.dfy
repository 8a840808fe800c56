/** Bundle aggregation: checker claims plus evidence-level restrictions
    (ovk/core/decision.py, `aggregate_bundle_decision`). */
module BundleDecision {
  import opened Ordering
  import opened Text
  import opened Decision

  datatype Claim = Claim(backend: string, status: Status, required: bool)

  /** One evidence record. The two decision fields hold the text of the entry, if present. */
  datatype Evidence = Evidence(
    evidenceId: string, claims: seq<Claim>, decisionState: Option<string>, mergeRecommendation: Option<string>)

  // ------------------------------------------------------------------- findings

  function FindingOf(evidenceId: string, claim: Claim): Finding {
    Finding(evidenceId + ":" + claim.backend, claim.status, claim.required)
  }

  ghost function FindingsOf(bundle: seq<Evidence>): seq<Finding> {
    if bundle == [] then [] else
      var last := bundle[|bundle| - 1];
      FindingsOf(bundle[..|bundle| - 1]) + Map((c: Claim) => FindingOf(last.evidenceId, c), last.claims)
  }

  method FindingsFromBundle(bundle: seq<Evidence>) returns (findings: seq<Finding>)
    ensures findings == FindingsOf(bundle)
  {
    findings := [];
    for i := 0 to |bundle|
      invariant findings == FindingsOf(bundle[..i])
    {
      var e := bundle[i];
      ghost var before := findings;
      for j := 0 to |e.claims|
        invariant |findings| == |before| + j && findings[..|before|] == before
        invariant forall k :: 0 <= k < j ==> findings[|before| + k] == FindingOf(e.evidenceId, e.claims[k])
      {
        findings := findings + [FindingOf(e.evidenceId, e.claims[j])];
      }
      assert bundle[..i + 1][..i] == bundle[..i];
      assert findings == before + Map((c: Claim) => FindingOf(e.evidenceId, c), e.claims);
    }
    assert bundle[..|bundle|] == bundle;
  }

  /** A finding of the bundle is a claim of one of its records, and conversely. */
  lemma {:induction false} FindingsAre(bundle: seq<Evidence>, f: Finding)
    ensures f in FindingsOf(bundle) <==> exists e, c ::
      e in bundle && c in e.claims && f == Finding(e.evidenceId + ":" + c.backend, c.status, c.required)
  {
    if bundle != [] {
      var front, last := bundle[..|bundle| - 1], bundle[|bundle| - 1];
      assert bundle == front + [last];
      FindingsAre(front, f);
      var mapped := Map((c: Claim) => FindingOf(last.evidenceId, c), last.claims);
      assert f in mapped <==> exists c :: c in last.claims && f == FindingOf(last.evidenceId, c) by {
        if c :| c in last.claims && f == FindingOf(last.evidenceId, c) {
          var i :| 0 <= i < |last.claims| && last.claims[i] == c;
          assert mapped[i] == f;
        }
      }
      assert f in FindingsOf(bundle) <==> f in FindingsOf(front) || f in mapped;
    }
  }

  // --------------------------------------------------- evidence-level decisions

  /** Unrecognized values are never an implicit allow. */
  function StateOfText(value: string): State {
    var raw := Strip(value);
    if raw == "allow" then Allow
    else if raw == "block" then Block
    else if raw == "unknown" then State.Unknown
    else if raw == "error" then State.Error
    else if raw == "skipped" then State.Skipped
    else NeedsReview
  }

  function RawState(e: Evidence): State {
    if e.decisionState.Some? then StateOfText(e.decisionState.value)
    else if e.mergeRecommendation.Some? then StateOfText(e.mergeRecommendation.value)
    else NeedsReview
  }

  /** The record asks for a stronger check in the legacy vocabulary. */
  predicate AsksStronger(e: Evidence) {
    e.mergeRecommendation.Some? && Strip(e.mergeRecommendation.value) == "require_stronger_check"
  }

  function Floor(e: Evidence, mode: Mode, policy: Policy): State {
    Overlay(RawState(e), mode, policy)
  }

  function FloorRank(e: Evidence, mode: Mode, policy: Policy): nat {
    Severity(Floor(e, mode, policy))
  }

  /** The largest floor of a bundle. */
  ghost function WorstFloor(bundle: seq<Evidence>, mode: Mode, policy: Policy): (w: nat)
    ensures forall e :: e in bundle ==> FloorRank(e, mode, policy) <= w
    ensures bundle != [] ==> exists e :: e in bundle && FloorRank(e, mode, policy) == w
    ensures bundle == [] ==> w == 0
  {
    hide FloorRank;
    if bundle == [] then 0 else
      var front, last := bundle[..|bundle| - 1], bundle[|bundle| - 1];
      var w := WorstFloor(front, mode, policy);
      assert bundle == front + [last];
      assert last in bundle;
      if |bundle| == 1 || FloorRank(last, mode, policy) >= w then FloorRank(last, mode, policy) else w
  }

  function StateOfRank(r: nat): State {
    if r == 0 then Allow else if r == 1 then NeedsReview else if r == 2 then State.Skipped
    else if r == 3 then State.Unknown else if r == 4 then State.Error else Block
  }

  /** A record controls when its floor is the worst one. */
  predicate IsControlling(e: Evidence, worst: nat, mode: Mode, policy: Policy) {
    FloorRank(e, mode, policy) == worst
  }

  function DecisionId(e: Evidence): string {
    "evidence:" + e.evidenceId + ":decision"
  }

  /** The largest raw rank among the controlling records, at least `start`. */
  ghost function WorstRaw(bundle: seq<Evidence>, start: nat, worst: nat, mode: Mode, policy: Policy): (w: nat)
    ensures w >= start
    ensures forall e :: e in bundle && IsControlling(e, worst, mode, policy) ==> Severity(RawState(e)) <= w
    ensures w == start || exists e :: e in bundle && IsControlling(e, worst, mode, policy) && Severity(RawState(e)) == w
  {
    hide IsControlling, RawState;
    if bundle == [] then start else
      var front, last := bundle[..|bundle| - 1], bundle[|bundle| - 1];
      assert bundle == front + [last];
      assert last in bundle;
      var w := WorstRaw(front, start, worst, mode, policy);
      if IsControlling(last, worst, mode, policy) && Severity(RawState(last)) > w then Severity(RawState(last)) else w
  }

  /** The claim outcome, unless some floor is strictly worse; then the records with the
      worst floor decide. */
  ghost function Restricted(claims: Outcome, bundle: seq<Evidence>, mode: Mode, policy: Policy): Outcome {
    var worst := WorstFloor(bundle, mode, policy);
    if Severity(claims.decisionState) >= worst then claims else Overridden(claims, bundle, worst, mode, policy)
  }

  ghost function Overridden(claims: Outcome, bundle: seq<Evidence>, worst: nat, mode: Mode, policy: Policy): Outcome {
    var state := StateOfRank(worst);
    Outcome(state, StateOfRank(WorstRaw(bundle, Severity(claims.originalState), worst, mode, policy)),
      RecommendationOf(state),
      SortedSet((set id | id in claims.controllingIds) + ControllingDecisions(bundle, worst, mode, policy)),
      claims.contributions, mode,
      if state == NeedsReview && StrongerAsked(bundle, worst, mode, policy) then Some(RequireStrongerCheck) else None)
  }

  ghost function ControllingDecisions(bundle: seq<Evidence>, worst: nat, mode: Mode, policy: Policy): set<string> {
    set e | e in bundle && IsControlling(e, worst, mode, policy) :: DecisionId(e)
  }

  ghost predicate StrongerAsked(bundle: seq<Evidence>, worst: nat, mode: Mode, policy: Policy) {
    exists e :: e in bundle && IsControlling(e, worst, mode, policy) && AsksStronger(e)
  }

  function ModeOf(enforce: bool): Mode {
    if enforce then Strict else Advisory
  }

  ghost function BundleOutcomeOf(bundle: seq<Evidence>, enforce: bool, policy: Policy): Outcome {
    Restricted(OutcomeOf(FindingsOf(bundle), ModeOf(enforce), policy, None), bundle, ModeOf(enforce), policy)
  }

  // ------------------------------------------------------------------- as coded

  datatype Restriction = Restriction(evidence: Evidence, raw: State, effective: State)

  function RowOf(e: Evidence, mode: Mode, policy: Policy): Restriction {
    Restriction(e, RawState(e), Floor(e, mode, policy))
  }

  method AggregateBundleDecision(bundle: seq<Evidence>, enforce: bool, policy: Policy) returns (r: Outcome)
    ensures r == BundleOutcomeOf(bundle, enforce, policy)
  {
    var findings := FindingsFromBundle(bundle);
    var claims := AggregateDecision(findings, ModeOf(enforce), policy, None);
    r := ApplyRestrictions(claims, bundle, ModeOf(enforce), policy);
  }

  method CollectRestrictions(bundle: seq<Evidence>, mode: Mode, policy: Policy) returns (rows: seq<Restriction>)
    ensures Rows(rows, bundle, mode, policy) && |rows| == |bundle|
  {
    rows := [];
    for i := 0 to |bundle|
      invariant |rows| == i && forall j :: 0 <= j < i ==> rows[j] == RowOf(bundle[j], mode, policy)
    {
      rows := rows + [RowOf(bundle[i], mode, policy)];
    }
    RowMembers(bundle, rows, mode, policy);
  }

  method ApplyRestrictions(claims: Outcome, bundle: seq<Evidence>, mode: Mode, policy: Policy) returns (r: Outcome)
    ensures r == Restricted(claims, bundle, mode, policy)
  {
    var restrictions := CollectRestrictions(bundle, mode, policy);
    if restrictions == [] {
      return claims;
    }
    var worst := MaxEffective(restrictions);
    WorstIs(bundle, restrictions, worst, mode, policy);
    if Severity(claims.decisionState) >= worst {
      return claims;
    }
    var controlling := Filter((x: Restriction) => Severity(x.effective) == worst, restrictions);
    ControllingAre(bundle, restrictions, controlling, worst, mode, policy);
    r := Override(claims, bundle, controlling, worst, mode, policy);
  }

  method Override(claims: Outcome, ghost bundle: seq<Evidence>, controlling: seq<Restriction>,
      ghost worst: nat, mode: Mode, ghost policy: Policy)
    returns (r: Outcome)
    requires Controllers(controlling, bundle, worst, mode, policy)
    requires controlling != [] && controlling[0].effective == StateOfRank(worst)
    ensures r == Overridden(claims, bundle, worst, mode, policy)
  {
    var state := controlling[0].effective;
    var original := MaxRaw(claims.originalState, controlling);
    OriginalIs(bundle, controlling, claims.originalState, original, worst, mode, policy);
    var ids := set x | x in controlling :: DecisionId(x.evidence);
    var stronger := exists x :: x in controlling && AsksStronger(x.evidence);
    IdsAre(bundle, controlling, worst, mode, policy);
    r := Outcome(state, original, RecommendationOf(state), SortedSet((set id | id in claims.controllingIds) + ids),
                 claims.contributions, mode,
                 if state == NeedsReview && stronger then Some(RequireStrongerCheck) else None);
  }

  method MaxEffective(rows: seq<Restriction>) returns (m: nat)
    requires rows != []
    ensures forall x :: x in rows ==> Severity(x.effective) <= m
    ensures exists x :: x in rows && Severity(x.effective) == m
  {
    m := Severity(rows[0].effective);
    for i := 1 to |rows|
      invariant forall x :: x in rows[..i] ==> Severity(x.effective) <= m
      invariant exists x :: x in rows[..i] && Severity(x.effective) == m
    {
      assert rows[..i + 1] == rows[..i] + [rows[i]];
      if Severity(rows[i].effective) > m {
        m := Severity(rows[i].effective);
        assert rows[i] in rows[..i + 1];
      }
    }
    assert rows[..|rows|] == rows;
  }

  /** `max([first, *raws], key=severity)`: the first of the largest. */
  method MaxRaw(first: State, rows: seq<Restriction>) returns (m: State)
    ensures Severity(m) >= Severity(first) && forall x :: x in rows ==> Severity(x.raw) <= Severity(m)
    ensures m == first || exists x :: x in rows && x.raw == m
  {
    m := first;
    for i := 0 to |rows|
      invariant Severity(m) >= Severity(first) && forall x :: x in rows[..i] ==> Severity(x.raw) <= Severity(m)
      invariant m == first || exists x :: x in rows[..i] && x.raw == m
    {
      assert rows[..i + 1] == rows[..i] + [rows[i]];
      if Severity(rows[i].raw) > Severity(m) {
        m := rows[i].raw;
        assert rows[i] in rows[..i + 1];
      }
    }
    assert rows[..|rows|] == rows;
  }

  /** `rows` are the restrictions of the controlling records. */
  ghost predicate Controllers(rows: seq<Restriction>, bundle: seq<Evidence>, worst: nat, mode: Mode, policy: Policy) {
    forall x :: x in rows <==>
      x.evidence in bundle && IsControlling(x.evidence, worst, mode, policy) && x == RowOf(x.evidence, mode, policy)
  }

  ghost predicate Rows(rows: seq<Restriction>, bundle: seq<Evidence>, mode: Mode, policy: Policy) {
    forall x :: x in rows <==> x.evidence in bundle && x == RowOf(x.evidence, mode, policy)
  }

  lemma RowMembers(bundle: seq<Evidence>, rows: seq<Restriction>, mode: Mode, policy: Policy)
    requires |rows| == |bundle| && forall j :: 0 <= j < |rows| ==> rows[j] == RowOf(bundle[j], mode, policy)
    ensures Rows(rows, bundle, mode, policy)
  {
  }

  lemma WorstIs(bundle: seq<Evidence>, rows: seq<Restriction>, worst: nat, mode: Mode, policy: Policy)
    requires Rows(rows, bundle, mode, policy) && bundle != []
    requires forall x :: x in rows ==> Severity(x.effective) <= worst
    requires exists x :: x in rows && Severity(x.effective) == worst
    ensures worst == WorstFloor(bundle, mode, policy)
  {
    var w := WorstFloor(bundle, mode, policy);
    var e :| e in bundle && FloorRank(e, mode, policy) == w;
    assert RowOf(e, mode, policy) in rows;
  }

  lemma ControllingAre(bundle: seq<Evidence>, rows: seq<Restriction>, controlling: seq<Restriction>,
      worst: nat, mode: Mode, policy: Policy)
    requires Rows(rows, bundle, mode, policy) && bundle != []
    requires worst == WorstFloor(bundle, mode, policy)
    requires forall x :: x in controlling <==> x in rows && Severity(x.effective) == worst
    ensures Controllers(controlling, bundle, worst, mode, policy)
    ensures controlling != [] && controlling[0].effective == StateOfRank(worst)
  {
    hide RawState, Overlay, WorstFloor;
    var e :| e in bundle && FloorRank(e, mode, policy) == worst;
    assert RowOf(e, mode, policy) in controlling;
    assert controlling[0] in controlling;
  }

  lemma OriginalIs(bundle: seq<Evidence>, controlling: seq<Restriction>,
      first: State, m: State, worst: nat, mode: Mode, policy: Policy)
    requires Controllers(controlling, bundle, worst, mode, policy)
    requires Severity(m) >= Severity(first) && forall x :: x in controlling ==> Severity(x.raw) <= Severity(m)
    requires m == first || exists x :: x in controlling && x.raw == m
    ensures m == StateOfRank(WorstRaw(bundle, Severity(first), worst, mode, policy))
  {
    hide RawState, WorstRaw;
    var w := WorstRaw(bundle, Severity(first), worst, mode, policy);
    if w != Severity(first) {
      var e :| e in bundle && IsControlling(e, worst, mode, policy) && Severity(RawState(e)) == w;
      assert RowOf(e, mode, policy) in controlling;
    }
    assert w == Severity(m);
  }

  lemma IdsAre(bundle: seq<Evidence>, controlling: seq<Restriction>, worst: nat, mode: Mode, policy: Policy)
    requires Controllers(controlling, bundle, worst, mode, policy)
    ensures (set x | x in controlling :: DecisionId(x.evidence)) == ControllingDecisions(bundle, worst, mode, policy)
    ensures (exists x :: x in controlling && AsksStronger(x.evidence)) <==> StrongerAsked(bundle, worst, mode, policy)
  {
    forall e | e in bundle && IsControlling(e, worst, mode, policy) ensures RowOf(e, mode, policy) in controlling {}
  }

  // ------------------------------------------------------------------- theorems

  /** The bundle decision is the least state at or above the claim outcome and every
      record's floor, in both modes and under every policy string. */
  lemma BundleIsJoin(bundle: seq<Evidence>, enforce: bool, policy: Policy, bound: nat)
    ensures Severity(BundleOutcomeOf(bundle, enforce, policy).decisionState) <= bound <==>
      && Severity(OutcomeOf(FindingsOf(bundle), ModeOf(enforce), policy, None).decisionState) <= bound
      && forall e :: e in bundle ==> FloorRank(e, ModeOf(enforce), policy) <= bound
  {
    RestrictedIsJoin(OutcomeOf(FindingsOf(bundle), ModeOf(enforce), policy, None),
      bundle, ModeOf(enforce), policy, bound);
  }

  lemma RankRoundTrip(r: nat)
    requires r <= 5
    ensures Severity(StateOfRank(r)) == r
  {
  }

  /** The severity of a restricted outcome is the larger of the two. */
  lemma RestrictedSeverity(claims: Outcome, bundle: seq<Evidence>, mode: Mode, policy: Policy)
    ensures var rank, worst := Severity(claims.decisionState), WorstFloor(bundle, mode, policy);
      Severity(Restricted(claims, bundle, mode, policy).decisionState) == if rank >= worst then rank else worst
  {
    hide RawState, WorstFloor, WorstRaw, SortedSet;
    var worst := WorstFloor(bundle, mode, policy);
    if bundle != [] {
      var e :| e in bundle && FloorRank(e, mode, policy) == worst;
      RankRoundTrip(worst);
    }
  }

  lemma RestrictedIsJoin(claims: Outcome, bundle: seq<Evidence>, mode: Mode, policy: Policy, bound: nat)
    ensures Severity(Restricted(claims, bundle, mode, policy).decisionState) <= bound <==>
      && Severity(claims.decisionState) <= bound
      && forall e :: e in bundle ==> FloorRank(e, mode, policy) <= bound
  {
    RestrictedSeverity(claims, bundle, mode, policy);
    var worst := WorstFloor(bundle, mode, policy);
    assert worst <= bound <==> forall e :: e in bundle ==> FloorRank(e, mode, policy) <= bound;
  }

  /** ALLOW, exactly: claims that allow, and a raw decision of allow on every record. */
  lemma BundleAllowExactly(bundle: seq<Evidence>, enforce: bool, policy: Policy)
    ensures BundleOutcomeOf(bundle, enforce, policy).decisionState == Allow <==>
      && SomeRequired(FindingsOf(bundle)) && !AnyFail(FindingsOf(bundle))
      && (forall f :: f in FindingsOf(bundle) && f.required ==> f.status == Pass)
      && forall e :: e in bundle ==> RawState(e) == Allow
  {
    hide RawState, FindingsOf, Overlay, Restricted, OriginalState, SortedSet;
    BundleIsJoin(bundle, enforce, policy, 0);
    AllowExactly(FindingsOf(bundle), ModeOf(enforce), policy, None);
    forall e ensures FloorRank(e, ModeOf(enforce), policy) <= 0 <==> RawState(e) == Allow {
      OverlayKeepsAuthority(RawState(e), ModeOf(enforce), policy);
    }
  }

  lemma SameRecordsSameFindings(a: seq<Evidence>, b: seq<Evidence>, f: Finding)
    requires forall e :: e in a <==> e in b
    ensures f in FindingsOf(a) <==> f in FindingsOf(b)
  {
    FindingsAre(a, f);
    FindingsAre(b, f);
  }

  lemma SameRecordsSameRanks(a: seq<Evidence>, b: seq<Evidence>, start: nat, mode: Mode, policy: Policy)
    requires forall e :: e in a <==> e in b
    ensures WorstFloor(a, mode, policy) == WorstFloor(b, mode, policy)
    ensures WorstRaw(a, start, WorstFloor(a, mode, policy), mode, policy)
      == WorstRaw(b, start, WorstFloor(a, mode, policy), mode, policy)
  {
  }

  lemma RestrictedSame(x: Outcome, y: Outcome, a: seq<Evidence>, b: seq<Evidence>, mode: Mode, policy: Policy)
    requires forall e :: e in a <==> e in b
    requires x.(contributions := []) == y.(contributions := [])
    ensures Restricted(x, a, mode, policy).(contributions := []) == Restricted(y, b, mode, policy).(contributions := [])
  {
    hide FloorRank, RawState, WorstFloor, WorstRaw, AsksStronger, SortedSet;
    SameRecordsSameRanks(a, b, Severity(x.originalState), mode, policy);
    var worst := WorstFloor(a, mode, policy);
    assert x.controllingIds == y.controllingIds && x.originalState == y.originalState
      && x.decisionState == y.decisionState;
    assert ControllingDecisions(a, worst, mode, policy) == ControllingDecisions(b, worst, mode, policy);
    assert StrongerAsked(a, worst, mode, policy) <==> StrongerAsked(b, worst, mode, policy);
  }

  /** Reordering or repeating evidence changes nothing but the order of contributions. */
  lemma BundleOrderIndependent(a: seq<Evidence>, b: seq<Evidence>, enforce: bool, policy: Policy)
    requires forall e :: e in a <==> e in b
    ensures BundleOutcomeOf(a, enforce, policy).(contributions := [])
      == BundleOutcomeOf(b, enforce, policy).(contributions := [])
  {
    forall f ensures f in FindingsOf(a) <==> f in FindingsOf(b) { SameRecordsSameFindings(a, b, f); }
    OrderIndependent(FindingsOf(a), FindingsOf(b), ModeOf(enforce), policy, None);
    RestrictedSame(OutcomeOf(FindingsOf(a), ModeOf(enforce), policy, None),
                   OutcomeOf(FindingsOf(b), ModeOf(enforce), policy, None),
                   a, b, ModeOf(enforce), policy);
  }

  /** A floor ranks below its record's raw state only where strict mode reads an UNKNOWN as
      a review: everywhere else the bundle is at least as restrictive as the raw state. */
  lemma FloorBelowRawExactly(e: Evidence, mode: Mode, policy: Policy)
    ensures FloorRank(e, mode, policy) < Severity(RawState(e)) <==>
      mode == Strict && RawState(e) == State.Unknown && !UnknownBlocks(policy)
  {
  }

  // ------------------------------------------------- the bundle, from what records say

  /** The text that counts: `decision_state`, or `merge_recommendation` when that is absent. */
  function Said(e: Evidence): Option<string> {
    match (e.decisionState, e.mergeRecommendation)
    case (Some(state), _) => Some(Strip(state))
    case (None, Some(recommendation)) => Some(Strip(recommendation))
    case (None, None) => None
  }

  /** The state a record calls for: what it says, with the strict policy applied. Anything not
      understood, and silence, calls for a review. */
  predicate CallsFor(e: Evidence, enforce: bool, policy: Policy, s: State) {
    var unknownBlocks := enforce && Strip(policy.onUnknown) == "block";
    var skipBlocks := enforce && SkipBlocks(policy);
    match s
    case Allow => Said(e) == Some("allow")
    case Block =>
      || Said(e) == Some("block")
      || (Said(e) == Some("unknown") && unknownBlocks)
      || (Said(e) == Some("skipped") && skipBlocks)
    case Error => Said(e) == Some("error")
    case Unknown => Said(e) == Some("unknown") && !enforce
    case Skipped => Said(e) == Some("skipped") && !skipBlocks
    case NeedsReview =>
      || Said(e) !in {Some("allow"), Some("block"), Some("error"), Some("unknown"), Some("skipped")}
      || (Said(e) == Some("unknown") && enforce && !unknownBlocks)
  }

  /** The texts with a meaning of their own are different texts. */
  lemma TextsDiffer()
    ensures "allow" != "block" && "allow" != "error" && "allow" != "unknown" && "allow" != "skipped"
    ensures "block" != "error" && "block" != "unknown" && "block" != "skipped"
    ensures "error" != "unknown" && "error" != "skipped" && "unknown" != "skipped"
  {
    assert "allow"[0] == 'a' && "block"[0] == 'b' && "error"[0] == 'e' && "unknown"[0] == 'u' && "skipped"[0] == 's';
  }

  lemma FloorExactly(e: Evidence, enforce: bool, policy: Policy, s: State)
    ensures Floor(e, ModeOf(enforce), policy) == s <==> CallsFor(e, enforce, policy, s)
  {
    hide Strip, SkipBlocks;
    TextsDiffer();
  }

  /** The bundle decision, exactly: a state that the claims or some record call for, and none of
      them calls for a worse one. */
  lemma BundleExactly(bundle: seq<Evidence>, enforce: bool, policy: Policy, s: State)
    ensures var claims := OutcomeOf(FindingsOf(bundle), ModeOf(enforce), policy, None).decisionState;
      BundleOutcomeOf(bundle, enforce, policy).decisionState == s <==>
        && (claims == s || exists e :: e in bundle && CallsFor(e, enforce, policy, s))
        && Severity(claims) <= Severity(s)
        && forall e, t :: e in bundle && CallsFor(e, enforce, policy, t) ==> Severity(t) <= Severity(s)
  {
    var mode, claims := ModeOf(enforce), OutcomeOf(FindingsOf(bundle), ModeOf(enforce), policy, None);
    var d := BundleOutcomeOf(bundle, enforce, policy).decisionState;
    RestrictedSeverity(claims, bundle, mode, policy);
    assert d == Restricted(claims, bundle, mode, policy).decisionState;
    hide *;
    WorstCalled(bundle, enforce, policy, WorstFloor(bundle, mode, policy));
    SeverityInjective(d, s);
    SeverityInjective(claims.decisionState, s);
    SeverityInjective(claims.decisionState, d);
  }

  lemma SeverityInjective(a: State, b: State)
    ensures Severity(a) == Severity(b) <==> a == b
  {
  }

  /** The largest floor, as the state that is called for most severely. */
  lemma WorstCalled(bundle: seq<Evidence>, enforce: bool, policy: Policy, worst: nat)
    requires worst == WorstFloor(bundle, ModeOf(enforce), policy)
    ensures forall e, t :: e in bundle && CallsFor(e, enforce, policy, t) ==> Severity(t) <= worst
    ensures forall s :: Severity(s) == worst && bundle != [] ==>
      exists e :: e in bundle && CallsFor(e, enforce, policy, s)
    ensures bundle == [] ==> worst == 0
  {
    hide CallsFor, Floor, Severity, WorstFloor;
    var mode := ModeOf(enforce);
    forall e, t ensures CallsFor(e, enforce, policy, t) <==> Floor(e, mode, policy) == t {
      FloorExactly(e, enforce, policy, t);
    }
    forall s | Severity(s) == worst && bundle != [] ensures exists e :: e in bundle && CallsFor(e, enforce, policy, s) {
      var e :| e in bundle && FloorRank(e, mode, policy) == worst;
      SeverityInjective(Floor(e, mode, policy), s);
    }
  }

  /** No bundle is more permissive than any of its records, in the records' own words. Words
      that are not understood, and missing words, never allow. */
  lemma RecordBinds(bundle: seq<Evidence>, enforce: bool, policy: Policy, e: Evidence)
    requires e in bundle
    ensures var d := BundleOutcomeOf(bundle, enforce, policy).decisionState;
      && (d == Allow ==> Said(e) == Some("allow"))
      && (Said(e) == Some("block") ==> d == Block)
      && (Said(e) == Some("error") ==> d in {State.Error, Block})
      && (Said(e) == Some("unknown") && !enforce ==> d in {State.Unknown, State.Error, Block})
      && (Said(e) == Some("unknown") && enforce && Strip(policy.onUnknown) == "block" ==> d == Block)
      && (Said(e) == Some("skipped") ==> d in {State.Skipped, State.Unknown, State.Error, Block})
      && (Said(e) == Some("skipped") && enforce && SkipBlocks(policy) ==> d == Block)
  {
    hide *;
    var d := BundleOutcomeOf(bundle, enforce, policy).decisionState;
    BundleIsJoin(bundle, enforce, policy, Severity(d));
    FloorRankIs(e, ModeOf(enforce), policy);
    FloorBinds(e, enforce, policy, d);
  }

  lemma FloorRankIs(e: Evidence, mode: Mode, policy: Policy)
    ensures FloorRank(e, mode, policy) == Severity(Floor(e, mode, policy))
  {
  }

  lemma FloorBinds(e: Evidence, enforce: bool, policy: Policy, d: State)
    requires Severity(Floor(e, ModeOf(enforce), policy)) <= Severity(d)
    ensures d == Allow ==> Said(e) == Some("allow")
    ensures Said(e) == Some("block") ==> d == Block
    ensures Said(e) == Some("error") ==> d in {State.Error, Block}
    ensures Said(e) == Some("unknown") && !enforce ==> d in {State.Unknown, State.Error, Block}
    ensures Said(e) == Some("unknown") && enforce && Strip(policy.onUnknown) == "block" ==> d == Block
    ensures Said(e) == Some("skipped") ==> d in {State.Skipped, State.Unknown, State.Error, Block}
    ensures Said(e) == Some("skipped") && enforce && SkipBlocks(policy) ==> d == Block
  {
    hide Floor, Said, SkipBlocks, Strip;
    TextsDiffer();
    FloorExactly(e, enforce, policy, Floor(e, ModeOf(enforce), policy));
  }

  /** `decision_state` wins over `merge_recommendation`. */
  lemma StateWinsOverRecommendation(e: Evidence, recommendation: Option<string>, enforce: bool, policy: Policy)
    requires e.decisionState.Some?
    ensures Floor(e.(mergeRecommendation := recommendation), ModeOf(enforce), policy)
         == Floor(e, ModeOf(enforce), policy)
  {
  }

  /** Attribution, exactly. Where the claims decide, their outcome stands. Otherwise the records that
      call for the decided state control it, beside the claims' own controllers; the original
      state is the worst that the claims or those records reported before policy, and a
      stronger check is asked for when a review is decided and one of them asked for it. */
  lemma BundleAttribution(bundle: seq<Evidence>, enforce: bool, policy: Policy)
    ensures var claims := OutcomeOf(FindingsOf(bundle), ModeOf(enforce), policy, None);
      var o := BundleOutcomeOf(bundle, enforce, policy);
      if o.decisionState == claims.decisionState then o == claims
      else AttributedToRecords(o, claims, bundle, enforce, policy)
  {
    hide OutcomeOf, FindingsOf, Overridden, AttributedToRecords;
    var mode, claims := ModeOf(enforce), OutcomeOf(FindingsOf(bundle), ModeOf(enforce), policy, None);
    RestrictedSeverity(claims, bundle, mode, policy);
    WorstIsRank(bundle, mode, policy);
    OverriddenByRecords(claims, bundle, enforce, policy, WorstFloor(bundle, mode, policy));
  }

  ghost predicate AttributedToRecords(o: Outcome, claims: Outcome, bundle: seq<Evidence>, enforce: bool,
                                      policy: Policy) {
    && (forall id :: id in o.controllingIds <==> id in claims.controllingIds || exists e ::
          e in bundle && CallsFor(e, enforce, policy, o.decisionState)
          && id == "evidence:" + e.evidenceId + ":decision")
    && OriginalReported(o.originalState, claims.originalState, bundle, enforce, policy, o.decisionState)
    && o.contributions == claims.contributions && o.mode == ModeOf(enforce)
    && (o.legacyOverride == Some(RequireStrongerCheck) <==>
        o.decisionState == NeedsReview && exists e ::
          e in bundle && CallsFor(e, enforce, policy, NeedsReview)
          && e.mergeRecommendation.Some? && Strip(e.mergeRecommendation.value) == "require_stronger_check")
    && o.legacyOverride in {None, Some(RequireStrongerCheck)}
  }

  lemma OverriddenByRecords(claims: Outcome, bundle: seq<Evidence>, enforce: bool, policy: Policy, worst: nat)
    requires worst <= 5
    ensures AttributedToRecords(Overridden(claims, bundle, worst, ModeOf(enforce), policy),
                                claims, bundle, enforce, policy)
  {
    hide CallsFor, Floor, RawState, Strip, SortedSet, OriginalReported, WorstRaw, FloorRank, IsControlling;
    RankRoundTrip(worst);
    CallsAreControlling(enforce, policy, worst);
    OriginalIsReported(claims.originalState, bundle, enforce, policy, worst);
  }

  /** The worst of what the claims and the controlling records reported. */
  ghost predicate OriginalReported(original: State, claimed: State, bundle: seq<Evidence>, enforce: bool,
                                   policy: Policy, decided: State) {
    && Severity(claimed) <= Severity(original)
    && (forall e :: e in bundle && CallsFor(e, enforce, policy, decided) ==>
          Severity(RawState(e)) <= Severity(original))
    && (original == claimed || exists e ::
          e in bundle && CallsFor(e, enforce, policy, decided) && RawState(e) == original)
  }

  lemma WorstIsRank(bundle: seq<Evidence>, mode: Mode, policy: Policy)
    ensures WorstFloor(bundle, mode, policy) <= 5
  {
    hide Floor;
  }

  lemma CallsAreControlling(enforce: bool, policy: Policy, worst: nat)
    requires worst <= 5
    ensures forall e :: CallsFor(e, enforce, policy, StateOfRank(worst)) <==>
      IsControlling(e, worst, ModeOf(enforce), policy)
  {
    hide CallsFor, Floor;
    forall e ensures CallsFor(e, enforce, policy, StateOfRank(worst)) <==>
      IsControlling(e, worst, ModeOf(enforce), policy) {
      FloorExactly(e, enforce, policy, StateOfRank(worst));
    }
  }

  lemma OriginalIsReported(claimed: State, bundle: seq<Evidence>, enforce: bool, policy: Policy, worst: nat)
    requires worst <= 5
    ensures OriginalReported(StateOfRank(WorstRaw(bundle, Severity(claimed), worst, ModeOf(enforce), policy)),
                             claimed, bundle, enforce, policy, StateOfRank(worst))
  {
    hide CallsFor, RawState, IsControlling;
    CallsAreControlling(enforce, policy, worst);
    var w := WorstRaw(bundle, Severity(claimed), worst, ModeOf(enforce), policy);
    RankRoundTrip(w);
  }

  /** The legacy recommendation of a bundle merges on ALLOW only and blocks on BLOCK only. */
  lemma BundleRecommendation(bundle: seq<Evidence>, enforce: bool, policy: Policy)
    ensures var o := BundleOutcomeOf(bundle, enforce, policy);
      && (o.recommendation == MergeAllow <==> o.decisionState == Allow)
      && (o.recommendation == MergeBlock <==> o.decisionState == Block)
      && (o.recommendation == RequireHumanReview <==> o.decisionState !in {Allow, Block})
  {
    hide FindingsOf, OutcomeOf, StateOfRank, WorstFloor, WorstRaw, SortedSet;
    RecommendationExactly(FindingsOf(bundle), ModeOf(enforce), policy, None);
  }
}
