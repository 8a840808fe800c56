/** The merge decision lattice and bundle aggregation (ovk/core/decision.py). */
module Decision {
  import opened Ordering
  import opened Text

  /** `VerificationStatus`: what a checker reports. */
  datatype Status = Pass | Fail | Unknown | Error | Skipped

  /** `DecisionState`: what authorization concludes. */
  datatype State = Allow | Block | NeedsReview | Unknown | Error | Skipped

  /** `MergeRecommendation`: the legacy vocabulary. */
  datatype Recommendation = MergeAllow | MergeBlock | RequireHumanReview | AllowWithWarning | RequireStrongerCheck

  datatype Mode = Strict | Advisory

  datatype Finding = Finding(findingId: string, status: Status, required: bool)

  datatype Contribution = Controlling | Supporting | NonControlling | Warning

  datatype FindingContribution = FindingContribution(finding: Finding, contribution: Contribution)

  datatype Outcome = Outcome(
    decisionState: State, originalState: State, recommendation: Recommendation,
    controllingIds: seq<string>, contributions: seq<FindingContribution>,
    mode: Mode, legacyOverride: Option<Recommendation>)

  /** The two policy strings that tune strict mode. */
  datatype Policy = Policy(onUnknown: string, onRequiredSkip: string)

  // --------------------------------------------------------------- the lattice

  function ClaimSeverity(s: Status): nat {
    match s
    case Pass => 0
    case Skipped => 1
    case Unknown => 2
    case Error => 3
    case Fail => 4
  }

  function Severity(s: State): nat {
    match s
    case Allow => 0
    case NeedsReview => 1
    case Skipped => 2
    case Unknown => 3
    case Error => 4
    case Block => 5
  }

  /** The less permissive of two states. */
  function Join(a: State, b: State): State {
    if Severity(a) >= Severity(b) then a else b
  }

  function RecommendationOf(s: State): Recommendation {
    match s
    case Allow => MergeAllow
    case Block => MergeBlock
    case _ => RequireHumanReview
  }

  function BaseState(s: Status): State {
    match s
    case Fail => Block
    case Error => State.Error
    case Unknown => State.Unknown
    case Skipped => State.Skipped
    case Pass => Allow
  }

  // ------------------------------------------------------------- policy strings

  predicate UnknownBlocks(policy: Policy) {
    Strip(policy.onUnknown) == "block"
  }

  /** `str.lower` as far as it can produce a letter of "block": the ASCII capitals,
      and the Kelvin sign, which lowers to k. */
  function LowerChar(c: char): char {
    if 'A' <= c <= 'Z' then (c as int + 32) as char else if c as int == 0x212A then 'k' else c
  }

  predicate SkipBlocks(policy: Policy) {
    Map(LowerChar, Strip(policy.onRequiredSkip)) == "block"
  }

  function ApplyStrictPolicy(original: State, policy: Policy): State {
    match original
    case Unknown => if UnknownBlocks(policy) then Block else NeedsReview
    case Skipped => if SkipBlocks(policy) then Block else State.Skipped
    case _ => original
  }

  /** Strict mode applies the overlay, advisory mode leaves the state alone. */
  function Overlay(original: State, mode: Mode, policy: Policy): State {
    if mode == Strict then ApplyStrictPolicy(original, policy) else original
  }

  /** The overlay neither promotes to ALLOW nor releases a BLOCK. */
  lemma OverlayKeepsAuthority(s: State, mode: Mode, policy: Policy)
    ensures Overlay(s, mode, policy) == Allow <==> s == Allow
    ensures s == Block ==> Overlay(s, mode, policy) == Block
  {
  }

  /** Under every policy some worse state is mapped to a milder one: strict decisions are
      not monotone in severity, whatever is configured. */
  lemma StrictNeverMonotone(policy: Policy)
    ensures exists a, b ::
      Severity(a) < Severity(b) && Severity(ApplyStrictPolicy(a, policy)) > Severity(ApplyStrictPolicy(b, policy))
  {
    var worse := if UnknownBlocks(policy) then State.Error else State.Unknown;
    var milder := if UnknownBlocks(policy) then State.Unknown else State.Skipped;
    assert Severity(milder) < Severity(worse)
        && Severity(ApplyStrictPolicy(milder, policy)) > Severity(ApplyStrictPolicy(worse, policy));
  }

  // ----------------------------------------------------- aggregation, as a table

  predicate SomeRequired(findings: seq<Finding>) {
    exists f :: f in findings && f.required
  }

  predicate AnyFail(findings: seq<Finding>) {
    exists f :: f in findings && f.status == Fail
  }

  predicate RequiredHas(findings: seq<Finding>, s: Status) {
    exists f :: f in findings && f.required && f.status == s
  }

  /** The decision table of the checker-level lattice, before policy. */
  function OriginalState(findings: seq<Finding>): State {
    if AnyFail(findings) then Block
    else if RequiredHas(findings, Status.Error) then State.Error
    else if RequiredHas(findings, Status.Unknown) then State.Unknown
    else if RequiredHas(findings, Status.Skipped) then State.Skipped
    else if SomeRequired(findings) then Allow
    else NeedsReview
  }

  /** A finding controls when it alone already forces the original state: any FAIL for a
      block, otherwise a required finding of the deciding status. */
  predicate Controls(f: Finding, original: State) {
    if original == Block then f.status == Fail
    else original != NeedsReview && f.required && BaseState(f.status) == original
  }

  ghost function ControllingSet(findings: seq<Finding>): set<string> {
    set f | f in findings && Controls(f, OriginalState(findings)) :: f.findingId
  }

  function ContributionOf(f: Finding, controlling: set<string>, warnings: set<string>): Contribution {
    if f.findingId in controlling then Controlling
    else if f.findingId in warnings then Warning
    else if f.status == Pass then Supporting
    else NonControlling
  }

  function Contributions(findings: seq<Finding>, controlling: set<string>,
      warnings: set<string>): seq<FindingContribution> {
    Map((f: Finding) => FindingContribution(f, ContributionOf(f, controlling, warnings)), findings)
  }

  /** Optional findings that did not pass are only warned about when the state is ALLOW. */
  ghost function WarnedSet(findings: seq<Finding>): set<string> {
    if OriginalState(findings) == Allow
      then set f | f in findings && !f.required && f.status != Pass :: f.findingId else {}
  }

  ghost function OutcomeOf(findings: seq<Finding>,
      mode: Mode, policy: Policy, override: Option<Recommendation>): Outcome {
    var original := OriginalState(findings);
    var state := Overlay(original, mode, policy);
    Outcome(state, original, RecommendationOf(state), SortedSet(ControllingSet(findings)),
            if original == NeedsReview then []
              else Contributions(findings, ControllingSet(findings), WarnedSet(findings)),
            mode, override)
  }

  // ------------------------------------------------------ aggregation, as coded

  method WorstStatus(statuses: seq<Status>) returns (worst: Option<Status>)
    ensures statuses == [] <==> worst == None
    ensures worst.Some? ==> worst.value in statuses
    ensures worst.Some? ==> forall s :: s in statuses ==> ClaimSeverity(s) <= ClaimSeverity(worst.value)
  {
    worst := None;
    var worstRank: int := -1;
    for i := 0 to |statuses|
      invariant i == 0 ==> worst == None && worstRank == -1
      invariant i > 0 ==> worst.Some? && worst.value in statuses[..i] && worstRank == ClaimSeverity(worst.value)
      invariant forall s :: s in statuses[..i] ==> ClaimSeverity(s) <= worstRank
    {
      var rank := ClaimSeverity(statuses[i]);
      assert statuses[..i + 1] == statuses[..i] + [statuses[i]];
      if rank > worstRank {
        worst, worstRank := Some(statuses[i]), rank;
      }
    }
    assert statuses[..|statuses|] == statuses;
  }

  method ContributionsFor(findings: seq<Finding>, controlling: set<string>, warnings: set<string>)
    returns (rows: seq<FindingContribution>)
    ensures rows == Contributions(findings, controlling, warnings)
  {
    rows := [];
    for i := 0 to |findings|
      invariant |rows| == i
      invariant forall j :: 0 <= j < i ==>
        rows[j] == FindingContribution(findings[j], ContributionOf(findings[j], controlling, warnings))
    {
      rows := rows + [FindingContribution(findings[i], ContributionOf(findings[i], controlling, warnings))];
    }
  }

  function StatusOf(f: Finding): Status { f.status }

  function Ids(findings: seq<Finding>): set<string> {
    set f | f in findings :: f.findingId
  }

  method AggregateDecision(findings: seq<Finding>, mode: Mode, policy: Policy, override: Option<Recommendation>)
    returns (r: Outcome)
    ensures r == OutcomeOf(findings, mode, policy, override)
  {
    hide OriginalState, ControllingSet, SortedSet, Contributions, ClaimSeverity, Filter;
    var required := Filter((f: Finding) => f.required, findings);
    var optional := Filter((f: Finding) => !f.required, findings);
    if findings == [] {
      NothingControls(findings);
      return Outcome(NeedsReview, NeedsReview, RecommendationOf(NeedsReview), [], [], mode, override);
    }
    var fails :=
      Filter((f: Finding) => f.status == Fail, optional) + Filter((f: Finding) => f.status == Fail, required);
    if fails != [] {
      FailsControl(findings, fails);
      var rows := ContributionsFor(findings, Ids(fails), {});
      return Outcome(Block, Block, RecommendationOf(Block), SortedSet(Ids(fails)), rows, mode, override);
    }
    NoFails(findings, fails);
    var nonPass := Filter((f: Finding) => f.status != Pass, required);
    if nonPass != [] {
      var worst := WorstStatus(Map(StatusOf, nonPass));
      StatusesOf(nonPass);
      var controllers := Filter((f: Finding) => f.status == worst.value, nonPass);
      WorstControls(findings, nonPass, controllers, worst.value);
      var original := BaseState(worst.value);
      var state := if mode == Strict then ApplyStrictPolicy(original, policy) else original;
      var rows := ContributionsFor(findings, Ids(controllers), {});
      return Outcome(state, original, RecommendationOf(state), SortedSet(Ids(controllers)), rows, mode, override);
    }
    AllRequiredPass(findings, nonPass);
    if required == [] {
      NothingControls(findings);
      return Outcome(NeedsReview, NeedsReview, RecommendationOf(NeedsReview), [], [], mode, override);
    }
    var warned := Filter((f: Finding) => f.status != Pass, optional);
    RequiredControl(findings, required, warned);
    var rows := ContributionsFor(findings, Ids(required), Ids(warned));
    r := Outcome(Allow, Allow, RecommendationOf(Allow), SortedSet(Ids(required)), rows, mode, override);
  }

  lemma StatusesOf(findings: seq<Finding>)
    ensures findings != [] ==> Map(StatusOf, findings) != []
    ensures forall f :: f in findings ==> f.status in Map(StatusOf, findings)
    ensures forall s :: s in Map(StatusOf, findings) ==> exists f :: f in findings && f.status == s
  {
  }

  lemma NothingControls(findings: seq<Finding>)
    requires !SomeRequired(findings) && !AnyFail(findings)
    ensures OriginalState(findings) == NeedsReview && ControllingSet(findings) == {}
  {
  }

  lemma FailsControl(findings: seq<Finding>, fails: seq<Finding>)
    requires forall f :: f in fails <==> f in findings && f.status == Fail
    requires fails != []
    ensures OriginalState(findings) == Block && ControllingSet(findings) == Ids(fails)
  {
    assert fails[0] in findings;
  }

  lemma NoFails(findings: seq<Finding>, fails: seq<Finding>)
    requires forall f :: f in fails <==> f in findings && f.status == Fail
    requires fails == []
    ensures !AnyFail(findings)
  {
  }

  lemma WorstControls(findings: seq<Finding>, nonPass: seq<Finding>, controllers: seq<Finding>, worst: Status)
    requires !AnyFail(findings)
    requires forall f :: f in nonPass <==> f in findings && f.required && f.status != Pass
    requires exists f :: f in nonPass && f.status == worst
    requires forall f :: f in nonPass ==> ClaimSeverity(f.status) <= ClaimSeverity(worst)
    requires forall f :: f in controllers <==> f in nonPass && f.status == worst
    ensures OriginalState(findings) == BaseState(worst) && BaseState(worst) !in {Allow, Block, NeedsReview}
    ensures ControllingSet(findings) == Ids(controllers)
  {
  }

  lemma AllRequiredPass(findings: seq<Finding>, nonPass: seq<Finding>)
    requires forall f :: f in nonPass <==> f in findings && f.required && f.status != Pass
    requires nonPass == [] && !AnyFail(findings)
    ensures forall f :: f in findings && f.required ==> f.status == Pass
  {
  }

  lemma RequiredControl(findings: seq<Finding>, required: seq<Finding>, warned: seq<Finding>)
    requires forall f :: f in required <==> f in findings && f.required
    requires forall f :: f in warned <==> f in findings && !f.required && f.status != Pass
    requires required != [] && !AnyFail(findings)
    requires forall f :: f in findings && f.required ==> f.status == Pass
    ensures OriginalState(findings) == Allow && ControllingSet(findings) == Ids(required)
    ensures WarnedSet(findings) == Ids(warned)
  {
    assert required[0] in findings;
  }

  // ------------------------------------------------------------------ theorems

  /** ALLOW, exactly: something was required, all of it passed, and nothing failed. No
      mode and no policy string changes that. */
  lemma AllowExactly(findings: seq<Finding>, mode: Mode, policy: Policy, override: Option<Recommendation>)
    ensures OutcomeOf(findings, mode, policy, override).decisionState == Allow <==>
      SomeRequired(findings) && !AnyFail(findings) && forall f :: f in findings && f.required ==> f.status == Pass
  {
    OverlayKeepsAuthority(OriginalState(findings), mode, policy);
    if forall f :: f in findings && f.required ==> f.status == Pass {
      assert !RequiredHas(findings, Status.Error) && !RequiredHas(findings, Status.Unknown)
        && !RequiredHas(findings, Status.Skipped);
    }
  }

  /** BLOCK, exactly: a failure anywhere, or a strict policy that blocks the non-pass. */
  lemma BlockExactly(findings: seq<Finding>, mode: Mode, policy: Policy, override: Option<Recommendation>)
    ensures OutcomeOf(findings, mode, policy, override).decisionState == Block <==>
      || AnyFail(findings)
      || (mode == Strict && OriginalState(findings) == State.Unknown && UnknownBlocks(policy))
      || (mode == Strict && OriginalState(findings) == State.Skipped && SkipBlocks(policy))
  {
  }

  /** The decision of a concatenation is the join of the decisions of its parts, when
      each part requires something. */
  lemma Compositional(a: seq<Finding>, b: seq<Finding>)
    requires SomeRequired(a) && SomeRequired(b)
    ensures OriginalState(a + b) == Join(OriginalState(a), OriginalState(b))
  {
  }

  /** The decision, recommendation and controlling ids depend on which findings were
      reported, not on their order or multiplicity. */
  lemma OrderIndependent(a: seq<Finding>, b: seq<Finding>, mode: Mode, policy: Policy, override: Option<Recommendation>)
    requires forall f :: f in a <==> f in b
    ensures var x, y := OutcomeOf(a, mode, policy, override), OutcomeOf(b, mode, policy, override);
      x.(contributions := []) == y.(contributions := [])
  {
    assert SomeRequired(a) <==> SomeRequired(b);
    assert AnyFail(a) <==> AnyFail(b);
    forall s ensures RequiredHas(a, s) <==> RequiredHas(b, s) {}
    assert OriginalState(a) == OriginalState(b);
    assert ControllingSet(a) == ControllingSet(b);
  }

  /** `b` reports the same findings as `a`, each at least as severely. */
  ghost predicate Worsens(a: seq<Finding>, b: seq<Finding>) {
    |a| == |b| && forall i :: 0 <= i < |a| ==>
      b[i].required == a[i].required && ClaimSeverity(a[i].status) <= ClaimSeverity(b[i].status)
  }

  ghost predicate Dominated(f: Finding, findings: seq<Finding>) {
    exists g :: g in findings && g.required == f.required && ClaimSeverity(f.status) <= ClaimSeverity(g.status)
  }

  lemma WorsensDominates(a: seq<Finding>, b: seq<Finding>)
    requires Worsens(a, b)
    ensures forall f :: f in a ==> Dominated(f, b)
    ensures SomeRequired(a) <==> SomeRequired(b)
  {
  }

  lemma DominatedIsMilder(a: seq<Finding>, b: seq<Finding>)
    requires forall f :: f in a ==> Dominated(f, b)
    requires SomeRequired(a) <==> SomeRequired(b)
    ensures Severity(OriginalState(a)) <= Severity(OriginalState(b))
  {
  }

  /** Worse findings never give a milder original state, and never restore ALLOW. */
  lemma OriginalMonotone(a: seq<Finding>, b: seq<Finding>, mode: Mode, policy: Policy)
    requires Worsens(a, b)
    ensures Severity(OriginalState(a)) <= Severity(OriginalState(b))
    ensures OutcomeOf(b, mode, policy, None).decisionState == Allow
      ==> OutcomeOf(a, mode, policy, None).decisionState == Allow
  {
    WorsensDominates(a, b);
    DominatedIsMilder(a, b);
    OverlayKeepsAuthority(OriginalState(a), mode, policy);
    OverlayKeepsAuthority(OriginalState(b), mode, policy);
  }

  /** Reporting more findings never gives a milder original state, once something is required. */
  lemma OriginalExtends(a: seq<Finding>, more: seq<Finding>)
    requires SomeRequired(a)
    ensures Severity(OriginalState(a)) <= Severity(OriginalState(a + more))
  {
  }

  // ------------------------------------------------- the outcome, from the findings

  /** The original state, exactly, state by state. */
  lemma OriginalExactly(findings: seq<Finding>)
    ensures var s := OriginalState(findings);
      var fails := exists f :: f in findings && f.status == Fail;
      && (s == Block <==> fails)
      && (s == State.Error <==> !fails && exists f :: f in findings && f.required && f.status == Status.Error)
      && (s == State.Unknown <==>
          && !fails && (forall f :: f in findings && f.required ==> f.status != Status.Error)
          && exists f :: f in findings && f.required && f.status == Status.Unknown)
      && (s == State.Skipped <==>
          && !fails && (forall f :: f in findings && f.required ==> f.status in {Pass, Status.Skipped})
          && exists f :: f in findings && f.required && f.status == Status.Skipped)
      && (s == Allow <==>
          && !fails && (forall f :: f in findings && f.required ==> f.status == Pass)
          && exists f :: f in findings && f.required)
      && (s == NeedsReview <==> !fails && forall f :: f in findings ==> !f.required)
  {
    if forall f :: f in findings && f.required ==> f.status in {Pass, Status.Skipped} {
      assert !RequiredHas(findings, Status.Error) && !RequiredHas(findings, Status.Unknown);
    }
    if forall f :: f in findings && f.required ==> f.status == Pass {
      assert !RequiredHas(findings, Status.Error) && !RequiredHas(findings, Status.Unknown)
        && !RequiredHas(findings, Status.Skipped);
    }
  }

  /** The skip policy is compared without regard to case; the Kelvin sign lowers to k. */
  lemma SkipBlocksExactly(policy: Policy)
    ensures SkipBlocks(policy) <==>
      var s := Strip(policy.onRequiredSkip);
      |s| == 5 && s[0] in "bB" && s[1] in "lL" && s[2] in "oO" && s[3] in "cC" && s[4] in "kK\U{212A}"
  {
    hide Strip;
    var s := Strip(policy.onRequiredSkip);
    var lower := Map(LowerChar, s);
    assert lower == "block" <==>
      |lower| == 5 && lower[0] == 'b' && lower[1] == 'l' && lower[2] == 'o' && lower[3] == 'c' && lower[4] == 'k';
  }

  /** What policy makes of the original state, state by state: advisory mode keeps it, and strict
      mode changes nothing but a required UNKNOWN and a required skip. */
  lemma OverlayExactly(findings: seq<Finding>, mode: Mode, policy: Policy, override: Option<Recommendation>)
    ensures var o := OutcomeOf(findings, mode, policy, override);
      && o.originalState == OriginalState(findings) && o.mode == mode && o.legacyOverride == override
      && (mode == Advisory ==> o.decisionState == o.originalState)
      && (o.originalState !in {State.Unknown, State.Skipped} ==> o.decisionState == o.originalState)
      && (mode == Strict && o.originalState == State.Unknown ==>
          o.decisionState == if Strip(policy.onUnknown) == "block" then Block else NeedsReview)
      && (mode == Strict && o.originalState == State.Skipped ==>
          o.decisionState == if SkipBlocks(policy) then Block else State.Skipped)
  {
    hide OriginalState, Strip, SkipBlocks, ControllingSet, Contributions, WarnedSet, SortedSet;
  }

  /** The legacy recommendation merges on ALLOW only and blocks on BLOCK only. */
  lemma RecommendationExactly(findings: seq<Finding>, mode: Mode, policy: Policy, override: Option<Recommendation>)
    ensures var o := OutcomeOf(findings, mode, policy, override);
      && (o.recommendation == MergeAllow <==> o.decisionState == Allow)
      && (o.recommendation == MergeBlock <==> o.decisionState == Block)
      && (o.recommendation == RequireHumanReview <==> o.decisionState !in {Allow, Block})
  {
    hide OriginalState, Overlay, ControllingSet, Contributions, WarnedSet, SortedSet;
  }

  /** The controlling ids, exactly: those of the failures of a block, of everything required for
      an ALLOW, and otherwise of the required findings with the status that decided. */
  lemma ControllersExactly(findings: seq<Finding>, mode: Mode, policy: Policy, override: Option<Recommendation>,
                           id: string)
    ensures var o := OutcomeOf(findings, mode, policy, override);
      id in o.controllingIds <==> exists f | f in findings && f.findingId == id ::
        match o.originalState {
          case Block => f.status == Fail
          case Error => f.required && f.status == Status.Error
          case Unknown => f.required && f.status == Status.Unknown
          case Skipped => f.required && f.status == Status.Skipped
          case Allow => f.required && f.status == Pass
          case NeedsReview => false
        }
  {
    hide OriginalState, Overlay, Contributions, WarnedSet;
  }

  /** The contributions, exactly: one row per finding, in order, unless nothing was required. */
  lemma ContributionsExactly(findings: seq<Finding>, mode: Mode, policy: Policy, override: Option<Recommendation>,
                             i: nat)
    requires i < |findings|
    ensures var o := OutcomeOf(findings, mode, policy, override);
      if o.originalState == NeedsReview then o.contributions == [] else
        var f, id := findings[i], findings[i].findingId;
        var warned := o.originalState == Allow
          && exists g :: g in findings && g.findingId == id && !g.required && g.status != Pass;
        && |o.contributions| == |findings| && o.contributions[i].finding == f
        && match o.contributions[i].contribution {
             case Controlling => id in o.controllingIds
             case Warning => id !in o.controllingIds && warned
             case Supporting => id !in o.controllingIds && !warned && f.status == Pass
             case NonControlling => id !in o.controllingIds && !warned && f.status != Pass
           }
  {
    hide OriginalState, Overlay, ControllingSet, RecommendationOf;
  }
}
