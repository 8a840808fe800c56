/** The registry of backend adapters (ovk/core/backend_registry.py). */
module BackendRegistry {
  import opened Ordering
  import opened Text
  import opened ExecutionModels

  type Identity = (string, string)

  function IdentityOf(a: Adapter): Identity {
    (Strip(a.adapterId), Strip(a.adapterVersion))
  }

  /** Everything `register` demands of an adapter on its own. */
  predicate IsAdmissible(a: Adapter) {
    && Strip(a.backendId) != "" && Strip(a.adapterId) != "" && Strip(a.adapterVersion) != ""
    && a.manifest.Ok? && a.hasRequiredMethods
    && var m := a.manifest.value;
       && m.toolAdapter == Strip(a.adapterId) && m.toolAdapterVersion == Strip(a.adapterVersion)
       && Strip(m.guaranteeType) != "" && m.supportedDomains != [] && m.supportedPropertyKinds != [] && m.schemaValid
  }

  /** The three fields of the registry, as a value. */
  datatype State = State(byBackend: map<string, Adapter>, adapterKeys: set<Identity>, order: seq<string>)

  const EMPTY := State(map[], {}, [])

  predicate Accepts(s: State, a: Adapter) {
    IsAdmissible(a) && Strip(a.backendId) !in s.byBackend && IdentityOf(a) !in s.adapterKeys
  }

  /** A rejected registration changes nothing. */
  function Registered(s: State, a: Adapter): State {
    if !Accepts(s, a) then s
    else State(s.byBackend[Strip(a.backendId) := a], s.adapterKeys + {IdentityOf(a)}, s.order + [Strip(a.backendId)])
  }

  /** The state after a whole run of accepted and rejected registrations. */
  function AfterRun(adapters: seq<Adapter>): State {
    if adapters == [] then EMPTY else Registered(AfterRun(adapters[..|adapters| - 1]), adapters[|adapters| - 1])
  }

  /** `order` enumerates `byBackend` without repetition, every adapter sits under its own
      backend id, and no two share an identity. */
  ghost predicate Consistent(s: State) {
    && Distinct(s.order)
    && (forall b :: b in s.order <==> b in s.byBackend)
    && (forall b :: b in s.byBackend ==> IsAdmissible(s.byBackend[b]) && Strip(s.byBackend[b].backendId) == b)
    && (forall b :: b in s.byBackend ==> IdentityOf(s.byBackend[b]) in s.adapterKeys)
    && (forall k :: k in s.adapterKeys ==> exists b :: b in s.byBackend && IdentityOf(s.byBackend[b]) == k)
    && (forall a, b :: a in s.byBackend && b in s.byBackend && a != b ==>
      IdentityOf(s.byBackend[a]) != IdentityOf(s.byBackend[b]))
  }

  lemma RegisteredConsistent(s: State, a: Adapter)
    requires Consistent(s)
    ensures Consistent(Registered(s, a))
  {
    hide IsAdmissible, IdentityOf, Strip, Distinct;
    if Accepts(s, a) {
      DistinctSnoc(s.order, Strip(a.backendId));
      KeysOwned(s, a);
    }
  }

  /** Every recorded identity still has its adapter. */
  lemma KeysOwned(s: State, a: Adapter)
    requires Consistent(s) && Accepts(s, a)
    ensures var t := Registered(s, a);
      forall k :: k in t.adapterKeys ==> exists b :: b in t.byBackend && IdentityOf(t.byBackend[b]) == k
  {
    hide IsAdmissible, IdentityOf, Strip, Distinct;
    var t := Registered(s, a);
    forall k | k in t.adapterKeys ensures exists b :: b in t.byBackend && IdentityOf(t.byBackend[b]) == k {
      if k in s.adapterKeys {
        var b :| b in s.byBackend && IdentityOf(s.byBackend[b]) == k;
        assert b in t.byBackend && t.byBackend[b] == s.byBackend[b];
      } else {
        assert t.byBackend[Strip(a.backendId)] == a;
      }
    }
  }

  /** The registry is consistent after every run of registrations, accepted or not. */
  lemma {:induction false} RunConsistent(adapters: seq<Adapter>)
    ensures Consistent(AfterRun(adapters))
  {
    if adapters != [] {
      RunConsistent(adapters[..|adapters| - 1]);
      RegisteredConsistent(AfterRun(adapters[..|adapters| - 1]), adapters[|adapters| - 1]);
    }
  }

  /** Descending score, then ascending backend id. */
  predicate AssessmentLe(a: Assessment, b: Assessment) {
    a.score > b.score || (a.score == b.score && StrLe(a.backend, b.backend))
  }

  lemma AssessmentOrder()
    ensures TotalPreorder(AssessmentLe)
  {
    StrIsTotalOrder();
  }

  /** An adapter that raises, or answers for another backend, spoils the whole query. */
  predicate Spoils(a: Adapter, obligation: Obligation) {
    var r := a.canHandle(obligation);
    r.Raised? || r.value.backend != a.backendId
  }

  /** `r` arranges the assessments of every registered adapter by score, then backend. */
  ghost predicate IsArrangement(r: seq<Assessment>, byBackend: map<string, Adapter>, obligation: Obligation) {
    && Sorted(AssessmentLe, r) && Distinct(r)
    && forall x :: x in r <==> exists b :: b in byBackend && byBackend[b].canHandle(obligation) == Ok(x)
  }

  /** There is at most one arrangement, so the answer cannot depend on registration order. */
  lemma ArrangementUnique(r: seq<Assessment>, t: seq<Assessment>, s: State, obligation: Obligation)
    requires Consistent(s)
    requires forall b :: b in s.byBackend ==> !Spoils(s.byBackend[b], obligation)
    requires IsArrangement(r, s.byBackend, obligation) && IsArrangement(t, s.byBackend, obligation)
    ensures r == t
  {
    hide IsAdmissible, IdentityOf, Strip, StrLe;
    AssessmentOrder();
    StrIsTotalOrder();
    DistinctSameMembers(r, t);
    forall x, y | x in r && y in r && AssessmentLe(x, y) && AssessmentLe(y, x) ensures x == y {
      var a :| a in s.byBackend && s.byBackend[a].canHandle(obligation) == Ok(x);
      var b :| b in s.byBackend && s.byBackend[b].canHandle(obligation) == Ok(y);
      assert a == b;
    }
    SortedUnique(AssessmentLe, r, t);
  }

  class Registry {
    var byBackend: map<string, Adapter>
    var adapterKeys: set<Identity>
    var order: seq<string>

    function Value(): State
      reads this
    {
      State(byBackend, adapterKeys, order)
    }

    constructor ()
      ensures Value() == EMPTY
    {
      byBackend, adapterKeys, order := map[], {}, [];
    }

    method Register(a: Adapter) returns (r: Result<()>)
      modifies this
      ensures r.Ok? <==> Accepts(old(Value()), a)
      ensures Value() == Registered(old(Value()), a)
    {
      var backendId, adapterId, adapterVersion := Strip(a.backendId), Strip(a.adapterId), Strip(a.adapterVersion);
      if backendId == "" || adapterId == "" || adapterVersion == "" {
        return Raised;
      }
      if backendId in byBackend {
        return Raised;
      }
      var key := (adapterId, adapterVersion);
      if key in adapterKeys {
        return Raised;
      }
      var manifest :- a.manifest;
      if manifest.toolAdapter != adapterId {
        return Raised;
      }
      if manifest.toolAdapterVersion != adapterVersion {
        return Raised;
      }
      if Strip(manifest.guaranteeType) == "" {
        return Raised;
      }
      if manifest.supportedDomains == [] {
        return Raised;
      }
      if manifest.supportedPropertyKinds == [] {
        return Raised;
      }
      if !manifest.schemaValid {
        return Raised;
      }
      if !a.hasRequiredMethods {
        return Raised;
      }
      byBackend := byBackend[backendId := a];
      adapterKeys := adapterKeys + {key};
      order := order + [backendId];
      r := Ok(());
    }

    /** Adapters in registration order. */
    function All(): (r: seq<Adapter>)
      requires Consistent(Value())
      reads this
      ensures |r| == |order| && forall i :: 0 <= i < |r| ==> r[i] == byBackend[order[i]]
    {
      seq(|order|, i requires 0 <= i < |order| reads this requires order[i] in byBackend => byBackend[order[i]])
    }

    method Candidates(obligation: Obligation) returns (r: Result<seq<Assessment>>)
      requires Consistent(Value())
      ensures r.Raised? <==> exists b :: b in byBackend && Spoils(byBackend[b], obligation)
      ensures r.Ok? ==> IsArrangement(r.value, byBackend, obligation)
    {
      hide Consistent, StrLe, AssessmentLe, SortBy, IsArrangement;
      var assessments: seq<Assessment> := [];
      var adapters := All();
      for i := 0 to |adapters|
        invariant |assessments| == i
        invariant forall j :: 0 <= j < i ==> adapters[j].canHandle(obligation) == Ok(assessments[j])
        invariant forall j :: 0 <= j < i ==> assessments[j].backend == adapters[j].backendId
      {
        var answer := adapters[i].canHandle(obligation);
        if answer.Raised? {
          SpoiledBy(Value(), i, obligation);
          return Raised;
        }
        if answer.value.backend != adapters[i].backendId {
          SpoiledBy(Value(), i, obligation);
          return Raised;
        }
        assessments := assessments + [answer.value];
      }
      r := Ok(SortBy(AssessmentLe, assessments));
      ArrangementOf(Value(), adapters, assessments, obligation);
    }
  }

  lemma SpoiledBy(s: State, i: nat, obligation: Obligation)
    requires Consistent(s) && i < |s.order|
    ensures s.order[i] in s.byBackend
    ensures Spoils(s.byBackend[s.order[i]], obligation) ==>
      exists b :: b in s.byBackend && Spoils(s.byBackend[b], obligation)
  {
    hide IsAdmissible, IdentityOf, Strip, Spoils;
    assert s.order[i] in s.order;
  }

  lemma ArrangementOf(s: State, adapters: seq<Adapter>, assessments: seq<Assessment>, obligation: Obligation)
    requires Consistent(s) && |adapters| == |assessments| == |s.order|
    requires forall j :: 0 <= j < |adapters| ==> adapters[j] == s.byBackend[s.order[j]]
    requires forall j :: 0 <= j < |adapters| ==> adapters[j].canHandle(obligation) == Ok(assessments[j])
    requires forall j :: 0 <= j < |adapters| ==> assessments[j].backend == adapters[j].backendId
    ensures IsArrangement(SortBy(AssessmentLe, assessments), s.byBackend, obligation)
    ensures forall b :: b in s.byBackend ==> !Spoils(s.byBackend[b], obligation)
  {
    hide IsAdmissible, IdentityOf, Strip, StrLe, AssessmentLe, SortBy;
    AssessmentOrder();
    SortBySorted(AssessmentLe, assessments);
    DistinctAssessments(s, adapters, assessments);
    SortKeepsDistinct(AssessmentLe, assessments);
    AssessmentsOfAll(s, adapters, assessments, obligation);
  }

  /** Each adapter answered, and nothing else did. */
  lemma AssessmentsOfAll(s: State, adapters: seq<Adapter>, assessments: seq<Assessment>, obligation: Obligation)
    requires Consistent(s) && |adapters| == |assessments| == |s.order|
    requires forall j :: 0 <= j < |adapters| ==> adapters[j] == s.byBackend[s.order[j]]
    requires forall j :: 0 <= j < |adapters| ==> adapters[j].canHandle(obligation) == Ok(assessments[j])
    requires forall j :: 0 <= j < |adapters| ==> assessments[j].backend == adapters[j].backendId
    ensures forall x :: x in assessments <==>
      exists b :: b in s.byBackend && s.byBackend[b].canHandle(obligation) == Ok(x)
    ensures forall b :: b in s.byBackend ==> !Spoils(s.byBackend[b], obligation)
  {
    hide IsAdmissible, IdentityOf, Strip;
    forall b | b in s.byBackend
      ensures !Spoils(s.byBackend[b], obligation) && s.byBackend[b].canHandle(obligation).value in assessments
    {
      var i :| 0 <= i < |s.order| && s.order[i] == b;
      assert adapters[i] == s.byBackend[b];
      assert assessments[i] in assessments;
    }
    forall x | x in assessments ensures exists b :: b in s.byBackend && s.byBackend[b].canHandle(obligation) == Ok(x) {
      var i :| 0 <= i < |assessments| && assessments[i] == x;
      assert s.order[i] in s.order && adapters[i] == s.byBackend[s.order[i]];
    }
  }

  lemma DistinctAssessments(s: State, adapters: seq<Adapter>, assessments: seq<Assessment>)
    requires Consistent(s) && |adapters| == |assessments| == |s.order|
    requires forall j :: 0 <= j < |adapters| ==> adapters[j] == s.byBackend[s.order[j]]
    requires forall j :: 0 <= j < |adapters| ==> assessments[j].backend == adapters[j].backendId
    ensures Distinct(assessments)
  {
    hide IsAdmissible, IdentityOf, Strip;
    forall i, j | 0 <= i < j < |assessments| ensures assessments[i] != assessments[j] {
      assert s.order[i] in s.order && s.order[j] in s.order && s.order[i] != s.order[j];
      assert Strip(adapters[i].backendId) == s.order[i] && Strip(adapters[j].backendId) == s.order[j];
    }
  }

  // ----------------------------------------------------------- what a run admits

  /** What an adapter must bring to be registered, and what the registry must not hold yet. */
  lemma AcceptsExactly(s: State, a: Adapter)
    ensures Accepts(s, a) <==>
      && Strip(a.backendId) != "" && Strip(a.adapterId) != "" && Strip(a.adapterVersion) != ""
      && Strip(a.backendId) !in s.byBackend && (Strip(a.adapterId), Strip(a.adapterVersion)) !in s.adapterKeys
      && a.manifest.Ok? && a.hasRequiredMethods
      && a.manifest.value.toolAdapter == Strip(a.adapterId)
      && a.manifest.value.toolAdapterVersion == Strip(a.adapterVersion)
      && Strip(a.manifest.value.guaranteeType) != "" && a.manifest.value.schemaValid
      && a.manifest.value.supportedDomains != [] && a.manifest.value.supportedPropertyKinds != []
  {
    hide Strip;
  }

  /** The first admissible adapter of a backend stays: over a run, nothing registered is replaced,
      and the order only grows. */
  lemma {:induction false} RunKeeps(adapters: seq<Adapter>, i: nat, b: string)
    requires i <= |adapters| && b in AfterRun(adapters[..i]).byBackend
    ensures b in AfterRun(adapters).byBackend
    ensures AfterRun(adapters).byBackend[b] == AfterRun(adapters[..i]).byBackend[b]
    ensures AfterRun(adapters[..i]).order <= AfterRun(adapters).order
    decreases |adapters|
  {
    hide Strip, IsAdmissible, IdentityOf;
    if i < |adapters| {
      var front := adapters[..|adapters| - 1];
      assert front[..i] == adapters[..i];
      RunKeeps(front, i, b);
    } else {
      assert adapters[..i] == adapters;
    }
  }

  /** Over a run, the adapter of a backend is one of the offered ones, accepted when it was offered. */
  lemma {:induction false} RunOrigin(adapters: seq<Adapter>, b: string) returns (i: nat)
    requires b in AfterRun(adapters).byBackend
    ensures i < |adapters| && Strip(adapters[i].backendId) == b && Accepts(AfterRun(adapters[..i]), adapters[i])
    ensures AfterRun(adapters).byBackend[b] == adapters[i]
  {
    hide Strip, IsAdmissible, IdentityOf;
    var n := |adapters| - 1;
    var front := adapters[..n];
    if b in AfterRun(front).byBackend {
      i := RunOrigin(front, b);
      assert front[i] == adapters[i] && front[..i] == adapters[..i];
    } else {
      i := n;
    }
  }

  /** And what is accepted when it is offered stays registered. */
  lemma AcceptedStays(adapters: seq<Adapter>, i: nat)
    requires i < |adapters| && Accepts(AfterRun(adapters[..i]), adapters[i])
    ensures var b := Strip(adapters[i].backendId);
      b in AfterRun(adapters).byBackend && AfterRun(adapters).byBackend[b] == adapters[i]
  {
    hide Strip, IsAdmissible, IdentityOf;
    assert adapters[..i + 1][..i] == adapters[..i];
    RunKeeps(adapters, i + 1, Strip(adapters[i].backendId));
  }

  /** Candidates come by descending score, and by backend among equal scores. */
  lemma ArrangedExactly(r: seq<Assessment>, byBackend: map<string, Adapter>, obligation: Obligation, i: nat, j: nat)
    requires IsArrangement(r, byBackend, obligation) && i < j < |r|
    ensures r[i].score > r[j].score || (r[i].score == r[j].score && StrLe(r[i].backend, r[j].backend))
    ensures r[i] != r[j]
  {
  }
}
