/** What an impact reports, list by list, read off the revision graphs
    (ovk/core/contract_impact.py). */
module ImpactSurfaces {
  import opened Ordering
  import opened Text
  import opened ContractImpact
  import opened Incremental

  // ------------------------------------------------------- reading a revision

  ghost predicate IsName(ir: AssuranceIR, n: string) {
    exists c :: c in ir.functionContracts && c.qualifiedName == n
  }

  /** The name is asked for, up to surrounding space. */
  ghost predicate IsAsked(names: seq<string>, s: string) {
    s != "" && exists n :: n in names && Strip(n) == s
  }

  /** The contract that comes last under its name. */
  ghost predicate IsLastContract(ir: AssuranceIR, c: FunctionContract) {
    IsLast((d: FunctionContract) => d.qualifiedName, ir.functionContracts, c)
  }

  /** The path that comes last under its id. */
  ghost predicate IsLastPath(ir: AssuranceIR, p: SemanticPath) {
    IsLast((q: SemanticPath) => q.pathId, ir.paths, p)
  }

  /** A use of one of the contracts. */
  ghost predicate UseOn(ir: AssuranceIR, contracts: set<string>, id: string) {
    exists u :: u in ir.contractUses && u.useId == id && u.qualifiedName in contracts
  }

  /** A path that lists such a use. */
  ghost predicate PathOn(ir: AssuranceIR, contracts: set<string>, id: string) {
    exists p, u :: p in ir.paths && p.pathId == id && u in p.contractUseIds && UseOn(ir, contracts, u)
  }

  /** An effect, or a binding, of the last path under such a path's id. */
  ghost predicate EffectOn(ir: AssuranceIR, contracts: set<string>, e: string) {
    exists p :: IsLastPath(ir, p) && e in p.protectedEffectIds && PathOn(ir, contracts, p.pathId)
  }

  ghost predicate BindingOn(ir: AssuranceIR, contracts: set<string>, b: string) {
    exists p :: IsLastPath(ir, p) && b in p.bindingIds && PathOn(ir, contracts, p.pathId)
  }

  lemma {:induction false} LastPath(paths: seq<SemanticPath>, p: SemanticPath)
    ensures IsLast((q: SemanticPath) => q.pathId, paths, p) <==>
      p.pathId in PathsById(paths) && PathsById(paths)[p.pathId] == p
  {
    hide IsLast;
    if paths == [] {
      NothingLast((q: SemanticPath) => q.pathId, p);
    } else {
      var n := |paths| - 1;
      assert paths == paths[..n] + [paths[n]];
      PathsSnoc(paths[..n], paths[n]);
      hide *;
      LastPath(paths[..n], p);
      LastSnoc((q: SemanticPath) => q.pathId, paths[..n], paths[n], p);
    }
  }

  lemma PathsSnoc(front: seq<SemanticPath>, last: SemanticPath)
    ensures PathsById(front + [last]) == PathsById(front)[last.pathId := last]
  {
    assert (front + [last])[..|front|] == front;
  }

  lemma ContractsSnoc(front: seq<FunctionContract>, last: FunctionContract)
    ensures ContractsByName(front + [last]) == ContractsByName(front)[last.qualifiedName := last]
  {
    assert (front + [last])[..|front|] == front;
  }

  lemma {:induction false} LastContract(contracts: seq<FunctionContract>, c: FunctionContract)
    ensures IsLast((d: FunctionContract) => d.qualifiedName, contracts, c) <==>
      c.qualifiedName in ContractsByName(contracts) && ContractsByName(contracts)[c.qualifiedName] == c
  {
    hide IsLast;
    if contracts == [] {
      NothingLast((d: FunctionContract) => d.qualifiedName, c);
    } else {
      var n := |contracts| - 1;
      assert contracts == contracts[..n] + [contracts[n]];
      ContractsSnoc(contracts[..n], contracts[n]);
      hide *;
      LastContract(contracts[..n], c);
      LastSnoc((d: FunctionContract) => d.qualifiedName, contracts[..n], contracts[n], c);
    }
  }

  // ------------------------------------------------------ the impact of names

  /** The contracts with an asked name in their cone. */
  ghost function Hit(ir: AssuranceIR, names: seq<string>): set<string> {
    set n | n in Known(ir) && exists s :: IsAsked(names, s) && IsName(ir, s) && InCone(ir, n, s)
  }

  /** The impact of a change of names, exactly, list by list. */
  lemma ImpactExactly(ir: AssuranceIR, names: seq<string>, x: string)
    ensures var r, hit := ImpactOf(ir, names), Hit(ir, names);
      && (x in r.seedContracts <==> IsAsked(names, x))
      && (x in r.unresolvedSeeds <==> IsAsked(names, x) && !IsName(ir, x))
      && (x in r.affectedContracts <==> x in hit)
      && (x in r.affectedContractUses <==> UseOn(ir, hit, x))
      && (x in r.affectedPaths <==> PathOn(ir, hit, x))
      && (x in r.affectedProtectedEffects <==> EffectOn(ir, hit, x))
      && (x in r.affectedBindings <==> BindingOn(ir, hit, x))
  {
    hide IsName, IsAsked, UseOn, PathOn, EffectOn, BindingOn, Hit;
    hide Normalized, Known, Closure, AffectedUses, AffectedPaths, EffectsOf, BindingsOf, PathsById, SortedSet;
    AskedAre(names, x);
    NamesAre(ir, x);
    ClosureIsHit(ir, names);
    SurfacesAre(ir, Hit(ir, names), x);
  }

  lemma ClosureIsHit(ir: AssuranceIR, names: seq<string>)
    ensures Closure(ir, Normalized(names)) == Hit(ir, names)
  {
    hide IsName, IsAsked, InCone, Normalized;
    forall s ensures s in Normalized(names) <==> IsAsked(names, s) { AskedAre(names, s); }
    forall s ensures s in Known(ir) <==> IsName(ir, s) { NamesAre(ir, s); }
  }

  lemma AskedAre(names: seq<string>, s: string)
    ensures s in Normalized(names) <==> IsAsked(names, s)
  {
  }

  lemma NamesAre(ir: AssuranceIR, s: string)
    ensures s in Known(ir) <==> IsName(ir, s)
  {
  }

  lemma SurfacesAre(ir: AssuranceIR, contracts: set<string>, x: string)
    ensures var uses := AffectedUses(ir, contracts);
      var paths := AffectedPaths(ir, uses);
      && (x in uses <==> UseOn(ir, contracts, x))
      && (x in paths <==> PathOn(ir, contracts, x))
      && (x in EffectsOf(PathsById(ir.paths), paths) <==> EffectOn(ir, contracts, x))
      && (x in BindingsOf(PathsById(ir.paths), paths) <==> BindingOn(ir, contracts, x))
  {
    hide PathsById, IsLast, PathOn, UseOn, AffectedPaths, AffectedUses;
    var byId, paths := PathsById(ir.paths), AffectedPaths(ir, AffectedUses(ir, contracts));
    UsesAre(ir, contracts, x);
    forall id ensures id in paths <==> PathOn(ir, contracts, id) { PathsAre(ir, contracts, id); }
    forall p ensures IsLastPath(ir, p) <==> p.pathId in byId && byId[p.pathId] == p { LastPath(ir.paths, p); }
    assert forall id :: id in byId ==> byId[id].pathId == id;
  }

  lemma UsesAre(ir: AssuranceIR, contracts: set<string>, id: string)
    ensures id in AffectedUses(ir, contracts) <==> UseOn(ir, contracts, id)
  {
  }

  lemma PathsAre(ir: AssuranceIR, contracts: set<string>, id: string)
    ensures id in AffectedPaths(ir, AffectedUses(ir, contracts)) <==> PathOn(ir, contracts, id)
  {
    hide UseOn, AffectedUses;
    forall u ensures u in AffectedUses(ir, contracts) <==> UseOn(ir, contracts, u) { UsesAre(ir, contracts, u); }
  }

  // -------------------------------------------------- the merge of two revisions

  /** The delta, exactly: the last contracts of each name are compared. */
  lemma DeltaExactly(base: AssuranceIR, head: AssuranceIR, n: string)
    ensures var delta := DeltaImpactOf(base, head).delta;
      && (n in delta.added <==> IsName(head, n) && !IsName(base, n))
      && (n in delta.removed <==> IsName(base, n) && !IsName(head, n))
      && (n in delta.versionChanged <==> exists b, h ::
            && IsLastContract(base, b) && IsLastContract(head, h)
            && b.qualifiedName == h.qualifiedName == n && b.contractId != h.contractId)
  {
    NamesAre(base, n);
    NamesAre(head, n);
    VersionsCompared(base, head, n);
    DiffMembers(base, head, n);
    hide DiffFunctionContracts, IsLastContract, IsName, Known, ImpactOf, ChangedContracts, SortedSet;
  }

  lemma DiffMembers(base: AssuranceIR, head: AssuranceIR, n: string)
    ensures var before, after := ContractsByName(base.functionContracts), ContractsByName(head.functionContracts);
      var delta := DiffFunctionContracts(base, head);
      && (n in delta.added <==> n in Known(head) && n !in Known(base))
      && (n in delta.removed <==> n in Known(base) && n !in Known(head))
      && (n in delta.versionChanged <==>
          n in before && n in after && before[n].contractId != after[n].contractId)
  {
    hide ContractsByName;
    assert ContractsByName(base.functionContracts).Keys == Known(base);
    assert ContractsByName(head.functionContracts).Keys == Known(head);
    hide Known;
  }

  lemma VersionsCompared(base: AssuranceIR, head: AssuranceIR, n: string)
    ensures var before, after := ContractsByName(base.functionContracts), ContractsByName(head.functionContracts);
      (n in before && n in after && before[n].contractId != after[n].contractId) <==> exists b, h ::
        && IsLastContract(base, b) && IsLastContract(head, h)
        && b.qualifiedName == h.qualifiedName == n && b.contractId != h.contractId
  {
    hide ContractsByName, IsLast;
    var before, after := ContractsByName(base.functionContracts), ContractsByName(head.functionContracts);
    forall c ensures IsLastContract(base, c) <==> c.qualifiedName in before && before[c.qualifiedName] == c {
      LastContract(base.functionContracts, c);
    }
    forall c ensures IsLastContract(head, c) <==> c.qualifiedName in after && after[c.qualifiedName] == c {
      LastContract(head.functionContracts, c);
    }
    hide IsLastContract;
  }

  /** A change is visible exactly when the delta holds the name. */
  lemma VisibleExactly(base: AssuranceIR, head: AssuranceIR, n: string)
    ensures var delta := DeltaImpactOf(base, head).delta;
      Visible(base, head, n) <==> n in delta.added || n in delta.removed || n in delta.versionChanged
  {
    hide ImpactOf, Visible;
    ChangedByName(base, head, n);
  }

  /** Each merged list holds what either revision reports, sorted and once. */
  lemma MergedExactly(base: AssuranceIR, head: AssuranceIR, x: string)
    ensures var r := DeltaImpactOf(base, head);
      && (x in r.affectedContracts <==> x in r.base.affectedContracts || x in r.head.affectedContracts)
      && (x in r.affectedContractUses <==> x in r.base.affectedContractUses || x in r.head.affectedContractUses)
      && (x in r.affectedPaths <==> x in r.base.affectedPaths || x in r.head.affectedPaths)
      && (x in r.affectedProtectedEffects <==>
          x in r.base.affectedProtectedEffects || x in r.head.affectedProtectedEffects)
      && (x in r.affectedBindings <==> x in r.base.affectedBindings || x in r.head.affectedBindings)
  {
    hide ImpactOf, DiffFunctionContracts, ChangedContracts, SortedSet;
  }

  ghost predicate SortedOnce(s: seq<string>) {
    Sorted(StrLe, s) && Distinct(s)
  }

  lemma MergedSorted(base: AssuranceIR, head: AssuranceIR)
    ensures var r := DeltaImpactOf(base, head);
      && SortedOnce(r.delta.added) && SortedOnce(r.delta.removed) && SortedOnce(r.delta.versionChanged)
      && SortedOnce(r.affectedContracts) && SortedOnce(r.affectedContractUses) && SortedOnce(r.affectedPaths)
      && SortedOnce(r.affectedProtectedEffects) && SortedOnce(r.affectedBindings)
  {
    hide ImpactOf, ChangedContracts, StrLe;
  }

  /** The contracts of a revision with a visible change in their cone. */
  ghost function Invalidated(ir: AssuranceIR, base: AssuranceIR, head: AssuranceIR): set<string> {
    set n | n in Known(ir) && SeesVisible(ir, base, head, n)
  }

  lemma HitIsInvalidated(ir: AssuranceIR, base: AssuranceIR, head: AssuranceIR)
    requires WellFormed(base) && WellFormed(head)
    ensures Hit(ir, ChangedContracts(DiffFunctionContracts(base, head))) == Invalidated(ir, base, head)
  {
    hide IsAsked, IsName, Visible, InCone, WellFormed, DiffFunctionContracts, ChangedContracts;
    var names := ChangedContracts(DiffFunctionContracts(base, head));
    forall s ensures IsAsked(names, s) <==> Visible(base, head, s) {
      AskedAre(names, s);
      SeedsAreVisible(base, head, s);
    }
    forall s ensures s in Known(ir) <==> IsName(ir, s) { NamesAre(ir, s); }
  }

  /** What is reported for re-verification, exactly: a contract, use, path, effect or binding that in
      base or in head hangs on a contract with a visible change in its cone. */
  lemma ReportedExactly(base: AssuranceIR, head: AssuranceIR, x: string)
    requires WellFormed(base) && WellFormed(head)
    ensures var r := DeltaImpactOf(base, head);
      var b, h := Invalidated(base, base, head), Invalidated(head, base, head);
      && (x in r.affectedContracts <==> x in b || x in h)
      && (x in r.affectedContractUses <==> UseOn(base, b, x) || UseOn(head, h, x))
      && (x in r.affectedPaths <==> PathOn(base, b, x) || PathOn(head, h, x))
      && (x in r.affectedProtectedEffects <==> EffectOn(base, b, x) || EffectOn(head, h, x))
      && (x in r.affectedBindings <==> BindingOn(base, b, x) || BindingOn(head, h, x))
  {
    var changed := ChangedContracts(DiffFunctionContracts(base, head));
    assert DeltaImpactOf(base, head).base == ImpactOf(base, changed);
    assert DeltaImpactOf(base, head).head == ImpactOf(head, changed);
    hide *;
    MergedExactly(base, head, x);
    HitIsInvalidated(base, base, head);
    HitIsInvalidated(head, base, head);
    ImpactExactly(base, changed, x);
    ImpactExactly(head, changed, x);
  }
}
