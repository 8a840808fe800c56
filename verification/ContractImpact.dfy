/** Incremental impact analysis over function contracts (ovk/core/contract_impact.py). */
module ContractImpact {
  import opened Ordering
  import opened Text

  datatype FunctionContract = FunctionContract(contractId: string, qualifiedName: string, dependsOn: seq<string>)

  datatype ContractUse = ContractUse(useId: string, qualifiedName: string)

  datatype SemanticPath = SemanticPath(
    pathId: string, protectedEffectIds: seq<string>, bindingIds: seq<string>, contractUseIds: seq<string>)

  datatype AssuranceIR = AssuranceIR(
    functionContracts: seq<FunctionContract>, contractUses: seq<ContractUse>, paths: seq<SemanticPath>)

  datatype Impact = Impact(
    seedContracts: seq<string>, unresolvedSeeds: seq<string>, affectedContracts: seq<string>,
    affectedContractUses: seq<string>, affectedPaths: seq<string>,
    affectedProtectedEffects: seq<string>, affectedBindings: seq<string>)

  datatype Delta = Delta(added: seq<string>, removed: seq<string>, versionChanged: seq<string>)

  datatype DeltaImpact = DeltaImpact(
    delta: Delta, base: Impact, head: Impact, affectedContracts: seq<string>,
    affectedContractUses: seq<string>, affectedPaths: seq<string>,
    affectedProtectedEffects: seq<string>, affectedBindings: seq<string>)

  // ------------------------------------------------------------ the two graphs

  /** The stable names of a revision. */
  function Known(ir: AssuranceIR): set<string> {
    set c | c in ir.functionContracts :: c.qualifiedName
  }

  /** `name` is a contract of the revision and lists `dependency`. */
  ghost predicate DependsOn(ir: AssuranceIR, name: string, dependency: string) {
    exists c :: c in ir.functionContracts && c.qualifiedName == name && dependency in c.dependsOn
  }

  ghost predicate IsChain(ir: AssuranceIR, p: seq<string>) {
    p != [] && forall i :: 0 <= i < |p| - 1 ==> DependsOn(ir, p[i], p[i + 1])
  }

  /** `to` is in the transitive dependency cone of `from` (which it contains). */
  ghost predicate InCone(ir: AssuranceIR, from: string, to: string) {
    exists p :: IsChain(ir, p) && p[0] == from && p[|p| - 1] == to
  }

  /** The names invalidated by a change of `seeds`, read off the graph itself. */
  ghost function Closure(ir: AssuranceIR, seeds: set<string>): set<string> {
    set n | n in Known(ir) && exists s :: s in seeds && s in Known(ir) && InCone(ir, n, s)
  }

  lemma ConeReflexive(ir: AssuranceIR, n: string)
    ensures InCone(ir, n, n)
  {
    assert IsChain(ir, [n]) && [n][0] == n;
  }

  lemma ConeExtend(ir: AssuranceIR, a: string, b: string, c: string)
    requires DependsOn(ir, a, b) && InCone(ir, b, c)
    ensures InCone(ir, a, c)
  {
    var p :| IsChain(ir, p) && p[0] == b && p[|p| - 1] == c;
    var q := [a] + p;
    assert IsChain(ir, q) && q[0] == a && q[|q| - 1] == c;
  }

  lemma {:induction false} ConeTransitive(ir: AssuranceIR, a: string, b: string, c: string)
    requires InCone(ir, a, b) && InCone(ir, b, c)
    ensures InCone(ir, a, c)
  {
    var p :| IsChain(ir, p) && p[0] == a && p[|p| - 1] == b;
    var q :| IsChain(ir, q) && q[0] == b && q[|q| - 1] == c;
    var r := p + q[1..];
    forall i | 0 <= i < |r| - 1 ensures DependsOn(ir, r[i], r[i + 1]) {
      if i < |p| - 1 {
        assert DependsOn(ir, p[i], p[i + 1]);
      } else {
        assert r[i] == q[i - |p| + 1] && r[i + 1] == q[i - |p| + 2];
      }
    }
    assert IsChain(ir, r) && r[0] == a && r[|r| - 1] == c;
  }

  // ------------------------------------------------------------- the worklist

  function DirectDependents(ir: AssuranceIR, dependency: string): set<string> {
    DependentsIn(ir.functionContracts, dependency)
  }

  function DependentsIn(contracts: seq<FunctionContract>, dependency: string): set<string> {
    set c | c in contracts && dependency in c.dependsOn :: c.qualifiedName
  }

  /** `dependency` is the name of a contract or listed by one. */
  predicate Mentioned(contracts: seq<FunctionContract>, dependency: string) {
    exists c :: c in contracts && (c.qualifiedName == dependency || dependency in c.dependsOn)
  }

  function Entry(m: map<string, set<string>>, key: string): set<string> {
    if key in m then m[key] else {}
  }

  lemma DependentsSnoc(contracts: seq<FunctionContract>, c: FunctionContract, d: string)
    ensures DependentsIn(contracts + [c], d)
         == DependentsIn(contracts, d) + (if d in c.dependsOn then {c.qualifiedName} else {})
    ensures Mentioned(contracts + [c], d)
       <==> Mentioned(contracts, d) || d == c.qualifiedName || d in c.dependsOn
  {
  }

  /** One pass of the outer loop: `setdefault` for the name, then for each dependency. */
  method AddContract(reverse: map<string, set<string>>, c: FunctionContract) returns (r: map<string, set<string>>)
    ensures forall d :: d in r <==> d in reverse || d == c.qualifiedName || d in c.dependsOn
    ensures forall d :: Entry(r, d) == Entry(reverse, d) + (if d in c.dependsOn then {c.qualifiedName} else {})
  {
    r := reverse[c.qualifiedName := Entry(reverse, c.qualifiedName)];
    for j := 0 to |c.dependsOn|
      invariant forall d :: d in r <==> d in reverse || d == c.qualifiedName || d in c.dependsOn[..j]
      invariant forall d :: Entry(r, d) == Entry(reverse, d) + (if d in c.dependsOn[..j] then {c.qualifiedName} else {})
    {
      assert c.dependsOn[..j + 1] == c.dependsOn[..j] + [c.dependsOn[j]];
      r := r[c.dependsOn[j] := Entry(r, c.dependsOn[j]) + {c.qualifiedName}];
    }
    assert c.dependsOn[..|c.dependsOn|] == c.dependsOn;
  }

  method ReverseDependencies(ir: AssuranceIR) returns (reverse: map<string, set<string>>)
    ensures forall d :: d in reverse <==> Mentioned(ir.functionContracts, d)
    ensures forall d :: Entry(reverse, d) == DirectDependents(ir, d)
  {
    var contracts := ir.functionContracts;
    reverse := map[];
    for i := 0 to |contracts|
      invariant forall d :: d in reverse <==> Mentioned(contracts[..i], d)
      invariant forall d :: Entry(reverse, d) == DependentsIn(contracts[..i], d)
    {
      assert contracts[..i + 1] == contracts[..i] + [contracts[i]];
      forall d ensures
        && DependentsIn(contracts[..i + 1], d) ==
           DependentsIn(contracts[..i], d) + (if d in contracts[i].dependsOn then {contracts[i].qualifiedName} else {})
        && (Mentioned(contracts[..i + 1], d)
          <==> Mentioned(contracts[..i], d) || d == contracts[i].qualifiedName || d in contracts[i].dependsOn)
      {
        DependentsSnoc(contracts[..i], contracts[i], d);
      }
      reverse := AddContract(reverse, contracts[i]);
    }
    assert contracts[..|contracts|] == contracts;
  }

  /** Every processed name has its direct dependents in `affected`. */
  ghost predicate Expanded(ir: AssuranceIR, affected: set<string>, frontier: seq<string>) {
    forall d :: d in affected && d !in frontier ==> DirectDependents(ir, d) <= affected
  }

  /** `{seed.strip() for seed in seeds if seed.strip()}` */
  function Normalized(seeds: seq<string>): set<string> {
    set s | s in seeds && Strip(s) != "" :: Strip(s)
  }

  /** The inner loop: names not yet affected are added and queued. */
  method Enqueue(dependents: seq<string>, affected: set<string>, frontier: seq<string>)
    returns (affected': set<string>, frontier': seq<string>)
    ensures forall n :: n in affected' <==> n in affected || n in dependents
    ensures forall n :: n in frontier' <==> n in frontier || (n in dependents && n !in affected)
    ensures affected' == affected ==> frontier' == frontier
  {
    affected', frontier' := affected, frontier;
    for i := 0 to |dependents|
      invariant forall n :: n in affected' <==> n in affected || n in dependents[..i]
      invariant forall n :: n in frontier' <==> n in frontier || (n in dependents[..i] && n !in affected)
      invariant affected' == affected ==> frontier' == frontier
    {
      if dependents[i] !in affected' {
        affected' := affected' + {dependents[i]};
        frontier' := frontier' + [dependents[i]];
        assert dependents[i] in affected';
      }
    }
    assert dependents[..|dependents|] == dependents;
  }

  /** The worklist loop. `goal` stands for any set of names that is closed under direct
      dependents: the loop never leaves it, and stops at a closed set. */
  method Saturate(ir: AssuranceIR, reverse: map<string, set<string>>, seeds: set<string>, ghost goal: set<string>)
    returns (affected: set<string>)
    requires forall d :: Entry(reverse, d) == DirectDependents(ir, d)
    requires seeds <= goal && forall d :: d in goal ==> DirectDependents(ir, d) <= goal
    ensures seeds <= affected <= goal && Expanded(ir, affected, [])
  {
    affected := seeds;
    var frontier := SortedSet(affected);
    while frontier != []
      invariant seeds <= affected <= goal
      invariant forall n :: n in frontier ==> n in affected
      invariant Expanded(ir, affected, frontier)
      decreases goal - affected, |frontier|
    {
      var current := frontier[|frontier| - 1];
      var dependents := SortedSet(Entry(reverse, current));
      ghost var before, pending := affected, frontier;
      affected, frontier := Enqueue(dependents, affected, frontier[..|frontier| - 1]);
      ExpandedStep(ir, before, pending, affected, frontier);
    }
  }

  method ContractDependencyClosure(ir: AssuranceIR, seeds: seq<string>)
    returns (affected: set<string>, unresolved: set<string>)
    ensures affected == Closure(ir, Normalized(seeds))
    ensures unresolved == Normalized(seeds) - Known(ir)
  {
    var known := Known(ir);
    var normalized := Normalized(seeds);
    unresolved := normalized - known;
    var reverse := ReverseDependencies(ir);
    ClosureExtensive(ir, normalized);
    forall d | d in Closure(ir, normalized) ensures DirectDependents(ir, d) <= Closure(ir, normalized) {
      DependentsInClosure(ir, normalized, d);
    }
    affected := Saturate(ir, reverse, normalized * known, Closure(ir, normalized));
    ExpandedIsClosed(ir, normalized, affected);
  }

  lemma ExpandedStep(ir: AssuranceIR, before: set<string>, pending: seq<string>, affected: set<string>,
      frontier: seq<string>)
    requires pending != [] && Expanded(ir, before, pending)
    requires forall n :: n in affected <==> n in before || n in DirectDependents(ir, pending[|pending| - 1])
    requires forall n :: n in frontier <==>
      n in pending[..|pending| - 1] || (n in DirectDependents(ir, pending[|pending| - 1]) && n !in before)
    ensures Expanded(ir, affected, frontier)
  {
  }

  lemma DependentsInClosure(ir: AssuranceIR, seeds: set<string>, d: string)
    requires d in Closure(ir, seeds)
    ensures DirectDependents(ir, d) <= Closure(ir, seeds)
  {
    forall n | n in DirectDependents(ir, d) ensures n in Closure(ir, seeds) { ClosureStep(ir, seeds, n, d); }
  }

  lemma ClosureStep(ir: AssuranceIR, seeds: set<string>, n: string, d: string)
    requires d in Closure(ir, seeds) && n in DirectDependents(ir, d)
    ensures n in Closure(ir, seeds)
  {
    var s :| s in seeds && s in Known(ir) && InCone(ir, d, s);
    ConeExtend(ir, n, d, s);
  }

  /** A set that holds the seeds and is closed under direct dependents holds the closure. */
  lemma ExpandedIsClosed(ir: AssuranceIR, seeds: set<string>, affected: set<string>)
    requires seeds * Known(ir) <= affected && Expanded(ir, affected, [])
    ensures Closure(ir, seeds) <= affected
  {
    forall n | n in Closure(ir, seeds) ensures n in affected {
      var s :| s in seeds && s in Known(ir) && InCone(ir, n, s);
      var p :| IsChain(ir, p) && p[0] == n && p[|p| - 1] == s;
      ChainInto(ir, affected, p);
    }
  }

  lemma {:induction false} ChainInto(ir: AssuranceIR, affected: set<string>, p: seq<string>)
    requires IsChain(ir, p) && p[|p| - 1] in affected && Expanded(ir, affected, [])
    ensures p[0] in affected
  {
    if |p| > 1 {
      assert IsChain(ir, p[1..]) by {
        forall i | 0 <= i < |p[1..]| - 1 ensures DependsOn(ir, p[1..][i], p[1..][i + 1]) {
          assert DependsOn(ir, p[i + 1], p[i + 2]);
        }
      }
      ChainInto(ir, affected, p[1..]);
      assert DependsOn(ir, p[0], p[1]);
      assert p[0] in DirectDependents(ir, p[1]);
    }
  }

  // -------------------------------------------------------- closure operator

  lemma ClosureExtensive(ir: AssuranceIR, seeds: set<string>)
    ensures seeds * Known(ir) <= Closure(ir, seeds)
  {
    forall n | n in seeds * Known(ir) ensures n in Closure(ir, seeds) { ConeReflexive(ir, n); }
  }

  lemma ClosureIdempotent(ir: AssuranceIR, seeds: set<string>)
    ensures Closure(ir, Closure(ir, seeds)) == Closure(ir, seeds)
  {
    ClosureExtensive(ir, Closure(ir, seeds));
    forall n | n in Closure(ir, Closure(ir, seeds)) ensures n in Closure(ir, seeds) {
      var m :| m in Closure(ir, seeds) && InCone(ir, n, m);
      var s :| s in seeds && s in Known(ir) && InCone(ir, m, s);
      ConeTransitive(ir, n, m, s);
    }
  }

  lemma ClosureUnion(ir: AssuranceIR, a: set<string>, b: set<string>)
    ensures Closure(ir, a + b) == Closure(ir, a) + Closure(ir, b)
  {
  }

  // --------------------------------------------------------- affected surfaces

  function AffectedUses(ir: AssuranceIR, contracts: set<string>): set<string> {
    set u | u in ir.contractUses && u.qualifiedName in contracts :: u.useId
  }

  predicate Consumes(path: SemanticPath, uses: set<string>) {
    exists u :: u in path.contractUseIds && u in uses
  }

  function AffectedPaths(ir: AssuranceIR, uses: set<string>): set<string> {
    set p | p in ir.paths && Consumes(p, uses) :: p.pathId
  }

  /** `{path.path_id: path for path in paths}`: the last path of an id wins. */
  function PathsById(paths: seq<SemanticPath>): (m: map<string, SemanticPath>)
    ensures forall p :: p in paths ==> p.pathId in m
    ensures forall id :: id in m ==> m[id] in paths && m[id].pathId == id
  {
    if paths == [] then map[] else
      var last := paths[|paths| - 1];
      assert paths == paths[..|paths| - 1] + [last];
      PathsById(paths[..|paths| - 1])[last.pathId := last]
  }

  ghost function EffectsOf(byId: map<string, SemanticPath>, ids: set<string>): set<string> {
    set id, e | id in ids && id in byId && e in byId[id].protectedEffectIds :: e
  }

  ghost function BindingsOf(byId: map<string, SemanticPath>, ids: set<string>): set<string> {
    set id, b | id in ids && id in byId && b in byId[id].bindingIds :: b
  }

  /** The surfaces that depend on a change of `names`, read off the graph. */
  ghost function ImpactOf(ir: AssuranceIR, names: seq<string>): Impact {
    var seeds := Normalized(names);
    var contracts := Closure(ir, seeds);
    var uses := AffectedUses(ir, contracts);
    var paths := AffectedPaths(ir, uses);
    Impact(SortedSet(seeds), SortedSet(seeds - Known(ir)), SortedSet(contracts), SortedSet(uses), SortedSet(paths),
           SortedSet(EffectsOf(PathsById(ir.paths), paths)), SortedSet(BindingsOf(PathsById(ir.paths), paths)))
  }

  lemma NormalizedTwice(names: seq<string>)
    ensures Normalized(SortedSet(Normalized(names))) == Normalized(names)
  {
    forall s | s in Normalized(names) ensures Strip(s) == s && s != "" {
      var n :| n in names && Strip(n) != "" && Strip(n) == s;
      StripFixed(s);
    }
    var again := SortedSet(Normalized(names));
    forall s ensures s in Normalized(again) <==> s in Normalized(names) {
      if s in Normalized(names) { assert s in again && Strip(s) == s; }
    }
  }

  /** The final loops: effects and bindings of every affected path. */
  method CollectSurfaces(byId: map<string, SemanticPath>, ids: set<string>)
    returns (effects: set<string>, bindings: set<string>)
    requires ids <= byId.Keys
    ensures effects == EffectsOf(byId, ids) && bindings == BindingsOf(byId, ids)
  {
    effects, bindings := {}, {};
    var todo := ids;
    while todo != {}
      invariant todo <= ids
      invariant effects == EffectsOf(byId, ids - todo) && bindings == BindingsOf(byId, ids - todo)
      decreases todo
    {
      var id :| id in todo;
      effects := effects + (set e | e in byId[id].protectedEffectIds);
      bindings := bindings + (set b | b in byId[id].bindingIds);
      assert ids - (todo - {id}) == (ids - todo) + {id};
      todo := todo - {id};
    }
    assert ids - todo == ids;
  }

  method ComputeContractImpact(ir: AssuranceIR, changedContractNames: seq<string>) returns (impact: Impact)
    ensures impact == ImpactOf(ir, changedContractNames)
  {
    var seeds := SortedSet(Normalized(changedContractNames));
    NormalizedTwice(changedContractNames);
    var affectedContracts, unresolved := ContractDependencyClosure(ir, seeds);
    var affectedUses := AffectedUses(ir, affectedContracts);
    var affectedPaths := AffectedPaths(ir, affectedUses);
    var pathsById := PathsById(ir.paths);
    var protectedEffects, bindings := CollectSurfaces(pathsById, affectedPaths);
    impact := Impact(seeds, SortedSet(unresolved), SortedSet(affectedContracts), SortedSet(affectedUses),
                     SortedSet(affectedPaths), SortedSet(protectedEffects), SortedSet(bindings));
  }

  // ------------------------------------------------------------ revision deltas

  /** `{c.qualified_name: c for c in contracts}`: the last contract of a name wins. */
  function ContractsByName(contracts: seq<FunctionContract>): (m: map<string, FunctionContract>)
    ensures m.Keys == set c | c in contracts :: c.qualifiedName
    ensures forall n :: n in m ==> m[n] in contracts && m[n].qualifiedName == n
  {
    if contracts == [] then map[] else
      var last := contracts[|contracts| - 1];
      assert contracts == contracts[..|contracts| - 1] + [last];
      ContractsByName(contracts[..|contracts| - 1])[last.qualifiedName := last]
  }

  function DiffFunctionContracts(base: AssuranceIR, head: AssuranceIR): Delta {
    var before, after := ContractsByName(base.functionContracts), ContractsByName(head.functionContracts);
    Delta(SortedSet(after.Keys - before.Keys), SortedSet(before.Keys - after.Keys),
          SortedSet(set n | n in before.Keys * after.Keys && before[n].contractId != after[n].contractId))
  }

  function ChangedContracts(delta: Delta): (r: seq<string>)
    ensures forall n :: n in r <==> n in delta.added || n in delta.removed || n in delta.versionChanged
  {
    SortedSet((set n | n in delta.added) + (set n | n in delta.removed) + (set n | n in delta.versionChanged))
  }

  /** `sorted(set(a) | set(b))` */
  function Merge(a: seq<string>, b: seq<string>): (r: seq<string>)
    ensures forall x :: x in r <==> x in a || x in b
  {
    SortedSet((set x | x in a) + (set x | x in b))
  }

  function MergeImpacts(delta: Delta, base: Impact, head: Impact): DeltaImpact {
    DeltaImpact(delta, base, head,
      Merge(base.affectedContracts, head.affectedContracts),
      Merge(base.affectedContractUses, head.affectedContractUses),
      Merge(base.affectedPaths, head.affectedPaths),
      Merge(base.affectedProtectedEffects, head.affectedProtectedEffects),
      Merge(base.affectedBindings, head.affectedBindings))
  }

  ghost function DeltaImpactOf(base: AssuranceIR, head: AssuranceIR): DeltaImpact {
    var delta := DiffFunctionContracts(base, head);
    var seeds := ChangedContracts(delta);
    MergeImpacts(delta, ImpactOf(base, seeds), ImpactOf(head, seeds))
  }

  method ComputeContractDeltaImpact(base: AssuranceIR, head: AssuranceIR) returns (r: DeltaImpact)
    ensures r == DeltaImpactOf(base, head)
  {
    var delta := DiffFunctionContracts(base, head);
    var seeds := ChangedContracts(delta);
    var baseImpact := ComputeContractImpact(base, seeds);
    var headImpact := ComputeContractImpact(head, seeds);
    r := MergeImpacts(delta, baseImpact, headImpact);
  }
}
