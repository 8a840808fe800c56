/** What the incremental impact analysis guarantees between two revisions
    (ovk/core/contract_impact.py): whatever it leaves out is the same in both. */
module Incremental {
  import opened Ordering
  import opened Text
  import opened ContractImpact

  // --------------------------------------------------------- what the delta sees

  /** What the model classes validate: names are stripped and non-empty. A name may repeat. */
  ghost predicate WellFormed(ir: AssuranceIR) {
    forall c :: c in ir.functionContracts ==> c.qualifiedName != "" && Strip(c.qualifiedName) == c.qualifiedName
  }

  /** One contract under the name. */
  ghost predicate UniqueName(ir: AssuranceIR, name: string) {
    forall c, d ::
      c in ir.functionContracts && d in ir.functionContracts && c.qualifiedName == name == d.qualifiedName ==>
      c == d
  }

  /** `contract_id` is a content identity: it fixes the dependencies of its contract. */
  ghost predicate ContentIds(base: AssuranceIR, head: AssuranceIR) {
    forall b, h :: b in base.functionContracts && h in head.functionContracts
      && b.qualifiedName == h.qualifiedName && b.contractId == h.contractId
      ==> forall d :: d in b.dependsOn <==> d in h.dependsOn
  }

  ghost predicate HasVersion(ir: AssuranceIR, name: string, contractId: string) {
    exists c :: c in ir.functionContracts && c.qualifiedName == name && c.contractId == contractId
  }

  /** Present in both revisions under the same versions, or absent from both. */
  ghost predicate Unchanged(base: AssuranceIR, head: AssuranceIR, name: string) {
    && (name in Known(base) <==> name in Known(head))
    && (forall v :: HasVersion(base, name, v) <==> HasVersion(head, name, v))
  }

  /** Unchanged, in terms of the name-indexed contracts that the diff compares. */
  ghost predicate SameByName(before: map<string, FunctionContract>, after: map<string, FunctionContract>, n: string) {
    (n in before <==> n in after) && (n in before && n in after ==> before[n].contractId == after[n].contractId)
  }

  /** The diff compares the last contract of each name, and sees a difference. */
  ghost predicate Visible(base: AssuranceIR, head: AssuranceIR, name: string) {
    !SameByName(ContractsByName(base.functionContracts), ContractsByName(head.functionContracts), name)
  }

  /** The versions of the name changed behind its last contract. */
  ghost predicate Hidden(base: AssuranceIR, head: AssuranceIR, name: string) {
    !Unchanged(base, head, name) && !Visible(base, head, name)
  }

  /** Another contract of the name came last, but the versions are the same. */
  ghost predicate Spurious(base: AssuranceIR, head: AssuranceIR, name: string) {
    Unchanged(base, head, name) && Visible(base, head, name)
  }

  lemma NormalizedStripped(names: seq<string>)
    requires forall n :: n in names ==> n != "" && Strip(n) == n
    ensures forall n :: n in Normalized(names) <==> n in names
  {
  }

  lemma ChangedByName(base: AssuranceIR, head: AssuranceIR, n: string)
    ensures n in ChangedContracts(DiffFunctionContracts(base, head)) <==> Visible(base, head, n)
  {
    var before, after := ContractsByName(base.functionContracts), ContractsByName(head.functionContracts);
    var delta := DiffFunctionContracts(base, head);
    assert n in delta.added <==> n in after && n !in before;
    assert n in delta.removed <==> n in before && n !in after;
    assert n in delta.versionChanged <==> n in before && n in after && before[n].contractId != after[n].contractId;
  }

  lemma VisibleIsKnown(base: AssuranceIR, head: AssuranceIR, n: string)
    requires Visible(base, head, n) || !Unchanged(base, head, n)
    ensures n in Known(base) || n in Known(head)
  {
  }

  function Seeds(base: AssuranceIR, head: AssuranceIR): set<string> {
    Normalized(ChangedContracts(DiffFunctionContracts(base, head)))
  }

  lemma SeedsAreVisible(base: AssuranceIR, head: AssuranceIR, n: string)
    requires WellFormed(base) && WellFormed(head)
    ensures n in Seeds(base, head) <==> Visible(base, head, n)
  {
    hide Visible, Strip;
    var changed := ChangedContracts(DiffFunctionContracts(base, head));
    forall m | m in changed ensures m != "" && Strip(m) == m {
      ChangedByName(base, head, m);
      VisibleIsKnown(base, head, m);
    }
    NormalizedStripped(changed);
    ChangedByName(base, head, n);
  }

  lemma VersionByName(ir: AssuranceIR, n: string, v: string)
    requires UniqueName(ir, n)
    ensures HasVersion(ir, n, v) <==>
      n in ContractsByName(ir.functionContracts) && ContractsByName(ir.functionContracts)[n].contractId == v
  {
  }

  /** For a name that does not repeat in either revision the delta is exact: it holds the name
      if and only if its versions changed. */
  lemma ChangedExactly(base: AssuranceIR, head: AssuranceIR, n: string)
    requires WellFormed(base) && WellFormed(head) && UniqueName(base, n) && UniqueName(head, n)
    ensures n in Seeds(base, head) <==> !Unchanged(base, head, n)
    ensures !Hidden(base, head, n) && !Spurious(base, head, n)
  {
    hide Seeds, Visible, Unchanged;
    SeedsAreVisible(base, head, n);
    UniqueIsVisible(base, head, n);
  }

  lemma UniqueIsVisible(base: AssuranceIR, head: AssuranceIR, n: string)
    requires UniqueName(base, n) && UniqueName(head, n)
    ensures Visible(base, head, n) <==> !Unchanged(base, head, n)
  {
    hide UniqueName;
    var before, after := ContractsByName(base.functionContracts), ContractsByName(head.functionContracts);
    assert n in Known(base) <==> n in before;
    assert n in Known(head) <==> n in after;
    forall v ensures
      && (HasVersion(base, n, v) <==> n in before && before[n].contractId == v)
      && (HasVersion(head, n, v) <==> n in after && after[n].contractId == v)
    {
      VersionByName(base, n, v);
      VersionByName(head, n, v);
    }
    hide HasVersion, Known, ContractsByName;
    assert n in before ==> HasVersion(base, n, before[n].contractId);
    assert n in after ==> HasVersion(head, n, after[n].contractId);
  }

  // ------------------------------------------------------ chains of two revisions

  lemma UnchangedSameDependencies(base: AssuranceIR, head: AssuranceIR, n: string, d: string)
    requires ContentIds(base, head) && Unchanged(base, head, n)
    ensures DependsOn(base, n, d) <==> DependsOn(head, n, d)
  {
    if DependsOn(base, n, d) {
      var b :| b in base.functionContracts && b.qualifiedName == n && d in b.dependsOn;
      assert HasVersion(base, n, b.contractId);
      var h :| h in head.functionContracts && h.qualifiedName == n && h.contractId == b.contractId;
    }
    if DependsOn(head, n, d) {
      var h :| h in head.functionContracts && h.qualifiedName == n && d in h.dependsOn;
      assert HasVersion(head, n, h.contractId);
      var b :| b in base.functionContracts && b.qualifiedName == n && b.contractId == h.contractId;
    }
  }

  /** A chain whose nodes before the last are unchanged is a chain of both revisions. */
  lemma UnchangedChain(base: AssuranceIR, head: AssuranceIR, p: seq<string>)
    requires ContentIds(base, head) && forall i :: 0 <= i < |p| - 1 ==> Unchanged(base, head, p[i])
    ensures IsChain(base, p) <==> IsChain(head, p)
  {
    hide Unchanged, ContentIds, DependsOn;
    forall i | 0 <= i < |p| - 1 ensures DependsOn(base, p[i], p[i + 1]) <==> DependsOn(head, p[i], p[i + 1]) {
      UnchangedSameDependencies(base, head, p[i], p[i + 1]);
    }
  }

  lemma ChainPrefix(ir: AssuranceIR, p: seq<string>, k: nat)
    requires IsChain(ir, p) && k < |p|
    ensures IsChain(ir, p[..k + 1]) && InCone(ir, p[0], p[k])
    ensures k > 0 ==> p[0] in Known(ir)
  {
    var q := p[..k + 1];
    forall i | 0 <= i < |q| - 1 ensures DependsOn(ir, q[i], q[i + 1]) { assert DependsOn(ir, p[i], p[i + 1]); }
    assert q[0] == p[0] && q[|q| - 1] == p[k];
    assert k > 0 ==> DependsOn(ir, p[0], p[1]);
  }

  lemma ChainSuffix(ir: AssuranceIR, p: seq<string>, k: nat)
    requires IsChain(ir, p) && k < |p|
    ensures InCone(ir, p[k], p[|p| - 1])
    ensures k < |p| - 1 ==> p[k] in Known(ir)
  {
    var q := p[k..];
    forall i | 0 <= i < |q| - 1 ensures DependsOn(ir, q[i], q[i + 1]) { assert DependsOn(ir, p[k + i], p[k + i + 1]); }
    assert q[0] == p[k] && q[|q| - 1] == p[|p| - 1];
    assert k < |p| - 1 ==> DependsOn(ir, p[k], p[k + 1]);
  }

  /** Follows a chain of either revision to its first visible or real change, which both
      revisions then have in the cone of its start. */
  lemma FirstTouch(ir: AssuranceIR, base: AssuranceIR, head: AssuranceIR, p: seq<string>) returns (k: nat)
    requires ContentIds(base, head) && (ir == base || ir == head) && IsChain(ir, p)
    requires exists i :: 0 <= i < |p| && (Visible(base, head, p[i]) || !Unchanged(base, head, p[i]))
    ensures k < |p| && (Visible(base, head, p[k]) || Hidden(base, head, p[k]))
    ensures InCone(base, p[0], p[k]) && InCone(head, p[0], p[k])
    ensures k > 0 ==> p[0] in Known(base) && p[0] in Known(head)
  {
    hide Unchanged, Visible, ContentIds, DependsOn;
    k := 0;
    while k < |p| && Unchanged(base, head, p[k]) && !Visible(base, head, p[k])
      invariant k <= |p| && forall i :: 0 <= i < k ==> Unchanged(base, head, p[i]) && !Visible(base, head, p[i])
    {
      k := k + 1;
    }
    var q := p[..k + 1];
    ChainPrefix(ir, p, k);
    UnchangedChain(base, head, q);
    ChainPrefix(base, q, k);
    ChainPrefix(head, q, k);
  }

  // ------------------------------------------------------ incremental soundness

  ghost predicate Affected(base: AssuranceIR, head: AssuranceIR, n: string) {
    n in DeltaImpactOf(base, head).affectedContracts
  }

  /** A visible change of the revision lies in the cone of `n`. */
  ghost predicate SeesVisible(ir: AssuranceIR, base: AssuranceIR, head: AssuranceIR, n: string) {
    n in Known(ir) && exists s :: s in Known(ir) && Visible(base, head, s) && InCone(ir, n, s)
  }

  lemma ClosureSeesVisible(ir: AssuranceIR, base: AssuranceIR, head: AssuranceIR, n: string)
    requires WellFormed(base) && WellFormed(head)
    ensures n in Closure(ir, Seeds(base, head)) <==> SeesVisible(ir, base, head, n)
  {
    hide Visible, Seeds;
    forall s ensures s in Seeds(base, head) <==> Visible(base, head, s) { SeedsAreVisible(base, head, s); }
  }

  /** No contract is invalidated without a visible change in its cone, and each contract with one
      is invalidated. */
  lemma AffectedExactly(base: AssuranceIR, head: AssuranceIR, n: string)
    requires WellFormed(base) && WellFormed(head)
    ensures Affected(base, head, n) <==> SeesVisible(base, base, head, n) || SeesVisible(head, base, head, n)
  {
    hide SeesVisible;
    ClosureSeesVisible(base, base, head, n);
    ClosureSeesVisible(head, base, head, n);
    var changed := ChangedContracts(DiffFunctionContracts(base, head));
    assert n in ImpactOf(base, changed).affectedContracts <==> n in Closure(base, Seeds(base, head));
    assert n in ImpactOf(head, changed).affectedContracts <==> n in Closure(head, Seeds(base, head));
  }

  ghost predicate SameCone(base: AssuranceIR, head: AssuranceIR, n: string) {
    forall m :: InCone(base, n, m) <==> InCone(head, n, m)
  }

  /** The whole cone of `n` is the same in both revisions, member by member. */
  ghost predicate ConePreserved(base: AssuranceIR, head: AssuranceIR, n: string) {
    SameCone(base, head, n) && forall m :: InCone(base, n, m) ==> Unchanged(base, head, m)
  }

  /** A real change lies in the cone of `n` in either revision. */
  ghost predicate SeesReal(base: AssuranceIR, head: AssuranceIR, n: string) {
    exists m :: !Unchanged(base, head, m) && (InCone(base, n, m) || InCone(head, n, m))
  }

  ghost predicate SeesHidden(base: AssuranceIR, head: AssuranceIR, n: string) {
    exists h :: Hidden(base, head, h) && (InCone(base, n, h) || InCone(head, n, h))
  }

  lemma ConeCarriesOver(ir: AssuranceIR, other: AssuranceIR, base: AssuranceIR, head: AssuranceIR, n: string, m: string)
    requires ContentIds(base, head) && !SeesReal(base, head, n) && InCone(ir, n, m)
    requires (ir == base && other == head) || (ir == head && other == base)
    ensures InCone(other, n, m)
  {
    hide Unchanged, ContentIds, DependsOn;
    var p :| IsChain(ir, p) && p[0] == n && p[|p| - 1] == m;
    forall i | 0 <= i < |p| ensures Unchanged(base, head, p[i]) { ChainPrefix(ir, p, i); }
    UnchangedChain(base, head, p);
    assert IsChain(other, p);
  }

  /** A cone is preserved exactly when no real change lies in it. */
  lemma PreservedExactly(base: AssuranceIR, head: AssuranceIR, n: string)
    requires ContentIds(base, head)
    ensures ConePreserved(base, head, n) <==> !SeesReal(base, head, n)
  {
    hide Unchanged, ContentIds;
    if !SeesReal(base, head, n) {
      forall m | InCone(base, n, m) ensures InCone(head, n, m) { ConeCarriesOver(base, head, base, head, n, m); }
      forall m | InCone(head, n, m) ensures InCone(base, n, m) { ConeCarriesOver(head, base, base, head, n, m); }
    }
  }

  /** A known contract with a change in its cone is affected, or the first change on the way is a
      hidden one. */
  lemma FirstChange(base: AssuranceIR, head: AssuranceIR, n: string) returns (h: string)
    requires WellFormed(base) && WellFormed(head) && ContentIds(base, head)
    requires (n in Known(base) || n in Known(head)) && SeesReal(base, head, n)
    ensures Affected(base, head, n) || Hidden(base, head, h)
    ensures InCone(base, n, h) && InCone(head, n, h)
    ensures h == n || (n in Known(base) && n in Known(head))
  {
    hide Unchanged, Visible, ContentIds, DependsOn, Affected;
    var m :| !Unchanged(base, head, m) && (InCone(base, n, m) || InCone(head, n, m));
    var ir := if InCone(base, n, m) then base else head;
    var p :| IsChain(ir, p) && p[0] == n && p[|p| - 1] == m;
    var k := FirstTouch(ir, base, head, p);
    h := p[k];
    AffectedExactly(base, head, n);
    if Visible(base, head, h) { VisibleIsKnown(base, head, h); }
  }

  /** Soundness, contract by contract: an unaffected contract of either revision has its whole
      cone preserved if and only if no hidden change lies in that cone. */
  lemma UnaffectedExactly(base: AssuranceIR, head: AssuranceIR, n: string)
    requires WellFormed(base) && WellFormed(head) && ContentIds(base, head)
    requires (n in Known(base) || n in Known(head)) && !Affected(base, head, n)
    ensures ConePreserved(base, head, n) <==> !SeesHidden(base, head, n)
  {
    hide Unchanged, Visible, ContentIds, Affected;
    PreservedExactly(base, head, n);
    if SeesReal(base, head, n) {
      var h := FirstChange(base, head, n);
    }
  }

  /** Every contract of either revision that is left out has its whole cone preserved. */
  ghost predicate IsSound(base: AssuranceIR, head: AssuranceIR) {
    forall n :: (n in Known(base) || n in Known(head)) && !Affected(base, head, n) ==> ConePreserved(base, head, n)
  }

  /** Incremental soundness, exactly: it holds if and only if every hidden change is itself
      affected. */
  lemma SoundnessExactly(base: AssuranceIR, head: AssuranceIR)
    requires WellFormed(base) && WellFormed(head) && ContentIds(base, head)
    ensures IsSound(base, head) <==> forall h :: Hidden(base, head, h) ==> Affected(base, head, h)
  {
    hide Unchanged, Visible, ContentIds, Affected, WellFormed, ConePreserved;
    if forall h :: Hidden(base, head, h) ==> Affected(base, head, h) {
      forall n | (n in Known(base) || n in Known(head)) && !Affected(base, head, n)
        ensures ConePreserved(base, head, n) {
        PreservedExactly(base, head, n);
        if SeesReal(base, head, n) {
          var h := FirstChange(base, head, n);
          AffectedSpreads(base, head, n, h);
        }
      }
    }
    if IsSound(base, head) {
      forall h | Hidden(base, head, h) ensures Affected(base, head, h) {
        VisibleIsKnown(base, head, h);
        PreservedExactly(base, head, h);
        ConeReflexive(base, h);
      }
    }
  }

  /** A contract that has an affected one in both its cones is affected. */
  lemma AffectedSpreads(base: AssuranceIR, head: AssuranceIR, n: string, h: string)
    requires WellFormed(base) && WellFormed(head) && Affected(base, head, h)
    requires InCone(base, n, h) && InCone(head, n, h) && (h == n || (n in Known(base) && n in Known(head)))
    ensures Affected(base, head, n)
  {
    hide Affected, Visible, WellFormed;
    AffectedExactly(base, head, h);
    AffectedExactly(base, head, n);
    if SeesVisible(base, base, head, h) { SeesThrough(base, base, head, n, h); }
    if SeesVisible(head, base, head, h) { SeesThrough(head, base, head, n, h); }
  }

  lemma SeesThrough(ir: AssuranceIR, base: AssuranceIR, head: AssuranceIR, n: string, h: string)
    requires n in Known(ir) && InCone(ir, n, h) && SeesVisible(ir, base, head, h)
    ensures SeesVisible(ir, base, head, n)
  {
    hide Visible, InCone;
    var s :| s in Known(ir) && Visible(base, head, s) && InCone(ir, h, s);
    ConeTransitive(ir, n, h, s);
  }

  /** Incremental precision, exactly: no preserved contract is invalidated if and only if every
      change that only looks like one sees a real change. */
  lemma PrecisionExactly(base: AssuranceIR, head: AssuranceIR)
    requires WellFormed(base) && WellFormed(head) && ContentIds(base, head)
    ensures (forall n :: ConePreserved(base, head, n) ==> !Affected(base, head, n))
       <==> forall s :: Spurious(base, head, s) ==> SeesReal(base, head, s)
  {
    hide Unchanged, Visible, ContentIds, Affected, WellFormed, ConePreserved, SeesReal;
    if forall s :: Spurious(base, head, s) ==> SeesReal(base, head, s) {
      forall n | ConePreserved(base, head, n) ensures !Affected(base, head, n) {
        if Affected(base, head, n) { AffectedSeesReal(base, head, n); }
        PreservedExactly(base, head, n);
      }
    }
    if forall n :: ConePreserved(base, head, n) ==> !Affected(base, head, n) {
      forall s | Spurious(base, head, s) ensures SeesReal(base, head, s) {
        SpuriousIsAffected(base, head, s);
        PreservedExactly(base, head, s);
      }
    }
  }

  lemma SpuriousIsAffected(base: AssuranceIR, head: AssuranceIR, s: string)
    requires WellFormed(base) && WellFormed(head) && Visible(base, head, s)
    ensures Affected(base, head, s)
  {
    hide Affected, Visible;
    VisibleIsKnown(base, head, s);
    AffectedExactly(base, head, s);
    ConeReflexive(base, s);
    ConeReflexive(head, s);
  }

  lemma AffectedSeesReal(base: AssuranceIR, head: AssuranceIR, n: string)
    requires WellFormed(base) && WellFormed(head) && ContentIds(base, head) && Affected(base, head, n)
    requires forall s :: Spurious(base, head, s) ==> SeesReal(base, head, s)
    ensures SeesReal(base, head, n)
  {
    hide Unchanged, Visible, ContentIds, Affected, InCone, WellFormed;
    AffectedExactly(base, head, n);
    PreservedExactly(base, head, n);
    var ir := if SeesVisible(base, base, head, n) then base else head;
    var s :| s in Known(ir) && Visible(base, head, s) && InCone(ir, n, s);
    if Unchanged(base, head, s) && !SeesReal(base, head, n) {
      assert Spurious(base, head, s);
      var m :| !Unchanged(base, head, m) && (InCone(base, s, m) || InCone(head, s, m));
      assert InCone(base, n, s) && InCone(head, n, s);
      if InCone(base, s, m) { ConeTransitive(base, n, s, m); } else { ConeTransitive(head, n, s, m); }
    }
  }

  ghost predicate NoHidden(base: AssuranceIR, head: AssuranceIR) {
    forall n :: !Hidden(base, head, n)
  }

  ghost predicate UniqueNames(base: AssuranceIR, head: AssuranceIR) {
    forall n :: UniqueName(base, n) && UniqueName(head, n)
  }

  /** Without a hidden change, which the two contract lists show, soundness holds; with unique
      names a contract is left out if and only if its whole cone is preserved. */
  lemma IncrementalSoundness(base: AssuranceIR, head: AssuranceIR, n: string)
    requires WellFormed(base) && WellFormed(head) && ContentIds(base, head)
    requires n in Known(base) || n in Known(head)
    ensures NoHidden(base, head) ==> (!Affected(base, head, n) ==> ConePreserved(base, head, n))
    ensures UniqueNames(base, head)
      ==> NoHidden(base, head) && (!Affected(base, head, n) <==> ConePreserved(base, head, n))
  {
    hide Unchanged, Visible, ContentIds, Affected, WellFormed, ConePreserved, UniqueName, Seeds;
    if UniqueNames(base, head) {
      forall m ensures !Hidden(base, head, m) && !Spurious(base, head, m) { ChangedExactly(base, head, m); }
      PrecisionExactly(base, head);
    }
    SoundnessExactly(base, head);
  }

  /** Repeated names alone hide nothing. */
  lemma SameListHidesNothing(ir: AssuranceIR)
    ensures NoHidden(ir, ir)
  {
  }

  // ------------------------------------------------------ path-level soundness

  /** Uses and dependencies name contracts of the revision itself. */
  ghost predicate Resolved(ir: AssuranceIR) {
    && (forall u :: u in ir.contractUses ==> u.qualifiedName in Known(ir))
    && (forall c, d :: c in ir.functionContracts && d in c.dependsOn ==> d in Known(ir))
  }

  lemma {:induction false} ResolvedChain(ir: AssuranceIR, p: seq<string>)
    requires Resolved(ir) && IsChain(ir, p) && p[0] in Known(ir)
    ensures p[|p| - 1] in Known(ir)
  {
    if |p| > 1 {
      assert DependsOn(ir, p[0], p[1]);
      assert IsChain(ir, p[1..]) by {
        forall i | 0 <= i < |p[1..]| - 1 ensures DependsOn(ir, p[1..][i], p[1..][i + 1]) {
          assert DependsOn(ir, p[i + 1], p[i + 2]);
        }
      }
      ResolvedChain(ir, p[1..]);
    }
  }

  lemma ResolvedCone(ir: AssuranceIR, n: string, m: string)
    requires Resolved(ir) && n in Known(ir) && InCone(ir, n, m)
    ensures m in Known(ir)
  {
    var p :| IsChain(ir, p) && p[0] == n && p[|p| - 1] == m;
    ResolvedChain(ir, p);
  }

  ghost predicate HeadAffected(base: AssuranceIR, head: AssuranceIR, n: string) {
    n in Closure(head, Seeds(base, head))
  }

  /** Head sees what base sees, up to a hidden change that head does not see through. */
  lemma BaseChangeSeenFromHead(base: AssuranceIR, head: AssuranceIR, n: string) returns (h: string)
    requires WellFormed(base) && WellFormed(head) && ContentIds(base, head) && Resolved(head)
    requires n in Known(head) && SeesVisible(base, base, head, n)
    ensures SeesVisible(head, base, head, n) || (Hidden(base, head, h) && SeesVisible(base, base, head, h))
    ensures h in Known(head) && InCone(head, n, h)
  {
    hide Unchanged, Visible, ContentIds, DependsOn, WellFormed;
    var s :| s in Known(base) && Visible(base, head, s) && InCone(base, n, s);
    var p :| IsChain(base, p) && p[0] == n && p[|p| - 1] == s;
    var k := FirstTouch(base, base, head, p);
    h := p[k];
    ResolvedCone(head, n, h);
    ChainSuffix(base, p, k);
  }

  /** In a resolved head graph the head impact alone decides every head contract if and only if
      it decides every affected hidden change. */
  lemma HeadDecides(base: AssuranceIR, head: AssuranceIR)
    requires WellFormed(base) && WellFormed(head) && ContentIds(base, head) && Resolved(head)
    ensures (forall n :: n in Known(head) ==> (Affected(base, head, n) <==> HeadAffected(base, head, n)))
       <==> forall h :: h in Known(head) && Hidden(base, head, h) && Affected(base, head, h) ==>
         HeadAffected(base, head, h)
    ensures NoHidden(base, head) ==>
      forall n :: n in Known(head) ==> (Affected(base, head, n) <==> HeadAffected(base, head, n))
  {
    hide Unchanged, Visible, ContentIds, Affected, WellFormed, Closure, InCone, SeesVisible, Resolved;
    if forall h :: h in Known(head) && Hidden(base, head, h) && Affected(base, head, h) ==>
      HeadAffected(base, head, h) {
      forall n | n in Known(head) ensures Affected(base, head, n) <==> HeadAffected(base, head, n) {
        ClosureSeesVisible(head, base, head, n);
        AffectedExactly(base, head, n);
        if SeesVisible(base, base, head, n) {
          var h := BaseChangeSeenFromHead(base, head, n);
          AffectedExactly(base, head, h);
          ClosureSeesVisible(head, base, head, h);
          if SeesVisible(head, base, head, h) { SeesThrough(head, base, head, n, h); }
        }
      }
    }
  }

  /** The consumed contract of a path that head does not report. */
  lemma UnreportedUse(base: AssuranceIR, head: AssuranceIR, path: SemanticPath, use: ContractUse)
    requires path in head.paths && path.pathId !in DeltaImpactOf(base, head).head.affectedPaths
    requires use in head.contractUses && use.useId in path.contractUseIds
    ensures !HeadAffected(base, head, use.qualifiedName)
  {
    hide Closure, Seeds;
    var contracts := Closure(head, Seeds(base, head));
    assert DeltaImpactOf(base, head).head.affectedPaths
      == SortedSet(AffectedPaths(head, AffectedUses(head, contracts))) by {
      ImpactPaths(base, head);
    }
    assert use.qualifiedName in contracts ==> use.useId in AffectedUses(head, contracts);
    assert use.useId in AffectedUses(head, contracts)
      ==> path.pathId in AffectedPaths(head, AffectedUses(head, contracts));
  }

  lemma ImpactPaths(base: AssuranceIR, head: AssuranceIR)
    ensures DeltaImpactOf(base, head).head.affectedPaths ==
      SortedSet(AffectedPaths(head, AffectedUses(head, Closure(head, Seeds(base, head)))))
  {
    hide Closure, SortedSet, AffectedPaths, AffectedUses, Normalized;
  }

  /** A contract that a resolved head does not report has its cone preserved if and only if no
      hidden change lies in its head cone. */
  lemma HeadUnaffectedExactly(base: AssuranceIR, head: AssuranceIR, n: string)
    requires WellFormed(base) && WellFormed(head) && ContentIds(base, head) && Resolved(head)
    requires n in Known(head) && !HeadAffected(base, head, n)
    ensures ConePreserved(base, head, n) <==> !exists h :: Hidden(base, head, h) && InCone(head, n, h)
  {
    hide Unchanged, Visible, ContentIds, WellFormed, Closure, DependsOn;
    PreservedExactly(base, head, n);
    ClosureSeesVisible(head, base, head, n);
    if SeesReal(base, head, n) {
      var m :| !Unchanged(base, head, m) && (InCone(base, n, m) || InCone(head, n, m));
      var ir := if InCone(base, n, m) then base else head;
      var p :| IsChain(ir, p) && p[0] == n && p[|p| - 1] == m;
      var k := FirstTouch(ir, base, head, p);
      ResolvedCone(head, n, p[k]);
    }
  }

  /** A head path that is not reported consumes a contract whose whole cone is preserved from base,
      with every member present in both revisions, if and only if no hidden change lies in the
      head cone of that contract; so always, when nothing is hidden. */
  lemma PathSoundness(base: AssuranceIR, head: AssuranceIR, path: SemanticPath, use: ContractUse)
    requires WellFormed(base) && WellFormed(head) && ContentIds(base, head) && Resolved(head)
    requires path in head.paths && path.pathId !in DeltaImpactOf(base, head).head.affectedPaths
    requires use in head.contractUses && use.useId in path.contractUseIds
    ensures var n := use.qualifiedName;
      && (ConePreserved(base, head, n) <==> !exists h :: Hidden(base, head, h) && InCone(head, n, h))
      && (ConePreserved(base, head, n) ==> forall m :: InCone(head, n, m) ==> m in Known(base) && m in Known(head))
      && (NoHidden(base, head) ==> ConePreserved(base, head, n))
  {
    hide Visible, ContentIds, WellFormed, HeadAffected, InCone, DeltaImpactOf;
    var n := use.qualifiedName;
    UnreportedUse(base, head, path, use);
    assert n in Known(head);
    HeadUnaffectedExactly(base, head, n);
    forall m | InCone(head, n, m) ensures m in Known(head) { ResolvedCone(head, n, m); }
  }

  /** An effect is not reported if and only if no reported path carries it, among the paths that
      come last under their id. */
  lemma UnreportedEffect(base: AssuranceIR, head: AssuranceIR, effect: string)
    ensures effect !in DeltaImpactOf(base, head).head.affectedProtectedEffects <==>
      forall p :: p in head.paths && PathsById(head.paths)[p.pathId] == p && effect in p.protectedEffectIds ==>
        p.pathId !in DeltaImpactOf(base, head).head.affectedPaths
  {
    hide Closure, Seeds, SortedSet;
    ImpactPaths(base, head);
    ImpactEffects(base, head);
    var paths := AffectedPaths(head, AffectedUses(head, Closure(head, Seeds(base, head))));
    var byId := PathsById(head.paths);
    assert forall id :: id in byId ==> byId[byId[id].pathId] == byId[id];
    if effect in EffectsOf(byId, paths) {
      var id :| id in paths && id in byId && effect in byId[id].protectedEffectIds;
      assert byId[id] in head.paths && byId[id].pathId in paths;
    }
  }

  lemma ImpactEffects(base: AssuranceIR, head: AssuranceIR)
    ensures DeltaImpactOf(base, head).head.affectedProtectedEffects
      == SortedSet(EffectsOf(PathsById(head.paths),
        AffectedPaths(head, AffectedUses(head, Closure(head, Seeds(base, head))))))
  {
    hide Closure, SortedSet, AffectedPaths, AffectedUses, Normalized, EffectsOf, PathsById;
  }

  /** With one path per id, an effect that is not reported lies on no reported path. */
  lemma UnreportedEffectOfPath(base: AssuranceIR, head: AssuranceIR, path: SemanticPath, effect: string)
    requires forall p :: p in head.paths && p.pathId == path.pathId ==> p == path
    requires path in head.paths && effect in path.protectedEffectIds
    requires effect !in DeltaImpactOf(base, head).head.affectedProtectedEffects
    ensures path.pathId !in DeltaImpactOf(base, head).head.affectedPaths
  {
    hide DeltaImpactOf;
    UnreportedEffect(base, head, effect);
    assert PathsById(head.paths)[path.pathId] == path;
  }

  // ------------------------------------------------ what repeated names can hide

  const SHADOWED_BASE := AssuranceIR(
    [FunctionContract("v1", "a", []), FunctionContract("v2", "a", [])], [], [])
  const SHADOWED_HEAD := AssuranceIR(
    [FunctionContract("v3", "a", ["b"]), FunctionContract("v2", "a", [])], [], [])

  lemma ShadowedCone()
    ensures InCone(SHADOWED_HEAD, "a", "b") && !InCone(SHADOWED_BASE, "a", "b")
  {
    var base, head := SHADOWED_BASE, SHADOWED_HEAD;
    assert head.functionContracts[0] in head.functionContracts;
    assert DependsOn(head, "a", "b");
    ConeReflexive(head, "b");
    ConeExtend(head, "a", "b", "b");
    forall p | IsChain(base, p) ensures |p| == 1 {
      assert |p| > 1 ==> DependsOn(base, p[0], p[1]);
    }
    assert "a" != "b" by { assert "a"[0] != "b"[0]; }
  }

  /** An empty delta affects nothing. */
  lemma NoChangeNothingAffected(base: AssuranceIR, head: AssuranceIR, n: string)
    requires ChangedContracts(DiffFunctionContracts(base, head)) == []
    ensures !Affected(base, head, n)
  {
    assert Normalized([]) == {};
    assert Closure(base, {}) == {} && Closure(head, {}) == {};
  }

  lemma ShadowedDelta()
    ensures ChangedContracts(DiffFunctionContracts(SHADOWED_BASE, SHADOWED_HEAD)) == []
  {
    var base, head := SHADOWED_BASE, SHADOWED_HEAD;
    assert base.functionContracts[..1] == [base.functionContracts[0]];
    assert head.functionContracts[..1] == [head.functionContracts[0]];
    assert ContractsByName(base.functionContracts) == ContractsByName(head.functionContracts)
        == map["a" := FunctionContract("v2", "a", [])];
    var changed := ChangedContracts(DiffFunctionContracts(base, head));
    if changed != [] {
      assert changed[0] in changed;
      ChangedByName(base, head, changed[0]);
    }
  }

  lemma ShadowedContentIds()
    ensures ContentIds(SHADOWED_BASE, SHADOWED_HEAD) && "a" in Known(SHADOWED_BASE)
  {
  }

  /** A second contract of the same name hides a change of the first from the diff:
      nothing is reported although the cone of `a` has grown. */
  lemma DuplicateNamesHideChanges()
    ensures exists base, head, n ::
      ContentIds(base, head) && n in Known(base) && !Affected(base, head, n) && !ConePreserved(base, head, n)
  {
    var base, head, n := SHADOWED_BASE, SHADOWED_HEAD, "a";
    ShadowedCone();
    assert !ConePreserved(base, head, n);
    ShadowedDelta();
    NoChangeNothingAffected(base, head, n);
    ShadowedContentIds();
  }

  const NOTHING := AssuranceIR([], [], [])
  const SHADOWED_PATH := AssuranceIR(
    [FunctionContract("v", "a", [])], [ContractUse("u", "a")],
    [SemanticPath("p", ["e"], [], ["u"]), SemanticPath("p", [], [], ["u"])])

  lemma ShadowedPathSeed()
    ensures HeadAffected(NOTHING, SHADOWED_PATH, "a")
  {
    var base, head := NOTHING, SHADOWED_PATH;
    StripFixed("a");
    assert head.functionContracts[0] in head.functionContracts;
    assert "a" in Known(head) && "a" !in Known(base);
    SeedsAreVisible(base, head, "a");
    ConeReflexive(head, "a");
    hide Seeds;
  }

  lemma ShadowedPathLast()
    ensures PathsById(SHADOWED_PATH.paths) == map["p" := SHADOWED_PATH.paths[1]]
    ensures forall p :: p in SHADOWED_PATH.paths && PathsById(SHADOWED_PATH.paths)[p.pathId] == p ==>
      p.protectedEffectIds == []
    ensures SHADOWED_PATH.paths[0] in SHADOWED_PATH.paths && SHADOWED_PATH.contractUses[0] in SHADOWED_PATH.contractUses
  {
    var paths := SHADOWED_PATH.paths;
    assert paths[..1] == [paths[0]];
  }

  /** A second path of the same id hides the effect of the first: the path is reported, its
      effect is not. */
  lemma DuplicatePathsHideEffects()
    ensures var impact := DeltaImpactOf(NOTHING, SHADOWED_PATH).head;
      "p" in impact.affectedPaths && "e" !in impact.affectedProtectedEffects
        && "e" in SHADOWED_PATH.paths[0].protectedEffectIds
  {
    hide DeltaImpactOf, HeadAffected, PathsById;
    ShadowedPathSeed();
    ShadowedPathLast();
    UnreportedEffect(NOTHING, SHADOWED_PATH, "e");
    var path, use := SHADOWED_PATH.paths[0], SHADOWED_PATH.contractUses[0];
    assert path.pathId == "p" && use.useId == path.contractUseIds[0] && use.qualifiedName == "a";
    if path.pathId !in DeltaImpactOf(NOTHING, SHADOWED_PATH).head.affectedPaths {
      UnreportedUse(NOTHING, SHADOWED_PATH, path, use);
    }
  }
}
