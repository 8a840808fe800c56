/** The canonical IR payload, part by part, with the names that decide what is sorted and what is
    dropped (ovk/core/assurance_ir.py). */
module IrTables {
  import opened Ordering
  import opened Text
  import opened AssuranceIr

  /** The lists whose order means nothing, by collection. */
  const UNORDERED := {
    ("guards", "condition_ids"), ("guards", "effectiveness_evidence_ids"),
    ("protected_effects", "condition_ids"), ("resource_bindings", "condition_ids"),
    ("paths", "condition_ids"), ("paths", "guard_ids"), ("paths", "protected_effect_ids"), ("paths", "binding_ids"),
    ("paths", "contract_use_ids"), ("paths", "unsupported_constructs"), ("paths", "coverage_assumptions"),
    ("guard_effectiveness_evidence", "assumptions"), ("interpretation_compatibility_evidence", "assumptions"),
    ("bypass_authority_evidence", "writer_evidence_ids"), ("bypass_authority_evidence", "assumptions"),
    ("authorization_cut_set_evidence", "guard_ids"), ("authorization_cut_set_evidence", "unresolved_guard_ids"),
    ("authorization_cut_set_evidence", "node_control_points"),
    ("authorization_cut_set_evidence", "edge_control_points"),
    ("function_contracts", "depends_on"), ("function_contracts", "preconditions"),
    ("function_contracts", "postconditions"), ("contract_uses", "established_attributes"),
    ("claims", "subject_ids"), ("claims", "assumption_ids"), ("claims", "acceptable_guarantees")}

  lemma ListedAreUnordered(c: string, f: string)
    ensures f in SortedLists(c) ==> (c, f) in UNORDERED
  {
  }

  lemma UnorderedAreListed(c: string, f: string)
    ensures (c, f) in UNORDERED ==> f in SortedLists(c)
  {
  }

  predicate IsControlPoints(c: string, f: string) {
    c == "authorization_cut_set_evidence" && f in {"node_control_points", "edge_control_points"}
  }

  /** One element, list by list: nothing is added or lost but empty control points; the lists
      without an order are sorted, predicates by digest and the rest by text; any other list, and
      the rest of the element, stays as it is. */
  lemma ItemExactly(digest: string -> string, c: string, x: Item, f: string)
    ensures var y := CanonicalItem(digest, c, x);
      && y.id == x.id && y.terms == x.terms && y.rest == x.rest
      && (f in y.lists <==> f in x.lists && !(IsControlPoints(c, f) && x.lists[f] == []))
      && (f in y.lists ==>
          && multiset(y.lists[f]) == multiset(x.lists[f])
          && ((c, f) !in UNORDERED ==> y.lists[f] == x.lists[f])
          && ((c, f) in UNORDERED ==> forall i, j :: 0 <= i < j < |y.lists[f]| ==>
                if f in {"preconditions", "postconditions"} then StrLe(digest(y.lists[f][i]), digest(y.lists[f][j]))
                else StrLe(y.lists[f][i], y.lists[f][j])))
  {
    ListedAreUnordered(c, f);
    UnorderedAreListed(c, f);
    hide UNORDERED, SortedLists, SortList, StrLe;
    if f in x.lists {
      ListSorted(digest, f, x.lists[f]);
      SortKeepsEmptiness(digest, f, x.lists[f]);
    }
  }

  lemma ListSorted(digest: string -> string, f: string, list: seq<string>)
    ensures var sorted := SortList(digest, f, list);
      && multiset(sorted) == multiset(list)
      && forall i, j :: 0 <= i < j < |sorted| ==>
           if f in {"preconditions", "postconditions"} then StrLe(digest(sorted[i]), digest(sorted[j]))
           else StrLe(sorted[i], sorted[j])
  {
    hide StrLe;
    StrIsTotalOrder();
    if ByDigest(f) { SortBySorted((x: string, y: string) => StrLe(digest(x), digest(y)), list); }
  }

  /** The element with one of its lists replaced. */
  function WithList(x: Item, f: string, list: seq<string>): Item { x.(lists := x.lists[f := list]) }

  /** So reordering a list leaves its element's canonical form alone exactly where order means
      nothing: everywhere else the new order shows. */
  lemma ReorderingExactly(digest: string -> string, c: string, x: Item, f: string, a: seq<string>, b: seq<string>)
    requires forall u, v :: digest(u) == digest(v) ==> u == v
    requires multiset(a) == multiset(b) && a != b
    ensures CanonicalItem(digest, c, WithList(x, f, a)) == CanonicalItem(digest, c, WithList(x, f, b))
       <==> (c, f) in UNORDERED
  {
    hide *;
    var p, q := CanonicalItem(digest, c, WithList(x, f, a)), CanonicalItem(digest, c, WithList(x, f, b));
    SameMembers(a, b);
    OwnList(digest, c, x, f, a);
    OwnList(digest, c, x, f, b);
    SortedAlike(digest, f, a, b);
    forall g | g != f ensures (g in p.lists <==> g in q.lists) && (g in p.lists ==> p.lists[g] == q.lists[g]) {
      OtherList(digest, c, x, f, a, b, g);
    }
    if (c, f) in UNORDERED {
      assert p.lists == q.lists;
    }
  }

  lemma OwnList(digest: string -> string, c: string, x: Item, f: string, list: seq<string>)
    requires list != []
    ensures var p := CanonicalItem(digest, c, WithList(x, f, list));
      && f in p.lists && p.lists[f] == (if (c, f) in UNORDERED then SortList(digest, f, list) else list)
      && p.id == x.id && p.terms == x.terms && p.rest == x.rest
  {
    ListedAreUnordered(c, f);
    UnorderedAreListed(c, f);
    SortKeepsEmptiness(digest, f, list);
    hide UNORDERED, SortedLists, SortList;
  }

  lemma OtherList(digest: string -> string, c: string, x: Item, f: string, a: seq<string>, b: seq<string>, g: string)
    requires g != f
    ensures var p, q := CanonicalItem(digest, c, WithList(x, f, a)), CanonicalItem(digest, c, WithList(x, f, b));
      (g in p.lists <==> g in q.lists) && (g in p.lists ==> p.lists[g] == q.lists[g])
  {
    hide SortedLists, SortList;
  }

  lemma SortedAlike(digest: string -> string, f: string, a: seq<string>, b: seq<string>)
    requires forall x, y :: digest(x) == digest(y) ==> x == y
    requires multiset(a) == multiset(b)
    ensures SortList(digest, f, a) == SortList(digest, f, b)
  {
    hide StrLe, SortStrings, SortBy;
    if ByDigest(f) { DigestsAlike(digest, a, b); } else { SortStringsCanonical(a, b); }
  }

  lemma DigestsAlike(digest: string -> string, a: seq<string>, b: seq<string>)
    requires forall x, y :: digest(x) == digest(y) ==> x == y
    requires multiset(a) == multiset(b)
    ensures SortBy((x: string, y: string) => StrLe(digest(x), digest(y)), a)
         == SortBy((x: string, y: string) => StrLe(digest(x), digest(y)), b)
  {
    hide StrLe, SortBy;
    StrIsTotalOrder();
    SortCanonical((x: string, y: string) => StrLe(digest(x), digest(y)), a, b);
  }

  // ----------------------------------------------------------------- collections

  /** The id-keyed collections of an IR. */
  const ID_KEYED := {
    "principals", "resources", "effects", "conditions", "guards", "guard_effectiveness_evidence",
    "interpretation_compatibility_evidence", "guard_dominance_evidence", "authorization_cut_set_evidence",
    "authorization_control_point_evidence", "value_origin_evidence", "bypass_authority_evidence",
    "helper_effectiveness_evidence", "protected_effects", "resource_bindings", "resource_return_contracts",
    "function_contracts", "contract_uses", "paths", "claims"}

  /** The collections that a payload without elements of them does not mention. */
  const ADDITIVE := {
    "interpretation_compatibility_evidence", "guard_dominance_evidence", "authorization_cut_set_evidence",
    "authorization_control_point_evidence", "value_origin_evidence", "bypass_authority_evidence",
    "helper_effectiveness_evidence"}

  lemma TablesExactly()
    ensures forall c :: c in COLLECTIONS <==> c in ID_KEYED
    ensures forall c :: c in EXTENSIONS <==> c in ADDITIVE
    ensures forall f :: f in COVERAGE_LISTS <==> f in {"supported_constructs", "unsupported_constructs", "assumptions"}
  {
    hide *;
    forall c ensures c in COLLECTIONS <==> c in ID_KEYED {
      CollectionIsKeyed(c);
      KeyedIsCollection(c);
    }
    forall c ensures c in EXTENSIONS <==> c in ADDITIVE { ExtensionIsAdditive(c); }
    CoverageNames();
  }

  lemma CoverageNames()
    ensures forall f :: f in COVERAGE_LISTS <==> f in {"supported_constructs", "unsupported_constructs", "assumptions"}
  {
    assert COVERAGE_LISTS[0] == "supported_constructs" && COVERAGE_LISTS[1] == "unsupported_constructs"
      && COVERAGE_LISTS[2] == "assumptions";
  }

  lemma CollectionIsKeyed(c: string)
    ensures c in COLLECTIONS ==> c in ID_KEYED
  {
  }

  lemma KeyedIsCollection(c: string)
    ensures c in ID_KEYED ==> c in COLLECTIONS
  {
    assert COLLECTIONS[0] == "principals" && COLLECTIONS[1] == "resources" && COLLECTIONS[2] == "effects"
      && COLLECTIONS[3] == "conditions" && COLLECTIONS[4] == "guards" && COLLECTIONS[13] == "protected_effects"
      && COLLECTIONS[14] == "resource_bindings" && COLLECTIONS[15] == "resource_return_contracts"
      && COLLECTIONS[16] == "function_contracts" && COLLECTIONS[17] == "contract_uses" && COLLECTIONS[18] == "paths"
      && COLLECTIONS[19] == "claims";
  }

  lemma ExtensionIsAdditive(c: string)
    ensures c in EXTENSIONS <==> c in ADDITIVE
  {
  }

  /** The canonical payload, collection by collection: dropped only where an additive collection is
      empty, and else the canonical elements by id, all of them. */
  lemma CollectionExactly(digest: string -> string, ir: Payload, c: string)
    requires WellTyped(ir)
    ensures var p := CanonicalOf(digest, ir);
      && (c in p.collections <==> c in ID_KEYED && !(c in ADDITIVE && ir.collections[c] == []))
      && (c in p.collections ==>
          && multiset(p.collections[c]) == multiset(Map(Canon(digest, c), Resolved(c, ir.collections[c])))
          && forall i, j :: 0 <= i < j < |p.collections[c]| ==> StrLe(p.collections[c][i].id, p.collections[c][j].id))
      && p.assumptions == ir.assumptions && p.rest == ir.rest
  {
    TablesExactly();
    hide COLLECTIONS, EXTENSIONS, COVERAGE_LISTS, ID_KEYED, ADDITIVE, StrLe, Canon, Resolved, WellTypedItem, Map;
    StrIsTotalOrder();
    if c in ir.collections {
      SortBySorted(ItemLe, Map(Canon(digest, c), Resolved(c, ir.collections[c])));
    }
  }

  /** The three coverage lists are sorted and keep their entries. */
  lemma CoverageExactly(digest: string -> string, ir: Payload, f: string)
    requires WellTyped(ir)
    ensures var p := CanonicalOf(digest, ir);
      && (f in p.coverage <==> f in {"supported_constructs", "unsupported_constructs", "assumptions"})
      && (f in p.coverage ==> multiset(p.coverage[f]) == multiset(ir.coverage[f]) && Sorted(StrLe, p.coverage[f]))
  {
    TablesExactly();
    hide COLLECTIONS, EXTENSIONS, COVERAGE_LISTS, StrLe, WellTypedItem;
  }

  // ------------------------------------------------------------- resource terms

  lemma {:induction false} LastTermsExactly(resources: seq<Item>, x: Item)
    ensures IsLast((y: Item) => y.id, resources, x) ==> LastTerms(resources, x.id) == x.terms
  {
    hide IsLast;
    if resources == [] {
      NothingLast((y: Item) => y.id, x);
    } else {
      var n := |resources| - 1;
      assert resources == resources[..n] + [resources[n]];
      LastTermsExactly(resources[..n], x);
      LastSnoc((y: Item) => y.id, resources[..n], resources[n], x);
    }
  }

  /** Each resource ends up with the terms of the last resource of its id, where that has them; a
      null interpretation is left out of a term. */
  lemma ResolvedExactly(resources: seq<Item>, x: Item, last: Item)
    requires x.id == last.id && IsLast((y: Item) => y.id, resources, last)
    ensures var r := Resolve(resources)(x);
      && r.id == x.id && r.lists == x.lists && r.rest == x.rest
      && r.terms.identity == (if last.terms.identity.Some? then Some(Stated(last.terms.identity.value))
                              else x.terms.identity)
      && r.terms.scope == (if last.terms.scope.Some? then Some(Stated(last.terms.scope.value)) else x.terms.scope)
      && r.terms.attributes.Keys == last.terms.attributes.Keys
      && forall n :: n in last.terms.attributes ==> r.terms.attributes[n] == Stated(last.terms.attributes[n])
  {
    LastTermsExactly(resources, last);
  }

  /** A term as it is stated: kind and value, and an interpretation only where there is one. */
  function Stated(t: Term): Term {
    match t.interpretation
    case Given(members) => t
    case _ => Term(t.kind, t.value, NoKey)
  }
}
