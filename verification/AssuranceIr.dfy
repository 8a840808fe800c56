/** The canonical payload behind every Assurance IR digest (ovk/core/assurance_ir.py). */
module AssuranceIr {
  import opened Ordering
  import opened Text
  import CanonicalJson

  /** The `interpretation` key of a resource identity term: null or given in a model dump,
      missing instead of null in a canonical term. */
  datatype Interpretation = NoKey | Null | Given(members: seq<CanonicalJson.Member>)

  datatype Term = Term(kind: string, value: string, interpretation: Interpretation)

  /** The terms of a resource; elements of other collections have none. */
  datatype Terms = Terms(identity: Option<Term>, scope: Option<Term>, attributes: map<string, Term>)

  const NO_TERMS := Terms(None, None, map[])

  /** One element of an id-keyed collection: its identity, its list-valued fields by name, its
      terms, and everything else, which canonicalization leaves alone. Contract predicates appear
      in `lists` as their canonical texts. */
  datatype Item = Item(id: string, lists: map<string, seq<string>>, terms: Terms, rest: CanonicalJson.JValue)

  /** The dumped model, and with dropped entries also its canonical payload. */
  datatype Payload = Payload(
    collections: map<string, seq<Item>>, coverage: map<string, seq<string>>,
    assumptions: map<string, string>, rest: CanonicalJson.JValue)

  // ---------------------------------------------------------------- field tables

  const RESOURCES := "resources"
  const CUT_SETS := "authorization_cut_set_evidence"
  const NODE_CUTS := "node_control_points"
  const EDGE_CUTS := "edge_control_points"

  const COLLECTIONS := [
    "principals", RESOURCES, "effects", "conditions", "guards", "guard_effectiveness_evidence",
    "interpretation_compatibility_evidence", "guard_dominance_evidence", CUT_SETS,
    "authorization_control_point_evidence", "value_origin_evidence", "bypass_authority_evidence",
    "helper_effectiveness_evidence", "protected_effects", "resource_bindings", "resource_return_contracts",
    "function_contracts", "contract_uses", "paths", "claims"]

  /** Collections whose key disappears from the payload when they are empty. */
  const EXTENSIONS := [
    "interpretation_compatibility_evidence", "guard_dominance_evidence", CUT_SETS,
    "authorization_control_point_evidence", "value_origin_evidence", "bypass_authority_evidence",
    "helper_effectiveness_evidence"]

  const COVERAGE_LISTS := ["supported_constructs", "unsupported_constructs", "assumptions"]

  /** The inner lists that are sorted, per collection. */
  function SortedLists(collection: string): seq<string> {
    if collection == "guards" then ["condition_ids", "effectiveness_evidence_ids"]
    else if collection == "protected_effects" then ["condition_ids"]
    else if collection == "resource_bindings" then ["condition_ids"]
    else if collection == "paths" then
      ["condition_ids", "guard_ids", "protected_effect_ids", "binding_ids", "contract_use_ids",
        "unsupported_constructs", "coverage_assumptions"]
    else if collection == "guard_effectiveness_evidence" then ["assumptions"]
    else if collection == "interpretation_compatibility_evidence" then ["assumptions"]
    else if collection == "bypass_authority_evidence" then ["writer_evidence_ids", "assumptions"]
    else if collection == CUT_SETS then ["guard_ids", "unresolved_guard_ids", NODE_CUTS, EDGE_CUTS]
    else if collection == "function_contracts" then ["depends_on", "preconditions", "postconditions"]
    else if collection == "contract_uses" then ["established_attributes"]
    else if collection == "claims" then ["subject_ids", "assumption_ids", "acceptable_guarantees"]
    else []
  }

  /** Lists that are removed from an element when empty. */
  predicate IsDroppable(collection: string, field: string) {
    collection == CUT_SETS && (field == NODE_CUTS || field == EDGE_CUTS)
  }

  /** Predicates are ordered by their digest, all other entries by their text. */
  predicate ByDigest(field: string) {
    field == "preconditions" || field == "postconditions"
  }

  // ------------------------------------------------------------------- well-typed

  /** What the model classes guarantee: every collection and every sorted list is there, and
      terms are as dumped. */
  ghost predicate WellTyped(ir: Payload) {
    && ir.collections.Keys == (set c | c in COLLECTIONS)
    && ir.coverage.Keys == (set f | f in COVERAGE_LISTS)
    && forall c, x :: c in ir.collections && x in ir.collections[c] ==> WellTypedItem(c, x)
  }

  ghost predicate WellTypedItem(c: string, x: Item) {
    && (forall f :: f in SortedLists(c) ==> f in x.lists)
    && Dumped(x.terms)
  }

  /** No term of a dump lacks its `interpretation` key. */
  predicate Dumped(t: Terms) {
    && (t.identity.Some? ==> !t.identity.value.interpretation.NoKey?)
    && (t.scope.Some? ==> !t.scope.value.interpretation.NoKey?)
    && forall n :: n in t.attributes ==> !t.attributes[n].interpretation.NoKey?
  }

  /** Digests are taken as injective. */
  ghost predicate Injective(digest: string -> string) {
    forall x, y :: digest(x) == digest(y) ==> x == y
  }

  // ---------------------------------------------------------------- canonical form

  function SortList(digest: string -> string, field: string, list: seq<string>): seq<string> {
    if ByDigest(field) then SortBy((x: string, y: string) => StrLe(digest(x), digest(y)), list) else SortStrings(list)
  }

  predicate Keeps(collection: string, x: Item, field: string)
    requires field in x.lists
  {
    !(IsDroppable(collection, field) && x.lists[field] == [])
  }

  function CanonicalItem(digest: string -> string, collection: string, x: Item): Item {
    x.(lists := map f | f in x.lists && Keeps(collection, x, f) ::
      SortedField(digest, collection, x, f))
  }

  predicate ItemLe(a: Item, b: Item) { StrLe(a.id, b.id) }

  function Canon(digest: string -> string, collection: string): Item -> Item {
    (x: Item) => CanonicalItem(digest, collection, x)
  }

  function CanonicalCollection(digest: string -> string, collection: string, items: seq<Item>): seq<Item> {
    SortBy(ItemLe, Map(Canon(digest, collection), items))
  }

  /** `ResourceIdentityTerm.canonical_payload`: a null interpretation is left out. */
  function CanonicalTerm(t: Term): Term {
    if t.interpretation.Null? then t.(interpretation := NoKey) else t
  }

  /** `resources_by_id[id]`: the last resource of an id wins. */
  function LastTerms(resources: seq<Item>, id: string): Terms {
    if resources == [] then NO_TERMS
    else if resources[|resources| - 1].id == id then resources[|resources| - 1].terms
    else LastTerms(resources[..|resources| - 1], id)
  }

  /** The terms an element ends up with: canonical ones of the last resource of its id. Where
      that resource has none, the element keeps its own as dumped. */
  function ResolvedTerms(own: Terms, last: Terms): Terms {
    Terms(if last.identity.Some? then Some(CanonicalTerm(last.identity.value)) else own.identity,
          if last.scope.Some? then Some(CanonicalTerm(last.scope.value)) else own.scope,
          map n | n in last.attributes :: CanonicalTerm(last.attributes[n]))
  }

  function Resolve(resources: seq<Item>): Item -> Item {
    (x: Item) => x.(terms := ResolvedTerms(x.terms, LastTerms(resources, x.id)))
  }

  function Resolved(collection: string, items: seq<Item>): seq<Item> {
    if collection == RESOURCES then Map(Resolve(items), items) else items
  }

  ghost function CanonicalOf(digest: string -> string, ir: Payload): Payload {
    Payload(
      map c | c in ir.collections && !(c in EXTENSIONS && ir.collections[c] == []) ::
        CanonicalCollection(digest, c, Resolved(c, ir.collections[c])),
      map f | f in ir.coverage :: SortStrings(ir.coverage[f]),
      ir.assumptions, ir.rest)
  }

  // --------------------------------------------------------------------- as coded

  function SortedField(digest: string -> string, collection: string, x: Item, f: string): seq<string>
    requires f in x.lists
  {
    if f in SortedLists(collection) then SortList(digest, f, x.lists[f]) else x.lists[f]
  }

  /** The inner loops for one element: sort each listed field, then drop empty control points. */
  method CanonicalizeItem(digest: string -> string, collection: string, x: Item) returns (r: Item)
    requires forall f :: f in SortedLists(collection) ==> f in x.lists
    ensures r == CanonicalItem(digest, collection, x)
  {
    hide SortList, SortedLists, IsDroppable;
    var fields := SortedLists(collection);
    var lists := x.lists;
    for i := 0 to |fields|
      invariant lists.Keys == x.lists.Keys
      invariant forall f :: f in lists ==>
        lists[f] == if f in fields[..i] then SortList(digest, f, x.lists[f]) else x.lists[f]
    {
      assert fields[..i + 1] == fields[..i] + [fields[i]];
      lists := lists[fields[i] := SortList(digest, fields[i], x.lists[fields[i]])];
    }
    assert fields[..|fields|] == fields;
    assert forall f :: f in lists ==> lists[f] == SortedField(digest, collection, x, f);
    lists := DropEmpty(collection, lists);
    r := x.(lists := lists);
    forall f | f in x.lists ensures SortedField(digest, collection, x, f) == [] <==> x.lists[f] == [] {
      SortKeepsEmptiness(digest, f, x.lists[f]);
    }
    assert r.lists == CanonicalItem(digest, collection, x).lists;
  }

  /** `item.pop(...)` for control points that are empty. */
  method DropEmpty(collection: string, lists: map<string, seq<string>>) returns (r: map<string, seq<string>>)
    ensures r == map f | f in lists && !(IsDroppable(collection, f) && lists[f] == []) :: lists[f]
  {
    hide CUT_SETS, NODE_CUTS, EDGE_CUTS;
    r := lists;
    if collection == CUT_SETS {
      if NODE_CUTS in r && r[NODE_CUTS] == [] {
        r := r - {NODE_CUTS};
      }
      if EDGE_CUTS in r && r[EDGE_CUTS] == [] {
        r := r - {EDGE_CUTS};
      }
    }
  }

  lemma SortKeepsEmptiness(digest: string -> string, f: string, list: seq<string>)
    ensures SortList(digest, f, list) == [] <==> list == []
  {
  }

  method CanonicalizeItems(digest: string -> string, collection: string, items: seq<Item>) returns (r: seq<Item>)
    requires forall x, f :: x in items && f in SortedLists(collection) ==> f in x.lists
    ensures r == Map(Canon(digest, collection), items)
  {
    hide CanonicalItem, SortedLists;
    r := [];
    for i := 0 to |items|
      invariant |r| == i && forall j :: 0 <= j < i ==> r[j] == CanonicalItem(digest, collection, items[j])
    {
      var item := CanonicalizeItem(digest, collection, items[i]);
      r := r + [item];
    }
  }

  /** The first loop: every collection sorted by its identity key. */
  method SortCollections(collections: map<string, seq<Item>>) returns (r: map<string, seq<Item>>)
    requires collections.Keys == set c | c in COLLECTIONS
    ensures r == map c | c in collections :: SortBy(ItemLe, collections[c])
  {
    hide COLLECTIONS, SortBy;
    r := collections;
    for i := 0 to |COLLECTIONS|
      invariant r.Keys == collections.Keys
      invariant forall c :: c in r ==>
        r[c] == if c in COLLECTIONS[..i] then SortBy(ItemLe, collections[c]) else collections[c]
    {
      var c := COLLECTIONS[i];
      assert COLLECTIONS[..i + 1] == COLLECTIONS[..i] + [c];
      r := r[c := SortBy(ItemLe, collections[c])];
    }
    assert COLLECTIONS[..|COLLECTIONS|] == COLLECTIONS;
  }

  method SortCoverage(coverage: map<string, seq<string>>) returns (r: map<string, seq<string>>)
    requires coverage.Keys == set f | f in COVERAGE_LISTS
    ensures r == map f | f in coverage :: SortStrings(coverage[f])
  {
    hide COVERAGE_LISTS, SortStrings;
    r := coverage;
    for i := 0 to |COVERAGE_LISTS|
      invariant r.Keys == coverage.Keys
      invariant forall f :: f in r ==>
        r[f] == if f in COVERAGE_LISTS[..i] then SortStrings(coverage[f]) else coverage[f]
    {
      assert COVERAGE_LISTS[..i + 1] == COVERAGE_LISTS[..i] + [COVERAGE_LISTS[i]];
      r := r[COVERAGE_LISTS[i] := SortStrings(coverage[COVERAGE_LISTS[i]])];
    }
    assert COVERAGE_LISTS[..|COVERAGE_LISTS|] == COVERAGE_LISTS;
  }

  /** The loop over the sorted resources. */
  method ResolveResources(resources: seq<Item>, sorted: seq<Item>) returns (r: seq<Item>)
    ensures r == Map(Resolve(resources), sorted)
  {
    hide LastTerms;
    r := [];
    for i := 0 to |sorted|
      invariant |r| == i && forall j :: 0 <= j < i ==> r[j] == Resolve(resources)(sorted[j])
    {
      var x, resource := sorted[i], LastTerms(resources, sorted[i].id);
      var terms := x.terms;
      if resource.identity.Some? {
        terms := terms.(identity := Some(CanonicalTerm(resource.identity.value)));
      }
      if resource.scope.Some? {
        terms := terms.(scope := Some(CanonicalTerm(resource.scope.value)));
      }
      terms := terms.(attributes := map n | n in resource.attributes :: CanonicalTerm(resource.attributes[n]));
      r := r + [x.(terms := terms)];
    }
  }

  /** The inner loops over the elements of each collection. */
  method CanonicalizeCollections(digest: string -> string, collections: map<string, seq<Item>>)
      returns (r: map<string, seq<Item>>)
    requires collections.Keys == set c | c in COLLECTIONS
    requires forall c, x :: c in collections && x in collections[c] ==> forall f :: f in SortedLists(c) ==> f in x.lists
    ensures r == map c | c in collections :: Map(Canon(digest, c), collections[c])
  {
    hide COLLECTIONS, SortedLists, Map, Canon;
    r := collections;
    for i := 0 to |COLLECTIONS|
      invariant r.Keys == collections.Keys
      invariant forall c :: c in r ==>
        r[c] == if c in COLLECTIONS[..i] then Map(Canon(digest, c), collections[c]) else collections[c]
    {
      var c := COLLECTIONS[i];
      assert COLLECTIONS[..i + 1] == COLLECTIONS[..i] + [c];
      var items := CanonicalizeItems(digest, c, collections[c]);
      r := r[c := items];
    }
    assert COLLECTIONS[..|COLLECTIONS|] == COLLECTIONS;
  }

  /** The closing tests: an extension the IR does not use leaves the payload. */
  method DropExtensions(ir: map<string, seq<Item>>, collections: map<string, seq<Item>>)
      returns (r: map<string, seq<Item>>)
    requires ir.Keys == collections.Keys && forall e :: e in EXTENSIONS ==> e in ir
    ensures r == map c | c in collections && !(c in EXTENSIONS && ir[c] == []) :: collections[c]
  {
    hide EXTENSIONS;
    r := collections;
    for i := 0 to |EXTENSIONS|
      invariant r == map c | c in collections && !(c in EXTENSIONS[..i] && ir[c] == []) :: collections[c]
    {
      assert EXTENSIONS[..i + 1] == EXTENSIONS[..i] + [EXTENSIONS[i]];
      if ir[EXTENSIONS[i]] == [] {
        r := r - {EXTENSIONS[i]};
      }
    }
    assert EXTENSIONS[..|EXTENSIONS|] == EXTENSIONS;
  }

  method CanonicalPayload(digest: string -> string, ir: Payload) returns (p: Payload)
    requires WellTyped(ir)
    ensures p == CanonicalOf(digest, ir)
  {
    ResourcesAreCollection();
    ExtensionsAreCollections();
    hide COLLECTIONS, RESOURCES, SortedLists, EXTENSIONS, COVERAGE_LISTS, Map,
      SortBy, SortStrings, Canon, CanonicalCollection;
    hide Resolve, Dumped;
    var collections := SortCollections(ir.collections);
    var resources := ResolveResources(ir.collections[RESOURCES], collections[RESOURCES]);
    collections := collections[RESOURCES := resources];
    var coverage := SortCoverage(ir.coverage);
    forall c: string, x: Item | c in collections && x in collections[c]
      ensures forall f :: f in SortedLists(c) ==> f in x.lists {
      ResolvedLists(c, ir.collections[c], x);
    }
    collections := CanonicalizeCollections(digest, collections);
    forall c | c in ir.collections
      ensures collections[c] == CanonicalCollection(digest, c, Resolved(c, ir.collections[c]))
    {
      SortThenCanonicalize(digest, c, ir.collections[c]);
    }
    collections := DropExtensions(ir.collections, collections);
    p := Payload(collections, coverage, ir.assumptions, ir.rest);
    assert collections == CanonicalOf(digest, ir).collections;
  }

  lemma ResourcesAreCollection()
    ensures RESOURCES in COLLECTIONS
  {
    assert COLLECTIONS[1] == RESOURCES;
  }

  /** Resolving terms leaves the lists alone. */
  lemma ResolvedLists(c: string, items: seq<Item>, x: Item)
    requires forall y :: y in items ==> WellTypedItem(c, y)
    requires x in SortBy(ItemLe, items) || x in Map(Resolve(items), SortBy(ItemLe, items))
    ensures forall f :: f in SortedLists(c) ==> f in x.lists
  {
    hide SortBy, ItemLe, SortedLists, ResolvedTerms, LastTerms, Dumped;
    var sorted := SortBy(ItemLe, items);
    if x !in sorted {
      var resolved := Map(Resolve(items), sorted);
      var i :| 0 <= i < |resolved| && resolved[i] == x;
      assert sorted[i] in sorted;
    }
  }

  lemma ExtensionsAreCollections()
    ensures forall e :: e in EXTENSIONS ==> e in COLLECTIONS
  {
  }

  /** Resolving and canonicalizing elements do not touch the sort key, so the loops may come in
      either order. */
  lemma SortThenCanonicalize(digest: string -> string, c: string, items: seq<Item>)
    ensures var sorted := SortBy(ItemLe, items);
      Map(Canon(digest, c), if c == RESOURCES then Map(Resolve(items), sorted) else sorted)
        == CanonicalCollection(digest, c, Resolved(c, items))
  {
    hide SortBy, SortedLists, LastTerms, ResolvedTerms, StrLe, Map;
    MapSort(Canon(digest, c), ItemLe, ItemLe, Resolved(c, items));
    if c == RESOURCES { MapSort(Resolve(items), ItemLe, ItemLe, items); }
  }
}
