/** What the canonical payload of an Assurance IR identifies (ovk/core/assurance_ir.py). */
module IrIdentity {
  import opened Ordering
  import opened Text
  import opened AssuranceIr
  import CanonicalJson

  // -------------------------------------------------------- a complete invariant

  /** The same element, but for the order inside the lists that are sorted. */
  ghost predicate SameItem(collection: string, x: Item, y: Item) {
    && x.id == y.id && x.rest == y.rest && x.terms == y.terms && x.lists.Keys == y.lists.Keys
    && forall f :: f in x.lists ==> SameList(collection, f, x.lists[f], y.lists[f])
  }

  ghost predicate SameList(collection: string, f: string, x: seq<string>, y: seq<string>) {
    if f in SortedLists(collection) then multiset(x) == multiset(y) else x == y
  }

  function HasId(id: string): Item -> bool {
    (x: Item) => x.id == id
  }

  /** The elements of one id, in order. */
  function GroupOf(items: seq<Item>, id: string): seq<Item> {
    Filter(HasId(id), items)
  }

  ghost predicate SameGroup(collection: string, x: seq<Item>, y: seq<Item>) {
    |x| == |y| && forall i :: 0 <= i < |x| ==> SameItem(collection, x[i], y[i])
  }

  /** The same collection, but for the order of elements with different ids and the order inside
      sorted lists: the elements of each id agree one by one. */
  ghost predicate SameGroups(collection: string, a: seq<Item>, b: seq<Item>) {
    forall id :: SameGroup(collection, GroupOf(a, id), GroupOf(b, id))
  }

  lemma SortListExactly(digest: string -> string, field: string, x: seq<string>, y: seq<string>)
    requires Injective(digest)
    ensures SortList(digest, field, x) == SortList(digest, field, y) <==> multiset(x) == multiset(y)
  {
    hide SortBy, StrLe, SortStrings;
    SortStringsCanonical(x, y);
    StrIsTotalOrder();
    SortCanonical((a: string, b: string) => StrLe(digest(a), digest(b)), x, y);
  }

  /** What stays in an element and what is sorted together determine it up to order. */
  lemma CanonicalItemExactly(digest: string -> string, c: string, x: Item, y: Item)
    requires Injective(digest)
    requires forall f :: IsDroppable(c, f) ==> (f in x.lists <==> f in y.lists)
    ensures CanonicalItem(digest, c, x) == CanonicalItem(digest, c, y) <==> SameItem(c, x, y)
  {
    hide SortList, SortedLists, IsDroppable;
    var p, q := CanonicalItem(digest, c, x).lists, CanonicalItem(digest, c, y).lists;
    forall f, a, b ensures SortList(digest, f, a) == SortList(digest, f, b) <==> multiset(a) == multiset(b) {
      SortListExactly(digest, f, a, b);
    }
    if p == q {
      forall f ensures f in x.lists <==> f in y.lists {
        assert f in p <==> f in q;
      }
      forall f | f in x.lists ensures SameList(c, f, x.lists[f], y.lists[f]) {
        assert f in p <==> f in q;
        if f in p { assert p[f] == q[f]; }
      }
    }
    if SameItem(c, x, y) {
      forall f | f in x.lists
        ensures x.lists[f] == [] <==> y.lists[f] == []
        ensures SortedField(digest, c, x, f) == SortedField(digest, c, y, f)
      {
        assert SameList(c, f, x.lists[f], y.lists[f]);
        assert |multiset(x.lists[f])| == |x.lists[f]| && |multiset(y.lists[f])| == |y.lists[f]|;
      }
      assert p == q;
    }
  }

  /** Elements of both collections carry the droppable lists alike. */
  ghost predicate Comparable(c: string, a: seq<Item>, b: seq<Item>) {
    forall x, y, f :: x in a && y in b && IsDroppable(c, f) ==> f in x.lists && f in y.lists
  }

  /** Ties of the sort are the elements of one id. */
  lemma TiesAreGroups(digest: string -> string, c: string, items: seq<Item>, k: Item)
    ensures Filter(TiedWith(ItemLe, k), Map(Canon(digest, c), items)) == Map(Canon(digest, c), GroupOf(items, k.id))
  {
    hide CanonicalItem, Filter;
    KeepsIds(digest, c);
    forall x ensures TiedWith(ItemLe, k)(Canon(digest, c)(x)) == HasId(k.id)(x) { TiedById(k, Canon(digest, c)(x)); }
    FilterMap(Canon(digest, c), HasId(k.id), TiedWith(ItemLe, k), items);
  }

  lemma ItemOrder()
    ensures TotalPreorder(ItemLe)
  {
    StrIsTotalOrder();
    hide StrLe;
  }

  lemma TiedById(k: Item, x: Item)
    ensures TiedWith(ItemLe, k)(x) <==> x.id == k.id
  {
    LexTotal(Codes(k.id), Codes(k.id));
    if StrLe(x.id, k.id) && StrLe(k.id, x.id) {
      LexAntisymmetric(Codes(x.id), Codes(k.id));
      CodesInjective(x.id, k.id);
    }
    assert TiedWith(ItemLe, k)(x) <==> ItemLe(x, k) && ItemLe(k, x);
  }

  lemma KeepsIds(digest: string -> string, c: string)
    ensures forall x :: CanonicalItem(digest, c, x).id == x.id
  {
  }

  lemma {:induction false} FilterMap(f: Item -> Item, keep: Item -> bool, keepMapped: Item -> bool, s: seq<Item>)
    requires forall x :: keepMapped(f(x)) == keep(x)
    ensures Filter(keepMapped, Map(f, s)) == Map(f, Filter(keep, s))
  {
    if s != [] {
      FilterMap(f, keep, keepMapped, s[1..]);
      assert Map(f, s)[1..] == Map(f, s[1..]);
    }
  }

  lemma GroupExactly(digest: string -> string, c: string, x: seq<Item>, y: seq<Item>)
    requires Injective(digest) && Comparable(c, x, y)
    ensures Map(Canon(digest, c), x) == Map(Canon(digest, c), y) <==> SameGroup(c, x, y)
  {
    hide CanonicalItem, SameItem, IsDroppable;
    var p, q := Map(Canon(digest, c), x), Map(Canon(digest, c), y);
    forall i | 0 <= i < |x| && i < |y| ensures p[i] == q[i] <==> SameItem(c, x[i], y[i]) {
      assert x[i] in x && y[i] in y;
      CanonicalItemExactly(digest, c, x[i], y[i]);
    }
    if SameGroup(c, x, y) { assert p == q; }
  }

  /** A canonical collection identifies exactly the collections with the same groups, whether or
      not ids repeat. */
  lemma CanonicalCollectionExactly(digest: string -> string, c: string, a: seq<Item>, b: seq<Item>)
    requires Injective(digest) && Comparable(c, a, b)
    ensures CanonicalCollection(digest, c, a) == CanonicalCollection(digest, c, b) <==> SameGroups(c, a, b)
  {
    hide *;
    var p, q := Map(Canon(digest, c), a), Map(Canon(digest, c), b);
    ItemOrder();
    StableCanonical(ItemLe, p, q);
    forall k: Item
      ensures Filter(TiedWith(ItemLe, k), p) == Filter(TiedWith(ItemLe, k), q)
        <==> SameGroup(c, GroupOf(a, k.id), GroupOf(b, k.id))
    {
      TiesAreGroups(digest, c, a, k);
      TiesAreGroups(digest, c, b, k);
      GroupsComparable(c, a, b, k.id);
      GroupExactly(digest, c, GroupOf(a, k.id), GroupOf(b, k.id));
    }
    GroupsOfItems(c, a, b);
    Unfolded(digest, c, a);
    Unfolded(digest, c, b);
  }

  lemma Unfolded(digest: string -> string, c: string, items: seq<Item>)
    ensures CanonicalCollection(digest, c, items) == SortBy(ItemLe, Map(Canon(digest, c), items))
  {
  }

  lemma GroupsComparable(c: string, a: seq<Item>, b: seq<Item>, id: string)
    requires Comparable(c, a, b)
    ensures Comparable(c, GroupOf(a, id), GroupOf(b, id))
  {
    hide IsDroppable;
  }

  /** Every id is the id of some element. */
  lemma GroupsOfItems(c: string, a: seq<Item>, b: seq<Item>)
    ensures SameGroups(c, a, b) <==> forall k: Item :: SameGroup(c, GroupOf(a, k.id), GroupOf(b, k.id))
  {
    hide SameGroup, GroupOf;
    if forall k: Item :: SameGroup(c, GroupOf(a, k.id), GroupOf(b, k.id)) {
      forall id ensures SameGroup(c, GroupOf(a, id), GroupOf(b, id)) {
        var k := Item(id, map[], NO_TERMS, CanonicalJson.JNull);
        assert SameGroup(c, GroupOf(a, k.id), GroupOf(b, k.id));
      }
    }
  }

  // ------------------------------------------------------------- whole payloads

  /** Two IRs that mean the same: the same groups of elements, each with the terms it ends up
      with, and the same coverage, assumptions and remaining fields. */
  ghost predicate SameMeaning(a: Payload, b: Payload) {
    && (forall c :: c in a.collections && c in b.collections ==>
          SameGroups(c, Resolved(c, a.collections[c]), Resolved(c, b.collections[c])))
    && (forall f :: f in a.coverage && f in b.coverage ==> multiset(a.coverage[f]) == multiset(b.coverage[f]))
    && a.assumptions == b.assumptions && a.rest == b.rest
  }

  lemma SameGroupsEmpty(c: string, a: seq<Item>, b: seq<Item>)
    requires SameGroups(c, a, b)
    ensures a == [] <==> b == []
  {
    hide SameItem;
    if a != [] { assert a[0] in GroupOf(a, a[0].id); assert SameGroup(c, GroupOf(a, a[0].id), GroupOf(b, a[0].id)); }
    if b != [] { assert b[0] in GroupOf(b, b[0].id); assert SameGroup(c, GroupOf(a, b[0].id), GroupOf(b, b[0].id)); }
  }

  lemma ResolvedKeeps(c: string, items: seq<Item>)
    ensures |Resolved(c, items)| == |items|
    ensures forall i :: 0 <= i < |items| ==> Resolved(c, items)[i].lists == items[i].lists
    ensures forall i :: 0 <= i < |items| ==> Resolved(c, items)[i].id == items[i].id
  {
    hide LastTerms, ResolvedTerms;
  }

  lemma DroppableIsSorted(c: string, f: string)
    requires IsDroppable(c, f)
    ensures c in COLLECTIONS && f in SortedLists(c)
  {
  }

  lemma ResolvedComparable(c: string, a: seq<Item>, b: seq<Item>)
    requires forall x :: x in a ==> WellTypedItem(c, x)
    requires forall x :: x in b ==> WellTypedItem(c, x)
    ensures Comparable(c, Resolved(c, a), Resolved(c, b))
  {
    hide IsDroppable, SortedLists, Resolved, Dumped;
    ResolvedKeeps(c, a);
    ResolvedKeeps(c, b);
    forall x, y, f | x in Resolved(c, a) && y in Resolved(c, b) && IsDroppable(c, f)
      ensures f in x.lists && f in y.lists {
      DroppableIsSorted(c, f);
      var i :| 0 <= i < |a| && Resolved(c, a)[i] == x;
      var j :| 0 <= j < |b| && Resolved(c, b)[j] == y;
      assert a[i] in a && b[j] in b;
    }
  }

  /** Whole-payload equality, collection by collection. */
  lemma CollectionsExactly(digest: string -> string, a: Payload, b: Payload)
    requires a.collections.Keys == b.collections.Keys
    requires forall c :: c in a.collections ==>
      var x, y := Resolved(c, a.collections[c]), Resolved(c, b.collections[c]);
      CanonicalCollection(digest, c, x) == CanonicalCollection(digest, c, y) <==> SameGroups(c, x, y)
    ensures CanonicalOf(digest, a).collections == CanonicalOf(digest, b).collections
       <==> forall c :: c in a.collections ==>
         SameGroups(c, Resolved(c, a.collections[c]), Resolved(c, b.collections[c]))
  {
    hide CanonicalCollection, SameGroups, EXTENSIONS, Resolved;
    var p, q := CanonicalOf(digest, a).collections, CanonicalOf(digest, b).collections;
    if p == q {
      forall c | c in a.collections
        ensures SameGroups(c, Resolved(c, a.collections[c]), Resolved(c, b.collections[c])) {
        assert c in p <==> c in q;
        ResolvedKeeps(c, a.collections[c]);
        ResolvedKeeps(c, b.collections[c]);
        if c in p {
          assert p[c] == q[c];
        } else {
          assert Resolved(c, a.collections[c]) == [] == Resolved(c, b.collections[c]);
        }
      }
    }
    if forall c :: c in a.collections ==> SameGroups(c, Resolved(c, a.collections[c]), Resolved(c, b.collections[c])) {
      forall c | c in a.collections ensures a.collections[c] == [] <==> b.collections[c] == [] {
        SameGroupsEmpty(c, Resolved(c, a.collections[c]), Resolved(c, b.collections[c]));
        ResolvedKeeps(c, a.collections[c]);
        ResolvedKeeps(c, b.collections[c]);
      }
      assert p == q;
    }
  }

  lemma CoverageExactly(digest: string -> string, a: Payload, b: Payload)
    requires a.coverage.Keys == b.coverage.Keys
    ensures CanonicalOf(digest, a).coverage == CanonicalOf(digest, b).coverage
       <==> forall f :: f in a.coverage ==> multiset(a.coverage[f]) == multiset(b.coverage[f])
  {
    hide SortStrings;
    forall f | f in a.coverage
      ensures SortStrings(a.coverage[f]) == SortStrings(b.coverage[f])
        <==> multiset(a.coverage[f]) == multiset(b.coverage[f])
    {
      SortStringsCanonical(a.coverage[f], b.coverage[f]);
    }
    var p, q := CanonicalOf(digest, a).coverage, CanonicalOf(digest, b).coverage;
    if p == q {
      forall f | f in a.coverage ensures multiset(a.coverage[f]) == multiset(b.coverage[f]) { assert p[f] == q[f]; }
    }
  }

  lemma PayloadParts(digest: string -> string, a: Payload, b: Payload)
    ensures CanonicalOf(digest, a) == CanonicalOf(digest, b) <==>
      && CanonicalOf(digest, a).collections == CanonicalOf(digest, b).collections
      && CanonicalOf(digest, a).coverage == CanonicalOf(digest, b).coverage
      && a.assumptions == b.assumptions && a.rest == b.rest
  {
  }

  /** The canonical payload is a complete invariant of meaning, for every well-typed IR: repeated
      ids included. Dropping empty extension collections and empty control-point lists loses
      nothing. */
  lemma PayloadExactly(digest: string -> string, a: Payload, b: Payload)
    requires Injective(digest) && WellTyped(a) && WellTyped(b)
    ensures CanonicalOf(digest, a) == CanonicalOf(digest, b) <==> SameMeaning(a, b)
  {
    hide COLLECTIONS, COVERAGE_LISTS, SortedLists, CanonicalCollection, SameGroups, Injective, Resolved, WellTypedItem;
    forall c | c in a.collections
      ensures var x, y := Resolved(c, a.collections[c]), Resolved(c, b.collections[c]);
        CanonicalCollection(digest, c, x) == CanonicalCollection(digest, c, y) <==> SameGroups(c, x, y)
    {
      ResolvedComparable(c, a.collections[c], b.collections[c]);
      CanonicalCollectionExactly(digest, c, Resolved(c, a.collections[c]), Resolved(c, b.collections[c]));
    }
    CollectionsExactly(digest, a, b);
    CoverageExactly(digest, a, b);
    hide CanonicalOf;
    assert CanonicalOf(digest, a) == CanonicalOf(digest, b) <==> SameMeaning(a, b) by { PayloadParts(digest, a, b); }
  }

  // ---------------------------------------------------------------- resource terms

  /** Of the optional terms of two groups, what the last resources have; the others' own count
      only where those have none. */
  predicate SameOptional(l: Option<Term>, m: Option<Term>, own: bool) {
    if l.Some? || m.Some? then l == m else own
  }

  /** What the terms of two groups of resources of one id must share. */
  predicate SameTerms(x: seq<Item>, y: seq<Item>)
    requires |x| == |y| > 0
  {
    var l, m := x[|x| - 1].terms, y[|y| - 1].terms;
    && l.attributes == m.attributes
    && SameOptional(l.identity, m.identity, forall i :: 0 <= i < |x| ==> x[i].terms.identity == y[i].terms.identity)
    && SameOptional(l.scope, m.scope, forall i :: 0 <= i < |x| ==> x[i].terms.scope == y[i].terms.scope)
  }

  /** What two groups of resources of one id must share: everything but the terms one by one, and
      of the terms what the last resources have. */
  ghost predicate SameResources(x: seq<Item>, y: seq<Item>) {
    && |x| == |y|
    && (forall i :: 0 <= i < |x| ==> SameItem(RESOURCES, x[i].(terms := NO_TERMS), y[i].(terms := NO_TERMS)))
    && (x != [] ==> SameTerms(x, y))
  }

  lemma {:induction false} LastOfGroup(items: seq<Item>, id: string)
    ensures var g := GroupOf(items, id); LastTerms(items, id) == if g == [] then NO_TERMS else g[|g| - 1].terms
  {
    if items != [] {
      var n := |items| - 1;
      LastOfGroup(items[..n], id);
      assert items == items[..n] + [items[n]];
      FilterSnoc(HasId(id), items[..n], items[n]);
    }
  }

  lemma ResolvedGroup(items: seq<Item>, id: string)
    ensures GroupOf(Map(Resolve(items), items), id) == Map(Resolve(items), GroupOf(items, id))
  {
    hide LastTerms, ResolvedTerms;
    FilterMap(Resolve(items), HasId(id), HasId(id), items);
  }

  lemma CanonicalTermExactly(s: Term, t: Term)
    requires !s.interpretation.NoKey? && !t.interpretation.NoKey?
    ensures CanonicalTerm(s) == CanonicalTerm(t) <==> s == t
  {
  }

  lemma AttributesExactly(s: Terms, t: Terms)
    requires Dumped(s) && Dumped(t)
    ensures ResolvedTerms(NO_TERMS, s).attributes == ResolvedTerms(NO_TERMS, t).attributes
      <==> s.attributes == t.attributes
  {
    hide CanonicalTerm;
    var p, q := ResolvedTerms(NO_TERMS, s).attributes, ResolvedTerms(NO_TERMS, t).attributes;
    if p == q {
      forall n ensures n in s.attributes <==> n in t.attributes { assert n in p <==> n in q; }
      forall n | n in s.attributes ensures s.attributes[n] == t.attributes[n] {
        assert p[n] == q[n];
        CanonicalTermExactly(s.attributes[n], t.attributes[n]);
      }
    }
  }

  lemma OptionalExactly(l: Option<Term>, m: Option<Term>, x: Option<Term>, y: Option<Term>)
    requires (l.Some? ==> !l.value.interpretation.NoKey?) && (m.Some? ==> !m.value.interpretation.NoKey?)
    ensures var p := if l.Some? then Some(CanonicalTerm(l.value)) else x;
      var q := if m.Some? then Some(CanonicalTerm(m.value)) else y;
      && (l.Some? && m.Some? ==> (p == q <==> l == m))
      && (l.None? && m.None? ==> (p == q <==> x == y))
  {
  }

  lemma SameTermsExactly(x: seq<Item>, y: seq<Item>)
    requires |x| == |y| > 0 && Dumped(x[|x| - 1].terms) && Dumped(y[|y| - 1].terms)
    ensures SameTerms(x, y) <==>
      forall i :: 0 <= i < |x| ==>
        ResolvedTerms(x[i].terms, x[|x| - 1].terms) == ResolvedTerms(y[i].terms, y[|y| - 1].terms)
  {
    var n := |x| - 1;
    var l, m := x[n].terms, y[n].terms;
    AttributesExactly(l, m);
    OptionalExactly(l.identity, m.identity, None, None);
    OptionalExactly(l.scope, m.scope, None, None);
    hide CanonicalTerm, Dumped;
    if forall i :: 0 <= i < |x| ==> ResolvedTerms(x[i].terms, l) == ResolvedTerms(y[i].terms, m) {
      assert ResolvedTerms(x[n].terms, l) == ResolvedTerms(y[n].terms, m);
    }
  }

  lemma PointwiseSame(x: seq<Item>, y: seq<Item>, p: seq<Item>, q: seq<Item>)
    requires |x| == |p| == |y| == |q|
    requires forall i :: 0 <= i < |x| ==> p[i] == x[i].(terms := p[i].terms)
    requires forall i :: 0 <= i < |y| ==> q[i] == y[i].(terms := q[i].terms)
    ensures SameGroup(RESOURCES, p, q) <==>
      && (forall i :: 0 <= i < |x| ==> SameItem(RESOURCES, x[i].(terms := NO_TERMS), y[i].(terms := NO_TERMS)))
      && forall i :: 0 <= i < |x| ==> p[i].terms == q[i].terms
  {
    hide SameItem, RESOURCES;
    forall i | 0 <= i < |x|
      ensures SameItem(RESOURCES, p[i], q[i]) <==>
        SameItem(RESOURCES, x[i].(terms := NO_TERMS), y[i].(terms := NO_TERMS)) && p[i].terms == q[i].terms
    {
      SameBare(RESOURCES, x[i], y[i], p[i].terms, q[i].terms);
    }
  }

  lemma SameResourcesExactly(x: seq<Item>, y: seq<Item>, p: seq<Item>, q: seq<Item>)
    requires |x| == |p| && |y| == |q| && x != [] && y != []
    requires Dumped(x[|x| - 1].terms) && Dumped(y[|y| - 1].terms)
    requires forall i :: 0 <= i < |x| ==> p[i] == x[i].(terms := ResolvedTerms(x[i].terms, x[|x| - 1].terms))
    requires forall i :: 0 <= i < |y| ==> q[i] == y[i].(terms := ResolvedTerms(y[i].terms, y[|y| - 1].terms))
    ensures SameGroup(RESOURCES, p, q) <==> SameResources(x, y)
  {
    hide SameItem, Dumped, RESOURCES, ResolvedTerms, SameTerms;
    if |x| == |y| {
      hide SameGroup;
      SameTermsExactly(x, y);
      PointwiseSame(x, y, p, q);
    }
  }

  lemma SameBare(c: string, x: Item, y: Item, s: Terms, t: Terms)
    ensures SameItem(c, x.(terms := s), y.(terms := t)) <==>
      SameItem(c, x.(terms := NO_TERMS), y.(terms := NO_TERMS)) && s == t
  {
    hide SameList;
  }

  /** Resources, exactly: what the canonical payload keeps of each group of one id. */
  lemma ResourcesExactly(a: seq<Item>, b: seq<Item>)
    requires forall x :: x in a || x in b ==> Dumped(x.terms)
    ensures SameGroups(RESOURCES, Resolved(RESOURCES, a), Resolved(RESOURCES, b))
       <==> forall id :: SameResources(GroupOf(a, id), GroupOf(b, id))
  {
    hide SameResources, SameGroup, GroupOf, Dumped, Resolved;
    forall id
      ensures SameGroup(RESOURCES, GroupOf(Resolved(RESOURCES, a), id), GroupOf(Resolved(RESOURCES, b), id))
         <==> SameResources(GroupOf(a, id), GroupOf(b, id))
    {
      ResourceGroupExactly(a, b, id);
    }
  }

  lemma ResourceGroupExactly(a: seq<Item>, b: seq<Item>, id: string)
    requires forall x :: x in a || x in b ==> Dumped(x.terms)
    ensures SameGroup(RESOURCES, GroupOf(Resolved(RESOURCES, a), id), GroupOf(Resolved(RESOURCES, b), id))
       <==> SameResources(GroupOf(a, id), GroupOf(b, id))
  {
    hide *;
    var x, y := GroupOf(a, id), GroupOf(b, id);
    var p, q := GroupOf(Resolved(RESOURCES, a), id), GroupOf(Resolved(RESOURCES, b), id);
    GroupMembers(a, id);
    GroupMembers(b, id);
    if x != [] && y != [] {
      assert x[|x| - 1] in x && y[|y| - 1] in y;
      SameResourcesExactly(x, y, p, q);
    } else {
      EmptyGroups(x, y, p, q);
    }
  }

  lemma GroupMembers(items: seq<Item>, id: string)
    ensures forall x :: x in GroupOf(items, id) ==> x in items
    ensures var x, p := GroupOf(items, id), GroupOf(Resolved(RESOURCES, items), id);
      |p| == |x| && forall i :: 0 <= i < |x| ==> p[i] == x[i].(terms := ResolvedTerms(x[i].terms, x[|x| - 1].terms))
  {
    hide ResolvedTerms, LastTerms;
    ResolvedGroup(items, id);
    LastOfGroup(items, id);
    var x := GroupOf(items, id);
    forall i | 0 <= i < |x| ensures x[i].id == id { assert x[i] in x; }
  }

  lemma EmptyGroups(x: seq<Item>, y: seq<Item>, p: seq<Item>, q: seq<Item>)
    requires |x| == |p| && |y| == |q| && (x == [] || y == [])
    ensures SameGroup(RESOURCES, p, q) <==> SameResources(x, y)
  {
  }

  // ------------------------------------------------------------------- unique ids

  ghost predicate UniqueIds(items: seq<Item>) {
    forall i, j :: 0 <= i < j < |items| ==> items[i].id != items[j].id
  }

  /** The same collection, but for the order of its elements and inside their sorted lists. */
  ghost predicate SameCollection(collection: string, a: seq<Item>, b: seq<Item>) {
    |a| == |b| && forall x :: x in a ==> exists y :: y in b && SameItem(collection, x, y)
  }

  /** Two IRs that differ only by reorderings that carry no meaning. */
  ghost predicate SameUpToOrder(a: Payload, b: Payload) {
    && (forall c :: c in a.collections && c in b.collections ==> SameCollection(c, a.collections[c], b.collections[c]))
    && (forall f :: f in a.coverage && f in b.coverage ==> multiset(a.coverage[f]) == multiset(b.coverage[f]))
    && a.assumptions == b.assumptions && a.rest == b.rest
  }

  lemma {:induction false} UniqueGroup(items: seq<Item>, x: Item)
    requires UniqueIds(items) && x in items
    ensures GroupOf(items, x.id) == [x]
  {
    var n := |items| - 1;
    var front, last := items[..n], items[n];
    assert items == front + [last];
    FilterSnoc(HasId(x.id), front, last);
    if x == last {
      NoGroup(front, x.id);
    } else {
      UniqueGroup(front, x);
    }
  }

  lemma NoGroup(items: seq<Item>, id: string)
    ensures (forall x :: x in items ==> x.id != id) ==> GroupOf(items, id) == []
  {
    var g := GroupOf(items, id);
    assert forall x :: x in g ==> x in items && x.id == id;
    assert |g| > 0 ==> g[0] in g;
  }

  function IdOf(x: Item): string { x.id }

  lemma UniqueIdsDistinct(items: seq<Item>)
    requires UniqueIds(items)
    ensures Distinct(Map(IdOf, items))
  {
  }

  lemma IdsOfItems(items: seq<Item>, id: string)
    ensures id in Map(IdOf, items) <==> exists x :: x in items && x.id == id
  {
    var ids := Map(IdOf, items);
    if id in ids { var i :| 0 <= i < |ids| && ids[i] == id; assert items[i] in items; }
    if x :| x in items && x.id == id { var i :| 0 <= i < |items| && items[i] == x; assert ids[i] == id; }
  }

  /** With unique ids on both sides, having the same groups is being the same collection. */
  lemma UniqueGroups(c: string, a: seq<Item>, b: seq<Item>)
    requires UniqueIds(a) && UniqueIds(b)
    ensures SameGroups(c, a, b) <==> SameCollection(c, a, b)
  {
    hide SameItem, GroupOf, UniqueIds;
    if SameGroups(c, a, b) {
      SameGroupsMatch(c, a, b);
    }
    if SameCollection(c, a, b) {
      forall id ensures SameGroup(c, GroupOf(a, id), GroupOf(b, id)) { SameCollectionGroup(c, a, b, id); }
    }
  }

  lemma SameGroupsMatch(c: string, a: seq<Item>, b: seq<Item>)
    requires UniqueIds(a) && UniqueIds(b) && SameGroups(c, a, b)
    ensures SameCollection(c, a, b)
  {
    hide SameItem, GroupOf, UniqueIds;
    forall x | x in a ensures exists y :: y in b && y.id == x.id && SameItem(c, x, y) {
      UniqueGroup(a, x);
      var g := GroupOf(b, x.id);
      assert SameGroup(c, [x], g);
      assert g[0] in g;
      GroupsWithin(b, x.id);
    }
    forall y | y in b ensures exists x :: x in a && x.id == y.id {
      UniqueGroup(b, y);
      var g := GroupOf(a, y.id);
      assert SameGroup(c, g, [y]);
      assert g[0] in g;
      GroupsWithin(a, y.id);
    }
    forall id ensures id in Map(IdOf, a) <==> id in Map(IdOf, b) {
      IdsOfItems(a, id);
      IdsOfItems(b, id);
    }
    UniqueIdsDistinct(a);
    UniqueIdsDistinct(b);
    DistinctSameMembers(Map(IdOf, a), Map(IdOf, b));
    assert |multiset(Map(IdOf, a))| == |multiset(Map(IdOf, b))|;
  }

  lemma GroupsWithin(items: seq<Item>, id: string)
    ensures forall x :: x in GroupOf(items, id) <==> x in items && x.id == id
  {
  }

  lemma SameCollectionGroup(c: string, a: seq<Item>, b: seq<Item>, id: string)
    requires UniqueIds(a) && UniqueIds(b) && SameCollection(c, a, b)
    ensures SameGroup(c, GroupOf(a, id), GroupOf(b, id))
  {
    hide GroupOf, UniqueIds, SameList;
    if x :| x in a && x.id == id {
      var y :| y in b && SameItem(c, x, y);
      UniqueGroup(a, x);
      UniqueGroup(b, y);
    } else {
      NoGroup(a, id);
      forall i ensures i in Map(IdOf, a) ==> i in Map(IdOf, b) {
        IdsOfItems(a, i);
        IdsOfItems(b, i);
      }
      UniqueIdsDistinct(a);
      DistinctSubset(Map(IdOf, a), Map(IdOf, b));
      SameMembers(Map(IdOf, a), Map(IdOf, b));
      IdsOfItems(a, id);
      IdsOfItems(b, id);
      NoGroup(b, id);
    }
  }

  lemma OneResource(x: seq<Item>, y: seq<Item>)
    requires |x| <= 1 && |y| <= 1
    ensures SameResources(x, y) <==> SameGroup(RESOURCES, x, y)
  {
  }

  lemma UniqueGroupSize(items: seq<Item>, id: string)
    requires UniqueIds(items)
    ensures |GroupOf(items, id)| <= 1
  {
    hide GroupOf, UniqueIds;
    if x :| x in items && x.id == id { UniqueGroup(items, x); } else { NoGroup(items, id); }
  }

  /** With unique ids resolving terms loses nothing. */
  lemma UniqueResolved(c: string, a: seq<Item>, b: seq<Item>)
    requires UniqueIds(a) && UniqueIds(b) && forall x :: x in a || x in b ==> Dumped(x.terms)
    ensures SameGroups(c, Resolved(c, a), Resolved(c, b)) <==> SameCollection(c, a, b)
  {
    UniqueGroups(c, a, b);
    if c == RESOURCES {
      hide GroupOf, UniqueIds, Resolved, SameResources, SameGroup, Dumped, SameCollection;
      ResourcesExactly(a, b);
      forall id ensures SameResources(GroupOf(a, id), GroupOf(b, id))
        <==> SameGroup(RESOURCES, GroupOf(a, id), GroupOf(b, id)) {
        UniqueGroupSize(a, id);
        UniqueGroupSize(b, id);
        OneResource(GroupOf(a, id), GroupOf(b, id));
      }
    }
  }

  /** With unique ids the payload identifies exactly the IRs that differ by meaningless
      reorderings. */
  lemma UniquePayloadExactly(digest: string -> string, a: Payload, b: Payload)
    requires Injective(digest) && WellTyped(a) && WellTyped(b)
    requires forall c :: c in a.collections ==> UniqueIds(a.collections[c]) && UniqueIds(b.collections[c])
    ensures CanonicalOf(digest, a) == CanonicalOf(digest, b) <==> SameUpToOrder(a, b)
  {
    hide COLLECTIONS, COVERAGE_LISTS, SortedLists, CanonicalOf, SameGroups,
      Injective, Resolved, UniqueIds, SameCollection, Dumped;
    PayloadExactly(digest, a, b);
    forall c | c in a.collections
      ensures SameGroups(c, Resolved(c, a.collections[c]), Resolved(c, b.collections[c]))
         <==> SameCollection(c, a.collections[c], b.collections[c])
    {
      UniqueResolved(c, a.collections[c], b.collections[c]);
    }
  }

  // ------------------------------------------------------- what repeated ids do

  const TWIN_A := Item("twin", map[], NO_TERMS, CanonicalJson.JBool(true))
  const TWIN_B := Item("twin", map[], NO_TERMS, CanonicalJson.JBool(false))

  /** Two elements of one id keep their order: reordering them changes the payload. */
  lemma DuplicateIdsKeepOrder(digest: string -> string)
    requires Injective(digest)
    ensures SameCollection("principals", [TWIN_A, TWIN_B], [TWIN_B, TWIN_A])
    ensures CanonicalCollection(digest, "principals", [TWIN_A, TWIN_B])
      != CanonicalCollection(digest, "principals", [TWIN_B, TWIN_A])
  {
    var a, b := [TWIN_A, TWIN_B], [TWIN_B, TWIN_A];
    TwinGroups();
    hide SameItem, TWIN_A, TWIN_B;
    assert b[0] in b && b[1] in b;
    hide *;
    NothingDroppable("principals", a, b);
    CanonicalCollectionExactly(digest, "principals", a, b);
  }

  lemma NothingDroppable(c: string, a: seq<Item>, b: seq<Item>)
    requires c != CUT_SETS
    ensures Comparable(c, a, b)
  {
  }

  lemma TwinGroups()
    ensures SameItem("principals", TWIN_A, TWIN_A) && SameItem("principals", TWIN_B, TWIN_B)
    ensures !SameGroups("principals", [TWIN_A, TWIN_B], [TWIN_B, TWIN_A])
    ensures "principals" != CUT_SETS
  {
    var a, b := [TWIN_A, TWIN_B], [TWIN_B, TWIN_A];
    assert a[1..] == [TWIN_B] && b[1..] == [TWIN_A];
    assert GroupOf(a, "twin") == a && GroupOf(b, "twin") == b;
    assert !SameGroup("principals", a, b) by { assert !SameItem("principals", a[0], b[0]); }
    assert |"principals"| != |CUT_SETS|;
  }

  const LOST := Item("r", map[], Terms(Some(Term("symbol", "x", Null)), None, map[]), CanonicalJson.JNull)
  const KEPT := Item("r", map[], Terms(Some(Term("symbol", "y", Null)), None, map[]), CanonicalJson.JNull)

  /** Of two resources with one id the payload keeps only the terms of the last. */
  lemma RepeatedResourceLosesTerm(digest: string -> string)
    requires Injective(digest)
    ensures LOST != KEPT
    ensures CanonicalCollection(digest, RESOURCES, Resolved(RESOURCES, [LOST, KEPT]))
         == CanonicalCollection(digest, RESOURCES, Resolved(RESOURCES, [KEPT, KEPT]))
  {
    var a, b := [LOST, KEPT], [KEPT, KEPT];
    assert LOST.terms.identity.value.value[0] != KEPT.terms.identity.value.value[0];
    assert a[..1] == [LOST] && b[..1] == [KEPT];
    assert LastTerms(a, "r") == KEPT.terms == LastTerms(b, "r");
    assert ResolvedTerms(LOST.terms, KEPT.terms) == ResolvedTerms(KEPT.terms, KEPT.terms);
    assert Map(Resolve(a), a) == Map(Resolve(b), b);
  }
}
