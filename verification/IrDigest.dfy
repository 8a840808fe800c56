/** The identity digest of an Assurance IR: the canonical JSON text of its canonical payload
    (ovk/core/assurance_ir.py, ovk/core/bundle.py). */
module IrDigest {
  import opened Ordering
  import opened Text
  import opened CanonicalJson
  import opened AssuranceIr
  import opened IrIdentity

  // ------------------------------------------------------------------ JSON dumps

  function Points(s: string): (r: seq<CodePoint>)
    ensures r == Codes(s)
  {
    seq(|s|, i requires 0 <= i < |s| => s[i] as int)
  }

  function Str(s: string): JValue { JString(Points(s)) }

  function Entries(m: map<string, JValue>, names: seq<string>): (r: seq<Member>)
    requires forall n :: n in names ==> n in m
    ensures |r| == |names| && forall i :: 0 <= i < |names| ==> r[i] == Member(Points(names[i]), m[names[i]])
  {
    if names == [] then [] else [Member(Points(names[0]), m[names[0]])] + Entries(m, names[1..])
  }

  /** A dictionary with string keys. */
  function ObjectOf(m: map<string, JValue>): JValue {
    JObject(Entries(m, SortedSet(m.Keys)))
  }

  function ListJson(list: seq<string>): JValue { JArray(Map(Str, list)) }

  function TermMap(t: Term): map<string, JValue> {
    var m := map["kind" := Str(t.kind), "value" := Str(t.value)];
    match t.interpretation
    case NoKey => m
    case Null => m["interpretation" := JNull]
    case Given(members) => m["interpretation" := JObject(members)]
  }

  function TermJson(t: Term): JValue { ObjectOf(TermMap(t)) }

  function OptionalTermJson(t: Option<Term>): JValue { if t.None? then JNull else TermJson(t.value) }

  function TermsJson(t: Terms): JValue {
    ObjectOf(map["identity_term" := OptionalTermJson(t.identity), "scope_term" := OptionalTermJson(t.scope),
                 "attribute_terms" := ObjectOf(map n | n in t.attributes :: TermJson(t.attributes[n]))])
  }

  function ListsMap(lists: map<string, seq<string>>): map<string, JValue> {
    map f | f in lists :: ListJson(lists[f])
  }

  /** An element, its parts under separate keys. */
  function ItemJson(x: Item): JValue {
    ObjectOf(map["id" := Str(x.id), "lists" := ObjectOf(ListsMap(x.lists)),
                 "terms" := TermsJson(x.terms), "rest" := x.rest])
  }

  function ItemsJson(items: seq<Item>): JValue { JArray(Map(ItemJson, items)) }

  function CollectionsMap(collections: map<string, seq<Item>>): map<string, JValue> {
    map c | c in collections :: ItemsJson(collections[c])
  }

  function StringsMap(m: map<string, string>): map<string, JValue> {
    map k | k in m :: Str(m[k])
  }

  function FieldsMap(collections: JValue, coverage: JValue, assumptions: JValue, rest: JValue): map<string, JValue> {
    map["collections" := collections, "coverage" := coverage, "assumptions" := assumptions, "rest" := rest]
  }

  function PayloadJson(p: Payload): JValue {
    ObjectOf(FieldsMap(ObjectOf(CollectionsMap(p.collections)), ObjectOf(ListsMap(p.coverage)),
                       ObjectOf(StringsMap(p.assumptions)), p.rest))
  }

  // --------------------------------------------------------- normal form of a dump

  /** What the canonical text of a value says. */
  function Normal(v: JValue): JValue { Fused(SortKeys(v)) }

  function NormalMap(m: map<string, JValue>): map<string, JValue> {
    map n | n in m :: Normal(m[n])
  }

  lemma PointsInjective(a: string, b: string)
    requires Points(a) == Points(b)
    ensures a == b
  {
    CodesInjective(a, b);
  }

  lemma PointsPairFree(s: string)
    ensures PairFree(Points(s)) && Fuse(Units(Points(s))) == Points(s)
  {
    FuseUnits(Points(s));
  }

  lemma NormalStr(s: string)
    ensures Normal(Str(s)) == Str(s)
  {
    hide Fuse, Units, PairFree;
    PointsPairFree(s);
  }

  lemma NormalArray(items: seq<JValue>)
    ensures Normal(JArray(items)) == JArray(Map(Normal, items))
  {
    hide SortItems, FusedItems;
    assert FusedItems(SortItems(items)) == Map(Normal, items);
  }

  lemma UniqueEntries(m: map<string, JValue>, names: seq<string>)
    requires Distinct(names) && forall n :: n in names ==> n in m
    ensures UniqueKeys(Entries(m, names))
  {
    hide Points, Entries;
    forall i, j | 0 <= i < j < |names| ensures Points(names[i]) != Points(names[j]) {
      if Points(names[i]) == Points(names[j]) { PointsInjective(names[i], names[j]); }
    }
  }

  lemma SortedEntries(m: map<string, JValue>, names: seq<string>)
    requires Sorted(StrLe, names) && forall n :: n in names ==> n in m
    ensures Sorted(MemberLe, SortValues(Entries(m, names)))
  {
    hide Entries, LexLe, SortKeys, SortValues, Codes, Points;
    var t := SortValues(Entries(m, names));
    forall i, j | 0 <= i < j < |t| ensures MemberLe(t[i], t[j]) { assert StrLe(names[i], names[j]); }
  }

  lemma FusedEntries(m: map<string, JValue>, names: seq<string>)
    requires forall n :: n in names ==> n in m
    ensures FusedMembers(SortValues(Entries(m, names))) == Entries(NormalMap(m), names)
  {
    hide Entries, Fuse, Units, Points, PairFree, FusedMembers, SortValues, SortKeys, Fused;
    forall i | 0 <= i < |names|
      ensures FusedMembers(SortValues(Entries(m, names)))[i] == Entries(NormalMap(m), names)[i] {
      PointsPairFree(names[i]);
      assert names[i] in names;
    }
  }

  /** A list whose keys are sorted stays as it is. */
  lemma SortedStays(t: seq<Member>)
    requires Sorted(MemberLe, t) && Strict(MemberLe, t)
    ensures SortBy(MemberLe, t) == t
  {
    hide MemberLe;
    MemberOrder();
    SortBySorted(MemberLe, t);
    SameMembers(SortBy(MemberLe, t), t);
    SortedUnique(MemberLe, SortBy(MemberLe, t), t);
  }

  lemma NormalObject(m: map<string, JValue>)
    ensures Normal(ObjectOf(m)) == ObjectOf(NormalMap(m))
  {
    assert NormalMap(m).Keys == m.Keys;
    hide SortedSet, MemberLe, SortBy, FusedMembers, SortValues, Entries, NormalMap, Normal, UniqueKeys, Distinct, StrLe;
    var names := SortedSet(m.Keys);
    var entries := Entries(m, names);
    UniqueEntries(m, names);
    SortedEntries(m, names);
    SortedValuesStrict(entries);
    SortedStays(SortValues(entries));
    FusedEntries(m, names);
    NormalOfObject(entries, SortValues(entries));
  }

  lemma NormalOfObject(entries: seq<Member>, t: seq<Member>)
    requires SortBy(MemberLe, SortValues(entries)) == t
    ensures Normal(JObject(entries)) == JObject(FusedMembers(t))
  {
    hide SortBy, MemberLe, SortValues, FusedMembers;
  }

  lemma ObjectInjective(m: map<string, JValue>, n: map<string, JValue>)
    requires ObjectOf(m) == ObjectOf(n)
    ensures m == n
  {
    hide SortedSet, Points;
    var p, q := SortedSet(m.Keys), SortedSet(n.Keys);
    var a, b := Entries(m, p), Entries(n, q);
    forall i | 0 <= i < |p| ensures p[i] == q[i] && m[p[i]] == n[q[i]] {
      assert p[i] in p && q[i] in q;
      assert a[i] == b[i];
      PointsInjective(p[i], q[i]);
    }
    assert p == q;
    forall k ensures k in m <==> k in n { assert k in p <==> k in q; }
    forall k | k in m ensures m[k] == n[k] {
      var i :| 0 <= i < |p| && p[i] == k;
    }
  }

  // ------------------------------------------------- payloads, up to what texts say

  function NormTerm(t: Term): Term {
    if t.interpretation.Given? then t.(interpretation := Given(Normal(JObject(t.interpretation.members)).members))
      else t
  }

  function NormOptional(t: Option<Term>): Option<Term> { if t.None? then None else Some(NormTerm(t.value)) }

  function NormTerms(t: Terms): Terms {
    Terms(NormOptional(t.identity), NormOptional(t.scope), map n | n in t.attributes :: NormTerm(t.attributes[n]))
  }

  function NormItem(x: Item): Item { x.(terms := NormTerms(x.terms), rest := Normal(x.rest)) }

  function NormPayload(p: Payload): Payload {
    p.(collections := NormCollections(p.collections), rest := Normal(p.rest))
  }

  lemma NormalList(list: seq<string>)
    ensures Normal(ListJson(list)) == ListJson(list)
  {
    hide Normal, Points;
    NormalArray(Map(Str, list));
    forall i | 0 <= i < |list| ensures Normal(Str(list[i])) == Str(list[i]) { NormalStr(list[i]); }
    assert Map(Normal, Map(Str, list)) == Map(Str, list);
  }

  lemma NormalTermMap(t: Term)
    ensures NormalMap(TermMap(t)) == TermMap(NormTerm(t))
  {
    NormalStr(t.kind);
    NormalStr(t.value);
    hide Str, SortBy, SortValues, FusedMembers;
    assert Normal(JNull) == JNull;
  }

  lemma NormalTerm(t: Term)
    ensures Normal(TermJson(t)) == TermJson(NormTerm(t))
  {
    hide Normal, NormalMap, NormTerm, TermMap, ObjectOf;
    NormalObject(TermMap(t));
    NormalTermMap(t);
  }

  lemma NormalOptional(t: Option<Term>)
    ensures Normal(OptionalTermJson(t)) == OptionalTermJson(NormOptional(t))
  {
    if t.Some? { NormalTerm(t.value); }
  }

  lemma NormalTerms(t: Terms)
    ensures Normal(TermsJson(t)) == TermsJson(NormTerms(t))
  {
    hide Normal, ObjectOf, TermJson, NormTerm, OptionalTermJson, NormOptional;
    var attributes := map n | n in t.attributes :: TermJson(t.attributes[n]);
    forall n | n in t.attributes ensures Normal(TermJson(t.attributes[n])) == TermJson(NormTerm(t.attributes[n])) {
      NormalTerm(t.attributes[n]);
    }
    NormalObject(attributes);
    assert NormalMap(attributes) == map n | n in NormTerms(t).attributes :: TermJson(NormTerms(t).attributes[n]);
    NormalOptional(t.identity);
    NormalOptional(t.scope);
    var fields := map["identity_term" := OptionalTermJson(t.identity), "scope_term" := OptionalTermJson(t.scope),
                      "attribute_terms" := ObjectOf(attributes)];
    NormalObject(fields);
    assert NormalMap(fields) ==
      map["identity_term" := Normal(OptionalTermJson(t.identity)), "scope_term" := Normal(OptionalTermJson(t.scope)),
          "attribute_terms" := Normal(ObjectOf(attributes))];
  }

  lemma NormalFixed(m: map<string, JValue>)
    requires forall n :: n in m ==> Normal(m[n]) == m[n]
    ensures Normal(ObjectOf(m)) == ObjectOf(m)
  {
    hide Normal, ObjectOf;
    NormalObject(m);
    assert NormalMap(m) == m;
  }

  lemma NormalLists(lists: map<string, seq<string>>)
    ensures Normal(ObjectOf(ListsMap(lists))) == ObjectOf(ListsMap(lists))
  {
    hide Normal, ObjectOf, ListJson;
    forall f | f in lists ensures Normal(ListJson(lists[f])) == ListJson(lists[f]) { NormalList(lists[f]); }
    NormalFixed(ListsMap(lists));
  }

  lemma NormalStrings(m: map<string, string>)
    ensures Normal(ObjectOf(StringsMap(m))) == ObjectOf(StringsMap(m))
  {
    hide Normal, ObjectOf, Str;
    forall k | k in m ensures Normal(Str(m[k])) == Str(m[k]) { NormalStr(m[k]); }
    NormalFixed(StringsMap(m));
  }

  lemma NormalItem(x: Item)
    ensures Normal(ItemJson(x)) == ItemJson(NormItem(x))
  {
    hide Normal, ObjectOf, ListsMap, TermsJson, NormTerms, Str;
    NormalLists(x.lists);
    NormalStr(x.id);
    NormalTerms(x.terms);
    var fields :=
      map["id" := Str(x.id), "lists" := ObjectOf(ListsMap(x.lists)), "terms" := TermsJson(x.terms), "rest" := x.rest];
    NormalObject(fields);
    assert NormalMap(fields) ==
      map["id" := Normal(Str(x.id)), "lists" := Normal(ObjectOf(ListsMap(x.lists))),
        "terms" := Normal(TermsJson(x.terms)),
          "rest" := Normal(x.rest)];
  }

  lemma NormalItems(items: seq<Item>)
    ensures Normal(ItemsJson(items)) == ItemsJson(Map(NormItem, items))
  {
    hide Normal, ItemJson, NormItem;
    NormalArray(Map(ItemJson, items));
    forall i | 0 <= i < |items|
      ensures Normal(ItemJson(items[i])) == ItemJson(NormItem(items[i])) { NormalItem(items[i]); }
    assert Map(Normal, Map(ItemJson, items)) == Map(ItemJson, Map(NormItem, items));
  }

  function NormCollections(collections: map<string, seq<Item>>): map<string, seq<Item>> {
    map c | c in collections :: Map(NormItem, collections[c])
  }

  lemma NormalCollections(collections: map<string, seq<Item>>)
    ensures Normal(ObjectOf(CollectionsMap(collections))) == ObjectOf(CollectionsMap(NormCollections(collections)))
  {
    hide Normal, ObjectOf, ItemsJson, NormItem, Map;
    var m, n := CollectionsMap(collections), CollectionsMap(NormCollections(collections));
    forall c | c in collections ensures Normal(m[c]) == n[c] { NormalItems(collections[c]); }
    NormalObject(m);
    assert NormalMap(m) == n;
  }

  lemma NormalFields(a: JValue, b: JValue, c: JValue, d: JValue)
    ensures Normal(ObjectOf(FieldsMap(a, b, c, d))) == ObjectOf(FieldsMap(Normal(a), Normal(b), Normal(c), Normal(d)))
  {
    hide Normal, ObjectOf;
    NormalObject(FieldsMap(a, b, c, d));
    assert NormalMap(FieldsMap(a, b, c, d)) == FieldsMap(Normal(a), Normal(b), Normal(c), Normal(d));
  }

  /** The text of a payload says the payload whose remaining fields are what their texts say. */
  lemma NormalPayload(p: Payload)
    ensures Normal(PayloadJson(p)) == PayloadJson(NormPayload(p))
  {
    hide Normal, ObjectOf, ListsMap, StringsMap, CollectionsMap, NormCollections, FieldsMap;
    NormalLists(p.coverage);
    NormalStrings(p.assumptions);
    NormalCollections(p.collections);
    NormalFields(ObjectOf(CollectionsMap(p.collections)), ObjectOf(ListsMap(p.coverage)),
                 ObjectOf(StringsMap(p.assumptions)), p.rest);
  }

  // ---------------------------------------------------------- dumps are injective

  lemma StrInjective(a: string, b: string)
    requires Str(a) == Str(b)
    ensures a == b
  {
    PointsInjective(a, b);
  }

  lemma ListInjective(a: seq<string>, b: seq<string>)
    requires ListJson(a) == ListJson(b)
    ensures a == b
  {
    hide Str;
    assert |a| == |Map(Str, a)| == |b|;
    forall i | 0 <= i < |a| ensures a[i] == b[i] {
      assert Map(Str, a)[i] == Map(Str, b)[i];
      StrInjective(a[i], b[i]);
    }
  }

  lemma TermMapInjective(s: Term, t: Term)
    requires TermMap(s) == TermMap(t)
    ensures s == t
  {
    hide Str;
    var m, n := TermMap(s), TermMap(t);
    assert "kind" in m && "value" in m && ("interpretation" in m <==> "interpretation" in n);
    assert m["kind"] == n["kind"] && m["value"] == n["value"];
    assert |"kind"| == 4 && |"value"| == 5 && |"interpretation"| == 14;
    StrInjective(s.kind, t.kind);
    StrInjective(s.value, t.value);
    if "interpretation" in m { assert m["interpretation"] == n["interpretation"]; }
  }

  lemma TermInjective(s: Term, t: Term)
    requires TermJson(s) == TermJson(t)
    ensures s == t
  {
    hide ObjectOf, TermMap;
    ObjectInjective(TermMap(s), TermMap(t));
    TermMapInjective(s, t);
  }

  lemma OptionalInjective(s: Option<Term>, t: Option<Term>)
    requires OptionalTermJson(s) == OptionalTermJson(t)
    ensures s == t
  {
    if s.Some? && t.Some? { TermInjective(s.value, t.value); }
    hide TermMap;
  }

  lemma TermsInjective(s: Terms, t: Terms)
    requires TermsJson(s) == TermsJson(t)
    ensures s == t
  {
    hide ObjectOf, OptionalTermJson, TermJson;
    var a := map n | n in s.attributes :: TermJson(s.attributes[n]);
    var b := map n | n in t.attributes :: TermJson(t.attributes[n]);
    var m := map["identity_term" := OptionalTermJson(s.identity), "scope_term" := OptionalTermJson(s.scope),
                 "attribute_terms" := ObjectOf(a)];
    var n := map["identity_term" := OptionalTermJson(t.identity), "scope_term" := OptionalTermJson(t.scope),
                 "attribute_terms" := ObjectOf(b)];
    ObjectInjective(m, n);
    assert m["identity_term"] == n["identity_term"] && m["scope_term"] == n["scope_term"];
    assert m["attribute_terms"] == n["attribute_terms"];
    OptionalInjective(s.identity, t.identity);
    OptionalInjective(s.scope, t.scope);
    ObjectInjective(a, b);
    forall k ensures k in s.attributes <==> k in t.attributes { assert k in a <==> k in b; }
    forall k | k in s.attributes ensures s.attributes[k] == t.attributes[k] {
      assert a[k] == b[k];
      TermInjective(s.attributes[k], t.attributes[k]);
    }
  }

  lemma ListsInjective(x: map<string, seq<string>>, y: map<string, seq<string>>)
    requires ObjectOf(ListsMap(x)) == ObjectOf(ListsMap(y))
    ensures x == y
  {
    hide ObjectOf, ListJson;
    var a, b := ListsMap(x), ListsMap(y);
    ObjectInjective(a, b);
    forall k ensures k in x <==> k in y { assert k in a <==> k in b; }
    forall k | k in x ensures x[k] == y[k] {
      assert a[k] == b[k];
      ListInjective(x[k], y[k]);
    }
  }

  lemma ItemInjective(x: Item, y: Item)
    requires ItemJson(x) == ItemJson(y)
    ensures x == y
  {
    hide ObjectOf, ListsMap, TermsJson, Str;
    var a, b := ObjectOf(ListsMap(x.lists)), ObjectOf(ListsMap(y.lists));
    var m := map["id" := Str(x.id), "lists" := a, "terms" := TermsJson(x.terms), "rest" := x.rest];
    var n := map["id" := Str(y.id), "lists" := b, "terms" := TermsJson(y.terms), "rest" := y.rest];
    ObjectInjective(m, n);
    assert "lists"[0] != "terms"[0];
    assert m["id"] == n["id"] && m["lists"] == n["lists"] && m["terms"] == n["terms"] && m["rest"] == n["rest"];
    StrInjective(x.id, y.id);
    ListsInjective(x.lists, y.lists);
    TermsInjective(x.terms, y.terms);
  }

  lemma ItemsInjective(x: seq<Item>, y: seq<Item>)
    requires Map(ItemJson, x) == Map(ItemJson, y)
    ensures x == y
  {
    hide ItemJson;
    assert |x| == |Map(ItemJson, x)| == |y|;
    forall i | 0 <= i < |x| ensures x[i] == y[i] {
      assert Map(ItemJson, x)[i] == Map(ItemJson, y)[i];
      ItemInjective(x[i], y[i]);
    }
  }

  lemma CollectionsInjective(x: map<string, seq<Item>>, y: map<string, seq<Item>>)
    requires ObjectOf(CollectionsMap(x)) == ObjectOf(CollectionsMap(y))
    ensures x == y
  {
    hide ObjectOf, ItemJson, Map;
    var a, b := CollectionsMap(x), CollectionsMap(y);
    ObjectInjective(a, b);
    forall k ensures k in x <==> k in y { assert k in a <==> k in b; }
    forall k | k in x ensures x[k] == y[k] {
      assert a[k] == b[k];
      ItemsInjective(x[k], y[k]);
    }
  }

  lemma StringsInjective(x: map<string, string>, y: map<string, string>)
    requires ObjectOf(StringsMap(x)) == ObjectOf(StringsMap(y))
    ensures x == y
  {
    hide ObjectOf, Str;
    var a, b := StringsMap(x), StringsMap(y);
    ObjectInjective(a, b);
    forall k ensures k in x <==> k in y { assert k in a <==> k in b; }
    forall k | k in x ensures x[k] == y[k] {
      assert a[k] == b[k];
      StrInjective(x[k], y[k]);
    }
  }

  lemma FieldsInjective(a: JValue, b: JValue, c: JValue, d: JValue, e: JValue, f: JValue, g: JValue, h: JValue)
    requires ObjectOf(FieldsMap(a, b, c, d)) == ObjectOf(FieldsMap(e, f, g, h))
    ensures a == e && b == f && c == g && d == h
  {
    hide ObjectOf;
    var m, n := FieldsMap(a, b, c, d), FieldsMap(e, f, g, h);
    ObjectInjective(m, n);
    assert "collections"[0] != "assumptions"[0];
    assert m["collections"] == n["collections"] && m["coverage"] == n["coverage"];
    assert m["assumptions"] == n["assumptions"] && m["rest"] == n["rest"];
  }

  lemma PayloadInjective(p: Payload, q: Payload)
    requires PayloadJson(p) == PayloadJson(q)
    ensures p == q
  {
    hide ObjectOf, CollectionsMap, ListsMap, StringsMap, FieldsMap;
    FieldsInjective(
      ObjectOf(CollectionsMap(p.collections)), ObjectOf(ListsMap(p.coverage)),
      ObjectOf(StringsMap(p.assumptions)), p.rest,
      ObjectOf(CollectionsMap(q.collections)), ObjectOf(ListsMap(q.coverage)),
      ObjectOf(StringsMap(q.assumptions)), q.rest);
    CollectionsInjective(p.collections, q.collections);
    ListsInjective(p.coverage, q.coverage);
    StringsInjective(p.assumptions, q.assumptions);
  }

  // ------------------------------------------- canonical form and what texts say

  lemma NormCanonicalTerm(t: Term)
    ensures NormTerm(CanonicalTerm(t)) == CanonicalTerm(NormTerm(t))
  {
    hide Normal;
  }

  lemma NormResolvedTerms(own: Terms, last: Terms)
    ensures NormTerms(ResolvedTerms(own, last)) == ResolvedTerms(NormTerms(own), NormTerms(last))
  {
    hide NormTerm, CanonicalTerm;
    forall t ensures NormTerm(CanonicalTerm(t)) == CanonicalTerm(NormTerm(t)) { NormCanonicalTerm(t); }
    var p, q :=
      NormTerms(ResolvedTerms(own, last)).attributes, ResolvedTerms(NormTerms(own), NormTerms(last)).attributes;
    assert p == q;
  }

  lemma {:induction false} NormLastTerms(items: seq<Item>, id: string)
    ensures LastTerms(Map(NormItem, items), id) == NormTerms(LastTerms(items, id))
  {
    hide NormTerm, Normal;
    if items != [] {
      var n := |items| - 1;
      NormLastTerms(items[..n], id);
      assert Map(NormItem, items)[..n] == Map(NormItem, items[..n]);
    }
  }

  lemma NormResolved(c: string, items: seq<Item>)
    ensures Resolved(c, Map(NormItem, items)) == Map(NormItem, Resolved(c, items))
  {
    hide NormTerms, LastTerms, ResolvedTerms, Normal;
    var p, q := Resolved(c, Map(NormItem, items)), Map(NormItem, Resolved(c, items));
    forall i | 0 <= i < |items| ensures p[i] == q[i] {
      NormLastTerms(items, items[i].id);
      NormResolvedTerms(items[i].terms, LastTerms(items, items[i].id));
    }
    assert p == q;
  }

  lemma NormCanon(digest: string -> string, c: string, x: Item)
    ensures NormItem(CanonicalItem(digest, c, x)) == CanonicalItem(digest, c, NormItem(x))
  {
    hide SortList, SortedLists, IsDroppable, NormTerms, Normal;
    assert NormItem(CanonicalItem(digest, c, x)).lists == CanonicalItem(digest, c, NormItem(x)).lists;
  }

  lemma NormCollection(digest: string -> string, c: string, items: seq<Item>)
    ensures Map(NormItem, CanonicalCollection(digest, c, items)) == CanonicalCollection(digest, c, Map(NormItem, items))
  {
    hide SortBy, CanonicalItem, NormTerms, Normal, StrLe;
    var mapped := Map(Canon(digest, c), items);
    MapSort(NormItem, ItemLe, ItemLe, mapped);
    forall i | 0 <= i < |items| ensures Map(NormItem, mapped)[i] == Map(Canon(digest, c), Map(NormItem, items))[i] {
      NormCanon(digest, c, items[i]);
    }
    assert Map(NormItem, mapped) == Map(Canon(digest, c), Map(NormItem, items));
  }

  /** Canonicalizing does not look into what is only text. */
  lemma NormCanonical(digest: string -> string, a: Payload)
    ensures NormPayload(CanonicalOf(digest, a)) == CanonicalOf(digest, NormPayload(a))
  {
    hide CanonicalCollection, NormItem, Normal, Resolved, EXTENSIONS, SortStrings;
    forall c | c in a.collections
      ensures CanonicalCollection(digest, c, Resolved(c, Map(NormItem, a.collections[c])))
           == Map(NormItem, CanonicalCollection(digest, c, Resolved(c, a.collections[c])))
    {
      NormResolved(c, a.collections[c]);
      NormCollection(digest, c, Resolved(c, a.collections[c]));
    }
    assert NormPayload(CanonicalOf(digest, a)).collections == CanonicalOf(digest, NormPayload(a)).collections;
  }

  lemma NormWellTyped(a: Payload)
    requires WellTyped(a)
    ensures WellTyped(NormPayload(a))
  {
    hide COLLECTIONS, COVERAGE_LISTS, SortedLists, NormTerms, Normal, Dumped;
    var b := NormPayload(a);
    forall c, y | c in b.collections && y in b.collections[c] ensures WellTypedItem(c, y) {
      var i :| 0 <= i < |b.collections[c]| && b.collections[c][i] == y;
      var x := a.collections[c][i];
      assert x in a.collections[c];
      NormDumped(x.terms);
    }
  }

  lemma NormDumped(t: Terms)
    requires Dumped(t)
    ensures Dumped(NormTerms(t))
  {
    hide Normal;
  }

  /** The identity text of an IR. */
  ghost function IdentityText(digest: string -> string, a: Payload): Result<string> {
    StableJson(PayloadJson(CanonicalOf(digest, a)))
  }

  /** Identity of IRs, end to end: two well-typed IRs without non-finite numbers have the same
      identity text if and only if they mean the same, up to what the texts of their remaining
      fields say. An injective digest of the text identifies the same. */
  lemma IdentityExactly(digest: string -> string, a: Payload, b: Payload)
    requires Injective(digest) && WellTyped(a) && WellTyped(b)
    requires Writable(PayloadJson(CanonicalOf(digest, a))) && Writable(PayloadJson(CanonicalOf(digest, b)))
    ensures IdentityText(digest, a).Ok? && IdentityText(digest, b).Ok?
    ensures IdentityText(digest, a) == IdentityText(digest, b) <==> SameMeaning(NormPayload(a), NormPayload(b))
    ensures digest(IdentityText(digest, a).value) == digest(IdentityText(digest, b).value)
       <==> SameMeaning(NormPayload(a), NormPayload(b))
  {
    hide StableJson, Writable, PayloadJson, CanonicalOf, NormPayload, SameMeaning, WellTyped;
    var p, q := CanonicalOf(digest, a), CanonicalOf(digest, b);
    TextExactly(PayloadJson(p), PayloadJson(q));
    NormalPayload(p);
    NormalPayload(q);
    if PayloadJson(NormPayload(p)) == PayloadJson(NormPayload(q)) { PayloadInjective(NormPayload(p), NormPayload(q)); }
    NormCanonical(digest, a);
    NormCanonical(digest, b);
    NormWellTyped(a);
    NormWellTyped(b);
    PayloadExactly(digest, NormPayload(a), NormPayload(b));
  }
}
