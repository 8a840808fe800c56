/** Splitting the FormalPR-Bench corpus and guarding the split
    (scripts/generate_formalpr_provenance.py, benchmarks/formal_pr_bench/provenance_kit.py). */
module Partitions {
  import opened Ordering
  import opened Text

  const PARTITIONS := ["train", "development", "test", "held_out"]

  /** A corpus case; only its category decides anything. */
  datatype Case = Case(category: Option<string>)

  /** The corpus with the registry and the constant lists the assignment consults. */
  datatype Corpus = Corpus(
    cases: map<string, Case>, templateDev: set<string>, heldOutIds: seq<string>, developmentPreferred: seq<string>)

  type Split = map<string, seq<string>>

  // ------------------------------------------------------------- what is assigned

  /** Where a case belongs, decided case by case. */
  function PlaceOf(c: Corpus, id: string): (name: string)
    requires id in c.cases
    ensures name in PARTITIONS
  {
    var category := match c.cases[id].category case Some(text) => text case None => "lane";
    if id in c.heldOutIds then "held_out"
    else if id in c.developmentPreferred then "development"
    else if id in c.templateDev then "train"
    else if category == "lane" then if EndsWith(id, "_variant_2") then "test" else "train"
    else if category == "real_diff" then "test"
    else "development"
  }

  predicate Placed(c: Corpus, id: string, name: string) { id in c.cases && PlaceOf(c, id) == name }

  function Part(c: Corpus, name: string): set<string> {
    set id | id in c.cases && Placed(c, id, name)
  }

  /** Every part in sorted order: the only value an assignment can take. */
  ghost predicate IsAssignment(split: Split, c: Corpus) {
    && split.Keys == Members(PARTITIONS)
    && forall name :: name in PARTITIONS ==> split[name] == SortedSet(Part(c, name))
  }

  function HeldOut(c: Corpus): seq<string> {
    Filter((id: string) => id in c.cases, c.heldOutIds)
  }

  /** The only two ways in which an assignment is refused. */
  ghost predicate Assignable(c: Corpus) {
    Members(HeldOut(c)) !! c.templateDev && Distinct(HeldOut(c))
  }

  // -------------------------------------------------------------------- as coded

  /** The overlap loop, over the four lists in order. */
  method CheckOverlap(lists: seq<seq<string>>) returns (r: Result<set<string>>)
    ensures r.Ok? <==> Distinct(Flat(lists))
    ensures r.Ok? ==> r.value == Members(Flat(lists))
  {
    var seen: set<string> := {};
    assert Flat([]) == [];
    for i := 0 to |lists|
      invariant Distinct(Flat(lists[..i])) && seen == Members(Flat(lists[..i]))
    {
      ghost var before := Flat(lists[..i]);
      FlatSnoc(lists, i);
      for j := 0 to |lists[i]|
        invariant Distinct(before + lists[i][..j]) && seen == Members(before + lists[i][..j])
      {
        var id := lists[i][j];
        DistinctConcat(before + lists[i][..j], [id]);
        assert before + lists[i][..j + 1] == before + lists[i][..j] + [id];
        if id in seen {
          PrefixDistinct(before + lists[i][..j + 1], Flat(lists));
          return Raised;
        }
        seen := seen + {id};
      }
      assert lists[i][..|lists[i]|] == lists[i];
    }
    assert lists[..|lists|] == lists;
    r := Ok(seen);
  }

  function Flat(lists: seq<seq<string>>): seq<string> {
    if lists == [] then [] else Flat(lists[..|lists| - 1]) + lists[|lists| - 1]
  }

  lemma {:induction false} FlatPrefix(lists: seq<seq<string>>, i: nat)
    requires i <= |lists|
    ensures Flat(lists[..i]) <= Flat(lists)
  {
    if i < |lists| {
      FlatPrefix(lists[..|lists| - 1], i);
      assert lists[..|lists| - 1][..i] == lists[..i];
    } else {
      assert lists[..i] == lists;
    }
  }

  lemma FlatSnoc(lists: seq<seq<string>>, i: nat)
    requires i < |lists|
    ensures Flat(lists[..i + 1]) == Flat(lists[..i]) + lists[i]
    ensures forall j :: 0 <= j <= |lists[i]| ==> Flat(lists[..i]) + lists[i][..j] <= Flat(lists)
  {
    assert lists[..i + 1][..i] == lists[..i];
    FlatPrefix(lists, i + 1);
  }

  lemma PrefixDistinct(s: seq<string>, t: seq<string>)
    requires s <= t && !Distinct(s)
    ensures !Distinct(t)
  {
  }

  /** Repair of missing cases, then the overlap and coverage exits. */
  method Finish(all: set<string>, train: seq<string>, development: seq<string>, test: seq<string>, heldOut: seq<string>)
    returns (r: Result<Split>)
    ensures var covered := Members(train) + Members(development) + Members(test) + Members(heldOut);
      var first := if all <= covered then train else SortedSet(Members(train) + (all - covered));
      var listed := first + development + test + heldOut;
      && (r.Ok? <==> Distinct(listed) && Members(listed) == all)
      && (r.Ok?
        ==> r.value == map["train" := first, "development" := development, "test" := test, "held_out" := heldOut])
  {
    var covered := Members(train) + Members(development) + Members(test) + Members(heldOut);
    var missing := all - covered;
    var first := train;
    if missing != {} {
      first := SortedSet(Members(train) + missing);
    }
    assert missing != {} <==> !(all <= covered) by { NothingLeft(all, covered); }
    FlatFour(first, development, test, heldOut);
    var seen := CheckOverlap([first, development, test, heldOut]);
    if seen.Raised? || seen.value != all {
      return Raised;
    }
    r := Ok(map["train" := first, "development" := development, "test" := test, "held_out" := heldOut]);
  }

  lemma NothingLeft(all: set<string>, covered: set<string>)
    ensures all - covered == {} <==> all <= covered
  {
    if all - covered == {} {
      forall id | id in all ensures id in covered { assert id !in all - covered; }
    }
  }

  lemma FlatFour(a: seq<string>, b: seq<string>, c: seq<string>, d: seq<string>)
    ensures Flat([a, b, c, d]) == a + b + c + d
  {
    assert [a, b, c, d][..3] == [a, b, c] && [a, b, c][..2] == [a, b] && [a, b][..1] == [a] && [a][..0] == [];
    assert Flat([a]) == a;
    assert Flat([a, b]) == a + b;
    assert Flat([a, b, c]) == a + b + c;
  }

  function PlacedIn(c: Corpus, name: string): string -> bool {
    (id: string) => Placed(c, id, name)
  }

  /** The loop over the cases that no list claims. */
  method Distribute(c: Corpus, rest: seq<string>, preferred: seq<string>)
    returns (train: seq<string>, test: seq<string>, development: seq<string>)
    requires forall id :: id in rest ==> id in c.cases && id !in c.heldOutIds && id !in c.developmentPreferred
    ensures train == Filter(PlacedIn(c, "train"), rest) && test == Filter(PlacedIn(c, "test"), rest)
    ensures development == preferred + Filter(PlacedIn(c, "development"), rest)
  {
    hide EndsWith, Filter;
    train, test, development := [], [], preferred;
    FilterEmpty(c);
    for i := 0 to |rest|
      invariant train == Filter(PlacedIn(c, "train"), rest[..i]) && test == Filter(PlacedIn(c, "test"), rest[..i])
      invariant development == preferred + Filter(PlacedIn(c, "development"), rest[..i])
    {
      var id := rest[i];
      assert id in rest && rest[..i + 1] == rest[..i] + [id];
      FilterSnoc(PlacedIn(c, "train"), rest[..i], id);
      FilterSnoc(PlacedIn(c, "test"), rest[..i], id);
      FilterSnoc(PlacedIn(c, "development"), rest[..i], id);
      var category := if c.cases[id].category.Some? then c.cases[id].category.value else "lane";
      if id in c.templateDev || category == "lane" {
        if id !in c.templateDev && EndsWith(id, "_variant_2") {
          test := test + [id];
        } else {
          train := train + [id];
        }
      } else if category == "real_diff" {
        test := test + [id];
      } else {
        development := development + [id];
      }
    }
    assert rest[..|rest|] == rest;
  }

  lemma FilterEmpty(c: Corpus)
    ensures forall name :: Filter(PlacedIn(c, name), []) == []
  {
  }

  function Remaining(c: Corpus): seq<string> {
    Filter((id: string) => id !in HeldOut(c), SortedSet(c.cases.Keys))
  }

  function Preferred(c: Corpus): seq<string> {
    Filter((id: string) => id in Remaining(c), c.developmentPreferred)
  }

  function Rest(c: Corpus): seq<string> {
    Filter((id: string) => id !in Preferred(c), Remaining(c))
  }

  /** Where the cases of each list belong. */
  lemma ListsHold(c: Corpus)
    ensures forall id :: id in Rest(c) ==> id in c.cases && id !in c.heldOutIds && id !in c.developmentPreferred
    ensures forall id :: Placed(c, id, "train") || Placed(c, id, "test") ==> id in Rest(c)
    ensures forall id :: Placed(c, id, "held_out") <==> id in HeldOut(c)
    ensures forall id :: Placed(c, id, "development") <==>
      id in Preferred(c) || (id in Rest(c) && Placed(c, id, "development"))
  {
    hide Filter, SortedSet;
    assert forall id :: id in HeldOut(c) <==> id in c.heldOutIds && id in c.cases;
    assert forall id :: id in Remaining(c) <==> id in c.cases && id !in HeldOut(c);
    assert forall id :: id in Preferred(c) <==> id in c.developmentPreferred && id in Remaining(c);
    assert forall id :: id in Rest(c) <==> id in Remaining(c) && id !in Preferred(c);
    RestHolds(c, HeldOut(c), Remaining(c), Preferred(c), Rest(c));
    hide *;
  }

  lemma RestHolds(c: Corpus, heldOut: seq<string>, remaining: seq<string>, preferred: seq<string>, rest: seq<string>)
    requires forall id :: id in heldOut <==> id in c.heldOutIds && id in c.cases
    requires forall id :: id in remaining <==> id in c.cases && id !in heldOut
    requires forall id :: id in preferred <==> id in c.developmentPreferred && id in remaining
    requires forall id :: id in rest <==> id in remaining && id !in preferred
    ensures forall id :: id in rest ==> id in c.cases && id !in c.heldOutIds && id !in c.developmentPreferred
    ensures forall id :: Placed(c, id, "train") || Placed(c, id, "test") ==> id in rest
    ensures forall id :: Placed(c, id, "held_out") <==> id in heldOut
    ensures forall id :: Placed(c, id, "development") <==>
      id in preferred || (id in rest && Placed(c, id, "development"))
  {
    hide EndsWith;
  }

  lemma RestDistinct(c: Corpus)
    ensures Distinct(Rest(c))
  {
    hide HeldOut, Preferred;
    FilterDistinct((id: string) => id !in HeldOut(c), SortedSet(c.cases.Keys));
    FilterDistinct((id: string) => id !in Preferred(c), Remaining(c));
  }

  /** The cases outside the held-out list, dealt to the other three parts. */
  method Deal(c: Corpus) returns (train: seq<string>, test: seq<string>, development: seq<string>)
    ensures SortStrings(train) == SortedSet(Part(c, "train")) && SortStrings(test) == SortedSet(Part(c, "test"))
    ensures Members(development) == Part(c, "development") && Members(HeldOut(c)) == Part(c, "held_out")
  {
    ListsHold(c);
    RestDistinct(c);
    hide PlaceOf, SortedSet, SortStrings, Distinct, Rest, Preferred, HeldOut, Filter;
    train, test, development := Distribute(c, Rest(c), Preferred(c));
    PartListed(c, "train", Rest(c), train);
    PartListed(c, "test", Rest(c), test);
  }

  method AssignPartitions(c: Corpus) returns (r: Result<Split>)
    ensures r.Ok? <==> Assignable(c)
    ensures r.Ok? ==> IsAssignment(r.value, c)
  {
    var heldOut := HeldOut(c);
    if Members(heldOut) * c.templateDev != {} {
      return Raised;
    }
    var train, test, development := Deal(c);
    HeldOutSorted(c, heldOut);
    hide *;
    var first, second, third, last :=
      SortStrings(train), SortedSet(Members(development)), SortStrings(test), SortStrings(heldOut);
    SortedParts(c, first, second, third, last);
    Assembled(c, last);
    r := Finish(c.cases.Keys, first, second, third, last);
    assert Assignable(c) <==> Distinct(heldOut) by { Refusals(c); }
  }

  lemma Refusals(c: Corpus)
    requires Members(HeldOut(c)) * c.templateDev == {}
    ensures Assignable(c) <==> Distinct(HeldOut(c))
  {
    hide HeldOut, Distinct;
    forall id | id in Members(HeldOut(c)) ensures id !in c.templateDev {
      assert id !in Members(HeldOut(c)) * c.templateDev;
    }
  }

  lemma Assembled(c: Corpus, heldOut: seq<string>)
    ensures heldOut == SortedSet(Part(c, "held_out")) ==> IsAssignment(
      map["train" := SortedSet(Part(c, "train")), "development" := SortedSet(Part(c, "development")),
          "test" := SortedSet(Part(c, "test")), "held_out" := heldOut], c)
  {
    hide SortedSet, Part;
  }

  lemma HeldOutSorted(c: Corpus, heldOut: seq<string>)
    requires Members(heldOut) == Part(c, "held_out")
    ensures Members(SortStrings(heldOut)) == Members(heldOut)
    ensures Distinct(SortStrings(heldOut)) <==> Distinct(heldOut)
    ensures Distinct(heldOut) ==> SortStrings(heldOut) == SortedSet(Part(c, "held_out"))
  {
    assert Members(SortStrings(heldOut)) == Members(heldOut);
    assert forall id :: id in heldOut <==> id in Members(heldOut);
    if Distinct(heldOut) {
      SortKeepsDistinct(StrLe, heldOut);
      SortIsSortedSet(heldOut, Part(c, "held_out"));
    } else {
      DistinctByCount(heldOut);
      DistinctByCount(SortStrings(heldOut));
    }
  }

  /** A list that the loop built, once sorted, is the part of that name. */
  lemma PartListed(c: Corpus, name: string, rest: seq<string>, listed: seq<string>)
    requires Distinct(rest) && listed == Filter(PlacedIn(c, name), rest)
    requires forall id :: Placed(c, id, name) ==> id in rest
    ensures SortStrings(listed) == SortedSet(Part(c, name))
  {
    hide PlaceOf, SortStrings, SortedSet;
    FilterDistinct(PlacedIn(c, name), rest);
    SortIsSortedSet(listed, Part(c, name));
  }

  /** The four parts cover the corpus, and repeat a case only if the held-out list does. */
  lemma SortedParts(c: Corpus, a: seq<string>, b: seq<string>, d: seq<string>, heldOut: seq<string>)
    requires a == SortedSet(Part(c, "train")) && b == SortedSet(Part(c, "development"))
      && d == SortedSet(Part(c, "test"))
    requires Members(heldOut) == Part(c, "held_out")
    ensures Members(a) + Members(b) + Members(d) + Members(heldOut) == Members(a + b + d + heldOut) == c.cases.Keys
    ensures Distinct(a + b + d + heldOut) <==> Distinct(heldOut)
  {
    hide *;
    FourLists(a, b, d, heldOut);
    PartsCover(c);
    MembersSorted(Part(c, "train"));
    MembersSorted(Part(c, "development"));
    MembersSorted(Part(c, "test"));
  }

  lemma MembersSorted(s: set<string>)
    ensures Members(SortedSet(s)) == s && Distinct(SortedSet(s))
  {
    hide SortedSet, Distinct;
  }

  lemma PartsCover(c: Corpus)
    ensures Part(c, "train") + Part(c, "development") + Part(c, "test") + Part(c, "held_out") == c.cases.Keys
    ensures Part(c, "train") !! Part(c, "development") !! Part(c, "test") !! Part(c, "held_out")
  {
  }

  lemma FourLists(a: seq<string>, b: seq<string>, c: seq<string>, d: seq<string>)
    ensures Members(a + b + c + d) == Members(a) + Members(b) + Members(c) + Members(d)
    ensures Distinct(a + b + c + d) <==>
      Distinct(a) && Distinct(b) && Distinct(c) && Distinct(d) && (Members(a) !! Members(b) !! Members(c) !! Members(d))
  {
    hide Distinct;
    DistinctConcat(a + b + c, d);
    DistinctConcat(a + b, c);
    DistinctConcat(a, b);
    assert Members(a + b) == Members(a) + Members(b);
    assert Members(a + b + c) == Members(a + b) + Members(c);
    assert Members(a + b + c + d) == Members(a + b + c) + Members(d);
  }

  // ------------------------------------------------------- reading a split back

  /** `payload.get("partitions", {}).get(name, [])` */
  function IdsOf(split: Split, name: string): seq<string> {
    if name in split then split[name] else []
  }

  function Listed(split: Split): seq<string> {
    IdsOf(split, "train") + IdsOf(split, "development") + IdsOf(split, "test") + IdsOf(split, "held_out")
  }

  /** `membership` names, for each listed case, the part that lists it. */
  ghost predicate IsMembership(membership: map<string, string>, split: Split) {
    && membership.Keys == Members(Listed(split))
    && forall id :: id in membership ==> membership[id] in PARTITIONS && id in IdsOf(split, membership[id])
  }

  /** One part: every case in it gets the part's name, and none may have one already. */
  method RecordPart(ids: seq<string>, name: string, before: map<string, string>, ghost listed: seq<string>)
    returns (r: Result<map<string, string>>)
    requires before.Keys == Members(listed) && Distinct(listed)
    ensures r.Ok? <==> Distinct(listed + ids)
    ensures r.Ok? ==> r.value.Keys == Members(listed + ids)
    ensures r.Ok? ==> before.Keys <= r.value.Keys && forall id :: id in r.value && id !in ids ==> id in before
    ensures r.Ok? ==> forall id :: id in r.value ==> r.value[id] == if id in ids then name else before[id]
  {
    var membership := before;
    assert listed + ids[..0] == listed;
    for i := 0 to |ids|
      invariant Distinct(listed + ids[..i]) && membership.Keys == Members(listed + ids[..i])
      invariant forall id :: id in membership && id !in ids[..i] ==> id in before && membership[id] == before[id]
      invariant forall id :: id in ids[..i] ==> id in membership && membership[id] == name
    {
      var id := ids[i];
      DistinctConcat(listed + ids[..i], [id]);
      assert listed + ids[..i + 1] == listed + ids[..i] + [id];
      if id in membership {
        PrefixDistinct(listed + ids[..i + 1], listed + ids);
        return Raised;
      }
      membership := membership[id := name];
    }
    assert ids[..|ids|] == ids;
    r := Ok(membership);
  }

  /** The loop invariant after `k` parts. */
  ghost predicate RecordedUpTo(membership: map<string, string>, split: Split, k: nat)
    requires k <= 4
  {
    && membership.Keys == Members(ListedUpTo(split, k)) && Distinct(ListedUpTo(split, k))
    && forall id :: id in membership ==> membership[id] in PARTITIONS && id in IdsOf(split, membership[id])
  }

  function ListedUpTo(split: Split, k: nat): seq<string>
    requires k <= 4
  {
    if k == 0 then [] else ListedUpTo(split, k - 1) + IdsOf(split, PARTITIONS[k - 1])
  }

  method PartitionMembership(split: Split) returns (r: Result<map<string, string>>)
    ensures r.Ok? <==> Distinct(Listed(split))
    ensures r.Ok? ==> IsMembership(r.value, split)
  {
    assert |PARTITIONS| == 4;
    hide *;
    var membership: map<string, string> := map[];
    RecordedNothing(split);
    for k := 0 to |PARTITIONS|
      invariant RecordedUpTo(membership, split, k)
    {
      assert membership.Keys == Members(ListedUpTo(split, k))
        && Distinct(ListedUpTo(split, k)) by { RecordedMeans(membership, split, k); }
      var recorded := RecordPart(IdsOf(split, PARTITIONS[k]), PARTITIONS[k], membership, ListedUpTo(split, k));
      NextPart(split, k);
      if recorded.Raised? {
        PrefixDistinct(ListedUpTo(split, k + 1), Listed(split));
        return Raised;
      }
      RecordedNext(membership, recorded.value, split, k);
      membership := recorded.value;
    }
    RecordedAll(membership, split);
    r := Ok(membership);
  }

  lemma RecordedNothing(split: Split)
    ensures RecordedUpTo(map[], split, 0)
  {
  }

  lemma RecordedMeans(membership: map<string, string>, split: Split, k: nat)
    requires k <= 4 && RecordedUpTo(membership, split, k)
    ensures membership.Keys == Members(ListedUpTo(split, k)) && Distinct(ListedUpTo(split, k))
  {
  }

  lemma NextPart(split: Split, k: nat)
    requires k < 4
    ensures ListedUpTo(split, k) + IdsOf(split, PARTITIONS[k]) == ListedUpTo(split, k + 1) <= Listed(split)
    decreases 4 - k
  {
    hide IdsOf;
    AllListed(split);
    if k < 3 { NextPart(split, k + 1); }
  }

  lemma RecordedNext(before: map<string, string>, after: map<string, string>, split: Split, k: nat)
    requires k < 4 && RecordedUpTo(before, split, k) && Distinct(ListedUpTo(split, k + 1))
    requires after.Keys == Members(ListedUpTo(split, k + 1)) && before.Keys <= after.Keys
    requires forall id :: id in after && id !in IdsOf(split, PARTITIONS[k]) ==> id in before
    requires forall id :: id in after ==>
      after[id] == if id in IdsOf(split, PARTITIONS[k]) then PARTITIONS[k] else before[id]
    ensures RecordedUpTo(after, split, k + 1)
  {
    hide ListedUpTo, Distinct, IdsOf;
  }

  lemma RecordedAll(membership: map<string, string>, split: Split)
    requires RecordedUpTo(membership, split, 4)
    ensures Distinct(Listed(split)) && IsMembership(membership, split)
  {
    hide IdsOf, Distinct, ListedUpTo;
    AllListed(split);
  }

  lemma AllListed(split: Split)
    ensures ListedUpTo(split, 4) == Listed(split)
  {
    hide IdsOf;
    var a, b, c, d :=
      IdsOf(split, "train"), IdsOf(split, "development"), IdsOf(split, "test"), IdsOf(split, "held_out");
    assert ListedUpTo(split, 1) == a;
    assert ListedUpTo(split, 2) == a + b;
    assert ListedUpTo(split, 3) == a + b + c;
    assert ListedUpTo(split, 4) == a + b + c + d;
  }

  lemma AssignedParts(c: Corpus, split: Split)
    requires IsAssignment(split, c)
    ensures forall name :: name in PARTITIONS ==> Members(IdsOf(split, name)) == Part(c, name)
    ensures Distinct(Listed(split)) && Members(Listed(split)) == c.cases.Keys
  {
    hide Distinct, Part, SortedSet;
    forall name | name in PARTITIONS
      ensures Members(IdsOf(split, name)) == Part(c, name) { MembersSorted(Part(c, name)); }
    MembersSorted(Part(c, "held_out"));
    SortedParts(c, split["train"], split["development"], split["test"], split["held_out"]);
  }

  /** An assigned split lists every case of the corpus once, keeps template-dev cases out of the
      held-out part, and its membership is the case-by-case placement. */
  lemma MembershipInverts(c: Corpus, split: Split, membership: map<string, string>)
    requires Assignable(c) && IsAssignment(split, c) && IsMembership(membership, split)
    ensures Distinct(Listed(split)) && membership.Keys == c.cases.Keys
    ensures forall id :: id in c.cases ==> membership[id] == PlaceOf(c, id)
    ensures Members(IdsOf(split, "held_out")) !! c.templateDev
  {
    hide PlaceOf, Distinct, Listed, HeldOut, IsAssignment, IdsOf;
    AssignedParts(c, split);
    forall id | id in c.cases ensures membership[id] == PlaceOf(c, id) {
      assert id in Members(IdsOf(split, membership[id]));
    }
    forall id | id in Members(IdsOf(split, "held_out")) ensures id !in c.templateDev {
      assert id in Part(c, "held_out");
      assert id in Members(HeldOut(c)) by { HeldOutPlaced(c, id); }
    }
  }

  lemma HeldOutPlaced(c: Corpus, id: string)
    requires Placed(c, id, "held_out")
    ensures id in HeldOut(c)
  {
  }

  // ---------------------------------------------------------- filtering the cases

  /** A case to be scored; `content` stands for the rest of its record. */
  datatype Scored = Scored(caseId: string, content: string)

  predicate Contaminated(split: Split, templateDev: set<string>) {
    exists id :: id in IdsOf(split, "held_out") && id in templateDev
  }

  method AssertNoTemplateDevContamination(scored: Option<seq<string>>, partition: string, templateDev: set<string>,
      split: Split)
    returns (r: Result<()>)
    ensures r.Ok? <==>
      && (forall id :: id in IdsOf(split, "held_out") ==> id !in templateDev)
      && (partition == "held_out" && scored.Some? ==> forall id :: id in scored.value ==> id !in templateDev)
  {
    var heldOut := set id | id in IdsOf(split, "held_out");
    if exists id :: id in heldOut && id in templateDev {
      return Raised;
    }
    if partition == "held_out" && scored.Some? {
      var ids := set id | id in scored.value;
      if exists id :: id in ids && id in templateDev {
        return Raised;
      }
    }
    r := Ok(());
  }

  function InPart(split: Split, partition: string): Scored -> bool {
    (x: Scored) => x.caseId in IdsOf(split, partition)
  }

  /** The cases whose membership is the partition. */
  method Select(cases: seq<Scored>, partition: string, ghost split: Split, membership: map<string, string>)
    returns (selected: seq<Scored>)
    requires partition in PARTITIONS && Distinct(Listed(split)) && IsMembership(membership, split)
    ensures selected == Filter(InPart(split, partition), cases)
  {
    hide Distinct, IsMembership, Listed, IdsOf;
    selected := [];
    for i := 0 to |cases|
      invariant selected == Filter(InPart(split, partition), cases[..i])
    {
      assert cases[..i + 1] == cases[..i] + [cases[i]];
      FilterSnoc(InPart(split, partition), cases[..i], cases[i]);
      OnePart(split, membership, partition, cases[i].caseId);
      if cases[i].caseId in membership && membership[cases[i].caseId] == partition {
        selected := selected + [cases[i]];
      }
    }
    assert cases[..|cases|] == cases;
  }

  /** Refused exactly for an unknown part, a split that repeats a case, or a contaminated
      held-out part; the check of the selected cases adds nothing. */
  method FilterCasesForPartition(cases: seq<Scored>, partition: string, split: Split, templateDev: set<string>)
    returns (r: Result<seq<Scored>>)
    ensures r.Ok? <==> partition in PARTITIONS && Distinct(Listed(split)) && !Contaminated(split, templateDev)
    ensures r.Ok? ==> r.value == Filter(InPart(split, partition), cases)
  {
    hide Distinct;
    if partition !in PARTITIONS {
      return Raised;
    }
    var membership :- PartitionMembership(split);
    var selected := Select(cases, partition, split, membership);
    var ids := Map((x: Scored) => x.caseId, selected);
    forall id | id in ids ensures id in IdsOf(split, partition) {
      var k :| 0 <= k < |ids| && ids[k] == id;
      assert selected[k] in selected;
    }
    var checked := AssertNoTemplateDevContamination(Some(ids), partition, templateDev, split);
    if checked.Raised? {
      return Raised;
    }
    r := Ok(selected);
  }

  lemma OnePart(split: Split, membership: map<string, string>, partition: string, id: string)
    requires partition in PARTITIONS && Distinct(Listed(split)) && IsMembership(membership, split)
    ensures id in IdsOf(split, partition) <==> id in membership && membership[id] == partition
  {
    hide Distinct, IdsOf;
    FourLists(IdsOf(split, "train"), IdsOf(split, "development"), IdsOf(split, "test"), IdsOf(split, "held_out"));
    assert Members(IdsOf(split, "train")) !! Members(IdsOf(split, "development")) !! Members(IdsOf(split, "test"))
      !! Members(IdsOf(split, "held_out"));
    assert id in IdsOf(split, partition) ==> id in Members(IdsOf(split, partition));
    assert id in membership ==> id in Members(IdsOf(split, membership[id]));
  }

  /** The four filters of an assigned corpus split any list of its cases: nothing is lost,
      nothing is counted twice, and the order is kept within each. */
  lemma {:induction false} FiltersSplit(c: Corpus, split: Split, cases: seq<Scored>)
    requires IsAssignment(split, c) && forall x :: x in cases ==> x.caseId in c.cases
    ensures multiset(cases) ==
      multiset(Filter(InPart(split, "train"), cases)) + multiset(Filter(InPart(split, "development"), cases))
      + multiset(Filter(InPart(split, "test"), cases)) + multiset(Filter(InPart(split, "held_out"), cases))
  {
    hide *;
    if cases != [] {
      assert cases == [cases[0]] + cases[1..];
      FiltersSplit(c, split, cases[1..]);
      FilterStep(split, "train", cases);
      FilterStep(split, "development", cases);
      FilterStep(split, "test", cases);
      FilterStep(split, "held_out", cases);
      InOnePart(c, split, cases[0]);
    } else {
      FilterNone(split);
    }
  }

  lemma FilterNone(split: Split)
    ensures forall name :: Filter(InPart(split, name), []) == []
  {
  }

  lemma FilterStep(split: Split, name: string, cases: seq<Scored>)
    requires cases != []
    ensures multiset(Filter(InPart(split, name), cases)) ==
      (if InPart(split, name)(cases[0]) then multiset{cases[0]} else multiset{})
        + multiset(Filter(InPart(split, name), cases[1..]))
  {
  }

  lemma InOnePart(c: Corpus, split: Split, x: Scored)
    requires IsAssignment(split, c) && x.caseId in c.cases
    ensures var a, b, d, e := InPart(split, "train")(x), InPart(split, "development")(x),
      InPart(split, "test")(x), InPart(split, "held_out")(x);
      (a && !b && !d && !e) || (!a && b && !d && !e) || (!a && !b && d && !e) || (!a && !b && !d && e)
  {
    hide IsAssignment, IdsOf, PlaceOf;
    AssignedParts(c, split);
    forall name | name in PARTITIONS ensures InPart(split, name)(x) <==> PlaceOf(c, x.caseId) == name {
      assert x.caseId in Members(IdsOf(split, name)) <==> x.caseId in Part(c, name);
    }
    assert PlaceOf(c, x.caseId) in PARTITIONS;
  }

  // ----------------------------------------------------------- version manifests

  /** A `benchmark_version` value: no key, null, a string, or another JSON value with its text. */
  datatype Version = Absent | Null | Label(text: string) | Other(text: string)

  /** `payload.get("benchmark_version")` */
  function Got(v: Version): Version { if v.Absent? then Null else v }

  /** `str(payload.get("benchmark_version", BENCHMARK_VERSION))` */
  function VersionText(v: Version): string {
    match v
    case Absent => "v1"
    case Null => "None"
    case Label(text) => text
    case Other(text) => text
  }

  /** A non-empty partitions payload. */
  datatype Payload = Payload(split: Split, version: Version)

  /** Digests, as functions of what they are computed from. */
  datatype Digests = Digests(ids: seq<string> -> string, corpus: (map<string, string>, Version) -> string)

  datatype Manifest = Manifest(version: Version, partitionDigests: map<string, string>, corpusDigest: Option<string>)

  function ComputePartitionDigests(d: Digests, split: Split): map<string, string> {
    map name | name in PARTITIONS :: d.ids(SortStrings(IdsOf(split, name)))
  }

  function BuildVersionManifest(d: Digests, p: Payload): Manifest {
    var digests, version := ComputePartitionDigests(d, p.split), Label(VersionText(p.version));
    Manifest(version, digests, Some(d.corpus(digests, version)))
  }

  predicate DigestMatches(d: Digests, split: Split, manifest: Manifest, name: string) {
    name in manifest.partitionDigests && manifest.partitionDigests[name] == d.ids(SortStrings(IdsOf(split, name)))
  }

  predicate Verifies(d: Digests, p: Payload, manifest: Manifest) {
    && (forall name :: name in PARTITIONS ==> DigestMatches(d, p.split, manifest, name))
    && Got(manifest.version) == Got(p.version)
    && manifest.corpusDigest == Some(d.corpus(ComputePartitionDigests(d, p.split), Got(manifest.version)))
  }

  method VerifyManifestDigests(d: Digests, p: Payload, manifest: Manifest) returns (r: Result<()>)
    ensures r.Ok? <==> Verifies(d, p, manifest)
  {
    var actual := ComputePartitionDigests(d, p.split);
    var mismatches: seq<string> := [];
    for k := 0 to |PARTITIONS|
      invariant mismatches == [] <==> forall j :: 0 <= j < k ==> DigestMatches(d, p.split, manifest, PARTITIONS[j])
    {
      var name := PARTITIONS[k];
      if name !in manifest.partitionDigests || manifest.partitionDigests[name] != actual[name] {
        mismatches := mismatches + [name];
      }
    }
    if mismatches != [] {
      return Raised;
    }
    if Got(manifest.version) != Got(p.version) {
      return Raised;
    }
    if manifest.corpusDigest != Some(d.corpus(actual, Got(manifest.version))) {
      return Raised;
    }
    r := Ok(());
  }

  /** The manifest built for a payload verifies against a payload exactly when each part is
      the same list up to order and the version is the very string the manifest recorded. */
  lemma ManifestExactly(d: Digests, p: Payload, q: Payload)
    requires forall a, b :: d.ids(a) == d.ids(b) ==> a == b
    ensures Verifies(d, q, BuildVersionManifest(d, p)) <==>
      && q.version == Label(VersionText(p.version))
      && forall name :: name in PARTITIONS ==> multiset(IdsOf(p.split, name)) == multiset(IdsOf(q.split, name))
  {
    hide SortStrings, IdsOf;
    forall name | name in PARTITIONS
      ensures DigestMatches(d, q.split, BuildVersionManifest(d, p), name)
        <==> multiset(IdsOf(p.split, name)) == multiset(IdsOf(q.split, name))
    {
      SortStringsCanonical(IdsOf(p.split, name), IdsOf(q.split, name));
    }
    if forall name :: name in PARTITIONS ==> DigestMatches(d, q.split, BuildVersionManifest(d, p), name) {
      assert ComputePartitionDigests(d, p.split) == ComputePartitionDigests(d, q.split);
    }
  }

  /** Even without injectivity, a built manifest verifies against its own payload if and only if
      `benchmark_version` is present and a string: a defaulted or converted version does not. */
  lemma BuiltVerifies(d: Digests, p: Payload)
    ensures Verifies(d, p, BuildVersionManifest(d, p)) <==> p.version.Label?
  {
    hide SortStrings, IdsOf;
  }

  // ------------------------------------------------------ placement, in the corpus's own terms

  /** The part of each case, exactly. A held-out case is held out; a preferred one, and any case
      of an extended category, is development; a template-dev case trains; so does a lane case,
      except that second variants are kept for the test part, beside real diffs. */
  lemma PlacesExactly(c: Corpus, split: Split, id: string)
    requires IsAssignment(split, c) && id in c.cases
    ensures var category := match c.cases[id].category case Some(text) => text case None => "lane";
      var seed := id in c.templateDev;
      var free := id !in c.heldOutIds && id !in c.developmentPreferred;
      var second := exists stem :: id == stem + "_variant_2";
      && (id in IdsOf(split, "held_out") <==> id in c.heldOutIds)
      && (id in IdsOf(split, "development") <==>
          && id !in c.heldOutIds
          && (id in c.developmentPreferred || (!seed && category != "lane" && category != "real_diff")))
      && (id in IdsOf(split, "train") <==> free && (seed || (category == "lane" && !second)))
      && (id in IdsOf(split, "test") <==> free && !seed && (category == "real_diff" || (category == "lane" && second)))
  {
    NamesDiffer();
    PlaceExactly(c, id);
    hide *;
    ListedIsPlaced(c, split, id, "held_out");
    ListedIsPlaced(c, split, id, "development");
    ListedIsPlaced(c, split, id, "train");
    ListedIsPlaced(c, split, id, "test");
  }

  lemma ListedIsPlaced(c: Corpus, split: Split, id: string, name: string)
    requires IsAssignment(split, c) && id in c.cases && name in PARTITIONS
    ensures id in IdsOf(split, name) <==> PlaceOf(c, id) == name
  {
    hide SortedSet, PlaceOf;
  }

  lemma PlaceExactly(c: Corpus, id: string)
    requires id in c.cases
    ensures var category := match c.cases[id].category case Some(text) => text case None => "lane";
      var seed := id in c.templateDev;
      var free := id !in c.heldOutIds && id !in c.developmentPreferred;
      var second := exists stem :: id == stem + "_variant_2";
      && (PlaceOf(c, id) == "held_out" <==> id in c.heldOutIds)
      && (PlaceOf(c, id) == "development" <==>
          && id !in c.heldOutIds
          && (id in c.developmentPreferred || (!seed && category != "lane" && category != "real_diff")))
      && (PlaceOf(c, id) == "train" <==> free && (seed || (category == "lane" && !second)))
      && (PlaceOf(c, id) == "test" <==> free && !seed && (category == "real_diff" || (category == "lane" && second)))
  {
    EndsWithExactly(id, "_variant_2");
    NamesDiffer();
    hide EndsWith, PARTITIONS;
  }

  lemma NamesDiffer()
    ensures "train" in PARTITIONS && "development" in PARTITIONS && "test" in PARTITIONS && "held_out" in PARTITIONS
    ensures |PARTITIONS| == 4 && "lane" != "real_diff"
    ensures "train" != "development" && "train" != "test" && "train" != "held_out"
    ensures "development" != "test" && "development" != "held_out" && "test" != "held_out"
  {
    assert PARTITIONS[0] == "train" && PARTITIONS[1] == "development" && PARTITIONS[2] == "test"
      && PARTITIONS[3] == "held_out";
    assert |"train"| == 5 && |"development"| == 11 && |"test"| == 4 && |"held_out"| == 8;
    assert |"lane"| == 4 && |"real_diff"| == 9;
  }

  /** When an assignment is refused, in the corpus's own terms. */
  lemma AssignableExactly(c: Corpus)
    ensures Assignable(c) <==>
      && (forall id :: id in c.heldOutIds && id in c.cases ==> id !in c.templateDev)
      && (forall i, j :: 0 <= i < j < |c.heldOutIds| && c.heldOutIds[i] in c.cases ==>
            c.heldOutIds[i] != c.heldOutIds[j])
  {
    FilterKeepsDistinct(c, c.heldOutIds);
    assert forall id :: id in Members(HeldOut(c)) <==> id in c.heldOutIds && id in c.cases;
    hide HeldOut;
  }

  /** No case of the corpus is listed twice. */
  ghost predicate ListedOnce(c: Corpus, ids: seq<string>) {
    forall i, j :: 0 <= i < j < |ids| && ids[i] in c.cases ==> ids[i] != ids[j]
  }

  lemma OnceCons(c: Corpus, first: string, rest: seq<string>)
    ensures ListedOnce(c, [first] + rest) <==> ListedOnce(c, rest) && (first in c.cases ==> first !in rest)
  {
    var s := [first] + rest;
    assert forall i :: 0 <= i < |rest| ==> s[i + 1] == rest[i];
    if ListedOnce(c, s) {
      forall i, j | 0 <= i < j < |rest| && rest[i] in c.cases ensures rest[i] != rest[j] {
        assert s[i + 1] != s[j + 1];
      }
      forall i | 0 <= i < |rest| && first in c.cases ensures rest[i] != first { assert s[0] != s[i + 1]; }
    }
  }

  lemma {:induction false} FilterKeepsDistinct(c: Corpus, ids: seq<string>)
    ensures Distinct(Filter((id: string) => id in c.cases, ids)) <==> ListedOnce(c, ids)
  {
    if ids != [] {
      var rest := Filter((id: string) => id in c.cases, ids[1..]);
      FilterKeepsDistinct(c, ids[1..]);
      assert ids == [ids[0]] + ids[1..];
      OnceCons(c, ids[0], ids[1..]);
      DistinctCons(ids[0], rest);
      assert Filter((id: string) => id in c.cases, ids) == if ids[0] in c.cases then [ids[0]] + rest else rest;
      hide Filter, Distinct, ListedOnce;
    }
  }

  /** The version text of a built manifest: the default without a key, and Python's text of a null. */
  lemma VersionExactly(d: Digests, p: Payload)
    ensures var version := BuildVersionManifest(d, p).version;
      && (p.version.Absent? ==> version == Label("v1"))
      && (p.version.Null? ==> version == Label("None"))
      && (p.version.Label? ==> version == p.version)
      && (p.version.Other? ==> version == Label(p.version.text))
  {
  }

  /** What verifies against a payload with a version string is the manifest built for it: the same
      version, the same digest of every part, and the same corpus digest over them. */
  lemma OnlyBuiltVerifies(d: Digests, p: Payload, manifest: Manifest)
    requires p.version.Label?
    ensures var built := BuildVersionManifest(d, p);
      Verifies(d, p, manifest) <==>
        && manifest.version == p.version && manifest.corpusDigest == built.corpusDigest
        && forall name :: name in {"train", "development", "test", "held_out"} ==>
             && name in manifest.partitionDigests && name in built.partitionDigests
             && manifest.partitionDigests[name] == built.partitionDigests[name]
  {
    hide SortStrings, IdsOf;
    NamesDiffer();
    assert forall name :: name in PARTITIONS <==> name in {"train", "development", "test", "held_out"};
  }
}
