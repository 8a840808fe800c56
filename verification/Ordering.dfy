/** Python's ordering of strings and its stable `sorted`, as every deterministic
    list in the kernel is produced by one of them. */
module Ordering {

  // ---------------------------------------------------------------- relations

  ghost predicate TotalPreorder<T(!new)>(le: (T, T) -> bool) {
    && (forall x, y :: le(x, y) || le(y, x))
    && (forall x, y, z :: le(x, y) && le(y, z) ==> le(x, z))
  }

  ghost predicate Sorted<T>(le: (T, T) -> bool, s: seq<T>) {
    forall i, j :: 0 <= i < j < |s| ==> le(s[i], s[j])
  }

  /** No two different elements of `s` tie. */
  ghost predicate Strict<T>(le: (T, T) -> bool, s: seq<T>) {
    forall x, y :: x in s && y in s && le(x, y) && le(y, x) ==> x == y
  }

  ghost predicate Distinct<T>(s: seq<T>) {
    forall i, j :: 0 <= i < j < |s| ==> s[i] != s[j]
  }

  // ------------------------------------------------------------------ sorting

  function Insert<T(!new)>(le: (T, T) -> bool, x: T, s: seq<T>): (r: seq<T>)
    ensures multiset(r) == multiset{x} + multiset(s)
  {
    if s == [] then [x]
    else if le(x, s[0]) then [x] + s
    else
      assert s == [s[0]] + s[1..];
      [s[0]] + Insert(le, x, s[1..])
  }

  /** `sorted(s, key=...)`: stable, so elements that tie keep their order. */
  function SortBy<T(!new)>(le: (T, T) -> bool, s: seq<T>): (r: seq<T>)
    ensures multiset(r) == multiset(s)
    ensures |r| == |s|
    ensures forall x :: x in r <==> x in s
  {
    if s == [] then [] else
      assert s == [s[0]] + s[1..];
      var r := Insert(le, s[0], SortBy(le, s[1..]));
      SameMembers(r, s);
      r
  }

  lemma SameMembers<T>(a: seq<T>, b: seq<T>)
    requires multiset(a) == multiset(b)
    ensures |a| == |b|
    ensures forall x :: x in a <==> x in b
  {
    assert |multiset(a)| == |multiset(b)|;
    forall x ensures x in a <==> x in b {
      assert x in a <==> x in multiset(a);
      assert x in b <==> x in multiset(b);
    }
  }

  lemma {:induction false} InsertSorted<T(!new)>(le: (T, T) -> bool, x: T, s: seq<T>)
    requires TotalPreorder(le) && Sorted(le, s)
    ensures Sorted(le, Insert(le, x, s))
  {
    if s != [] && !le(x, s[0]) {
      InsertSorted(le, x, s[1..]);
      var t := Insert(le, x, s[1..]);
      assert s == [s[0]] + s[1..];
      forall j | 0 <= j < |t| ensures le(s[0], t[j]) {
        assert t[j] in multiset(t);
        assert t[j] == x || t[j] in s[1..];
      }
    }
  }

  lemma {:induction false} SortBySorted<T(!new)>(le: (T, T) -> bool, s: seq<T>)
    requires TotalPreorder(le)
    ensures Sorted(le, SortBy(le, s))
  {
    if s != [] {
      SortBySorted(le, s[1..]);
      InsertSorted(le, s[0], SortBy(le, s[1..]));
    }
  }

  /** A sorted arrangement without ties is the only one of its elements. */
  lemma {:induction false} SortedUnique<T(!new)>(le: (T, T) -> bool, a: seq<T>, b: seq<T>)
    requires Sorted(le, a) && Sorted(le, b) && Strict(le, a)
    requires TotalPreorder(le)
    requires multiset(a) == multiset(b)
    ensures a == b
  {
    SameMembers(a, b);
    if a != [] {
      SameFirst(le, a, b);
      SameRests(a, b);
      assert Sorted(le, a[1..]) && Sorted(le, b[1..]) && Strict(le, a[1..]);
      hide *;
      SortedUnique(le, a[1..], b[1..]);
      assert a == [a[0]] + a[1..] && b == [b[0]] + b[1..];
    }
  }

  lemma SameFirst<T(!new)>(le: (T, T) -> bool, a: seq<T>, b: seq<T>)
    requires TotalPreorder(le) && Sorted(le, a) && Sorted(le, b) && Strict(le, a)
    requires a != [] && b != [] && forall x :: x in a <==> x in b
    ensures a[0] == b[0]
  {
    assert a[0] in b && b[0] in a;
    assert le(a[0], b[0]);
    assert le(b[0], a[0]);
  }

  lemma SameRests<T>(a: seq<T>, b: seq<T>)
    requires a != [] && b != [] && a[0] == b[0] && multiset(a) == multiset(b)
    ensures multiset(a[1..]) == multiset(b[1..])
  {
    assert a == [a[0]] + a[1..] && b == [b[0]] + b[1..];
    assert multiset(a[1..]) == multiset(a) - multiset{a[0]};
    assert multiset(b[1..]) == multiset(b) - multiset{a[0]};
  }

  /** Sorting is a normal form: reorderings, and nothing else, are identified. */
  lemma SortCanonical<T(!new)>(le: (T, T) -> bool, a: seq<T>, b: seq<T>)
    requires TotalPreorder(le) && Strict(le, a)
    ensures SortBy(le, a) == SortBy(le, b) <==> multiset(a) == multiset(b)
  {
    if multiset(a) == multiset(b) {
      SortBySorted(le, a);
      SortBySorted(le, b);
      SortedUnique(le, SortBy(le, a), SortBy(le, b));
    }
  }

  // ------------------------------------------------------------------ mapping

  function Map<T(!new), U(!new)>(f: T -> U, s: seq<T>): (r: seq<U>)
    ensures |r| == |s|
    ensures forall i :: 0 <= i < |s| ==> r[i] == f(s[i])
  {
    if s == [] then [] else [f(s[0])] + Map(f, s[1..])
  }

  lemma {:induction false} MapInsert<T(!new), U(!new)>(f: T -> U, leT: (T, T) -> bool, leU: (U, U) -> bool, x: T,
      s: seq<T>)
    requires forall a, b :: leT(a, b) == leU(f(a), f(b))
    ensures Map(f, Insert(leT, x, s)) == Insert(leU, f(x), Map(f, s))
  {
    if s != [] && !leT(x, s[0]) {
      MapInsert(f, leT, leU, x, s[1..]);
    }
  }

  /** Stable sorting commutes with any projection that keeps the sort key. */
  lemma {:induction false} MapSort<T(!new), U(!new)>(f: T -> U, leT: (T, T) -> bool, leU: (U, U) -> bool, s: seq<T>)
    requires forall a, b :: leT(a, b) == leU(f(a), f(b))
    ensures Map(f, SortBy(leT, s)) == SortBy(leU, Map(f, s))
  {
    if s != [] {
      MapSort(f, leT, leU, s[1..]);
      MapInsert(f, leT, leU, s[0], SortBy(leT, s[1..]));
      assert Map(f, s)[1..] == Map(f, s[1..]);
    }
  }

  lemma {:induction false} MapMultiset<T(!new), U(!new)>(f: T -> U, a: seq<T>, b: seq<T>)
    requires multiset(a) == multiset(b)
    ensures multiset(Map(f, a)) == multiset(Map(f, b))
  {
    hide *;
    SameMembers(a, b);
    if a == [] {
      assert b == [];
    } else {
      var front, last := a[..|a| - 1], a[|a| - 1];
      assert a == front + [last];
      assert last in b;
      var j :| 0 <= j < |b| && b[j] == last;
      var rest := b[..j] + b[j + 1..];
      MapWithout(f, b, j);
      MapLast(f, front, last);
      MultisetSnoc(front, last);
      assert multiset(front) == multiset(rest);
      MapMultiset(f, front, rest);
    }
  }

  lemma MultisetSnoc<T>(s: seq<T>, x: T)
    ensures multiset(s + [x]) == multiset(s) + multiset{x}
    ensures multiset(s + [x]) - multiset{x} == multiset(s)
  {
  }

  lemma MapLast<T(!new), U(!new)>(f: T -> U, front: seq<T>, last: T)
    ensures multiset(Map(f, front + [last])) == multiset(Map(f, front)) + multiset{f(last)}
  {
    hide *;
    MapSnoc(f, front, last);
    MultisetSnoc(Map(f, front), f(last));
  }

  /** Taking one element out of a list takes its image out of the mapped list. */
  lemma MapWithout<T(!new), U(!new)>(f: T -> U, s: seq<T>, j: nat)
    requires j < |s|
    ensures var rest := s[..j] + s[j + 1..];
      multiset(rest) == multiset(s) - multiset{s[j]}
        && multiset(Map(f, s)) == multiset(Map(f, rest)) + multiset{f(s[j])}
  {
    assert s == s[..j] + [s[j]] + s[j + 1..];
    MapConcat(f, s[..j], s[j + 1..]);
    MapConcat(f, s[..j] + [s[j]], s[j + 1..]);
    MapConcat(f, s[..j], [s[j]]);
  }

  lemma {:induction false} MapConcat<T(!new), U(!new)>(f: T -> U, a: seq<T>, b: seq<T>)
    ensures Map(f, a + b) == Map(f, a) + Map(f, b)
  {
  }

  lemma MapSnoc<T(!new), U(!new)>(f: T -> U, s: seq<T>, x: T)
    ensures Map(f, s + [x]) == Map(f, s) + [f(x)]
  {
  }

  /** `[x for x in s if keep(x)]` */
  function Filter<T(!new)>(keep: T -> bool, s: seq<T>): (r: seq<T>)
    ensures forall x :: x in r <==> x in s && keep(x)
    ensures |r| <= |s|
  {
    if s == [] then [] else
      assert s == [s[0]] + s[1..];
      (if keep(s[0]) then [s[0]] else []) + Filter(keep, s[1..])
  }

  lemma {:induction false} FilterConcat<T(!new)>(keep: T -> bool, a: seq<T>, b: seq<T>)
    ensures Filter(keep, a + b) == Filter(keep, a) + Filter(keep, b)
  {
    if a == [] {
      assert a + b == b;
    } else {
      var head := if keep(a[0]) then [a[0]] else [];
      assert (a + b)[0] == a[0] && (a + b)[1..] == a[1..] + b;
      assert Filter(keep, a + b) == head + Filter(keep, a[1..] + b);
      FilterConcat(keep, a[1..], b);
      assert Filter(keep, a) == head + Filter(keep, a[1..]);
    }
  }

  lemma FilterSnoc<T(!new)>(keep: T -> bool, s: seq<T>, x: T)
    ensures Filter(keep, s + [x]) == Filter(keep, s) + if keep(x) then [x] else []
  {
    FilterConcat(keep, s, [x]);
  }

  // -------------------------------------------------------------- stable sorting

  /** The elements that tie with `k`. */
  function TiedWith<T(!new)>(le: (T, T) -> bool, k: T): T -> bool {
    (x: T) => le(x, k) && le(k, x)
  }

  lemma FilterFirst<T(!new)>(keep: T -> bool, x: T, s: seq<T>)
    ensures Filter(keep, [x] + s) == (if keep(x) then [x] else []) + Filter(keep, s)
  {
    assert ([x] + s)[1..] == s;
  }

  lemma NotBothTied<T(!new)>(le: (T, T) -> bool, k: T, x: T, y: T)
    requires TotalPreorder(le) && !le(x, y)
    ensures !(TiedWith(le, k)(x) && TiedWith(le, k)(y))
  {
  }

  lemma {:induction false} InsertStable<T(!new)>(le: (T, T) -> bool, k: T, x: T, s: seq<T>)
    requires TotalPreorder(le)
    ensures Filter(TiedWith(le, k), Insert(le, x, s)) == Filter(TiedWith(le, k), [x] + s)
  {
    hide TotalPreorder, Filter, TiedWith;
    if s != [] && !le(x, s[0]) {
      var keep, first, rest := TiedWith(le, k), s[0], s[1..];
      assert s == [first] + rest && Insert(le, x, s) == [first] + Insert(le, x, rest);
      hide Insert;
      InsertStable(le, k, x, rest);
      NotBothTied(le, k, x, first);
      FilterFirst(keep, first, Insert(le, x, rest));
      FilterFirst(keep, x, s);
      FilterFirst(keep, x, rest);
      FilterFirst(keep, first, rest);
    } else {
      assert Insert(le, x, s) == [x] + s;
    }
  }

  /** A stable sort keeps each group of ties as it was. */
  lemma {:induction false} SortStable<T(!new)>(le: (T, T) -> bool, k: T, s: seq<T>)
    requires TotalPreorder(le)
    ensures Filter(TiedWith(le, k), SortBy(le, s)) == Filter(TiedWith(le, k), s)
  {
    if s != [] {
      SortStable(le, k, s[1..]);
      InsertStable(le, k, s[0], SortBy(le, s[1..]));
      hide TiedWith;
      assert ([s[0]] + SortBy(le, s[1..]))[1..] == SortBy(le, s[1..]);
    }
  }

  /** Sorted lists with the same groups of ties are equal. */
  lemma {:induction false} SortedByGroups<T(!new)>(le: (T, T) -> bool, a: seq<T>, b: seq<T>)
    requires TotalPreorder(le) && Sorted(le, a) && Sorted(le, b)
    requires forall k :: Filter(TiedWith(le, k), a) == Filter(TiedWith(le, k), b)
    ensures a == b
  {
    if a == [] {
      assert forall x :: x in b ==> x in Filter(TiedWith(le, x), b);
      assert forall x :: x !in b;
    } else {
      assert a[0] in Filter(TiedWith(le, a[0]), a);
      assert a[0] in b;
      assert b[0] in Filter(TiedWith(le, b[0]), b);
      assert b[0] in a;
      assert le(a[0], b[0]) && le(b[0], a[0]);
      assert Filter(TiedWith(le, a[0]), a)[0] == a[0] && Filter(TiedWith(le, a[0]), b)[0] == b[0];
      assert a[0] == b[0];
      forall k ensures Filter(TiedWith(le, k), a[1..]) == Filter(TiedWith(le, k), b[1..]) {
        var first := if TiedWith(le, k)(a[0]) then [a[0]] else [];
        assert Filter(TiedWith(le, k), a) == first + Filter(TiedWith(le, k), a[1..]);
        assert Filter(TiedWith(le, k), b) == first + Filter(TiedWith(le, k), b[1..]);
        assert (first + Filter(TiedWith(le, k), a[1..]))[|first|..] == Filter(TiedWith(le, k), a[1..]);
        assert (first + Filter(TiedWith(le, k), b[1..]))[|first|..] == Filter(TiedWith(le, k), b[1..]);
      }
      SortedByGroups(le, a[1..], b[1..]);
      assert a == [a[0]] + a[1..] && b == [b[0]] + b[1..];
    }
  }

  /** Stable sorting identifies exactly the lists with the same groups of ties. */
  lemma StableCanonical<T(!new)>(le: (T, T) -> bool, a: seq<T>, b: seq<T>)
    requires TotalPreorder(le)
    ensures SortBy(le, a) == SortBy(le, b) <==> forall k :: Filter(TiedWith(le, k), a) == Filter(TiedWith(le, k), b)
  {
    hide TiedWith, SortBy, Filter, TotalPreorder;
    forall k ensures Filter(TiedWith(le, k), SortBy(le, a)) == Filter(TiedWith(le, k), a) { SortStable(le, k, a); }
    forall k ensures Filter(TiedWith(le, k), SortBy(le, b)) == Filter(TiedWith(le, k), b) { SortStable(le, k, b); }
    if forall k :: Filter(TiedWith(le, k), a) == Filter(TiedWith(le, k), b) {
      SortBySorted(le, a);
      SortBySorted(le, b);
      SortedByGroups(le, SortBy(le, a), SortBy(le, b));
    }
  }

  /** Duplicate-free lists with the same members are reorderings of each other. */
  lemma {:induction false} DistinctSameMembers<T>(a: seq<T>, b: seq<T>)
    requires Distinct(a) && Distinct(b)
    requires forall x :: x in a <==> x in b
    ensures multiset(a) == multiset(b)
  {
    forall x ensures multiset(a)[x] == multiset(b)[x] {
      DistinctCount(a, x);
      DistinctCount(b, x);
    }
  }

  function Members<T>(s: seq<T>): set<T> {
    set x | x in s
  }

  /** `len(ids) == len(set(ids))` says that nothing repeats. */
  lemma {:induction false} DistinctByCount<T>(s: seq<T>)
    ensures |Members(s)| <= |s|
    ensures Distinct(s) <==> |Members(s)| == |s|
  {
    if s != [] {
      var first, rest := s[0], s[1..];
      DistinctByCount(rest);
      assert s == [first] + rest;
      DistinctCons(first, rest);
      if first in rest {
        assert Members(s) == Members(rest);
      } else {
        assert Members(s) == Members(rest) + {first};
      }
    }
  }

  lemma DistinctCons<T>(first: T, rest: seq<T>)
    ensures Distinct([first] + rest) <==> Distinct(rest) && first !in rest
  {
    var s := [first] + rest;
    if Distinct(s) {
      forall i, j | 0 <= i < j < |rest| ensures rest[i] != rest[j] { assert s[i + 1] != s[j + 1]; }
      forall i | 0 <= i < |rest| ensures rest[i] != first { assert s[0] != s[i + 1]; }
    }
  }

  lemma DistinctSnoc<T>(s: seq<T>, x: T)
    requires Distinct(s) && x !in s
    ensures Distinct(s + [x])
  {
  }

  lemma DistinctConcat<T>(a: seq<T>, b: seq<T>)
    ensures Distinct(a + b) <==> Distinct(a) && Distinct(b) && Members(a) !! Members(b)
  {
    var s := a + b;
    if Distinct(s) {
      forall i, j | 0 <= i < j < |a| ensures a[i] != a[j] { assert s[i] != s[j]; }
      forall i, j | 0 <= i < j < |b| ensures b[i] != b[j] { assert s[|a| + i] != s[|a| + j]; }
      forall x | x in a ensures x !in b {
        var i :| 0 <= i < |a| && a[i] == x;
        forall j | 0 <= j < |b| ensures b[j] != x { assert s[i] != s[|a| + j]; }
      }
    } else {
      var i, j :| 0 <= i < j < |s| && s[i] == s[j];
      assert i < |a| <= j ==> s[i] in Members(a) && s[i] in Members(b);
    }
  }

  /** A duplicate-free list inside another of the same length is a reordering of it. */
  lemma DistinctSubset<T>(a: seq<T>, b: seq<T>)
    requires Distinct(a) && |a| == |b| && forall x :: x in a ==> x in b
    ensures multiset(a) == multiset(b)
  {
    forall x ensures multiset(a)[x] <= multiset(b)[x] {
      DistinctCount(a, x);
      if x in a { assert x in multiset(b); }
    }
    assert multiset(a) <= multiset(b);
    assert multiset(b) == multiset(a) + (multiset(b) - multiset(a));
    assert |multiset(b) - multiset(a)| == 0;
  }

  lemma {:induction false} FilterDistinct<T(!new)>(keep: T -> bool, s: seq<T>)
    requires Distinct(s)
    ensures Distinct(Filter(keep, s))
  {
    if s != [] {
      assert s == [s[0]] + s[1..];
      DistinctCons(s[0], s[1..]);
      FilterDistinct(keep, s[1..]);
      DistinctCons(s[0], Filter(keep, s[1..]));
    }
  }

  lemma SortKeepsDistinct<T(!new)>(le: (T, T) -> bool, s: seq<T>)
    requires Distinct(s)
    ensures Distinct(SortBy(le, s))
  {
    forall x ensures multiset(s)[x] <= 1 { DistinctCount(s, x); }
    CountDistinct(SortBy(le, s));
  }

  lemma {:induction false} CountDistinct<T>(s: seq<T>)
    requires forall x :: multiset(s)[x] <= 1
    ensures Distinct(s)
  {
    if s != [] {
      assert s == [s[0]] + s[1..];
      forall x ensures multiset(s)[x] == multiset{s[0]}[x] + multiset(s[1..])[x] {}
      CountDistinct(s[1..]);
      assert s[0] !in multiset(s[1..]);
      forall i | 0 <= i < |s[1..]| ensures s[1..][i] != s[0] { assert s[1..][i] in multiset(s[1..]); }
    }
  }

  lemma {:induction false} DistinctCount<T>(s: seq<T>, x: T)
    requires Distinct(s)
    ensures multiset(s)[x] == if x in s then 1 else 0
  {
    if s != [] {
      DistinctCount(s[1..], x);
      assert s == [s[0]] + s[1..];
    }
  }

  // ------------------------------------------------------- last under a key

  /** `x` occurs, and nothing after its last occurrence has its key. */
  ghost predicate IsLast<T(!new)>(key: T -> string, s: seq<T>, x: T) {
    exists i | 0 <= i < |s| :: s[i] == x && forall j :: i < j < |s| ==> key(s[j]) != key(x)
  }

  lemma LastSnoc<T(!new)>(key: T -> string, front: seq<T>, last: T, x: T)
    ensures IsLast(key, front + [last], x) <==> x == last || (key(last) != key(x) && IsLast(key, front, x))
  {
    var s, n := front + [last], |front|;
    assert forall i :: 0 <= i < n ==> s[i] == front[i];
    assert s[n] == last;
    if i :| 0 <= i < n && front[i] == x && forall j :: i < j < n ==> key(front[j]) != key(x) {
      assert s[i] == x;
      assert key(last) != key(x) ==> forall j :: i < j < |s| ==> key(s[j]) != key(x);
    }
  }

  lemma NothingLast<T(!new)>(key: T -> string, x: T)
    ensures !IsLast(key, [], x)
  {
  }

  // ------------------------------------------------------------ string order

  predicate LexLe(a: seq<int>, b: seq<int>) {
    a == [] || (b != [] && (a[0] < b[0] || (a[0] == b[0] && LexLe(a[1..], b[1..]))))
  }

  lemma {:induction false} LexTotal(a: seq<int>, b: seq<int>)
    ensures LexLe(a, b) || LexLe(b, a)
  {
    if a != [] && b != [] && a[0] == b[0] { LexTotal(a[1..], b[1..]); }
  }

  lemma {:induction false} LexTransitive(a: seq<int>, b: seq<int>, c: seq<int>)
    requires LexLe(a, b) && LexLe(b, c)
    ensures LexLe(a, c)
  {
    if a != [] && a[0] == b[0] == c[0] { LexTransitive(a[1..], b[1..], c[1..]); }
  }

  lemma {:induction false} LexAntisymmetric(a: seq<int>, b: seq<int>)
    requires LexLe(a, b) && LexLe(b, a)
    ensures a == b
  {
    if a != [] {
      LexAntisymmetric(a[1..], b[1..]);
      assert a == [a[0]] + a[1..] && b == [b[0]] + b[1..];
    }
  }

  function Codes(s: string): (r: seq<int>)
    ensures |r| == |s|
    ensures forall i :: 0 <= i < |s| ==> r[i] == s[i] as int
  {
    seq(|s|, i requires 0 <= i < |s| => s[i] as int)
  }

  lemma CodesInjective(a: string, b: string)
    requires Codes(a) == Codes(b)
    ensures a == b
  {
  }

  /** Python compares `str` values by code point. */
  predicate StrLe(a: string, b: string) {
    LexLe(Codes(a), Codes(b))
  }

  /** String order, exactly: a prefix, or a smaller code point at the first difference. */
  lemma {:induction false} LexExactly(a: seq<int>, b: seq<int>)
    ensures LexLe(a, b) <==> exists k | 0 <= k <= |a| && k <= |b| ::
      a[..k] == b[..k] && (k == |a| || (k < |b| && a[k] < b[k]))
  {
    if a != [] && b != [] && a[0] == b[0] {
      LexExactly(a[1..], b[1..]);
      if k :| 0 <= k <= |a| && k <= |b| && a[..k] == b[..k] && (k == |a| || (k < |b| && a[k] < b[k])) {
        assert k > 0 && a[1..][..k - 1] == a[..k][1..] == b[..k][1..] == b[1..][..k - 1];
      }
      if k :| 0 <= k <= |a[1..]| && k <= |b[1..]| && a[1..][..k] == b[1..][..k]
              && (k == |a[1..]| || (k < |b[1..]| && a[1..][k] < b[1..][k])) {
        assert a[..k + 1] == [a[0]] + a[1..][..k] == [b[0]] + b[1..][..k] == b[..k + 1];
      }
    } else {
      assert a[..0] == b[..0];
    }
  }

  lemma StrIsTotalOrder()
    ensures TotalPreorder(StrLe)
    ensures forall x, y :: StrLe(x, y) && StrLe(y, x) ==> x == y
  {
    forall x, y ensures StrLe(x, y) || StrLe(y, x) { LexTotal(Codes(x), Codes(y)); }
    forall x, y, z | StrLe(x, y) && StrLe(y, z) ensures StrLe(x, z) { LexTransitive(Codes(x), Codes(y), Codes(z)); }
    forall x, y | StrLe(x, y) && StrLe(y, x) ensures x == y {
      LexAntisymmetric(Codes(x), Codes(y));
      CodesInjective(x, y);
    }
  }

  /** `sorted(list_of_str)` */
  function SortStrings(s: seq<string>): (r: seq<string>)
    ensures multiset(r) == multiset(s) && |r| == |s|
    ensures forall x :: x in r <==> x in s
    ensures Sorted(StrLe, r)
  {
    StrIsTotalOrder();
    SortBySorted(StrLe, s);
    SortBy(StrLe, s)
  }

  lemma SortStringsCanonical(a: seq<string>, b: seq<string>)
    ensures SortStrings(a) == SortStrings(b) <==> multiset(a) == multiset(b)
  {
    StrIsTotalOrder();
    SortCanonical(StrLe, a, b);
  }

  // -------------------------------------------------------------- sorted sets

  lemma {:induction false} LeastExists(s: set<string>) returns (m: string)
    requires s != {}
    ensures m in s && forall y :: y in s ==> StrLe(m, y)
  {
    StrIsTotalOrder();
    var x :| x in s;
    if s == {x} {
      m := x;
      assert StrLe(x, x);
    } else {
      m := LeastExists(s - {x});
      if StrLe(x, m) { m := x; }
    }
  }

  /** `sorted(set_of_str)` */
  function SortedSet(s: set<string>): (r: seq<string>)
    ensures forall x :: x in r <==> x in s
    ensures Distinct(r) && Sorted(StrLe, r)
    ensures |r| == |s|
  {
    if s == {} then [] else
      StrIsTotalOrder();
      LeastOf(s);
      var m :| m in s && forall y :: y in s ==> StrLe(m, y);
      [m] + SortedSet(s - {m})
  }

  lemma LeastOf(s: set<string>)
    requires s != {}
    ensures exists m :: m in s && forall y :: y in s ==> StrLe(m, y)
  {
    var m := LeastExists(s);
  }

  /** Sorting a duplicate-free list is sorting the set of its members. */
  lemma SortIsSortedSet(s: seq<string>, t: set<string>)
    requires Distinct(s) && forall x :: x in s <==> x in t
    ensures SortStrings(s) == SortedSet(t)
  {
    hide StrLe;
    StrIsTotalOrder();
    DistinctSameMembers(s, SortedSet(t));
    SortedUnique(StrLe, SortStrings(s), SortedSet(t));
  }
}
