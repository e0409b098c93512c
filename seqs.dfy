/**
 * The parts of the MongoDB query engine that the controllers rely on,
 * stated over sequences kept in natural (insertion) order: `findOne`
 * (first match), `find` (filter), `sort` on a numeric key, descending,
 * and `skip`/`limit`.
 */
module Seqs {
  import opened Base

  /** `findOne`: the index of the first element satisfying `p`. */
  function FirstIndex<T>(s: seq<T>, p: T -> bool): (r: Option<nat>)
    ensures r.Some? ==> r.value < |s| && p(s[r.value])
    ensures r.Some? ==> forall j :: 0 <= j < r.value ==> !p(s[j])
    ensures r.None? ==> forall j :: 0 <= j < |s| ==> !p(s[j])
  {
    if s == [] then None
    else if p(s[0]) then Some(0)
    else match FirstIndex(s[1..], p)
      case None => None
      case Some(k) => Some(k + 1)
  }

  /** `find`: the elements satisfying `p`, in their original order. */
  function Filter<T>(s: seq<T>, p: T -> bool): (r: seq<T>)
    ensures |r| <= |s|
    ensures forall x :: x in r ==> x in s && p(x)
    ensures forall x :: x in s && p(x) ==> x in r
  {
    if s == [] then []
    else if p(s[0]) then [s[0]] + Filter(s[1..], p)
    else Filter(s[1..], p)
  }

  lemma {:induction false} FilterAppend<T>(a: seq<T>, b: seq<T>, p: T -> bool)
    ensures Filter(a + b, p) == Filter(a, p) + Filter(b, p)
  {
    if a == [] {
      assert a + b == b;
    } else {
      var ab := a + b;
      assert ab[0] == a[0] && ab[1..] == a[1..] + b;
      FilterAppend(a[1..], b, p);
      assert Filter(ab, p) == (if p(a[0]) then [a[0]] else []) + Filter(a[1..] + b, p);
      assert Filter(a, p) == (if p(a[0]) then [a[0]] else []) + Filter(a[1..], p);
    }
  }

  /** Filtering a sequence with one more element at the end. */
  lemma FilterSnoc<T>(s: seq<T>, x: T, p: T -> bool)
    ensures Filter(s + [x], p) == if p(x) then Filter(s, p) + [x] else Filter(s, p)
  {
    FilterAppend(s, [x], p);
    assert Filter([x], p) == if p(x) then [x] else [] by {
      assert [x][1..] == [];
    }
  }

  /** Filtering a sequence with the element at index i taken out. */
  lemma FilterRemove<T>(s: seq<T>, i: nat, p: T -> bool)
    requires i < |s|
    ensures |Filter(s[..i] + s[i+1..], p)| == |Filter(s, p)| - (if p(s[i]) then 1 else 0)
  {
    assert s == s[..i] + ([s[i]] + s[i+1..]);
    FilterAppend(s[..i], [s[i]] + s[i+1..], p);
    FilterAppend([s[i]], s[i+1..], p);
    FilterAppend(s[..i], s[i+1..], p);
    assert Filter([s[i]], p) == if p(s[i]) then [s[i]] else [] by {
      assert [s[i]][1..] == [];
    }
  }

  /** Two predicates that agree on every element select the same elements. */
  lemma {:induction false} FilterCongruent<T>(s: seq<T>, p: T -> bool, q: T -> bool)
    requires forall x :: x in s ==> p(x) == q(x)
    ensures Filter(s, p) == Filter(s, q)
  {
    if s != [] {
      assert s[0] in s;
      assert forall x :: x in s[1..] ==> x in s;
      FilterCongruent(s[1..], p, q);
    }
  }

  /** Two predicates that agree on every element find the same first index. */
  lemma {:induction false} FirstIndexCongruent<T>(s: seq<T>, p: T -> bool, q: T -> bool)
    requires forall x :: x in s ==> p(x) == q(x)
    ensures FirstIndex(s, p) == FirstIndex(s, q)
  {
    if s != [] {
      assert s[0] in s;
      assert forall x :: x in s[1..] ==> x in s;
      FirstIndexCongruent(s[1..], p, q);
    }
  }

  /** An element appended to a sequence without a match is the first match. */
  lemma FirstIndexSnoc<T>(s: seq<T>, x: T, p: T -> bool)
    requires FirstIndex(s, p).None? && p(x)
    ensures FirstIndex(s + [x], p) == Some(|s|)
  {
    assert (s + [x])[|s|] == x;
    assert forall j :: 0 <= j < |s| ==> (s + [x])[j] == s[j];
  }

  /** Nothing is selected when no element satisfies the predicate. */
  lemma FilterNone<T>(s: seq<T>, p: T -> bool)
    requires forall x :: x in s ==> !p(x)
    ensures Filter(s, p) == []
  {
    if Filter(s, p) != [] {
      assert Filter(s, p)[0] in Filter(s, p);
    }
  }

  /** The set of elements of a sequence. */
  function Elems<T>(s: seq<T>): set<T> {
    set x | x in s
  }

  /** A sequence has at least as many positions as elements, and exactly as many when it repeats none. */
  lemma {:induction false} ElemsCard<T>(s: seq<T>)
    ensures |Elems(s)| <= |s|
    ensures |Elems(s)| == |s| <==> Distinct(s)
  {
    if s != [] {
      var t := s[1..];
      ElemsCard(t);
      assert Elems(s) == {s[0]} + Elems(t) by {
        assert s == [s[0]] + t;
      }
      if s[0] in t {
        assert Elems(s) == Elems(t);
        var k :| 0 <= k < |t| && t[k] == s[0];
        assert s[k + 1] == s[0];
      } else {
        DistinctCons(s);
      }
    }
  }

  /** A head that does not recur leaves distinctness to the tail. */
  lemma DistinctCons<T>(s: seq<T>)
    requires s != [] && s[0] !in s[1..]
    ensures Distinct(s) <==> Distinct(s[1..])
  {
    var t := s[1..];
    if Distinct(t) {
      forall i, j | 0 <= i < j < |s|
        ensures s[i] != s[j]
      {
        assert s[j] == t[j - 1];
        if i > 0 {
          assert s[i] == t[i - 1];
        }
      }
    }
    if Distinct(s) {
      forall i, j | 0 <= i < j < |t|
        ensures t[i] != t[j]
      {
        assert t[i] == s[i + 1] && t[j] == s[j + 1];
      }
    }
  }

  /** Intersecting never adds elements, and keeps them all exactly when the first set is inside the second. */
  lemma IntersectionCard<T>(a: set<T>, b: set<T>)
    ensures |a * b| <= |a|
    ensures |a * b| == |a| <==> a <= b
  {
    assert a == (a * b) + (a - b);
    if !(a <= b) {
      var x :| x in a && x !in b;
      assert x in a - b;
    }
  }

  /** No element occurs twice. */
  predicate Distinct<T(==)>(s: seq<T>) {
    forall i, j :: 0 <= i < j < |s| ==> s[i] != s[j]
  }

  /** Every element of a sequence without repetitions occurs in it once. */
  lemma {:induction false} DistinctOccursOnce<T>(s: seq<T>)
    requires Distinct(s)
    ensures forall x :: multiset(s)[x] <= 1
  {
    if s != [] {
      assert s == [s[0]] + s[1..];
      forall k | 0 <= k < |s[1..]|
        ensures s[1..][k] != s[0]
      {
        assert s[1..][k] == s[k + 1];
      }
      DistinctOccursOnce(s[1..]);
    }
  }

  /** A sequence in which every element occurs at most once has no repetitions. */
  lemma OccursOnceDistinct<T>(s: seq<T>)
    requires forall x :: multiset(s)[x] <= 1
    ensures Distinct(s)
  {
    forall i, j | 0 <= i < j < |s|
      ensures s[i] != s[j]
    {
      assert s == s[..j] + s[j..];
      assert s[..j][i] == s[i] && s[j..][0] == s[j];
      assert multiset(s)[s[j]] == multiset(s[..j])[s[j]] + multiset(s[j..])[s[j]];
    }
  }

  /** Filtering never adds an occurrence. */
  lemma {:induction false} FilterSubMultiset<T>(s: seq<T>, p: T -> bool)
    ensures multiset(Filter(s, p)) <= multiset(s)
  {
    if s != [] {
      assert s == [s[0]] + s[1..];
      FilterSubMultiset(s[1..], p);
    }
  }

  /** Sorted by `key`, largest key first (`sort({ key: -1 })`). */
  predicate SortedDesc<T>(s: seq<T>, key: T -> int) {
    forall i, j :: 0 <= i < j < |s| ==> key(s[i]) >= key(s[j])
  }

  /** Puts x in front of the first element whose key is not larger than x's. */
  function Insert<T>(x: T, s: seq<T>, key: T -> int): (r: seq<T>)
    requires SortedDesc(s, key)
    ensures SortedDesc(r, key)
    ensures multiset(r) == multiset(s) + multiset{x}
    ensures forall k :: 0 <= k < |r| ==> key(r[k]) <= Max(key(x), if s == [] then key(x) else key(s[0]))
  {
    if s == [] || key(x) >= key(s[0]) then
      PrependLargest(x, s, key);
      [x] + s
    else
      var rest := Insert(x, s[1..], key);
      InsertBelowHead(x, s, rest, key);
      [s[0]] + rest
  }

  lemma InsertBelowHead<T>(x: T, s: seq<T>, rest: seq<T>, key: T -> int)
    requires s != [] && SortedDesc(s, key) && key(x) < key(s[0])
    requires SortedDesc(rest, key) && multiset(rest) == multiset(s[1..]) + multiset{x}
    requires forall k :: 0 <= k < |rest| ==> key(rest[k]) <= Max(key(x), if s[1..] == [] then key(x) else key(s[1..][0]))
    ensures SortedDesc([s[0]] + rest, key)
    ensures multiset([s[0]] + rest) == multiset(s) + multiset{x}
  {
    assert s == [s[0]] + s[1..];
    var r := [s[0]] + rest;
    forall i, j | 0 <= i < j < |r|
      ensures key(r[i]) >= key(r[j])
    {
      if i > 0 {
        assert r[i] == rest[i - 1] && r[j] == rest[j - 1];
      } else {
        assert r[j] == rest[j - 1];
      }
    }
  }

  /** An element no smaller than the head of a sorted sequence may go in front of it. */
  lemma PrependLargest<T>(x: T, s: seq<T>, key: T -> int)
    requires SortedDesc(s, key) && (s != [] ==> key(x) >= key(s[0]))
    ensures SortedDesc([x] + s, key)
    ensures forall k :: 0 <= k < |[x] + s| ==> key(([x] + s)[k]) <= key(x)
  {
    var r := [x] + s;
    forall k | 0 < k < |r|
      ensures key(r[k]) <= key(x)
    {
      assert r[k] == s[k - 1];
      assert key(s[0]) >= key(s[k - 1]);
    }
  }

  function Max(a: int, b: int): int { if a >= b then a else b }

  /**
   * A stable sort, largest key first; elements with equal keys keep their
   * natural order.
   */
  function SortDesc<T>(s: seq<T>, key: T -> int): (r: seq<T>)
    ensures SortedDesc(r, key)
    ensures multiset(r) == multiset(s)
  {
    if s == [] then []
    else
      assert s == [s[0]] + s[1..];
      Insert(s[0], SortDesc(s[1..], key), key)
  }

  /** The head of a sequence sorted largest first has the largest key. */
  lemma HeadIsLargest<T>(s: seq<T>, key: T -> int, x: T)
    requires SortedDesc(s, key) && x in s
    ensures key(s[0]) >= key(x)
  {
    var j :| 0 <= j < |s| && s[j] == x;
    if j > 0 {
      assert key(s[0]) >= key(s[j]);
    }
  }

  /** No two elements of s share a key. */
  ghost predicate KeysDistinct<T>(s: seq<T>, key: T -> int) {
    forall x, y :: x in s && y in s && key(x) == key(y) ==> x == y
  }

  /**
   * When no two elements share a key, there is one sorted order only: two
   * sorted permutations of the same elements are equal.
   */
  lemma {:induction false} SortedOrderUnique<T>(a: seq<T>, b: seq<T>, key: T -> int)
    requires SortedDesc(a, key) && SortedDesc(b, key)
    requires multiset(a) == multiset(b) && KeysDistinct(a, key)
    ensures a == b
    decreases |a|
  {
    assert |a| == |multiset(a)| == |multiset(b)| == |b|;
    if a != [] {
      SameHead(a, b, key);
      SortedTail(a, key);
      SortedTail(b, key);
      SortedOrderUnique(a[1..], b[1..], key);
      HeadAndTail(a, b);
    }
  }

  /** Two sorted permutations without shared keys start with the same element, and their tails hold the same elements. */
  lemma SameHead<T>(a: seq<T>, b: seq<T>, key: T -> int)
    requires a != [] && |a| == |b|
    requires SortedDesc(a, key) && SortedDesc(b, key)
    requires multiset(a) == multiset(b) && KeysDistinct(a, key)
    ensures a[0] == b[0] && multiset(a[1..]) == multiset(b[1..])
  {
    assert a[0] in multiset(b) && b[0] in multiset(a);
    HeadIsLargest(a, key, b[0]);
    HeadIsLargest(b, key, a[0]);
    assert a[0] in a && b[0] in a && key(a[0]) == key(b[0]);
    TailMultiset(a);
    TailMultiset(b);
  }

  lemma TailMultiset<T>(s: seq<T>)
    requires s != []
    ensures multiset(s[1..]) == multiset(s) - multiset{s[0]}
  {
    assert s == [s[0]] + s[1..];
    assert multiset(s) == multiset{s[0]} + multiset(s[1..]);
  }

  lemma HeadAndTail<T>(a: seq<T>, b: seq<T>)
    requires a != [] && b != [] && a[0] == b[0] && a[1..] == b[1..]
    ensures a == b
  {
    assert a == [a[0]] + a[1..] && b == [b[0]] + b[1..];
  }

  /** The tail of a sorted sequence without shared keys is sorted and without shared keys. */
  lemma SortedTail<T>(s: seq<T>, key: T -> int)
    requires s != [] && SortedDesc(s, key)
    ensures SortedDesc(s[1..], key)
    ensures KeysDistinct(s, key) ==> KeysDistinct(s[1..], key)
  {
    assert forall x :: x in s[1..] ==> x in s;
  }

  function Min(a: int, b: int): int { if a <= b then a else b }

  /** `skip(offset).limit(limit)`: at most `limit` elements, starting at `offset`. */
  function Page<T>(s: seq<T>, offset: nat, limit: nat): (r: seq<T>)
    ensures |r| == if offset >= |s| then 0 else Min(limit, |s| - offset)
    ensures forall j :: 0 <= j < |r| ==> offset + j < |s| && r[j] == s[offset + j]
  {
    if offset >= |s| then [] else s[offset .. offset + Min(limit, |s| - offset)]
  }

  /**
   * Two consecutive pages of the same size are contiguous: together they
   * are the page of twice the size.
   */
  lemma ConsecutivePages<T>(s: seq<T>, offset: nat, limit: nat)
    ensures Page(s, offset, limit) + Page(s, offset + limit, limit) == Page(s, offset, 2 * limit)
  {
    var a, b, c := Page(s, offset, limit), Page(s, offset + limit, limit), Page(s, offset, 2 * limit);
    assert |a + b| == |c|;
    forall j | 0 <= j < |c|
      ensures (a + b)[j] == c[j]
    {
      if j < |a| {
        assert (a + b)[j] == a[j];
      } else {
        assert (a + b)[j] == b[j - |a|];
        assert |a| == limit;
      }
    }
  }

  /**
   * Pages taken at offsets at least `limit` apart share no element of a
   * sequence without repetitions.
   */
  lemma DisjointPages<T>(s: seq<T>, offset1: nat, offset2: nat, limit: nat)
    requires Distinct(s)
    requires offset1 + limit <= offset2
    ensures forall x :: x in Page(s, offset1, limit) ==> x !in Page(s, offset2, limit)
  {
    var a, b := Page(s, offset1, limit), Page(s, offset2, limit);
    forall x | x in a
      ensures x !in b
    {
      var j :| 0 <= j < |a| && a[j] == x;
      forall k | 0 <= k < |b|
        ensures b[k] != x
      {
        assert s[offset1 + j] != s[offset2 + k];
      }
    }
  }
}
