/** The `Array.prototype` operations the source relies on, as functions on
    sequences: `filter`, `sort` with a numeric comparator, `slice(0, n)` and
    `find`.  Since ES2019 `sort` must be stable; `SortBy` is an insertion sort
    and `StableSortIsUnique` shows it is the only sort meeting that demand. */
module ArrayOps {
  import opened Base

  // ---------------------------------------------------------------- filter

  /** `s.filter(p)`: the elements satisfying `p`, in their original order. */
  function Filter<T>(s: seq<T>, p: T -> bool): (r: seq<T>)
    ensures |r| <= |s|
    ensures forall i :: 0 <= i < |r| ==> r[i] in s && p(r[i])
    ensures forall i :: 0 <= i < |s| && p(s[i]) ==> s[i] in r
    ensures multiset(r) <= multiset(s)
  {
    if s == [] then []
    else
      assert s == [s[0]] + s[1..];
      (if p(s[0]) then [s[0]] else []) + Filter(s[1..], p)
  }

  /** An element is kept exactly when it occurs in `s` and satisfies `p`. */
  lemma FilterMembers<T>(s: seq<T>, p: T -> bool)
    ensures forall x :: x in Filter(s, p) <==> x in s && p(x)
  {
    forall x | x in s && p(x)
      ensures x in Filter(s, p)
    {
      var i :| 0 <= i < |s| && s[i] == x;
    }
  }

  lemma {:induction false} FilterConcat<T>(a: seq<T>, b: seq<T>, p: T -> bool)
    ensures Filter(a + b, p) == Filter(a, p) + Filter(b, p)
  {
    if a == [] {
      assert a + b == b;
    } else {
      assert (a + b)[0] == a[0];
      assert (a + b)[1..] == a[1..] + b;
      FilterConcat(a[1..], b, p);
      assert Filter(a + b, p) == (if p(a[0]) then [a[0]] else []) + Filter(a[1..] + b, p);
    }
  }

  /** Appending one element: the filter grows by that element exactly when it passes. */
  lemma FilterSnoc<T>(s: seq<T>, x: T, p: T -> bool)
    ensures Filter(s + [x], p) == Filter(s, p) + (if p(x) then [x] else [])
  {
    FilterConcat(s, [x], p);
    assert Filter([x], p) == (if p(x) then [x] else []) + Filter([x][1..], p);
  }

  lemma {:induction false} FilterKeepsAll<T>(s: seq<T>, p: T -> bool)
    requires forall i :: 0 <= i < |s| ==> p(s[i])
    ensures Filter(s, p) == s
  {
    if s != [] {
      FilterKeepsAll(s[1..], p);
    }
  }

  lemma {:induction false} FilterDropsAll<T>(s: seq<T>, p: T -> bool)
    requires forall i :: 0 <= i < |s| ==> !p(s[i])
    ensures Filter(s, p) == []
  {
    if s != [] {
      FilterDropsAll(s[1..], p);
    }
  }

  lemma FilterCons<T>(x: T, s: seq<T>, p: T -> bool)
    ensures Filter([x] + s, p) == (if p(x) then [x] else []) + Filter(s, p)
  {
    assert ([x] + s)[0] == x && ([x] + s)[1..] == s;
  }

  /** Filtering twice is filtering once by the conjunction. */
  lemma {:induction false} FilterFilter<T>(s: seq<T>, p: T -> bool, q: T -> bool, pq: T -> bool)
    requires forall i :: 0 <= i < |s| ==> (pq(s[i]) <==> p(s[i]) && q(s[i]))
    ensures Filter(Filter(s, p), q) == Filter(s, pq)
  {
    if s != [] {
      var x, tail := s[0], s[1..];
      assert s == [x] + tail;
      forall i | 0 <= i < |tail|
        ensures pq(tail[i]) <==> p(tail[i]) && q(tail[i])
      {
        assert tail[i] == s[i + 1];
      }
      assert pq(x) <==> p(x) && q(x);
      FilterFilter(tail, p, q, pq);
      var ft := Filter(tail, p);
      assert Filter(s, p) == (if p(x) then [x] else []) + ft;
      assert Filter(s, pq) == (if pq(x) then [x] else []) + Filter(tail, pq);
      if p(x) {
        FilterCons(x, ft, q);
        assert Filter(Filter(s, p), q) == (if q(x) then [x] else []) + Filter(ft, q);
      } else {
        assert Filter(s, p) == [] + ft == ft;
      }
    }
  }

  /** The filter keeps every copy of an element that passes and none of one that does not. */
  lemma {:induction false} FilterCount<T>(s: seq<T>, p: T -> bool, x: T)
    ensures multiset(Filter(s, p))[x] == if p(x) then multiset(s)[x] else 0
  {
    if s != [] {
      FilterCount(s[1..], p, x);
      assert s == [s[0]] + s[1..];
      assert Filter(s, p) == (if p(s[0]) then [s[0]] else []) + Filter(s[1..], p);
    }
  }

  /** Two complementary filters split a sequence's multiset between them. */
  lemma {:induction false} FilterPartition<T>(s: seq<T>, p: T -> bool, q: T -> bool)
    requires forall i :: 0 <= i < |s| ==> (q(s[i]) <==> !p(s[i]))
    ensures multiset(Filter(s, p)) + multiset(Filter(s, q)) == multiset(s)
  {
    if s != [] {
      FilterPartition(s[1..], p, q);
      assert s == [s[0]] + s[1..];
    }
  }

  // ---------------------------------------------------------------- sort

  ghost predicate SortedBy<T>(s: seq<T>, key: T -> int) {
    forall i, j :: 0 <= i < j < |s| ==> key(s[i]) <= key(s[j])
  }

  lemma SortedAt<T>(s: seq<T>, key: T -> int, i: nat, j: nat)
    requires SortedBy(s, key) && i <= j < |s|
    ensures key(s[i]) <= key(s[j])
  {
  }

  /** The elements of `s` whose key is `k`, in their order in `s`.  A sort is
      stable exactly when it leaves every such class as it was. */
  function KeyClass<T>(s: seq<T>, key: T -> int, k: int): seq<T> {
    if s == [] then []
    else (if key(s[0]) == k then [s[0]] else []) + KeyClass(s[1..], key, k)
  }

  /** Places `x` in front of the first element whose key is not smaller. */
  function Insert<T>(x: T, s: seq<T>, key: T -> int): (r: seq<T>)
    ensures multiset(r) == multiset(s) + multiset{x}
    ensures SortedBy(s, key) ==> SortedBy(r, key)
  {
    if s == [] then [x]
    else if key(x) <= key(s[0]) then [x] + s
    else
      var rest := Insert(x, s[1..], key);
      assert multiset(s) == multiset{s[0]} + multiset(s[1..]) by {
        assert s == [s[0]] + s[1..];
      }
      assert SortedBy(s, key) ==> forall j :: 0 <= j < |rest| ==> key(s[0]) <= key(rest[j]) by {
        if SortedBy(s, key) {
          forall j | 0 <= j < |rest|
            ensures key(s[0]) <= key(rest[j])
          {
            assert rest[j] in multiset(rest);
            if rest[j] != x {
              assert rest[j] in multiset(s[1..]);
              var m :| 0 <= m < |s[1..]| && s[1..][m] == rest[j];
              assert s[m + 1] == rest[j];
            }
          }
        }
      }
      [s[0]] + rest
  }

  /** `s.sort((a, b) => key(a) - key(b))`: insertion sort, ascending by `key`. */
  function SortBy<T>(s: seq<T>, key: T -> int): (r: seq<T>)
    ensures SortedBy(r, key)
    ensures multiset(r) == multiset(s)
    ensures |r| == |s|
  {
    if s == [] then []
    else
      assert s == [s[0]] + s[1..];
      Insert(s[0], SortBy(s[1..], key), key)
  }

  lemma KeyClassCons<T>(x: T, s: seq<T>, key: T -> int, k: int)
    ensures KeyClass([x] + s, key, k) == (if key(x) == k then [x] else []) + KeyClass(s, key, k)
  {
    assert ([x] + s)[0] == x;
    assert ([x] + s)[1..] == s;
  }

  lemma InsertPastHead<T>(x: T, s: seq<T>, key: T -> int)
    requires s != [] && key(x) > key(s[0])
    ensures Insert(x, s, key) == [s[0]] + Insert(x, s[1..], key)
  {
  }

  /** Inserting `x` adds it to its own key class, ahead of that class's other members. */
  lemma {:induction false} InsertKeyClass<T>(x: T, s: seq<T>, key: T -> int, k: int)
    ensures KeyClass(Insert(x, s, key), key, k)
         == (if key(x) == k then [x] else []) + KeyClass(s, key, k)
  {
    if s == [] {
      KeyClassCons(x, [], key, k);
    } else if key(x) <= key(s[0]) {
      KeyClassCons(x, s, key, k);
    } else {
      InsertPastHead(x, s, key);
      InsertKeyClass(x, s[1..], key, k);
      KeyClassPastHead(x, s[0], Insert(x, s[1..], key), s[1..], key, k);
      assert s == [s[0]] + s[1..];
    }
  }

  /** One step of the induction above: `x` went past a head `h` with a smaller key. */
  lemma KeyClassPastHead<T>(x: T, h: T, rest: seq<T>, tail: seq<T>, key: T -> int, k: int)
    requires key(x) > key(h)
    requires KeyClass(rest, key, k) == (if key(x) == k then [x] else []) + KeyClass(tail, key, k)
    ensures KeyClass([h] + rest, key, k) == (if key(x) == k then [x] else []) + KeyClass([h] + tail, key, k)
  {
    KeyClassCons(h, rest, key, k);
    KeyClassCons(h, tail, key, k);
  }

  /** Stability: sorting leaves the order inside every key class unchanged. */
  lemma {:induction false} SortByIsStable<T>(s: seq<T>, key: T -> int, k: int)
    ensures KeyClass(SortBy(s, key), key, k) == KeyClass(s, key, k)
  {
    if s != [] {
      SortByIsStable(s[1..], key, k);
      InsertKeyClass(s[0], SortBy(s[1..], key), key, k);
      KeyClassCons(s[0], s[1..], key, k);
      assert s == [s[0]] + s[1..];
    }
  }

  lemma {:induction false} KeyClassNonEmpty<T>(s: seq<T>, key: T -> int, i: nat)
    requires i < |s|
    ensures KeyClass(s, key, key(s[i])) != []
  {
    if i > 0 {
      KeyClassNonEmpty(s[1..], key, i - 1);
    }
  }

  lemma {:induction false} KeyClassMember<T>(s: seq<T>, key: T -> int, k: int)
    requires KeyClass(s, key, k) != []
    ensures exists i :: 0 <= i < |s| && key(s[i]) == k
  {
    if key(s[0]) != k {
      KeyClassMember(s[1..], key, k);
      var i :| 0 <= i < |s[1..]| && key(s[1..][i]) == k;
      assert key(s[i + 1]) == k;
    }
  }

  /** The first element of a key class is the first element of `s` carrying that key. */
  lemma {:induction false} KeyClassHead<T>(s: seq<T>, key: T -> int, i: nat)
    requires i < |s|
    requires forall j :: 0 <= j < i ==> key(s[j]) != key(s[i])
    ensures KeyClass(s, key, key(s[i])) != [] && KeyClass(s, key, key(s[i]))[0] == s[i]
  {
    if i > 0 {
      KeyClassHead(s[1..], key, i - 1);
      assert s[1..][i - 1] == s[i];
    }
  }

  /** A sorted sequence whose key classes match those of `s` is `SortBy(s)`:
      every stable ascending sort of `s` returns exactly what the insertion sort returns. */
  lemma {:induction false} StableSortIsUnique<T>(s: seq<T>, r: seq<T>, key: T -> int)
    requires SortedBy(r, key)
    requires forall k :: KeyClass(r, key, k) == KeyClass(s, key, k)
    ensures r == SortBy(s, key)
  {
    var t := SortBy(s, key);
    forall k
      ensures KeyClass(r, key, k) == KeyClass(t, key, k)
    {
      SortByIsStable(s, key, k);
    }
    SortedWithSameClassesAreEqual(r, t, key);
  }

  lemma SameClassesSameEmptiness<T>(a: seq<T>, b: seq<T>, key: T -> int)
    requires forall k :: KeyClass(a, key, k) == KeyClass(b, key, k)
    ensures a == [] <==> b == []
  {
    if a != [] {
      KeyClassNonEmpty(a, key, 0);
    }
    if b != [] {
      KeyClassNonEmpty(b, key, 0);
    }
  }

  lemma {:induction false} SortedWithSameClassesAreEqual<T>(a: seq<T>, b: seq<T>, key: T -> int)
    requires SortedBy(a, key) && SortedBy(b, key)
    requires forall k :: KeyClass(a, key, k) == KeyClass(b, key, k)
    ensures a == b
    decreases |a|
  {
    SameClassesSameEmptiness(a, b, key);
    if a == [] {
    } else {
      var ka, kb := key(a[0]), key(b[0]);
      KeyClassNonEmpty(a, key, 0);
      KeyClassMember(b, key, ka);
      KeyClassNonEmpty(b, key, 0);
      KeyClassMember(a, key, kb);
      assert ka == kb;
      KeyClassCons(a[0], a[1..], key, ka);
      KeyClassCons(b[0], b[1..], key, ka);
      assert a == [a[0]] + a[1..] && b == [b[0]] + b[1..];
      assert a[0] == b[0] by {
        assert KeyClass(a, key, ka)[0] == a[0];
        assert KeyClass(b, key, ka)[0] == b[0];
      }
      forall k
        ensures KeyClass(a[1..], key, k) == KeyClass(b[1..], key, k)
      {
        KeyClassCons(a[0], a[1..], key, k);
        KeyClassCons(b[0], b[1..], key, k);
        assert KeyClass(a, key, k) == KeyClass(b, key, k);
        if key(a[0]) == k {
          assert KeyClass(a, key, k) == [a[0]] + KeyClass(a[1..], key, k);
          assert KeyClass(b, key, k) == [a[0]] + KeyClass(b[1..], key, k);
          assert KeyClass(a[1..], key, k) == KeyClass(a, key, k)[1..];
          assert KeyClass(b[1..], key, k) == KeyClass(b, key, k)[1..];
        } else {
          assert KeyClass(a, key, k) == KeyClass(a[1..], key, k);
          assert KeyClass(b, key, k) == KeyClass(b[1..], key, k);
        }
      }
      SortedWithSameClassesAreEqual(a[1..], b[1..], key);
    }
  }

  // ---------------------------------------------------------------- slice

  /** `s.slice(0, n)`. */
  function Take<T>(s: seq<T>, n: nat): (r: seq<T>)
    ensures |r| == if |s| < n then |s| else n
    ensures r <= s
  {
    if |s| <= n then s else s[..n]
  }

  /** A prefix keeps a prefix of every key class: taking the first `n` never
      reorders the elements that share a key. */
  lemma {:induction false} KeyClassOfPrefix<T>(s: seq<T>, n: nat, key: T -> int, k: int)
    requires n <= |s|
    ensures KeyClass(s[..n], key, k) <= KeyClass(s, key, k)
  {
    if n > 0 {
      KeyClassOfPrefix(s[1..], n - 1, key, k);
      assert s[..n] == [s[0]] + s[1..][..n - 1];
      KeyClassCons(s[0], s[1..][..n - 1], key, k);
      KeyClassCons(s[0], s[1..], key, k);
      assert s == [s[0]] + s[1..];
    }
  }

  /** In a sorted sequence nothing after position `n` is smaller than anything before it. */
  lemma SortedSuffixBound<T>(s: seq<T>, key: T -> int, n: nat)
    requires SortedBy(s, key) && n <= |s|
    ensures forall x, i :: x in multiset(s[n..]) && 0 <= i < n ==> key(s[i]) <= key(x)
  {
    forall x, i | x in multiset(s[n..]) && 0 <= i < n
      ensures key(s[i]) <= key(x)
    {
      assert x in s[n..];
      var j :| 0 <= j < |s[n..]| && s[n..][j] == x;
      assert s[n + j] == x;
      SortedAt(s, key, i, n + j);
    }
  }

  /** A prefix of a sorted permutation of `s` keeps keys no larger than any
      element of `s` it leaves out. */
  lemma SortedPrefixKeepsSmallest<T>(s: seq<T>, sorted: seq<T>, key: T -> int, r: seq<T>)
    requires SortedBy(sorted, key) && multiset(sorted) == multiset(s) && r <= sorted
    ensures forall x, i :: x in multiset(s) - multiset(r) && 0 <= i < |r| ==> key(r[i]) <= key(x)
  {
    var rest := sorted[|r|..];
    assert sorted == r + rest;
    assert multiset(s) - multiset(r) == multiset(rest);
    SortedSuffixBound(sorted, key, |r|);
    assert forall i :: 0 <= i < |r| ==> sorted[i] == r[i];
  }

  /** The head of a sorted permutation of `s` carries the smallest key of `s`. */
  lemma SortedHeadIsMinimal<T>(s: seq<T>, sorted: seq<T>, key: T -> int)
    requires SortedBy(sorted, key) && multiset(sorted) == multiset(s) && sorted != []
    ensures forall j :: 0 <= j < |s| ==> key(sorted[0]) <= key(s[j])
  {
    forall j | 0 <= j < |s|
      ensures key(sorted[0]) <= key(s[j])
    {
      assert s[j] in multiset(sorted);
      var l :| 0 <= l < |sorted| && sorted[l] == s[j];
      SortedAt(sorted, key, 0, l);
    }
  }

  lemma HeadOccurs<T>(s: seq<T>, sorted: seq<T>, key: T -> int)
    requires multiset(sorted) == multiset(s) && sorted != []
    ensures exists j :: 0 <= j < |s| && key(s[j]) == key(sorted[0])
  {
    assert sorted[0] in multiset(s);
    var l :| 0 <= l < |s| && s[l] == sorted[0];
  }

  /** When two sequences have the same key classes, the head of one is the
      first element of the other that carries the head's key. */
  lemma HeadIsFirstOfClass<T>(s: seq<T>, sorted: seq<T>, key: T -> int, i: nat)
    requires sorted != [] && forall k :: KeyClass(sorted, key, k) == KeyClass(s, key, k)
    requires i < |s| && key(s[i]) == key(sorted[0]) && forall j :: 0 <= j < i ==> key(s[j]) != key(s[i])
    ensures sorted[0] == s[i]
  {
    KeyClassHead(s, key, i);
    KeyClassHead(sorted, key, 0);
    assert KeyClass(sorted, key, key(s[i])) == KeyClass(s, key, key(s[i]));
  }

  /** The head of the stable sort is the earliest element carrying the smallest key. */
  lemma SortByHead<T>(s: seq<T>, key: T -> int)
    requires s != []
    ensures exists i :: 0 <= i < |s| && SortBy(s, key)[0] == s[i]
              && (forall j :: 0 <= j < |s| ==> key(s[i]) <= key(s[j]))
              && (forall j :: 0 <= j < i ==> key(s[j]) > key(s[i]))
  {
    var sorted := SortBy(s, key);
    SortedHeadIsMinimal(s, sorted, key);
    HeadOccurs(s, sorted, key);
    var i := FirstWithKey(s, key, key(sorted[0]));
    forall k
      ensures KeyClass(sorted, key, k) == KeyClass(s, key, k)
    {
      SortByIsStable(s, key, k);
    }
    HeadIsFirstOfClass(s, sorted, key, i);
  }

  /** The position of the first element whose key is `m`, given that one exists. */
  function FirstWithKey<T>(s: seq<T>, key: T -> int, m: int): (i: nat)
    requires exists j :: 0 <= j < |s| && key(s[j]) == m
    ensures i < |s| && key(s[i]) == m
    ensures forall j :: 0 <= j < i ==> key(s[j]) != m
  {
    if key(s[0]) == m then 0
    else
      var j :| 0 <= j < |s| && key(s[j]) == m;
      assert key(s[1..][j - 1]) == m;
      1 + FirstWithKey(s[1..], key, m)
  }

  // ---------------------------------------------------------------- find

  /** The index `s.find(p)` stops at: the first element satisfying `p`, if any. */
  function FindIndex<T>(s: seq<T>, p: T -> bool): (r: Option<nat>)
    ensures r.Some? ==> r.value < |s| && p(s[r.value])
    ensures r.Some? ==> forall j :: 0 <= j < r.value ==> !p(s[j])
    ensures r.None? ==> forall j :: 0 <= j < |s| ==> !p(s[j])
  {
    if s == [] then None
    else if p(s[0]) then Some(0)
    else match FindIndex(s[1..], p)
      case None => None
      case Some(i) => Some(i + 1)
  }
}
