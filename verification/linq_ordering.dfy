/**
  `Enumerable.OrderBy` and `OrderByDescending` on an integer key. Both are
  stable sorts: elements with equal keys keep their source order. The model
  sorts by insertion; its contract is sortedness, permutation and stability,
  which together determine the result.
 */
module LinqOrdering {
  import opened Linq

  ghost predicate SortedBy<T>(s: seq<T>, key: T -> int) {
    forall i, j :: 0 <= i < j < |s| ==> key(s[i]) <= key(s[j])
  }

  ghost predicate SortedDescendingBy<T>(s: seq<T>, key: T -> int) {
    forall i, j :: 0 <= i < j < |s| ==> key(s[i]) >= key(s[j])
  }

  /** `x` placed in front of the first element of `t` whose key is not smaller. */
  function Insert<T>(x: T, t: seq<T>, key: T -> int): seq<T>
    decreases |t|
  {
    if |t| == 0 || key(x) <= key(t[0]) then [x] + t
    else [t[0]] + Insert(x, t[1..], key)
  }

  /** `Enumerable.OrderBy(key)`. */
  function OrderBy<T>(s: seq<T>, key: T -> int): seq<T>
    decreases |s|
  {
    if |s| == 0 then [] else Insert(s[0], OrderBy(s[1..], key), key)
  }

  function Negated<T>(key: T -> int): T -> int {
    x => -key(x)
  }

  /** `Enumerable.OrderByDescending(key)`: a stable sort on the negated key. */
  function OrderByDescending<T>(s: seq<T>, key: T -> int): seq<T> {
    OrderBy(s, Negated(key))
  }

  lemma {:induction false} InsertPermutes<T>(x: T, t: seq<T>, key: T -> int)
    ensures multiset(Insert(x, t, key)) == multiset{x} + multiset(t)
    ensures |Insert(x, t, key)| == |t| + 1
    decreases |t|
  {
    if |t| > 0 && key(x) > key(t[0]) {
      InsertPermutes(x, t[1..], key);
      assert t == [t[0]] + t[1..];
    }
  }

  lemma {:induction false} InsertSorted<T>(x: T, t: seq<T>, key: T -> int)
    requires SortedBy(t, key)
    ensures SortedBy(Insert(x, t, key), key)
    decreases |t|
  {
    if |t| > 0 && key(x) > key(t[0]) {
      var rest := Insert(x, t[1..], key);
      InsertSorted(x, t[1..], key);
      InsertPermutes(x, t[1..], key);
      forall j | 0 <= j < |rest|
        ensures key(t[0]) <= key(rest[j])
      {
        assert rest[j] in multiset(rest);
        if rest[j] != x {
          assert rest[j] in multiset(t[1..]);
          var k :| 0 <= k < |t[1..]| && t[1..][k] == rest[j];
          assert t[k + 1] == rest[j];
        }
      }
    }
  }

  /** Inserting `x` adds it in front of the elements that share its key. */
  lemma {:induction false} InsertKeyGroup<T>(x: T, t: seq<T>, key: T -> int, k: int)
    ensures Where(Insert(x, t, key), KeyIs(key, k))
         == (if key(x) == k then [x] else []) + Where(t, KeyIs(key, k))
    decreases |t|
  {
    var p := KeyIs(key, k);
    if |t| == 0 || key(x) <= key(t[0]) {
      assert Insert(x, t, key) == [x] + t;
      WhereAppend([x], t, p);
      WhereSingle(x, p);
    } else {
      var rest := Insert(x, t[1..], key);
      var mine := if key(x) == k then [x] else [];
      assert Insert(x, t, key) == [t[0]] + rest;
      InsertKeyGroup(x, t[1..], key, k);
      assert t == [t[0]] + t[1..];
      WhereAppend([t[0]], t[1..], p);
      InsertBehindHead(t[0], rest, p, mine, Where([t[0]], p), Where(t[1..], p));
    }
  }

  /**
    The step of `InsertKeyGroup` past a head `h` that the inserted element
    goes behind: at most one of the two has the key, so their order does not
    show among the elements that have it.
   */
  lemma InsertBehindHead<T>(h: T, rest: seq<T>, p: T -> bool, mine: seq<T>, first: seq<T>, w: seq<T>)
    requires first == Where([h], p)
    requires Where(rest, p) == mine + w
    requires |mine| == 0 || |first| == 0
    ensures Where([h] + rest, p) == mine + (first + w)
  {
    WhereAppend([h], rest, p);
    if |mine| == 0 {
      assert mine == [];
    } else {
      assert first == [];
    }
  }

  lemma {:induction false} OrderByPermutes<T>(s: seq<T>, key: T -> int)
    ensures multiset(OrderBy(s, key)) == multiset(s)
    ensures |OrderBy(s, key)| == |s|
    decreases |s|
  {
    if |s| > 0 {
      OrderByPermutes(s[1..], key);
      InsertPermutes(s[0], OrderBy(s[1..], key), key);
      assert s == [s[0]] + s[1..];
    }
  }

  lemma {:induction false} OrderBySorted<T>(s: seq<T>, key: T -> int)
    ensures SortedBy(OrderBy(s, key), key)
    decreases |s|
  {
    if |s| > 0 {
      OrderBySorted(s[1..], key);
      InsertSorted(s[0], OrderBy(s[1..], key), key);
    }
  }

  /** Stability: the elements with any one key appear in the sorted output in source order. */
  lemma {:induction false} OrderByStable<T>(s: seq<T>, key: T -> int, k: int)
    ensures Where(OrderBy(s, key), KeyIs(key, k)) == Where(s, KeyIs(key, k))
    decreases |s|
  {
    if |s| > 0 {
      OrderByStable(s[1..], key, k);
      InsertKeyGroup(s[0], OrderBy(s[1..], key), key, k);
      WhereAppend([s[0]], s[1..], KeyIs(key, k));
      assert s == [s[0]] + s[1..];
    }
  }

  /** Elements of the sorted output are exactly the elements of the source. */
  lemma OrderByMembership<T>(s: seq<T>, key: T -> int)
    ensures forall x :: x in OrderBy(s, key) <==> x in s
  {
    OrderByPermutes(s, key);
    forall x
      ensures x in OrderBy(s, key) <==> x in s
    {
      assert x in OrderBy(s, key) <==> x in multiset(OrderBy(s, key));
      assert x in s <==> x in multiset(s);
    }
  }

  /**
    `OrderBy(key).First()`: the first source element with the smallest key.
    The returned index locates it in the source.
   */
  lemma OrderByHead<T>(s: seq<T>, key: T -> int) returns (i: nat)
    requires |s| > 0
    ensures |OrderBy(s, key)| == |s|
    ensures i < |s| && OrderBy(s, key)[0] == s[i]
    ensures forall j :: 0 <= j < |s| ==> key(s[i]) <= key(s[j])
    ensures forall j :: 0 <= j < i ==> key(s[i]) < key(s[j])
  {
    var r := OrderBy(s, key);
    OrderByPermutes(s, key);
    OrderBySorted(s, key);
    OrderByMembership(s, key);
    var m := key(r[0]);
    forall j | 0 <= j < |s|
      ensures m <= key(s[j])
    {
      assert s[j] in r;
      var idx :| 0 <= idx < |r| && r[idx] == s[j];
    }
    assert r[0] in multiset(r);
    assert r[0] in multiset(s);
    var k :| 0 <= k < |s| && s[k] == r[0];
    i := FirstSatisfying(s, KeyIs(key, m), k);
    WhereHead(s, KeyIs(key, m), i);
    WhereHead(r, KeyIs(key, m), 0);
    OrderByStable(s, key, m);
  }

  /**
    `OrderBy(key).Last()`: the last source element with the largest key.
    The returned index locates it in the source.
   */
  lemma OrderByLast<T>(s: seq<T>, key: T -> int) returns (i: nat)
    requires |s| > 0
    ensures |OrderBy(s, key)| == |s|
    ensures i < |s| && OrderBy(s, key)[|s| - 1] == s[i]
    ensures forall j :: 0 <= j < |s| ==> key(s[j]) <= key(s[i])
    ensures forall j :: i < j < |s| ==> key(s[j]) < key(s[i])
  {
    var r := OrderBy(s, key);
    var k := SortedLastIsLargest(s, key);
    var m := key(s[k]);
    assert KeyIs(key, m)(s[k]);
    i := LastSatisfying(s, KeyIs(key, m), k);
    assert key(s[i]) == m;
    forall j | i < j < |s|
      ensures key(s[j]) < m
    {
      assert !KeyIs(key, m)(s[j]);
    }
    WhereLast(s, KeyIs(key, m), i);
    assert KeyIs(key, m)(r[|r| - 1]);
    WhereLast(r, KeyIs(key, m), |r| - 1);
    OrderByStable(s, key, m);
  }

  /** The last element of the sorted output is a source element with the largest key. */
  lemma SortedLastIsLargest<T>(s: seq<T>, key: T -> int) returns (k: nat)
    requires |s| > 0
    ensures |OrderBy(s, key)| == |s|
    ensures k < |s| && s[k] == OrderBy(s, key)[|s| - 1]
    ensures forall j :: 0 <= j < |s| ==> key(s[j]) <= key(s[k])
  {
    var r := OrderBy(s, key);
    OrderByPermutes(s, key);
    OrderBySorted(s, key);
    OrderByMembership(s, key);
    var last := |r| - 1;
    forall j | 0 <= j < |s|
      ensures key(s[j]) <= key(r[last])
    {
      assert s[j] in r;
      var idx :| 0 <= idx < |r| && r[idx] == s[j];
    }
    assert r[last] in multiset(r);
    assert r[last] in multiset(s);
    k :| 0 <= k < |s| && s[k] == r[last];
  }

  /** A stable descending sort: largest keys first, ties in source order. */
  lemma OrderByDescendingSpec<T>(s: seq<T>, key: T -> int)
    ensures SortedDescendingBy(OrderByDescending(s, key), key)
    ensures multiset(OrderByDescending(s, key)) == multiset(s)
    ensures forall k :: Where(OrderByDescending(s, key), KeyIs(key, k)) == Where(s, KeyIs(key, k))
  {
    OrderByDescendingSorted(s, key);
    OrderByPermutes(s, Negated(key));
    forall k
      ensures Where(OrderByDescending(s, key), KeyIs(key, k)) == Where(s, KeyIs(key, k))
    {
      OrderByDescendingStable(s, key, k);
    }
  }

  lemma OrderByDescendingSorted<T>(s: seq<T>, key: T -> int)
    ensures SortedDescendingBy(OrderByDescending(s, key), key)
  {
    var neg := Negated(key);
    var r := OrderBy(s, neg);
    OrderBySorted(s, neg);
    forall i, j | 0 <= i < j < |r|
      ensures key(r[i]) >= key(r[j])
    {
      assert neg(r[i]) <= neg(r[j]);
    }
  }

  lemma OrderByDescendingStable<T>(s: seq<T>, key: T -> int, k: int)
    ensures Where(OrderByDescending(s, key), KeyIs(key, k)) == Where(s, KeyIs(key, k))
  {
    var neg := Negated(key);
    OrderByStable(s, neg, -k);
    WhereSamePredicate(OrderBy(s, neg), KeyIs(neg, -k), KeyIs(key, k));
    WhereSamePredicate(s, KeyIs(neg, -k), KeyIs(key, k));
  }

  lemma {:induction false} WhereSamePredicate<T>(s: seq<T>, p: T -> bool, q: T -> bool)
    requires forall x :: p(x) == q(x)
    ensures Where(s, p) == Where(s, q)
    decreases |s|
  {
    if |s| > 0 {
      WhereSamePredicate(s[1..], p, q);
    }
  }

  /** `OrderByDescending(key).FirstOrDefault()`: the first source element with the largest key. */
  lemma OrderByDescendingHead<T>(s: seq<T>, key: T -> int) returns (i: nat)
    requires |s| > 0
    ensures |OrderByDescending(s, key)| == |s|
    ensures i < |s| && OrderByDescending(s, key)[0] == s[i]
    ensures forall j :: 0 <= j < |s| ==> key(s[j]) <= key(s[i])
    ensures forall j :: 0 <= j < i ==> key(s[j]) < key(s[i])
  {
    i := OrderByHead(s, Negated(key));
  }

  /** Sorting keeps distinct keys distinct, so a sorted output with distinct keys strictly ascends. */
  lemma {:induction false} OrderByDistinctKeys<T>(s: seq<T>, key: T -> int)
    requires forall i, j :: 0 <= i < j < |s| ==> key(s[i]) != key(s[j])
    ensures forall i, j :: 0 <= i < j < |OrderBy(s, key)| ==> key(OrderBy(s, key)[i]) < key(OrderBy(s, key)[j])
  {
    var r := OrderBy(s, key);
    OrderBySorted(s, key);
    OrderByPermutes(s, key);
    forall i, j | 0 <= i < j < |r|
      ensures key(r[i]) < key(r[j])
    {
      if key(r[i]) == key(r[j]) {
        var k := key(r[i]);
        OrderByStable(s, key, k);
        TwoWithKey(r, key, i, j);
        AtMostOneWithKey(s, key, k);
        assert false;
      }
    }
  }

  lemma {:induction false} TwoWithKey<T>(s: seq<T>, key: T -> int, i: nat, j: nat)
    requires i < j < |s| && key(s[i]) == key(s[j])
    ensures |Where(s, KeyIs(key, key(s[i])))| >= 2
    decreases |s|
  {
    var k := key(s[i]);
    if i > 0 {
      TwoWithKey(s[1..], key, i - 1, j - 1);
    } else {
      assert s[1..][j - 1] == s[j];
      assert KeyIs(key, k)(s[j]);
      WhereKeeps(s[1..], KeyIs(key, k), s[j]);
    }
  }

  lemma {:induction false} AtMostOneWithKey<T>(s: seq<T>, key: T -> int, k: int)
    requires forall i, j :: 0 <= i < j < |s| ==> key(s[i]) != key(s[j])
    ensures |Where(s, KeyIs(key, k))| <= 1
    decreases |s|
  {
    if |s| > 0 {
      AtMostOneWithKey(s[1..], key, k);
      if key(s[0]) == k {
        WhereNone(s[1..], KeyIs(key, k));
      }
    }
  }
}
