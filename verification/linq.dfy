/**
  LINQ-to-objects operators over finite sequences, as the bookstore queries use
  them: `Where`, `Select`, `Join`, `Distinct`, `Count`, `Sum` and the
  `FirstOrDefault`/`LastOrDefault` defaults. Every operator keeps the order of
  its source, as `System.Linq.Enumerable` does. Keys are compared with `==`.
 */
module Linq {

  /** A reference that may be null: what `FirstOrDefault` and friends return. */
  datatype Option<T> = None | Some(value: T)

  /** The outcome of an operator that may throw. */
  datatype Result<T> = Success(value: T) | Failure(error: string)

  /** The message of the `InvalidOperationException` that `Average` throws on no elements. */
  const NoElements: string := "Sequence contains no elements"

  // ---------------------------------------------------------------------------
  // Predicates used in contracts
  // ---------------------------------------------------------------------------

  ghost predicate NoDuplicates<T>(s: seq<T>) {
    forall i, j :: 0 <= i < j < |s| ==> s[i] != s[j]
  }

  /** `a` is `b` with some elements deleted: the survivors keep their order. */
  ghost predicate Subsequence<T>(a: seq<T>, b: seq<T>)
    decreases |b|
  {
    if |a| == 0 then true
    else if |b| == 0 then false
    else (a[0] == b[0] && Subsequence(a[1..], b[1..])) || Subsequence(a, b[1..])
  }

  /** The element predicate "has key `k`". */
  function KeyIs<T, K(==)>(key: T -> K, k: K): T -> bool {
    x => key(x) == k
  }

  /** The element predicate "does not have key `k`". */
  function KeyIsNot<T, K(==)>(key: T -> K, k: K): T -> bool {
    x => key(x) != k
  }

  // ---------------------------------------------------------------------------
  // Where, Select, Count, Sum
  // ---------------------------------------------------------------------------

  /** `Enumerable.Where`: the elements satisfying `p`, in source order. */
  function Where<T>(s: seq<T>, p: T -> bool): (r: seq<T>)
    ensures |r| <= |s|
    ensures forall i :: 0 <= i < |r| ==> p(r[i])
    decreases |s|
  {
    if |s| == 0 then []
    else
      assert s == [s[0]] + s[1..];
      if p(s[0]) then [s[0]] + Where(s[1..], p) else Where(s[1..], p)
  }

  /** `Enumerable.Select`: `f` applied to each element, in source order. */
  function Select<T, U>(s: seq<T>, f: T -> U): (r: seq<U>)
    ensures |r| == |s|
    ensures forall i :: 0 <= i < |s| ==> r[i] == f(s[i])
  {
    seq(|s|, i requires 0 <= i < |s| => f(s[i]))
  }

  /** `Enumerable.Count(predicate)`. */
  function Count<T>(s: seq<T>, p: T -> bool): nat {
    |Where(s, p)|
  }

  lemma WhereSingle<T>(x: T, p: T -> bool)
    ensures Where([x], p) == if p(x) then [x] else []
  {
    assert [x][1..] == [];
  }

  /** One step of `Count`: the head counts exactly when it satisfies the predicate. */
  lemma CountCons<T>(s: seq<T>, p: T -> bool)
    requires |s| > 0
    ensures Count(s, p) == (if p(s[0]) then 1 else 0) + Count(s[1..], p)
  {
  }

  /** `Enumerable.Sum(selector)` over exact integers. */
  function Sum<T>(s: seq<T>, f: T -> int): int
    decreases |s|
  {
    if |s| == 0 then 0 else f(s[0]) + Sum(s[1..], f)
  }

  /** `Enumerable.FirstOrDefault`: the first element, or null on no elements. */
  function FirstOrDefault<T>(s: seq<T>): (r: Option<T>)
    ensures r.None? <==> |s| == 0
    ensures r.Some? ==> r.value == s[0]
  {
    if |s| == 0 then None else Some(s[0])
  }

  /** `Enumerable.LastOrDefault`: the last element, or null on no elements. */
  function LastOrDefault<T>(s: seq<T>): (r: Option<T>)
    ensures r.None? <==> |s| == 0
    ensures r.Some? ==> r.value == s[|s| - 1]
  {
    if |s| == 0 then None else Some(s[|s| - 1])
  }

  lemma {:induction false} SumAppend<T>(a: seq<T>, b: seq<T>, f: T -> int)
    ensures Sum(a + b, f) == Sum(a, f) + Sum(b, f)
    decreases |a|
  {
    if |a| == 0 {
      assert a + b == b;
    } else {
      assert (a + b)[1..] == a[1..] + b;
      SumAppend(a[1..], b, f);
    }
  }

  /** Where in one statement: membership, multiplicities and order. */
  lemma WhereSpec<T>(s: seq<T>, p: T -> bool)
    ensures forall x :: x in Where(s, p) <==> x in s && p(x)
    ensures forall x :: multiset(Where(s, p))[x] == if p(x) then multiset(s)[x] else 0
    ensures Subsequence(Where(s, p), s)
  {
    WhereMultiset(s, p);
    WhereSubsequence(s, p);
    forall x
      ensures x in Where(s, p) <==> x in s && p(x)
    {
      assert x in Where(s, p) <==> x in multiset(Where(s, p));
      assert x in s <==> x in multiset(s);
    }
  }

  /** Where, position by position: every survivor is a source element, every satisfying source element survives. */
  lemma WhereMembers<T>(s: seq<T>, p: T -> bool)
    ensures forall i :: 0 <= i < |Where(s, p)| ==> Where(s, p)[i] in s
    ensures forall i :: 0 <= i < |s| && p(s[i]) ==> s[i] in Where(s, p)
  {
    WhereSpec(s, p);
  }

  /** A survivor of a filter comes from the source and satisfies the predicate. */
  lemma WhereFrom<T>(s: seq<T>, p: T -> bool, x: T)
    requires x in Where(s, p)
    ensures x in s && p(x)
  {
    WhereSpec(s, p);
  }

  /** A source element that satisfies the predicate survives the filter. */
  lemma WhereKeeps<T>(s: seq<T>, p: T -> bool, x: T)
    requires x in s && p(x)
    ensures x in Where(s, p)
  {
    WhereSpec(s, p);
  }

  lemma {:induction false} WhereMultiset<T>(s: seq<T>, p: T -> bool)
    ensures forall x :: multiset(Where(s, p))[x] == if p(x) then multiset(s)[x] else 0
    decreases |s|
  {
    if |s| > 0 {
      WhereMultiset(s[1..], p);
      assert s == [s[0]] + s[1..];
      assert multiset(s) == multiset{s[0]} + multiset(s[1..]);
    }
  }

  lemma {:induction false} WhereSubsequence<T>(s: seq<T>, p: T -> bool)
    ensures Subsequence(Where(s, p), s)
    decreases |s|
  {
    if |s| > 0 {
      WhereSubsequence(s[1..], p);
      var r := Where(s, p);
      if p(s[0]) {
        assert r[0] == s[0] && r[1..] == Where(s[1..], p);
      } else {
        assert r == Where(s[1..], p);
      }
    }
  }

  lemma {:induction false} WhereAppend<T>(a: seq<T>, b: seq<T>, p: T -> bool)
    ensures Where(a + b, p) == Where(a, p) + Where(b, p)
    decreases |a|
  {
    if |a| == 0 {
      assert a + b == b;
    } else {
      assert (a + b)[0] == a[0];
      assert (a + b)[1..] == a[1..] + b;
      WhereAppend(a[1..], b, p);
    }
  }

  /** Filtering by a predicate that holds of every element changes nothing. */
  lemma {:induction false} WhereAll<T>(s: seq<T>, p: T -> bool)
    requires forall i :: 0 <= i < |s| ==> p(s[i])
    ensures Where(s, p) == s
    decreases |s|
  {
    if |s| > 0 {
      WhereAll(s[1..], p);
      assert s == [s[0]] + s[1..];
    }
  }

  /** Filtering by a predicate that holds of no element leaves nothing. */
  lemma WhereNone<T>(s: seq<T>, p: T -> bool)
    requires forall i :: 0 <= i < |s| ==> !p(s[i])
    ensures Where(s, p) == []
  {
  }

  /** A second, weaker filter applied first is absorbed by the stronger one. */
  lemma {:induction false} WhereOfWhere<T>(s: seq<T>, q: T -> bool, p: T -> bool)
    requires forall x :: p(x) ==> q(x)
    ensures Where(Where(s, q), p) == Where(s, p)
    decreases |s|
  {
    if |s| > 0 {
      WhereOfWhere(s[1..], q, p);
    }
  }

  /** The first survivor of a filter is the first element that satisfies it. */
  lemma {:induction false} WhereHead<T>(s: seq<T>, p: T -> bool, i: nat)
    requires i < |s| && p(s[i])
    requires forall j :: 0 <= j < i ==> !p(s[j])
    ensures |Where(s, p)| > 0 && Where(s, p)[0] == s[i]
    decreases i
  {
    if i > 0 {
      assert !p(s[0]);
      WhereHead(s[1..], p, i - 1);
    }
  }

  /** The last survivor of a filter is the last element that satisfies it. */
  lemma WhereLast<T>(s: seq<T>, p: T -> bool, i: nat)
    requires i < |s| && p(s[i])
    requires forall j :: i < j < |s| ==> !p(s[j])
    ensures |Where(s, p)| > 0 && Where(s, p)[|Where(s, p)| - 1] == s[i]
  {
    assert s == s[..i] + [s[i]] + s[i + 1..];
    WhereAppend(s[..i] + [s[i]], s[i + 1..], p);
    WhereAppend(s[..i], [s[i]], p);
    WhereNone(s[i + 1..], p);
    assert Where([s[i]], p) == [s[i]];
  }

  /** The index of the first element satisfying `p`. */
  lemma {:induction false} FirstSatisfying<T>(s: seq<T>, p: T -> bool, k: nat) returns (i: nat)
    requires k < |s| && p(s[k])
    ensures i <= k && p(s[i])
    ensures forall j :: 0 <= j < i ==> !p(s[j])
    decreases k
  {
    if p(s[0]) {
      i := 0;
    } else {
      var i' := FirstSatisfying(s[1..], p, k - 1);
      i := i' + 1;
    }
  }

  /** The index of the last element satisfying `p`. */
  lemma {:induction false} LastSatisfying<T>(s: seq<T>, p: T -> bool, k: nat) returns (i: nat)
    requires k < |s| && p(s[k])
    ensures k <= i < |s| && p(s[i])
    ensures forall j :: i < j < |s| ==> !p(s[j])
    decreases |s| - k
  {
    if forall j :: k < j < |s| ==> !p(s[j]) {
      i := k;
    } else {
      var k' :| k < k' < |s| && p(s[k']);
      i := LastSatisfying(s, p, k');
    }
  }

  lemma {:induction false} SelectAppend<T, U>(a: seq<T>, b: seq<T>, f: T -> U)
    ensures Select(a + b, f) == Select(a, f) + Select(b, f)
  {
  }

  /** A value is in the image exactly when some source element maps to it. */
  lemma SelectMembership<T, U>(s: seq<T>, f: T -> U)
    ensures forall y :: y in Select(s, f) <==> exists x :: x in s && y == f(x)
  {
    forall y | y in Select(s, f)
      ensures exists x :: x in s && y == f(x)
    {
      var i :| 0 <= i < |s| && Select(s, f)[i] == y;
      assert s[i] in s;
    }
    forall y | exists x :: x in s && y == f(x)
      ensures y in Select(s, f)
    {
      var x :| x in s && y == f(x);
      var i :| 0 <= i < |s| && s[i] == x;
      assert Select(s, f)[i] == y;
    }
  }

  /** Mapping after filtering on the mapped value is filtering after mapping. */
  lemma {:induction false} SelectWhereKey<T, K>(s: seq<T>, key: T -> K, k: K)
    ensures Select(Where(s, KeyIsNot(key, k)), key) == Where(Select(s, key), NotEqualTo(k))
    decreases |s|
  {
    if |s| > 0 {
      var kept := if key(s[0]) != k then [s[0]] else [];
      SelectWhereKey(s[1..], key, k);
      WhereCons(s, KeyIsNot(key, k));
      assert Where(s, KeyIsNot(key, k)) == kept + Where(s[1..], KeyIsNot(key, k));
      SelectAppend(kept, Where(s[1..], KeyIsNot(key, k)), key);
      SelectCons(s, key);
      WhereCons(Select(s, key), NotEqualTo(k));
    }
  }

  /** One step of `Where`: the head survives exactly when it satisfies the predicate. */
  lemma WhereCons<T>(s: seq<T>, p: T -> bool)
    requires |s| > 0
    ensures Where(s, p) == (if p(s[0]) then [s[0]] else []) + Where(s[1..], p)
  {
  }

  lemma SelectCons<T, U>(s: seq<T>, f: T -> U)
    requires |s| > 0
    ensures |Select(s, f)| > 0 && Select(s, f)[0] == f(s[0]) && Select(s, f)[1..] == Select(s[1..], f)
  {
  }

  // ---------------------------------------------------------------------------
  // Distinct
  // ---------------------------------------------------------------------------

  /** The element predicate "differs from `y`". */
  function NotEqualTo<T(==)>(y: T): T -> bool {
    x => x != y
  }

  /** `Enumerable.Distinct`: the first occurrence of every element, in source order. */
  function Distinct<T(==)>(s: seq<T>): (r: seq<T>)
    ensures forall i :: 0 <= i < |r| ==> r[i] in s
    ensures forall i :: 0 <= i < |s| ==> s[i] in r
    ensures NoDuplicates(r)
    decreases |s|
  {
    if |s| == 0 then []
    else
      assert s == [s[0]] + s[1..];
      WhereMembers(s[1..], NotEqualTo(s[0]));
      [s[0]] + Distinct(Where(s[1..], NotEqualTo(s[0])))
  }

  /** `Distinct` keeps more than one element exactly when the source holds two different values. */
  lemma DistinctMoreThanOne<T>(s: seq<T>)
    ensures |Distinct(s)| > 1 <==> exists i, j :: 0 <= i < |s| && 0 <= j < |s| && s[i] != s[j]
  {
    var r := Distinct(s);
    if |r| > 1 {
      assert r[0] != r[1];
      assert r[0] in s && r[1] in s;
      var i :| 0 <= i < |s| && s[i] == r[0];
      var j :| 0 <= j < |s| && s[j] == r[1];
    }
    if exists i, j :: 0 <= i < |s| && 0 <= j < |s| && s[i] != s[j] {
      var i, j :| 0 <= i < |s| && 0 <= j < |s| && s[i] != s[j];
      assert s[i] in r && s[j] in r;
      var p :| 0 <= p < |r| && r[p] == s[i];
      var q :| 0 <= q < |r| && r[q] == s[j];
      assert p != q;
    }
  }

  /**
    An element-by-element description of `Distinct`: reading the source from
    the front, an element is kept exactly when it was not seen before.
   */
  ghost function FirstOccurrences<T>(s: seq<T>): seq<T> {
    Unseen(s, {})
  }

  /** The elements of `s` kept when the values in `seen` count as already seen. */
  ghost function Unseen<T>(s: seq<T>, seen: set<T>): seq<T>
    decreases |s|
  {
    if |s| == 0 then []
    else if s[0] in seen then Unseen(s[1..], seen)
    else [s[0]] + Unseen(s[1..], seen + {s[0]})
  }

  /** The element predicate "is not in `seen`". */
  function NotIn<T>(seen: set<T>): T -> bool {
    x => x !in seen
  }

  /** Filtering twice is filtering once by the conjunction. */
  lemma {:induction false} WhereWhere<T>(s: seq<T>, q: T -> bool, p: T -> bool, both: T -> bool)
    requires forall x :: both(x) == (q(x) && p(x))
    ensures Where(Where(s, q), p) == Where(s, both)
    decreases |s|
  {
    if |s| > 0 {
      WhereWhere(s[1..], q, p, both);
    }
  }

  /** `Distinct` of the not-yet-seen elements is what `Unseen` keeps. */
  lemma {:induction false} DistinctIsUnseen<T>(s: seq<T>, seen: set<T>)
    ensures Distinct(Where(s, NotIn(seen))) == Unseen(s, seen)
    decreases |s|
  {
    if |s| > 0 {
      var x, rest := s[0], s[1..];
      if x in seen {
        assert !NotIn(seen)(x);
        assert Where(s, NotIn(seen)) == Where(rest, NotIn(seen));
        DistinctIsUnseen(rest, seen);
      } else {
        assert NotIn(seen)(x);
        assert Where(s, NotIn(seen)) == [x] + Where(rest, NotIn(seen));
        var more := seen + {x};
        assert forall y :: NotIn(more)(y) == (NotIn(seen)(y) && NotEqualTo(x)(y));
        WhereWhere(rest, NotIn(seen), NotEqualTo(x), NotIn(more));
        DistinctIsUnseen(rest, more);
      }
    }
  }

  /** `Distinct` keeps exactly the first occurrence of each value, in source order. */
  lemma DistinctIsFirstOccurrences<T>(s: seq<T>)
    ensures Distinct(s) == FirstOccurrences(s)
  {
    WhereAll(s, NotIn({}));
    DistinctIsUnseen(s, {});
  }

  // ---------------------------------------------------------------------------
  // Join
  // ---------------------------------------------------------------------------

  /** The inner elements whose key equals `o`'s key, each combined with `o`, in inner order. */
  function Matches<O, I, R>(o: O, inner: seq<I>, okey: O -> int, ikey: I -> int, sel: (O, I) -> R): seq<R>
    decreases |inner|
  {
    if |inner| == 0 then []
    else
      (if okey(o) == ikey(inner[0]) then [sel(o, inner[0])] else [])
      + Matches(o, inner[1..], okey, ikey, sel)
  }

  /**
    `Enumerable.Join` (an inner equi-join): for each outer element in order, its
    matching inner elements in order.
   */
  function Join<O, I, R>(outer: seq<O>, inner: seq<I>, okey: O -> int, ikey: I -> int, sel: (O, I) -> R): seq<R>
    decreases |outer|
  {
    if |outer| == 0 then []
    else Matches(outer[0], inner, okey, ikey, sel) + Join(outer[1..], inner, okey, ikey, sel)
  }

  /** One step of `Matches`: the first inner element's row, if its key matches, then the rest's. */
  lemma MatchesCons<O, I, R>(o: O, inner: seq<I>, okey: O -> int, ikey: I -> int, sel: (O, I) -> R)
    requires |inner| > 0
    ensures Matches(o, inner, okey, ikey, sel)
      == (if okey(o) == ikey(inner[0]) then [sel(o, inner[0])] else []) + Matches(o, inner[1..], okey, ikey, sel)
  {
  }

  /** One step of `Join`: the first outer element's matches, then the rest's. */
  lemma JoinCons<O, I, R>(outer: seq<O>, inner: seq<I>, okey: O -> int, ikey: I -> int, sel: (O, I) -> R)
    requires |outer| > 0
    ensures Join(outer, inner, okey, ikey, sel) == Matches(outer[0], inner, okey, ikey, sel) + Join(outer[1..], inner, okey, ikey, sel)
  {
  }

  lemma {:induction false} MatchesMembership<O, I, R>(o: O, inner: seq<I>, okey: O -> int, ikey: I -> int, sel: (O, I) -> R)
    ensures forall x :: x in Matches(o, inner, okey, ikey, sel) <==>
      exists i :: i in inner && okey(o) == ikey(i) && x == sel(o, i)
    decreases |inner|
  {
    if |inner| > 0 {
      MatchesMembership(o, inner[1..], okey, ikey, sel);
      assert inner == [inner[0]] + inner[1..];
    }
  }

  /** A row is in the join exactly when some outer and inner element with equal keys produce it. */
  lemma {:induction false} JoinMembership<O, I, R>(outer: seq<O>, inner: seq<I>, okey: O -> int, ikey: I -> int, sel: (O, I) -> R)
    ensures forall x :: x in Join(outer, inner, okey, ikey, sel) <==>
      exists o, i :: o in outer && i in inner && okey(o) == ikey(i) && x == sel(o, i)
    decreases |outer|
  {
    if |outer| > 0 {
      JoinMembership(outer[1..], inner, okey, ikey, sel);
      MatchesMembership(outer[0], inner, okey, ikey, sel);
      assert outer == [outer[0]] + outer[1..];
    }
  }

  /** A matching pair of an outer and an inner element contributes its row to the join. */
  lemma {:induction false} JoinContains<O, I, R>(outer: seq<O>, inner: seq<I>, okey: O -> int, ikey: I -> int, sel: (O, I) -> R, o: O, i: I)
    requires o in outer && i in inner && okey(o) == ikey(i)
    ensures sel(o, i) in Join(outer, inner, okey, ikey, sel)
    decreases |outer|
  {
    if outer[0] == o {
      MatchesContains(o, inner, okey, ikey, sel, i);
    } else {
      JoinContains(outer[1..], inner, okey, ikey, sel, o, i);
    }
  }

  lemma {:induction false} MatchesContains<O, I, R>(o: O, inner: seq<I>, okey: O -> int, ikey: I -> int, sel: (O, I) -> R, i: I)
    requires i in inner && okey(o) == ikey(i)
    ensures sel(o, i) in Matches(o, inner, okey, ikey, sel)
    decreases |inner|
  {
    if inner[0] != i {
      MatchesContains(o, inner[1..], okey, ikey, sel, i);
    }
  }

  lemma {:induction false} JoinAppend<O, I, R>(a: seq<O>, b: seq<O>, inner: seq<I>, okey: O -> int, ikey: I -> int, sel: (O, I) -> R)
    ensures Join(a + b, inner, okey, ikey, sel) == Join(a, inner, okey, ikey, sel) + Join(b, inner, okey, ikey, sel)
    decreases |a|
  {
    if |a| == 0 {
      assert a + b == b;
    } else {
      assert (a + b)[1..] == a[1..] + b;
      JoinAppend(a[1..], b, inner, okey, ikey, sel);
    }
  }

  /** An outer element with exactly one inner partner yields exactly one row. */
  lemma {:induction false} MatchesUnique<O, I, R>(o: O, inner: seq<I>, okey: O -> int, ikey: I -> int, sel: (O, I) -> R, j: nat)
    requires j < |inner| && ikey(inner[j]) == okey(o)
    requires forall j' :: 0 <= j' < |inner| && j' != j ==> ikey(inner[j']) != okey(o)
    ensures Matches(o, inner, okey, ikey, sel) == [sel(o, inner[j])]
    decreases |inner|
  {
    if j == 0 {
      MatchesNone(o, inner[1..], okey, ikey, sel);
    } else {
      MatchesUnique(o, inner[1..], okey, ikey, sel, j - 1);
    }
  }

  /** An outer element with no inner partner yields no row. */
  lemma {:induction false} MatchesNone<O, I, R>(o: O, inner: seq<I>, okey: O -> int, ikey: I -> int, sel: (O, I) -> R)
    requires forall j :: 0 <= j < |inner| ==> ikey(inner[j]) != okey(o)
    ensures Matches(o, inner, okey, ikey, sel) == []
    decreases |inner|
  {
    if |inner| > 0 {
      MatchesNone(o, inner[1..], okey, ikey, sel);
    }
  }

  /** Each outer element yields one row per inner element with its key. */
  lemma {:induction false} MatchesLength<O, I, R>(o: O, inner: seq<I>, okey: O -> int, ikey: I -> int, sel: (O, I) -> R)
    ensures |Matches(o, inner, okey, ikey, sel)| == Count(inner, KeyIs(ikey, okey(o)))
    decreases |inner|
  {
    if |inner| > 0 {
      MatchesLength(o, inner[1..], okey, ikey, sel);
    }
  }

  /** One for the elements that satisfy `p`, zero for the rest. */
  function Indicator<T>(p: T -> bool): T -> int {
    x => if p(x) then 1 else 0
  }

  /** For an inner element, how many outer elements share its key. */
  function OuterMatches<O, I>(outer: seq<O>, okey: O -> int, ikey: I -> int): I -> int {
    i => Count(outer, KeyIs(okey, ikey(i)))
  }

  /** Summing an indicator counts the elements it picks out. */
  lemma {:induction false} SumIndicator<T>(s: seq<T>, p: T -> bool)
    ensures Sum(s, Indicator(p)) == Count(s, p)
    decreases |s|
  {
    if |s| > 0 {
      SumIndicator(s[1..], p);
      CountCons(s, p);
    }
  }

  /** Sums of selectors that agree on every element are equal, and a pointwise sum of selectors sums apart. */
  lemma {:induction false} SumPointwise<T>(s: seq<T>, f: T -> int, g: T -> int, h: T -> int)
    requires forall i :: 0 <= i < |s| ==> h(s[i]) == f(s[i]) + g(s[i])
    ensures Sum(s, h) == Sum(s, f) + Sum(s, g)
    decreases |s|
  {
    if |s| > 0 {
      SumPointwise(s[1..], f, g, h);
    }
  }

  /** Selectors that agree on every element have the same sum. */
  lemma {:induction false} SumSame<T>(s: seq<T>, f: T -> int, g: T -> int)
    requires forall i :: 0 <= i < |s| ==> f(s[i]) == g(s[i])
    ensures Sum(s, f) == Sum(s, g)
    decreases |s|
  {
    if |s| > 0 {
      SumSame(s[1..], f, g);
    }
  }

  /**
    Counting the rows of a join from the inner side: every inner element
    yields one row per outer element with its key.
   */
  lemma {:induction false} JoinLengthByInner<O, I, R>(outer: seq<O>, inner: seq<I>, okey: O -> int, ikey: I -> int, sel: (O, I) -> R)
    ensures |Join(outer, inner, okey, ikey, sel)| == Sum(inner, OuterMatches(outer, okey, ikey))
    decreases |outer|
  {
    var total := OuterMatches(outer, okey, ikey);
    if |outer| == 0 {
      SumPointwise(inner, total, total, total);
    } else {
      var o := outer[0];
      var rest := OuterMatches(outer[1..], okey, ikey);
      var here := Indicator(KeyIs(ikey, okey(o)));
      JoinCons(outer, inner, okey, ikey, sel);
      MatchesLength(o, inner, okey, ikey, sel);
      JoinLengthByInner(outer[1..], inner, okey, ikey, sel);
      SumIndicator(inner, KeyIs(ikey, okey(o)));
      forall i | 0 <= i < |inner|
        ensures total(inner[i]) == here(inner[i]) + rest(inner[i])
      {
        CountCons(outer, KeyIs(okey, ikey(inner[i])));
      }
      SumPointwise(inner, here, rest, total);
    }
  }

  /** Filters that agree on every element count the same. */
  lemma {:induction false} CountSame<T>(s: seq<T>, p: T -> bool, q: T -> bool)
    requires forall i :: 0 <= i < |s| ==> p(s[i]) == q(s[i])
    ensures Count(s, p) == Count(s, q)
    decreases |s|
  {
    if |s| > 0 {
      CountSame(s[1..], p, q);
      CountCons(s, p);
      CountCons(s, q);
    }
  }

  /** The inner elements that the outer element `o` joins with into the row `v`. */
  function PairsWith<O, I, R(==)>(o: O, okey: O -> int, ikey: I -> int, sel: (O, I) -> R, v: R): I -> bool {
    i => okey(o) == ikey(i) && sel(o, i) == v
  }

  /** The outer elements that the inner element `i` joins with into the row `v`. */
  function PairsInto<O, I, R(==)>(i: I, okey: O -> int, ikey: I -> int, sel: (O, I) -> R, v: R): O -> bool {
    o => okey(o) == ikey(i) && sel(o, i) == v
  }

  /** For an inner element, how many rows `v` it forms with the outer elements. */
  function RowsWith<O, I, R(==)>(outer: seq<O>, okey: O -> int, ikey: I -> int, sel: (O, I) -> R, v: R): I -> int {
    i => Count(outer, PairsInto(i, okey, ikey, sel, v))
  }

  /** An outer element yields the row `v` once per inner element it pairs with into `v`. */
  lemma {:induction false} MatchesMultiplicity<O, I, R>(o: O, inner: seq<I>, okey: O -> int, ikey: I -> int, sel: (O, I) -> R, v: R)
    ensures multiset(Matches(o, inner, okey, ikey, sel))[v] == Count(inner, PairsWith(o, okey, ikey, sel, v))
    decreases |inner|
  {
    if |inner| > 0 {
      MatchesCons(o, inner, okey, ikey, sel);
      MatchesMultiplicity(o, inner[1..], okey, ikey, sel, v);
      CountCons(inner, PairsWith(o, okey, ikey, sel, v));
    }
  }

  /**
    How often a join holds the row `v`, counted from the inner side: once for
    every pair of an inner and an outer element with equal keys that selects `v`.
   */
  lemma {:induction false} JoinMultiplicityByInner<O, I, R>(outer: seq<O>, inner: seq<I>, okey: O -> int, ikey: I -> int, sel: (O, I) -> R, v: R)
    ensures multiset(Join(outer, inner, okey, ikey, sel))[v] == Sum(inner, RowsWith(outer, okey, ikey, sel, v))
    decreases |outer|
  {
    var total := RowsWith(outer, okey, ikey, sel, v);
    if |outer| == 0 {
      SumPointwise(inner, total, total, total);
    } else {
      var o := outer[0];
      var rest := RowsWith(outer[1..], okey, ikey, sel, v);
      var here := Indicator(PairsWith(o, okey, ikey, sel, v));
      JoinCons(outer, inner, okey, ikey, sel);
      MatchesMultiplicity(o, inner, okey, ikey, sel, v);
      JoinMultiplicityByInner(outer[1..], inner, okey, ikey, sel, v);
      SumIndicator(inner, PairsWith(o, okey, ikey, sel, v));
      forall i | 0 <= i < |inner|
        ensures total(inner[i]) == here(inner[i]) + rest(inner[i])
      {
        CountCons(outer, PairsInto(inner[i], okey, ikey, sel, v));
      }
      SumPointwise(inner, here, rest, total);
    }
  }

  /** A value occurs in a projection once per source element that maps to it. */
  lemma {:induction false} SelectMultiplicity<T, U>(s: seq<T>, f: T -> U, y: U)
    ensures multiset(Select(s, f))[y] == Count(s, KeyIs(f, y))
    decreases |s|
  {
    if |s| > 0 {
      var r := Select(s, f);
      SelectCons(s, f);
      SelectMultiplicity(s[1..], f, y);
      CountCons(s, KeyIs(f, y));
      assert r == [r[0]] + r[1..];
      assert multiset(r) == multiset{f(s[0])} + multiset(Select(s[1..], f));
    }
  }

  /** Counting projected values is counting the source elements whose image qualifies. */
  lemma {:induction false} CountSelect<T, U>(s: seq<T>, f: T -> U, p: U -> bool, q: T -> bool)
    requires forall i :: 0 <= i < |s| ==> q(s[i]) == p(f(s[i]))
    ensures Count(Select(s, f), p) == Count(s, q)
    decreases |s|
  {
    if |s| > 0 {
      SelectCons(s, f);
      CountSelect(s[1..], f, p, q);
      CountCons(Select(s, f), p);
      CountCons(s, q);
    }
  }

  /** Without duplicates, counting the elements that satisfy `p` is the size of the set of them. */
  lemma {:induction false} CountAsSet<T>(s: seq<T>, p: T -> bool)
    requires NoDuplicates(s)
    ensures Count(s, p) == |set x | x in s && p(x)|
    decreases |s|
  {
    if |s| > 0 {
      var h, t := s[0], s[1..];
      assert NoDuplicates(t);
      CountAsSet(t, p);
      CountCons(s, p);
      var rest := set x | x in t && p(x);
      assert h !in rest;
      if p(h) {
        assert (set x | x in s && p(x)) == {h} + rest;
      } else {
        assert (set x | x in s && p(x)) == rest;
      }
    }
  }

  /** Duplicate-free sequences whose qualifying elements are the same values count the same. */
  lemma CountSameMembers<T>(s: seq<T>, p: T -> bool, t: seq<T>, q: T -> bool)
    requires NoDuplicates(s) && NoDuplicates(t)
    requires forall x :: (x in s && p(x)) == (x in t && q(x))
    ensures Count(s, p) == Count(t, q)
  {
    CountAsSet(s, p);
    CountAsSet(t, q);
    assert (set x | x in s && p(x)) == (set x | x in t && q(x));
  }
}
