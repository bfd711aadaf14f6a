/**
  `Enumerable.GroupBy(key)`: one group per distinct key, groups in the order in
  which their keys first occur, each group's elements in source order.
 */
module LinqGrouping {
  import opened Linq

  datatype Grouping<K, T> = Grouping(key: K, elements: seq<T>)

  function KeyOf<K, T>(g: Grouping<K, T>): K {
    g.key
  }

  function Size<K, T>(g: Grouping<K, T>): int {
    |g.elements|
  }

  /**
    The group of the first element's key, then the groups of what remains once
    every element with that key is taken out.
   */
  function GroupBy<T, K(==)>(s: seq<T>, key: T -> K): seq<Grouping<K, T>>
    decreases |s|
  {
    if |s| == 0 then []
    else
      var k := key(s[0]);
      [Grouping(k, Where(s, KeyIs(key, k)))] + GroupBy(Where(s[1..], KeyIsNot(key, k)), key)
  }

  /** The group keys are the distinct keys of the source, in order of first occurrence. */
  lemma {:induction false} GroupByKeys<T, K>(s: seq<T>, key: T -> K)
    ensures Select(GroupBy(s, key), KeyOf) == Distinct(Select(s, key))
    decreases |s|
  {
    if |s| > 0 {
      var k := key(s[0]);
      var rest := Where(s[1..], KeyIsNot(key, k));
      var head := Grouping(k, Where(s, KeyIs(key, k)));
      var t := Select(s, key);
      GroupByKeys(rest, key);
      assert GroupBy(s, key) == [head] + GroupBy(rest, key);
      SelectAppend([head], GroupBy(rest, key), KeyOf);
      assert Select([head], KeyOf) == [k];
      SelectWhereKey(s[1..], key, k);
      assert t[0] == k;
      assert t[1..] == Select(s[1..], key);
      assert Distinct(t) == [k] + Distinct(Where(t[1..], NotEqualTo(k)));
    }
  }

  /** Every group holds exactly the source elements with its key, and at least one. */
  lemma {:induction false} GroupByElements<T, K>(s: seq<T>, key: T -> K)
    ensures forall i :: 0 <= i < |GroupBy(s, key)| ==>
      GroupBy(s, key)[i].elements == Where(s, KeyIs(key, GroupBy(s, key)[i].key))
      && |GroupBy(s, key)[i].elements| > 0
    decreases |s|
  {
    if |s| > 0 {
      var k := key(s[0]);
      var rest := Where(s[1..], KeyIsNot(key, k));
      var gs := GroupBy(s, key);
      GroupByElements(rest, key);
      assert s[0] in Where(s, KeyIs(key, k));
      forall i | 0 < i < |gs|
        ensures gs[i].elements == Where(s, KeyIs(key, gs[i].key)) && |gs[i].elements| > 0
      {
        var g := GroupBy(rest, key)[i - 1];
        assert gs[i] == g;
        LaterGroupElements(s, key, g);
      }
    }
  }

  /** A group formed after the first element's key is taken out still holds all source elements with its key. */
  lemma LaterGroupElements<T, K>(s: seq<T>, key: T -> K, g: Grouping<K, T>)
    requires |s| > 0
    requires g.elements == Where(Where(s[1..], KeyIsNot(key, key(s[0]))), KeyIs(key, g.key)) && |g.elements| > 0
    ensures g.elements == Where(s, KeyIs(key, g.key))
  {
    var k := key(s[0]);
    var x := g.elements[0];
    WhereFrom(Where(s[1..], KeyIsNot(key, k)), KeyIs(key, g.key), x);
    WhereFrom(s[1..], KeyIsNot(key, k), x);
    assert KeyIs(key, g.key)(x) && KeyIsNot(key, k)(x);
    OtherKeyGroup(s[1..], key, k, g.key);
    OtherKeyHead(s, key, g.key);
  }

  /** Taking out the elements with one key leaves the group of any other key as it was. */
  lemma OtherKeyGroup<T, K>(s: seq<T>, key: T -> K, k: K, other: K)
    requires other != k
    ensures Where(Where(s, KeyIsNot(key, k)), KeyIs(key, other)) == Where(s, KeyIs(key, other))
  {
    forall y
      ensures KeyIs(key, other)(y) ==> KeyIsNot(key, k)(y)
    {
    }
    WhereOfWhere(s, KeyIsNot(key, k), KeyIs(key, other));
  }

  /** An element whose key differs from the group's is not part of it. */
  lemma OtherKeyHead<T, K>(s: seq<T>, key: T -> K, other: K)
    requires |s| > 0 && key(s[0]) != other
    ensures Where(s, KeyIs(key, other)) == Where(s[1..], KeyIs(key, other))
  {
    assert !KeyIs(key, other)(s[0]);
  }

  lemma {:induction false} WhereSplits<T, K>(s: seq<T>, key: T -> K, k: K)
    ensures |Where(s, KeyIs(key, k))| + |Where(s, KeyIsNot(key, k))| == |s|
    decreases |s|
  {
    if |s| > 0 {
      WhereSplits(s[1..], key, k);
    }
  }

  /** The groups partition the source: their sizes add up to its length. */
  lemma {:induction false} GroupByPartitions<T, K>(s: seq<T>, key: T -> K)
    ensures Sum(GroupBy(s, key), Size) == |s|
    decreases |s|
  {
    if |s| > 0 {
      var k := key(s[0]);
      var rest := Where(s[1..], KeyIsNot(key, k));
      GroupByPartitions(rest, key);
      var head := Grouping(k, Where(s, KeyIs(key, k)));
      SumAppend([head], GroupBy(rest, key), Size);
      WhereSplits(s[1..], key, k);
      assert |Where(s, KeyIs(key, k))| == 1 + |Where(s[1..], KeyIs(key, k))|;
    }
  }

  /** A key has a group exactly when some source element has it, and no key has two groups. */
  lemma GroupByKeyMembership<T, K>(s: seq<T>, key: T -> K)
    ensures forall k :: k in Select(GroupBy(s, key), KeyOf) <==> k in Select(s, key)
    ensures NoDuplicates(Select(GroupBy(s, key), KeyOf))
  {
    GroupByKeys(s, key);
    var d := Distinct(Select(s, key));
    forall k
      ensures k in d <==> k in Select(s, key)
    {
      if k in d {
        var i :| 0 <= i < |d| && d[i] == k;
      }
      if k in Select(s, key) {
        var j :| 0 <= j < |Select(s, key)| && Select(s, key)[j] == k;
      }
    }
  }

  /**
    A grouping is produced exactly when its key occurs in the source and its
    elements are all the source elements with that key.
   */
  lemma GroupByMembership<T, K>(s: seq<T>, key: T -> K)
    ensures forall g: Grouping<K, T> :: g in GroupBy(s, key) <==>
      g.key in Select(s, key) && g.elements == Where(s, KeyIs(key, g.key))
  {
    var gs := GroupBy(s, key);
    GroupByElements(s, key);
    GroupByKeyMembership(s, key);
    forall g | g in gs
      ensures g.key in Select(s, key) && g.elements == Where(s, KeyIs(key, g.key))
    {
      var i :| 0 <= i < |gs| && gs[i] == g;
      assert Select(gs, KeyOf)[i] == g.key;
    }
    forall g: Grouping<K, T> | g.key in Select(s, key) && g.elements == Where(s, KeyIs(key, g.key))
      ensures g in gs
    {
      var i :| 0 <= i < |Select(gs, KeyOf)| && Select(gs, KeyOf)[i] == g.key;
      assert gs[i] == g;
    }
  }

  /** Every key of the source has its group, holding all the elements with that key. */
  lemma GroupOfKey<T, K>(s: seq<T>, key: T -> K, k: K)
    requires k in Select(s, key)
    ensures Grouping(k, Where(s, KeyIs(key, k))) in GroupBy(s, key)
  {
    GroupByMembership(s, key);
  }
}
