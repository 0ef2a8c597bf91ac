/** A stable sort by an integer key: the model of `Array.prototype.sort` with the
    comparator `(a, b) => key(a) - key(b)`, which the language requires to be stable. */
module Sorting {
  import opened Seqs

  predicate SortedBy<T>(s: seq<T>, key: T -> int)
  {
    forall i, j :: 0 <= i < j < |s| ==> key(s[i]) <= key(s[j])
  }

  /** Does `x` have key `k`? */
  function KeyIs<T>(key: T -> int, k: int): (r: T -> bool)
  {
    x => key(x) == k
  }

  /** Places `x` in front of the first element whose key is not smaller. */
  function Insert<T>(x: T, s: seq<T>, key: T -> int): (r: seq<T>)
    ensures |r| == |s| + 1
  {
    if s == [] then [x]
    else if key(x) <= key(s[0]) then [x] + s
    else [s[0]] + Insert(x, s[1..], key)
  }

  /** Insertion sort; each element is inserted before the equal keys of the
      later elements, which keeps equal keys in their original order. */
  function SortBy<T>(s: seq<T>, key: T -> int): (r: seq<T>)
    ensures |r| == |s|
  {
    if s == [] then [] else Insert(s[0], SortBy(s[1..], key), key)
  }

  lemma {:induction false} InsertMultiset<T>(x: T, s: seq<T>, key: T -> int)
    ensures multiset(Insert(x, s, key)) == multiset(s) + multiset{x}
  {
    if s == [] {
      assert Insert(x, s, key) == [x];
    } else if key(x) <= key(s[0]) {
      assert Insert(x, s, key) == [x] + s;
    } else {
      InsertMultiset(x, s[1..], key);
      var t := Insert(x, s[1..], key);
      assert Insert(x, s, key) == [s[0]] + t;
      assert s == [s[0]] + s[1..];
      assert multiset([s[0]] + t) == multiset{s[0]} + multiset(t);
      assert multiset(s) == multiset{s[0]} + multiset(s[1..]);
    }
  }

  lemma {:induction false} InsertSorted<T>(x: T, s: seq<T>, key: T -> int)
    requires SortedBy(s, key)
    ensures SortedBy(Insert(x, s, key), key)
  {
    if s == [] {
      assert Insert(x, s, key) == [x];
    } else if key(x) <= key(s[0]) {
      assert Insert(x, s, key) == [x] + s;
    } else {
      InsertSorted(x, s[1..], key);
      InsertMultiset(x, s[1..], key);
      var t := Insert(x, s[1..], key);
      assert Insert(x, s, key) == [s[0]] + t;
      forall j | 0 <= j < |t|
        ensures key(s[0]) <= key(t[j])
      {
        var y := t[j];
        assert y in multiset(t);
        assert y == x || y in multiset(s[1..]);
        if y != x {
          var k :| 0 <= k < |s[1..]| && s[1..][k] == y;
          assert s[k + 1] == y;
        }
      }
    }
  }

  /** The sort orders by key. */
  lemma {:induction false} SortBySorted<T>(s: seq<T>, key: T -> int)
    ensures SortedBy(SortBy(s, key), key)
  {
    if s != [] {
      SortBySorted(s[1..], key);
      InsertSorted(s[0], SortBy(s[1..], key), key);
    }
  }

  /** The sort is a permutation. */
  lemma {:induction false} SortByPermutation<T>(s: seq<T>, key: T -> int)
    ensures multiset(SortBy(s, key)) == multiset(s)
  {
    if s != [] {
      SortByPermutation(s[1..], key);
      InsertMultiset(s[0], SortBy(s[1..], key), key);
      assert s == [s[0]] + s[1..];
    }
  }

  /** Inserting an element that a filter drops does not change the filtered result. */
  lemma {:induction false} FilterInsertDropped<T(!new)>(x: T, s: seq<T>, key: T -> int, p: T -> bool)
    requires !p(x)
    ensures Filter(Insert(x, s, key), p) == Filter(s, p)
  {
    if s == [] {
    } else if key(x) <= key(s[0]) {
      assert ([x] + s)[1..] == s;
    } else {
      FilterInsertDropped(x, s[1..], key, p);
      assert ([s[0]] + Insert(x, s[1..], key))[1..] == Insert(x, s[1..], key);
    }
  }

  /** A filter of a sorted sequence starts with no key smaller than the sequence's first. */
  lemma FilterHeadNotSmaller<T(!new)>(s: seq<T>, key: T -> int, p: T -> bool)
    requires s != [] && SortedBy(s, key)
    ensures Filter(s, p) != [] ==> key(s[0]) <= key(Filter(s, p)[0])
  {
    var f := Filter(s, p);
    if f != [] {
      FilterMembers(s, p);
      assert f[0] in s;
      var k :| 0 <= k < |s| && s[k] == f[0];
      assert key(s[0]) <= key(s[k]);
    }
  }

  /** Inserting an element that a filter keeps commutes with the filter, on sorted input. */
  lemma {:induction false} FilterInsertKept<T(!new)>(x: T, s: seq<T>, key: T -> int, p: T -> bool)
    requires p(x) && SortedBy(s, key)
    ensures Filter(Insert(x, s, key), p) == Insert(x, Filter(s, p), key)
  {
    if s == [] {
      FilterCons(x, [], p);
    } else if key(x) <= key(s[0]) {
      FilterCons(x, s, p);
      FilterHeadNotSmaller(s, key, p);
    } else {
      var t := Insert(x, s[1..], key);
      assert Insert(x, s, key) == [s[0]] + t;
      assert SortedBy(s[1..], key);
      FilterInsertKept(x, s[1..], key, p);
      FilterCons(s[0], t, p);
      FilterCons(s[0], s[1..], p);
      assert s == [s[0]] + s[1..];
      if p(s[0]) {
        var f := [s[0]] + Filter(s[1..], p);
        assert Filter(s, p) == f;
        assert f[0] == s[0] && f[1..] == Filter(s[1..], p);
        assert Insert(x, f, key) == [s[0]] + Insert(x, Filter(s[1..], p), key);
      } else {
        assert Filter(s, p) == Filter(s[1..], p);
      }
    }
  }

  /** Stability, first form: sorting commutes with every filter. */
  lemma {:induction false} SortByFilter<T(!new)>(s: seq<T>, key: T -> int, p: T -> bool)
    ensures Filter(SortBy(s, key), p) == SortBy(Filter(s, p), key)
  {
    if s != [] {
      var t := SortBy(s[1..], key);
      assert SortBy(s, key) == Insert(s[0], t, key);
      SortByFilter(s[1..], key, p);
      SortBySorted(s[1..], key);
      FilterCons(s[0], s[1..], p);
      assert s == [s[0]] + s[1..];
      if p(s[0]) {
        FilterInsertKept(s[0], t, key, p);
        var f := [s[0]] + Filter(s[1..], p);
        assert f[0] == s[0] && f[1..] == Filter(s[1..], p);
      } else {
        FilterInsertDropped(s[0], t, key, p);
        assert Filter(s, p) == Filter(s[1..], p);
      }
    }
  }

  /** Sorting a sequence whose keys are all equal changes nothing. */
  lemma {:induction false} SortByConstantKey<T>(s: seq<T>, key: T -> int, k: int)
    requires forall i :: 0 <= i < |s| ==> key(s[i]) == k
    ensures SortBy(s, key) == s
  {
    if s != [] {
      SortByConstantKey(s[1..], key, k);
      assert s == [s[0]] + s[1..];
    }
  }

  /** Stability, second form: the elements with any one key keep their relative order. */
  lemma SortByStable<T(!new)>(s: seq<T>, key: T -> int, k: int)
    ensures Filter(SortBy(s, key), KeyIs(key, k)) == Filter(s, KeyIs(key, k))
  {
    var f := Filter(s, KeyIs(key, k));
    SortByFilter(s, key, KeyIs(key, k));
    SortByConstantKey(f, key, k);
  }
}
