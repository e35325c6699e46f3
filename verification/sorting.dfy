/** A stable sort by a key, as Python's `sorted(xs, key=f)` performs it: the result is
    ordered by the key, and elements with equal keys keep their original order. */
module Sorting {
  import opened Values

  /** `s` is non-decreasing in `key`: every element's key is at most every later one's. */
  ghost predicate SortedBy<T>(s: seq<T>, key: T -> Value)
  {
    forall i, j | 0 <= i < j < |s| :: ValueLe(key(s[i]), key(s[j]))
  }

  /** The elements of `s` whose key is `v`, in their order in `s`. */
  function WithKey<T>(s: seq<T>, key: T -> Value, v: Value): seq<T>
  {
    if |s| == 0 then []
    else (if key(s[0]) == v then [s[0]] else []) + WithKey(s[1..], key, v)
  }

  /** Insertion into a sorted sequence, after every element with a smaller key and
      before every element whose key is greater or equal. */
  function Insert<T>(x: T, t: seq<T>, key: T -> Value): (r: seq<T>)
    ensures multiset(r) == multiset(t) + multiset{x}
  {
    if |t| == 0 then [x]
    else if ValueLe(key(x), key(t[0])) then [x] + t
    else
      assert t == [t[0]] + t[1..];
      [t[0]] + Insert(x, t[1..], key)
  }

  lemma {:induction false} InsertSorted<T>(x: T, t: seq<T>, key: T -> Value)
    requires SortedBy(t, key)
    ensures SortedBy(Insert(x, t, key), key)
  {
    if |t| == 0 {
    } else if ValueLe(key(x), key(t[0])) {
      forall j | 0 < j < |t|
        ensures ValueLe(key(x), key(t[j]))
      {
        ValueLeTransitive(key(x), key(t[0]), key(t[j]));
      }
    } else {
      var rest := Insert(x, t[1..], key);
      SortedTail(t, key);
      InsertSorted(x, t[1..], key);
      ValueLeTotal(key(x), key(t[0]));
      forall y | y in rest
        ensures ValueLe(key(t[0]), key(y))
      {
        assert y in multiset(rest);
        if y != x {
          assert y in t[1..];
          var k :| 0 <= k < |t[1..]| && t[1..][k] == y;
          assert t[k + 1] == y;
        }
      }
      ConsSorted(t[0], rest, key);
    }
  }

  /** An element whose key is at most every key of a sorted sequence can go in front. */
  lemma ConsSorted<T>(h: T, s: seq<T>, key: T -> Value)
    requires SortedBy(s, key)
    requires forall y | y in s :: ValueLe(key(h), key(y))
    ensures SortedBy([h] + s, key)
  {
    var r := [h] + s;
    forall i, j | 0 <= i < j < |r|
      ensures ValueLe(key(r[i]), key(r[j]))
    {
      assert r[j] == s[j - 1];
      if i > 0 {
        assert r[i] == s[i - 1];
      }
    }
  }

  lemma {:induction false} InsertWithKey<T>(x: T, t: seq<T>, key: T -> Value, v: Value)
    ensures WithKey(Insert(x, t, key), key, v)
         == (if key(x) == v then [x] else []) + WithKey(t, key, v)
  {
    if |t| == 0 {
    } else if ValueLe(key(x), key(t[0])) {
      assert ([x] + t)[1..] == t;
    } else {
      InsertWithKey(x, t[1..], key, v);
      InsertPastHead(x, t, key, v);
    }
  }

  /** The step of `InsertWithKey` where `x` goes after the first element of `t`, whose
      key is smaller than `x`'s and so differs from it. */
  lemma InsertPastHead<T>(x: T, t: seq<T>, key: T -> Value, v: Value)
    requires |t| > 0 && !ValueLe(key(x), key(t[0]))
    requires WithKey(Insert(x, t[1..], key), key, v)
          == (if key(x) == v then [x] else []) + WithKey(t[1..], key, v)
    ensures WithKey(Insert(x, t, key), key, v)
         == (if key(x) == v then [x] else []) + WithKey(t, key, v)
  {
    ValueLeTotal(key(x), key(x));
    assert t == [t[0]] + t[1..];
    WithKeyPastHead(t[0], x, Insert(x, t[1..], key), t[1..], key, v);
  }

  /** Putting an element whose key differs from `x`'s in front of both sides keeps the
      relation between a group with `x` inserted and the group without it. */
  lemma WithKeyPastHead<T>(h: T, x: T, rest: seq<T>, tl: seq<T>, key: T -> Value, v: Value)
    requires key(h) != key(x)
    requires WithKey(rest, key, v) == (if key(x) == v then [x] else []) + WithKey(tl, key, v)
    ensures WithKey([h] + rest, key, v) == (if key(x) == v then [x] else []) + WithKey([h] + tl, key, v)
  {
    WithKeyCons(h, rest, key, v);
    WithKeyCons(h, tl, key, v);
  }

  lemma WithKeyCons<T>(h: T, r: seq<T>, key: T -> Value, v: Value)
    ensures WithKey([h] + r, key, v) == (if key(h) == v then [h] else []) + WithKey(r, key, v)
  {
    assert ([h] + r)[1..] == r;
  }

  lemma InsertWithKeyAll<T>(x: T, t: seq<T>, key: T -> Value)
    ensures forall v :: WithKey(Insert(x, t, key), key, v)
                     == (if key(x) == v then [x] else []) + WithKey(t, key, v)
  {
    forall v
      ensures WithKey(Insert(x, t, key), key, v)
           == (if key(x) == v then [x] else []) + WithKey(t, key, v)
    {
      InsertWithKey(x, t, key, v);
    }
  }

  /** Python's `sorted(s, key=key)`: an ordered permutation of `s` in which elements with
      equal keys appear in the order they had in `s`. */
  function StableSort<T>(s: seq<T>, key: T -> Value): (r: seq<T>)
    ensures multiset(r) == multiset(s)
    ensures SortedBy(r, key)
    ensures forall v :: WithKey(r, key, v) == WithKey(s, key, v)
  {
    if |s| == 0 then []
    else
      var t := StableSort(s[1..], key);
      InsertSorted(s[0], t, key);
      InsertWithKeyAll(s[0], t, key);
      assert s == [s[0]] + s[1..];
      Insert(s[0], t, key)
  }

  lemma {:induction false} WithKeyFound<T>(s: seq<T>, key: T -> Value, v: Value)
    requires WithKey(s, key, v) != []
    ensures exists j :: 0 <= j < |s| && key(s[j]) == v
  {
    if key(s[0]) != v {
      WithKeyFound(s[1..], key, v);
      var j :| 0 <= j < |s[1..]| && key(s[1..][j]) == v;
      assert key(s[j + 1]) == v;
    }
  }

  lemma HeadKeyHasGroup<T>(s: seq<T>, key: T -> Value)
    requires |s| > 0
    ensures WithKey(s, key, key(s[0])) != []
  {
  }

  /** In a sequence sorted by `key`, the key of the first element is at most any key
      that occurs in it. */
  lemma HeadIsLeast<T>(s: seq<T>, key: T -> Value, v: Value)
    requires SortedBy(s, key) && |s| > 0
    requires WithKey(s, key, v) != []
    ensures ValueLe(key(s[0]), v)
  {
    WithKeyFound(s, key, v);
    var j :| 0 <= j < |s| && key(s[j]) == v;
  }

  lemma SortedTail<T>(s: seq<T>, key: T -> Value)
    requires SortedBy(s, key) && |s| > 0
    ensures SortedBy(s[1..], key)
  {
    forall i, j | 0 <= i < j < |s[1..]|
      ensures ValueLe(key(s[1..][i]), key(s[1..][j]))
    {
      assert s[1..][i] == s[i + 1] && s[1..][j] == s[j + 1];
    }
  }

  /** Two sorted sequences with the same groups of equal keys start with the same
      element. */
  lemma SortedGroupsSameHead<T>(a: seq<T>, b: seq<T>, key: T -> Value)
    requires SortedBy(a, key) && SortedBy(b, key) && |a| > 0 && |b| > 0
    requires forall v :: WithKey(a, key, v) == WithKey(b, key, v)
    ensures a[0] == b[0]
  {
    var va, vb := key(a[0]), key(b[0]);
    HeadKeyHasGroup(a, key);
    HeadKeyHasGroup(b, key);
    assert WithKey(b, key, va) != [] && WithKey(a, key, vb) != [];
    HeadIsLeast(b, key, va);
    HeadIsLeast(a, key, vb);
    ValueLeAntisymmetric(va, vb);
    var ga, gb := WithKey(a, key, va), WithKey(b, key, va);
    assert ga == [a[0]] + WithKey(a[1..], key, va);
    assert gb == [b[0]] + WithKey(b[1..], key, va);
    assert ga[0] == a[0] && gb[0] == b[0];
  }

  /** Removing a common first element keeps a group of equal keys equal. */
  lemma GroupOfTails<T>(a: seq<T>, b: seq<T>, key: T -> Value, v: Value)
    requires |a| > 0 && |b| > 0 && a[0] == b[0]
    requires WithKey(a, key, v) == WithKey(b, key, v)
    ensures WithKey(a[1..], key, v) == WithKey(b[1..], key, v)
  {
    var ta, tb := WithKey(a[1..], key, v), WithKey(b[1..], key, v);
    if key(a[0]) == v {
      assert [a[0]] + ta == [a[0]] + tb;
      assert ta == ([a[0]] + ta)[1..];
      assert tb == ([a[0]] + tb)[1..];
    } else {
      assert [] + ta == ta;
      assert [] + tb == tb;
    }
  }

  lemma GroupsOfTails<T>(a: seq<T>, b: seq<T>, key: T -> Value)
    requires |a| > 0 && |b| > 0 && a[0] == b[0]
    requires forall v :: WithKey(a, key, v) == WithKey(b, key, v)
    ensures forall v :: WithKey(a[1..], key, v) == WithKey(b[1..], key, v)
  {
    forall v
      ensures WithKey(a[1..], key, v) == WithKey(b[1..], key, v)
    {
      GroupOfTails(a, b, key, v);
    }
  }

  /** Being sorted and keeping every group of equal keys in its order fixes the
      arrangement: two such arrangements of the same groups are equal. */
  lemma {:induction false} SortedGroupsDetermine<T>(a: seq<T>, b: seq<T>, key: T -> Value)
    requires SortedBy(a, key) && SortedBy(b, key)
    requires forall v :: WithKey(a, key, v) == WithKey(b, key, v)
    ensures a == b
    decreases |a|
  {
    if |a| == 0 {
      if |b| > 0 {
        HeadKeyHasGroup(b, key);
      }
    } else if |b| == 0 {
      HeadKeyHasGroup(a, key);
    } else {
      SortedGroupsSameHead(a, b, key);
      GroupsOfTails(a, b, key);
      SortedTail(a, key);
      SortedTail(b, key);
      SortedGroupsDetermine(a[1..], b[1..], key);
      assert a == [a[0]] + a[1..] && b == [b[0]] + b[1..];
    }
  }

  /** The stable sort is the one sorted arrangement that keeps every group of equal
      keys in its original order. */
  lemma StableSortIsUnique<T>(s: seq<T>, r: seq<T>, key: T -> Value)
    requires SortedBy(r, key)
    requires forall v :: WithKey(r, key, v) == WithKey(s, key, v)
    ensures r == StableSort(s, key)
  {
    SortedGroupsDetermine(r, StableSort(s, key), key);
  }

  /** Sorting a sequence that is already in order returns it unchanged. */
  lemma SortingSortedIsIdentity<T>(s: seq<T>, key: T -> Value)
    requires SortedBy(s, key)
    ensures StableSort(s, key) == s
  {
    StableSortIsUnique(s, s, key);
  }
}
