/** Python's `sorted(xs, key=k)` for keys that compare lexicographically as
    integer sequences: integers (a one-element key), strings (their code
    points) and tuples such as (year, month, day). The sort is stable, as
    Python's is. */
module Sorting {

  /** Lexicographic order; a proper prefix comes first. */
  predicate LexLe(a: seq<int>, b: seq<int>) {
    a == [] || (b != [] && (a[0] < b[0] || (a[0] == b[0] && LexLe(a[1..], b[1..]))))
  }

  lemma {:induction false} LexLeTotal(a: seq<int>, b: seq<int>)
    ensures LexLe(a, b) || LexLe(b, a)
  {
    if a != [] && b != [] && a[0] == b[0] {
      LexLeTotal(a[1..], b[1..]);
    }
  }

  lemma {:induction false} LexLeTransitive(a: seq<int>, b: seq<int>, c: seq<int>)
    requires LexLe(a, b) && LexLe(b, c)
    ensures LexLe(a, c)
  {
    if a != [] && a[0] == b[0] && b[0] == c[0] {
      LexLeTransitive(a[1..], b[1..], c[1..]);
    }
  }

  lemma {:induction false} LexLeAntisymmetric(a: seq<int>, b: seq<int>)
    requires LexLe(a, b) && LexLe(b, a)
    ensures a == b
  {
    if a != [] {
      LexLeAntisymmetric(a[1..], b[1..]);
      assert a == [a[0]] + a[1..] && b == [b[0]] + b[1..];
    }
  }

  /** A common prefix does not change the order. */
  lemma {:induction false} LexLePrefix(p: seq<int>, a: seq<int>, b: seq<int>)
    requires LexLe(a, b)
    ensures LexLe(p + a, p + b)
  {
    if p != [] {
      LexLePrefix(p[1..], a, b);
      assert (p + a)[0] == p[0] == (p + b)[0];
      assert (p + a)[1..] == p[1..] + a && (p + b)[1..] == p[1..] + b;
    } else {
      assert p + a == a && p + b == b;
    }
  }

  /** One-element keys compare as their integers. */
  lemma LexLeSingle(x: int, y: int)
    ensures LexLe([x], [y]) <==> x <= y
  {
    assert [x][1..] == [];
  }

  ghost predicate SortedBy<T>(s: seq<T>, key: T -> seq<int>) {
    forall i, j | 0 <= i < j < |s| :: LexLe(key(s[i]), key(s[j]))
  }

  lemma ConsSorted<T>(y: T, t: seq<T>, key: T -> seq<int>)
    requires SortedBy(t, key)
    requires forall z | z in t :: LexLe(key(y), key(z))
    ensures SortedBy([y] + t, key)
  {
    var s := [y] + t;
    forall i, j | 0 <= i < j < |s| ensures LexLe(key(s[i]), key(s[j])) {
      if i > 0 {
        assert s[i] == t[i - 1] && s[j] == t[j - 1];
      } else {
        assert s[j] == t[j - 1] && s[j] in t;
      }
    }
  }

  lemma HeadBelowSorted<T>(x: T, s: seq<T>, key: T -> seq<int>)
    requires SortedBy(s, key) && s != [] && LexLe(key(x), key(s[0]))
    ensures forall z | z in s :: LexLe(key(x), key(z))
  {
    forall z | z in s ensures LexLe(key(x), key(z)) {
      var j :| 0 <= j < |s| && s[j] == z;
      if j > 0 {
        LexLeTransitive(key(x), key(s[0]), key(z));
      }
    }
  }

  /** When the key tells the elements apart, there is only one sorted order:
      two sequences sorted by it and holding the same elements are equal. */
  lemma {:induction false} SortedUnique<T>(a: seq<T>, b: seq<T>, key: T -> seq<int>)
    requires SortedBy(a, key) && SortedBy(b, key) && multiset(a) == multiset(b)
    requires forall x, y | x in a && y in a && key(x) == key(y) :: x == y
    ensures a == b
  {
    if a != [] {
      SameHead(a, b, key);
      assert a == [a[0]] + a[1..] && b == [b[0]] + b[1..];
      assert multiset(a[1..]) == multiset(a) - multiset{a[0]};
      assert multiset(b[1..]) == multiset(b) - multiset{a[0]};
      assert forall x | x in a[1..] :: x in a;
      assert forall x, y | x in a[1..] && y in a[1..] && key(x) == key(y) :: x == y;
      SortedTail(a, key);
      SortedTail(b, key);
      SortedUnique(a[1..], b[1..], key);
    }
  }

  lemma SameHead<T>(a: seq<T>, b: seq<T>, key: T -> seq<int>)
    requires a != [] && SortedBy(a, key) && SortedBy(b, key) && multiset(a) == multiset(b)
    requires forall x, y | x in a && y in a && key(x) == key(y) :: x == y
    ensures b != [] && a[0] == b[0]
  {
    assert a[0] in multiset(b);
    assert b[0] in multiset(a);
    var i :| 0 <= i < |a| && a[i] == b[0];
    var j :| 0 <= j < |b| && b[j] == a[0];
    LexLeTotal(key(a[0]), key(a[0]));
    assert LexLe(key(a[0]), key(b[0]));
    assert LexLe(key(b[0]), key(a[0]));
    LexLeAntisymmetric(key(a[0]), key(b[0]));
  }

  lemma SortedTail<T>(a: seq<T>, key: T -> seq<int>)
    requires a != [] && SortedBy(a, key)
    ensures SortedBy(a[1..], key)
  {
    var t := a[1..];
    forall i, j | 0 <= i < j < |t| ensures LexLe(key(t[i]), key(t[j])) {
      assert t[i] == a[i + 1] && t[j] == a[j + 1];
    }
  }

  /** A sequence whose neighbours are in order is sorted. */
  lemma {:induction false} SortedByNeighbours<T>(s: seq<T>, key: T -> seq<int>)
    requires forall i | 0 <= i < |s| - 1 :: LexLe(key(s[i]), key(s[i + 1]))
    ensures SortedBy(s, key)
  {
    if |s| > 1 {
      var t := s[1..];
      forall i | 0 <= i < |t| - 1 ensures LexLe(key(t[i]), key(t[i + 1])) {
        assert t[i] == s[i + 1] && t[i + 1] == s[i + 2];
      }
      SortedByNeighbours(t, key);
      forall i, j | 0 <= i < j < |s| ensures LexLe(key(s[i]), key(s[j])) {
        if i > 0 {
          assert s[i] == t[i - 1] && s[j] == t[j - 1];
        } else if j > 1 {
          assert s[1] == t[0] && s[j] == t[j - 1];
          LexLeTransitive(key(s[0]), key(s[1]), key(s[j]));
        }
      }
    }
  }

  /** Inserts `x` into a sorted sequence ahead of the first element whose key
      is not below it. */
  function Insert<T>(x: T, s: seq<T>, key: T -> seq<int>): (r: seq<T>)
    requires SortedBy(s, key)
    ensures SortedBy(r, key)
    ensures multiset(r) == multiset(s) + multiset{x}
  {
    if s == [] then
      [x]
    else if LexLe(key(x), key(s[0])) then
      HeadBelowSorted(x, s, key);
      ConsSorted(x, s, key);
      [x] + s
    else
      var t := Insert(x, s[1..], key);
      LexLeTotal(key(x), key(s[0]));
      assert forall z | z in t :: LexLe(key(s[0]), key(z)) by {
        forall z | z in t ensures LexLe(key(s[0]), key(z)) {
          assert z in multiset(t);
          if z != x {
            assert z in multiset(s[1..]);
            var j :| 0 <= j < |s[1..]| && s[1..][j] == z;
            assert s[j + 1] == z;
          }
        }
      }
      ConsSorted(s[0], t, key);
      assert s == [s[0]] + s[1..];
      [s[0]] + t
  }

  /** `sorted(s, key=key)`: sorted by key, and a permutation of `s`. */
  function SortBy<T>(s: seq<T>, key: T -> seq<int>): (r: seq<T>)
    ensures SortedBy(r, key)
    ensures multiset(r) == multiset(s)
  {
    if s == [] then []
    else
      assert s == [s[0]] + s[1..];
      Insert(s[0], SortBy(s[1..], key), key)
  }

  /** The elements of `s` whose key is `k`, in their order in `s`. */
  function WithKey<T>(s: seq<T>, key: T -> seq<int>, k: seq<int>): (r: seq<T>)
    ensures |r| <= |s|
  {
    if s == [] then []
    else (if key(s[0]) == k then [s[0]] else []) + WithKey(s[1..], key, k)
  }

  /** The two ways `Insert` builds its result. */
  lemma InsertSteps<T>(x: T, s: seq<T>, key: T -> seq<int>)
    requires SortedBy(s, key) && s != []
    ensures LexLe(key(x), key(s[0])) ==> Insert(x, s, key) == [x] + s
    ensures !LexLe(key(x), key(s[0])) ==> Insert(x, s, key) == [s[0]] + Insert(x, s[1..], key)
  {
  }

  lemma WithKeyCons<T>(a: T, t: seq<T>, key: T -> seq<int>, k: seq<int>)
    ensures WithKey([a] + t, key, k) == (if key(a) == k then [a] else []) + WithKey(t, key, k)
  {
    assert ([a] + t)[0] == a && ([a] + t)[1..] == t;
  }

  /** Inserting past the head keeps the head, whose key differs from the
      inserted element's. */
  lemma InsertPastHead<T>(x: T, s: seq<T>, key: T -> seq<int>, k: seq<int>)
    requires SortedBy(s, key) && s != [] && !LexLe(key(x), key(s[0]))
    ensures key(s[0]) != key(x)
    ensures WithKey(Insert(x, s, key), key, k)
         == (if key(s[0]) == k then [s[0]] else []) + WithKey(Insert(x, s[1..], key), key, k)
  {
    LexLeTotal(key(x), key(x));
    InsertSteps(x, s, key);
    WithKeyCons(s[0], Insert(x, s[1..], key), key, k);
  }

  lemma WithKeyOfHead<T>(s: seq<T>, key: T -> seq<int>, k: seq<int>)
    requires s != []
    ensures WithKey(s, key, k) == (if key(s[0]) == k then [s[0]] else []) + WithKey(s[1..], key, k)
  {
  }

  /** Two pieces of which one is empty can trade places. */
  lemma SwapEmpty<T>(a: seq<T>, b: seq<T>, c: seq<T>)
    requires a == [] || b == []
    ensures a + (b + c) == b + (a + c)
  {
    if a == [] {
      assert a + (b + c) == b + c == b + (a + c);
    } else {
      assert a + (b + c) == a + c == b + (a + c);
    }
  }

  /** `x` lands ahead of every element with its own key. */
  lemma {:induction false} InsertWithKey<T>(x: T, s: seq<T>, key: T -> seq<int>, k: seq<int>)
    requires SortedBy(s, key)
    ensures WithKey(Insert(x, s, key), key, k)
         == (if key(x) == k then [x] else []) + WithKey(s, key, k)
  {
    if s == [] {
      assert Insert(x, s, key) == [x] + s;
      WithKeyCons(x, s, key, k);
    } else if LexLe(key(x), key(s[0])) {
      InsertSteps(x, s, key);
      WithKeyCons(x, s, key, k);
    } else {
      var hx: seq<T> := if key(x) == k then [x] else [];
      var h0: seq<T> := if key(s[0]) == k then [s[0]] else [];
      InsertPastHead(x, s, key, k);
      InsertWithKey(x, s[1..], key, k);
      WithKeyOfHead(s, key, k);
      SwapEmpty(h0, hx, WithKey(s[1..], key, k));
    }
  }

  /** The sort is stable: the elements sharing a key come out in the order
      they went in. */
  lemma {:induction false} SortByStable<T>(s: seq<T>, key: T -> seq<int>, k: seq<int>)
    ensures WithKey(SortBy(s, key), key, k) == WithKey(s, key, k)
  {
    if s != [] {
      SortByStable(s[1..], key, k);
      InsertWithKey(s[0], SortBy(s[1..], key), key, k);
    }
  }
}
