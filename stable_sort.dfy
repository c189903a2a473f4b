/** `Array.prototype.sort(compare)` on a copy of a list, as ECMA-262 (10th
    edition, section 22.1.3.27) requires it: stable, and ordered by a
    comparator that puts `a` before `b` unless `compare(a, b) > 0`.

    The sort is modelled as an insertion sort. `StableSortIsUnique` shows that
    every stable sort by a consistent comparator gives the same result, so the
    choice of algorithm does not matter. */
module StableSort {

  /** `a` may stay before `b`: the comparator does not ask to swap them. */
  predicate InOrder<T>(compare: (T, T) -> int, a: T, b: T) {
    compare(a, b) <= 0
  }

  /** The comparator is consistent: "may stay before" is a total preorder. */
  ghost predicate Consistent<T(!new)>(compare: (T, T) -> int) {
    && (forall a, b :: InOrder(compare, a, b) || InOrder(compare, b, a))
    && (forall a, b, c :: InOrder(compare, a, b) && InOrder(compare, b, c) ==> InOrder(compare, a, c))
  }

  /** `a` and `b` compare equal. */
  predicate Tied<T>(compare: (T, T) -> int, a: T, b: T) {
    InOrder(compare, a, b) && InOrder(compare, b, a)
  }

  /** Every element may stay before every later one. */
  ghost predicate Sorted<T>(compare: (T, T) -> int, s: seq<T>) {
    forall i, j :: 0 <= i < j < |s| ==> InOrder(compare, s[i], s[j])
  }

  /** The elements of `s` that compare equal to `x`, in the order of `s`. */
  function TiedWith<T>(compare: (T, T) -> int, s: seq<T>, x: T): (r: seq<T>)
    ensures forall y :: y in r ==> y in s && Tied(compare, y, x)
    ensures |r| <= |s|
  {
    if s == [] then []
    else (if Tied(compare, s[0], x) then [s[0]] else []) + TiedWith(compare, s[1..], x)
  }

  /** `r` is what a stable sort of `s` returns: a permutation of `s`, sorted,
      and every group of elements that compare equal in the order of `s`. */
  ghost predicate IsStableSortOf<T(!new)>(compare: (T, T) -> int, r: seq<T>, s: seq<T>) {
    && multiset(r) == multiset(s)
    && Sorted(compare, r)
    && forall x :: TiedWith(compare, r, x) == TiedWith(compare, s, x)
  }

  /** `x` placed before the first element it may stay before. */
  function Insert<T>(compare: (T, T) -> int, x: T, s: seq<T>): (r: seq<T>)
    ensures multiset(r) == multiset(s) + multiset{x}
  {
    if s == [] then [x]
    else if InOrder(compare, x, s[0]) then [x] + s
    else
      assert s == [s[0]] + s[1..];
      [s[0]] + Insert(compare, x, s[1..])
  }

  /** The sorted copy `s.slice().sort(compare)`. */
  function Sort<T>(compare: (T, T) -> int, s: seq<T>): (r: seq<T>)
    ensures multiset(r) == multiset(s)
  {
    if s == [] then []
    else
      assert s == [s[0]] + s[1..];
      Insert(compare, s[0], Sort(compare, s[1..]))
  }

  lemma {:induction false} InsertSorted<T(!new)>(compare: (T, T) -> int, x: T, s: seq<T>)
    requires Consistent(compare) && Sorted(compare, s)
    ensures Sorted(compare, Insert(compare, x, s))
  {
    if s == [] {
    } else if InOrder(compare, x, s[0]) {
      forall y | y in s ensures InOrder(compare, x, y) {
        var k :| 0 <= k < |s| && s[k] == y;
        assert k == 0 || InOrder(compare, s[0], s[k]);
      }
      ConsSorted(compare, x, s);
    } else {
      var t := Insert(compare, x, s[1..]);
      InsertSorted(compare, x, s[1..]);
      forall y | y in t ensures InOrder(compare, s[0], y) {
        assert y in multiset(t);
        if y != x {
          var k :| 0 <= k < |s[1..]| && s[1..][k] == y;
          assert InOrder(compare, s[0], s[k + 1]);
        }
      }
      ConsSorted(compare, s[0], t);
    }
  }

  lemma ConsSorted<T>(compare: (T, T) -> int, x: T, s: seq<T>)
    requires Sorted(compare, s) && forall y :: y in s ==> InOrder(compare, x, y)
    ensures Sorted(compare, [x] + s)
  {
    var r := [x] + s;
    forall i, j | 0 <= i < j < |r| ensures InOrder(compare, r[i], r[j]) {
      assert r[j] == s[j - 1];
      if i == 0 {
        assert s[j - 1] in s;
      } else {
        assert r[i] == s[i - 1];
      }
    }
  }

  /** The result is sorted. */
  lemma {:induction false} SortSorted<T(!new)>(compare: (T, T) -> int, s: seq<T>)
    requires Consistent(compare)
    ensures Sorted(compare, Sort(compare, s))
  {
    if s != [] {
      SortSorted(compare, s[1..]);
      InsertSorted(compare, s[0], Sort(compare, s[1..]));
    }
  }

  /** Inserting `x` puts it before every element of `s` it ties with. */
  lemma {:induction false} InsertTiedWith<T(!new)>(compare: (T, T) -> int, x: T, s: seq<T>, y: T)
    requires Consistent(compare)
    ensures TiedWith(compare, Insert(compare, x, s), y)
         == (if Tied(compare, x, y) then [x] else []) + TiedWith(compare, s, y)
  {
    if s == [] {
    } else if InOrder(compare, x, s[0]) {
      assert ([x] + s)[1..] == s;
    } else {
      var t := Insert(compare, x, s[1..]);
      var w := TiedWith(compare, s[1..], y);
      InsertTiedWith(compare, x, s[1..], y);
      assert s == [s[0]] + s[1..];
      TiedWithCons(compare, s[0], s[1..], y);
      TiedWithCons(compare, s[0], t, y);
      // x does not go before s[0], so x and s[0] cannot both tie with y
      if Tied(compare, s[0], y) {
        assert !Tied(compare, x, y);
        assert TiedWith(compare, t, y) == w;
      } else {
        assert TiedWith(compare, s, y) == w;
      }
    }
  }

  lemma TiedWithCons<T>(compare: (T, T) -> int, a: T, t: seq<T>, y: T)
    ensures TiedWith(compare, [a] + t, y) == (if Tied(compare, a, y) then [a] else []) + TiedWith(compare, t, y)
  {
    assert ([a] + t)[0] == a && ([a] + t)[1..] == t;
  }

  /** The sort is stable: each group of elements that compare equal keeps
      its order. */
  lemma {:induction false} SortStable<T(!new)>(compare: (T, T) -> int, s: seq<T>, y: T)
    requires Consistent(compare)
    ensures TiedWith(compare, Sort(compare, s), y) == TiedWith(compare, s, y)
  {
    if s != [] {
      SortStable(compare, s[1..], y);
      InsertTiedWith(compare, s[0], Sort(compare, s[1..]), y);
    }
  }

  /** With a consistent comparator, the model's sort is a stable sort. */
  lemma SortIsStableSort<T(!new)>(compare: (T, T) -> int, s: seq<T>)
    requires Consistent(compare)
    ensures IsStableSortOf(compare, Sort(compare, s), s)
  {
    SortSorted(compare, s);
    forall y ensures TiedWith(compare, Sort(compare, s), y) == TiedWith(compare, s, y) {
      SortStable(compare, s, y);
    }
  }

  lemma HeadTiedWithItself<T(!new)>(compare: (T, T) -> int, s: seq<T>)
    requires Consistent(compare) && s != []
    ensures TiedWith(compare, s, s[0]) != []
  {
  }

  /** Two sorted sequences whose groups of equal elements coincide are equal. */
  lemma {:induction false} SameGroupsSame<T(!new)>(compare: (T, T) -> int, r1: seq<T>, r2: seq<T>)
    requires Consistent(compare) && Sorted(compare, r1) && Sorted(compare, r2)
    requires forall x :: TiedWith(compare, r1, x) == TiedWith(compare, r2, x)
    ensures r1 == r2
    decreases |r1|
  {
    if r1 == [] || r2 == [] {
      if r1 != [] {
        HeadTiedWithItself(compare, r1);
      } else if r2 != [] {
        HeadTiedWithItself(compare, r2);
      }
    } else {
      var a, b := r1[0], r2[0];
      assert TiedWith(compare, r1, a) == [a] + TiedWith(compare, r1[1..], a);
      var c := TiedWith(compare, r2, a)[0];
      assert c in r2;
      assert InOrder(compare, b, c) by {
        var k :| 0 <= k < |r2| && r2[k] == c;
        if k > 0 {
          assert InOrder(compare, r2[0], r2[k]);
        }
      }
      assert TiedWith(compare, r2, b) == [b] + TiedWith(compare, r2[1..], b);
      var d := TiedWith(compare, r1, b)[0];
      assert d in r1;
      assert InOrder(compare, a, d) by {
        var k :| 0 <= k < |r1| && r1[k] == d;
        if k > 0 {
          assert InOrder(compare, r1[0], r1[k]);
        }
      }
      assert Tied(compare, a, b);
      assert a == b;
      forall x ensures TiedWith(compare, r1[1..], x) == TiedWith(compare, r2[1..], x) {
        var pre := if Tied(compare, a, x) then [a] else [];
        assert TiedWith(compare, r1, x) == pre + TiedWith(compare, r1[1..], x);
        assert TiedWith(compare, r2, x) == pre + TiedWith(compare, r2[1..], x);
        assert TiedWith(compare, r1, x) == TiedWith(compare, r2, x);
        assert TiedWith(compare, r1[1..], x) == (pre + TiedWith(compare, r1[1..], x))[|pre|..];
        assert TiedWith(compare, r2[1..], x) == (pre + TiedWith(compare, r2[1..], x))[|pre|..];
      }
      SameGroupsSame(compare, r1[1..], r2[1..]);
      assert r1 == [a] + r1[1..] && r2 == [b] + r2[1..];
    }
  }

  /** Any stable sort by a consistent comparator returns what `Sort` returns. */
  lemma StableSortIsUnique<T(!new)>(compare: (T, T) -> int, r: seq<T>, s: seq<T>)
    requires Consistent(compare) && IsStableSortOf(compare, r, s)
    ensures r == Sort(compare, s)
  {
    SortIsStableSort(compare, s);
    SameGroupsSame(compare, r, Sort(compare, s));
  }
}
