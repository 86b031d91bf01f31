/**
 * Ordering by string keys. The report code sorts in three places: uasort with
 * strcasecmp (stable since PHP 8), ksort on the state labels, and SQL's
 * ORDER BY ... DESC over distinct values. All three are modelled by one
 * stable insertion sort over byte-wise lexicographic keys; for ksort that is
 * its order on string keys that are not both numeric strings.
 */
module Ordering {
  import opened Strings

  predicate SortedBy<T>(s: seq<T>, key: T -> string)
  {
    forall i, j :: 0 <= i < j < |s| ==> LexLe(key(s[i]), key(s[j]))
  }

  predicate StrictlySortedBy<T>(s: seq<T>, key: T -> string)
  {
    forall i, j :: 0 <= i < j < |s| ==> LexLess(key(s[i]), key(s[j]))
  }

  /** No two elements share an `f`-value (PHP array keys are unique). */
  predicate DistinctBy<T, U(==)>(s: seq<T>, f: T -> U)
  {
    forall i, j :: 0 <= i < j < |s| ==> f(s[i]) != f(s[j])
  }

  /** The identity key, for sorting plain strings. */
  function Self(s: string): string
  {
    s
  }

  /** The elements whose key is `k`, in their original order. */
  function WithKey<T>(s: seq<T>, key: T -> string, k: string): (r: seq<T>)
    ensures |r| <= |s|
    ensures forall x :: x in r ==> x in s && key(x) == k
  {
    if s == [] then []
    else
      var rest := WithKey(s[..|s| - 1], key, k);
      if key(s[|s| - 1]) == k then rest + [s[|s| - 1]] else rest
  }

  lemma {:induction false} WithKeyAppend<T>(a: seq<T>, b: seq<T>, key: T -> string, k: string)
    ensures WithKey(a + b, key, k) == WithKey(a, key, k) + WithKey(b, key, k)
  {
    if b == [] {
      assert a + b == a;
    } else {
      var b' := b[..|b| - 1];
      assert (a + b)[..|a + b| - 1] == a + b';
      WithKeyAppend(a, b', key, k);
    }
  }

  /** Where `x` goes in a sorted `t`: after every element whose key is not greater. */
  function InsertPos<T>(x: T, t: seq<T>, key: T -> string): (k: nat)
    ensures k <= |t|
    ensures forall i :: 0 <= i < k ==> LexLe(key(t[i]), key(x))
    ensures k < |t| ==> LexLess(key(x), key(t[k]))
  {
    if t == [] then 0
    else if LexLe(key(t[0]), key(x)) then 1 + InsertPos(x, t[1..], key)
    else NotLexLe(key(t[0]), key(x)); 0
  }

  lemma InsertSplitSorted<T>(x: T, t: seq<T>, key: T -> string, k: nat)
    requires SortedBy(t, key) && k <= |t|
    requires forall i :: 0 <= i < k ==> LexLe(key(t[i]), key(x))
    requires k < |t| ==> LexLess(key(x), key(t[k]))
    ensures SortedBy(t[..k] + [x] + t[k..], key)
  {
    var r := t[..k] + [x] + t[k..];
    forall i, j | 0 <= i < j < |r|
      ensures LexLe(key(r[i]), key(r[j]))
    {
      if i == k {
        assert r[j] == t[j - 1];
        if j - 1 > k {
          LexLeTrans(key(x), key(t[k]), key(t[j - 1]));
        }
      }
    }
  }

  /** Inserts `x` into a sorted sequence after all elements with a key <= key(x). */
  function Insert<T>(x: T, t: seq<T>, key: T -> string): (r: seq<T>)
    requires SortedBy(t, key)
    ensures |r| == |t| + 1
    ensures SortedBy(r, key)
    ensures multiset(r) == multiset(t) + multiset{x}
  {
    var k := InsertPos(x, t, key);
    InsertSplitSorted(x, t, key, k);
    assert t == t[..k] + t[k..];
    t[..k] + [x] + t[k..]
  }

  /** Stable insertion sort by key. */
  function InsertionSort<T>(s: seq<T>, key: T -> string): (r: seq<T>)
    ensures |r| == |s|
    ensures SortedBy(r, key)
    ensures multiset(r) == multiset(s)
  {
    if s == [] then []
    else
      assert s == s[..|s| - 1] + [s[|s| - 1]];
      Insert(s[|s| - 1], InsertionSort(s[..|s| - 1], key), key)
  }

  lemma WithKeyEmpty<T>(s: seq<T>, key: T -> string, k: string)
    requires forall i :: 0 <= i < |s| ==> key(s[i]) != k
    ensures WithKey(s, key, k) == []
  {
  }

  lemma InsertShape<T>(x: T, t: seq<T>, key: T -> string)
    requires SortedBy(t, key)
    ensures Insert(x, t, key) == (t[..InsertPos(x, t, key)] + [x]) + t[InsertPos(x, t, key)..]
  {
  }

  lemma InsertWithKey<T>(x: T, t: seq<T>, key: T -> string, k0: string)
    requires SortedBy(t, key)
    ensures WithKey(Insert(x, t, key), key, k0) == WithKey(t, key, k0) + (if key(x) == k0 then [x] else [])
  {
    var k := InsertPos(x, t, key);
    var a, b := t[..k], t[k..];
    assert t == a + b;
    InsertShape(x, t, key);
    var wa, wb := WithKey(a, key, k0), WithKey(b, key, k0);
    WithKeyAppend(a + [x], b, key, k0);
    WithKeyAppend(a, [x], key, k0);
    WithKeyAppend(a, b, key, k0);
    assert [x][..0] == [];
    if key(x) == k0 {
      GreaterKeysFollow(x, t, key, k);
      assert WithKey(Insert(x, t, key), key, k0) == wa + [x];
    } else {
      assert WithKey(Insert(x, t, key), key, k0) == wa + wb;
    }
  }

  /** In a sorted `t`, nothing from the first element with a greater key onwards carries key(x). */
  lemma GreaterKeysFollow<T>(x: T, t: seq<T>, key: T -> string, k: nat)
    requires SortedBy(t, key) && k <= |t|
    requires k < |t| ==> LexLess(key(x), key(t[k]))
    ensures WithKey(t[k..], key, key(x)) == []
  {
    var b := t[k..];
    forall i | 0 <= i < |b|
      ensures key(b[i]) != key(x)
    {
      assert b[i] == t[k + i];
      if i > 0 {
        if key(t[k + i]) == key(x) {
          LexLeAntisym(key(x), key(t[k]));
        }
      }
    }
    WithKeyEmpty(b, key, key(x));
  }

  /**
   * Stability: for every key, the elements carrying it appear in the sorted
   * result in the same relative order as in the input.
   */
  lemma {:induction false} SortStable<T>(s: seq<T>, key: T -> string, k0: string)
    ensures WithKey(InsertionSort(s, key), key, k0) == WithKey(s, key, k0)
  {
    if s != [] {
      var p, x := s[..|s| - 1], s[|s| - 1];
      SortStable(p, key, k0);
      InsertWithKey(x, InsertionSort(p, key), key, k0);
    }
  }

  lemma InsertDistinct<T, U>(x: T, t: seq<T>, key: T -> string, f: T -> U)
    requires SortedBy(t, key) && DistinctBy(t, f)
    requires forall y :: y in t ==> f(y) != f(x)
    ensures DistinctBy(Insert(x, t, key), f)
  {
    var k := InsertPos(x, t, key);
    var r := Insert(x, t, key);
    assert r == t[..k] + [x] + t[k..];
    assert forall i, j :: 0 <= i < j < |r| ==> f(r[i]) != f(r[j]);
  }

  /** Sorting keeps the uniqueness of any attribute. */
  lemma {:induction false} SortDistinct<T, U>(s: seq<T>, key: T -> string, f: T -> U)
    requires DistinctBy(s, f)
    ensures DistinctBy(InsertionSort(s, key), f)
  {
    if s != [] {
      var p, x := s[..|s| - 1], s[|s| - 1];
      SortDistinct(p, key, f);
      var t := InsertionSort(p, key);
      forall y | y in t
        ensures f(y) != f(x)
      {
        assert y in multiset(p);
        var i :| 0 <= i < |p| && p[i] == y;
        assert s[i] == y;
      }
      InsertDistinct(x, t, key, f);
    }
  }

  /** Sorted with unique keys is strictly sorted. */
  lemma SortedDistinctIsStrict<T>(s: seq<T>, key: T -> string)
    requires SortedBy(s, key) && DistinctBy(s, key)
    ensures StrictlySortedBy(s, key)
  {
  }

  /** A sum of natural-number weights over a sequence. */
  function SumOf<T>(s: seq<T>, w: T -> nat): nat
  {
    if s == [] then 0 else SumOf(s[..|s| - 1], w) + w(s[|s| - 1])
  }

  lemma {:induction false} SumOfAppend<T>(a: seq<T>, b: seq<T>, w: T -> nat)
    ensures SumOf(a + b, w) == SumOf(a, w) + SumOf(b, w)
  {
    if b == [] {
      assert a + b == a;
    } else {
      var b' := b[..|b| - 1];
      assert (a + b)[..|a + b| - 1] == a + b';
      SumOfAppend(a, b', w);
    }
  }

  /** Replacing one element changes the sum by the difference of the weights. */
  lemma {:induction false} SumOfUpdate<T>(s: seq<T>, i: int, x: T, w: T -> nat)
    requires 0 <= i < |s|
    ensures SumOf(s[i := x], w) + w(s[i]) == SumOf(s, w) + w(x)
  {
    var n := |s| - 1;
    if i < n {
      assert s[i := x][..n] == s[..n][i := x];
      SumOfUpdate(s[..n], i, x, w);
    } else {
      assert s[i := x][..n] == s[..n];
    }
  }

  lemma InsertSum<T>(x: T, t: seq<T>, key: T -> string, w: T -> nat)
    requires SortedBy(t, key)
    ensures SumOf(Insert(x, t, key), w) == SumOf(t, w) + w(x)
  {
    var k := InsertPos(x, t, key);
    var a, b := t[..k], t[k..];
    assert t == a + b;
    assert Insert(x, t, key) == (a + [x]) + b;
    SumOfAppend(a + [x], b, w);
    SumOfAppend(a, [x], w);
    SumOfAppend(a, b, w);
    assert SumOf([x], w) == w(x) by {
      assert [x][..0] == [];
    }
  }

  /** Sorting does not change a sum over the elements. */
  lemma {:induction false} SortSum<T>(s: seq<T>, key: T -> string, w: T -> nat)
    ensures SumOf(InsertionSort(s, key), w) == SumOf(s, w)
  {
    if s != [] {
      var p, x := s[..|s| - 1], s[|s| - 1];
      SortSum(p, key, w);
      InsertSum(x, InsertionSort(p, key), key, w);
    }
  }

  /**
   * The distinct strings of a set in strictly ascending byte order (the
   * ordering step of SQL's ORDER BY over DISTINCT values, and of ksort on
   * labels that are not numeric strings).
   */
  method SortedElements(xs: set<string>) returns (r: seq<string>)
    ensures StrictlySortedBy(r, Self)
    ensures forall x :: x in r <==> x in xs
  {
    r := [];
    var rest := xs;
    while rest != {}
      invariant rest <= xs
      invariant SortedBy(r, Self) && DistinctBy(r, Self)
      invariant forall x :: x in r <==> x in xs && x !in rest
      decreases |rest|
    {
      var x :| x in rest;
      InsertDistinct(x, r, Self, Self);
      var r' := Insert(x, r, Self);
      assert forall y :: y in r' <==> y in r || y == x by {
        assert forall y :: y in r' <==> y in multiset(r');
      }
      r := r';
      rest := rest - {x};
    }
    SortedDistinctIsStrict(r, Self);
  }
}
