/** Kotlin's `sortedWith(compareBy { .. }.thenBy { .. }.thenByDescending { .. })`: a stable sort
    by a lexicographic key of up to three integers (a descending component is negated). */
module StableSort {

  datatype SortKey = SortKey(first: int, second: int, third: int)

  /** The lexicographic order of keys the chained comparator induces. */
  predicate KeyLe(a: SortKey, b: SortKey)
  {
    a.first < b.first ||
    (a.first == b.first && (a.second < b.second || (a.second == b.second && a.third <= b.third)))
  }

  lemma KeyLeTotal(a: SortKey, b: SortKey)
    ensures KeyLe(a, b) || KeyLe(b, a)
    ensures KeyLe(a, b) && KeyLe(b, a) ==> a == b
  {
  }

  predicate SortedBy<T>(s: seq<T>, key: T -> SortKey)
  {
    forall i, j :: 0 <= i < j < |s| ==> KeyLe(key(s[i]), key(s[j]))
  }

  /** The elements of `s` whose key is `k`, in order. */
  function WithKey<T>(s: seq<T>, key: T -> SortKey, k: SortKey): (r: seq<T>)
    ensures |r| <= |s|
  {
    if s == [] then [] else (if key(s[0]) == k then [s[0]] else []) + WithKey(s[1..], key, k)
  }

  lemma {:induction false} WithKeyAppend<T>(a: seq<T>, b: seq<T>, key: T -> SortKey, k: SortKey)
    ensures WithKey(a + b, key, k) == WithKey(a, key, k) + WithKey(b, key, k)
  {
    if a == [] {
      assert a + b == b;
    } else {
      assert (a + b)[0] == a[0] && (a + b)[1..] == a[1..] + b;
      WithKeyAppend(a[1..], b, key, k);
    }
  }

  /** Every element of `s` has a key at least `b`. */
  predicate AllAbove<T>(b: SortKey, s: seq<T>, key: T -> SortKey)
  {
    forall i :: 0 <= i < |s| ==> KeyLe(b, key(s[i]))
  }

  /** Inserting `x` into a sorted `s` before the first element whose key is at least `x`'s. */
  function Insert<T>(x: T, s: seq<T>, key: T -> SortKey): (r: seq<T>)
    ensures |r| == |s| + 1
  {
    if s == [] || KeyLe(key(x), key(s[0])) then [x] + s
    else [s[0]] + Insert(x, s[1..], key)
  }

  lemma {:induction false} InsertPermutes<T>(x: T, s: seq<T>, key: T -> SortKey)
    ensures multiset(Insert(x, s, key)) == multiset(s) + multiset{x}
  {
    if s != [] && !KeyLe(key(x), key(s[0])) {
      InsertPermutes(x, s[1..], key);
      assert s == [s[0]] + s[1..];
    }
  }

  lemma {:induction false} InsertAbove<T>(b: SortKey, x: T, s: seq<T>, key: T -> SortKey)
    requires AllAbove(b, s, key) && KeyLe(b, key(x))
    ensures AllAbove(b, Insert(x, s, key), key)
  {
    if s != [] && !KeyLe(key(x), key(s[0])) {
      InsertAbove(b, x, s[1..], key);
    }
  }

  lemma {:induction false} InsertSorted<T>(x: T, s: seq<T>, key: T -> SortKey)
    requires SortedBy(s, key)
    ensures SortedBy(Insert(x, s, key), key)
  {
    if s == [] {
    } else if KeyLe(key(x), key(s[0])) {
      assert AllAbove(key(x), s, key);
    } else {
      var t := s[1..];
      InsertSorted(x, t, key);
      KeyLeTotal(key(x), key(s[0]));
      assert AllAbove(key(s[0]), t, key);
      InsertAbove(key(s[0]), x, t, key);
    }
  }

  /** Insertion keeps the order among equal keys: `x` comes before every element with its key. */
  lemma {:induction false} InsertStable<T>(x: T, s: seq<T>, key: T -> SortKey, k: SortKey)
    ensures WithKey(Insert(x, s, key), key, k) == WithKey([x] + s, key, k)
  {
    if s == [] || KeyLe(key(x), key(s[0])) {
    } else {
      var t := s[1..];
      InsertStable(x, t, key, k);
      KeyLeTotal(key(x), key(s[0]));
      var xs := [x] + s;
      assert xs[0] == x && xs[1..] == s;
      assert s[0] == s[0] && s[1..] == t;
      var r := [s[0]] + Insert(x, t, key);
      assert r[0] == s[0] && r[1..] == Insert(x, t, key);
      var xt := [x] + t;
      assert xt[0] == x && xt[1..] == t;
    }
  }

  /** Insertion sort: each element goes in front of the equal-keyed ones after it. */
  function Sort<T>(s: seq<T>, key: T -> SortKey): (r: seq<T>)
    ensures |r| == |s|
  {
    if s == [] then [] else Insert(s[0], Sort(s[1..], key), key)
  }

  /** The sort is ordered by the key, a permutation, and stable: for every key the elements with
      that key keep their input order. */
  lemma {:induction false} SortCorrect<T>(s: seq<T>, key: T -> SortKey)
    ensures SortedBy(Sort(s, key), key)
    ensures multiset(Sort(s, key)) == multiset(s)
    ensures forall k :: WithKey(Sort(s, key), key, k) == WithKey(s, key, k)
  {
    if s != [] {
      var t := s[1..];
      SortCorrect(t, key);
      InsertSorted(s[0], Sort(t, key), key);
      InsertPermutes(s[0], Sort(t, key), key);
      assert s == [s[0]] + t;
      forall k
        ensures WithKey(Sort(s, key), key, k) == WithKey(s, key, k)
      {
        InsertStable(s[0], Sort(t, key), key, k);
        var a := [s[0]] + Sort(t, key);
        assert a[0] == s[0] && a[1..] == Sort(t, key);
      }
    }
  }

  /** Sorting an already sorted sequence changes nothing. */
  lemma {:induction false} SortOfSorted<T>(s: seq<T>, key: T -> SortKey)
    requires SortedBy(s, key)
    ensures Sort(s, key) == s
  {
    if s != [] {
      var t := s[1..];
      assert SortedBy(t, key);
      SortOfSorted(t, key);
      assert t == [] || KeyLe(key(s[0]), key(t[0]));
      assert [s[0]] + t == s;
    }
  }
}
