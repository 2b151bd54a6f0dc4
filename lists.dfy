/** Kotlin's list operations `filter`, `count`, `removeIf` and `indexOfFirst` on sequences. */
module Lists {

  /** `filter { p(it) }`: the elements satisfying `p`, in their original order. */
  function Filter<T>(s: seq<T>, p: T -> bool): (r: seq<T>)
    ensures |r| <= |s|
    ensures forall i :: 0 <= i < |r| ==> p(r[i]) && r[i] in s
    ensures forall i :: 0 <= i < |s| && p(s[i]) ==> s[i] in r
  {
    if s == [] then []
    else
      var x, t := s[0], s[1..];
      var rest := Filter(t, p);
      assert s == [x] + t;
      var head := if p(x) then [x] else [];
      assert forall i :: 0 <= i < |rest| ==> rest[i] in t;
      assert forall i :: 1 <= i < |s| ==> s[i] == t[i - 1];
      head + rest
  }

  lemma {:induction false} FilterAppend<T>(a: seq<T>, b: seq<T>, p: T -> bool)
    ensures Filter(a + b, p) == Filter(a, p) + Filter(b, p)
  {
    if a == [] {
      assert a + b == b;
    } else {
      assert (a + b)[0] == a[0] && (a + b)[1..] == a[1..] + b;
      FilterAppend(a[1..], b, p);
    }
  }

  /** Filtering keeps everything when every element satisfies the predicate. */
  lemma {:induction false} FilterAll<T>(s: seq<T>, p: T -> bool)
    requires forall i :: 0 <= i < |s| ==> p(s[i])
    ensures Filter(s, p) == s
  {
    if s != [] {
      var t := s[1..];
      assert forall i :: 0 <= i < |t| ==> t[i] == s[i + 1];
      FilterAll(t, p);
      assert s == [s[0]] + t;
    }
  }

  /** `count { p(it) }`. */
  function Count<T>(s: seq<T>, p: T -> bool): (n: nat)
    ensures n <= |s|
  {
    if s == [] then 0 else (if p(s[0]) then 1 else 0) + Count(s[1..], p)
  }

  /** Counting is the length of the filtered list. */
  lemma {:induction false} CountIsFilterLength<T>(s: seq<T>, p: T -> bool)
    ensures Count(s, p) == |Filter(s, p)|
  {
    if s != [] {
      CountIsFilterLength(s[1..], p);
    }
  }

  /** When `p` splits into the disjoint conditions `q` and `r`, so does its count. */
  lemma {:induction false} CountSplit<T>(s: seq<T>, p: T -> bool, q: T -> bool, r: T -> bool)
    requires forall x :: p(x) == (q(x) || r(x)) && !(q(x) && r(x))
    ensures Count(s, p) == Count(s, q) + Count(s, r)
  {
    if s != [] {
      CountSplit(s[1..], p, q, r);
    }
  }

  /** Counting `q` among the elements satisfying `p` counts the elements satisfying both. */
  lemma {:induction false} CountFilter<T>(s: seq<T>, p: T -> bool, q: T -> bool, pq: T -> bool)
    requires forall x :: pq(x) == (p(x) && q(x))
    ensures Count(Filter(s, p), q) == Count(s, pq)
  {
    if s != [] {
      var x, t := s[0], s[1..];
      CountFilter(t, p, q, pq);
      var rest := Filter(t, p);
      assert pq(x) == (p(x) && q(x));
      if p(x) {
        var f := [x] + rest;
        assert Filter(s, p) == f;
        assert f[0] == x && f[1..] == rest;
        assert Count(f, q) == (if q(x) then 1 else 0) + Count(rest, q);
      } else {
        assert Filter(s, p) == rest;
      }
      assert Count(s, pq) == (if pq(x) then 1 else 0) + Count(t, pq);
    }
  }

  /** A condition that implies another is satisfied no more often. */
  lemma {:induction false} CountMonotonic<T>(s: seq<T>, p: T -> bool, q: T -> bool)
    requires forall x :: p(x) ==> q(x)
    ensures Count(s, p) <= Count(s, q)
  {
    if s != [] {
      CountMonotonic(s[1..], p, q);
    }
  }

  /** `indexOfFirst { p(it) }`: the first position satisfying `p`, or -1. */
  function IndexOfFirst<T>(s: seq<T>, p: T -> bool): (r: int)
    ensures -1 <= r < |s|
    ensures r == -1 <==> forall i :: 0 <= i < |s| ==> !p(s[i])
    ensures r >= 0 ==> p(s[r]) && forall i :: 0 <= i < r ==> !p(s[i])
  {
    if s == [] then -1
    else if p(s[0]) then 0
    else
      var r := IndexOfFirst(s[1..], p);
      assert forall i :: 1 <= i < |s| ==> s[i] == s[1..][i - 1];
      if r == -1 then -1 else r + 1
  }
  /** Sequences of the same length that agree on `p` position by position have the same first
      match. */
  lemma IndexOfFirstCongruent<T>(s: seq<T>, t: seq<T>, p: T -> bool)
    requires |s| == |t| && forall k :: 0 <= k < |s| ==> p(s[k]) == p(t[k])
    ensures IndexOfFirst(s, p) == IndexOfFirst(t, p)
  {
    var a, b := IndexOfFirst(s, p), IndexOfFirst(t, p);
    if a >= 0 && b >= 0 {
      assert !(a < b) && !(b < a);
    }
  }

  /** Filtering drops something exactly when some element fails the predicate. */
  lemma FilterShorter<T>(s: seq<T>, p: T -> bool)
    ensures (|Filter(s, p)| < |s|) <==> exists k :: 0 <= k < |s| && !p(s[k])
  {
    if forall k :: 0 <= k < |s| ==> p(s[k]) {
      FilterAll(s, p);
    } else {
      var k :| 0 <= k < |s| && !p(s[k]);
      FilterDrops(s, p, k);
    }
  }

  /** An element that fails the predicate makes the filtered list shorter. */
  lemma {:induction false} FilterDrops<T>(s: seq<T>, p: T -> bool, k: nat)
    requires k < |s| && !p(s[k])
    ensures |Filter(s, p)| < |s|
  {
    if k > 0 {
      FilterDrops(s[1..], p, k - 1);
    }
  }
  /** Filtering a list with one more element at the end. */
  lemma FilterSnoc<T>(s: seq<T>, x: T, p: T -> bool)
    ensures Filter(s + [x], p) == Filter(s, p) + (if p(x) then [x] else [])
  {
    FilterAppend(s, [x], p);
    assert [x][1..] == [];
  }

  /** Nothing is kept when no element satisfies the predicate. */
  lemma {:induction false} FilterNone<T>(s: seq<T>, p: T -> bool)
    requires forall i :: 0 <= i < |s| ==> !p(s[i])
    ensures Filter(s, p) == []
  {
    if s != [] {
      FilterNone(s[1..], p);
    }
  }

  // -----------------------------------------------------------------------------------------
  // Grouping into a LinkedHashMap<K, MutableList<T>>, keys in insertion order

  /** The predicate `key(it) == k`. */
  function HasKey<T, K(==)>(key: T -> K, k: K): T -> bool
  {
    (x: T) => key(x) == k
  }

  /** The position of the group with key `k`, or -1. */
  function GroupIndex<T, K(==)>(groups: seq<(K, seq<T>)>, k: K): (r: int)
    ensures -1 <= r < |groups|
    ensures r >= 0 ==> groups[r].0 == k
    ensures r == -1 <==> forall i :: 0 <= i < |groups| ==> groups[i].0 != k
  {
    IndexOfFirst(groups, (g: (K, seq<T>)) => g.0 == k)
  }

  /** `map.getOrPut(k) { mutableListOf() }.add(x)`: the key's list grows, or a new group is put
      last. */
  function AddToGroup<T, K(==)>(groups: seq<(K, seq<T>)>, k: K, x: T): seq<(K, seq<T>)>
  {
    var i := GroupIndex(groups, k);
    if i < 0 then groups + [(k, [x])] else groups[i := (k, groups[i].1 + [x])]
  }

  /** Each element of `s`, in order, added under its key. */
  function GroupBy<T, K(==)>(s: seq<T>, key: T -> K): seq<(K, seq<T>)>
  {
    if s == [] then []
    else
      var n := |s| - 1;
      AddToGroup(GroupBy(s[..n], key), key(s[n]), s[n])
  }

  /** `groups` is a grouping of `s`: distinct keys, each group the elements with its key in
      their order in `s`, and a group for the key of every element. */
  ghost predicate GroupsOf<T, K>(groups: seq<(K, seq<T>)>, s: seq<T>, key: T -> K)
  {
    DistinctKeys(groups) && GroupsFiltered(groups, s, key) && KeysCovered(groups, s, key)
  }

  ghost predicate DistinctKeys<T, K>(groups: seq<(K, seq<T>)>)
  {
    forall i, j :: 0 <= i < j < |groups| ==> groups[i].0 != groups[j].0
  }

  ghost predicate GroupsFiltered<T, K>(groups: seq<(K, seq<T>)>, s: seq<T>, key: T -> K)
  {
    forall i :: 0 <= i < |groups| ==> groups[i].1 == Filter(s, HasKey(key, groups[i].0))
  }

  ghost predicate KeysCovered<T, K>(groups: seq<(K, seq<T>)>, s: seq<T>, key: T -> K)
  {
    forall j :: 0 <= j < |s| ==> GroupIndex(groups, key(s[j])) >= 0
  }

  /** Adding an element keeps the keys distinct and the old groups' keys in place. */
  lemma AddToGroupKeys<T, K>(groups: seq<(K, seq<T>)>, k: K, x: T)
    requires DistinctKeys(groups)
    ensures DistinctKeys(AddToGroup(groups, k, x))
    ensures |AddToGroup(groups, k, x)| == |groups| + (if GroupIndex(groups, k) < 0 then 1 else 0)
    ensures forall a :: 0 <= a < |groups| ==> AddToGroup(groups, k, x)[a].0 == groups[a].0
    ensures AddToGroup(groups, k, x)[if GroupIndex(groups, k) < 0 then |groups| else GroupIndex(groups, k)].0 == k
  {
  }

  /** Adding an element keeps every group equal to the filtered list. */
  lemma AddToGroupFiltered<T, K>(groups: seq<(K, seq<T>)>, s: seq<T>, key: T -> K, x: T, t: seq<T>)
    requires t == s + [x]
    requires DistinctKeys(groups) && GroupsFiltered(groups, s, key) && KeysCovered(groups, s, key)
    ensures GroupsFiltered(AddToGroup(groups, key(x), x), t, key)
  {
    var k := key(x);
    var r := AddToGroup(groups, k, x);
    AddToGroupKeys(groups, k, x);
    forall a | 0 <= a < |r|
      ensures r[a].1 == Filter(t, HasKey(key, r[a].0))
    {
      FilterSnoc(s, x, HasKey(key, r[a].0));
      if a == |groups| {
        FilterNone(s, HasKey(key, k));
      }
    }
  }

  /** Adding an element keeps every element's key present. */
  lemma AddToGroupCovered<T, K>(groups: seq<(K, seq<T>)>, s: seq<T>, key: T -> K, x: T, t: seq<T>)
    requires t == s + [x]
    requires DistinctKeys(groups) && KeysCovered(groups, s, key)
    ensures KeysCovered(AddToGroup(groups, key(x), x), t, key)
  {
    var k := key(x);
    var r := AddToGroup(groups, k, x);
    AddToGroupKeys(groups, k, x);
    forall j | 0 <= j < |t|
      ensures GroupIndex(r, key(t[j])) >= 0
    {
      if j < |s| {
        assert t[j] == s[j];
        var g := GroupIndex(groups, key(s[j]));
        assert r[g].0 == key(s[j]);
      }
    }
  }

  /** GroupBy builds a grouping of its input. */
  lemma {:induction false} GroupByCorrect<T, K>(s: seq<T>, key: T -> K)
    ensures GroupsOf(GroupBy(s, key), s, key)
  {
    if s != [] {
      var n := |s| - 1;
      assert s == s[..n] + [s[n]];
      var g := GroupBy(s[..n], key);
      GroupByCorrect(s[..n], key);
      AddToGroupKeys(g, key(s[n]), s[n]);
      AddToGroupFiltered(g, s[..n], key, s[n], s);
      AddToGroupCovered(g, s[..n], key, s[n], s);
    }
  }

  /** The number of elements over all groups. */
  function GroupSizes<T, K>(groups: seq<(K, seq<T>)>): nat
  {
    if groups == [] then 0 else GroupSizes(groups[..|groups| - 1]) + |groups[|groups| - 1].1|
  }

  /** Replacing one group changes the total by the difference of the two sizes. */
  lemma {:induction false} GroupSizesUpdate<T, K>(groups: seq<(K, seq<T>)>, i: nat, g: (K, seq<T>))
    requires i < |groups|
    ensures GroupSizes(groups[i := g]) == GroupSizes(groups) - |groups[i].1| + |g.1|
  {
    var n := |groups| - 1;
    var r := groups[i := g];
    if i == n {
      assert r[..n] == groups[..n];
    } else {
      assert r[..n] == groups[..n][i := g];
      GroupSizesUpdate(groups[..n], i, g);
    }
  }

  /** Adding an element to a grouping adds one to its total size, and no group is left empty. */
  lemma AddToGroupSize<T, K>(groups: seq<(K, seq<T>)>, k: K, x: T)
    ensures GroupSizes(AddToGroup(groups, k, x)) == GroupSizes(groups) + 1
  {
    var i := GroupIndex(groups, k);
    if i < 0 {
      assert (groups + [(k, [x])])[..|groups|] == groups;
    } else {
      GroupSizesUpdate(groups, i, (k, groups[i].1 + [x]));
    }
  }

  /** Every element of `s` lands in exactly one place: the groups hold |s| elements in all, and
      none of them is empty. */
  lemma {:induction false} GroupBySize<T, K>(s: seq<T>, key: T -> K)
    ensures GroupSizes(GroupBy(s, key)) == |s|
    ensures forall i :: 0 <= i < |GroupBy(s, key)| ==> |GroupBy(s, key)[i].1| > 0
  {
    if s != [] {
      var n := |s| - 1;
      GroupBySize(s[..n], key);
      AddToGroupSize(GroupBy(s[..n], key), key(s[n]), s[n]);
    }
  }
  /** All the elements held by the groups, counted with repetition. */
  function GroupsMultiset<T, K>(groups: seq<(K, seq<T>)>): multiset<T>
  {
    if groups == [] then multiset{}
    else GroupsMultiset(groups[..|groups| - 1]) + multiset(groups[|groups| - 1].1)
  }

  /** Replacing one group swaps its elements for the new group's. */
  lemma {:induction false} GroupsMultisetUpdate<T, K>(groups: seq<(K, seq<T>)>, i: nat, g: (K, seq<T>))
    requires i < |groups|
    ensures GroupsMultiset(groups[i := g]) + multiset(groups[i].1) == GroupsMultiset(groups) + multiset(g.1)
  {
    var n := |groups| - 1;
    var r := groups[i := g];
    if i == n {
      assert r[..n] == groups[..n];
    } else {
      assert r[..n] == groups[..n][i := g];
      assert groups[..n][i] == groups[i] && r[n] == groups[n];
      GroupsMultisetUpdate(groups[..n], i, g);
      var a, b, c, d := GroupsMultiset(r[..n]), multiset(groups[n].1), multiset(groups[i].1), multiset(g.1);
      assert a + c == GroupsMultiset(groups[..n]) + d;
      assert GroupsMultiset(r) == a + b && GroupsMultiset(groups) == GroupsMultiset(groups[..n]) + b;
      assert (a + b) + c == (a + c) + b;
    }
  }

  /** Multiset addition cancels. */
  lemma MultisetCancel<T>(a: multiset<T>, b: multiset<T>, c: multiset<T>)
    requires a + c == b + c
    ensures a == b
  {
    forall y: T
      ensures a[y] == b[y]
    {
      assert (a + c)[y] == (b + c)[y];
    }
  }

  /** Adding an element to a grouping adds it to the elements held. */
  lemma AddToGroupMultiset<T, K>(groups: seq<(K, seq<T>)>, k: K, x: T)
    ensures GroupsMultiset(AddToGroup(groups, k, x)) == GroupsMultiset(groups) + multiset{x}
  {
    var i := GroupIndex(groups, k);
    if i < 0 {
      assert (groups + [(k, [x])])[..|groups|] == groups;
    } else {
      var g := (k, groups[i].1 + [x]);
      assert AddToGroup(groups, k, x) == groups[i := g];
      GroupsMultisetUpdate(groups, i, g);
      var a, c := GroupsMultiset(groups[i := g]), multiset(groups[i].1);
      assert multiset(g.1) == c + multiset{x};
      assert a + c == (GroupsMultiset(groups) + multiset{x}) + c;
      MultisetCancel(a, GroupsMultiset(groups) + multiset{x}, c);
    }
  }

  /** The groups hold exactly the elements of `s`, each as often as it occurs there. */
  lemma {:induction false} GroupByMultiset<T, K>(s: seq<T>, key: T -> K)
    ensures GroupsMultiset(GroupBy(s, key)) == multiset(s)
  {
    if s != [] {
      var n := |s| - 1;
      assert s == s[..n] + [s[n]];
      GroupByMultiset(s[..n], key);
      AddToGroupMultiset(GroupBy(s[..n], key), key(s[n]), s[n]);
    }
  }
}
