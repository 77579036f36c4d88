/** Stable sorting by a key, as `sorted`, `list.sort` and ORDER BY do it. */
module Sorting {
  ghost predicate TotalOrder<K(!new)>(le: (K, K) -> bool) {
    && (forall x :: le(x, x))
    && (forall x, y :: le(x, y) || le(y, x))
    && (forall x, y :: le(x, y) && le(y, x) ==> x == y)
    && (forall x, y, z :: le(x, y) && le(y, z) ==> le(x, z))
  }

  function Insert<T, K>(x: T, s: seq<T>, key: T -> K, le: (K, K) -> bool): seq<T> {
    if s == [] || le(key(x), key(s[0])) then [x] + s else [s[0]] + Insert(x, s[1..], key, le)
  }

  /** Equal keys keep their order. */
  function Sort<T, K>(s: seq<T>, key: T -> K, le: (K, K) -> bool): seq<T> {
    if s == [] then [] else Insert(s[0], Sort(s[1..], key, le), key, le)
  }

  predicate SortedBy<T, K>(s: seq<T>, key: T -> K, le: (K, K) -> bool) {
    forall i, j | 0 <= i < j < |s| :: le(key(s[i]), key(s[j]))
  }

  lemma {:induction false} InsertPermutes<T, K>(x: T, s: seq<T>, key: T -> K, le: (K, K) -> bool)
    ensures multiset(Insert(x, s, key, le)) == multiset([x]) + multiset(s)
  {
    if s != [] && !le(key(x), key(s[0])) {
      InsertPermutes(x, s[1..], key, le);
      assert s == [s[0]] + s[1..];
    }
  }

  /** Every element of `s` is above `low`. */
  predicate AllAbove<T, K>(low: K, s: seq<T>, key: T -> K, le: (K, K) -> bool) {
    forall i | 0 <= i < |s| :: le(low, key(s[i]))
  }

  lemma {:induction false} InsertAbove<T, K>(low: K, x: T, s: seq<T>, key: T -> K, le: (K, K) -> bool)
    requires le(low, key(x)) && AllAbove(low, s, key, le)
    ensures AllAbove(low, Insert(x, s, key, le), key, le)
  {
    if s != [] && !le(key(x), key(s[0])) {
      InsertAbove(low, x, s[1..], key, le);
    }
  }

  lemma {:induction false} InsertSorted<T, K(!new)>(x: T, s: seq<T>, key: T -> K, le: (K, K) -> bool)
    requires TotalOrder(le) && SortedBy(s, key, le)
    ensures SortedBy(Insert(x, s, key, le), key, le)
  {
    if s != [] && !le(key(x), key(s[0])) {
      InsertSorted(x, s[1..], key, le);
      InsertAbove(key(s[0]), x, s[1..], key, le);
    } else if s != [] {
      assert forall i | 0 <= i < |s| :: le(key(s[0]), key(s[i]));
    }
  }

  lemma {:induction false} SortSorts<T, K(!new)>(s: seq<T>, key: T -> K, le: (K, K) -> bool)
    requires TotalOrder(le)
    ensures SortedBy(Sort(s, key, le), key, le)
    ensures multiset(Sort(s, key, le)) == multiset(s)
    ensures |Sort(s, key, le)| == |s|
  {
    if s != [] {
      SortSorts(s[1..], key, le);
      InsertSorted(s[0], Sort(s[1..], key, le), key, le);
      InsertPermutes(s[0], Sort(s[1..], key, le), key, le);
      assert s == [s[0]] + s[1..];
      assert |multiset(Sort(s, key, le))| == |Sort(s, key, le)|;
    }
  }

  predicate DistinctKeys<T, K(==)>(s: seq<T>, key: T -> K) {
    forall i, j | 0 <= i < j < |s| :: key(s[i]) != key(s[j])
  }

  /** Equal keys mean equal elements. */
  predicate KeysIdentify<T(==), K(==)>(s: seq<T>, key: T -> K) {
    forall i, j | 0 <= i < j < |s| && key(s[i]) == key(s[j]) :: s[i] == s[j]
  }

  /** Two sorted arrangements of the same elements agree when keys identify them. */
  lemma {:induction false} SortedUnique<T, K(!new)>(a: seq<T>, b: seq<T>, key: T -> K, le: (K, K) -> bool)
    requires TotalOrder(le) && SortedBy(a, key, le) && SortedBy(b, key, le)
    requires multiset(a) == multiset(b) && KeysIdentify(a, key)
    ensures a == b
  {
    SameSize(a, b);
    if a != [] {
      FirstIsLeast(a, b, key, le);
      FirstIsLeast(b, a, key, le);
      SameKeySame(a, b[0], key);
      TailsMatch(a, b);
      SortedUnique(a[1..], b[1..], key, le);
      assert a == [a[0]] + a[1..] && b == [b[0]] + b[1..];
    }
  }

  lemma SameSize<T>(a: seq<T>, b: seq<T>)
    requires multiset(a) == multiset(b)
    ensures |a| == |b|
  {
    assert |multiset(a)| == |a| && |multiset(b)| == |b|;
  }

  lemma SameKeySame<T, K(!new)>(a: seq<T>, y: T, key: T -> K)
    requires a != [] && y in a && key(y) == key(a[0]) && KeysIdentify(a, key)
    ensures y == a[0]
  {
  }

  lemma TailsMatch<T>(a: seq<T>, b: seq<T>)
    requires a != [] && b != [] && a[0] == b[0] && multiset(a) == multiset(b)
    ensures multiset(a[1..]) == multiset(b[1..])
  {
    assert a == [a[0]] + a[1..] && b == [b[0]] + b[1..];
    assert multiset(a[1..]) == multiset(a) - multiset{a[0]} && multiset(b[1..]) == multiset(b) - multiset{a[0]};
  }

  lemma FirstIsLeast<T, K(!new)>(a: seq<T>, b: seq<T>, key: T -> K, le: (K, K) -> bool)
    requires TotalOrder(le) && SortedBy(a, key, le) && a != [] && b != [] && multiset(a) == multiset(b)
    ensures b[0] in a && le(key(a[0]), key(b[0]))
  {
    assert b[0] in multiset(a);
    var i :| 0 <= i < |a| && a[i] == b[0];
  }

  lemma TwiceInSequence<T>(s: seq<T>, i: nat, j: nat)
    requires i < j < |s| && s[i] == s[j]
    ensures multiset(s)[s[i]] >= 2
  {
    assert s == s[..i] + [s[i]] + s[i + 1..j] + [s[j]] + s[j + 1..];
  }

  lemma NotRepeated<T, K>(s: seq<T>, key: T -> K)
    requires s != [] && DistinctKeys(s, key)
    ensures s[0] !in s[1..]
  {
  }

  lemma {:induction false} OnceWhenDistinct<T, K>(s: seq<T>, key: T -> K, x: T)
    requires DistinctKeys(s, key)
    ensures multiset(s)[x] <= 1
  {
    if s != [] {
      OnceWhenDistinct(s[1..], key, x);
      assert s == [s[0]] + s[1..];
      NotRepeated(s, key);
    }
  }

  lemma PermutationKeepsDistinct<T, K(!new)>(a: seq<T>, b: seq<T>, key: T -> K)
    requires multiset(a) == multiset(b) && DistinctKeys(a, key)
    ensures DistinctKeys(b, key)
  {
    forall i, j | 0 <= i < j < |b| && key(b[i]) == key(b[j])
      ensures false
    {
      assert b[i] in multiset(a) && b[j] in multiset(a);
      assert b[i] in a && b[j] in a;
      assert b[i] == b[j];
      TwiceInSequence(b, i, j);
      OnceWhenDistinct(a, key, b[i]);
    }
  }

  lemma SameMembers<T>(a: seq<T>, b: seq<T>, x: T)
    requires multiset(a) == multiset(b)
    ensures x in a <==> x in b
  {
    assert x in multiset(a) <==> x in multiset(b);
  }

  lemma PermutationKeepsIdentity<T, K(!new)>(a: seq<T>, b: seq<T>, key: T -> K)
    requires multiset(a) == multiset(b) && KeysIdentify(a, key)
    ensures KeysIdentify(b, key)
  {
    forall i, j | 0 <= i < j < |b| && key(b[i]) == key(b[j])
      ensures b[i] == b[j]
    {
      assert b[i] in multiset(a) && b[j] in multiset(a);
      var k :| 0 <= k < |a| && a[k] == b[i];
      var l :| 0 <= l < |a| && a[l] == b[j];
    }
  }

  /** The sorted result does not depend on the input order. */
  lemma SortIgnoresOrder<T, K(!new)>(a: seq<T>, b: seq<T>, key: T -> K, le: (K, K) -> bool)
    requires TotalOrder(le) && multiset(a) == multiset(b) && KeysIdentify(a, key)
    ensures Sort(a, key, le) == Sort(b, key, le)
  {
    SortSorts(a, key, le);
    SortSorts(b, key, le);
    PermutationKeepsIdentity(a, Sort(a, key, le), key);
    SortedUnique(Sort(a, key, le), Sort(b, key, le), key, le);
  }

  // ------------------------------------------------------------ filtering a sort

  function Filter<T>(s: seq<T>, keep: T -> bool): seq<T> {
    if s == [] then []
    else if keep(s[0]) then [s[0]] + Filter(s[1..], keep)
    else Filter(s[1..], keep)
  }

  lemma {:induction false} FilterConcat<T>(a: seq<T>, b: seq<T>, keep: T -> bool)
    ensures Filter(a + b, keep) == Filter(a, keep) + Filter(b, keep)
  {
    if a == [] {
      assert a + b == b;
    } else {
      FilterConcat(a[1..], b, keep);
      assert (a + b)[0] == a[0] && (a + b)[1..] == a[1..] + b;
    }
  }

  lemma {:induction false} FilterMembers<T>(s: seq<T>, keep: T -> bool, x: T)
    ensures multiset(Filter(s, keep))[x] == if keep(x) then multiset(s)[x] else 0
  {
    if s != [] {
      FilterMembers(s[1..], keep, x);
      assert s == [s[0]] + s[1..];
    }
  }

  lemma {:induction false} FilterSorted<T, K>(s: seq<T>, keep: T -> bool, key: T -> K, le: (K, K) -> bool)
    requires SortedBy(s, key, le)
    ensures SortedBy(Filter(s, keep), key, le)
    ensures forall x <- Filter(s, keep) :: x in s && keep(x)
  {
    if s != [] {
      FilterSorted(s[1..], keep, key, le);
      forall x | x in Filter(s[1..], keep)
        ensures le(key(s[0]), key(x))
      {
        var i :| 0 <= i < |s[1..]| && s[1..][i] == x;
      }
    }
  }

  lemma {:induction false} FilterInsert<T, K(!new)>(x: T, s: seq<T>, keep: T -> bool, key: T -> K, le: (K, K) -> bool)
    requires TotalOrder(le) && SortedBy(s, key, le)
    ensures Filter(Insert(x, s, key, le), keep)
            == if keep(x) then Insert(x, Filter(s, keep), key, le) else Filter(s, keep)
  {
    if s == [] || le(key(x), key(s[0])) {
      FilterSorted(s, keep, key, le);
      assert ([x] + s)[1..] == s;
      if keep(x) && Filter(s, keep) != [] {
        FirstKept(s, keep, key, le);
      }
    } else {
      FilterInsert(x, s[1..], keep, key, le);
      assert ([s[0]] + Insert(x, s[1..], key, le))[1..] == Insert(x, s[1..], key, le);
      if keep(s[0]) && keep(x) {
        var kept := Filter(s[1..], keep);
        assert ([s[0]] + kept)[0] == s[0] && ([s[0]] + kept)[1..] == kept;
      } else if keep(x) && Filter(s, keep) != [] {
        FilterSorted(s, keep, key, le);
      }
    }
  }

  lemma FirstKept<T, K(!new)>(s: seq<T>, keep: T -> bool, key: T -> K, le: (K, K) -> bool)
    requires TotalOrder(le) && SortedBy(s, key, le) && Filter(s, keep) != []
    ensures le(key(s[0]), key(Filter(s, keep)[0]))
  {
    FilterSorted(s, keep, key, le);
    assert Filter(s, keep)[0] in s;
  }

  /** Sorting what is kept keeps what was sorted. */
  lemma {:induction false} FilterSort<T, K(!new)>(s: seq<T>, keep: T -> bool, key: T -> K, le: (K, K) -> bool)
    requires TotalOrder(le)
    ensures Filter(Sort(s, key, le), keep) == Sort(Filter(s, keep), key, le)
  {
    if s != [] {
      FilterSort(s[1..], keep, key, le);
      SortSorts(s[1..], key, le);
      FilterInsert(s[0], Sort(s[1..], key, le), keep, key, le);
      if keep(s[0]) {
        assert Filter(s, keep)[0] == s[0] && Filter(s, keep)[1..] == Filter(s[1..], keep);
      }
    }
  }

  lemma {:induction false} SortSameKey<T, K(!new)>(s: seq<T>, key: T -> K, le: (K, K) -> bool, k: K)
    requires TotalOrder(le) && forall x <- s :: key(x) == k
    ensures Sort(s, key, le) == s
  {
    if s != [] {
      assert s[0] in s && forall x <- s[1..] :: x in s;
      SortSameKey(s[1..], key, le, k);
      assert s[1..] != [] ==> s[1..][0] in s;
    }
  }

  function HasKey<T, K(==)>(key: T -> K, k: K): T -> bool {
    (x: T) => key(x) == k
  }

  /** Sorting is stable: the members with any one key keep their order. */
  lemma SortStable<T, K(!new)>(s: seq<T>, key: T -> K, le: (K, K) -> bool, k: K)
    requires TotalOrder(le)
    ensures Filter(Sort(s, key, le), HasKey(key, k)) == Filter(s, HasKey(key, k))
  {
    var keep := HasKey(key, k);
    FilterSort(s, keep, key, le);
    FilterKeeps(s, keep);
    SortSameKey(Filter(s, keep), key, le, k);
  }

  lemma {:induction false} FilterKeeps<T>(s: seq<T>, keep: T -> bool)
    ensures forall x <- Filter(s, keep) :: x in s && keep(x)
  {
    if s != [] {
      FilterKeeps(s[1..], keep);
    }
  }

  // -------------------------------------------------------------- mapping a sort

  function Map<T, U>(s: seq<T>, f: T -> U): (r: seq<U>)
    ensures |r| == |s| && forall i | 0 <= i < |s| :: r[i] == f(s[i])
  {
    seq(|s|, i requires 0 <= i < |s| => f(s[i]))
  }

  lemma MapConcat<T, U>(a: seq<T>, b: seq<T>, f: T -> U)
    ensures Map(a + b, f) == Map(a, f) + Map(b, f)
  {
  }

  function Without<T>(s: seq<T>, j: nat): seq<T>
    requires j < |s|
  {
    s[..j] + s[j + 1..]
  }

  lemma WithoutOne<T>(s: seq<T>, j: nat)
    requires j < |s|
    ensures multiset(s) == multiset{s[j]} + multiset(Without(s, j))
    ensures multiset(Without(s, j)) == multiset(s) - multiset{s[j]}
  {
    assert s == s[..j] + [s[j]] + s[j + 1..];
  }

  lemma MapWithout<T, U>(s: seq<T>, j: nat, f: T -> U)
    requires j < |s|
    ensures multiset(Map(s, f)) == multiset{f(s[j])} + multiset(Map(Without(s, j), f))
  {
    WithoutOne(Map(s, f), j);
    assert Map(Without(s, j), f) == Without(Map(s, f), j);
  }

  lemma {:induction false} MapPermutes<T, U>(a: seq<T>, b: seq<T>, f: T -> U)
    requires multiset(a) == multiset(b)
    ensures multiset(Map(a, f)) == multiset(Map(b, f))
  {
    SameSize(a, b);
    if a != [] {
      SameMembers(a, b, a[0]);
      var j :| 0 <= j < |b| && b[j] == a[0];
      WithoutOne(a, 0);
      WithoutOne(b, j);
      MapPermutes(Without(a, 0), Without(b, j), f);
      MapWithout(a, 0, f);
      MapWithout(b, j, f);
    }
  }

  /** `f` carries the order of `x` and the elements of `s` over. */
  ghost predicate Carries<T, U, K, L>(x: T, s: seq<T>, f: T -> U, key: T -> K, le: (K, K) -> bool, key': U -> L,
                                      le': (L, L) -> bool) {
    forall y <- s :: le(key(x), key(y)) <==> le'(key'(f(x)), key'(f(y)))
  }

  lemma {:induction false} MapInsert<T, U, K, L>(x: T, s: seq<T>, f: T -> U, key: T -> K, le: (K, K) -> bool,
                                                 key': U -> L, le': (L, L) -> bool)
    requires Carries(x, s, f, key, le, key', le')
    ensures Map(Insert(x, s, key, le), f) == Insert(f(x), Map(s, f), key', le')
  {
    if s != [] {
      assert s[0] in s;
      MapInsert(x, s[1..], f, key, le, key', le');
      assert Map(s, f)[1..] == Map(s[1..], f);
    }
  }

  /** Mapping a sorted sequence sorts the mapped one, when the order carries over. */
  lemma {:induction false} MapSort<T, U, K(!new), L>(s: seq<T>, f: T -> U, key: T -> K, le: (K, K) -> bool,
                                                     key': U -> L, le': (L, L) -> bool)
    requires TotalOrder(le) && forall x <- s :: Carries(x, s, f, key, le, key', le')
    ensures Map(Sort(s, key, le), f) == Sort(Map(s, f), key', le')
  {
    if s != [] {
      assert forall x <- s[1..] :: x in s;
      forall x <- s[1..]
        ensures Carries(x, s[1..], f, key, le, key', le')
      {
        assert Carries(x, s, f, key, le, key', le');
      }
      MapSort(s[1..], f, key, le, key', le');
      SortSorts(s[1..], key, le);
      var sorted := Sort(s[1..], key, le);
      assert s[0] in s;
      forall y <- sorted
        ensures y in s
      {
        assert y in multiset(sorted);
      }
      MapInsert(s[0], sorted, f, key, le, key', le');
      assert Map(s, f)[1..] == Map(s[1..], f);
    }
  }

  lemma {:induction false} FilterMap<T, U>(s: seq<T>, f: T -> U, keep: T -> bool, keep': U -> bool)
    requires forall x <- s :: keep(x) <==> keep'(f(x))
    ensures Filter(Map(s, f), keep') == Map(Filter(s, keep), f)
  {
    if s != [] {
      assert forall x <- s[1..] :: x in s;
      FilterMap(s[1..], f, keep, keep');
      assert Map(s, f)[1..] == Map(s[1..], f);
      assert s[0] in s;
    }
  }

  lemma {:induction false} FilterAll<T>(s: seq<T>, keep: T -> bool)
    ensures (forall x <- s :: keep(x)) ==> Filter(s, keep) == s
    ensures (forall x <- s :: !keep(x)) ==> Filter(s, keep) == []
  {
    if s != [] {
      FilterAll(s[1..], keep);
      assert s[0] in s && forall x <- s[1..] :: x in s;
    }
  }

  /** Filtering twice, when the second filter implies the first or excludes it. */
  lemma {:induction false} FilterTwice<T>(s: seq<T>, first: T -> bool, second: T -> bool)
    ensures (forall x <- s :: second(x) ==> first(x)) ==> Filter(Filter(s, first), second) == Filter(s, second)
    ensures (forall x <- s :: second(x) ==> !first(x)) ==> Filter(Filter(s, first), second) == []
  {
    if s != [] {
      FilterTwice(s[1..], first, second);
      assert s[0] in s && forall x <- s[1..] :: x in s;
      if first(s[0]) {
        var kept := Filter(s[1..], first);
        assert ([s[0]] + kept)[0] == s[0] && ([s[0]] + kept)[1..] == kept;
      }
    }
  }
}
