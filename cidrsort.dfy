/**
  `sort_entries_by_cidr` (`sort_cidr_notation` in the older script): the
  items of a dict sorted by `(prefixlen, network_address)` of the network each
  key names. Python's `sorted` is stable, so it is modelled as an insertion
  sort that puts an item before the items with an equal key. The sort itself
  is written for any key function; `CidrKey` is the one the scripts use.
 */
module CidrSort {
  import opened Wrappers
  import opened Seqs
  import opened Ipv4
  import opened OrderedDict

  /** Every key is accepted by `ip_network(key, strict=False)`. */
  predicate Sortable(d: Items)
  {
    forall p :: p in d ==> ParseNetwork(p.0).Some?
  }

  /**
    `sort_key(entry)`, the pair `(prefixlen, network_address)`. The sort is
    only applied to `Sortable` dicts, so the fallback value is never used.
   */
  function CidrKey(entry: string): (n: Network)
    ensures ParseNetwork(entry).Some? ==> n == ParseNetwork(entry).value && Valid(n)
  {
    match ParseNetwork(entry)
    case Some(n) => n
    case None => Network(0, 0)
  }

  /** Python's tuple comparison `<=` on `(prefixlen, network_address)`. */
  predicate KeyLe(a: Network, b: Network)
  {
    a.prefix < b.prefix || (a.prefix == b.prefix && a.addr <= b.addr)
  }

  lemma KeyLeTotalOrder(a: Network, b: Network, c: Network)
    ensures KeyLe(a, a)
    ensures KeyLe(a, b) || KeyLe(b, a)
    ensures KeyLe(a, b) && KeyLe(b, a) ==> a == b
    ensures KeyLe(a, b) && KeyLe(b, c) ==> KeyLe(a, c)
  {
  }

  predicate SortedBy(d: Items, key: string -> Network)
  {
    forall i, j :: 0 <= i < j < |d| ==> KeyLe(key(d[i].0), key(d[j].0))
  }

  lemma SortedTail(d: Items, key: string -> Network)
    requires d != [] && SortedBy(d, key)
    ensures SortedBy(d[1..], key)
    ensures forall p :: p in d[1..] ==> KeyLe(key(d[0].0), key(p.0))
  {
    forall i, j | 0 <= i < j < |d[1..]|
      ensures KeyLe(key(d[1..][i].0), key(d[1..][j].0))
    {
      assert d[1..][i] == d[i + 1] && d[1..][j] == d[j + 1];
    }
    forall p | p in d[1..]
      ensures KeyLe(key(d[0].0), key(p.0))
    {
      var i :| 0 <= i < |d[1..]| && d[1..][i] == p;
      assert d[i + 1] == p;
    }
  }

  lemma SortedCons(x: (string, string), d: Items, key: string -> Network)
    requires SortedBy(d, key) && forall p :: p in d ==> KeyLe(key(x.0), key(p.0))
    ensures SortedBy([x] + d, key)
  {
    var r := [x] + d;
    forall i, j | 0 <= i < j < |r|
      ensures KeyLe(key(r[i].0), key(r[j].0))
    {
      assert r[j] == d[j - 1];
      if i > 0 {
        assert r[i] == d[i - 1];
      } else {
        assert d[j - 1] in d;
      }
    }
  }

  /** Insert `x` before the first item whose key is not below its own. */
  function Insert(x: (string, string), s: Items, key: string -> Network): (r: Items)
    ensures multiset(r) == multiset(s) + multiset{x}
  {
    if s == [] then [x]
    else if KeyLe(key(x.0), key(s[0].0)) then [x] + s
    else
      assert s == [s[0]] + s[1..];
      [s[0]] + Insert(x, s[1..], key)
  }

  lemma {:induction false} InsertSorted(x: (string, string), s: Items, key: string -> Network)
    requires SortedBy(s, key)
    ensures SortedBy(Insert(x, s, key), key)
  {
    if s != [] {
      SortedTail(s, key);
      if KeyLe(key(x.0), key(s[0].0)) {
        forall p | p in s
          ensures KeyLe(key(x.0), key(p.0))
        {
          if p != s[0] {
            assert p in s[1..] by {
              assert s == [s[0]] + s[1..];
            }
          }
        }
        SortedCons(x, s, key);
      } else {
        InsertSorted(x, s[1..], key);
        var rest := Insert(x, s[1..], key);
        forall p | p in rest
          ensures KeyLe(key(s[0].0), key(p.0))
        {
          assert p in multiset(rest);
        }
        SortedCons(s[0], rest, key);
      }
    }
  }

  /** `sorted(items, key=...)` for a key function on the dict keys. */
  function SortBy(d: Items, key: string -> Network): (r: Items)
    ensures multiset(r) == multiset(d)
  {
    if d == [] then []
    else
      assert d == [d[0]] + d[1..];
      Insert(d[0], SortBy(d[1..], key), key)
  }

  lemma {:induction false} SortBySorted(d: Items, key: string -> Network)
    ensures SortedBy(SortBy(d, key), key)
  {
    if d != [] {
      SortBySorted(d[1..], key);
      InsertSorted(d[0], SortBy(d[1..], key), key);
    }
  }

  /** The items with sort key `n`, in their order. */
  function WithKey(d: Items, n: Network, key: string -> Network): (r: Items)
    ensures forall p :: p in r <==> p in d && key(p.0) == n
  {
    if d == [] then []
    else
      assert d == [d[0]] + d[1..];
      (if key(d[0].0) == n then [d[0]] else []) + WithKey(d[1..], n, key)
  }

  lemma {:induction false} InsertWithKey(x: (string, string), s: Items, n: Network, key: string -> Network)
    ensures WithKey(Insert(x, s, key), n, key) == (if key(x.0) == n then [x] else []) + WithKey(s, n, key)
  {
    if s == [] {
      assert Insert(x, s, key) == [x];
      WithKeyCons(x, [], n, key);
    } else if KeyLe(key(x.0), key(s[0].0)) {
      assert Insert(x, s, key) == [x] + s;
      WithKeyCons(x, s, n, key);
    } else {
      InsertWithKey(x, s[1..], n, key);
      assert key(s[0].0) != key(x.0);
      assert Insert(x, s, key) == [s[0]] + Insert(x, s[1..], key);
      InsertWithKeyAfter(x, s, n, key);
    }
  }

  /** The step of `InsertWithKey` where `x` goes past the first item. */
  lemma InsertWithKeyAfter(x: (string, string), s: Items, n: Network, key: string -> Network)
    requires s != [] && key(s[0].0) != key(x.0)
    requires Insert(x, s, key) == [s[0]] + Insert(x, s[1..], key)
    requires WithKey(Insert(x, s[1..], key), n, key) == (if key(x.0) == n then [x] else []) + WithKey(s[1..], n, key)
    ensures WithKey(Insert(x, s, key), n, key) == (if key(x.0) == n then [x] else []) + WithKey(s, n, key)
  {
    var xs := if key(x.0) == n then [x] else [];
    var ys := if key(s[0].0) == n then [s[0]] else [];
    var w := WithKey(s[1..], n, key);
    var rest := Insert(x, s[1..], key);
    WithKeyCons(s[0], rest, n, key);
    WithKeyCons(s[0], s[1..], n, key);
    assert s == [s[0]] + s[1..];
    SwapEmpty(xs, ys, w);
  }

  lemma WithKeyCons(x: (string, string), s: Items, n: Network, key: string -> Network)
    ensures WithKey([x] + s, n, key) == (if key(x.0) == n then [x] else []) + WithKey(s, n, key)
  {
    assert ([x] + s)[1..] == s;
  }

  /**
    The sort is stable: the items sharing one sort key come out in the
    order they went in.
   */
  lemma {:induction false} SortByStable(d: Items, n: Network, key: string -> Network)
    ensures WithKey(SortBy(d, key), n, key) == WithKey(d, n, key)
  {
    if d != [] {
      SortByStable(d[1..], n, key);
      InsertWithKey(d[0], SortBy(d[1..], key), n, key);
    }
  }

  /** Items already in key order are left as they are. */
  lemma {:induction false} SortBySortedIsIdentity(d: Items, key: string -> Network)
    requires SortedBy(d, key)
    ensures SortBy(d, key) == d
  {
    if d != [] {
      SortedTail(d, key);
      SortBySortedIsIdentity(d[1..], key);
      if |d| > 1 {
        assert d[1] in d[1..];
      }
    }
  }

  /**
    Sorted order and stability determine the result: two key-sorted lists
    with the same items under every key are equal. So `SortBy` agrees with
    any stable sort, Python's included.
   */
  lemma {:induction false} SortedStableUnique(a: Items, b: Items, key: string -> Network)
    requires SortedBy(a, key) && SortedBy(b, key)
    requires forall n :: WithKey(a, n, key) == WithKey(b, n, key)
    ensures a == b
  {
    if a != [] {
      assert a[0] in WithKey(b, key(a[0].0), key);
    }
    if b != [] {
      assert b[0] in WithKey(a, key(b[0].0), key);
    }
    if a != [] && b != [] {
      var ka, kb := key(a[0].0), key(b[0].0);
      assert a[0] in WithKey(b, ka, key);
      assert b[0] in WithKey(a, kb, key);
      SortedTail(a, key);
      SortedTail(b, key);
      SortedHeadLeast(b, a[0], key);
      SortedHeadLeast(a, b[0], key);
      KeyLeTotalOrder(ka, kb, ka);
      assert WithKey(a, ka, key)[0] == a[0] && WithKey(b, ka, key)[0] == b[0];
      assert a[0] == b[0];
      forall n
        ensures WithKey(a[1..], n, key) == WithKey(b[1..], n, key)
      {
        assert WithKey(a, n, key) == (if ka == n then [a[0]] else []) + WithKey(a[1..], n, key);
        assert WithKey(b, n, key) == (if ka == n then [b[0]] else []) + WithKey(b[1..], n, key);
        var pre := if ka == n then [a[0]] else [];
        var x, y := WithKey(a[1..], n, key), WithKey(b[1..], n, key);
        assert pre + x == pre + y;
        assert x == (pre + x)[|pre|..] && y == (pre + y)[|pre|..];
      }
      SortedStableUnique(a[1..], b[1..], key);
      assert a == [a[0]] + a[1..] && b == [b[0]] + b[1..];
    }
  }

  lemma SortedHeadLeast(d: Items, p: (string, string), key: string -> Network)
    requires SortedBy(d, key) && p in d
    ensures KeyLe(key(d[0].0), key(p.0))
  {
    var j :| 0 <= j < |d| && d[j] == p;
    if j > 0 {
      assert KeyLe(key(d[0].0), key(d[j].0));
    }
  }

  /**
    `dict(sorted(entries.items(), key=lambda item: sort_key(item[0])))`:
    the same items, in `(prefixlen, network_address)` order, ties in input order.
   */
  function SortEntriesByCidr(d: Items): (r: Items)
    requires Sortable(d)
    ensures multiset(r) == multiset(d)
    ensures SortedBy(r, CidrKey)
    ensures forall n :: WithKey(r, n, CidrKey) == WithKey(d, n, CidrKey)
  {
    SortBySorted(d, CidrKey);
    forall n
      ensures WithKey(SortBy(d, CidrKey), n, CidrKey) == WithKey(d, n, CidrKey)
    {
      SortByStable(d, n, CidrKey);
    }
    SortBy(d, CidrKey)
  }

  /**
    Any key-sorted list holding, key by key, the input's items in input
    order is the result.
   */
  lemma SortEntriesByCidrUnique(d: Items, r: Items)
    requires Sortable(d) && SortedBy(r, CidrKey)
    requires forall n :: WithKey(r, n, CidrKey) == WithKey(d, n, CidrKey)
    ensures r == SortEntriesByCidr(d)
  {
    SortedStableUnique(r, SortEntriesByCidr(d), CidrKey);
  }

  /** Sorting twice gives the same dict as sorting once. */
  lemma SortIdempotent(d: Items)
    requires Sortable(d)
    ensures Sortable(SortEntriesByCidr(d))
    ensures SortEntriesByCidr(SortEntriesByCidr(d)) == SortEntriesByCidr(d)
  {
    var r := SortEntriesByCidr(d);
    forall p | p in r
      ensures ParseNetwork(p.0).Some?
    {
      assert p in multiset(r);
    }
    SortBySortedIsIdentity(r, CidrKey);
  }

  /** Sorting keeps every key with its value, and keeps keys unique. */
  lemma SortKeepsDict(d: Items)
    requires Sortable(d) && UniqueKeys(d)
    ensures KeySet(SortEntriesByCidr(d)) == KeySet(d)
    ensures UniqueKeys(SortEntriesByCidr(d))
    ensures forall k :: k in KeySet(d) ==> Get(SortEntriesByCidr(d), k) == Get(d, k)
  {
    var r := SortEntriesByCidr(d);
    forall p
      ensures p in r <==> p in d
    {
      assert p in r <==> p in multiset(r);
      assert p in d <==> p in multiset(d);
    }
    forall i, j | 0 <= i < j < |r|
      ensures r[i].0 != r[j].0
    {
      MultisetDistinct(d, r, i, j);
    }
    forall k | k in KeySet(d)
      ensures Get(r, k) == Get(d, k)
    {
      UniqueGet(r, k);
      UniqueGet(d, k);
    }
  }

  /** In a dict the value of a key is the only one paired with it. */
  lemma UniqueGet(d: Items, k: string)
    requires UniqueKeys(d) && k in KeySet(d)
    ensures forall v :: (k, v) in d ==> v == Get(d, k)
  {
    forall v | (k, v) in d
      ensures v == Get(d, k)
    {
      var i :| 0 <= i < |d| && d[i] == (k, v);
      var j :| 0 <= j < |d| && d[j] == (k, Get(d, k));
      assert i == j;
    }
  }

  lemma MultisetDistinct(d: Items, r: Items, i: nat, j: nat)
    requires UniqueKeys(d) && multiset(r) == multiset(d) && i < j < |r|
    ensures r[i].0 != r[j].0
  {
    var a, b := r[i], r[j];
    assert a in multiset(d) && b in multiset(d);
    var x :| 0 <= x < |d| && d[x] == a;
    var y :| 0 <= y < |d| && d[y] == b;
    UniqueCount(d, a);
    assert r == r[..i] + [a] + r[i + 1..];
    assert r[i + 1..][j - i - 1] == b;
    assert a == b ==> multiset(r)[a] >= 2 by {
      assert multiset(r) == multiset(r[..i]) + multiset{a} + multiset(r[i + 1..]);
    }
  }

  lemma {:induction false} UniqueCount(d: Items, a: (string, string))
    requires UniqueKeys(d)
    ensures multiset(d)[a] <= 1
  {
    if d != [] {
      assert d == [d[0]] + d[1..];
      UniqueTail(d);
      UniqueCount(d[1..], a);
      assert d[0] == a ==> a !in d[1..];
    }
  }
}
