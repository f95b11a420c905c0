/**
  A Python `dict[str, str]` as the list of its `items()`: Python dicts keep
  insertion order, assigning to a present key keeps its position, and `del`
  removes the key's one item.
 */
module OrderedDict {

  type Items = seq<(string, string)>

  function KeySet(d: Items): set<string>
  {
    set p | p in d :: p.0
  }

  /** No key occurs twice, as in every dict. */
  predicate UniqueKeys(d: Items)
  {
    forall i, j :: 0 <= i < j < |d| ==> d[i].0 != d[j].0
  }

  /** `d[k]`: the value of the first item with key `k`. */
  function Get(d: Items, k: string): (v: string)
    requires k in KeySet(d)
    ensures (k, v) in d
  {
    if d[0].0 == k then d[0].1
    else
      assert forall p :: p in d && p != d[0] ==> p in d[1..];
      Get(d[1..], k)
  }

  /** Splitting off the first item of a dict leaves a dict without its key. */
  lemma UniqueTail(d: Items)
    requires d != [] && UniqueKeys(d)
    ensures UniqueKeys(d[1..]) && d[0].0 !in KeySet(d[1..])
  {
    forall p | p in d[1..]
      ensures p.0 != d[0].0
    {
      var i :| 0 <= i < |d[1..]| && d[1..][i] == p;
      assert d[i + 1] == p;
    }
  }

  lemma KeySetCons(d: Items)
    requires d != []
    ensures KeySet(d) == {d[0].0} + KeySet(d[1..])
  {
    assert d == [d[0]] + d[1..];
  }

  lemma KeySetSnoc(init: Items, last: (string, string))
    ensures KeySet(init + [last]) == KeySet(init) + {last.0}
  {
    var d := init + [last];
    assert d[|d| - 1] == last;
    forall p | p in d
      ensures p in init || p == last
    {
    }
  }

  lemma UniqueCons(x: (string, string), d: Items)
    requires UniqueKeys(d) && x.0 !in KeySet(d)
    ensures UniqueKeys([x] + d)
  {
    var r := [x] + d;
    forall i, j | 0 <= i < j < |r|
      ensures r[i].0 != r[j].0
    {
      assert r[j] == d[j - 1];
      if i > 0 {
        assert r[i] == d[i - 1];
      } else {
        assert d[j - 1] in d;
      }
    }
  }

  /** `d[k] = v`: overwrite in place when `k` is present, append otherwise. */
  function Put(d: Items, k: string, v: string): (r: Items)
    ensures KeySet(r) == KeySet(d) + {k}
    ensures k !in KeySet(d) ==> r == d + [(k, v)]
  {
    if d == [] then [(k, v)]
    else if d[0].0 == k then
      KeySetCons(d);
      KeySetCons([(k, v)] + d[1..]);
      [(k, v)] + d[1..]
    else
      var rest := Put(d[1..], k, v);
      KeySetCons(d);
      KeySetCons([d[0]] + rest);
      assert d == [d[0]] + d[1..];
      [d[0]] + rest
  }

  /** After `d[k] = v`, `k` maps to `v`, every other key keeps its value, and keys stay unique. */
  lemma {:induction false} PutGet(d: Items, k: string, v: string)
    ensures Get(Put(d, k, v), k) == v
    ensures forall j :: j in KeySet(d) && j != k ==> Get(Put(d, k, v), j) == Get(d, j)
    ensures UniqueKeys(d) ==> UniqueKeys(Put(d, k, v))
  {
    if d != [] {
      KeySetCons(d);
      if d[0].0 == k {
        if UniqueKeys(d) {
          UniqueTail(d);
          UniqueCons((k, v), d[1..]);
        }
      } else {
        PutGet(d[1..], k, v);
        if UniqueKeys(d) {
          UniqueTail(d);
          UniqueCons(d[0], Put(d[1..], k, v));
        }
      }
    }
  }

  /** `del d[k]`. */
  function Delete(d: Items, k: string): (r: Items)
    ensures forall p :: p in r <==> p in d && p.0 != k
  {
    if d == [] then []
    else if d[0].0 == k then Delete(d[1..], k)
    else [d[0]] + Delete(d[1..], k)
  }

  /** The items whose key is in `keep`, in their order. */
  function Restrict(d: Items, keep: set<string>): (r: Items)
    ensures forall p :: p in r <==> p in d && p.0 in keep
  {
    if d == [] then []
    else if d[0].0 in keep then [d[0]] + Restrict(d[1..], keep)
    else Restrict(d[1..], keep)
  }

  /** Keeping only some keys keeps them unique and keeps their values. */
  lemma {:induction false} RestrictGet(d: Items, keep: set<string>)
    ensures KeySet(Restrict(d, keep)) == KeySet(d) * keep
    ensures UniqueKeys(d) ==> UniqueKeys(Restrict(d, keep))
    ensures UniqueKeys(d) ==> forall j :: j in KeySet(d) * keep ==> Get(Restrict(d, keep), j) == Get(d, j)
  {
    if d != [] {
      RestrictGet(d[1..], keep);
      KeySetCons(d);
      var r := Restrict(d, keep);
      if UniqueKeys(d) {
        UniqueTail(d);
        if d[0].0 in keep {
          UniqueCons(d[0], Restrict(d[1..], keep));
          KeySetCons(r);
        }
      }
    }
  }

  /** Deleting one key that is not kept from a restriction narrows it. */
  lemma {:induction false} RestrictDelete(d: Items, keep: set<string>, k: string)
    ensures Delete(Restrict(d, keep), k) == Restrict(d, keep - {k})
  {
    if d != [] {
      RestrictDelete(d[1..], keep, k);
    }
  }

  /** `{**a, **b}`: the items of `a`, then every item of `b` assigned in turn. */
  function Merge(a: Items, b: Items): (r: Items)
    ensures KeySet(r) == KeySet(a) + KeySet(b)
    ensures UniqueKeys(a) ==> UniqueKeys(r)
  {
    if b == [] then a
    else
      var init, last := b[..|b| - 1], b[|b| - 1];
      assert KeySet(b) == KeySet(init) + {last.0} by {
        assert b == init + [last];
        KeySetSnoc(init, last);
      }
      PutGet(Merge(a, init), last.0, last.1);
      Put(Merge(a, init), last.0, last.1)
  }

  /** In `{**a, **b}` a key of `b` has its value from `b`, any other key its value from `a`. */
  lemma {:induction false} MergeGet(a: Items, b: Items, k: string)
    requires UniqueKeys(b) && k in KeySet(a) + KeySet(b)
    ensures k in KeySet(Merge(a, b))
    ensures Get(Merge(a, b), k) == if k in KeySet(b) then Get(b, k) else Get(a, k)
  {
    if b != [] {
      var init, last := b[..|b| - 1], b[|b| - 1];
      var m := Merge(a, init);
      assert b == init + [last];
      KeySetSnoc(init, last);
      assert Merge(a, b) == Put(m, last.0, last.1);
      PutGet(m, last.0, last.1);
      if k == last.0 {
        GetLast(init, last);
      } else {
        UniquePrefix(init, last);
        MergeGet(a, init, k);
        if k in KeySet(init) {
          GetPrefix(init, last, k);
        }
      }
    }
  }

  lemma UniquePrefix(init: Items, last: (string, string))
    requires UniqueKeys(init + [last])
    ensures UniqueKeys(init)
  {
    var d := init + [last];
    forall i, j | 0 <= i < j < |init|
      ensures init[i].0 != init[j].0
    {
      assert d[i] == init[i] && d[j] == init[j];
    }
  }

  lemma {:induction false} GetLast(init: Items, last: (string, string))
    requires UniqueKeys(init + [last])
    ensures last.0 in KeySet(init + [last]) && Get(init + [last], last.0) == last.1
  {
    var d := init + [last];
    assert d[|d| - 1] == last;
    assert last in d;
    if init != [] {
      assert d[1..] == init[1..] + [last];
      assert init[0] == d[0];
      assert init[0].0 != last.0;
      assert UniqueKeys(init[1..] + [last]) by {
        forall i, j | 0 <= i < j < |d[1..]|
          ensures d[1..][i].0 != d[1..][j].0
        {
          assert d[1..][i] == d[i + 1] && d[1..][j] == d[j + 1];
        }
      }
      GetLast(init[1..], last);
    }
  }

  lemma {:induction false} GetPrefix(init: Items, last: (string, string), k: string)
    requires k in KeySet(init)
    ensures k in KeySet(init + [last]) && Get(init + [last], k) == Get(init, k)
  {
    var d := init + [last];
    assert init[0] == d[0];
    var p :| p in init && p.0 == k;
    assert p in d;
    if init[0].0 != k {
      assert d[1..] == init[1..] + [last];
      assert p in init[1..] by {
        var i :| 0 <= i < |init| && init[i] == p;
        assert i != 0;
        assert init[1..][i - 1] == p;
      }
      GetPrefix(init[1..], last, k);
    }
  }
}
