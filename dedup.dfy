/** `remove_duplicates`: `sorted(set(addresses))`. */
module Dedup {
  import opened Seqs
  import opened PyStr

  function Elems(s: seq<string>): set<string>
  {
    set x | x in s
  }

  /** Every element is smaller (as Python compares strings) than every later one. */
  predicate StrictlyIncreasing(s: seq<string>)
  {
    forall i, j :: 0 <= i < j < |s| ==> StrLt(s[i], s[j])
  }

  /** Inserts `x` into a strictly increasing list unless it is already there. */
  function InsertUnique(x: string, s: seq<string>): seq<string>
  {
    if s == [] then [x]
    else if x == s[0] then s
    else if StrLt(x, s[0]) then [x] + s
    else [s[0]] + InsertUnique(x, s[1..])
  }

  lemma NonEmptyElems(s: seq<string>)
    ensures s != [] ==> s[0] in Elems(s)
    ensures Elems(s) == {} ==> s == []
  {
    if s != [] {
      assert s[0] in Elems(s);
    }
  }

  lemma ConsElems(x: string, s: seq<string>)
    ensures Elems([x] + s) == {x} + Elems(s)
  {
    assert forall y :: y in [x] + s <==> y == x || y in s;
  }

  lemma PrependSmallest(x: string, s: seq<string>)
    requires StrictlyIncreasing(s) && s != [] && StrLt(x, s[0])
    ensures StrictlyIncreasing([x] + s)
  {
    var r := [x] + s;
    forall i, j | 0 <= i < j < |r|
      ensures StrLt(r[i], r[j])
    {
      if i == 0 && j > 1 {
        StrLtTransitive(x, s[0], s[j - 1]);
      }
    }
  }

  lemma PrependBelowAll(x: string, s: seq<string>)
    requires StrictlyIncreasing(s) && forall y :: y in s ==> StrLt(x, y)
    ensures StrictlyIncreasing([x] + s)
  {
    var r := [x] + s;
    forall i, j | 0 <= i < j < |r|
      ensures StrLt(r[i], r[j])
    {
      if i == 0 {
        assert r[j] in s;
      }
    }
  }

  lemma {:induction false} InsertUniqueSorted(x: string, s: seq<string>)
    requires StrictlyIncreasing(s)
    ensures StrictlyIncreasing(InsertUnique(x, s))
    ensures Elems(InsertUnique(x, s)) == Elems(s) + {x}
  {
    if s == [] {
    } else if x == s[0] {
      NonEmptyElems(s);
    } else if StrLt(x, s[0]) {
      PrependSmallest(x, s);
      ConsElems(x, s);
    } else {
      StrLtTotal(x, s[0]);
      InsertUniqueSorted(x, s[1..]);
      var rest := InsertUnique(x, s[1..]);
      assert forall y :: y in s[1..] ==> StrLt(s[0], y);
      assert forall y :: y in rest ==> y in Elems(rest);
      PrependBelowAll(s[0], rest);
      ConsElems(s[0], rest);
      ConsElems(s[0], s[1..]);
      assert s == [s[0]] + s[1..];
    }
  }

  /**
    `sorted(set(addresses))`: strictly increasing, so free of duplicates, and
    holding exactly the strings of the input.
   */
  function RemoveDuplicates(addresses: seq<string>): (r: seq<string>)
    ensures StrictlyIncreasing(r)
    ensures Elems(r) == Elems(addresses)
  {
    if addresses == [] then []
    else
      var init, last := addresses[..|addresses| - 1], addresses[|addresses| - 1];
      var r := RemoveDuplicates(init);
      InsertUniqueSorted(last, r);
      assert addresses == init + [last];
      InsertUnique(last, r)
  }

  /** Two strictly increasing lists with the same elements are the same list. */
  lemma {:induction false} StrictlyIncreasingUnique(a: seq<string>, b: seq<string>)
    requires StrictlyIncreasing(a) && StrictlyIncreasing(b) && Elems(a) == Elems(b)
    ensures a == b
    decreases |a|
  {
    NonEmptyElems(b);
    if a != [] {
      assert a[0] in Elems(b);
      assert b != [];
      assert b[0] in Elems(a);
      var i :| 0 <= i < |a| && a[i] == b[0];
      var j :| 0 <= j < |b| && b[j] == a[0];
      if i > 0 && j > 0 {
        StrLtTransitive(a[0], a[i], b[j]);
        StrLtIrreflexive(a[0]);
      } else if i > 0 {
        StrLtIrreflexive(a[0]);
      } else if j > 0 {
        StrLtIrreflexive(b[0]);
      }
      assert a[0] == b[0];
      forall x | x in a[1..]
        ensures x in b[1..]
      {
        var k :| 1 <= k < |a| && a[k] == x;
        StrLtIrreflexive(x);
        assert x in Elems(b);
      }
      forall x | x in b[1..]
        ensures x in a[1..]
      {
        var k :| 1 <= k < |b| && b[k] == x;
        StrLtIrreflexive(x);
        assert x in Elems(a);
      }
      assert Elems(a[1..]) == Elems(b[1..]);
      StrictlyIncreasingUnique(a[1..], b[1..]);
      assert a == [a[0]] + a[1..] && b == [b[0]] + b[1..];
    }
  }

  /** A strictly increasing list repeats no element. */
  lemma StrictlyIncreasingDistinct(s: seq<string>)
    requires StrictlyIncreasing(s)
    ensures Distinct(s)
  {
    forall i, j | 0 <= i < j < |s|
      ensures s[i] != s[j]
    {
      StrLtIrreflexive(s[i]);
    }
  }

  /** Removing duplicates twice is removing them once. */
  lemma RemoveDuplicatesIdempotent(addresses: seq<string>)
    ensures RemoveDuplicates(RemoveDuplicates(addresses)) == RemoveDuplicates(addresses)
  {
    var once := RemoveDuplicates(addresses);
    StrictlyIncreasingUnique(RemoveDuplicates(once), once);
  }
}
