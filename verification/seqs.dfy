/**
  Generic sequence operations the blog model is built from. The blog's
  persistence layer answers every query with a filter, a lookup, a count or
  an ordering over a table; these functions are those primitives over
  Dafny sequences, each with the contract the query layer promises.
 */
module Seqs {

  /** A nullable reference or a lookup that may fail. */
  datatype Option<+T> = None | Some(value: T)

  /** The elements of `xs` that satisfy `keep`; the query layer keeps
      table order, which no contract here relies on. */
  function Filter<T(!new)>(xs: seq<T>, keep: T -> bool): (r: seq<T>)
    ensures |r| <= |xs|
    ensures forall x :: x in r <==> x in xs && keep(x)
    ensures forall i :: 0 <= i < |r| ==> keep(r[i])
    decreases |xs|
  {
    if xs == [] then []
    else if keep(xs[0]) then [xs[0]] + Filter(xs[1..], keep)
    else Filter(xs[1..], keep)
  }

  /** Filtering distributes over concatenation. */
  lemma {:induction false} FilterAppend<T(!new)>(xs: seq<T>, ys: seq<T>, keep: T -> bool)
    ensures Filter(xs + ys, keep) == Filter(xs, keep) + Filter(ys, keep)
    decreases |xs|
  {
    if xs == [] {
      assert xs + ys == ys;
    } else {
      assert (xs + ys)[0] == xs[0];
      assert (xs + ys)[1..] == xs[1..] + ys;
      FilterAppend(xs[1..], ys, keep);
    }
  }

  /** The first element of `xs` that satisfies `test`, if there is one. */
  function Find<T(!new)>(xs: seq<T>, test: T -> bool): (r: Option<T>)
    ensures r.Some? ==> r.value in xs && test(r.value)
    ensures r.Some? ==> exists i :: 0 <= i < |xs| && xs[i] == r.value && NoneBefore(xs, test, i)
    ensures r.None? <==> forall x :: x in xs ==> !test(x)
    decreases |xs|
  {
    if xs == [] then None
    else if test(xs[0]) then
      assert NoneBefore(xs, test, 0);
      Some(xs[0])
    else
      var r := Find(xs[1..], test);
      assert r.Some? ==> exists i :: 0 <= i < |xs| && xs[i] == r.value && NoneBefore(xs, test, i) by {
        if r.Some? {
          var i :| 0 <= i < |xs[1..]| && xs[1..][i] == r.value && NoneBefore(xs[1..], test, i);
          assert xs[i + 1] == r.value;
          forall j | 0 <= j < i + 1
            ensures !test(xs[j])
          {
            if 0 < j {
              assert xs[j] == xs[1..][j - 1];
            }
          }
          assert NoneBefore(xs, test, i + 1);
        }
      }
      r
  }

  /** No element of `xs` before index `i` satisfies `test`. */
  ghost predicate NoneBefore<T>(xs: seq<T>, test: T -> bool, i: nat)
    requires i <= |xs|
  {
    forall j :: 0 <= j < i ==> !test(xs[j])
  }

  /** No two positions of `xs` hold the same key: a primary key or a
      unique column. */
  ghost predicate UniqueBy<T, K>(xs: seq<T>, key: T -> K) {
    forall i, j :: 0 <= i < j < |xs| ==> key(xs[i]) != key(xs[j])
  }

  /** Under a unique key, two members sharing a key are the same member. */
  lemma UniqueByMembers<T, K>(xs: seq<T>, key: T -> K)
    requires UniqueBy(xs, key)
    ensures forall x, y :: x in xs && y in xs && key(x) == key(y) ==> x == y
  {
    forall x, y | x in xs && y in xs && key(x) == key(y)
      ensures x == y
    {
      var i :| 0 <= i < |xs| && xs[i] == x;
      var j :| 0 <= j < |xs| && xs[j] == y;
      assert !(i < j) && !(j < i);
    }
  }

  /** Filtering keeps a unique key unique. */
  lemma {:induction false} FilterKeepsUnique<T(!new), K>(xs: seq<T>, keep: T -> bool, key: T -> K)
    requires UniqueBy(xs, key)
    ensures UniqueBy(Filter(xs, keep), key)
    decreases |xs|
  {
    if xs != [] {
      var tail := xs[1..];
      assert UniqueBy(tail, key) by {
        forall i, j | 0 <= i < j < |tail|
          ensures key(tail[i]) != key(tail[j])
        {
          assert tail[i] == xs[i + 1] && tail[j] == xs[j + 1];
        }
      }
      FilterKeepsUnique(tail, keep, key);
      var rest := Filter(tail, keep);
      if keep(xs[0]) {
        var r := [xs[0]] + rest;
        forall i, j | 0 <= i < j < |r|
          ensures key(r[i]) != key(r[j])
        {
          if i == 0 {
            assert r[j] == rest[j - 1] && rest[j - 1] in tail;
            var k :| 0 <= k < |tail| && tail[k] == r[j];
            assert xs[k + 1] == r[j];
          } else {
            assert r[i] == rest[i - 1] && r[j] == rest[j - 1];
          }
        }
      }
    }
  }

  /** Appending an element whose key no member has keeps the key unique. */
  lemma AppendKeepsUnique<T, K>(xs: seq<T>, x: T, key: T -> K)
    requires UniqueBy(xs, key)
    requires forall y :: y in xs ==> key(y) != key(x)
    ensures UniqueBy(xs + [x], key)
  {
    var r := xs + [x];
    forall i, j | 0 <= i < j < |r|
      ensures key(r[i]) != key(r[j])
    {
      assert r[i] == xs[i] && xs[i] in xs;
    }
  }

  /** A key strictly above every key in use: how a new row gets its id. */
  function FreshKey<T(!new)>(xs: seq<T>, key: T -> nat): (n: nat)
    ensures forall x :: x in xs ==> key(x) < n
    decreases |xs|
  {
    if xs == [] then 0
    else
      var rest := FreshKey(xs[1..], key);
      if key(xs[0]) < rest then rest else key(xs[0]) + 1
  }

  /** `xs` is ordered by non-decreasing `key`. */
  ghost predicate SortedBy<T>(xs: seq<T>, key: T -> int) {
    forall i, j :: 0 <= i < j < |xs| ==> key(xs[i]) <= key(xs[j])
  }

  /** Inserts `x` into the sorted sequence `xs`, keeping it sorted. */
  function InsertBy<T>(x: T, xs: seq<T>, key: T -> int): (r: seq<T>)
    requires SortedBy(xs, key)
    ensures SortedBy(r, key)
    ensures multiset(r) == multiset{x} + multiset(xs)
    decreases |xs|
  {
    if xs == [] then [x]
    else if key(x) <= key(xs[0]) then [x] + xs
    else
      var rest := InsertBy(x, xs[1..], key);
      assert forall y :: y in rest ==> key(xs[0]) <= key(y) by {
        forall y | y in rest
          ensures key(xs[0]) <= key(y)
        {
          assert y in multiset(rest);
          if y != x {
            assert y in multiset(xs[1..]);
            var k :| 0 <= k < |xs[1..]| && xs[1..][k] == y;
            assert xs[k + 1] == y;
          }
        }
      }
      assert xs == [xs[0]] + xs[1..];
      [xs[0]] + rest
  }

  /** Orders `xs` by non-decreasing `key`; elements with equal keys keep no
      particular order. */
  function SortBy<T>(xs: seq<T>, key: T -> int): (r: seq<T>)
    ensures SortedBy(r, key)
    ensures multiset(r) == multiset(xs)
    decreases |xs|
  {
    if xs == [] then []
    else
      assert xs == [xs[0]] + xs[1..];
      InsertBy(xs[0], SortBy(xs[1..], key), key)
  }

  /** Concatenation of a sequence of sequences: the parts, end to end. */
  function Concat<T(!new)>(parts: seq<seq<T>>): (r: seq<T>)
    ensures forall x :: x in r <==> exists k :: 0 <= k < |parts| && x in parts[k]
    ensures forall k :: 0 <= k < |parts| ==> |parts[k]| <= |r|
    decreases |parts|
  {
    if parts == [] then []
    else
      var rest := Concat(parts[1..]);
      assert forall k :: 1 <= k < |parts| ==> parts[k] == parts[1..][k - 1];
      parts[0] + rest
  }
}
