/**
 Generic building blocks shared by the model: an optional value and the
 row-level sequence operations that the in-memory tables are made of
 (keeping the rows that satisfy a condition, taking the first matching row,
 and uniqueness of a key column).
 */
module Base {

  datatype Option<+T> = None | Some(value: T)

  /** The elements of `xs` that satisfy `keep`, in their original order. */
  function Filter<T>(xs: seq<T>, keep: T -> bool): (r: seq<T>)
    ensures |r| <= |xs|
    ensures forall i | 0 <= i < |r| :: r[i] in xs && keep(r[i])
    ensures forall i | 0 <= i < |xs| :: keep(xs[i]) ==> xs[i] in r
  {
    if |xs| == 0 then []
    else
      assert xs == [xs[0]] + xs[1..];
      (if keep(xs[0]) then [xs[0]] else []) + Filter(xs[1..], keep)
  }

  /** The first element of `xs` that satisfies `p`, if there is one. */
  function First<T>(xs: seq<T>, p: T -> bool): (r: Option<T>)
    ensures r.None? <==> forall i | 0 <= i < |xs| :: !p(xs[i])
    ensures r.Some? ==> r.value in xs && p(r.value)
  {
    if |xs| == 0 then None
    else if p(xs[0]) then Some(xs[0])
    else
      assert xs == [xs[0]] + xs[1..];
      First(xs[1..], p)
  }

  /** No two positions of `xs` carry the same key. */
  predicate KeysUnique<T, K(==)>(xs: seq<T>, key: T -> K) {
    forall i, j | 0 <= i < j < |xs| :: key(xs[i]) != key(xs[j])
  }

  /** Concatenation is associative. */
  lemma AppendAssoc<T>(a: seq<T>, b: seq<T>, c: seq<T>)
    ensures a + (b + c) == (a + b) + c
  {
  }

  /** A sequence is its prefix followed by the rest. */
  lemma TakeDrop<T>(s: seq<T>, n: int)
    requires 0 <= n <= |s|
    ensures s == s[..n] + s[n..]
  {
  }

  /** Under a unique key, a row is determined by its key. */
  lemma KeyDeterminesRow<T, K>(xs: seq<T>, key: T -> K, x: T, y: T)
    requires KeysUnique(xs, key)
    requires x in xs && y in xs && key(x) == key(y)
    ensures x == y
  {
    var i :| 0 <= i < |xs| && xs[i] == x;
    var j :| 0 <= j < |xs| && xs[j] == y;
    assert key(xs[i]) == key(xs[j]);
    assert i == j;
  }

  lemma {:induction false} FilterAppend<T>(a: seq<T>, b: seq<T>, keep: T -> bool)
    ensures Filter(a + b, keep) == Filter(a, keep) + Filter(b, keep)
  {
    if |a| == 0 {
      assert a + b == b;
    } else {
      assert (a + b)[1..] == a[1..] + b;
      FilterAppend(a[1..], b, keep);
    }
  }

  /** Filtering twice with the same condition is filtering once. */
  lemma {:induction false} FilterIdempotent<T>(xs: seq<T>, keep: T -> bool)
    ensures Filter(Filter(xs, keep), keep) == Filter(xs, keep)
  {
    if |xs| > 0 {
      FilterIdempotent(xs[1..], keep);
      var rest := Filter(xs[1..], keep);
      if keep(xs[0]) {
        assert ([xs[0]] + rest)[1..] == rest;
      } else {
        assert [] + rest == rest;
      }
    }
  }

  /** A condition that holds of every element removes nothing. */
  lemma {:induction false} FilterKeepsAll<T>(xs: seq<T>, keep: T -> bool)
    requires forall i | 0 <= i < |xs| :: keep(xs[i])
    ensures Filter(xs, keep) == xs
  {
    if |xs| > 0 {
      FilterKeepsAll(xs[1..], keep);
    }
  }

  /** A condition that holds of no element removes everything. */
  lemma {:induction false} FilterDropsAll<T>(xs: seq<T>, keep: T -> bool)
    requires forall i | 0 <= i < |xs| :: !keep(xs[i])
    ensures Filter(xs, keep) == []
  {
    if |xs| > 0 {
      FilterDropsAll(xs[1..], keep);
    }
  }

  /** Deleting rows never breaks the uniqueness of a key column. */
  lemma {:induction false} FilterKeepsKeysUnique<T, K>(xs: seq<T>, keep: T -> bool, key: T -> K)
    requires KeysUnique(xs, key)
    ensures KeysUnique(Filter(xs, keep), key)
  {
    if |xs| > 0 {
      var tail := xs[1..];
      var rest := Filter(tail, keep);
      FilterKeepsKeysUnique(tail, keep, key);
      if keep(xs[0]) {
        var r := [xs[0]] + rest;
        assert Filter(xs, keep) == r;
        forall i, j | 0 <= i < j < |r|
          ensures key(r[i]) != key(r[j])
        {
          assert r[j] == rest[j - 1];
          if i == 0 {
            assert r[j] in tail;
            var k :| 0 <= k < |tail| && tail[k] == r[j];
            assert xs[k + 1] == r[j];
          } else {
            assert r[i] == rest[i - 1];
          }
        }
      } else {
        assert Filter(xs, keep) == rest;
      }
    }
  }

  /** Appending a row whose key is new keeps the key column unique. */
  lemma AppendKeepsKeysUnique<T, K>(xs: seq<T>, x: T, key: T -> K)
    requires KeysUnique(xs, key)
    requires forall i | 0 <= i < |xs| :: key(xs[i]) != key(x)
    ensures KeysUnique(xs + [x], key)
  {
    var r := xs + [x];
    forall i, j | 0 <= i < j < |r|
      ensures key(r[i]) != key(r[j])
    {
      assert r[i] == xs[i];
      if j == |xs| {
      } else {
        assert r[j] == xs[j];
      }
    }
  }
}
