/** Sequences used as small association tables: an element is found by its key,
    and a new element replaces the first one with the same key or is appended. */
module Keyed {

  function Put<T>(key: T -> int, xs: seq<T>, x: T): seq<T> {
    if xs == [] then [x]
    else if key(xs[0]) == key(x) then [x] + xs[1..]
    else [xs[0]] + Put(key, xs[1..], x)
  }

  /** The linear search that replaces or appends. */
  method PutInPlace<T>(key: T -> int, xs: seq<T>, x: T) returns (r: seq<T>)
    ensures r == Put(key, xs, x)
  {
    r := xs;
    for i := 0 to |r|
      invariant r == xs && Put(key, xs, x) == xs[..i] + Put(key, xs[i..], x)
    {
      if key(r[i]) == key(x) {
        return r[i := x];
      }
      assert xs[i..][1..] == xs[i + 1..];
    }
    r := r + [x];
  }

  /** What a table denotes: each key with the first element carrying it. */
  function Index<T>(key: T -> int, xs: seq<T>): map<int, T> {
    if xs == [] then map[] else Index(key, xs[1..])[key(xs[0]) := xs[0]]
  }

  ghost predicate DistinctKeys<T>(key: T -> int, xs: seq<T>) {
    forall i, j :: 0 <= i < j < |xs| ==> key(xs[i]) != key(xs[j])
  }

  lemma {:induction false} PutUpdatesIndex<T>(key: T -> int, xs: seq<T>, x: T)
    ensures Index(key, Put(key, xs, x)) == Index(key, xs)[key(x) := x]
  {
    if xs == [] {
      assert Put(key, xs, x)[1..] == [];
    } else if key(xs[0]) == key(x) {
      assert ([x] + xs[1..])[1..] == xs[1..];
    } else {
      PutUpdatesIndex(key, xs[1..], x);
      assert Put(key, xs, x)[1..] == Put(key, xs[1..], x);
    }
  }

  lemma {:induction false} IndexKeys<T>(key: T -> int, xs: seq<T>, k: int)
    ensures k in Index(key, xs) <==> exists i :: 0 <= i < |xs| && key(xs[i]) == k
    ensures k in Index(key, xs) ==> Index(key, xs)[k] in xs && key(Index(key, xs)[k]) == k
  {
    if xs != [] {
      IndexKeys(key, xs[1..], k);
      if exists i :: 0 <= i < |xs| && key(xs[i]) == k {
        var i :| 0 <= i < |xs| && key(xs[i]) == k;
        if i > 0 {
          assert xs[1..][i - 1] == xs[i];
        }
      }
    }
  }

  /** Storing keeps the keys distinct and adds no element but the stored one. */
  lemma {:induction false} PutKeepsDistinct<T>(key: T -> int, xs: seq<T>, x: T)
    requires DistinctKeys(key, xs)
    ensures DistinctKeys(key, Put(key, xs, x))
    ensures forall y :: y in Put(key, xs, x) ==> y == x || y in xs
  {
    if xs != [] {
      var rest := xs[1..];
      if key(xs[0]) != key(x) {
        PutKeepsDistinct(key, rest, x);
        var put := Put(key, rest, x);
        forall i, j | 0 <= i < j < |put| + 1
          ensures key(([xs[0]] + put)[i]) != key(([xs[0]] + put)[j])
        {
          if i == 0 {
            var y := put[j - 1];
            if y != x {
              assert y in rest;
            }
          }
        }
      }
    }
  }

  lemma {:induction false} IndexOfAppend<T>(key: T -> int, xs: seq<T>, x: T)
    requires forall i :: 0 <= i < |xs| ==> key(xs[i]) != key(x)
    ensures Put(key, xs, x) == xs + [x]
  {
    if xs != [] {
      IndexOfAppend(key, xs[1..], x);
    }
  }

  /** Putting a table's elements one by one into the empty table rebuilds it. */
  function PutAll<T>(key: T -> int, xs: seq<T>, ys: seq<T>): seq<T>
    decreases |ys|
  {
    if ys == [] then xs else PutAll(key, Put(key, xs, ys[0]), ys[1..])
  }

  lemma {:induction false} PutAllDistinct<T>(key: T -> int, xs: seq<T>, ys: seq<T>)
    requires DistinctKeys(key, xs + ys)
    ensures PutAll(key, xs, ys) == xs + ys
    decreases |ys|
  {
    if ys == [] {
      assert xs + ys == xs;
    } else {
      forall i | 0 <= i < |xs| ensures key(xs[i]) != key(ys[0]) {
        assert (xs + ys)[i] == xs[i] && (xs + ys)[|xs|] == ys[0];
      }
      IndexOfAppend(key, xs, ys[0]);
      assert xs + ys == xs + [ys[0]] + ys[1..];
      PutAllDistinct(key, xs + [ys[0]], ys[1..]);
    }
  }
}
