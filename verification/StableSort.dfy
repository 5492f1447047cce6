/** What `sorted(items, key=key, reverse=True)` returns: descending by key, ties in their original order. */
module StableSort {

  function InsertDesc<T>(x: T, xs: seq<T>, key: T -> int): seq<T> {
    if xs == [] || key(x) >= key(xs[0]) then [x] + xs
    else [xs[0]] + InsertDesc(x, xs[1..], key)
  }

  function SortDesc<T>(xs: seq<T>, key: T -> int): seq<T> {
    if xs == [] then [] else InsertDesc(xs[0], SortDesc(xs[1..], key), key)
  }

  ghost predicate Descending<T>(xs: seq<T>, key: T -> int) {
    forall i, j :: 0 <= i < j < |xs| ==> key(xs[i]) >= key(xs[j])
  }

  /** The elements with one key, in order. */
  function WithKey<T>(xs: seq<T>, key: T -> int, k: int): seq<T> {
    if xs == [] then []
    else (if key(xs[0]) == k then [xs[0]] else []) + WithKey(xs[1..], key, k)
  }

  ghost predicate SameTies<T>(xs: seq<T>, ys: seq<T>, key: T -> int) {
    forall k :: WithKey(xs, key, k) == WithKey(ys, key, k)
  }

  lemma {:induction false} InsertDescPermutes<T>(x: T, xs: seq<T>, key: T -> int)
    ensures multiset(InsertDesc(x, xs, key)) == multiset{x} + multiset(xs)
  {
    if xs != [] && key(x) < key(xs[0]) {
      InsertDescPermutes(x, xs[1..], key);
      assert xs == [xs[0]] + xs[1..];
    }
  }

  lemma {:induction false} InsertDescSorts<T>(x: T, xs: seq<T>, key: T -> int)
    requires Descending(xs, key)
    ensures Descending(InsertDesc(x, xs, key), key)
  {
    if xs != [] && key(x) < key(xs[0]) {
      var tail := InsertDesc(x, xs[1..], key);
      InsertDescSorts(x, xs[1..], key);
      InsertDescPermutes(x, xs[1..], key);
      forall j | 0 <= j < |tail| ensures key(xs[0]) >= key(tail[j]) {
        assert tail[j] in multiset(tail);
        assert tail[j] == x || tail[j] in xs[1..];
      }
    }
  }

  lemma {:induction false} InsertDescTies<T>(x: T, xs: seq<T>, key: T -> int, k: int)
    requires Descending(xs, key)
    ensures WithKey(InsertDesc(x, xs, key), key, k) == WithKey([x] + xs, key, k)
  {
    if xs != [] && key(x) < key(xs[0]) {
      var tail := InsertDesc(x, xs[1..], key);
      InsertDescTies(x, xs[1..], key, k);
      assert ([xs[0]] + tail)[1..] == tail;
      assert ([x] + xs)[1..] == xs && ([x] + xs[1..])[1..] == xs[1..];
    }
  }

  /** The sort is a descending permutation that keeps ties in order. */
  lemma {:induction false} SortDescOk<T>(xs: seq<T>, key: T -> int)
    ensures Descending(SortDesc(xs, key), key)
    ensures multiset(SortDesc(xs, key)) == multiset(xs)
    ensures SameTies(SortDesc(xs, key), xs, key)
  {
    if xs != [] {
      var tail := SortDesc(xs[1..], key);
      SortDescOk(xs[1..], key);
      InsertDescSorts(xs[0], tail, key);
      InsertDescPermutes(xs[0], tail, key);
      assert xs == [xs[0]] + xs[1..];
      forall k ensures WithKey(SortDesc(xs, key), key, k) == WithKey(xs, key, k) {
        InsertDescTies(xs[0], tail, key, k);
        assert ([xs[0]] + tail)[1..] == tail;
      }
    }
  }

  ghost predicate DistinctBy<T, U>(xs: seq<T>, f: T -> U) {
    forall i, j :: 0 <= i < j < |xs| ==> f(xs[i]) != f(xs[j])
  }

  lemma {:induction false} InsertDescDistinct<T, U>(x: T, xs: seq<T>, key: T -> int, f: T -> U)
    requires DistinctBy([x] + xs, f)
    ensures DistinctBy(InsertDesc(x, xs, key), f)
  {
    if xs != [] && key(x) < key(xs[0]) {
      var tail := InsertDesc(x, xs[1..], key);
      var whole := [x] + xs;
      forall i, j | 0 <= i < j < |xs| ensures f(([x] + xs[1..])[i]) != f(([x] + xs[1..])[j]) {
        assert ([x] + xs[1..])[i] == if i == 0 then whole[0] else whole[i + 1];
        assert ([x] + xs[1..])[j] == whole[j + 1];
      }
      InsertDescDistinct(x, xs[1..], key, f);
      InsertDescPermutes(x, xs[1..], key);
      forall j | 0 <= j < |tail| ensures f(xs[0]) != f(tail[j]) {
        assert tail[j] in multiset(tail);
        if tail[j] == x {
          assert whole[0] == x && whole[1] == xs[0];
        } else {
          var i :| 0 <= i < |xs[1..]| && xs[1..][i] == tail[j];
          assert whole[1] == xs[0] && whole[i + 2] == tail[j];
        }
      }
    }
  }

  lemma {:induction false} SortDescDistinct<T, U>(xs: seq<T>, key: T -> int, f: T -> U)
    requires DistinctBy(xs, f)
    ensures DistinctBy(SortDesc(xs, key), f)
  {
    if xs != [] {
      var tail := SortDesc(xs[1..], key);
      SortDescDistinct(xs[1..], key, f);
      SortDescOk(xs[1..], key);
      forall j | 0 <= j < |tail| ensures f(xs[0]) != f(tail[j]) {
        assert tail[j] in multiset(tail);
        var i :| 0 <= i < |xs[1..]| && xs[1..][i] == tail[j];
        assert xs[i + 1] == tail[j];
      }
      InsertDescDistinct(xs[0], tail, key, f);
    }
  }

  lemma {:induction false} WithKeyMember<T>(xs: seq<T>, key: T -> int, i: nat)
    requires i < |xs|
    ensures WithKey(xs, key, key(xs[i])) != []
  {
    if i > 0 {
      assert xs[1..][i - 1] == xs[i];
      WithKeyMember(xs[1..], key, i - 1);
    }
  }

  lemma {:induction false} WithKeyHead<T>(xs: seq<T>, key: T -> int, k: int)
    requires Descending(xs, key) && WithKey(xs, key, k) != []
    ensures xs != [] && key(xs[0]) >= k
  {
    if key(xs[0]) != k {
      WithKeyHead(xs[1..], key, k);
      assert xs[1..][0] == xs[1];
    }
  }

  /** Descending order and order among ties leave one possible result. */
  lemma {:induction false} StableSortUnique<T>(xs: seq<T>, ys: seq<T>, key: T -> int)
    requires Descending(xs, key) && Descending(ys, key) && SameTies(xs, ys, key)
    ensures xs == ys
  {
    if ys != [] {
      WithKeyMember(ys, key, 0);
      assert WithKey(xs, key, key(ys[0])) != [];
    }
    if xs != [] {
      WithKeyMember(xs, key, 0);
      assert WithKey(ys, key, key(xs[0])) != [];
      WithKeyHead(ys, key, key(xs[0]));
      WithKeyHead(xs, key, key(ys[0]));
      var k0 := key(xs[0]);
      assert WithKey(xs, key, k0)[0] == xs[0] && WithKey(ys, key, k0)[0] == ys[0];
      forall k ensures WithKey(xs[1..], key, k) == WithKey(ys[1..], key, k) {
        assert WithKey(xs, key, k) == WithKey(ys, key, k);
        if k == k0 {
          assert WithKey(xs, key, k)[1..] == WithKey(xs[1..], key, k);
          assert WithKey(ys, key, k)[1..] == WithKey(ys[1..], key, k);
        } else {
          assert WithKey(xs, key, k) == WithKey(xs[1..], key, k);
          assert WithKey(ys, key, k) == WithKey(ys[1..], key, k);
        }
      }
      StableSortUnique(xs[1..], ys[1..], key);
      assert xs == [xs[0]] + xs[1..] && ys == [ys[0]] + ys[1..];
    }
  }

  /** Cutting a descending list anywhere keeps nothing smaller than what it drops. */
  lemma CutKeepsLargest<T>(xs: seq<T>, key: T -> int, limit: nat, kept: T, dropped: T)
    requires Descending(xs, key) && limit <= |xs|
    requires kept in xs[..limit] && dropped in xs[limit..]
    ensures key(kept) >= key(dropped)
  {
    var i :| 0 <= i < limit && xs[i] == kept;
    var j :| 0 <= j < |xs| - limit && xs[limit..][j] == dropped;
    assert xs[limit + j] == dropped;
  }
}
