/** Python's `sorted(xs, key=key, reverse=True)` and `list.sort(key=key,
    reverse=True)`: a stable sort into non-increasing key order.  Python
    keeps equal keys in their original order even with `reverse=True`.
    Modelled as an insertion sort; its contract is the characterisation
    of a stable descending sort, which determines the result uniquely
    (see SortDescUnique). */
module StableSort {
  import opened Basics

  predicate SortedDesc<T>(xs: seq<T>, key: T -> real)
  {
    forall i, j :: 0 <= i < j < |xs| ==> key(xs[i]) >= key(xs[j])
  }

  /** The elements of xs whose key is k, in their order in xs. */
  function WithKey<T>(xs: seq<T>, key: T -> real, k: real): seq<T>
  {
    if |xs| == 0 then []
    else (if key(xs[0]) == k then [xs[0]] else []) + WithKey(xs[1..], key, k)
  }

  /** ys has the same elements as xs, and equal keys in the same order. */
  ghost predicate SameTies<T>(ys: seq<T>, xs: seq<T>, key: T -> real)
  {
    forall k :: WithKey(ys, key, k) == WithKey(xs, key, k)
  }

  /** Insert x in front of the first element whose key does not exceed
      x's key. */
  function Insert<T>(x: T, ys: seq<T>, key: T -> real): (r: seq<T>)
    ensures |r| == |ys| + 1
    ensures multiset(r) == multiset(ys) + multiset{x}
    ensures |ys| > 0 ==> r[0] == x || r[0] == ys[0]
  {
    if |ys| == 0 then [x]
    else if key(x) >= key(ys[0]) then [x] + ys
    else
      assert ys == [ys[0]] + ys[1..];
      [ys[0]] + Insert(x, ys[1..], key)
  }

  lemma {:induction false} InsertSorted<T>(x: T, ys: seq<T>, key: T -> real)
    requires SortedDesc(ys, key)
    ensures SortedDesc(Insert(x, ys, key), key)
    decreases |ys|
  {
    if |ys| > 0 && key(x) < key(ys[0]) {
      InsertSorted(x, ys[1..], key);
      var tail := Insert(x, ys[1..], key);
      assert |ys| > 1 ==> key(ys[0]) >= key(ys[1]);
      assert key(ys[0]) >= key(tail[0]);
      assert Insert(x, ys, key) == [ys[0]] + tail;
    }
  }

  /** Insertion puts x into its key group in front of the group's
      existing members, and changes no other group. */
  lemma {:induction false} InsertTies<T>(x: T, ys: seq<T>, key: T -> real, k: real)
    ensures WithKey(Insert(x, ys, key), key, k) == (if key(x) == k then [x] else []) + WithKey(ys, key, k)
    decreases |ys|
  {
    if |ys| == 0 {
    } else if key(x) >= key(ys[0]) {
      WithKeyCons(x, ys, key, k);
    } else {
      var y, t := ys[0], ys[1..];
      InsertTies(x, t, key, k);
      WithKeyCons(y, Insert(x, t, key), key, k);
      assert ys == [y] + t;
      WithKeyCons(y, t, key, k);
      if key(x) == k {
        assert key(y) != k;
      }
    }
  }

  lemma WithKeyCons<T>(y: T, t: seq<T>, key: T -> real, k: real)
    ensures WithKey([y] + t, key, k) == (if key(y) == k then [y] else []) + WithKey(t, key, k)
  {
    assert ([y] + t)[1..] == t;
  }

  /** A stable sort into non-increasing key order: a permutation of xs,
      sorted, with every group of equal keys in its original order. */
  function SortDesc<T>(xs: seq<T>, key: T -> real): (r: seq<T>)
    ensures |r| == |xs|
    ensures multiset(r) == multiset(xs)
    ensures SortedDesc(r, key)
    ensures SameTies(r, xs, key)
  {
    if |xs| == 0 then []
    else
      var rest := SortDesc(xs[1..], key);
      InsertSorted(xs[0], rest, key);
      assert SameTies(Insert(xs[0], rest, key), xs, key) by {
        forall k ensures WithKey(Insert(xs[0], rest, key), key, k) == WithKey(xs, key, k) {
          InsertTies(xs[0], rest, key, k);
        }
      }
      assert xs == [xs[0]] + xs[1..];
      Insert(xs[0], rest, key)
  }

  lemma {:induction false} WithKeyMember<T>(xs: seq<T>, key: T -> real, k: real)
    requires |WithKey(xs, key, k)| > 0
    ensures exists i :: 0 <= i < |xs| && key(xs[i]) == k
    decreases |xs|
  {
    if key(xs[0]) != k {
      WithKeyMember(xs[1..], key, k);
      var i :| 0 <= i < |xs[1..]| && key(xs[1..][i]) == k;
      assert key(xs[i + 1]) == k;
    }
  }

  lemma WithKeyOfHead<T>(xs: seq<T>, key: T -> real)
    requires |xs| > 0
    ensures |WithKey(xs, key, key(xs[0]))| > 0
  {
  }

  lemma SameTiesEmpty<T>(ys: seq<T>, zs: seq<T>, key: T -> real)
    requires SameTies(ys, zs, key)
    ensures |ys| == 0 <==> |zs| == 0
  {
    if |zs| > 0 {
      WithKeyOfHead(zs, key);
      assert WithKey(ys, key, key(zs[0])) == WithKey(zs, key, key(zs[0]));
    }
    if |ys| > 0 {
      WithKeyOfHead(ys, key);
      assert WithKey(ys, key, key(ys[0])) == WithKey(zs, key, key(ys[0]));
    }
  }

  /** Sorted sequences with the same tie groups start with the same element. */
  lemma SameTiesHead<T>(ys: seq<T>, zs: seq<T>, key: T -> real)
    requires SortedDesc(ys, key) && SortedDesc(zs, key)
    requires SameTies(ys, zs, key)
    requires |ys| > 0 && |zs| > 0
    ensures ys[0] == zs[0]
  {
    var a, b := ys[0], zs[0];
    WithKeyOfHead(ys, key);
    assert WithKey(ys, key, key(a)) == WithKey(zs, key, key(a));
    WithKeyMember(zs, key, key(a));
    WithKeyOfHead(zs, key);
    assert WithKey(ys, key, key(b)) == WithKey(zs, key, key(b));
    WithKeyMember(ys, key, key(b));
    assert key(a) == key(b);
    assert WithKey(ys, key, key(a))[0] == a;
    assert WithKey(zs, key, key(a))[0] == b;
  }

  lemma SameTiesTail<T>(ys: seq<T>, zs: seq<T>, key: T -> real)
    requires SameTies(ys, zs, key)
    requires |ys| > 0 && |zs| > 0 && ys[0] == zs[0]
    ensures SameTies(ys[1..], zs[1..], key)
  {
    forall k ensures WithKey(ys[1..], key, k) == WithKey(zs[1..], key, k) {
      var p := if key(ys[0]) == k then [ys[0]] else [];
      assert WithKey(ys, key, k) == p + WithKey(ys[1..], key, k);
      assert WithKey(zs, key, k) == p + WithKey(zs[1..], key, k);
      assert WithKey(ys, key, k) == WithKey(zs, key, k);
      assert (p + WithKey(ys[1..], key, k))[|p|..] == WithKey(ys[1..], key, k);
      assert (p + WithKey(zs[1..], key, k))[|p|..] == WithKey(zs[1..], key, k);
    }
  }

  /** Two sorted sequences with the same tie groups are equal. */
  lemma {:induction false} SortedSameTiesEqual<T>(ys: seq<T>, zs: seq<T>, key: T -> real)
    requires SortedDesc(ys, key) && SortedDesc(zs, key)
    requires SameTies(ys, zs, key)
    ensures ys == zs
    decreases |ys|
  {
    SameTiesEmpty(ys, zs, key);
    if |ys| > 0 {
      SameTiesHead(ys, zs, key);
      SameTiesTail(ys, zs, key);
      SortedSameTiesEqual(ys[1..], zs[1..], key);
      assert ys == [ys[0]] + ys[1..] && zs == [zs[0]] + zs[1..];
    }
  }

  /** The contract of SortDesc pins its result down: any sorted
      rearrangement of xs that keeps ties in input order is SortDesc(xs). */
  lemma SortDescUnique<T>(xs: seq<T>, ys: seq<T>, key: T -> real)
    requires SortedDesc(ys, key) && SameTies(ys, xs, key)
    ensures ys == SortDesc(xs, key)
  {
    SortedSameTiesEqual(ys, SortDesc(xs, key), key);
  }

  /** Mapping a key-preserving function commutes with insertion. */
  lemma {:induction false} MapInsert<A, B>(f: A -> B, x: A, ys: seq<A>, keyA: A -> real, keyB: B -> real)
    requires forall a :: keyB(f(a)) == keyA(a)
    ensures MapSeq(f, Insert(x, ys, keyA)) == Insert(f(x), MapSeq(f, ys), keyB)
    decreases |ys|
  {
    if |ys| > 0 && keyA(x) < keyA(ys[0]) {
      MapInsert(f, x, ys[1..], keyA, keyB);
      assert MapSeq(f, ys)[1..] == MapSeq(f, ys[1..]);
      var r := Insert(x, ys, keyA);
      assert r == [ys[0]] + Insert(x, ys[1..], keyA);
      assert MapSeq(f, r) == [f(ys[0])] + MapSeq(f, r[1..]);
    } else if |ys| > 0 {
      assert MapSeq(f, [x] + ys) == [f(x)] + MapSeq(f, ys) by {
        assert ([x] + ys)[1..] == ys;
      }
    }
  }

  /** Sorting commutes with a map that keeps every element's key, so the
      sort order does not depend on fields the key ignores. */
  lemma {:induction false} MapSortDesc<A, B>(f: A -> B, xs: seq<A>, keyA: A -> real, keyB: B -> real)
    requires forall a :: keyB(f(a)) == keyA(a)
    ensures MapSeq(f, SortDesc(xs, keyA)) == SortDesc(MapSeq(f, xs), keyB)
    decreases |xs|
  {
    if |xs| > 0 {
      MapSortDesc(f, xs[1..], keyA, keyB);
      MapInsert(f, xs[0], SortDesc(xs[1..], keyA), keyA, keyB);
      assert MapSeq(f, xs)[1..] == MapSeq(f, xs[1..]);
    }
  }
}
