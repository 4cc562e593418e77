/**
 * LINQ `OrderBy(key)`: a stable sort. Elements are compared only through
 * their keys; elements whose keys are equal keep their input order.
 */
module StableSort {

  /** `le` orders every pair of keys and chains: what a LINQ comparer must be. */
  ghost predicate TotalPreorder<K(!new)>(le: (K, K) -> bool) {
    && (forall a :: le(a, a))
    && (forall a, b :: le(a, b) || le(b, a))
    && (forall a, b, c :: le(a, b) && le(b, c) ==> le(a, c))
  }

  ghost predicate SortedBy<T, K>(s: seq<T>, key: T -> K, le: (K, K) -> bool) {
    forall i, j :: 0 <= i < j < |s| ==> le(key(s[i]), key(s[j]))
  }

  /** The elements of `s` whose key is `k`, in the order they occur in `s`. */
  function WithKey<T, K(==)>(s: seq<T>, key: T -> K, k: K): seq<T> {
    if |s| == 0 then []
    else (if key(s[0]) == k then [s[0]] else []) + WithKey(s[1..], key, k)
  }

  /** Puts `x` in front of the first element it does not rank after. */
  function Insert<T, K>(x: T, s: seq<T>, key: T -> K, le: (K, K) -> bool): seq<T> {
    if |s| == 0 then [x]
    else if le(key(x), key(s[0])) then [x] + s
    else [s[0]] + Insert(x, s[1..], key, le)
  }

  /** Insertion sort from the back, so that an earlier element lands before later equal ones. */
  function Sort<T, K>(s: seq<T>, key: T -> K, le: (K, K) -> bool): seq<T> {
    if |s| == 0 then [] else Insert(s[0], Sort(s[1..], key, le), key, le)
  }

  lemma {:induction false} InsertKeepsElements<T, K>(x: T, s: seq<T>, key: T -> K, le: (K, K) -> bool)
    ensures multiset(Insert(x, s, key, le)) == multiset(s) + multiset{x}
  {
    if |s| > 0 && !le(key(x), key(s[0])) {
      InsertKeepsElements(x, s[1..], key, le);
      assert s == [s[0]] + s[1..];
    }
  }

  lemma {:induction false} InsertSorted<T, K(!new)>(x: T, s: seq<T>, key: T -> K, le: (K, K) -> bool)
    requires TotalPreorder(le)
    requires SortedBy(s, key, le)
    ensures SortedBy(Insert(x, s, key, le), key, le)
  {
    if |s| == 0 {
    } else if le(key(x), key(s[0])) {
      var r := [x] + s;
      forall i, j | 0 <= i < j < |r|
        ensures le(key(r[i]), key(r[j]))
      {
        if i == 0 && j > 1 {
          assert le(key(s[0]), key(s[j - 1]));
        }
      }
    } else {
      var tail := s[1..];
      var rest := Insert(x, tail, key, le);
      InsertSorted(x, tail, key, le);
      InsertKeepsElements(x, tail, key, le);
      var r := [s[0]] + rest;
      forall i, j | 0 <= i < j < |r|
        ensures le(key(r[i]), key(r[j]))
      {
        if i == 0 {
          var y := rest[j - 1];
          assert y in multiset(rest);
          if y != x {
            assert y in multiset(tail);
            var m :| 0 <= m < |tail| && tail[m] == y;
            assert s[m + 1] == y;
          }
        } else {
          assert r[i] == rest[i - 1] && r[j] == rest[j - 1];
        }
      }
    }
  }

  /** Inserting `x` in front of the sequence and inserting it in sorted position agree on every key class. */
  lemma {:induction false} InsertWithKey<T, K(!new)>(x: T, s: seq<T>, key: T -> K, le: (K, K) -> bool, k: K)
    requires forall a :: le(a, a)
    ensures WithKey(Insert(x, s, key, le), key, k) == WithKey([x] + s, key, k)
  {
    if |s| == 0 {
    } else if le(key(x), key(s[0])) {
    } else {
      var tail := s[1..];
      InsertWithKey(x, tail, key, le, k);
      assert le(key(x), key(x));
      assert key(s[0]) != key(x);
      var r := [s[0]] + Insert(x, tail, key, le);
      assert r[1..] == Insert(x, tail, key, le);
      assert ([x] + tail)[1..] == tail;
      assert ([x] + s)[1..] == s;
    }
  }

  /** `Sort` returns its input reordered: no element gained or lost. */
  lemma {:induction false} SortPermutes<T, K>(s: seq<T>, key: T -> K, le: (K, K) -> bool)
    ensures multiset(Sort(s, key, le)) == multiset(s)
  {
    if |s| > 0 {
      SortPermutes(s[1..], key, le);
      InsertKeepsElements(s[0], Sort(s[1..], key, le), key, le);
      assert s == [s[0]] + s[1..];
    }
  }

  /** `Sort` returns its elements in key order. */
  lemma {:induction false} SortSorted<T, K(!new)>(s: seq<T>, key: T -> K, le: (K, K) -> bool)
    requires TotalPreorder(le)
    ensures SortedBy(Sort(s, key, le), key, le)
  {
    if |s| > 0 {
      SortSorted(s[1..], key, le);
      InsertSorted(s[0], Sort(s[1..], key, le), key, le);
    }
  }

  /** `Sort` is stable: within every key class the input order survives. */
  lemma {:induction false} SortStable<T, K(!new)>(s: seq<T>, key: T -> K, le: (K, K) -> bool, k: K)
    requires forall a :: le(a, a)
    ensures WithKey(Sort(s, key, le), key, k) == WithKey(s, key, k)
  {
    if |s| > 0 {
      var sorted := Sort(s[1..], key, le);
      SortStable(s[1..], key, le, k);
      InsertWithKey(s[0], sorted, key, le, k);
      assert ([s[0]] + sorted)[1..] == sorted;
    }
  }

  /**
   * Two elements of the same key class that occur in this order in a sequence
   * occur in this order in its `WithKey` subsequence.
   */
  lemma {:induction false} WithKeyKeepsOrder<T, K>(s: seq<T>, key: T -> K, i: nat, j: nat)
    requires i < j < |s| && key(s[i]) == key(s[j])
    ensures exists p, q :: 0 <= p < q < |WithKey(s, key, key(s[i]))|
                           && WithKey(s, key, key(s[i]))[p] == s[i]
                           && WithKey(s, key, key(s[i]))[q] == s[j]
  {
    var k := key(s[i]);
    var w := WithKey(s, key, k);
    var tail := s[1..];
    if i == 0 {
      WithKeyContains(tail, key, j - 1);
      var q' :| 0 <= q' < |WithKey(tail, key, k)| && WithKey(tail, key, k)[q'] == s[j];
      assert w[0] == s[0] && w[q' + 1] == s[j];
    } else {
      WithKeyKeepsOrder(tail, key, i - 1, j - 1);
      var p', q' :| 0 <= p' < q' < |WithKey(tail, key, k)|
                    && WithKey(tail, key, k)[p'] == s[i] && WithKey(tail, key, k)[q'] == s[j];
      if key(s[0]) == k {
        assert w[p' + 1] == s[i] && w[q' + 1] == s[j];
      } else {
        assert w == WithKey(tail, key, k);
      }
    }
  }

  lemma {:induction false} WithKeyContains<T, K>(s: seq<T>, key: T -> K, j: nat)
    requires j < |s|
    ensures exists q :: 0 <= q < |WithKey(s, key, key(s[j]))| && WithKey(s, key, key(s[j]))[q] == s[j]
  {
    var k := key(s[j]);
    var w := WithKey(s, key, k);
    if j == 0 {
      assert w[0] == s[0];
    } else {
      WithKeyContains(s[1..], key, j - 1);
      var q' :| 0 <= q' < |WithKey(s[1..], key, k)| && WithKey(s[1..], key, k)[q'] == s[j];
      if key(s[0]) == k {
        assert w[q' + 1] == s[j];
      } else {
        assert w[q'] == s[j];
      }
    }
  }
}
