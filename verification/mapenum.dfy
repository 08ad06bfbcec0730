/** Listing the values of a map, the way the reducers range over a Go map
    and optionally sort the result with a key (slices.SortFunc, which is
    not stable: rows with equal keys may come out in any order). */
module MapEnum {

  predicate SortedBy<T>(s: seq<T>, key: T -> int) {
    forall i, j :: 0 <= i < j < |s| ==> key(s[i]) <= key(s[j])
  }

  predicate AllAtLeast<T>(s: seq<T>, key: T -> int, b: int) {
    forall i :: 0 <= i < |s| ==> b <= key(s[i])
  }

  /** Insert `x` after every leading element whose key does not exceed its own. */
  function InsertBy<T>(s: seq<T>, x: T, key: T -> int): seq<T>
    decreases |s|
  {
    if |s| == 0 then [x]
    else if key(s[0]) <= key(x) then [s[0]] + InsertBy(s[1..], x, key)
    else [x] + s
  }

  /** Insertion adds exactly one copy of `x`. */
  lemma {:induction false} InsertByMultiset<T>(s: seq<T>, x: T, key: T -> int)
    ensures multiset(InsertBy(s, x, key)) == multiset(s) + multiset{x}
    decreases |s|
  {
    if |s| > 0 {
      assert s == [s[0]] + s[1..];
      if key(s[0]) <= key(x) {
        InsertByMultiset(s[1..], x, key);
      }
    }
  }

  /** A lower bound on every key survives insertion of an element above it. */
  lemma {:induction false} InsertByLower<T>(s: seq<T>, x: T, key: T -> int, b: int)
    requires AllAtLeast(s, key, b) && b <= key(x)
    ensures AllAtLeast(InsertBy(s, x, key), key, b)
    decreases |s|
  {
    if |s| > 0 && key(s[0]) <= key(x) {
      InsertByLower(s[1..], x, key, b);
      var r := InsertBy(s, x, key);
      forall i | 0 <= i < |r| ensures b <= key(r[i]) {
        if i > 0 { assert r[i] == InsertBy(s[1..], x, key)[i - 1]; }
      }
    }
  }

  /** Insertion keeps a sorted sequence sorted. */
  lemma {:induction false} InsertBySorted<T>(s: seq<T>, x: T, key: T -> int)
    requires SortedBy(s, key)
    ensures SortedBy(InsertBy(s, x, key), key)
    decreases |s|
  {
    if |s| > 0 && key(s[0]) <= key(x) {
      var t := InsertBy(s[1..], x, key);
      InsertBySorted(s[1..], x, key);
      InsertByLower(s[1..], x, key, key(s[0]));
      var r := [s[0]] + t;
      forall i, j | 0 <= i < j < |r| ensures key(r[i]) <= key(r[j]) {
        assert r[j] == t[j - 1];
        if i > 0 { assert r[i] == t[i - 1]; }
      }
    }
  }

  /** Insertion sort. */
  function SortBy<T>(s: seq<T>, key: T -> int): seq<T>
    decreases |s|
  {
    if |s| == 0 then [] else InsertBy(SortBy(s[..|s| - 1], key), s[|s| - 1], key)
  }

  /** Sorting permutes the sequence into key order. */
  lemma {:induction false} SortByFacts<T>(s: seq<T>, key: T -> int)
    ensures multiset(SortBy(s, key)) == multiset(s)
    ensures SortedBy(SortBy(s, key), key)
    decreases |s|
  {
    if |s| > 0 {
      var p := s[..|s| - 1];
      SortByFacts(p, key);
      InsertByMultiset(SortBy(p, key), s[|s| - 1], key);
      InsertBySorted(SortBy(p, key), s[|s| - 1], key);
      assert s == p + [s[|s| - 1]];
    }
  }

  /** The values of `m`, one per key, in some order. */
  method Values<K, V(==)>(m: map<K, V>) returns (vs: seq<V>)
    ensures |vs| == |m|
    ensures forall k :: k in m ==> m[k] in vs
    ensures forall v :: v in vs ==> v in m.Values
  {
    vs := [];
    var rem := m.Keys;
    ghost var done: set<K> := {};
    while rem != {}
      invariant rem !! done && rem + done == m.Keys
      invariant |vs| == |done|
      invariant forall k :: k in done ==> m[k] in vs
      invariant forall v :: v in vs ==> v in m.Values
      decreases |rem|
    {
      var k :| k in rem;
      vs := vs + [m[k]];
      rem := rem - {k};
      done := done + {k};
    }
    assert done == m.Keys;
  }

  /** The values of `m`, one per key, ordered by `key`. */
  method SortedValues<K, V(==)>(m: map<K, V>, key: V -> int) returns (vs: seq<V>)
    ensures |vs| == |m|
    ensures forall k :: k in m ==> m[k] in vs
    ensures forall v :: v in vs ==> v in m.Values
    ensures SortedBy(vs, key)
  {
    var unsorted := Values(m);
    vs := SortBy(unsorted, key);
    SortByFacts(unsorted, key);
    assert |vs| == |multiset(vs)| == |multiset(unsorted)| == |unsorted|;
    forall v | v in unsorted ensures v in vs {
      assert v in multiset(unsorted);
    }
    forall v | v in vs ensures v in m.Values {
      assert v in multiset(vs);
      assert v in unsorted;
    }
  }
}
