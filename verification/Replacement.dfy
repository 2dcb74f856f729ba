/**
 * Writing a list of things into a map one after the other: a later one replaces an earlier one with the same key. What
 * the map ends up holding is the list without what was replaced.
 */
module Replacement {
  import opened Sums
  import opened Listings

  function Keyed<T, K(==)>(s: seq<T>, key: T -> K): map<K, T> {
    if s == [] then map[] else Keyed(s[..|s| - 1], key)[key(s[|s| - 1]) := s[|s| - 1]]
  }

  /** The things that a later one with the same key replaced. */
  function Replaced<T, K(==)>(s: seq<T>, key: T -> K): seq<T> {
    if s == [] then []
    else
      var before, k := Keyed(s[..|s| - 1], key), key(s[|s| - 1]);
      Replaced(s[..|s| - 1], key) + (if k in before then [before[k]] else [])
  }

  ghost function MapTotal<T, K>(m: map<K, T>, w: T -> int): int {
    Sum(m.Keys, k => if k in m then w(m[k]) else 0)
  }

  ghost predicate KeysDistinct<T, K>(s: seq<T>, key: T -> K) {
    forall i, j :: 0 <= i < j < |s| ==> key(s[i]) != key(s[j])
  }

  lemma {:induction false} KeyedHolds<T, K>(s: seq<T>, key: T -> K)
    ensures forall k :: k in Keyed(s, key) ==> Keyed(s, key)[k] in s && key(Keyed(s, key)[k]) == k
    ensures forall a :: a in s ==> key(a) in Keyed(s, key)
    decreases |s|
  {
    if s != [] {
      var front, last := s[..|s| - 1], s[|s| - 1];
      assert s == front + [last];
      KeyedHolds(front, key);
    }
  }

  /** Only listed things are replaced, and nothing is exactly when no two share a key. */
  lemma {:induction false} ReplacedIff<T, K>(s: seq<T>, key: T -> K)
    ensures forall a :: a in Replaced(s, key) ==> a in s
    ensures Replaced(s, key) == [] <==> KeysDistinct(s, key)
    decreases |s|
  {
    if s != [] {
      var n := |s| - 1;
      var front, last := s[..n], s[n];
      assert s == front + [last];
      ReplacedIff(front, key);
      KeyedHolds(front, key);
      if key(last) in Keyed(front, key) {
        var a := Keyed(front, key)[key(last)];
        var i :| 0 <= i < n && front[i] == a;
        assert key(s[i]) == key(s[n]);
      } else {
        assert forall i :: 0 <= i < n ==> front[i] in front && key(s[i]) != key(last);
        assert KeysDistinct(front, key) <==> KeysDistinct(s, key) by {
          assert forall i :: 0 <= i < n ==> front[i] == s[i];
        }
      }
    }
  }

  lemma MapTotalUpdate<T, K>(m: map<K, T>, k: K, a: T, w: T -> int)
    ensures MapTotal(m[k := a], w) == MapTotal(m, w) + w(a) - (if k in m then w(m[k]) else 0)
  {
    var m' := m[k := a];
    var v, v' := (x: K) => if x in m then w(m[x]) else 0, (x: K) => if x in m' then w(m'[x]) else 0;
    SumSplit(m'.Keys, v', k);
    SumCongruent(m'.Keys - {k}, v', v);
    if k in m {
      SumSplit(m.Keys, v, k);
      assert m'.Keys == m.Keys;
    } else {
      assert m'.Keys - {k} == m.Keys;
    }
  }

  /** The map holds the value of the list less the value of what was replaced. */
  lemma {:induction false} KeyedTotal<T, K>(s: seq<T>, key: T -> K, w: T -> int)
    ensures MapTotal(Keyed(s, key), w) == Total(s, w) - Total(Replaced(s, key), w)
    decreases |s|
  {
    if s != [] {
      var front, last := s[..|s| - 1], s[|s| - 1];
      var m := Keyed(front, key);
      KeyedTotal(front, key, w);
      MapTotalUpdate(m, key(last), last, w);
      if key(last) in m {
        TotalSnoc(Replaced(front, key), m[key(last)], w);
      } else {
        assert Replaced(s, key) == Replaced(front, key);
      }
    }
  }

  /** A listed thing weighs no more than the list. */
  lemma {:induction false} TotalAtLeast<T>(s: seq<T>, w: T -> int, a: T)
    requires a in s && forall x :: x in s ==> 0 <= w(x)
    ensures w(a) <= Total(s, w)
    decreases |s|
  {
    var front, last := s[..|s| - 1], s[|s| - 1];
    assert s == front + [last];
    if a in front {
      TotalAtLeast(front, w, a);
    } else {
      TotalNonNegative(front, w);
    }
  }

  lemma {:induction false} TotalNonNegative<T>(s: seq<T>, w: T -> int)
    requires forall x :: x in s ==> 0 <= w(x)
    ensures 0 <= Total(s, w)
    decreases |s|
  {
    if s != [] {
      assert s == s[..|s| - 1] + [s[|s| - 1]];
      TotalNonNegative(s[..|s| - 1], w);
    }
  }
}
