/** Sums of integer weights over finite sets: the balances and tree sums of the model. */
module Sums {

  ghost function Sum<K>(ks: set<K>, w: K -> int): int
  {
    if ks == {} then 0
    else
      var k :| k in ks;
      w(k) + Sum(ks - {k}, w)
  }

  /** Any element may be split off first. */
  lemma SumSplit<K>(ks: set<K>, w: K -> int, k: K)
    requires k in ks
    ensures Sum(ks, w) == w(k) + Sum(ks - {k}, w)
    decreases |ks|
  {
    var p :| p in ks && Sum(ks, w) == w(p) + Sum(ks - {p}, w);
    if p != k {
      SumSplit(ks - {p}, w, k);
      SumSplit(ks - {k}, w, p);
      assert ks - {p} - {k} == ks - {k} - {p};
    }
  }

  /** Weights that agree on the set give the same sum. */
  lemma {:induction false} SumCongruent<K>(ks: set<K>, v: K -> int, w: K -> int)
    requires forall k :: k in ks ==> v(k) == w(k)
    ensures Sum(ks, v) == Sum(ks, w)
    decreases |ks|
  {
    if ks != {} {
      var k :| k in ks;
      SumSplit(ks, v, k);
      SumSplit(ks, w, k);
      SumCongruent(ks - {k}, v, w);
    }
  }

  lemma {:induction false} SumNonNegative<K>(ks: set<K>, w: K -> int)
    requires forall k :: k in ks ==> 0 <= w(k)
    ensures 0 <= Sum(ks, w)
    ensures forall k :: k in ks ==> w(k) <= Sum(ks, w)
    decreases |ks|
  {
    if ks != {} {
      var p :| p in ks && Sum(ks, w) == w(p) + Sum(ks - {p}, w);
      SumNonNegative(ks - {p}, w);
      forall k | k in ks
        ensures w(k) <= Sum(ks, w)
      {
        if k != p {
          assert k in ks - {p};
        }
      }
    }
  }

  /** Sums over disjoint sets add up. */
  lemma {:induction false} SumUnion<K>(a: set<K>, b: set<K>, w: K -> int)
    requires a !! b
    ensures Sum(a + b, w) == Sum(a, w) + Sum(b, w)
    decreases |a|
  {
    if a == {} {
      assert a + b == b;
    } else {
      var k :| k in a;
      SumSplit(a, w, k);
      SumSplit(a + b, w, k);
      assert a + b - {k} == (a - {k}) + b;
      SumUnion(a - {k}, b, w);
    }
  }

  /** Elements of weight zero do not contribute. */
  lemma SumSupport<K>(small: set<K>, big: set<K>, w: K -> int)
    requires small <= big
    requires forall k :: k in big && k !in small ==> w(k) == 0
    ensures Sum(small, w) == Sum(big, w)
  {
    var rest := big - small;
    assert small + rest == big;
    SumUnion(small, rest, w);
    SumCongruent(rest, w, k => 0);
    SumZero(rest);
  }

  lemma {:induction false} SumZero<K>(ks: set<K>)
    ensures Sum(ks, (k: K) => 0) == 0
    decreases |ks|
  {
    if ks != {} {
      var k :| k in ks;
      SumSplit(ks, (k: K) => 0, k);
      SumZero(ks - {k});
    }
  }
}
