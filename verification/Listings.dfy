/** Listings of a finite set: each element once, in an order the caller cannot rely on. */
module Listings {
  import opened Prelude
  import opened Sums

  function Elements<T>(s: seq<T>): set<T> {
    set x | x in s
  }

  ghost predicate Enumerates<T>(s: seq<T>, xs: set<T>) {
    Distinct(s) && Elements(s) == xs
  }

  lemma EnumerateEmpty<T>(s: seq<T>, xs: set<T>)
    requires Enumerates(s, xs)
    ensures s == [] <==> xs == {}
  {
    if s != [] {
      assert s[0] in xs;
    }
  }

  lemma EnumerateSnoc<T>(s: seq<T>, xs: set<T>, x: T)
    requires Enumerates(s, xs) && x !in xs
    ensures Enumerates(s + [x], xs + {x})
  {
    DistinctSnoc(s, x);
  }

  lemma EnumerateDropLast<T>(s: seq<T>, xs: set<T>)
    requires Enumerates(s, xs) && s != []
    ensures s[|s| - 1] in xs
    ensures Enumerates(s[..|s| - 1], xs - {s[|s| - 1]})
  {
    var front, last := s[..|s| - 1], s[|s| - 1];
    assert s == front + [last];
    DistinctSnoc(front, last);
  }

  lemma EnumeratePrefix<T>(s: seq<T>, xs: set<T>, n: nat)
    requires Enumerates(s, xs) && n <= |s|
    ensures Enumerates(s[..n], Elements(s[..n])) && Elements(s[..n]) <= xs
  {
    forall x | x in s[..n]
      ensures x in s
    {
    }
  }

  lemma EnumerateInsertAt<T>(s: seq<T>, xs: set<T>, p: nat, x: T)
    requires Enumerates(s, xs) && x !in xs && p <= |s|
    ensures Enumerates(s[..p] + [x] + s[p..], xs + {x})
  {
    var r := s[..p] + [x] + s[p..];
    forall i, j | 0 <= i < j < |r|
      ensures r[i] != r[j]
    {
      assert i != p ==> r[i] == s[if i < p then i else i - 1];
      assert j != p ==> r[j] == s[if j < p then j else j - 1];
    }
    assert s == s[..p] + s[p..];
  }

  lemma {:induction false} EnumerateLength<T>(s: seq<T>, xs: set<T>)
    requires Enumerates(s, xs)
    ensures |s| == |xs|
    decreases |s|
  {
    if s == [] {
      EnumerateEmpty(s, xs);
    } else {
      EnumerateDropLast(s, xs);
      EnumerateLength(s[..|s| - 1], xs - {s[|s| - 1]});
    }
  }

  /** The total of a list of weighted elements. */
  function Total<T>(s: seq<T>, w: T -> int): int {
    if s == [] then 0 else Total(s[..|s| - 1], w) + w(s[|s| - 1])
  }

  lemma TotalSnoc<T>(s: seq<T>, x: T, w: T -> int)
    ensures Total(s + [x], w) == Total(s, w) + w(x)
  {
    assert (s + [x])[..|s|] == s;
  }

  /** A listing adds up to the sum over the set it lists. */
  lemma {:induction false} TotalOfListing<T>(s: seq<T>, xs: set<T>, w: T -> int)
    requires Enumerates(s, xs)
    ensures Total(s, w) == Sum(xs, w)
    decreases |s|
  {
    if s == [] {
      EnumerateEmpty(s, xs);
    } else {
      EnumerateDropLast(s, xs);
      TotalOfListing(s[..|s| - 1], xs - {s[|s| - 1]}, w);
      SumSplit(xs, w, s[|s| - 1]);
    }
  }

  lemma {:induction false} TotalPrefixMonotone<T>(s: seq<T>, w: T -> int, i: nat, j: nat)
    requires i <= j <= |s|
    requires forall x :: x in s ==> 0 <= w(x)
    ensures Total(s[..i], w) <= Total(s[..j], w)
    decreases j - i
  {
    if i < j {
      TotalPrefixMonotone(s, w, i, j - 1);
      assert s[..j] == s[..j - 1] + [s[j - 1]];
      TotalSnoc(s[..j - 1], s[j - 1], w);
    }
  }

  lemma {:induction false} TotalConcat<T>(s: seq<T>, t: seq<T>, w: T -> int)
    ensures Total(s + t, w) == Total(s, w) + Total(t, w)
    decreases |t|
  {
    if t == [] {
      assert s + t == s;
    } else {
      var front, last := t[..|t| - 1], t[|t| - 1];
      assert s + t == (s + front) + [last];
      TotalSnoc(s + front, last, w);
      TotalConcat(s, front, w);
    }
  }

  /** Lists of equal length whose weights agree place by place have the same total. */
  lemma {:induction false} TotalPointwise<S, T>(s: seq<S>, v: S -> int, t: seq<T>, w: T -> int)
    requires |s| == |t|
    requires forall i :: 0 <= i < |s| ==> v(s[i]) == w(t[i])
    ensures Total(s, v) == Total(t, w)
    decreases |s|
  {
    if s != [] {
      TotalPointwise(s[..|s| - 1], v, t[..|t| - 1], w);
    }
  }

  lemma {:induction false} TotalZero<T>(s: seq<T>, w: T -> int)
    requires forall i :: 0 <= i < |s| ==> w(s[i]) == 0
    ensures Total(s, w) == 0
    decreases |s|
  {
    if s != [] {
      TotalZero(s[..|s| - 1], w);
    }
  }
}
