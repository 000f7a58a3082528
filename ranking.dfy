/** Stable descending order of positions by a real-valued key: the order
    Python's `sorted(xs, key=..., reverse=True)` and `list.sort(...,
    reverse=True)` produce. A stable sort keeps equal keys in their
    original order, so the result is the unique arrangement in which each
    position comes before every position with a smaller key, and before
    every later position with an equal key. */
module Ranking {

  /** Position `i` is placed before position `j`. */
  predicate Before(keys: seq<real>, i: nat, j: nat)
    requires i < |keys| && j < |keys|
  {
    keys[i] > keys[j] || (keys[i] == keys[j] && i < j)
  }

  predicate InRange(keys: seq<real>, t: seq<nat>) {
    forall a :: 0 <= a < |t| ==> t[a] < |keys|
  }

  predicate Ranked(keys: seq<real>, t: seq<nat>) {
    && InRange(keys, t)
    && forall a, b :: 0 <= a < b < |t| ==> Before(keys, t[a], t[b])
  }

  function Insert(keys: seq<real>, x: nat, t: seq<nat>): (r: seq<nat>)
    requires x < |keys| && InRange(keys, t)
    ensures InRange(keys, r)
    ensures multiset(r) == multiset(t) + multiset{x}
  {
    if t == [] || Before(keys, x, t[0]) then [x] + t
    else
      assert t == [t[0]] + t[1..];
      [t[0]] + Insert(keys, x, t[1..])
  }

  lemma {:induction false} InsertRanked(keys: seq<real>, x: nat, t: seq<nat>)
    requires x < |keys| && Ranked(keys, t) && x !in t
    ensures Ranked(keys, Insert(keys, x, t))
  {
    if t == [] || Before(keys, x, t[0]) {
      if t != [] {
        HeadBeforeAll(keys, x, t);
      }
      ConsRanked(keys, x, t);
    } else {
      assert t == [t[0]] + t[1..];
      forall a, b | 0 <= a < b < |t[1..]| ensures Before(keys, t[1..][a], t[1..][b]) {
        assert t[1..][a] == t[a + 1] && t[1..][b] == t[b + 1];
      }
      InsertRanked(keys, x, t[1..]);
      FirstBeforeRest(keys, x, t);
      assert t[0] < |keys|;
      ConsRanked(keys, t[0], Insert(keys, x, t[1..]));
    }
  }

  /** A ranked sequence stays ranked under a head placed before all of it. */
  lemma ConsRanked(keys: seq<real>, y: nat, u: seq<nat>)
    requires y < |keys| && Ranked(keys, u)
    requires forall c :: 0 <= c < |u| ==> Before(keys, y, u[c])
    ensures Ranked(keys, [y] + u)
  {
    var r := [y] + u;
    forall a, b | 0 <= a < b < |r| ensures Before(keys, r[a], r[b]) {
      assert r[b] == u[b - 1];
      if a > 0 {
        assert r[a] == u[a - 1];
      }
    }
  }

  /** What comes before the head of a ranked sequence comes before all
      of it. */
  lemma HeadBeforeAll(keys: seq<real>, x: nat, t: seq<nat>)
    requires x < |keys| && Ranked(keys, t) && t != [] && Before(keys, x, t[0])
    ensures forall c :: 0 <= c < |t| ==> Before(keys, x, t[c])
  {
    forall c | 0 < c < |t| ensures Before(keys, x, t[c]) {
      assert Before(keys, t[0], t[c]);
    }
  }

  /** When `x` goes after the head, the head comes before everything the
      insertion into the tail yields. */
  lemma FirstBeforeRest(keys: seq<real>, x: nat, t: seq<nat>)
    requires x < |keys| && Ranked(keys, t) && t != [] && !Before(keys, x, t[0]) && x !in t
    ensures forall c :: 0 <= c < |Insert(keys, x, t[1..])| ==> Before(keys, t[0], Insert(keys, x, t[1..])[c])
  {
    assert t == [t[0]] + t[1..];
    var rest := Insert(keys, x, t[1..]);
    forall c | 0 <= c < |rest| ensures Before(keys, t[0], rest[c]) {
      var y := rest[c];
      assert y in multiset(rest);
      assert y in multiset(t[1..]) + multiset{x};
      if y != x {
        assert y in t[1..];
        var d :| 0 <= d < |t[1..]| && t[1..][d] == y;
        assert t[d + 1] == y;
      } else {
        assert x != t[0];
      }
    }
  }

  function SortIndices(keys: seq<real>, s: seq<nat>): (r: seq<nat>)
    requires InRange(keys, s)
    ensures InRange(keys, r)
    ensures multiset(r) == multiset(s)
  {
    if s == [] then []
    else
      assert s == [s[0]] + s[1..];
      Insert(keys, s[0], SortIndices(keys, s[1..]))
  }

  predicate Distinct(s: seq<nat>) {
    forall a, b :: 0 <= a < b < |s| ==> s[a] != s[b]
  }

  lemma {:induction false} SortRanked(keys: seq<real>, s: seq<nat>)
    requires InRange(keys, s) && Distinct(s)
    ensures Ranked(keys, SortIndices(keys, s))
  {
    if s != [] {
      assert s == [s[0]] + s[1..];
      SortRanked(keys, s[1..]);
      var t := SortIndices(keys, s[1..]);
      assert s[0] !in t by {
        assert forall c :: 0 <= c < |s[1..]| ==> s[1..][c] == s[c + 1] != s[0];
        assert s[0] !in s[1..];
        assert s[0] !in multiset(s[1..]);
        assert s[0] !in multiset(t);
      }
      InsertRanked(keys, s[0], t);
    }
  }

  function Range(n: nat): (r: seq<nat>)
    ensures |r| == n && forall i :: 0 <= i < n ==> r[i] == i
  {
    seq(n, i => i)
  }

  /** The positions of `keys`, highest key first, ties in position order. */
  function RankDesc(keys: seq<real>): (r: seq<nat>)
    ensures |r| == |keys|
    ensures Ranked(keys, r)
    ensures forall i :: 0 <= i < |keys| ==> i in r
  {
    var s := Range(|keys|);
    var r := SortIndices(keys, s);
    SortRanked(keys, s);
    assert forall i :: 0 <= i < |keys| ==> i in r by {
      forall i | 0 <= i < |keys| ensures i in r {
        assert s[i] == i;
        assert i in multiset(s);
      }
    }
    assert |r| == |multiset(r)| == |multiset(s)| == |keys|;
    r
  }

  /** What callers of a stable descending sort rely on: keys never increase
      along the ranking, and equal keys keep their original order. */
  lemma RankedOrder(keys: seq<real>, r: seq<nat>, a: nat, b: nat)
    requires Ranked(keys, r) && a < b < |r|
    ensures keys[r[a]] >= keys[r[b]]
    ensures keys[r[a]] == keys[r[b]] ==> r[a] < r[b]
  {
    assert Before(keys, r[a], r[b]);
  }

  /** The head of a ranking comes before every other position in it. */
  lemma HeadFirst(keys: seq<real>, r: seq<nat>, z: nat)
    requires Ranked(keys, r) && z in r && z != r[0]
    ensures Before(keys, r[0], z)
  {
    var i :| 0 <= i < |r| && r[i] == z;
    assert i > 0;
  }

  /** A ranked arrangement of all positions is unique: any two coincide. */
  lemma {:induction false} RankedUnique(keys: seq<real>, r1: seq<nat>, r2: seq<nat>)
    requires Ranked(keys, r1) && Ranked(keys, r2)
    requires multiset(r1) == multiset(r2)
    ensures r1 == r2
    decreases |r1|
  {
    assert |r1| == |multiset(r1)| == |multiset(r2)| == |r2|;
    if r1 != [] {
      assert r1[0] in multiset(r2) && r2[0] in multiset(r1);
      if r1[0] != r2[0] {
        HeadFirst(keys, r1, r2[0]);
        HeadFirst(keys, r2, r1[0]);
      }
      assert r1 == [r1[0]] + r1[1..];
      assert r2 == [r2[0]] + r2[1..];
      assert multiset(r1) == multiset{r1[0]} + multiset(r1[1..]);
      assert multiset(r2) == multiset{r2[0]} + multiset(r2[1..]);
      assert multiset(r1[1..]) == multiset(r1) - multiset{r1[0]};
      assert multiset(r2[1..]) == multiset(r2) - multiset{r2[0]};
      RankedUnique(keys, r1[1..], r2[1..]);
    }
  }

  /** The positions of a ranking are all different. */
  lemma RankedDistinct(keys: seq<real>, r: seq<nat>)
    requires Ranked(keys, r)
    ensures Distinct(r)
  {
    forall a, b | 0 <= a < b < |r| ensures r[a] != r[b] {
      assert Before(keys, r[a], r[b]);
    }
  }

  /** `sorted(xs, key=..., reverse=True)`: the elements of `xs` in the order
      of `RankDesc` on their keys. */
  function SortDesc<T>(xs: seq<T>, keys: seq<real>): (r: seq<T>)
    requires |keys| == |xs|
    ensures |r| == |xs|
    ensures forall i :: 0 <= i < |r| ==> RankDesc(keys)[i] < |xs| && r[i] == xs[RankDesc(keys)[i]]
  {
    var order := RankDesc(keys);
    seq(|xs|, i requires 0 <= i < |xs| => xs[order[i]])
  }

  /** The sorted elements have non-increasing keys and no position is
      taken twice (every position is taken, by `RankDesc`). */
  lemma SortDescFacts<T>(xs: seq<T>, keys: seq<real>)
    requires |keys| == |xs|
    ensures forall a, b :: 0 <= a < b < |xs| ==> keys[RankDesc(keys)[a]] >= keys[RankDesc(keys)[b]]
    ensures Distinct(RankDesc(keys))
  {
    var order := RankDesc(keys);
    forall a, b | 0 <= a < b < |xs| ensures keys[order[a]] >= keys[order[b]] {
      RankedOrder(keys, order, a, b);
    }
    RankedDistinct(keys, order);
  }

  /** Sorting loses no element. */
  lemma SortedHasAll<T>(xs: seq<T>, keys: seq<real>, j: nat)
    requires |keys| == |xs| && j < |xs|
    ensures xs[j] in SortDesc(xs, keys)
  {
    var order := RankDesc(keys);
    assert j in order;
    var p :| 0 <= p < |order| && order[p] == j;
    assert SortDesc(xs, keys)[p] == xs[j];
  }

  /** Cutting the sorted elements to `n` keeps the best ones: an element
      left out has a key no greater than that of any element kept. */
  lemma TakeSortedIsTop<T>(xs: seq<T>, keys: seq<real>, n: nat, j: nat)
    requires |keys| == |xs| && j < |xs|
    requires xs[j] !in Take(SortDesc(xs, keys), n)
    ensures forall i :: 0 <= i < |Take(SortDesc(xs, keys), n)| ==> keys[j] <= keys[RankDesc(keys)[i]]
  {
    var order := RankDesc(keys);
    var m := Take(SortDesc(xs, keys), n);
    assert j in order;
    var p :| 0 <= p < |order| && order[p] == j;
    assert p >= |m|;
    forall i | 0 <= i < |m| ensures keys[j] <= keys[order[i]] {
      RankedOrder(keys, order, i, p);
    }
  }

  /** `xs[:n]`. */
  function Take<T>(xs: seq<T>, n: nat): (r: seq<T>)
    ensures |r| <= n && |r| <= |xs| && r == xs[..|r|]
    ensures |xs| <= n ==> r == xs
    ensures n <= |xs| ==> |r| == n
  {
    if |xs| <= n then xs else xs[..n]
  }
}
