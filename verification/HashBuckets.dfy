/**
  The bucket chains of a hash table: item handles linked both ways through their
  own fields, one chain per bucket, rebuilt in place when the table doubles.
 */
module HashBuckets {
  import opened Basics
  import opened Links
  import opened Bits

  /** The bucket of a hash value among `m` buckets: the mask keeps the bits below `m`. */
  function Bucket(h: nat, m: nat): (b: nat)
    requires m > 0
    ensures b < m
  {
    AndBelow(h, m - 1);
    And(h, m - 1)
  }

  function HashOf(hash: map<nat, nat>, t: nat): nat {
    if t in hash then hash[t] else 0
  }

  ghost function Empties(m: nat): (r: seq<seq<nat>>)
    ensures |r| == m && forall b :: 0 <= b < m ==> r[b] == []
  {
    seq(m, _ => [])
  }

  /** Items put one after the other at the front of their buckets. */
  ghost function Rehash(v: seq<nat>, hash: map<nat, nat>, m: nat): (r: seq<seq<nat>>)
    requires m > 0
    ensures |r| == m
  {
    if v == [] then Empties(m)
    else
      var r := Rehash(v[..|v| - 1], hash, m);
      var t := v[|v| - 1];
      var b := Bucket(HashOf(hash, t), m);
      r[b := [t] + r[b]]
  }

  /** The buckets hold exactly the given items, each in the bucket of its hash. */
  ghost predicate Placed(lists: seq<seq<nat>>, hash: map<nat, nat>, members: set<nat>) {
    && |lists| > 0
    && (forall b :: 0 <= b < |lists| ==> Distinct(lists[b]))
    && (forall b, t {:trigger t in lists[b]} :: 0 <= b < |lists| ==>
         (t in lists[b] <==> t in members && Bucket(HashOf(hash, t), |lists|) == b))
  }

  ghost function Elems(v: seq<nat>): set<nat> {
    set t | t in v
  }

  lemma {:induction false} RehashPlaced(v: seq<nat>, hash: map<nat, nat>, m: nat)
    requires m > 0 && Distinct(v)
    ensures Placed(Rehash(v, hash, m), hash, Elems(v))
    decreases |v|
  {
    hide Bucket, HashOf, Placed;
    if v == [] {
      PlacedEmpty(hash, m);
      assert Elems(v) == {};
    } else {
      var u, t := v[..|v| - 1], v[|v| - 1];
      assert v == u + [t];
      assert t !in u;
      RehashPlaced(u, hash, m);
      PlacedPush(Rehash(u, hash, m), hash, Elems(u), t);
      assert Elems(v) == Elems(u) + {t};
    }
  }

  lemma PlacedEmpty(hash: map<nat, nat>, m: nat)
    requires m > 0
    ensures Placed(Empties(m), hash, {})
  {
  }

  /** Putting a new item at the front of the bucket of its hash. */
  lemma PlacedPush(lists: seq<seq<nat>>, hash: map<nat, nat>, members: set<nat>, t: nat)
    requires Placed(lists, hash, members) && t !in members
    ensures |lists| > 0
    ensures var b := Bucket(HashOf(hash, t), |lists|);
            Placed(lists[b := [t] + lists[b]], hash, members + {t})
  {
    hide Bucket, HashOf;
    var b := Bucket(HashOf(hash, t), |lists|);
    var s := lists[b := [t] + lists[b]];
    assert t !in lists[b];
    forall c, x | 0 <= c < |s|
      ensures x in s[c] <==> x in members + {t} && Bucket(HashOf(hash, x), |s|) == c
    {
      assert x in lists[c] <==> x in members && Bucket(HashOf(hash, x), |lists|) == c;
    }
  }

  lemma PlacedFrame(lists: seq<seq<nat>>, hash: map<nat, nat>, hash': map<nat, nat>, members: set<nat>)
    requires Placed(lists, hash, members) && forall t :: t in members ==> HashOf(hash, t) == HashOf(hash', t)
    ensures Placed(lists, hash', members)
  {
    hide Bucket, HashOf;
  }

  /** Taking an item out of its chain. */
  lemma PlacedCut(lists: seq<seq<nat>>, hash: map<nat, nat>, members: set<nat>, b: nat, k: nat)
    requires Placed(lists, hash, members) && b < |lists| && k < |lists[b]|
    ensures Placed(lists[b := Cut(lists[b], k)], hash, members - {lists[b][k]})
  {
    hide Bucket, HashOf, Cut;
    CutDistinct(lists[b], k);
    var t, s := lists[b][k], lists[b := Cut(lists[b], k)];
    forall c, x | 0 <= c < |s|
      ensures x in s[c] <==> x in members - {t} && Bucket(HashOf(hash, x), |s|) == c
    {
      assert x in lists[c] <==> x in members && Bucket(HashOf(hash, x), |lists|) == c;
      assert t in lists[b];
    }
  }

  /** All chains end to end: the order in which doubling visits the items. */
  ghost function Flatten(lists: seq<seq<nat>>): seq<nat> {
    if lists == [] then [] else Flatten(lists[..|lists| - 1]) + lists[|lists| - 1]
  }

  lemma {:induction false} FlattenHas(lists: seq<seq<nat>>, t: nat)
    ensures t in Flatten(lists) <==> exists b :: 0 <= b < |lists| && t in lists[b]
    decreases |lists|
  {
    if lists != [] {
      var n := |lists| - 1;
      FlattenHas(lists[..n], t);
      if t in lists[n] {
        assert t in Flatten(lists);
      }
      if exists b :: 0 <= b < |lists| && t in lists[b] {
        var b :| 0 <= b < |lists| && t in lists[b];
        assert b < n ==> lists[..n][b] == lists[b];
      }
      if t in Flatten(lists) && t !in lists[n] {
        var b :| 0 <= b < n && t in lists[..n][b];
        assert lists[b] == lists[..n][b];
      }
    }
  }

  ghost predicate Apart(lists: seq<seq<nat>>) {
    && (forall b :: 0 <= b < |lists| ==> Distinct(lists[b]))
    && (forall b, c, t :: 0 <= b < |lists| && 0 <= c < |lists| && t in lists[b] && t in lists[c] ==> b == c)
  }

  lemma {:induction false} FlattenDistinct(lists: seq<seq<nat>>)
    requires Apart(lists)
    ensures Distinct(Flatten(lists))
    decreases |lists|
  {
    if lists != [] {
      var n := |lists| - 1;
      var init := lists[..n];
      assert forall b :: 0 <= b < n ==> init[b] == lists[b];
      assert Apart(init);
      FlattenDistinct(init);
      var f, l := Flatten(init), lists[n];
      forall i, j | 0 <= i < j < |f + l|
        ensures (f + l)[i] != (f + l)[j]
      {
        if i < |f| <= j {
          FlattenHas(init, f[i]);
          assert f[i] in f && l[j - |f|] in l;
        }
      }
    }
  }

  lemma PlacedApart(lists: seq<seq<nat>>, hash: map<nat, nat>, members: set<nat>)
    requires Placed(lists, hash, members)
    ensures Apart(lists) && forall t :: t in Flatten(lists) <==> t in members
  {
    hide Bucket, HashOf, Flatten;
    forall t
      ensures t in Flatten(lists) <==> t in members
    {
      FlattenHas(lists, t);
      if t in members {
        assert t in lists[Bucket(HashOf(hash, t), |lists|)];
      }
    }
  }

  lemma PlacedSome(lists: seq<seq<nat>>, hash: map<nat, nat>, members: set<nat>)
    requires Placed(lists, hash, members)
    ensures |lists| > 0
  {
  }

  /**
    Doubling loses and duplicates nothing: the new buckets hold the same items,
    each in the bucket of its hash.
   */
  lemma DoublingKeepsItems(lists: seq<seq<nat>>, hash: map<nat, nat>, members: set<nat>)
    requires Placed(lists, hash, members)
    ensures Placed(Rehash(Flatten(lists), hash, 2 * |lists|), hash, members)
  {
    hide Bucket, HashOf, Flatten, Placed, Rehash;
    PlacedSome(lists, hash, members);
    PlacedApart(lists, hash, members);
    FlattenDistinct(lists);
    RehashPlaced(Flatten(lists), hash, 2 * |lists|);
    assert Elems(Flatten(lists)) == members;
  }

  // ----- how even the buckets are

  /** The ideal chain length for `n` items in 2^lb buckets, by shift and mask. */
  function IdealLength(n: nat, lb: nat): nat {
    Shr(n, lb) + (if And(n, Pow2(lb) - 1) != 0 then 1 else 0)
  }

  /** It is the ceiling of n / 2^lb: the least chain length with which the items fit. */
  lemma IdealIsCeiling(n: nat, lb: nat, k: nat)
    ensures n <= Pow2(lb) * k <==> IdealLength(n, lb) <= k
  {
    hide Shr, And, Pow2;
    ShiftAndMask(n, lb);
    CeilingLeast(n, Pow2(lb), Shr(n, lb), And(n, Pow2(lb) - 1), k);
  }

  lemma CeilingLeast(n: nat, m: nat, q: nat, r: nat, k: nat)
    requires n == m * q + r && r < m
    ensures n <= m * k <==> q + (if r != 0 then 1 else 0) <= k
  {
    if q > k {
      MulLess(m, k, q);
    } else if q < k {
      assert m * (q + 1) == m * q + m;
      if q + 1 < k {
        MulLess(m, q + 1, k);
      }
    }
  }

  lemma MulLess(m: nat, a: nat, b: nat)
    requires m > 0 && a < b
    ensures m * a < m * b
  {
    assert m * b == m * a + m * (b - a);
    assert m * (b - a) >= 1;
  }

  ghost function Over(n: nat, ideal: nat): nat {
    if n > ideal then n - ideal else 0
  }

  /** How many items are beyond the ideal length of their chain. */
  ghost function Excess(lists: seq<seq<nat>>, ideal: nat): nat {
    if lists == [] then 0 else Excess(lists[..|lists| - 1], ideal) + Over(|lists[|lists| - 1]|, ideal)
  }

  lemma {:induction false} ExcessPush(lists: seq<seq<nat>>, ideal: nat, b: nat, l: seq<nat>)
    requires b < |lists| && |l| == |lists[b]| + 1
    ensures Excess(lists[b := l], ideal) == Excess(lists, ideal) + (if |l| > ideal then 1 else 0)
    decreases |lists|
  {
    var n := |lists| - 1;
    var s := lists[b := l];
    if b < n {
      assert s[..n] == lists[..n][b := l];
      ExcessPush(lists[..n], ideal, b, l);
    } else {
      assert s[..n] == lists[..n];
    }
  }

  lemma {:induction false} ExcessEmpty(m: nat, ideal: nat)
    ensures Excess(Empties(m), ideal) == 0
  {
    if m > 0 {
      assert Empties(m)[..m - 1] == Empties(m - 1);
      ExcessEmpty(m - 1, ideal);
    }
  }

  /** The expansion multiplier of a chain built up to `c` items. */
  function Mult(c: nat, ideal: nat): nat {
    if c == 0 then 0
    else
      var k := Mult(c - 1, ideal);
      if c > ideal && c > k * ideal then k + 1 else k
  }

  /**
    A chain within the ideal keeps multiplier zero; the first item beyond sets it to
    one; past that it is the chain length divided by the ideal, rounded up. With an
    ideal of one it is one less than the chain length.
   */
  lemma MultIsRatio(c: nat, ideal: nat)
    requires ideal >= 1
    ensures c <= ideal ==> Mult(c, ideal) == 0
    ensures c == ideal + 1 ==> Mult(c, ideal) == 1
    ensures ideal == 1 && c >= 1 ==> Mult(c, ideal) == c - 1
    ensures ideal >= 2 && c > ideal + 1 ==> (Mult(c, ideal) - 1) * ideal < c <= Mult(c, ideal) * ideal
  {
    hide Mult;
    if ideal == 1 {
      MultOfOne(c);
    } else {
      MultAbove(c, ideal);
    }
  }

  lemma {:induction false} MultOfOne(c: nat)
    ensures Mult(c, 1) == if c == 0 then 0 else c - 1
  {
    if c > 0 {
      MultOfOne(c - 1);
    }
  }

  lemma {:induction false} MultAbove(c: nat, ideal: nat)
    requires ideal >= 2
    ensures c <= ideal ==> Mult(c, ideal) == 0
    ensures c == ideal + 1 ==> Mult(c, ideal) == 1
    ensures c > ideal + 1 ==> (Mult(c, ideal) - 1) * ideal < c <= Mult(c, ideal) * ideal
  {
    if c > 0 {
      MultAbove(c - 1, ideal);
      var k := Mult(c - 1, ideal);
      assert (k + 1) * ideal == k * ideal + ideal;
    }
  }

  // ----- the order in which doubling visits the items

  lemma RehashSnoc(v: seq<nat>, hash: map<nat, nat>, m: nat, t: nat)
    requires m > 0
    ensures var r, b := Rehash(v, hash, m), Bucket(HashOf(hash, t), m);
            Rehash(v + [t], hash, m) == r[b := [t] + r[b]]
  {
    var w := v + [t];
    assert w[..|w| - 1] == v;
  }

  lemma RehashApart(v: seq<nat>, hash: map<nat, nat>, m: nat)
    requires m > 0 && Distinct(v)
    ensures Apart(Rehash(v, hash, m))
    ensures forall b, t :: 0 <= b < m && t in Rehash(v, hash, m)[b] ==> t in v
  {
    hide Rehash, Bucket, HashOf, Apart;
    RehashPlaced(v, hash, m);
    PlacedApart(Rehash(v, hash, m), hash, Elems(v));
    forall b, t | 0 <= b < m && t in Rehash(v, hash, m)[b]
      ensures t in v
    {
      assert t in Elems(v);
    }
  }

  ghost function Visited(lists: seq<seq<nat>>, i: nat, j: nat): seq<nat>
    requires i < |lists| && j <= |lists[i]|
  {
    Flatten(lists[..i]) + lists[i][..j]
  }

  lemma VisitNext(lists: seq<seq<nat>>, i: nat, j: nat)
    requires Apart(lists) && i < |lists| && j < |lists[i]|
    ensures Distinct(Visited(lists, i, j)) && lists[i][j] !in Visited(lists, i, j)
    ensures Visited(lists, i, j + 1) == Visited(lists, i, j) + [lists[i][j]]
  {
    hide Flatten;
    var init, l := lists[..i], lists[i];
    assert forall b :: 0 <= b < i ==> init[b] == lists[b];
    assert Apart(init);
    FlattenDistinct(init);
    var f := Flatten(init);
    forall k | 0 <= k <= j
      ensures l[k] !in f
    {
      FlattenHas(init, l[k]);
      assert l[k] in l;
    }
    assert l[..j + 1] == l[..j] + [l[j]];
  }

  lemma VisitBucket(lists: seq<seq<nat>>, i: nat)
    requires i < |lists|
    ensures Visited(lists, i, 0) == Flatten(lists[..i])
    ensures Visited(lists, i, |lists[i]|) == Flatten(lists[..i + 1])
  {
    assert lists[..i + 1][..i] == lists[..i];
    assert lists[i][..|lists[i]|] == lists[i];
  }
}
