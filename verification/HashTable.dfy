/**
  The hash table: items linked both ways in the order they were added, and linked
  again into the chains of a bucket array that doubles when a chain grows long.
 */
module HashTable {
  import opened Basics
  import opened Links
  import opened Bits
  import opened HashBuckets

  const INITIAL_LOG2: nat := 5
  const CAPACITY: nat := 10

  type Key = seq<nat>

  // ----- bucket chains

  /** Bucket `b` starts at `heads[b]`, links `lists[b]` both ways and counts it. */
  ghost predicate Linked(next: map<nat, nat>, prev: map<nat, nat>, heads: seq<nat>, counts: seq<nat>,
                         lists: seq<seq<nat>>) {
    && |heads| == |lists| && |counts| == |lists|
    && (forall b :: 0 <= b < |lists| ==> DChain(next, prev, heads[b], lists[b]))
    && (forall b :: 0 <= b < |lists| ==> counts[b] == |lists[b]|)
  }

  lemma LinkedPush(next: map<nat, nat>, prev: map<nat, nat>, heads: seq<nat>, counts: seq<nat>, lists: seq<seq<nat>>,
                   b: nat, t: nat)
    requires Linked(next, prev, heads, counts, lists) && Apart(lists) && b < |lists| && t != NULL
    requires forall c :: 0 <= c < |lists| ==> t !in lists[c]
    ensures b < |heads| && b < |counts|
    ensures heads[b] != NULL ==> heads[b] in lists[b]
    ensures var prev' := if heads[b] == NULL then prev[t := NULL] else prev[t := NULL][heads[b] := t];
            Linked(next[t := heads[b]], prev', heads[b := t], counts[b := counts[b] + 1], lists[b := [t] + lists[b]])
  {
    hide DChain;
    var prev' := if heads[b] == NULL then prev[t := NULL] else prev[t := NULL][heads[b] := t];
    HeadOf(next, prev, heads[b], lists[b]);
    DChainPushFront(next, prev, heads[b], lists[b], t);
    var lists' := lists[b := [t] + lists[b]];
    forall c | 0 <= c < |lists|
      ensures DChain(next[t := heads[b]], prev', heads[b := t][c], lists'[c])
    {
      if c != b {
        assert heads[b] != NULL ==> heads[b] !in lists[c];
        InBoth(next, prev, heads[c], lists[c]);
        DChainFrame(next, prev, next[t := heads[b]], prev', heads[c], lists[c]);
      }
    }
  }

  lemma HeadOf(next: map<nat, nat>, prev: map<nat, nat>, head: nat, list: seq<nat>)
    requires DChain(next, prev, head, list)
    ensures if list == [] then head == NULL else head == list[0] && head != NULL
  {
  }

  lemma InBoth(next: map<nat, nat>, prev: map<nat, nat>, head: nat, list: seq<nat>)
    requires DChain(next, prev, head, list)
    ensures forall t :: t in list ==> t != NULL && t in next && t in prev
  {
    forall t | t in list
      ensures t != NULL && t in next && t in prev
    {
      var i :| 0 <= i < |list| && list[i] == t;
    }
  }

  lemma LinkedCut(next: map<nat, nat>, prev: map<nat, nat>, heads: seq<nat>, counts: seq<nat>, lists: seq<seq<nat>>,
                  b: nat, k: nat)
    requires Linked(next, prev, heads, counts, lists) && Apart(lists) && b < |lists| && k < |lists[b]|
    ensures b < |heads| && b < |counts| && counts[b] > 0
    ensures var t := lists[b][k];
            && t in next && t in prev
            && Linked(DNext(next, prev, t), DPrev(next, prev, t),
                      heads[b := if heads[b] == t then next[t] else heads[b]],
                      counts[b := counts[b] - 1], lists[b := Cut(lists[b], k)])
  {
    hide DChain, DNext, DPrev, Cut;
    var t, l := lists[b][k], lists[b];
    DChainCut(next, prev, heads[b], l, k);
    var heads' := heads[b := if heads[b] == t then next[t] else heads[b]];
    var lists' := lists[b := Cut(l, k)];
    forall c | 0 <= c < |lists|
      ensures DChain(DNext(next, prev, t), DPrev(next, prev, t), heads'[c], lists'[c])
    {
      if c != b {
        assert k > 0 ==> l[k - 1] in l;
        assert k + 1 < |l| ==> l[k + 1] in l;
        InBoth(next, prev, heads[c], lists[c]);
        CutFrame(next, prev, t, lists[c]);
        DChainFrame(next, prev, DNext(next, prev, t), DPrev(next, prev, t), heads[c], lists[c]);
      }
    }
  }

  lemma CutFrame(next: map<nat, nat>, prev: map<nat, nat>, t: nat, list: seq<nat>)
    requires t in next && t in prev && prev[t] !in list && next[t] !in list
    requires forall x :: x in list ==> x in next && x in prev
    ensures forall x :: x in list ==> x in DNext(next, prev, t) && DNext(next, prev, t)[x] == next[x]
    ensures forall x :: x in list ==> x in DPrev(next, prev, t) && DPrev(next, prev, t)[x] == prev[x]
  {
  }

  // ----- doubling

  /** The items `v` have moved to the new buckets; the others still carry their old links. */
  ghost predicate Moved(next0: map<nat, nat>, next: map<nat, nat>, v: seq<nat>) {
    forall x :: x in next0 && x !in v ==> x in next && next[x] == next0[x]
  }

  /** Multipliers and the count of items beyond the ideal, for the given chains. */
  ghost predicate Evened(counts: seq<nat>, mults: seq<nat>, lists: seq<seq<nat>>, ideal: nat, nonideal: nat) {
    && |counts| == |lists| && |mults| == |lists| && nonideal == Excess(lists, ideal)
    && (forall b :: 0 <= b < |lists| ==> counts[b] == |lists[b]|)
    && (forall b :: 0 <= b < |lists| ==> mults[b] == Mult(counts[b], ideal))
  }

  lemma EvenedPush(counts: seq<nat>, mults: seq<nat>, lists: seq<seq<nat>>, ideal: nat, nonideal: nat, b: nat, t: nat)
    requires Evened(counts, mults, lists, ideal, nonideal) && b < |lists|
    ensures b < |counts| && b < |mults|
    ensures var c, l := counts[b] + 1, [t] + lists[b];
            Evened(counts[b := c], mults[b := if c > ideal && c > mults[b] * ideal then mults[b] + 1 else mults[b]],
                   lists[b := l], ideal, if c > ideal then nonideal + 1 else nonideal)
  {
    ExcessPush(lists, ideal, b, [t] + lists[b]);
  }

  lemma EvenSizes(next: map<nat, nat>, prev: map<nat, nat>, heads: seq<nat>, counts: seq<nat>, mults: seq<nat>,
                  lists: seq<seq<nat>>, ideal: nat, nonideal: nat)
    requires Linked(next, prev, heads, counts, lists) && Evened(counts, mults, lists, ideal, nonideal)
    ensures |heads| == |lists| && |counts| == |lists| && |mults| == |lists|
  {
  }

  lemma BuildEmpty(next: map<nat, nat>, prev: map<nat, nat>, heads: seq<nat>, counts: seq<nat>, mults: seq<nat>,
                   hash: map<nat, nat>, ideal: nat)
    requires |heads| == |counts| == |mults| > 0 && forall b :: 0 <= b < |heads| ==>
      heads[b] == NULL && counts[b] == 0 && mults[b] == 0
    ensures Flatten([]) == [] && Moved(next, next, [])
    ensures Linked(next, prev, heads, counts, Rehash([], hash, |heads|))
    ensures Evened(counts, mults, Rehash([], hash, |heads|), ideal, 0)
  {
    ExcessEmpty(|heads|, ideal);
  }

  lemma LinkedAt(next: map<nat, nat>, prev: map<nat, nat>, heads: seq<nat>, counts: seq<nat>, lists: seq<seq<nat>>,
                 b: nat)
    requires Linked(next, prev, heads, counts, lists) && b < |lists|
    ensures b < |heads| && heads[b] == (if lists[b] == [] then NULL else lists[b][0])
    ensures heads[b] == NULL <==> lists[b] == []
  {
    InBoth(next, prev, heads[b], lists[b]);
  }

  lemma LinkedStep(next: map<nat, nat>, prev: map<nat, nat>, heads: seq<nat>, counts: seq<nat>, lists: seq<seq<nat>>,
                   b: nat, j: nat)
    requires Linked(next, prev, heads, counts, lists) && b < |lists| && j < |lists[b]|
    ensures j + 1 < |lists[b]| ==> lists[b][j + 1] != NULL
    ensures lists[b][j] != NULL && lists[b][j] in next
    ensures next[lists[b][j]] == (if j + 1 < |lists[b]| then lists[b][j + 1] else NULL)
  {
    assert DChain(next, prev, heads[b], lists[b]);
    assert next[lists[b][j]] == Succ(lists[b], j);
  }

  class Buckets {
    var next: map<nat, nat>
    var prev: map<nat, nat>
    var heads: seq<nat>
    var counts: seq<nat>
    var mults: seq<nat>
    var log2: nat
    ghost var lists: seq<seq<nat>>

    ghost predicate Valid()
      reads this
    {
      && |lists| == Pow2(log2) && |mults| == |lists|
      && Linked(next, prev, heads, counts, lists) && Apart(lists)
    }

    constructor ()
      ensures Valid() && log2 == INITIAL_LOG2 && lists == Empties(32)
    {
      next, prev := map[], map[];
      heads, counts, mults := seq(32, _ => NULL), seq(32, _ => 0), seq(32, _ => 0);
      log2 := INITIAL_LOG2;
      lists := Empties(32);
      new;
      assert Pow2(5) == 32 by {
        assert Pow2(2) == 4;
        assert Pow2(4) == 16;
      }
    }

    method Push(t: nat, b: nat)
      requires Valid() && t != NULL && b < |lists| && forall c :: 0 <= c < |lists| ==> t !in lists[c]
      modifies this
      ensures Valid() && lists == old(lists)[b := [t] + old(lists)[b]] && mults == old(mults) && log2 == old(log2)
    {
      hide Linked, Pow2, Apart;
      Sizes();
      LinkedPush(next, prev, heads, counts, lists, b, t);
      counts := counts[b := counts[b] + 1];
      next := next[t := heads[b]];
      prev := prev[t := NULL];
      if heads[b] != NULL {
        prev := prev[heads[b] := t];
      }
      heads := heads[b := t];
      ApartPush(lists, b, t);
      lists := lists[b := [t] + lists[b]];
    }

    method Remove(t: nat, b: nat, ghost k: nat)
      requires Valid() && b < |lists| && k < |lists[b]| && lists[b][k] == t
      modifies this
      ensures Valid() && lists == old(lists)[b := Cut(old(lists)[b], k)] && mults == old(mults) && log2 == old(log2)
    {
      hide Linked, Pow2, Apart, Cut;
      Sizes();
      LinkedCut(next, prev, heads, counts, lists, b, k);
      counts := counts[b := counts[b] - 1];
      if heads[b] == t {
        heads := heads[b := next[t]];
      }
      assert heads == old(heads)[b := if old(heads)[b] == t then next[t] else old(heads)[b]];
      var before, after := prev[t], next[t];
      if before != NULL {
        next := next[before := after];
      }
      if after != NULL {
        prev := prev[after := before];
      }
      ApartCut(lists, b, k);
      lists := lists[b := Cut(lists[b], k)];
    }

    /** Walks the chain to the first item with this hash and this key. */
    method FindIn(b: nat, k: Key, h: nat, keyOf: map<nat, Key>, hashOf: map<nat, nat>) returns (out: nat)
      requires Valid() && b < |lists| && forall t :: t in lists[b] ==> t in keyOf && t in hashOf
      ensures out != NULL ==> out in lists[b] && hashOf[out] == h && keyOf[out] == k
      ensures out == NULL ==> forall t :: t in lists[b] ==> hashOf[t] != h || keyOf[t] != k
    {
      hide DChain, Linked, Apart, Pow2;
      Sizes();
      LinkedAt(next, prev, heads, counts, lists, b);
      ghost var l := lists[b];
      out := heads[b];
      ghost var j := 0;
      while out != NULL && !(hashOf[out] == h && |keyOf[out]| == |k| && keyOf[out] == k)
        invariant j <= |l| && out == (if j < |l| then l[j] else NULL)
        invariant out == NULL <==> j == |l|
        invariant forall i :: 0 <= i < j ==> hashOf[l[i]] != h || keyOf[l[i]] != k
        decreases |l| - j
      {
        assert l[j] in l;
        LinkedStep(next, prev, heads, counts, lists, b, j);
        out := next[out];
        j := j + 1;
      }
    }

    /** Puts one item at the front of its new bucket and accounts for it there. */
    method Move(t: nat, hash: map<nat, nat>, ideal: nat, h: seq<nat>, c: seq<nat>, m: seq<nat>, nonideal: nat,
                ghost v: seq<nat>, ghost l: seq<seq<nat>>)
      returns (h': seq<nat>, c': seq<nat>, m': seq<nat>, nonideal': nat)
      requires t != NULL && t !in v && Distinct(v) && |h| > 0 && l == Rehash(v, hash, |h|)
      requires Linked(next, prev, h, c, l) && Evened(c, m, l, ideal, nonideal)
      modifies this`next, this`prev
      ensures |h'| == |h| && Linked(next, prev, h', c', Rehash(v + [t], hash, |h|))
      ensures Evened(c', m', Rehash(v + [t], hash, |h|), ideal, nonideal')
      ensures forall x :: x !in v && x != t && x in old(next) ==> x in next && next[x] == old(next)[x]
    {
      hide Linked, Apart, Rehash, HashOf, Bucket, Evened;
      EvenSizes(next, prev, h, c, m, l, ideal, nonideal);
      RehashApart(v, hash, |h|);
      RehashSnoc(v, hash, |h|, t);
      var b := Bucket(HashOf(hash, t), |h|);
      LinkedPush(next, prev, h, c, l, b, t);
      EvenedPush(c, m, l, ideal, nonideal, b, t);
      c', m', nonideal' := c[b := c[b] + 1], m, nonideal;
      if c'[b] > ideal {
        nonideal' := nonideal' + 1;
        if c'[b] > m'[b] * ideal {
          m' := m'[b := m'[b] + 1];
        }
      }
      prev := prev[t := NULL];
      next := next[t := h[b]];
      if h[b] != NULL {
        prev := prev[h[b] := t];
      }
      h' := h[b := t];
      assert m[b := m[b]] == m;
    }

    /**
      Doubling: every chain is walked from its head and each item moved. The new
      chains are what putting the items into an empty table in that order gives,
      with exact counts, the items beyond the ideal length counted and every
      multiplier that of its chain's length.
     */
    method Expand(hash: map<nat, nat>, ideal: nat) returns (nonideal: nat)
      requires Valid()
      modifies this
      ensures Valid() && log2 == old(log2) + 1
      ensures |old(lists)| > 0 && lists == Rehash(Flatten(old(lists)), hash, 2 * |old(lists)|)
      ensures Evened(counts, mults, lists, ideal, nonideal)
    {
      hide Linked, Apart, Rehash, HashOf, Bucket, Evened, Flatten, Visited, DChain;
      Sizes();
      var n := |heads|;
      var h: seq<nat>, c: seq<nat>, m: seq<nat> := seq(2 * n, _ => NULL), seq(2 * n, _ => 0), seq(2 * n, _ => 0);
      nonideal := 0;
      ghost var next0 := next;
      BuildEmpty(next, prev, h, c, m, hash, ideal);
      var i := 0;
      while i < n
        invariant i <= n && |h| == 2 * n == 2 * |lists| && heads == old(heads) && lists == old(lists)
        invariant log2 == old(log2)
        invariant Apart(lists) && Linked(next0, old(prev), heads, old(counts), lists)
        invariant Linked(next, prev, h, c, Rehash(Flatten(lists[..i]), hash, |h|))
        invariant Evened(c, m, Rehash(Flatten(lists[..i]), hash, |h|), ideal, nonideal)
        invariant Moved(next0, next, Flatten(lists[..i]))
      {
        var t := heads[i];
        ghost var j := 0;
        VisitBucket(lists, i);
        LinkedAt(next0, old(prev), heads, old(counts), lists, i);
        while t != NULL
          invariant i < n && |h| == 2 * n == 2 * |lists| && heads == old(heads) && lists == old(lists)
          invariant log2 == old(log2)
          invariant j <= |lists[i]| && t == (if j < |lists[i]| then lists[i][j] else NULL)
          invariant t == NULL <==> j == |lists[i]|
          invariant Linked(next, prev, h, c, Rehash(Visited(lists, i, j), hash, |h|))
          invariant Evened(c, m, Rehash(Visited(lists, i, j), hash, |h|), ideal, nonideal)
          invariant Moved(next0, next, Visited(lists, i, j))
          decreases |lists[i]| - j
        {
          ghost var v := Visited(lists, i, j);
          VisitNext(lists, i, j);
          LinkedStep(next0, old(prev), old(heads), old(counts), lists, i, j);
          var after := next[t];
          h, c, m, nonideal := Move(t, hash, ideal, h, c, m, nonideal, v, Rehash(v, hash, |h|));
          j := j + 1;
          t := after;
        }
        i := i + 1;
      }
      assert lists[..n] == lists;
      heads, counts, mults, log2 := h, c, m, log2 + 1;
      EvenSizes(next, prev, h, c, m, Rehash(Flatten(lists), hash, |h|), ideal, nonideal);
      FlattenDistinct(lists);
      RehashApart(Flatten(lists), hash, |h|);
      lists := Rehash(Flatten(lists), hash, |h|);
    }

    lemma Sizes()
      requires Valid()
      ensures |heads| == |lists| && |counts| == |lists| && |mults| == |lists| == Pow2(log2)
      ensures forall b :: 0 <= b < |lists| ==> counts[b] == |lists[b]|
    {
    }
  }

  lemma ApartPush(lists: seq<seq<nat>>, b: nat, t: nat)
    requires Apart(lists) && b < |lists| && forall c :: 0 <= c < |lists| ==> t !in lists[c]
    ensures Apart(lists[b := [t] + lists[b]])
  {
    var s := lists[b := [t] + lists[b]];
    assert forall c, x :: 0 <= c < |s| && x in s[c] ==> x in lists[c] || (x == t && c == b);
  }

  lemma ApartCut(lists: seq<seq<nat>>, b: nat, k: nat)
    requires Apart(lists) && b < |lists| && k < |lists[b]|
    ensures Apart(lists[b := Cut(lists[b], k)])
  {
    hide Cut;
    CutDistinct(lists[b], k);
    var s := lists[b := Cut(lists[b], k)];
    assert forall c, x :: 0 <= c < |s| && x in s[c] ==> x in lists[c];
  }

  // ----- the list in the order of addition

  class Order {
    var next: map<nat, nat>
    var prev: map<nat, nat>
    var head: nat
    var tail: nat
    ghost var items: seq<nat>

    ghost predicate Valid()
      reads this
    {
      DChain(next, prev, head, items) && (items != [] ==> tail == items[|items| - 1])
    }

    constructor ()
      ensures Valid() && items == []
    {
      next, prev, head, tail, items := map[], map[], NULL, NULL, [];
    }

    method Append(t: nat)
      requires Valid() && t != NULL && t !in items
      modifies this
      ensures Valid() && items == old(items) + [t]
    {
      hide DChain;
      HeadOf(next, prev, head, items);
      DChainPushBack(next, prev, head, items, t);
      if head == NULL {
        next, prev := next[t := NULL], prev[t := NULL];
        head, tail := t, t;
      } else {
        next, prev := next[t := NULL], prev[t := tail];
        next := next[tail := t];
        tail := t;
      }
      items := items + [t];
    }

    /** Takes out the item at position `k`; `last` tells whether it was alone. */
    method Unlink(t: nat, ghost k: nat) returns (last: bool)
      requires Valid() && k < |items| && items[k] == t
      modifies this
      ensures Valid() && items == Cut(old(items), k) && last == (|old(items)| == 1)
    {
      hide DChain, Cut;
      DChainCut(next, prev, head, items, k);
      HeadOf(next, prev, head, items);
      InBoth(next, prev, head, items);
      var before, after := prev[t], next[t];
      assert before == NULL <==> k == 0 by {
        assert k > 0 ==> items[k - 1] in items;
      }
      assert after == NULL <==> k == |items| - 1 by {
        assert k + 1 < |items| ==> items[k + 1] in items;
      }
      assert tail == t <==> k == |items| - 1 by {
        DistinctIn(next, prev, head, items);
      }
      CutLast(items, k);
      last := before == NULL && after == NULL;
      if last {
        head := NULL;
      } else {
        if t == tail {
          tail := before;
        }
        if before != NULL {
          next := next[before := after];
        } else {
          head := after;
        }
        if after != NULL {
          prev := prev[after := before];
        }
      }
      items := Cut(items, k);
    }
  }

  lemma DistinctIn(next: map<nat, nat>, prev: map<nat, nat>, head: nat, list: seq<nat>)
    requires DChain(next, prev, head, list)
    ensures Distinct(list)
  {
  }

  lemma CutLast(list: seq<nat>, k: nat)
    requires k < |list|
    ensures var l := Cut(list, k);
            l != [] ==> l[|l| - 1] == (if k == |list| - 1 then list[k - 1] else list[|list| - 1])
  {
  }

  // ----- the table

  class Table {
    const hash: Key -> nat
    const order: Order
    var buckets: Buckets?
    var keyOf: map<nat, Key>
    var hashOf: map<nat, nat>
    var numItems: nat
    var ideal: nat
    var nonideal: nat
    var ineffective: nat
    var noexpand: bool

    ghost predicate Valid()
      reads this, order, buckets
    {
      && order.Valid()
      && (buckets == null <==> order.items == [])
      && (buckets != null ==> (
            && buckets.Valid() && numItems == |order.items|
            && Placed(buckets.lists, hashOf, Elems(order.items))))
      && Hashed(hash, keyOf, hashOf, order.items)
    }

    constructor (h: Key -> nat)
      ensures Valid() && fresh(order) && buckets == null && order.items == [] && hash == h
    {
      hash, buckets, keyOf, hashOf := h, null, map[], map[];
      order := new Order();
      numItems, ideal, nonideal, ineffective, noexpand := 0, 0, 0, 0, false;
    }

    /** A result other than null is an item with the key; null means no item has it. */
    method Find(k: Key) returns (out: nat)
      requires Valid()
      ensures out != NULL ==> out in order.items && out in keyOf && keyOf[out] == k
      ensures out == NULL ==> forall t :: t in order.items ==> t in keyOf && keyOf[t] != k
    {
      hide DChain, Placed, Bucket, HashOf, Elems, Hashed;
      out := NULL;
      HashedAt(hash, keyOf, hashOf, order.items);
      HeadOf(order.next, order.prev, order.head, order.items);
      if order.head != NULL {
        buckets.Sizes();
        var b := Bucket(hash(k), |buckets.heads|);
        PlacedIn(buckets.lists, hashOf, order.items, b);
        out := buckets.FindIn(b, k, hash(k), keyOf, hashOf);
      }
    }

    /** What doubling leaves in the table's statistics; `ineff` is the count before. */
    ghost predicate Doubled(ineff: nat)
      requires buckets != null
      reads this, buckets
    {
      && ideal == IdealLength(numItems, buckets.log2) && nonideal == Excess(buckets.lists, ideal)
      && ineffective == (if nonideal > Shr(numItems, 1) then ineff + 1 else 0)
      && noexpand == (ineffective > 1)
    }

    /** A chain that reaches its threshold makes the table double, unless doubling is off. */
    method AddToBucket(t: nat, ghost members: set<nat>)
      requires buckets != null && buckets.Valid() && t != NULL && t !in members && t in hashOf
      requires Placed(buckets.lists, hashOf, members)
      modifies this`ideal, this`nonideal, this`ineffective, this`noexpand, buckets
      ensures buckets.Valid() && Placed(buckets.lists, hashOf, members + {t})
      ensures var n, b := |old(buckets.lists)|, Bucket(hashOf[t], |old(buckets.lists)|);
              && n > 0 && b < |old(buckets.mults)|
              && var grow := |old(buckets.lists)[b]| + 1 >= (old(buckets.mults)[b] + 1) * CAPACITY && !old(noexpand);
                 && buckets.log2 == old(buckets.log2) + (if grow then 1 else 0)
                 && (grow ==> Doubled(old(ineffective)))
                 && (!grow ==> ideal == old(ideal) && nonideal == old(nonideal))
                 && (!grow ==> ineffective == old(ineffective) && noexpand == old(noexpand))
    {
      hide DChain, Linked, Apart, Placed, Bucket, Pow2, Rehash, Flatten, IdealLength, Excess, Shr, And;
      buckets.Sizes();
      PlacedPush(buckets.lists, hashOf, members, t);
      PlacedApart(buckets.lists, hashOf, members);
      PlacedAbsent(buckets.lists, hashOf, members, t);
      var b := Bucket(hashOf[t], |buckets.heads|);
      buckets.Push(t, b);
      buckets.Sizes();
      if buckets.counts[b] >= (buckets.mults[b] + 1) * CAPACITY && !noexpand {
        ideal := IdealLength(numItems, buckets.log2 + 1);
        DoublingKeepsItems(buckets.lists, hashOf, members + {t});
        nonideal := buckets.Expand(hashOf, ideal);
        ineffective := if nonideal > Shr(numItems, 1) then ineffective + 1 else 0;
        if ineffective > 1 {
          noexpand := true;
        }
      }
    }

    /** The item goes to the end of the order; everything else stays. */
    method Add(t: nat, k: Key)
      requires Valid() && t != NULL && t !in order.items
      modifies this, order, buckets
      ensures Valid() && (buckets == old(buckets) || fresh(buckets))
      ensures order.items == old(order.items) + [t] && keyOf == old(keyOf)[t := k]
    {
      hide DChain, Placed, Bucket, HashOf, Elems, Hashed;
      HeadOf(order.next, order.prev, order.head, order.items);
      HashedAdd(hash, keyOf, hashOf, order.items, t, k);
      ghost var items := order.items;
      hashOf, keyOf := hashOf[t := hash(k)], keyOf[t := k];
      if order.head == NULL {
        buckets := new Buckets();
        numItems, ideal, nonideal, ineffective, noexpand := 0, 0, 0, 0, false;
        NoneYet(hashOf, items);
      } else {
        StillPlaced(buckets.lists, old(hashOf), hashOf, items, t);
      }
      order.Append(t);
      numItems := numItems + 1;
      NotElem(items, t);
      AddToBucket(t, Elems(items));
    }

    /** The item leaves the order; the last one takes the table with it. */
    method Delete(t: nat, ghost k: nat)
      requires Valid() && k < |order.items| && order.items[k] == t
      modifies this, order, buckets
      ensures Valid() && (buckets == old(buckets) || buckets == null)
      ensures order.items == Cut(old(order.items), k) && keyOf == old(keyOf)
    {
      hide DChain, Placed, Bucket, HashOf, Elems, Hashed, Cut;
      ghost var items := order.items;
      HashedAt(hash, keyOf, hashOf, items);
      DistinctIn(order.next, order.prev, order.head, items);
      CutDistinct(items, k);
      HashedCut(hash, keyOf, hashOf, items, k);
      var last := order.Unlink(t, k);
      if last {
        buckets := null;
      } else {
        buckets.Sizes();
        var b := Bucket(hashOf[t], |buckets.heads|);
        PlacedIn(buckets.lists, hashOf, items, b);
        ghost var j :| 0 <= j < |buckets.lists[b]| && buckets.lists[b][j] == t;
        PlacedCut(buckets.lists, hashOf, Elems(items), b, j);
        buckets.Remove(t, b, j);
        numItems := numItems - 1;
      }
    }
  }

  /** Every item's stored hash is that of its key. */
  ghost predicate Hashed(hash: Key -> nat, keyOf: map<nat, Key>, hashOf: map<nat, nat>, items: seq<nat>) {
    forall t :: t in items ==> t in keyOf && t in hashOf && hashOf[t] == hash(keyOf[t])
  }

  lemma HashedAt(hash: Key -> nat, keyOf: map<nat, Key>, hashOf: map<nat, nat>, items: seq<nat>)
    requires Hashed(hash, keyOf, hashOf, items)
    ensures forall t :: t in items ==> t in keyOf && t in hashOf && hashOf[t] == hash(keyOf[t])
  {
  }

  /** A chain holds exactly the items whose hash belongs to it. */
  lemma PlacedIn(lists: seq<seq<nat>>, hash: map<nat, nat>, items: seq<nat>, b: nat)
    requires Placed(lists, hash, Elems(items)) && b < |lists| && forall t :: t in items ==> t in hash
    ensures forall t :: t in lists[b] <==> t in items && Bucket(hash[t], |lists|) == b
  {
    forall t
      ensures t in lists[b] <==> t in items && Bucket(hash[t], |lists|) == b
    {
      assert t in lists[b] <==> t in Elems(items) && Bucket(HashOf(hash, t), |lists|) == b;
    }
  }

  lemma PlacedAbsent(lists: seq<seq<nat>>, hash: map<nat, nat>, members: set<nat>, t: nat)
    requires Placed(lists, hash, members) && t !in members
    ensures forall b :: 0 <= b < |lists| ==> t !in lists[b]
  {
  }

  lemma HashedAdd(hash: Key -> nat, keyOf: map<nat, Key>, hashOf: map<nat, nat>, items: seq<nat>, t: nat, k: Key)
    requires Hashed(hash, keyOf, hashOf, items)
    ensures Hashed(hash, keyOf[t := k], hashOf[t := hash(k)], items + [t])
  {
  }

  lemma HashedCut(hash: Key -> nat, keyOf: map<nat, Key>, hashOf: map<nat, nat>, items: seq<nat>, k: nat)
    requires Hashed(hash, keyOf, hashOf, items) && k < |items| && Distinct(items)
    ensures Hashed(hash, keyOf, hashOf, Cut(items, k))
    ensures Elems(Cut(items, k)) == Elems(items) - {items[k]}
  {
    CutDistinct(items, k);
  }

  lemma NoneYet(hashOf: map<nat, nat>, items: seq<nat>)
    requires items == []
    ensures Placed(Empties(32), hashOf, Elems(items))
  {
    PlacedEmpty(hashOf, 32);
    assert Elems(items) == {};
  }

  lemma StillPlaced(lists: seq<seq<nat>>, hash: map<nat, nat>, hash': map<nat, nat>, items: seq<nat>, t: nat)
    requires Placed(lists, hash, Elems(items)) && t !in items && t in hash' && hash' == hash[t := hash'[t]]
    ensures Placed(lists, hash', Elems(items))
  {
    hide Placed;
    PlacedFrame(lists, hash, hash', Elems(items));
  }

  lemma NotElem(items: seq<nat>, t: nat)
    requires t !in items
    ensures t !in Elems(items) && Elems(items + [t]) == Elems(items) + {t}
  {
  }

  // ----- the table as a finite map

  ghost predicate DistinctKeys(items: seq<nat>, keyOf: map<nat, Key>) {
    && (forall i {:trigger items[i]} :: 0 <= i < |items| ==> items[i] in keyOf)
    && (forall i, j :: 0 <= i < j < |items| ==> keyOf[items[i]] != keyOf[items[j]])
  }

  /** The map from keys to items, in the order of addition. */
  ghost function Index(items: seq<nat>, keyOf: map<nat, Key>): map<Key, nat>
    requires DistinctKeys(items, keyOf)
  {
    if items == [] then map[]
    else
      var t := items[|items| - 1];
      Index(items[..|items| - 1], keyOf)[keyOf[t] := t]
  }

  ghost predicate Entry(m: map<Key, nat>, k: Key, t: nat) {
    k in m && m[k] == t
  }

  lemma {:induction false} IndexHas(items: seq<nat>, keyOf: map<nat, Key>, k: Key, t: nat)
    requires DistinctKeys(items, keyOf)
    ensures Entry(Index(items, keyOf), k, t) <==> t in items && keyOf[t] == k
  {
    if items != [] {
      var u, s := items[..|items| - 1], items[|items| - 1];
      assert items == u + [s];
      IndexHas(u, keyOf, k, t);
      if t in u {
        var i :| 0 <= i < |u| && u[i] == t;
        assert items[i] == t && items[|items| - 1] == s;
      }
    }
  }

  lemma SameIndex(m: map<Key, nat>, n: map<Key, nat>)
    requires forall k, t :: Entry(m, k, t) <==> Entry(n, k, t)
    ensures m == n
  {
    assert forall k :: k in m ==> Entry(m, k, m[k]);
    assert forall k :: k in n ==> Entry(n, k, n[k]);
  }

  /** Adding an item under a new key adds that one entry. */
  lemma IndexAdd(items: seq<nat>, keyOf: map<nat, Key>, t: nat, k: Key)
    requires DistinctKeys(items, keyOf) && t !in items && forall x :: x in items ==> keyOf[x] != k
    ensures DistinctKeys(items + [t], keyOf[t := k])
    ensures Index(items + [t], keyOf[t := k]) == Index(items, keyOf)[k := t]
  {
    var w, keyOf' := items + [t], keyOf[t := k];
    assert forall i :: 0 <= i < |items| ==>
      w[i] == items[i] && items[i] in items && keyOf'[items[i]] == keyOf[items[i]];
    forall c, x
      ensures Entry(Index(w, keyOf'), c, x) <==> Entry(Index(items, keyOf)[k := t], c, x)
    {
      IndexHas(w, keyOf', c, x);
      IndexHas(items, keyOf, c, x);
      assert x in w <==> x in items || x == t;
    }
    SameIndex(Index(w, keyOf'), Index(items, keyOf)[k := t]);
  }

  /** Deleting an item removes exactly its entry. */
  lemma IndexCut(items: seq<nat>, keyOf: map<nat, Key>, i: nat)
    requires DistinctKeys(items, keyOf) && Distinct(items) && i < |items|
    ensures DistinctKeys(Cut(items, i), keyOf)
    ensures Index(Cut(items, i), keyOf) == Index(items, keyOf) - {keyOf[items[i]]}
  {
    hide Index;
    var w, k := Cut(items, i), keyOf[items[i]];
    assert forall j :: 0 <= j < |w| ==> w[j] == items[if j < i then j else j + 1];
    CutDistinct(items, i);
    forall c, x
      ensures Entry(Index(w, keyOf), c, x) <==> Entry(Index(items, keyOf) - {k}, c, x)
    {
      IndexHas(w, keyOf, c, x);
      IndexHas(items, keyOf, c, x);
      if x in w {
        var j :| 0 <= j < |w| && w[j] == x;
        var j' := if j < i then j else j + 1;
        assert items[j'] == x && j' != i;
      }
    }
    SameIndex(Index(w, keyOf), Index(items, keyOf) - {k});
  }

  /** What a search returns is the map's answer. */
  lemma FindIsLookup(items: seq<nat>, keyOf: map<nat, Key>, k: Key, out: nat)
    requires DistinctKeys(items, keyOf) && NULL !in items
    requires out != NULL ==> out in items && keyOf[out] == k
    requires out == NULL ==> forall t :: t in items ==> keyOf[t] != k
    ensures if out == NULL then k !in Index(items, keyOf) else k in Index(items, keyOf) && Index(items, keyOf)[k] == out
  {
    hide Index;
    if out != NULL {
      IndexHas(items, keyOf, k, out);
    } else if k in Index(items, keyOf) {
      IndexHas(items, keyOf, k, Index(items, keyOf)[k]);
    }
  }
}
