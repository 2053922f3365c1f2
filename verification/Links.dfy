/**
  Singly linked lists threaded through nodes: `next` gives each node's link
  field, zero is the null link.
 */
module Links {
  import opened Basics

  const NULL: nat := 0

  /** What the node at position `i` links to. */
  function Succ(list: seq<nat>, i: nat): nat
    requires i < |list|
  {
    if i + 1 < |list| then list[i + 1] else NULL
  }

  /** Following `next` from `head` visits exactly `list`. */
  ghost predicate Chain(next: map<nat, nat>, head: nat, list: seq<nat>) {
    && Distinct(list)
    && head == (if list == [] then NULL else list[0])
    && (forall i :: 0 <= i < |list| ==> list[i] != NULL && list[i] in next)
    && (forall i {:trigger list[i]} :: 0 <= i < |list| ==> next[list[i]] == Succ(list, i))
  }

  lemma ChainFrame(next: map<nat, nat>, next': map<nat, nat>, head: nat, list: seq<nat>)
    requires Chain(next, head, list) && forall t :: t in list ==> t in next' && next'[t] == next[t]
    ensures Chain(next', head, list)
  {
    forall i | 0 <= i < |list|
      ensures list[i] in next' && next'[list[i]] == next[list[i]]
    {
      assert list[i] in list;
    }
  }

  lemma ChainFresh(next: map<nat, nat>, head: nat, list: seq<nat>, t: nat, v: nat)
    requires Chain(next, head, list) && t !in list
    ensures Chain(next[t := v], head, list)
  {
    ChainFrame(next, next[t := v], head, list);
  }

  lemma ChainPushFront(next: map<nat, nat>, head: nat, list: seq<nat>, t: nat)
    requires Chain(next, head, list) && t != NULL && t !in list
    ensures Chain(next[t := head], t, [t] + list)
  {
    var l := [t] + list;
    forall i | 0 <= i < |l|
      ensures l[i] in next[t := head] && next[t := head][l[i]] == Succ(l, i)
    {
      if i > 0 {
        assert l[i] == list[i - 1] && list[i - 1] in list && next[list[i - 1]] == Succ(list, i - 1);
      }
    }
  }

  lemma ChainPopFront(next: map<nat, nat>, head: nat, list: seq<nat>)
    requires Chain(next, head, list) && list != []
    ensures head in next && Chain(next, next[head], list[1..]) && list[0] !in list[1..]
  {
    assert next[list[0]] == Succ(list, 0);
    var l := list[1..];
    forall i | 0 <= i < |l|
      ensures next[l[i]] == Succ(l, i)
    {
      assert next[list[i + 1]] == Succ(list, i + 1);
    }
  }

  lemma ChainPushBack(next: map<nat, nat>, head: nat, list: seq<nat>, t: nat)
    requires Chain(next, head, list) && t != NULL && t !in list
    ensures var next' := if list == [] then next[t := NULL] else next[t := NULL][list[|list| - 1] := t];
            Chain(next', if list == [] then t else head, list + [t])
  {
    var next' := if list == [] then next[t := NULL] else next[t := NULL][list[|list| - 1] := t];
    var l := list + [t];
    forall i | 0 <= i < |l|
      ensures l[i] in next' && next'[l[i]] == Succ(l, i)
    {
      if i < |list| {
        assert l[i] == list[i] && list[i] in list;
      }
    }
  }

  /** The list without position `k`. */
  function Cut(list: seq<nat>, k: nat): (l: seq<nat>)
    requires k < |list|
    ensures |l| == |list| - 1
  {
    list[..k] + list[k + 1..]
  }

  lemma CutAt(list: seq<nat>, k: nat, i: nat)
    requires k < |list| && i < |list| - 1
    ensures Cut(list, k)[i] == if i < k then list[i] else list[i + 1]
  {
  }

  lemma CutDistinct(list: seq<nat>, k: nat)
    requires k < |list| && Distinct(list)
    ensures Distinct(Cut(list, k)) && list[k] !in Cut(list, k)
    ensures forall t :: t in list <==> t in Cut(list, k) || t == list[k]
  {
    var l := Cut(list, k);
    assert forall i :: 0 <= i < |l| ==> l[i] == if i < k then list[i] else list[i + 1];
    assert list == list[..k] + [list[k]] + list[k + 1..];
  }

  /** Unlinking the node at `k`: the node before it, or the head, takes over its link. */
  lemma ChainCut(next: map<nat, nat>, head: nat, list: seq<nat>, k: nat)
    requires Chain(next, head, list) && k < |list|
    ensures list[k] in next
    ensures if k == 0 then Chain(next, next[list[0]], Cut(list, 0))
            else Chain(next[list[k - 1] := next[list[k]]], head, Cut(list, k))
  {
    if k == 0 {
      ChainPopFront(next, head, list);
      assert Cut(list, 0) == list[1..];
    } else {
      var l := Cut(list, k);
      CutDistinct(list, k);
      CutAt(list, k, 0);
      forall i | 0 <= i < |l|
        ensures l[i] != NULL && l[i] in next && next[list[k - 1] := next[list[k]]][l[i]] == Succ(l, i)
      {
        ChainCutAt(next, head, list, k, i);
      }
    }
  }

  lemma ChainAt(next: map<nat, nat>, head: nat, list: seq<nat>, i: nat)
    requires Chain(next, head, list) && i < |list|
    ensures list[i] != NULL && list[i] in next && next[list[i]] == Succ(list, i)
  {
  }

  lemma ChainApart(next: map<nat, nat>, head: nat, list: seq<nat>, i: nat, j: nat)
    requires Chain(next, head, list) && i < j < |list|
    ensures list[i] != list[j]
  {
  }

  lemma ChainCutAt(next: map<nat, nat>, head: nat, list: seq<nat>, k: nat, i: nat)
    requires Chain(next, head, list) && 0 < k < |list| && i < |list| - 1
    ensures var l := Cut(list, k);
            l[i] != NULL && l[i] in next && next[list[k - 1] := next[list[k]]][l[i]] == Succ(l, i)
  {
    hide Cut, Chain;
    CutAt(list, k, i);
    if i + 1 < |list| - 1 {
      CutAt(list, k, i + 1);
    }
    ChainAt(next, head, list, k);
    if i < k {
      ChainAt(next, head, list, i);
      if i < k - 1 {
        ChainApart(next, head, list, i, k - 1);
      }
    } else {
      ChainAt(next, head, list, i + 1);
      ChainApart(next, head, list, k - 1, i + 1);
    }
  }

  // ----- doubly linked lists

  /** What the node at position `i` links back to. */
  function Pred(list: seq<nat>, i: nat): nat
    requires i < |list|
  {
    if i > 0 then list[i - 1] else NULL
  }

  ghost predicate Back(prev: map<nat, nat>, list: seq<nat>) {
    forall i {:trigger list[i]} :: 0 <= i < |list| ==> list[i] in prev && prev[list[i]] == Pred(list, i)
  }

  /** `next` from `head` visits `list`, and `prev` leads back. */
  ghost predicate DChain(next: map<nat, nat>, prev: map<nat, nat>, head: nat, list: seq<nat>) {
    Chain(next, head, list) && Back(prev, list)
  }

  lemma DChainFrame(next: map<nat, nat>, prev: map<nat, nat>, next': map<nat, nat>, prev': map<nat, nat>, head: nat,
                    list: seq<nat>)
    requires DChain(next, prev, head, list)
    requires forall t :: t in list ==>
      t in next' && next'[t] == next[t] && t in prev' && t in prev && prev'[t] == prev[t]
    ensures DChain(next', prev', head, list)
  {
    ChainFrame(next, next', head, list);
    forall i | 0 <= i < |list|
      ensures list[i] in prev' && prev'[list[i]] == Pred(list, i)
    {
      assert list[i] in list;
    }
  }

  lemma DChainPushFront(next: map<nat, nat>, prev: map<nat, nat>, head: nat, list: seq<nat>, t: nat)
    requires DChain(next, prev, head, list) && t != NULL && t !in list
    ensures var prev' := if head == NULL then prev[t := NULL] else prev[t := NULL][head := t];
            DChain(next[t := head], prev', t, [t] + list)
  {
    ChainPushFront(next, head, list, t);
    var prev' := if head == NULL then prev[t := NULL] else prev[t := NULL][head := t];
    var l := [t] + list;
    forall i | 0 <= i < |l|
      ensures l[i] in prev' && prev'[l[i]] == Pred(l, i)
    {
      if i > 0 {
        assert l[i] == list[i - 1] && list[i - 1] in list && prev[list[i - 1]] == Pred(list, i - 1);
      }
    }
  }

  lemma DChainPushBack(next: map<nat, nat>, prev: map<nat, nat>, head: nat, list: seq<nat>, t: nat)
    requires DChain(next, prev, head, list) && t != NULL && t !in list
    ensures var last := if list == [] then NULL else list[|list| - 1];
            var next' := if list == [] then next[t := NULL] else next[t := NULL][last := t];
            DChain(next', prev[t := last], if list == [] then t else head, list + [t])
  {
    ChainPushBack(next, head, list, t);
    var last := if list == [] then NULL else list[|list| - 1];
    var l := list + [t];
    forall i | 0 <= i < |l|
      ensures l[i] in prev[t := last] && prev[t := last][l[i]] == Pred(l, i)
    {
      if i < |list| {
        assert l[i] == list[i] && list[i] in list && prev[list[i]] == Pred(list, i);
      }
    }
  }

  /** The links after the node `t` has been taken out of a doubly linked list. */
  function DNext(next: map<nat, nat>, prev: map<nat, nat>, t: nat): map<nat, nat>
    requires t in next && t in prev
  {
    if prev[t] != NULL then next[prev[t] := next[t]] else next
  }

  function DPrev(next: map<nat, nat>, prev: map<nat, nat>, t: nat): map<nat, nat>
    requires t in next && t in prev
  {
    if next[t] != NULL then prev[next[t] := prev[t]] else prev
  }

  lemma DChainCut(next: map<nat, nat>, prev: map<nat, nat>, head: nat, list: seq<nat>, k: nat)
    requires DChain(next, prev, head, list) && k < |list|
    ensures var t := list[k];
            && t in next && t in prev && next[t] == Succ(list, k) && prev[t] == Pred(list, k) && (head == t <==> k == 0)
            && DChain(DNext(next, prev, t), DPrev(next, prev, t), if head == t then next[t] else head, Cut(list, k))
  {
    var t := list[k];
    assert next[t] == Succ(list, k) && prev[t] == Pred(list, k);
    assert k > 0 ==> list[k - 1] != NULL;
    assert k > 0 ==> list[0] != list[k];
    ChainCut(next, head, list, k);
    forall i | 0 <= i < |list| - 1
      ensures Cut(list, k)[i] in DPrev(next, prev, t) && DPrev(next, prev, t)[Cut(list, k)[i]] == Pred(Cut(list, k), i)
    {
      BackCutAt(next, prev, head, list, k, i);
    }
  }

  lemma BackCutAt(next: map<nat, nat>, prev: map<nat, nat>, head: nat, list: seq<nat>, k: nat, i: nat)
    requires DChain(next, prev, head, list) && k < |list| && i < |list| - 1
    ensures var l := Cut(list, k);
            && list[k] in next && list[k] in prev
            && l[i] in DPrev(next, prev, list[k]) && DPrev(next, prev, list[k])[l[i]] == Pred(l, i)
  {
    hide Cut;
    var t := list[k];
    assert next[t] == Succ(list, k) && prev[t] == Pred(list, k);
    CutAt(list, k, i);
    if i > 0 {
      CutAt(list, k, i - 1);
    }
    if i < k {
      assert prev[list[i]] == Pred(list, i);
      assert k + 1 < |list| ==> list[k + 1] != list[i];
    } else {
      assert prev[list[i + 1]] == Pred(list, i + 1);
      assert k + 1 < |list| && list[k + 1] != NULL;
      assert i > k ==> list[k + 1] != list[i + 1];
    }
  }
}
