/**
  Page operations as the rest of the kernel calls them: every mapping has a node
  on its space's list, and the node comes from the kernel heap, which may have to
  grow for it.
 */
module KernelMemory {
  import opened Basics
  import opened Frames
  import opened PageTree
  import opened AddressSpaces
  import opened KernelHeap
  import H = Heap

  /** Size of a list node. */
  const NODE_SIZE: nat := 32

  /** A node of a list, with its address in the heap. */
  datatype Mapping = Mapping(va: nat, frame: nat, owned: bool, node: nat)

  // ----- the lists

  /** The list without its first entry for `va`. */
  function DropFirst(list: seq<Mapping>, va: nat): seq<Mapping> {
    if list == [] then [] else if list[0].va == va then list[1..] else [list[0]] + DropFirst(list[1..], va)
  }

  lemma {:induction false} DropFirstAt(list: seq<Mapping>, va: nat, k: nat)
    requires k <= |list| && forall i :: 0 <= i < k ==> list[i].va != va
    ensures k == |list| ==> DropFirst(list, va) == list
    ensures k < |list| && list[k].va == va ==> DropFirst(list, va) == list[..k] + list[k + 1..]
  {
    if k > 0 {
      DropFirstAt(list[1..], va, k - 1);
      assert k < |list| ==> [list[0]] + (list[1..][..k - 1] + list[1..][k..]) == list[..k] + list[k + 1..];
    }
  }

  /** Where the first entry for `va` is, if there is one. */
  method FindMapping(list: seq<Mapping>, va: nat) returns (k: nat)
    ensures k <= |list| && (forall i :: 0 <= i < k ==> list[i].va != va) && (k < |list| ==> list[k].va == va)
    ensures DropFirst(list, va) == if k < |list| then list[..k] + list[k + 1..] else list
  {
    k := 0;
    while k < |list| && list[k].va != va
      invariant k <= |list| && forall i :: 0 <= i < k ==> list[i].va != va
    {
      k := k + 1;
    }
    DropFirstAt(list, va, k);
  }

  // ----- who owns which block

  /** Every node is a live block of its own, and so is every block lent to others. */
  ghost predicate NodesOk(lists: map<nat, seq<Mapping>>, lent: set<nat>, bs: seq<H.Block>) {
    && (forall a, i :: a in lists && 0 <= i < |lists[a]| ==> Alive(bs, lists[a][i].node) && lists[a][i].node !in lent)
    && (forall a, i, b, j :: a in lists && b in lists && 0 <= i < |lists[a]| && 0 <= j < |lists[b]| ==>
         lists[a][i].node == lists[b][j].node ==> a == b && i == j)
    && (forall p :: p in lent ==> Alive(bs, p))
  }

  lemma GainedAlive(bs: seq<H.Block>, cs: seq<H.Block>, p: nat, n: nat)
    requires H.Gained(bs, cs, p, n)
    ensures !Alive(bs, p) && Alive(cs, p) && forall q :: Alive(bs, q) ==> Alive(cs, q)
  {
    assert H.IsLive(cs, p, n);
    forall q | Alive(bs, q)
      ensures Alive(cs, q)
    {
      var m :| H.IsLive(bs, q, m);
      assert H.IsLive(cs, q, m);
    }
  }

  lemma LostAlive(bs: seq<H.Block>, cs: seq<H.Block>, p: nat)
    requires H.Lost(bs, cs, p)
    ensures forall q :: Alive(bs, q) && q != p ==> Alive(cs, q)
  {
    forall q | Alive(bs, q) && q != p
      ensures Alive(cs, q)
    {
      var m :| H.IsLive(bs, q, m);
      assert H.IsLive(cs, q, m);
    }
  }

  lemma NodesPush(lists: map<nat, seq<Mapping>>, lent: set<nat>, bs: seq<H.Block>, a: nat, m: Mapping)
    requires NodesOk(lists, lent + {m.node}, bs) && m.node !in lent && a in lists
    ensures NodesOk(lists[a := [m] + lists[a]], lent, bs)
  {
    hide Alive;
    var l := lists[a := [m] + lists[a]];
    assert forall i :: 0 < i < |l[a]| ==> l[a][i] == lists[a][i - 1];
  }

  lemma NodesDrop(lists: map<nat, seq<Mapping>>, lent: set<nat>, bs: seq<H.Block>, a: nat, k: nat)
    requires NodesOk(lists, lent, bs) && a in lists && k < |lists[a]|
    ensures NodesOk(lists[a := lists[a][..k] + lists[a][k + 1..]], lent + {lists[a][k].node}, bs)
  {
    hide Alive;
    var l := lists[a := lists[a][..k] + lists[a][k + 1..]];
    assert forall i :: 0 <= i < |l[a]| ==> l[a][i] == lists[a][if i < k then i else i + 1];
  }

  lemma NodesLend(lists: map<nat, seq<Mapping>>, lent: set<nat>, bs: seq<H.Block>, cs: seq<H.Block>, p: nat, n: nat)
    requires NodesOk(lists, lent, bs) && H.Gained(bs, cs, p, n)
    ensures p !in lent && NodesOk(lists, lent + {p}, cs)
  {
    hide Alive, H.Gained;
    GainedAlive(bs, cs, p, n);
  }

  lemma NodesReturn(lists: map<nat, seq<Mapping>>, lent: set<nat>, bs: seq<H.Block>, cs: seq<H.Block>, p: nat)
    requires NodesOk(lists, lent, bs) && p in lent && H.Lost(bs, cs, p)
    ensures NodesOk(lists, lent - {p}, cs)
  {
    hide Alive, H.Lost;
    LostAlive(bs, cs, p);
  }

  lemma NodeRequest()
    ensures Request(NODE_SIZE) == PAGE_SIZE && 4 * Request(NODE_SIZE) / PAGE_SIZE == 4
  {
    assert H.RoundUp16(32) == 32;
  }

  // ----- reference counts of the frames that are mapped or held

  /**
    Every managed frame that is mapped or held keeps its count, except that those
    from `lo` up to `hi` have one more, and none of them becomes a table.
   */
  ghost predicate Charged(t: Tree, refs: seq<nat>, t': Tree, refs': seq<nat>, lo: nat, hi: nat) {
    && SameManaged(refs, refs')
    && forall f: nat :: f < |refs| && refs[f] != UNMANAGED && DataRefs(t, refs, f) > 0 ==>
         && DataRefs(t', refs', f) == DataRefs(t, refs, f) + (if lo <= f < hi then 1 else 0)
         && (f in t'.tables ==> f in t.tables)
  }

  lemma ChargedSelf(t: Tree, t': Tree, refs: seq<nat>, x: nat)
    requires t'.tables.Keys == t.tables.Keys
    ensures Charged(t, refs, t', refs, x, x)
  {
  }

  lemma ChargedNone(t: Tree, refs: seq<nat>, t': Tree, refs': seq<nat>, x: nat, y: nat)
    requires Charged(t, refs, t', refs', x, x)
    ensures Charged(t, refs, t', refs', y, y)
  {
    hide DataRefs;
  }

  lemma ChargedTwice(t: Tree, refs: seq<nat>, t': Tree, refs': seq<nat>, t'': Tree, refs'': seq<nat>,
                     lo: nat, mid: nat, hi: nat)
    requires Charged(t, refs, t', refs', lo, mid) && Charged(t', refs', t'', refs'', mid, hi) && lo <= mid <= hi
    ensures Charged(t, refs, t'', refs'', lo, hi)
  {
    hide DataRefs;
  }

  /** Giving back the reference of the last frame charged. */
  lemma ChargedBack(t: Tree, refs: seq<nat>, t': Tree, refs': seq<nat>, t'': Tree, refs'': seq<nat>, lo: nat, hi: nat)
    requires Charged(t, refs, t', refs', lo, hi + 1) && Released(t', refs', t'', refs'', hi) && lo <= hi
    ensures Charged(t, refs, t'', refs'', lo, hi)
  {
    hide DataRefs;
  }

  /** Where nothing is given back, the counts of all frames in use say it. */
  lemma ChargedBy(t: Tree, refs: seq<nat>, t': Tree, refs': seq<nat>, g: nat, d: nat, n: nat)
    requires Undisturbed(refs, refs', g, d) && d <= 1 && Spent(t, refs, t', refs', n) && SameManaged(refs, refs')
    ensures Charged(t, refs, t', refs', g, g + d)
  {
    hide Small, GeneralFree;
  }

  lemma ChargedTaken(t: Tree, refs: seq<nat>, t': Tree, refs': seq<nat>, n: nat)
    requires OnlyTakesFree(refs, refs') && Spent(t, refs, t', refs', n) && SameManaged(refs, refs')
    ensures Charged(t, refs, t', refs', 0, 0)
  {
    hide Small, GeneralFree;
  }

  /** The counts of frames that are mapped or held follow from the map and the holds. */
  lemma SameMapSameCounts(t: Tree, refs: seq<nat>, t': Tree, refs': seq<nat>, ext: seq<nat>)
    requires Exact(refs, ext, t) && Exact(refs', ext, t') && t'.model == t.model
    requires SameManaged(refs, refs') && TablesFromFree(t, refs, t')
    ensures Charged(t, refs, t', refs', 0, 0)
  {
    hide LeafRefs;
  }

  // ----- what each operation does, on snapshots

  /** What a caller can tell about memory, apart from the heap's chunks. */
  datatype Snap = Snap(t: Tree, refs: seq<nat>, ext: seq<nat>, managed: set<nat>, brk: nat, lists: map<nat,
                       seq<Mapping>>, lent: set<nat>)

  /** Roots, shared slots and the managed frames are the same. */
  ghost predicate SameFrame(s: Snap, s': Snap) {
    s'.t.roots == s.t.roots && Slots(s'.t) == Slots(s.t) && s'.managed == s.managed
  }

  /** A block was lent; the heap may have grown, at the cost of at most `n` frames. */
  ghost predicate Lent(s: Snap, s': Snap, p: nat, bytes: nat, n: nat) {
    && SameFrame(s, s') && Grown(s.t.model, s'.t.model) && s'.ext == s.ext && s'.lists == s.lists
    && p !in s.lent && s'.lent == s.lent + {p} && s'.brk <= s.brk + bytes
    && OnlyTakesFree(s.refs, s'.refs) && Spent(s.t, s.refs, s'.t, s'.refs, n) && SameCounts(s, s')
  }

  /** Every frame that is mapped or held keeps its count, and none of them becomes a table. */
  ghost predicate SameCounts(s: Snap, s': Snap) {
    Charged(s.t, s.refs, s'.t, s'.refs, 0, 0)
  }

  /** Nothing that a caller can tell has changed, except perhaps heap pages. */
  ghost predicate Refused(s: Snap, s': Snap) {
    && SameFrame(s, s') && Grown(s.t.model, s'.t.model) && s'.ext == s.ext && s'.lists == s.lists && s'.lent == s.lent
    && SameCounts(s, s')
  }

  /** One page was mapped and its node pushed; the heap may have grown, at the cost of at most `n` frames in all. */
  ghost predicate PageMapped(s: Snap, s': Snap, a: nat, m: Mapping, flags: Protection, n: nat) {
    && SameFrame(s, s') && Key(a, m.va) !in s.t.model
    && Grown(s.t.model[Key(a, m.va) := LeafOf(PageEntry(m.frame, flags))], s'.t.model)
    && s'.ext == (if m.owned then Surrendered(s.refs, s.ext, m.frame) else s.ext)
    && a in s.lists && s'.lists == s.lists[a := [m] + s.lists[a]] && s'.lent == s.lent
    && Undisturbed(s.refs, s'.refs, m.frame, Gain(m)) && Spent(s.t, s.refs, s'.t, s'.refs, n)
    && Charged(s.t, s.refs, s'.t, s'.refs, m.frame, m.frame + Gain(m))
  }

  /** The references that a mapping adds: an owned one takes over the caller's. */
  function Gain(m: Mapping): nat {
    if m.owned then 0 else 1
  }

  /** One page was unmapped and its node taken off the list. */
  ghost predicate PageUnmapped(s: Snap, s': Snap, a: nat, va: nat) {
    && SameFrame(s, s') && Key(a, va) in s.t.model && s'.t.model == s.t.model - {Key(a, va)} && s'.ext == s.ext
    && a in s.lists && s'.lists == s.lists[a := DropFirst(s.lists[a], va)] && s'.lent == s.lent && s'.brk == s.brk
    && Released(s.t, s.refs, s'.t, s'.refs, s.t.model[Key(a, va)].frame)
  }

  /** One page got other flags. */
  ghost predicate PageProtected(s: Snap, s': Snap, a: nat, va: nat, flags: Protection) {
    && SameFrame(s, s') && Key(a, va) in s.t.model
    && s'.t.model == s.t.model[Key(a, va) := Leaf(s.t.model[Key(a, va)].frame, flags.writable, flags.user, flags.nx)]
    && s'.refs == s.refs && s'.ext == s.ext && s'.lists == s.lists && s'.lent == s.lent && s'.brk == s.brk
    && s'.t.tables.Keys == s.t.tables.Keys
  }

  /** Which frames are managed shows in the counts. */
  ghost predicate Tagged(s: Snap) {
    forall f :: 0 <= f < |s.refs| ==> (f in s.managed <==> s.refs[f] != UNMANAGED)
  }

  lemma TaggedSame(s: Snap, s': Snap)
    requires Tagged(s) && Tagged(s') && s'.managed == s.managed && |s'.refs| == |s.refs|
    ensures SameManaged(s.refs, s'.refs)
  {
  }

  /**
    After a failure every managed frame that some page shows has the count it had,
    but for a table that it was and no longer is.
   */
  lemma FailedKeepsCounts(s: Snap, s': Snap, k: Pos)
    requires Refused(s, s') && Exact(s.refs, s.ext, s.t) && k in s.t.model
    ensures var f := s.t.model[k].frame;
            f < |s.refs| && s.refs[f] != UNMANAGED ==> (
              && s.refs[f] > 0 && (f in s'.t.tables ==> f in s.t.tables)
              && s'.refs[f] == if f in s.t.tables && f !in s'.t.tables then s.refs[f] - 1 else s.refs[f])
  {
    hide Grown;
    assert k in LeafRefs(s.t.model, s.t.model[k].frame);
  }

  lemma RefusedLent(s: Snap, s': Snap)
    requires Refused(s, s')
    ensures s'.lent == s.lent
  {
  }

  lemma RefusedSelf(s: Snap)
    ensures Refused(s, s)
  {
    ChargedSelf(s.t, s.t, s.refs, 0);
  }

  /** A node from the heap and then the page. */
  lemma LentThenMapped(s: Snap, s1: Snap, s2: Snap, a: nat, m: Mapping, flags: Protection)
    requires Lent(s, s1, m.node, PAGE_SIZE, 4) && PageMapped(s1, s2.(lent := s1.lent), a, m, flags, 3)
    requires s2.lent == s1.lent - {m.node} && !InHeap(Key(a, m.va)) && Mappable(s.refs, s.ext, m.frame, m.owned)
    ensures PageMapped(s, s2, a, m, flags, 7)
  {
    hide Grown, Spent, OnlyTakesFree, Undisturbed, Slots, InHeap, Surrendered, Mappable, LeafOf, Key, Charged;
    ChargedNone(s.t, s.refs, s1.t, s1.refs, 0, m.frame);
    ChargedTwice(s.t, s.refs, s1.t, s1.refs, s2.t, s2.refs, m.frame, m.frame, m.frame + Gain(m));
    SpentTwice(s.t, s.refs, s1.t, s1.refs, s2.t, s2.refs, 4, 3);
    StillMappable(s.refs, s1.refs, s.ext, m.frame, m.owned);
    StillUndisturbed(s.refs, s1.refs, s2.refs, m.frame, Gain(m));
    KeyKept(s.t.model, s1.t.model, Key(a, m.va));
    var leaf := LeafOf(PageEntry(m.frame, flags));
    GrownWith(s.t.model, s1.t.model, Key(a, m.va), leaf);
    GrownTwice(s.t.model[Key(a, m.va) := leaf], s1.t.model[Key(a, m.va) := leaf], s2.t.model);
    LentBack(s.lent, m.node);
  }

  lemma LentThenReturned(s: Snap, s1: Snap, s2: Snap, s3: Snap, p: nat, n: nat)
    requires Lent(s, s1, p, PAGE_SIZE, n) && Refused(s1, s2) && s3 == s2.(lent := s2.lent - {p})
    ensures Refused(s, s3)
  {
    hide Grown, Spent, OnlyTakesFree, Slots, Charged;
    GrownTwice(s.t.model, s1.t.model, s2.t.model);
    ChargedTwice(s.t, s.refs, s1.t, s1.refs, s2.t, s2.refs, 0, 0, 0);
    LentBack(s.lent, p);
  }

  // ----- pages with their nodes

  class Memory {
    const heap: Kheap
    /** The mappings of each space, newest first. */
    var lists: map<nat, seq<Mapping>>
    /** Live blocks that belong to other parts of the kernel. */
    ghost var lent: set<nat>

    function Sp(): Spaces {
      heap.pages.sp
    }

    ghost predicate Valid()
      reads this, heap.pages, heap.chunks, heap.pages.sp, heap.pages.sp.frames.Repr()
    {
      && this !in Sp().frames.Repr() && heap.Valid() && lists.Keys == Sp().roots.Keys
      && NodesOk(lists, lent, heap.chunks.blocks)
    }

    ghost function Now(): Snap
      reads this, heap.pages, heap.pages.sp, heap.pages.sp.frames, heap.pages.sp.frames.refs
    {
      Snap(Sp().T(), Sp().frames.refs[..], Sp().ext, Sp().frames.managed, heap.pages.brk, lists, lent)
    }

    constructor (heap: Kheap)
      requires heap.Valid()
      ensures Valid() && this.heap == heap && lent == {} && forall a :: a in lists ==> lists[a] == []
    {
      hide Kheap.Valid;
      this.heap := heap;
      lists := map a | a in heap.pages.sp.roots :: [];
      lent := {};
    }

    lemma Inside()
      requires Valid()
      ensures Sp().Valid() && Sp() !in Sp().frames.Repr() && this !in Sp().frames.Repr()
      ensures lists.Keys == Sp().roots.Keys
    {
    }

    /** Counts are exact, and what is managed shows in them. */
    lemma Counts()
      requires Valid()
      ensures var s := Now(); Exact(s.refs, s.ext, s.t) && Tagged(s)
    {
      hide Inv, H.Allocator.Valid, NodesOk, HeapIs;
    }

    lemma RootsOf()
      requires Valid()
      ensures Now().lists.Keys == Sp().roots.Keys
    {
    }

    /** A new space, with an empty list. */
    method NewSpace(a: nat) returns (ok: bool)
      requires Valid() && a !in Sp().roots
      modifies this`lists, Sp()`tables, Sp()`roots, Sp()`at, Sp()`pos, Sp().frames.Repr()
      ensures Valid() && Sp().model == old(Sp().model) && Sp().ext == old(Sp().ext) && lent == old(lent)
      ensures ok ==> Sp().roots.Keys == old(Sp().roots).Keys + {a} && lists == old(lists)[a := []]
      ensures ok ==> SlotsAdded(old(Sp().T()), Sp().T(), a) && forall k :: k in Sp().model ==> SpaceOf(k) != a
      ensures !ok ==> Sp().roots == old(Sp().roots) && lists == old(lists) && Exhausted(Sp().frames.refs[..])
    {
      hide Spaces.Valid, H.Allocator.Valid, SlotsAdded, SpaceOf, Exhausted, Alive, HeapIs;
      ok := Sp().NewSpace(a);
      if ok {
        lists := lists[a := []];
      }
    }

    /** A block for another part of the kernel. */
    method Lend(size: nat) returns (p: nat)
      requires Valid() && 0 < size <= H.REQUEST_LIMIT
      modifies this`lent, heap.pages, heap.chunks
      modifies Sp()`tables, Sp()`at, Sp()`pos, Sp()`model, Sp()`ext, Sp().frames.Repr()
      ensures Valid()
      ensures p != H.NULL ==> Lent(old(Now()), Now(), p, Request(size), 4 * Request(size) / PAGE_SIZE)
      ensures p == H.NULL ==> Refused(old(Now()), Now()) && Now().brk == old(Now()).brk
      ensures p == H.NULL && old(Now()).brk + Request(size) <= H.LIMIT && Small(old(Now()).t, HEAP_ZONE) ==>
              |GeneralFree(old(Now()).refs)| < 4 * Request(size) / PAGE_SIZE
    {
      hide Break.Valid, H.Allocator.Valid, NodesOk, H.Gained, Spent, Small, GeneralFree, Grown, OnlyTakesFree, Slots;
      hide Request, Exact, Tagged, Charged, TablesFromFree;
      ghost var s := Now();
      Counts();
      p := heap.Kmalloc(size);
      if p != H.NULL {
        ghost var n :| n >= size && H.Gained(old(heap.chunks.blocks), heap.chunks.blocks, p, n);
        NodesLend(lists, lent, old(heap.chunks.blocks), heap.chunks.blocks, p, n);
        lent := lent + {p};
      }
      Counts();
      LendCounts(s, Now(), p == H.NULL, 4 * Request(size) / PAGE_SIZE);
    }

    lemma LendCounts(s: Snap, s': Snap, none: bool, n: nat)
      requires Exact(s.refs, s.ext, s.t) && Exact(s'.refs, s'.ext, s'.t) && Tagged(s) && Tagged(s')
      requires s'.managed == s.managed && s'.ext == s.ext
      requires if none then s'.t.model == s.t.model && TablesFromFree(s.t, s.refs, s'.t)
               else OnlyTakesFree(s.refs, s'.refs) && Spent(s.t, s.refs, s'.t, s'.refs, n)
      ensures SameCounts(s, s')
    {
      hide Tagged, Spent, OnlyTakesFree, TablesFromFree, Charged;
      TaggedSame(s, s');
      if none {
        SameMapSameCounts(s.t, s.refs, s'.t, s'.refs, s.ext);
      } else {
        ChargedTaken(s.t, s.refs, s'.t, s'.refs, n);
      }
    }

    /** Takes back a block that was lent. */
    method Return(p: nat)
      requires Valid() && p in lent
      modifies this`lent, heap.chunks`mem, heap.chunks`blocks
      ensures Valid() && Now() == old(Now()).(lent := old(lent) - {p})
    {
      hide Break.Valid, H.Allocator.Valid, H.Lost, Alive;
      assert Alive(heap.chunks.blocks, p);
      NotNull(heap, p);
      heap.Kfree(p);
      NodesReturn(lists, lent, old(heap.chunks.blocks), heap.chunks.blocks, p);
      lent := lent - {p};
    }

    /**
      Maps a page and puts a node for it on the space's list. Outside the heap
      nothing but that page changes, and on failure nothing at all; the heap may have
      gained a page for the node. Fails for want of frames only if fewer than seven
      are free: one for the heap and up to three tables for each of the two pages.
     */
    method MapPage(a: nat, va: nat, pa: nat, flags: Protection, owned: bool, kernelRegion: bool)
      returns (ok: bool, ghost node: nat)
      requires Valid() && a in Sp().roots && va < WORD_LIMIT && pa < PHYS_LIMIT && !InHeap(Key(a, va))
      requires Mappable(Sp().frames.refs[..], Sp().ext, pa / PAGE_SIZE, owned)
      modifies this, heap.pages, heap.chunks, Sp()`tables, Sp()`at, Sp()`pos, Sp()`model, Sp()`ext, Sp().frames.Repr()
      ensures Valid() && Now().brk <= old(Now()).brk + PAGE_SIZE
      ensures ok ==> Allowed(a, va, kernelRegion) && pa % PAGE_SIZE == 0
      ensures !Allowed(a, va, kernelRegion) || pa % PAGE_SIZE != 0 ==> Now() == old(Now())
      ensures ok ==> PageMapped(old(Now()), Now(), a, Mapping(va, pa / PAGE_SIZE, owned, node), flags, 7)
      ensures !ok ==> Refused(old(Now()), Now())
      ensures !ok && Allowed(a, va, kernelRegion) && pa % PAGE_SIZE == 0 && Key(a, va) !in old(Sp().model)
              && old(Now()).brk + PAGE_SIZE <= H.LIMIT && Small(old(Now()).t, HEAP_ZONE)
              && Small(old(Now()).t, SlotsOf(a, va, va)) ==>
              |GeneralFree(old(Now()).refs)| < 7
    {
      hide Valid, Lent, Refused, PageMapped, Small, GeneralFree, Request, Key, InHeap, Exhausted, Spaces.LargePage;
      hide Allowed, Index4, Now;
      ghost var s := Now();
      RefusedSelf(s);
      NodeRequest();
      SnapIs(s);
      if !Allowed(a, va, kernelRegion) || pa % PAGE_SIZE != 0 {
        return false, 0;
      }
      var p := Lend(NODE_SIZE);
      node := p;
      if p == H.NULL {
        return false, p;
      }
      ghost var s1 := Now();
      SnapIs(s1);
      LentMappable(s, s1, p, pa / PAGE_SIZE, owned);
      ok := MapNode(a, va, pa, flags, owned, kernelRegion, p);
      ghost var s2 := Now();
      SnapIs(s2);
      if !ok {
        LentThenFailed(a, va, s, s1, p);
        RefusedLent(s1, s2);
        Return(p);
        LentThenReturned(s, s1, s2, Now(), p, 4);
        SnapIs(Now());
        return;
      }
      LentThenMapped(s, s1, s2, a, Mapping(va, pa / PAGE_SIZE, owned, node), flags);
    }

    lemma SnapIs(s: Snap)
      requires s == Now()
      ensures s.t == Sp().T() && s.refs == Sp().frames.refs[..] && s.ext == Sp().ext && s.lent == lent
      ensures s.brk == heap.pages.brk
      ensures s.t.model == Sp().model && s.t.roots == Sp().roots && s.lists == lists
    {
    }

    lemma LentThenFailed(a: nat, va: nat, s: Snap, s1: Snap, p: nat)
      requires Valid() && Lent(s, s1, p, PAGE_SIZE, 4) && !InHeap(Key(a, va))
      requires Spent(s1.t, s1.refs, Now().t, Now().refs, if Key(a, va) in s1.t.model then 3 else 2)
      ensures Key(a, va) in s.t.model <==> Key(a, va) in s1.t.model
      ensures Small(s.t, SlotsOf(a, va, va)) && Key(a, va) !in s.t.model
              && (Exhausted(Now().refs) || Sp().LargePage(a, va)) ==>
              |GeneralFree(s.refs)| < 7
    {
      hide Kheap.Valid, Spent, Small, GeneralFree, Grown, OnlyTakesFree, Slots, Key, InHeap, Exhausted;
      hide Spaces.LargePage, Index4;
      Inside();
      KeyKept(s.t.model, s1.t.model, Key(a, va));
      if Key(a, va) !in s.t.model {
        SpentTwice(s.t, s.refs, s1.t, s1.refs, Sp().T(), Sp().frames.refs[..], 4, 2);
        OutOfFrames(Sp(), SlotsOf(a, va, va), va, s.t, s.refs, 6);
      }
    }

    /** Maps the page and turns a block at hand into its node. */
    method MapNode(a: nat, va: nat, pa: nat, flags: Protection, owned: bool, kernelRegion: bool,
                   node: nat) returns (ok: bool)
      requires Valid() && a in Sp().roots && va < WORD_LIMIT && pa < PHYS_LIMIT && !InHeap(Key(a, va))
      requires node in lent
      requires Mappable(Sp().frames.refs[..], Sp().ext, pa / PAGE_SIZE, owned)
      modifies this, Sp()`tables, Sp()`at, Sp()`pos, Sp()`model, Sp()`ext, Sp().frames.Repr()
      ensures Valid() && Now().brk == old(Now()).brk
      ensures ok ==> Allowed(a, va, kernelRegion) && pa % PAGE_SIZE == 0 && lent == old(lent) - {node}
      ensures ok ==> PageMapped(old(Now()), Now().(lent := old(lent)), a, Mapping(va, pa / PAGE_SIZE, owned, node),
                                flags, 3)
      ensures !ok ==> Refused(old(Now()), Now())
      ensures !ok ==> Spent(old(Now()).t, old(Now()).refs, Now().t, Now().refs,
                            if Key(a, va) in old(Sp().model) then 3 else 2)
      ensures !ok && Allowed(a, va, kernelRegion) && pa % PAGE_SIZE == 0 && Key(a, va) !in old(Sp().model) ==>
              Exhausted(Now().refs) || Sp().LargePage(a, va)
    {
      hide Spaces.Valid, H.Allocator.Valid, NodesOk, Spent, Undisturbed, Slots, Key, InHeap, HeapIs, Surrendered;
      hide LeafOf, Exhausted;
      hide Spaces.LargePage, Allowed, Mappable, Grown, Exact, Tagged, Charged, Built, Seen, SeenSame;
      ghost var s := Now();
      Counts();
      OtherKey(Sp().model, Key(a, va), LeafOf(PageEntry(pa / PAGE_SIZE, flags)), heap.pages.mapped);
      ok := Sp().MapPage(a, va, pa, flags, owned, kernelRegion);
      OutsideSelf(Sp().model, []);
      if ok {
        var m := Mapping(va, pa / PAGE_SIZE, owned, node);
        assert lent - {node} + {node} == lent;
        NodesPush(lists, lent - {node}, heap.chunks.blocks, a, m);
        lists := lists[a := [m] + lists[a]];
        lent := lent - {node};
      }
      Counts();
      MapCounts(s, Now(), pa / PAGE_SIZE, if ok && !owned then 1 else 0,
                if ok || Key(a, va) in s.t.model then 3 else 2);
    }

    lemma MapCounts(s: Snap, s': Snap, f: nat, d: nat, n: nat)
      requires Tagged(s) && Tagged(s') && s'.managed == s.managed && |s'.refs| == |s.refs|
      requires Undisturbed(s.refs, s'.refs, f, d) && d <= 1 && Spent(s.t, s.refs, s'.t, s'.refs, n)
      ensures Charged(s.t, s.refs, s'.t, s'.refs, f, f + d) && (d == 0 ==> SameCounts(s, s'))
    {
      hide Tagged, Spent, Undisturbed, Charged;
      TaggedSame(s, s');
      ChargedBy(s.t, s.refs, s'.t, s'.refs, f, d, n);
      if d == 0 {
        ChargedNone(s.t, s.refs, s'.t, s'.refs, f, 0);
      }
    }

    /** Unmaps a page, takes its node off the list and frees it. */
    method UnmapPage(a: nat, va: nat, kernelRegion: bool) returns (ok: bool)
      requires Valid() && a in Sp().roots && va < WORD_LIMIT && !InHeap(Key(a, va))
      modifies this, heap.chunks`mem, heap.chunks`blocks, Sp()`tables, Sp()`at, Sp()`pos, Sp()`model, Sp().frames.Repr()
      ensures Valid()
      ensures ok <==> Allowed(a, va, kernelRegion) && Key(a, va) in old(Sp().model)
      ensures ok ==> PageUnmapped(old(Now()), Now(), a, va)
      ensures !ok ==> Refused(old(Now()), Now()) && Sp().model == old(Sp().model)
    {
      hide Spaces.Valid, H.Allocator.Valid, NodesOk, Slots, Key, InHeap, HeapIs, Allowed, DropFirst, Grown;
      hide Exact, Tagged, Charged, Released, Pruned, TidyWalk, Shape, Seen;
      ghost var s := Now();
      Counts();
      ChargedSelf(s.t, s.t, s.refs, 0);
      OutsideSelf(Sp().model, []);
      OtherKey(Sp().model, Key(a, va), Leaf(0, false, false, false), heap.pages.mapped);
      ok := Sp().UnmapPage(a, va, kernelRegion);
      Counts();
      UnmapCounts(s, Now(), ok, Key(a, va));
      if ok {
        DropNode(a, va);
      }
    }

    lemma UnmapCounts(s: Snap, s': Snap, ok: bool, k: Pos)
      requires Exact(s.refs, s.ext, s.t) && Exact(s'.refs, s'.ext, s'.t) && Tagged(s) && Tagged(s')
      requires s'.managed == s.managed && s'.ext == s.ext && s'.t.tables.Keys <= s.t.tables.Keys
      requires if ok then k in s.t.model && s'.t.model == s.t.model - {k} else s'.t.model == s.t.model
      ensures ok ==> k in s.t.model && Released(s.t, s.refs, s'.t, s'.refs, s.t.model[k].frame)
      ensures !ok ==> SameCounts(s, s')
    {
      hide Tagged, Charged, Released;
      TaggedSame(s, s');
      if ok {
        UnmappedCounts(s.t, s.refs, s'.t, s'.refs, s.ext, k);
      } else {
        SameMapSameCounts(s.t, s.refs, s'.t, s'.refs, s.ext);
      }
    }

    method ProtectPage(a: nat, va: nat, flags: Protection, kernelRegion: bool) returns (ok: bool)
      requires Valid() && a in Sp().roots && va < WORD_LIMIT
      modifies Sp()`tables, Sp()`model
      ensures Valid()
      ensures ok <==> Allowed(a, va, kernelRegion) && Key(a, va) in old(Sp().model)
      ensures ok ==> PageProtected(old(Now()), Now(), a, va, flags)
      ensures !ok ==> Refused(old(Now()), Now()) && Sp().model == old(Sp().model)
    {
      hide Spaces.Valid, H.Allocator.Valid, NodesOk, Slots, Key, InHeap, Allowed, Grown, Charged, Seen;
      OutsideSelf(Sp().model, []);
      ghost var s := Now();
      ok := Sp().ProtectPage(a, va, flags, kernelRegion);
      ChargedSelf(s.t, Sp().T(), s.refs, 0);
    }

    method DropNode(a: nat, va: nat)
      requires Valid() && a in lists
      modifies this, heap.chunks`mem, heap.chunks`blocks
      ensures Valid() && Now() == old(Now()).(lists := old(lists)[a := DropFirst(old(lists)[a], va)])
    {
      hide Kheap.Valid, NodesOk, DropFirst;
      var k := FindMapping(lists[a], va);
      if k < |lists[a]| {
        var node := lists[a][k].node;
        NodesDrop(lists, lent, heap.chunks.blocks, a, k);
        NodeFree(lists, lent, heap.chunks.blocks, a, k);
        lists := lists[a := lists[a][..k] + lists[a][k + 1..]];
        lent := lent + {node};
        Return(node);
      } else {
        assert lists[a := lists[a]] == lists;
      }
    }
  }

  lemma LentMappable(s: Snap, s': Snap, p: nat, f: nat, owned: bool)
    requires Lent(s, s', p, PAGE_SIZE, 4) && Mappable(s.refs, s.ext, f, owned)
    ensures Mappable(s'.refs, s'.ext, f, owned) && s'.t.roots == s.t.roots && p in s'.lent
    ensures s'.brk <= s.brk + PAGE_SIZE
  {
    hide Grown, Spent, Slots;
    StillMappable(s.refs, s'.refs, s.ext, f, owned);
  }

  lemma NodeFree(lists: map<nat, seq<Mapping>>, lent: set<nat>, bs: seq<H.Block>, a: nat, k: nat)
    requires NodesOk(lists, lent, bs) && a in lists && k < |lists[a]|
    ensures lent + {lists[a][k].node} - {lists[a][k].node} == lent
  {
  }

  lemma LentBack(lent: set<nat>, p: nat)
    requires p !in lent
    ensures lent + {p} - {p} == lent
  {
  }

  lemma KeyKept(m: map<Pos, Leaf>, m': map<Pos, Leaf>, k: Pos)
    requires Grown(m, m') && !InHeap(k)
    ensures k in m <==> k in m'
  {
  }

  /** Allocation leaves the frames in use as they are. */
  lemma StillMappable(refs: seq<nat>, refs': seq<nat>, ext: seq<nat>, f: nat, owned: bool)
    requires OnlyTakesFree(refs, refs') && Mappable(refs, ext, f, owned)
    ensures Mappable(refs', ext, f, owned) && Surrendered(refs', ext, f) == Surrendered(refs, ext, f)
    ensures f < |refs| ==> refs[f] != 0
  {
  }

  lemma StillUndisturbed(refs: seq<nat>, refs': seq<nat>, refs'': seq<nat>, f: nat, d: nat)
    requires OnlyTakesFree(refs, refs') && Undisturbed(refs', refs'', f, d) && (f < |refs| ==> refs[f] != 0)
    ensures Undisturbed(refs, refs'', f, d)
  {
  }

  lemma NotNull(heap: Kheap, p: nat)
    requires heap.Valid() && Alive(heap.chunks.blocks, p)
    ensures p != H.NULL
  {
    hide Break.Valid;
    var n :| H.IsLive(heap.chunks.blocks, p, n);
    H.LiveInside(heap.chunks.blocks, p, n);
  }
}
