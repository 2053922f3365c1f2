/**
  The kernel heap's pages and the allocator on top of them: the break moves by
  mapping and unmapping pages of the kernel space, in the same tables and from the
  same frames as everything else.
 */
module KernelHeap {
  import opened Basics
  import opened Frames
  import opened PageTree
  import opened AddressSpaces
  import H = Heap

  /** The root slots of the heap's addresses. */
  const HEAP_ZONE: Zone := Zone(KERNEL, 384, 448)

  const HEAP_FLAGS := Protection(true, false, true)

  ghost predicate InHeap(k: Pos) {
    InZone(k, HEAP_ZONE)
  }

  predicate HeapPage(va: nat) {
    va % PAGE_SIZE == 0 && H.BASE <= va < H.LIMIT
  }

  lemma HeapPageKey(va: nat)
    requires HeapPage(va)
    ensures Allowed(KERNEL, va, true) && va < WORD_LIMIT && InHeap(Key(KERNEL, va))
    ensures HEAP_ZONE.lo <= Index4(va) < HEAP_ZONE.hi
  {
    assert 0x1ffff80 <= va / 0x80_0000_0000 < 0x1ffffc0;
    LeafPlace(KERNEL, Index4(va), Index3(va), Index2(va), Index1(va));
  }

  /** A place on the last level belongs to its root and to the first slot on its path. */
  lemma LeafPlace(a: nat, i4: nat, i3: nat, i2: nat, i1: nat)
    ensures var p := Sub(Sub(Sub(Sub(Root(a), i4), i3), i2), i1); SpaceOf(p) == a && SlotOf(p) == i4
  {
    var p := Sub(Sub(Root(a), i4), i3);
    assert SpaceOf(p.up) == a && SlotOf(p.up) == i4;
    assert SpaceOf(p) == a && SlotOf(p) == i4;
    assert SpaceOf(Sub(p, i2)) == a && SlotOf(Sub(p, i2)) == i4;
  }

  lemma HeapPagesApart(va: nat, wa: nat)
    requires HeapPage(va) && HeapPage(wa) && va != wa
    ensures Key(KERNEL, va) != Key(KERNEL, wa)
  {
    hide Key, Allowed;
    HeapPageKey(va);
    HeapPageKey(wa);
    if Key(KERNEL, va) == Key(KERNEL, wa) {
      KeyInjective(KERNEL, va, KERNEL, wa, true);
    }
  }

  /** Of the heap's pages exactly those below `lo`, and those from `hi` to `top`, are mapped. */
  ghost predicate HeapIs(m: map<Pos, Leaf>, lo: nat, hi: nat, top: nat) {
    forall va: nat {:trigger Key(KERNEL, va)} :: HeapPage(va) ==> (Key(KERNEL, va) in m <==> va < lo || hi <= va < top)
  }

  /** The heap is mapped exactly up to here. */
  ghost predicate HeapMapped(m: map<Pos, Leaf>, mapped: nat) {
    HeapIs(m, mapped, mapped, mapped)
  }

  /** Nothing but heap pages differs. */
  ghost predicate SameOutside(m: map<Pos, Leaf>, m': map<Pos, Leaf>) {
    forall k :: !InHeap(k) ==> (k in m <==> k in m') && (k in m ==> m'[k] == m[k])
  }

  lemma SameOutsideTwice(m: map<Pos, Leaf>, m': map<Pos, Leaf>, m'': map<Pos, Leaf>)
    requires SameOutside(m, m') && SameOutside(m', m'')
    ensures SameOutside(m, m'')
  {
    hide InHeap;
  }

  /** Heap pages may have been added; nothing else differs. */
  ghost predicate Grown(m: map<Pos, Leaf>, m': map<Pos, Leaf>) {
    SameOutside(m, m') && forall k :: k in m ==> k in m' && m'[k] == m[k]
  }

  lemma GrownTwice(m: map<Pos, Leaf>, m': map<Pos, Leaf>, m'': map<Pos, Leaf>)
    requires Grown(m, m') && Grown(m', m'')
    ensures Grown(m, m'')
  {
    hide InHeap;
  }

  lemma GrownOutside(m: map<Pos, Leaf>, m': map<Pos, Leaf>)
    requires Grown(m, m')
    ensures SameOutside(m, m')
  {
  }

  lemma AddHeapPage(m: map<Pos, Leaf>, va: nat, leaf: Leaf)
    requires HeapPage(va) && HeapMapped(m, va)
    ensures Key(KERNEL, va) !in m && HeapMapped(m[Key(KERNEL, va) := leaf], va + PAGE_SIZE)
    ensures Grown(m, m[Key(KERNEL, va) := leaf]) && m[Key(KERNEL, va) := leaf] - {Key(KERNEL, va)} == m
  {
    hide Key, InHeap;
    HeapPageKey(va);
    var m' := m[Key(KERNEL, va) := leaf];
    forall w: nat | HeapPage(w)
      ensures Key(KERNEL, w) in m' <==> w < va + PAGE_SIZE
    {
      if w != va {
        HeapPagesApart(va, w);
      }
    }
  }

  /** A page of another space is no heap page. */
  lemma NotHeap(a: nat, va: nat)
    requires a != KERNEL
    ensures SpaceOf(Key(a, va)) == a && !InHeap(Key(a, va))
  {
    LeafPlace(a, Index4(va), Index3(va), Index2(va), Index1(va));
  }

  /** Changes at other keys leave the heap's pages alone. */
  lemma OtherKey(m: map<Pos, Leaf>, k: Pos, leaf: Leaf, mapped: nat)
    requires !InHeap(k) && HeapMapped(m, mapped)
    ensures HeapMapped(m[k := leaf], mapped) && HeapMapped(m - {k}, mapped)
  {
    hide Key, InHeap;
    forall va: nat | HeapPage(va)
      ensures Key(KERNEL, va) != k
    {
      HeapPageKey(va);
    }
  }

  lemma GrownWith(m: map<Pos, Leaf>, m': map<Pos, Leaf>, k: Pos, leaf: Leaf)
    requires Grown(m, m')
    ensures Grown(m[k := leaf], m'[k := leaf])
  {
    hide InHeap;
  }

  lemma GrownWithout(m: map<Pos, Leaf>, m': map<Pos, Leaf>, k: Pos)
    requires Grown(m, m')
    ensures Grown(m - {k}, m' - {k})
  {
    hide InHeap;
  }

  lemma DropHeapPage(m: map<Pos, Leaf>, lo: nat, va: nat, top: nat)
    requires HeapPage(va) && lo <= va < top && HeapIs(m, lo, va, top)
    ensures Key(KERNEL, va) in m && HeapIs(m - {Key(KERNEL, va)}, lo, va + PAGE_SIZE, top)
    ensures SameOutside(m, m - {Key(KERNEL, va)})
  {
    hide Key, InHeap;
    HeapPageKey(va);
    var m' := m - {Key(KERNEL, va)};
    forall w: nat | HeapPage(w)
      ensures Key(KERNEL, w) in m' <==> w < lo || va + PAGE_SIZE <= w < top
    {
      if w != va {
        HeapPagesApart(va, w);
      }
    }
  }

  function PageUp(a: nat): (p: nat)
    ensures p % PAGE_SIZE == 0 && a <= p < a + PAGE_SIZE
  {
    (a + PAGE_SIZE - 1) / PAGE_SIZE * PAGE_SIZE
  }

  /** The models a growing heap went through, one page at a time from `start`. */
  ghost predicate Laid(ms: seq<map<Pos, Leaf>>, start: nat) {
    forall j: nat :: j + 1 < |ms| ==>
      var k := Key(KERNEL, start + j * PAGE_SIZE);
      k in ms[j + 1] && ms[j + 1] - {k} == ms[j]
  }

  class Break {
    const sp: Spaces
    /** End of the heap, and end of its mapped pages. */
    var brk: nat
    var mapped: nat

    ghost predicate Valid()
      reads this, sp, sp.frames.Repr()
    {
      && this !in sp.frames.Repr() && sp !in sp.frames.Repr() && sp.Valid() && KERNEL in sp.roots
      && H.BASE <= brk <= H.LIMIT && mapped == PageUp(brk) && HeapMapped(sp.model, mapped)
      && sp.frames.refs.Length * PAGE_SIZE <= PHYS_LIMIT
    }

    /** The heap before its first use. */
    constructor (sp: Spaces)
      requires sp.Valid() && KERNEL in sp.roots && sp !in sp.frames.Repr() && HeapMapped(sp.model, H.BASE)
      requires sp.frames.refs.Length * PAGE_SIZE <= PHYS_LIMIT
      ensures Valid() && this.sp == sp && brk == H.BASE
    {
      hide Spaces.Valid, HeapMapped;
      this.sp, brk, mapped := sp, H.BASE, H.BASE;
    }

    /** Allocates a frame and maps it as the heap page at `va`. */
    method AddPage(va: nat) returns (ok: bool)
      requires sp.Valid() && KERNEL in sp.roots && sp !in sp.frames.Repr()
      requires sp.frames.refs.Length * PAGE_SIZE <= PHYS_LIMIT
      requires HeapPage(va) && HeapMapped(sp.model, va)
      modifies sp`tables, sp`at, sp`pos, sp`model, sp`ext, sp.frames.Repr()
      ensures sp.Valid() && sp.ext == old(sp.ext)
      ensures Slots(sp.T()) == old(Slots(sp.T())) && sp.frames.managed == old(sp.frames.managed)
      ensures ok ==> Key(KERNEL, va) in sp.model && sp.model - {Key(KERNEL, va)} == old(sp.model)
      ensures ok ==> (
                var l := sp.model[Key(KERNEL, va)];
                l.writable && !l.user && l.nx && l.frame < |old(sp.frames.refs[..])|
                && old(sp.frames.refs[..])[l.frame] == 0)
      ensures ok ==> HeapMapped(sp.model, va + PAGE_SIZE) && Grown(old(sp.model), sp.model)
      ensures ok ==> OnlyTakesFree(old(sp.frames.refs[..]), sp.frames.refs[..])
      ensures ok ==> Spent(old(sp.T()), old(sp.frames.refs[..]), sp.T(), sp.frames.refs[..], 4)
      ensures !ok ==> sp.model == old(sp.model) && TablesFromFree(old(sp.T()), old(sp.frames.refs[..]), sp.T())
      ensures !ok && old(Small(sp.T(), HEAP_ZONE)) ==> |GeneralFree(old(sp.frames.refs[..]))| < 4
    {
      hide Spaces.Valid, Spent, Small, GeneralFree, Exhausted, Spaces.LargePage, HeapIs, Grown, Slots, Key, Allowed;
      hide Index4, TablesFromFree, Built, Seen, SeenSame;
      ghost var t0, refs0 := sp.T(), sp.frames.refs[..];
      HeapPageKey(va);
      var found := sp.AllocPage();
      if found.None? {
        SameTables(t0, refs0, sp.T());
        SpentNone(t0, refs0);
        OutOfFrames(sp, HEAP_ZONE, va, t0, refs0, 0);
        return false;
      }
      var f := found.value;
      ghost var t1, refs1 := sp.T(), sp.frames.refs[..];
      FrameBelow(f, sp.frames.refs.Length);
      ManagedIs(sp, f);
      assert Mappable(refs1, sp.ext, f, true);
      ok := sp.MapPage(KERNEL, va, f * PAGE_SIZE, HEAP_FLAGS, true, true);
      AddHeapPage(old(sp.model), va, LeafOf(PageEntry(f, HEAP_FLAGS)));
      SpentTwice(t0, refs0, t1, refs1, sp.T(), sp.frames.refs[..], 1, if ok then 3 else 2);
      if !ok {
        OutOfFrames(sp, HEAP_ZONE, va, t0, refs0, 3);
        SameTables(sp.T(), sp.frames.refs[..], sp.T());
        SpentTables(t0, refs0, sp.T(), sp.frames.refs[..], 3, sp.T());
        ManagedIs(sp, f);
        sp.ReleasePage(f);
        return;
      }
      TookFree(refs0, refs1, sp.frames.refs[..], f);
      assert sp.ext == old(sp.ext);
    }

    /** Unmaps the first `n` pages from `start` again, the last one first. */
    method Undo(start: nat, n: nat, ghost ms: seq<map<Pos, Leaf>>)
      requires sp.Valid() && KERNEL in sp.roots && sp !in sp.frames.Repr()
      requires start % PAGE_SIZE == 0 && H.BASE <= start && start + n * PAGE_SIZE <= H.LIMIT
      requires |ms| == n + 1 && Laid(ms, start) && sp.model == ms[n]
      modifies sp`tables, sp`at, sp`pos, sp`model, sp.frames.Repr()
      ensures sp.Valid() && sp.model == ms[0] && sp.tables.Keys <= old(sp.tables).Keys
      ensures Slots(sp.T()) == old(Slots(sp.T())) && sp.frames.managed == old(sp.frames.managed)
    {
      hide Spaces.Valid, Slots, Key, Allowed, Pruned, TidyWalk, Shape, Released, Seen;
      var j: nat := n;
      while j > 0
        modifies sp`tables, sp`at, sp`pos, sp`model, sp.frames.Repr()
        invariant j <= n && sp.Valid() && sp.model == ms[j] && sp.tables.Keys <= old(sp.tables).Keys
        invariant Slots(sp.T()) == old(Slots(sp.T())) && sp.frames.managed == old(sp.frames.managed)
      {
        j := j - 1;
        HeapPageKey(start + j * PAGE_SIZE);
        assert Key(KERNEL, start + j * PAGE_SIZE) in ms[j + 1];
        // the code ignores the result; the page is always there
        var ok := sp.UnmapPage(KERNEL, start + j * PAGE_SIZE, true);
        assert ok;
      }
    }

    /** Maps `n` more pages from `start`, or none. */
    method Grow(start: nat, n: nat) returns (ok: bool)
      requires sp.Valid() && KERNEL in sp.roots && sp !in sp.frames.Repr()
      requires sp.frames.refs.Length * PAGE_SIZE <= PHYS_LIMIT
      requires start % PAGE_SIZE == 0 && H.BASE <= start && start + n * PAGE_SIZE <= H.LIMIT
      requires HeapMapped(sp.model, start)
      modifies sp`tables, sp`at, sp`pos, sp`model, sp`ext, sp.frames.Repr()
      ensures sp.Valid() && sp.ext == old(sp.ext)
      ensures Slots(sp.T()) == old(Slots(sp.T())) && sp.frames.managed == old(sp.frames.managed)
      ensures ok ==> HeapMapped(sp.model, start + n * PAGE_SIZE) && Grown(old(sp.model), sp.model)
      ensures ok ==> OnlyTakesFree(old(sp.frames.refs[..]), sp.frames.refs[..])
      ensures ok ==> Spent(old(sp.T()), old(sp.frames.refs[..]), sp.T(), sp.frames.refs[..], 4 * n)
      ensures !ok ==> sp.model == old(sp.model) && TablesFromFree(old(sp.T()), old(sp.frames.refs[..]), sp.T())
      ensures !ok && old(Small(sp.T(), HEAP_ZONE)) ==> |GeneralFree(old(sp.frames.refs[..]))| < 4 * n
    {
      hide Spaces.Valid, Spent, Small, GeneralFree, HeapIs, Grown, Slots, Key, OnlyTakesFree, TablesFromFree;
      ghost var t0, refs0 := sp.T(), sp.frames.refs[..];
      ghost var ms := [sp.model];
      SpentNone(t0, refs0);
      OutsideSelf(sp.model, refs0);
      var j := 0;
      while j < n
        modifies sp`tables, sp`at, sp`pos, sp`model, sp`ext, sp.frames.Repr()
        invariant j <= n && sp.Valid() && sp.ext == old(sp.ext) && |ms| == j + 1 && ms[0] == old(sp.model)
        invariant ms[j] == sp.model
        invariant Laid(ms, start) && HeapMapped(sp.model, start + j * PAGE_SIZE) && Grown(old(sp.model), sp.model)
        invariant OnlyTakesFree(refs0, sp.frames.refs[..])
        invariant Spent(t0, refs0, sp.T(), sp.frames.refs[..], 4 * j)
        invariant Slots(sp.T()) == old(Slots(sp.T())) && sp.frames.managed == old(sp.frames.managed)
      {
        ghost var t, refs := sp.T(), sp.frames.refs[..];
        ok := AddPage(start + j * PAGE_SIZE);
        if !ok {
          if Small(t0, HEAP_ZONE) {
            SpentSmall(t0, refs0, t, refs, 4 * j, HEAP_ZONE);
          }
          ghost var t' := sp.T();
          Undo(start, j, ms);
          FewerTables(t, refs, t', sp.T());
          SpentTables(t0, refs0, t, refs, 4 * j, sp.T());
          return;
        }
        SpentTwice(t0, refs0, t, refs, sp.T(), sp.frames.refs[..], 4 * j, 4);
        TakesFreeTwice(refs0, refs, sp.frames.refs[..]);
        GrownTwice(old(sp.model), ms[j], sp.model);
        ms := ms + [sp.model];
        j := j + 1;
      }
      ok := true;
    }

    /** Unmaps the pages of the heap from `lo` to `top`. */
    method Shrink(lo: nat, top: nat)
      requires sp.Valid() && KERNEL in sp.roots && sp !in sp.frames.Repr()
      requires lo % PAGE_SIZE == 0 && top % PAGE_SIZE == 0 && H.BASE <= lo <= top <= H.LIMIT
      requires HeapMapped(sp.model, top)
      modifies sp`tables, sp`at, sp`pos, sp`model, sp.frames.Repr()
      ensures sp.Valid() && HeapMapped(sp.model, lo) && SameOutside(old(sp.model), sp.model)
      ensures Slots(sp.T()) == old(Slots(sp.T())) && sp.frames.managed == old(sp.frames.managed)
    {
      hide Spaces.Valid, Slots, Key, Allowed, SameOutside, Pruned, TidyWalk, Shape, Released, Seen;
      OutsideSelf(sp.model, []);
      var va := lo;
      while va < top
        modifies sp`tables, sp`at, sp`pos, sp`model, sp.frames.Repr()
        invariant lo <= va <= top && va % PAGE_SIZE == 0 && sp.Valid()
        invariant HeapIs(sp.model, lo, va, top) && SameOutside(old(sp.model), sp.model)
        invariant Slots(sp.T()) == old(Slots(sp.T())) && sp.frames.managed == old(sp.frames.managed)
      {
        HeapPageKey(va);
        DropHeapPage(sp.model, lo, va, top);
        ghost var m := sp.model;
        // the code ignores the result; the page is always there
        var ok := sp.UnmapPage(KERNEL, va, true);
        assert ok;
        SameOutsideTwice(old(sp.model), m, sp.model);
        va := va + PAGE_SIZE;
      }
    }

    /**
      Moves the break. A failure leaves every page, the break and the callers' holds
      as they were; growing fails only at the heap's limit, at a large page, or with
      fewer than four free frames for each page asked for.
     */
    method Ksbrk(increment: int) returns (r: Option<nat>)
      requires Valid()
      modifies this, sp`tables, sp`at, sp`pos, sp`model, sp`ext, sp.frames.Repr()
      ensures Valid() && sp.ext == old(sp.ext) && SameOutside(old(sp.model), sp.model)
      ensures Slots(sp.T()) == old(Slots(sp.T())) && sp.frames.managed == old(sp.frames.managed)
      ensures r.Some? ==> r.value == old(brk) && brk == old(brk) + increment
      ensures r.Some? && increment >= 0 ==> Grown(old(sp.model), sp.model)
      ensures r.Some? && increment >= 0 ==> OnlyTakesFree(old(sp.frames.refs[..]), sp.frames.refs[..])
      ensures r.Some? && increment >= 0 ==>
              Spent(old(sp.T()), old(sp.frames.refs[..]), sp.T(), sp.frames.refs[..], 4 * PagesFor(old(brk), increment))
      ensures r.None? ==> brk == old(brk) && mapped == old(mapped) && sp.model == old(sp.model)
      ensures r.None? ==> TablesFromFree(old(sp.T()), old(sp.frames.refs[..]), sp.T())
      ensures increment <= 0 ==> (r.Some? <==> old(brk) + increment >= H.BASE)
      ensures r.None? && increment > 0 && old(brk) + increment <= H.LIMIT && old(Small(sp.T(), HEAP_ZONE)) ==>
              |GeneralFree(old(sp.frames.refs[..]))| < 4 * PagesFor(old(brk), increment)
    {
      hide Spaces.Valid, Spent, Small, GeneralFree, HeapIs, SameOutside, Slots, OnlyTakesFree, TablesFromFree;
      hide PageUp, PagesFor, Grown, Spaces.T;
      SameTables(sp.T(), sp.frames.refs[..], sp.T());
      OutsideSelf(sp.model, sp.frames.refs[..]);
      SpentNone(sp.T(), sp.frames.refs[..]);
      if increment == 0 {
        PagesReach(brk, 0);
        return Some(brk);
      }
      var was := brk;
      if increment > 0 {
        if brk + increment > H.LIMIT {
          return None;
        }
        var n := PagesFor(brk, increment);
        PagesReach(brk, increment);
        var ok := Grow(mapped, n);
        if !ok {
          return None;
        }
        GrownOutside(old(sp.model), sp.model);
        mapped := mapped + n * PAGE_SIZE;
        brk := brk + increment;
        return Some(was);
      }
      if -increment > brk - H.BASE {
        return None;
      }
      PageUpOrdered(brk + increment, brk);
      Shrink(PageUp(brk + increment), mapped);
      mapped := PageUp(brk + increment);
      brk := brk + increment;
      return Some(was);
    }
  }

  // ----- the allocator

  /** A caller owns the block at this address. */
  ghost predicate Alive(bs: seq<H.Block>, p: nat) {
    exists n :: H.IsLive(bs, p, n)
  }

  class Kheap {
    const pages: Break
    const chunks: H.Allocator

    ghost predicate Valid()
      reads pages, chunks, pages.sp, pages.sp.frames.Repr()
    {
      && chunks !in pages.sp.frames.Repr() && pages.Valid() && chunks.Valid() && chunks.brk == pages.brk
    }

    constructor (pages: Break, chunks: H.Allocator)
      requires pages.Valid() && chunks.Valid() && chunks.brk == pages.brk && chunks !in pages.sp.frames.Repr()
      ensures Valid() && this.pages == pages && this.chunks == chunks
    {
      this.pages, this.chunks := pages, chunks;
    }

    /**
      The first free chunk that is large enough, or else new pages. Failure means
      that nothing fits and the break cannot move, and changes nothing; success
      gives a new block, keeps all others and may add heap pages.
     */
    method Kmalloc(size: nat) returns (p: nat)
      requires Valid() && size <= H.REQUEST_LIMIT
      modifies pages, chunks, pages.sp`tables, pages.sp`at, pages.sp`pos, pages.sp`model, pages.sp`ext
      modifies pages.sp.frames.Repr()
      ensures Valid() && pages.sp.ext == old(pages.sp.ext)
      ensures Slots(pages.sp.T()) == old(Slots(pages.sp.T())) && pages.sp.frames.managed == old(pages.sp.frames.managed)
      ensures Grown(old(pages.sp.model), pages.sp.model)
      ensures p == H.NULL ==> chunks.blocks == old(chunks.blocks) && pages.sp.model == old(pages.sp.model)
      ensures p == H.NULL ==> pages.brk == old(pages.brk)
      ensures p == H.NULL ==> TablesFromFree(old(pages.sp.T()), old(pages.sp.frames.refs[..]), pages.sp.T())
      ensures p == H.NULL ==> size == 0 || H.NoneFitBefore(old(chunks.blocks), |old(chunks.blocks)|, H.RoundUp16(size))
      ensures p != H.NULL ==> size > 0 && exists n ::
                size <= n < size + H.ALIGN + H.HEADER + H.MIN_SPLIT && H.Gained(old(chunks.blocks), chunks.blocks, p, n)
      ensures forall i: nat :: size != 0 && H.Fits(old(chunks.blocks), i, H.RoundUp16(size)) ==>
                p != H.NULL && p <= H.Addr(old(chunks.blocks), i) + H.HEADER
      ensures p != H.NULL ==> old(pages.brk) <= pages.brk <= old(pages.brk) + Request(size)
      ensures p != H.NULL ==> OnlyTakesFree(old(pages.sp.frames.refs[..]), pages.sp.frames.refs[..])
      ensures p != H.NULL ==> Spent(old(pages.sp.T()), old(pages.sp.frames.refs[..]), pages.sp.T(),
                                    pages.sp.frames.refs[..], 4 * Request(size) / PAGE_SIZE)
      ensures p == H.NULL && size > 0 && old(pages.brk) + Request(size) <= H.LIMIT
              && old(Small(pages.sp.T(), HEAP_ZONE)) ==>
              |GeneralFree(old(pages.sp.frames.refs[..]))| < 4 * Request(size) / PAGE_SIZE
    {
      hide Break.Valid, H.Gained, Spent, Small, GeneralFree, SameOutside, Grown, OnlyTakesFree, Slots, H.RoundUp16;
      hide H.RoundUpPage, H.Addr, TablesFromFree;
      hide H.Represents, H.Aligned, H.NoTwoFree;
      ghost var t0, refs0 := pages.sp.T(), pages.sp.frames.refs[..];
      SameTables(t0, refs0, t0);
      OutsideSelf(pages.sp.model, refs0);
      SpentNone(t0, refs0);
      SpentMore(t0, refs0, t0, refs0, 0, 4 * Request(size) / PAGE_SIZE);
      if size == 0 {
        return H.NULL;
      }
      var w := H.RoundUp16(size);
      var c;
      ghost var i;
      c, i := chunks.FirstFit(w);
      if c != H.NULL {
        p := chunks.TakeChunk(c, w, i);
        forall k: nat | H.Fits(old(chunks.blocks), k, w)
          ensures H.Addr(old(chunks.blocks), i) <= H.Addr(old(chunks.blocks), k)
        {
          H.AddrMonotone(old(chunks.blocks), i, k);
        }
        return;
      }
      RequestPages(pages.brk, size);
      var r := pages.Ksbrk(Request(size));
      if r.None? {
        return H.NULL;
      }
      p := chunks.GrowHeap(w);
    }

    method Kfree(p: nat)
      requires Valid() && (p != H.NULL ==> Alive(chunks.blocks, p))
      modifies chunks`mem, chunks`blocks
      ensures Valid() && (p == H.NULL ==> chunks.blocks == old(chunks.blocks))
      ensures p != H.NULL ==> H.Lost(old(chunks.blocks), chunks.blocks, p)
    {
      hide Break.Valid, H.Lost;
      chunks.Kfree(p);
    }
  }

  /** The bytes by which a request that fits nowhere moves the break. */
  function Request(size: nat): (r: nat)
    ensures r % PAGE_SIZE == 0 && r > 0
  {
    H.RoundUpPage(H.HEADER + H.RoundUp16(size))
  }

  lemma RequestPages(brk: nat, size: nat)
    ensures 4 * PagesFor(brk, Request(size)) == 4 * Request(size) / PAGE_SIZE && Request(size) > 0
  {
    hide Request;
    var r := Request(size);
  }

  /** The pages that growing from this break takes. */
  function PagesFor(brk: nat, increment: int): nat
    requires increment >= 0
  {
    (PageUp(brk + increment) - PageUp(brk)) / PAGE_SIZE
  }

  lemma PageUpOrdered(a: nat, b: nat)
    requires a <= b
    ensures PageUp(a) <= PageUp(b) && (b <= H.LIMIT ==> PageUp(b) <= H.LIMIT)
  {
  }

  lemma PagesReach(brk: nat, increment: int)
    requires increment >= 0 && brk + increment <= H.LIMIT
    ensures PageUp(brk) + PagesFor(brk, increment) * PAGE_SIZE == PageUp(brk + increment) <= H.LIMIT
  {
  }

  lemma OutsideSelf(m: map<Pos, Leaf>, refs: seq<nat>)
    ensures SameOutside(m, m) && Grown(m, m) && OnlyTakesFree(refs, refs)
  {
  }

  lemma SpentSmall(t0: Tree, refs0: seq<nat>, t: Tree, refs: seq<nat>, n: nat, z: Zone)
    requires Spent(t0, refs0, t, refs, n) && Small(t0, z)
    ensures Small(t, z) && |GeneralFree(refs0)| <= |GeneralFree(refs)| + n
  {
  }

  lemma SameTables(t: Tree, refs: seq<nat>, t': Tree)
    requires t'.tables == t.tables
    ensures TablesFromFree(t, refs, t')
  {
  }

  lemma FewerTables(t: Tree, refs: seq<nat>, t': Tree, t'': Tree)
    requires TablesFromFree(t, refs, t') && t''.tables.Keys <= t'.tables.Keys
    ensures TablesFromFree(t, refs, t'')
  {
  }

  lemma ManagedIs(sp: Spaces, f: nat)
    requires sp.Valid() && f < sp.frames.refs.Length
    ensures f in sp.frames.managed <==> sp.frames.refs[f] != UNMANAGED
  {
  }

  lemma TookFree(before: seq<nat>, mid: seq<nat>, after: seq<nat>, f: nat)
    requires OnlyTakesFree(before, mid) && f < |before| && before[f] == 0 && Undisturbed(mid, after, f, 0)
    ensures OnlyTakesFree(before, after)
  {
  }

  lemma FrameBelow(f: nat, n: nat)
    requires f < n && n * PAGE_SIZE <= PHYS_LIMIT
    ensures f * PAGE_SIZE < PHYS_LIMIT && f * PAGE_SIZE / PAGE_SIZE == f && f * PAGE_SIZE % PAGE_SIZE == 0
  {
  }
}
