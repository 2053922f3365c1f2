/**
  Address spaces over four-level page tables: mapping, unmapping and protecting
  single pages and ranges, with table pages allocated on demand and given back
  when they become empty.
 */
module AddressSpaces {
  import opened Basics
  import opened Frames
  import opened PageTree

  const KERNEL_HALF: nat := 0xffff_8000_0000_0000
  const PHYS_LIMIT: nat := 0x10_0000_0000_0000

  function Index4(va: nat): (r: nat) ensures r < ENTRIES { va / 0x80_0000_0000 % 512 }
  function Index3(va: nat): (r: nat) ensures r < ENTRIES { va / 0x4000_0000 % 512 }
  function Index2(va: nat): (r: nat) ensures r < ENTRIES { va / 0x20_0000 % 512 }
  function Index1(va: nat): (r: nat) ensures r < ENTRIES { va / 0x1000 % 512 }

  /** The place of the last-level table for `va` as a walk from the root of space `a` takes it. */
  function TablePos(a: nat, va: nat): (p: Pos)
    ensures Depth(p) == 3
  {
    var pd := Sub(Sub(Root(a), Index4(va)), Index3(va));
    assert Depth(pd.up) == 1;
    Sub(pd, Index2(va))
  }

  /** The key of the map under which the page at `va` of space `a` is kept. */
  function Key(a: nat, va: nat): Pos {
    Sub(TablePos(a, va), Index1(va))
  }

  /** The root slots that the addresses from `first` to `last` go through. */
  function SlotsOf(a: nat, first: nat, last: nat): Zone {
    Zone(a, Index4(first), Index4(last) + 1)
  }

  /** Where each kind of region lets a space map: its own lower half, or the kernel the upper half. */
  predicate Allowed(a: nat, va: nat, kernelRegion: bool) {
    va % PAGE_SIZE == 0 && if kernelRegion then a == KERNEL && va >= KERNEL_HALF else va < USER_TOP
  }

  /** Allowed are the pages of the canonical lower half, and to the kernel space those of the canonical upper half. */
  lemma AllowedIff(a: nat, va: nat, kernelRegion: bool)
    requires va < WORD_LIMIT
    ensures Allowed(a, va, kernelRegion) <==>
            va % 4096 == 0 && if kernelRegion then a == 0 && va / 0x8000_0000_0000 == 0x1_ffff
                              else va / 0x8000_0000_0000 == 0
  {
  }

  datatype Protection = Protection(writable: bool, user: bool, nx: bool)

  function PageEntry(frame: nat, flags: Protection): Entry {
    Entry(true, flags.writable, flags.user, false, flags.nx, frame)
  }

  datatype PageWalk = PageWalk(pml4: nat, pdpt: nat, pd: nat, pt: nat)

  lemma DivSteps(va: nat)
    ensures va / 0x20_0000 == (va / 0x1000) / 512
    ensures va / 0x4000_0000 == (va / 0x20_0000) / 512
    ensures va / 0x80_0000_0000 == (va / 0x4000_0000) / 512
    ensures va / 0x1_0000_0000_0000 == (va / 0x80_0000_0000) / 512
  {
  }

  lemma SplitStep(n: nat)
    ensures n == (n / 512) * 512 + n % 512
  {
  }

  /** The four indices and the offset are the low 48 bits. */
  lemma IndexSum(va: nat)
    ensures va == (va / 0x1_0000_0000_0000) * 0x1_0000_0000_0000 + Index4(va) * 0x80_0000_0000
                  + Index3(va) * 0x4000_0000 + Index2(va) * 0x20_0000 + Index1(va) * 0x1000 + va % 0x1000
  {
    DivSteps(va);
    SplitStep(va / 0x80_0000_0000);
    SplitStep(va / 0x4000_0000);
    SplitStep(va / 0x20_0000);
    SplitStep(va / 0x1000);
  }

  /** Two addresses of one region share a key only if they are the same page. */
  lemma KeyInjective(a: nat, va: nat, b: nat, vb: nat, kernelRegion: bool)
    requires Allowed(a, va, kernelRegion) && Allowed(b, vb, kernelRegion)
    requires va < WORD_LIMIT && vb < WORD_LIMIT && Key(a, va) == Key(b, vb)
    ensures a == b && va == vb
  {
    hide Index4, Index3, Index2, Index1;
    IndexSum(va);
    IndexSum(vb);
    if kernelRegion {
      HighBits(va);
      HighBits(vb);
    } else {
      NoHighBits(va);
      NoHighBits(vb);
    }
  }

  lemma NoHighBits(va: nat)
    requires va < USER_TOP
    ensures va / 0x1_0000_0000_0000 == 0
  {
  }

  lemma HighBits(va: nat)
    requires KERNEL_HALF <= va < WORD_LIMIT
    ensures va / 0x1_0000_0000_0000 == 0xffff && Index4(va) >= SHARED_SLOT
  {
    assert 0x1ffff00 <= va / 0x80_0000_0000 < 0x2000000;
  }

  /** Within a region higher addresses go through higher slots. */
  lemma SlotsInOrder(a: nat, va: nat, wa: nat)
    requires va <= wa < WORD_LIMIT && exists r :: Allowed(a, va, r) && Allowed(a, wa, r)
    ensures Index4(va) <= Index4(wa)
  {
    if va >= KERNEL_HALF {
      assert 0x1ffff00 <= va / 0x80_0000_0000 <= wa / 0x80_0000_0000 < 0x2000000;
    } else {
      assert va / 0x80_0000_0000 <= wa / 0x80_0000_0000 < 256;
    }
  }

  lemma RegionSlots(a: nat, va: nat, kernelRegion: bool)
    requires Allowed(a, va, kernelRegion) && va < WORD_LIMIT
    ensures kernelRegion <==> Index4(va) >= SHARED_SLOT
    ensures Canon(TablePos(a, va)) == TablePos(a, va)
    ensures SlotOf(TablePos(a, va)) == SlotOf(TablePos(a, va).up) == SlotOf(TablePos(a, va).up.up) == Index4(va)
  {
    if kernelRegion {
      HighBits(va);
    }
    var p3 := Sub(Root(a), Index4(va));
    assert Canon(p3) == p3;
    var p2 := Sub(p3, Index3(va));
    assert Canon(p2) == p2;
  }

  predicate IsLarge(e: Entry) {
    e.present && e.huge
  }

  /** No frame of the general pool is free. */
  ghost predicate Exhausted(refs: seq<nat>) {
    forall f :: GENERAL_FLOOR <= f < |refs| ==> refs[f] != 0
  }

  /** Frames in use keep their counts; only free frames are taken. */
  ghost predicate OnlyTakesFree(before: seq<nat>, after: seq<nat>) {
    |after| == |before| && forall f :: 0 <= f < |before| && before[f] != 0 ==> after[f] == before[f]
  }

  lemma TakesFreeTwice(before: seq<nat>, mid: seq<nat>, after: seq<nat>)
    requires OnlyTakesFree(before, mid) && OnlyTakesFree(mid, after)
    ensures OnlyTakesFree(before, after)
  {
  }

  /** The same, except that frame `g`, if managed, has `d` more references. */
  ghost predicate Undisturbed(before: seq<nat>, after: seq<nat>, g: nat, d: nat) {
    && |after| == |before|
    && forall f :: 0 <= f < |before| && before[f] != 0 ==>
         after[f] == if f == g && before[f] != UNMANAGED then before[f] + d else before[f]
  }

  lemma UndisturbedAfter(before: seq<nat>, mid: seq<nat>, after: seq<nat>, ext: seq<nat>, g: nat, d: nat)
    requires OnlyTakesFree(before, mid) && Undisturbed(mid, after, g, d)
    requires g < |before| ==> before[g] != 0
    ensures Undisturbed(before, after, g, d) && Surrendered(mid, ext, g) == Surrendered(before, ext, g)
  {
  }

  // ----- how many frames building tables takes

  ghost function GeneralFree(refs: seq<nat>): set<nat> {
    set f: nat | GENERAL_FLOOR <= f < |refs| && refs[f] == 0
  }

  /** No page directory of the zone holds a large page. */
  ghost predicate Small(t: Tree, z: Zone) {
    forall u, i :: u in t.tables && u in t.pos && 0 <= i < |t.tables[u]| ==>
      Depth(t.pos[u]) == 2 && InZone(t.pos[u], z) ==> !t.tables[u][i].huge
  }

  /**
    At most `n` free frames were used, none was given back, new tables are in
    frames that were free, and no large page appeared.
   */
  ghost predicate Spent(t: Tree, refs: seq<nat>, t': Tree, refs': seq<nat>, n: nat) {
    && |GeneralFree(refs)| <= |GeneralFree(refs')| + n && |refs'| == |refs|
    && (forall f :: 0 <= f < |refs| && refs[f] != 0 ==> refs'[f] != 0 && (f in t'.tables <==> f in t.tables))
    && (forall z :: Small(t, z) ==> Small(t', z))
  }

  /** A frame in use that holds a table did so before. */
  ghost predicate TablesFromFree(t: Tree, refs: seq<nat>, t': Tree) {
    forall f :: 0 <= f < |refs| && refs[f] != 0 && f in t'.tables ==> f in t.tables
  }

  lemma SpentTables(t: Tree, refs: seq<nat>, t': Tree, refs': seq<nat>, n: nat, t'': Tree)
    requires Spent(t, refs, t', refs', n) && TablesFromFree(t', refs', t'')
    ensures TablesFromFree(t, refs, t'')
  {
  }

  lemma SpentNone(t: Tree, refs: seq<nat>)
    ensures Spent(t, refs, t, refs, 0)
  {
  }

  lemma SpentMore(t: Tree, refs: seq<nat>, t': Tree, refs': seq<nat>, n: nat, m: nat)
    requires Spent(t, refs, t', refs', n) && n <= m
    ensures Spent(t, refs, t', refs', m)
  {
  }

  lemma SpentTwice(t: Tree, refs: seq<nat>, t': Tree, refs': seq<nat>, t'': Tree, refs'': seq<nat>, n: nat, m: nat)
    requires Spent(t, refs, t', refs', n) && Spent(t', refs', t'', refs'', m)
    ensures Spent(t, refs, t'', refs'', n + m)
  {
  }

  lemma SpentLink(t: Tree, refs: seq<nat>, u: nat, i: nat, f: nat, user: bool)
    requires Shape(t) && u in t.tables && i < ENTRIES && f !in t.tables && f < |refs| && refs[f] == 0
    ensures Spent(t, refs, LinkEmpty(t, u, i, f, user), refs[f := 1], 1)
  {
    hide Shape;
    assert GeneralFree(refs) - {f} == GeneralFree(refs[f := 1]);
    var s := LinkEmpty(t, u, i, f, user);
    forall z | Small(t, z)
      ensures Small(s, z)
    {
      SmallLink(t, u, i, f, user, z);
    }
  }

  lemma SmallLink(t: Tree, u: nat, i: nat, f: nat, user: bool, z: Zone)
    requires Shape(t) && u in t.tables && i < ENTRIES && f !in t.tables && Small(t, z)
    ensures Small(LinkEmpty(t, u, i, f, user), z)
  {
    assert u in t.pos && |t.tables[u]| == ENTRIES;
  }

  lemma SpentFrame(t: Tree, refs: seq<nat>, f: nat)
    requires f < |refs| && refs[f] == 0
    ensures Spent(t, refs, t, refs[f := 1], 1)
  {
    assert GeneralFree(refs) - {f} == GeneralFree(refs[f := 1]);
  }

  /** A free frame stays free, so filling a last-level entry spends none. */
  lemma SpentLeaf(t: Tree, refs: seq<nat>, u: nat, i: nat, e: Entry, refs': seq<nat>)
    requires Shape(t) && u in t.tables && i < ENTRIES && u in t.pos && Depth(t.pos[u]) == 3
    requires |refs'| == |refs| && forall f :: 0 <= f < |refs| && refs[f] == 0 ==> refs'[f] == 0
    requires forall f :: 0 <= f < |refs| && refs[f] != 0 ==> refs'[f] != 0
    ensures Spent(t, refs, SetLeaf(t, u, i, e), refs', 0)
  {
    hide Shape;
    assert GeneralFree(refs) == GeneralFree(refs');
  }

  /** With no free frame left, there were at most as many as have been spent. */
  lemma SpentAll(t: Tree, refs: seq<nat>, t': Tree, refs': seq<nat>, n: nat)
    requires Spent(t, refs, t', refs', n) && Exhausted(refs')
    ensures |GeneralFree(refs)| <= n
  {
    assert GeneralFree(refs') == {};
  }

  lemma NotLarge(t: Tree, z: Zone, va: nat)
    requires Shape(t) && Small(t, z) && z.lo <= Index4(va) < z.hi
    ensures var pd := TablePos(z.space, va).up;
            pd in t.at ==> !t.tables[t.at[pd]][Index2(va)].huge
  {
    var pd := TablePos(z.space, va).up;
    assert SpaceOf(pd) == SpaceOf(pd.up) == SpaceOf(Root(z.space));
    assert SlotOf(pd) == SlotOf(pd.up) == Index4(va);
    assert Depth(pd) == 2;
  }

  /** What mapping demands of its caller: a tracked frame is not free, and an owned one is the caller's. */
  ghost predicate Mappable(refs: seq<nat>, ext: seq<nat>, f: nat, owned: bool) {
    && (f < |refs| ==> refs[f] != 0)
    && (f < |refs| && refs[f] != UNMANAGED ==> f < |ext| && if owned then ext[f] > 0 else refs[f] < UNMANAGED - 1)
  }

  // ----- the tables of a walk, each linked from the one before

  ghost predicate IsTable(t: Tree, u: nat, p: Pos) {
    u in t.tables && u in t.pos && |t.tables[u]| == ENTRIES && t.pos[u] == p
  }

  ghost predicate ReachesPdpt(t: Tree, w: PageWalk, a: nat, va: nat) {
    && IsTable(t, w.pml4, Root(a))
    && IsLink(0, t.tables[w.pml4][Index4(va)]) && t.tables[w.pml4][Index4(va)].frame == w.pdpt
    && IsTable(t, w.pdpt, Child(Root(a), Index4(va)))
  }

  ghost predicate ReachesPd(t: Tree, w: PageWalk, a: nat, va: nat) {
    && ReachesPdpt(t, w, a, va)
    && IsLink(1, t.tables[w.pdpt][Index3(va)]) && t.tables[w.pdpt][Index3(va)].frame == w.pd
    && IsTable(t, w.pd, Sub(Child(Root(a), Index4(va)), Index3(va)))
  }

  ghost predicate ReachesPt(t: Tree, w: PageWalk, a: nat, va: nat) {
    && ReachesPd(t, w, a, va)
    && IsLink(2, t.tables[w.pd][Index2(va)]) && t.tables[w.pd][Index2(va)].frame == w.pt
    && IsTable(t, w.pt, Sub(Sub(Child(Root(a), Index4(va)), Index3(va)), Index2(va)))
  }

  lemma ClearKeepsWalk(t: Tree, w: PageWalk, a: nat, va: nat, e: Entry)
    requires Inv(t) && ReachesPt(t, w, a, va)
    ensures Shape(t) && ReachesPt(SetLeaf(t, w.pt, Index1(va), e), w, a, va)
  {
  }

  lemma PrunePt(t: Tree, w: PageWalk, a: nat, va: nat)
    requires Inv(t) && ReachesPt(t, w, a, va) && NoneUsed(t.tables[w.pt])
    ensures CanUnlink(t, w.pd, Index2(va))
    ensures ReachesPd(UnlinkEmpty(t, w.pd, Index2(va)), w, a, va)
  {
  }

  lemma PrunePd(t: Tree, w: PageWalk, a: nat, va: nat)
    requires Inv(t) && ReachesPd(t, w, a, va) && NoneUsed(t.tables[w.pd])
    ensures CanUnlink(t, w.pdpt, Index3(va))
    ensures ReachesPdpt(UnlinkEmpty(t, w.pdpt, Index3(va)), w, a, va)
  {
  }

  // ----- what each space sees

  // ----- reference counts, apart from those for tables

  /** The references on a frame other than as a table: its pages, and the holds of others. */
  ghost function DataRefs(t: Tree, refs: seq<nat>, f: nat): int
    requires f < |refs|
  {
    refs[f] as int - (if f in t.tables then 1 else 0)
  }

  /** The same frames are managed. */
  ghost predicate SameManaged(refs: seq<nat>, refs': seq<nat>) {
    |refs'| == |refs| && forall f :: 0 <= f < |refs| ==> (refs'[f] == UNMANAGED <==> refs[f] == UNMANAGED)
  }

  /** Every managed frame keeps its count, except that `g` has one less, and no table appears. */
  ghost predicate Released(t: Tree, refs: seq<nat>, t': Tree, refs': seq<nat>, g: nat) {
    && SameManaged(refs, refs') && t'.tables.Keys <= t.tables.Keys
    && forall f: nat :: f < |refs| && refs[f] != UNMANAGED ==>
         DataRefs(t', refs', f) == DataRefs(t, refs, f) - (if f == g then 1 else 0)
  }

  lemma UnmappedCounts(t: Tree, refs: seq<nat>, t': Tree, refs': seq<nat>, ext: seq<nat>, k: Pos)
    requires Exact(refs, ext, t) && Exact(refs', ext, t') && k in t.model && t'.model == t.model - {k}
    requires SameManaged(refs, refs') && t'.tables.Keys <= t.tables.Keys
    ensures Released(t, refs, t', refs', t.model[k].frame)
  {
    hide LeafRefs;
    LeafRefsDrop(t.model, k);
  }

  /** Which frames are managed shows in the counts. */
  ghost predicate Marks(refs: seq<nat>, managed: set<nat>) {
    forall f :: 0 <= f < |refs| ==> (f in managed <==> refs[f] != UNMANAGED)
  }

  lemma MarksSame(refs: seq<nat>, refs': seq<nat>, managed: set<nat>)
    requires Marks(refs, managed) && Marks(refs', managed) && |refs'| == |refs|
    ensures SameManaged(refs, refs')
  {
  }

  // ----- tables built and given back along a walk

  /** The places that a walk to `va` passes. */
  ghost predicate OnWalk(p: Pos, a: nat, va: nat) {
    p == Root(a) || p == TablePos(a, va).up.up || p == TablePos(a, va).up || p == TablePos(a, va)
  }

  /** The entry that the walk takes at a place. */
  ghost function Turn(p: Pos, va: nat): nat {
    if Depth(p) == 0 then Index4(va) else if Depth(p) == 1 then Index3(va)
    else if Depth(p) == 2 then Index2(va) else Index1(va)
  }

  ghost function EntryAt(t: Tree, p: Pos, j: nat): Entry
    requires Shape(t) && p in t.at && j < ENTRIES
  {
    t.tables[t.at[p]][j]
  }

  /** Tables off the walk are the same; on it, those in both keep their frames and all entries but the walk's. */
  ghost predicate SameOffWalk(t: Tree, t': Tree, a: nat, va: nat)
    requires Shape(t) && Shape(t')
  {
    && (forall p :: !OnWalk(p, a, va) ==> (p in t.at <==> p in t'.at))
    && (forall p :: p in t.at && p in t'.at ==> t'.at[p] == t.at[p])
    && (forall p, j: nat :: p in t.at && p in t'.at && j < ENTRIES && (OnWalk(p, a, va) ==> j != Turn(p, va)) ==>
         EntryAt(t', p, j) == EntryAt(t, p, j))
  }

  /** Tables were only added, on the walk, and hold nothing but the walk's entry; no present entry has changed. */
  ghost predicate Built(t: Tree, t': Tree, a: nat, va: nat) {
    && Shape(t) && Shape(t') && SameOffWalk(t, t', a, va) && t.at.Keys <= t'.at.Keys
    && (forall p, j: nat :: p in t.at && p in t'.at && j < ENTRIES && EntryAt(t, p, j).present ==>
         EntryAt(t', p, j) == EntryAt(t, p, j))
    && (forall p, j: nat :: p in t'.at && p !in t.at && j < ENTRIES && j != Turn(p, va) ==> !EntryAt(t', p, j).present)
  }

  /** Tables were only given back, on the walk, that held nothing but the walk's entry; no entry became present. */
  ghost predicate Pruned(t: Tree, t': Tree, a: nat, va: nat) {
    && Shape(t) && Shape(t') && SameOffWalk(t, t', a, va) && t'.at.Keys <= t.at.Keys
    && (forall p, j: nat :: p in t.at && p in t'.at && j < ENTRIES && EntryAt(t', p, j).present ==>
         EntryAt(t', p, j) == EntryAt(t, p, j))
    && (forall p, j: nat :: p in t.at && p !in t'.at && j < ENTRIES && j != Turn(p, va) ==> !EntryAt(t, p, j).present)
  }

  /** There is no table at the place, or it has a present entry. */
  ghost predicate Tidy(t: Tree, p: Pos)
    requires Shape(t)
  {
    p in t.at ==> exists j: nat :: j < ENTRIES && EntryAt(t, p, j).present
  }

  /** No table below the root is kept on the walk without a present entry; a kernel root keeps its slots. */
  ghost predicate TidyWalk(t: Tree, a: nat, va: nat)
    requires Shape(t)
  {
    && Tidy(t, TablePos(a, va)) && Tidy(t, TablePos(a, va).up)
    && (Index4(va) < SHARED_SLOT ==> Tidy(t, TablePos(a, va).up.up))
  }

  lemma BuiltSelf(t: Tree, a: nat, va: nat)
    requires Shape(t)
    ensures Built(t, t, a, va) && Pruned(t, t, a, va)
  {
    hide Shape, OnWalk, Turn;
  }

  lemma BuiltTwice(t: Tree, t': Tree, t'': Tree, a: nat, va: nat)
    requires Built(t, t', a, va) && Built(t', t'', a, va)
    ensures Built(t, t'', a, va)
  {
    hide Shape, OnWalk, Turn, EntryAt;
  }

  lemma PrunedTwice(t: Tree, t': Tree, t'': Tree, a: nat, va: nat)
    requires Pruned(t, t', a, va) && Pruned(t', t'', a, va)
    ensures Pruned(t, t'', a, va)
  {
    hide Shape, OnWalk, Turn, EntryAt;
  }

  /** All tables are the same, but for one entry of one of them. */
  ghost predicate OneEntry(t: Tree, t': Tree, q: Pos, i: nat, e: Entry)
    requires Shape(t) && Shape(t')
  {
    forall p, j: nat :: p in t.at && p in t'.at && j < ENTRIES ==>
      EntryAt(t', p, j) == if p == q && j == i then e else EntryAt(t, p, j)
  }

  lemma LeafEntries(t: Tree, u: nat, i: nat, e: Entry)
    requires Shape(t) && u in t.tables && i < ENTRIES && Shape(SetLeaf(t, u, i, e))
    ensures SetLeaf(t, u, i, e).at == t.at && t.pos[u] in t.at && OneEntry(t, SetLeaf(t, u, i, e), t.pos[u], i, e)
    ensures EntryAt(t, t.pos[u], i) == t.tables[u][i]
  {
  }

  lemma LinkEntries(t: Tree, u: nat, i: nat, f: nat, user: bool)
    requires CanLink(t, u, i, f) && Shape(LinkEmpty(t, u, i, f, user))
    ensures var s, p := LinkEmpty(t, u, i, f, user), Sub(t.pos[u], i);
            && s.at == t.at[p := f] && p !in t.at && t.pos[u] in t.at && t.at.Keys <= s.at.Keys
            && OneEntry(t, s, t.pos[u], i, Entry(true, true, user, false, false, f))
            && !EntryAt(t, t.pos[u], i).present && (forall j: nat :: j < ENTRIES ==> EntryAt(s, p, j) == NO_ENTRY)
            && (forall q :: q in t.at ==> s.at[q] == t.at[q])
  {
    hide Down, Leaves;
    var s := LinkEmpty(t, u, i, f, user);
    forall p, j: nat | p in t.at && p in s.at && j < ENTRIES
      ensures EntryAt(s, p, j) ==
              if p == t.pos[u] && j == i then Entry(true, true, user, false, false, f) else EntryAt(t, p, j)
    {
      assert t.pos[t.at[p]] == p;
    }
  }

  lemma UnlinkEntries(t: Tree, u: nat, i: nat)
    requires CanUnlink(t, u, i) && Shape(UnlinkEmpty(t, u, i))
    ensures var s, p := UnlinkEmpty(t, u, i), Sub(t.pos[u], i);
            && s.at == t.at - {p} && p in t.at && p != t.pos[u] && OneEntry(t, s, t.pos[u], i, NO_ENTRY)
            && (forall j: nat :: j < ENTRIES ==> !EntryAt(t, p, j).present)
  {
    hide Up, Leaves;
    UnlinkEmptyShape(t, u, i);
    var s := UnlinkEmpty(t, u, i);
    forall p, j: nat | p in t.at && p in s.at && j < ENTRIES
      ensures EntryAt(s, p, j) == if p == t.pos[u] && j == i then NO_ENTRY else EntryAt(t, p, j)
    {
      assert t.pos[t.at[p]] == p && s.at[p] == t.at[p];
    }
  }

  /** Filling an absent entry, or clearing one, in the last table of the walk. */
  lemma LeafBuilt(t: Tree, u: nat, a: nat, va: nat, e: Entry)
    requires Shape(t) && u in t.tables && u in t.pos && t.pos[u] == TablePos(a, va)
    requires Shape(SetLeaf(t, u, Index1(va), e))
    ensures |t.tables[u]| == ENTRIES
    ensures !t.tables[u][Index1(va)].present ==> Built(t, SetLeaf(t, u, Index1(va), e), a, va)
    ensures !e.present ==> Pruned(t, SetLeaf(t, u, Index1(va), e), a, va)
  {
    hide Shape, SetLeaf, EntryAt, Index1, Index2, Index3, Index4;
    TableSize(t, u);
    LeafEntries(t, u, Index1(va), e);
    assert Turn(TablePos(a, va), va) == Index1(va) && OnWalk(TablePos(a, va), a, va);
  }

  lemma LinkBuilt(t: Tree, u: nat, i: nat, f: nat, user: bool, a: nat, va: nat)
    requires CanLink(t, u, i, f) && OnWalk(t.pos[u], a, va) && OnWalk(Sub(t.pos[u], i), a, va)
    requires i == Turn(t.pos[u], va) && Shape(LinkEmpty(t, u, i, f, user))
    ensures Built(t, LinkEmpty(t, u, i, f, user), a, va)
  {
    hide OnWalk, Turn, Inv, Shape, LinkEmpty, EntryAt;
    LinkEntries(t, u, i, f, user);
    HasShape(t);
  }

  lemma UnlinkPruned(t: Tree, u: nat, i: nat, a: nat, va: nat)
    requires CanUnlink(t, u, i) && OnWalk(t.pos[u], a, va) && OnWalk(Sub(t.pos[u], i), a, va)
    requires i == Turn(t.pos[u], va) && Shape(UnlinkEmpty(t, u, i))
    ensures Pruned(t, UnlinkEmpty(t, u, i), a, va)
  {
    hide OnWalk, Turn, Inv, Shape, UnlinkEmpty, EntryAt;
    UnlinkEntries(t, u, i);
    HasShape(t);
  }

  /** Nothing has changed, or an empty table was linked under the entry. */
  ghost predicate Levelled(t: Tree, t': Tree, u: nat, i: nat, user: bool) {
    t' == t || exists f: nat :: CanLink(t, u, i, f) && t' == LinkEmpty(t, u, i, f, user)
  }

  lemma LevelBuilt(t: Tree, t': Tree, u: nat, i: nat, user: bool, a: nat, va: nat)
    requires Levelled(t, t', u, i, user) && Shape(t) && Shape(t') && u in t.pos
    requires OnWalk(t.pos[u], a, va) && OnWalk(Sub(t.pos[u], i), a, va) && i == Turn(t.pos[u], va)
    ensures Built(t, t', a, va)
  {
    hide Shape, OnWalk, Turn, Inv, LinkEmpty, Built;
    if t' == t {
      BuiltSelf(t, a, va);
    } else {
      var f: nat :| CanLink(t, u, i, f) && t' == LinkEmpty(t, u, i, f, user);
      LinkBuilt(t, u, i, f, user, a, va);
    }
  }

  /** The walk turns at each of its places towards the next. */
  lemma WalkTurns(a: nat, va: nat)
    ensures var p := TablePos(a, va);
            && OnWalk(Root(a), a, va) && OnWalk(p.up.up, a, va) && OnWalk(p.up, a, va) && OnWalk(p, a, va)
            && Turn(Root(a), va) == Index4(va) && p.up.up == Sub(Root(a), Index4(va))
            && Turn(p.up.up, va) == Index3(va) && p.up == Sub(p.up.up, Index3(va))
            && Turn(p.up, va) == Index2(va) && p == Sub(p.up, Index2(va)) && Turn(p, va) == Index1(va)
  {
    hide Index4, Index3, Index2, Index1;
    var p := TablePos(a, va);
    assert Depth(p.up) == 2 && Depth(p.up.up) == 1;
  }

  // ----- giving back the tables of a walk

  lemma PrunedPt(t: Tree, w: PageWalk, a: nat, va: nat)
    requires Inv(t) && ReachesPt(t, w, a, va) && NoneUsed(t.tables[w.pt])
    requires Child(Root(a), Index4(va)) == Sub(Root(a), Index4(va))
    ensures CanUnlink(t, w.pd, Index2(va))
    ensures var s := UnlinkEmpty(t, w.pd, Index2(va));
            Shape(s) && Pruned(t, s, a, va) && TablePos(a, va) !in s.at
  {
    hide Inv, Shape, OnWalk, Turn, Pruned, UnlinkEmpty, Index4, Index3, Index2, Index1;
    PrunePt(t, w, a, va);
    WalkTurns(a, va);
    UnlinkEmptyInv(t, w.pd, Index2(va));
    HasShape(t);
    HasShape(UnlinkEmpty(t, w.pd, Index2(va)));
    UnlinkPruned(t, w.pd, Index2(va), a, va);
    UnlinkEntries(t, w.pd, Index2(va));
  }

  lemma PrunedPd(t: Tree, w: PageWalk, a: nat, va: nat)
    requires Inv(t) && ReachesPd(t, w, a, va) && NoneUsed(t.tables[w.pd])
    requires Child(Root(a), Index4(va)) == Sub(Root(a), Index4(va))
    ensures CanUnlink(t, w.pdpt, Index3(va))
    ensures var s := UnlinkEmpty(t, w.pdpt, Index3(va));
            Shape(s) && Pruned(t, s, a, va) && TablePos(a, va).up !in s.at
  {
    hide Inv, Shape, OnWalk, Turn, Pruned, UnlinkEmpty, Index4, Index3, Index2, Index1;
    PrunePd(t, w, a, va);
    WalkTurns(a, va);
    UnlinkEmptyInv(t, w.pdpt, Index3(va));
    HasShape(t);
    HasShape(UnlinkEmpty(t, w.pdpt, Index3(va)));
    UnlinkPruned(t, w.pdpt, Index3(va), a, va);
    UnlinkEntries(t, w.pdpt, Index3(va));
  }

  lemma PrunedPdpt(t: Tree, w: PageWalk, a: nat, va: nat)
    requires Inv(t) && ReachesPdpt(t, w, a, va) && NoneUsed(t.tables[w.pdpt]) && Index4(va) < SHARED_SLOT
    ensures CanUnlink(t, w.pml4, Index4(va))
    ensures var s := UnlinkEmpty(t, w.pml4, Index4(va));
            Shape(s) && Pruned(t, s, a, va) && TablePos(a, va).up.up !in s.at
  {
    hide Inv, Shape, OnWalk, Turn, Pruned, UnlinkEmpty, Index4, Index3, Index2, Index1;
    WalkTurns(a, va);
    UnlinkEmptyInv(t, w.pml4, Index4(va));
    HasShape(t);
    HasShape(UnlinkEmpty(t, w.pml4, Index4(va)));
    UnlinkPruned(t, w.pml4, Index4(va), a, va);
    UnlinkEntries(t, w.pml4, Index4(va));
  }

  /** A table with a present entry makes its place tidy. */
  lemma TidyHere(t: Tree, u: nat, p: Pos)
    requires Shape(t) && IsTable(t, u, p) && !NoneUsed(t.tables[u])
    ensures Tidy(t, p)
  {
    var j :| 0 <= j < ENTRIES && t.tables[u][j].present;
    assert p in t.at && t.at[p] == u;
    assert EntryAt(t, p, j).present;
  }

  lemma TidyPdpt(t: Tree, w: PageWalk, a: nat, va: nat)
    requires Shape(t) && ReachesPdpt(t, w, a, va) && Child(Root(a), Index4(va)) == Sub(Root(a), Index4(va))
    requires TablePos(a, va) !in t.at && TablePos(a, va).up !in t.at
    requires Index4(va) < SHARED_SLOT ==> !NoneUsed(t.tables[w.pdpt])
    ensures TidyWalk(t, a, va)
  {
    hide Shape, Index4, Index3, Index2, NoneUsed;
    if Index4(va) < SHARED_SLOT {
      TidyHere(t, w.pdpt, TablePos(a, va).up.up);
    }
  }

  lemma TidyPd(t: Tree, w: PageWalk, a: nat, va: nat)
    requires Shape(t) && ReachesPd(t, w, a, va) && Child(Root(a), Index4(va)) == Sub(Root(a), Index4(va))
    requires TablePos(a, va) !in t.at && !NoneUsed(t.tables[w.pd])
    ensures TidyWalk(t, a, va)
  {
    hide Shape, Index4, Index3, Index2;
    TidyHere(t, w.pd, TablePos(a, va).up);
    TidyHere(t, w.pdpt, TablePos(a, va).up.up);
  }

  lemma TidyPt(t: Tree, w: PageWalk, a: nat, va: nat)
    requires Shape(t) && ReachesPt(t, w, a, va) && Child(Root(a), Index4(va)) == Sub(Root(a), Index4(va))
    requires !NoneUsed(t.tables[w.pt])
    ensures TidyWalk(t, a, va)
  {
    hide Shape, Index4, Index3, Index2;
    TidyHere(t, w.pt, TablePos(a, va));
    TidyHere(t, w.pd, TablePos(a, va).up);
    TidyHere(t, w.pdpt, TablePos(a, va).up.up);
  }

  lemma RegionChild(a: nat, va: nat, kernelRegion: bool)
    requires Allowed(a, va, kernelRegion) && va < WORD_LIMIT
    ensures Child(Root(a), Index4(va)) == Sub(Root(a), Index4(va))
  {
    hide Index4;
    RegionSlots(a, va, kernelRegion);
  }

  lemma TidyNone(t: Tree, a: nat, va: nat)
    requires Shape(t) && TablePos(a, va) !in t.at && TablePos(a, va).up !in t.at && TablePos(a, va).up.up !in t.at
    ensures TidyWalk(t, a, va)
  {
  }

  lemma StillGone(t: Tree, t': Tree, a: nat, va: nat, p: Pos)
    requires Pruned(t, t', a, va) && p !in t.at
    ensures p !in t'.at
  {
  }

  lemma HasShape(t: Tree)
    requires Inv(t)
    ensures Shape(t)
  {
  }

  /** The key under which space `a` finds `va`: the upper half is the kernel's. */
  ghost function ViewKey(a: nat, va: nat): Pos {
    Key(if Index4(va) >= SHARED_SLOT then KERNEL else a, va)
  }

  /** What the hardware finds at `va` of space `a`: the frame, and the access that the whole walk grants. */
  ghost function View(t: Tree, a: nat, va: nat): Option<Leaf> {
    Walk(t.tables, t.roots, Key(a, va))
  }

  /** The page as the hardware sees it: nothing in the upper half is open to user code. */
  ghost function Opened(l: Leaf, va: nat): Leaf {
    Leaf(l.frame, l.writable, l.user && Index4(va) < SHARED_SLOT, l.nx)
  }

  /** The space holds the root slot of the address. */
  ghost predicate Holds(t: Tree, a: nat, va: nat) {
    Index4(va) < SHARED_SLOT || a == KERNEL || (a, Index4(va)) in Slots(t)
  }

  ghost function Lookup(t: Tree, a: nat, va: nat): Option<Leaf> {
    if Holds(t, a, va) && ViewKey(a, va) in t.model then Some(Opened(t.model[ViewKey(a, va)], va)) else None
  }

  /** A hardware walk, with the access it grants, is one look-up in the finite map. */
  lemma WalkIsLookup(t: Tree, a: nat, va: nat)
    requires Inv(t) && Perms(t) && a in t.roots
    ensures View(t, a, va) == Lookup(t, a, va)
  {
    hide Perms, Walk, Down, Up, Leaves, Resolve, Translate, Index4, Index3, Index2, Index1;
    var p3 := Sub(Root(a), Index4(va));
    var p2 := Sub(p3, Index3(va));
    var p1 := TablePos(a, va);
    WalkIsTranslate(t, p1, Index1(va));
    TranslateIsModel(t, p1, Index1(va));
    assert SlotOf(p3) == SlotOf(p2) == SlotOf(p1) == Index4(va);
    assert Canon(p3) == Child(Root(a), Index4(va));
    assert Canon(p2) == Sub(Canon(p3), Index3(va)) && Canon(p1) == Sub(Canon(p2), Index2(va));
    assert Sub(Canon(p1), Index1(va)) == ViewKey(a, va);
    assert Sees(t, p3) == Sees(t, p2) == Sees(t, p1);
    RootTableAt(t, a);
    if ViewKey(a, va) in t.model && !(Index4(va) >= SHARED_SLOT && a != KERNEL) {
      SeesMapped(t, a, va);
    }
  }

  /**
    Every operation on one page changes what is found at that page and nowhere
    else, in every space: whatever tables were built or given back on the way.
   */
  lemma OnlyThatPage(t: Tree, s: Tree, k: Pos, b: nat, vb: nat)
    requires Inv(t) && Inv(s) && Perms(t) && Perms(s) && s.roots == t.roots && Slots(s) == Slots(t)
    requires s.model - {k} == t.model - {k}
    requires b in t.roots && ViewKey(b, vb) != k
    ensures View(s, b, vb) == View(t, b, vb)
  {
    hide Inv, Perms, View;
    WalkIsLookup(t, b, vb);
    WalkIsLookup(s, b, vb);
    var v := ViewKey(b, vb);
    assert v in s.model <==> v in s.model - {k};
    assert v in t.model <==> v in t.model - {k};
    assert v in s.model ==> s.model[v] == (s.model - {k})[v];
    assert v in t.model ==> t.model[v] == (t.model - {k})[v];
  }

  /** Every space that holds the root slot finds this under the key, and everything else is as it was. */
  ghost predicate Seen(t: Tree, t': Tree, k: Pos, l: Option<Leaf>) {
    forall b: nat, va: nat :: b in t.roots ==>
      View(t', b, va) ==
      if ViewKey(b, va) != k then View(t, b, va)
      else if l.Some? && Holds(t, b, va) then Some(Opened(l.value, va)) else None
  }

  /** Every space finds everywhere what it found. */
  ghost predicate SeenSame(t: Tree, t': Tree) {
    forall b: nat, va: nat :: b in t.roots ==> View(t', b, va) == View(t, b, va)
  }

  lemma SeenKept(t: Tree, t': Tree)
    requires Inv(t) && Inv(t') && Perms(t) && Perms(t') && t'.roots == t.roots && Slots(t') == Slots(t)
    requires t'.model == t.model
    ensures SeenSame(t, t')
  {
    hide Inv, Perms, View, Slots, ViewKey, Opened;
    forall b: nat, va: nat | b in t.roots
      ensures View(t', b, va) == View(t, b, va)
    {
      WalkIsLookup(t, b, va);
      WalkIsLookup(t', b, va);
    }
  }

  lemma SeenUpdate(t: Tree, t': Tree, k: Pos, l: Option<Leaf>)
    requires Inv(t) && Inv(t') && Perms(t) && Perms(t') && t'.roots == t.roots && Slots(t') == Slots(t)
    requires t'.model == if l.Some? then t.model[k := l.value] else t.model - {k}
    ensures Seen(t, t', k, l)
  {
    hide Inv, Perms, View, Slots, ViewKey, Opened;
    forall b: nat, va: nat | b in t.roots
      ensures View(t', b, va) ==
              if ViewKey(b, va) != k then View(t, b, va)
              else if l.Some? && Holds(t, b, va) then Some(Opened(l.value, va)) else None
    {
      WalkIsLookup(t, b, va);
      WalkIsLookup(t', b, va);
    }
  }

  class Spaces {
    const frames: FrameAllocator
    var tables: map<nat, seq<Entry>>
    var roots: map<nat, nat>
    ghost var at: map<Pos, nat>
    ghost var pos: map<nat, Pos>
    ghost var model: map<Pos, Leaf>
    /** References on each frame held by anything other than the tables. */
    ghost var ext: seq<nat>

    ghost function T(): Tree
      reads this
    {
      Tree(tables, roots, at, pos, model)
    }

    ghost predicate Valid()
      reads this, frames.Repr()
    {
      && this !in frames.Repr() && frames.Valid()
      && Inv(T()) && Perms(T())
      && Exact(frames.refs[..], ext, T())
    }

    /** Adopt the tables that boot code has built. */
    constructor (frames: FrameAllocator, t: Tree, ghost ext: seq<nat>)
      requires frames.Valid() && Inv(t) && Perms(t) && Exact(frames.refs[..], ext, t)
      ensures Valid() && T() == t && this.ext == ext && this.frames == frames
    {
      this.frames := frames;
      tables, roots := t.tables, t.roots;
      at, pos, model := t.at, t.pos, t.model;
      this.ext := ext;
    }

    // ----- building and pruning the tree

    /** Link a zeroed table under the absent entry `i` of table `u`. */
    method LinkTable(u: nat, i: nat, user: bool) returns (ok: bool)
      requires Valid() && u in tables && i < ENTRIES && Shape(T()) && !tables[u][i].present
      requires Depth(pos[u]) < 3 && Child(pos[u], i) == Sub(pos[u], i)
      requires user <==> SlotOf(Sub(pos[u], i)) < SHARED_SLOT
      modifies this`tables, this`at, this`pos, frames.Repr()
      ensures Valid() && Slots(T()) == old(Slots(T())) && frames.managed == old(frames.managed)
      ensures OnlyTakesFree(old(frames.refs[..]), frames.refs[..]) && Levelled(old(T()), T(), u, i, user)
      ensures Spent(old(T()), old(frames.refs[..]), T(), frames.refs[..], if ok then 1 else 0)
      ensures ok ==> u in tables && pos[u] == old(pos[u]) && |tables[u]| == ENTRIES && Sub(pos[u], i) in at
      ensures ok ==> tables[u][i].present && !tables[u][i].huge && at[Sub(pos[u], i)] == tables[u][i].frame
      ensures !ok ==> T() == old(T()) && Exhausted(frames.refs[..])
    {
      hide Slots, Shape, Up, Down, Leaves, Perms, Exact, FrameAllocator.Valid, Spent, SlotOf;
      TableSize(T(), u);
      SpentNone(T(), frames.refs[..]);
      var found := frames.AllocPages(1);
      if found.None? {
        return false;
      }
      var f := found.value;
      ghost var before := old(frames.refs[..]);
      assert before[f] == 0 && frames.refs[..] == before[f := 1];
      FreeMeansUnused(before, ext, T(), f);
      LinkEmptyInv(T(), u, i, f, user);
      LinkEmptyPerms(T(), u, i, f, user);
      ExactLink(before, ext, T(), u, i, f, user);
      SpentLink(T(), before, u, i, f, user);
      ghost var p := Sub(pos[u], i);
      tables := tables[f := EmptyTable()];
      tables := tables[u := tables[u][i := Entry(true, true, user, false, false, f)]];
      at, pos := at[p := f], pos[f := p];
      assert T() == LinkEmpty(old(T()), u, i, f, user);
      ok := true;
    }

    /** Make sure entry `i` of table `u` leads to a table, allocating a zeroed one if it is absent. */
    method EnsureLevel(u: nat, i: nat, level: nat, user: bool) returns (ok: bool)
      requires Valid() && u in tables && i < ENTRIES
      requires level == Depth(pos[u]) && level < 3 && Child(pos[u], i) == Sub(pos[u], i)
      requires user <==> SlotOf(Sub(pos[u], i)) < SHARED_SLOT
      modifies this`tables, this`at, this`pos, frames.Repr()
      ensures Valid() && u in tables && pos[u] == old(pos[u])
      ensures OnlyTakesFree(old(frames.refs[..]), frames.refs[..])
      ensures ok ==> IsLink(level, tables[u][i]) && Sub(pos[u], i) in at && at[Sub(pos[u], i)] == tables[u][i].frame
      ensures Spent(old(T()), old(frames.refs[..]), T(), frames.refs[..], if ok then 1 else 0)
      ensures !ok && !Exhausted(frames.refs[..]) ==>
              level == 2 && pos[u] in at && at[pos[u]] == u && |tables[u]| == ENTRIES && IsLarge(tables[u][i])
      ensures Slots(T()) == old(Slots(T())) && frames.managed == old(frames.managed)
      ensures Levelled(old(T()), T(), u, i, user)
    {
      hide Slots, Shape, Up, Down, Leaves, Perms, Exact, FrameAllocator.Valid, Spent, SlotOf;
      TableSize(T(), u);
      HasShape(T());
      SpentNone(T(), frames.refs[..]);
      SpentMore(T(), frames.refs[..], T(), frames.refs[..], 0, 1);
      if !tables[u][i].present {
        ok := LinkTable(u, i, user);
      } else {
        ok := !(level == 2 && tables[u][i].huge);
        if ok {
          FollowLink(T(), u, i);
        }
      }
    }

    /** Walk to the last-level table for `va`, building the missing levels. */
    method EnsurePageTable(a: nat, va: nat, kernelRegion: bool) returns (ok: bool, pt: nat)
      requires Valid() && a in roots && Allowed(a, va, kernelRegion) && va < WORD_LIMIT
      modifies this`tables, this`at, this`pos, frames.Repr()
      ensures Valid() && OnlyTakesFree(old(frames.refs[..]), frames.refs[..])
      ensures ok ==> pt in tables && pt in pos && pos[pt] == TablePos(a, va)
      ensures !ok ==> Exhausted(frames.refs[..]) || LargePage(a, va)
      ensures Spent(old(T()), old(frames.refs[..]), T(), frames.refs[..], if ok then 3 else 2)
      ensures Slots(T()) == old(Slots(T())) && frames.managed == old(frames.managed)
      ensures Built(old(T()), T(), a, va)
    {
      hide Slots, Shape, Up, Down, Leaves, Perms, Exact, Index4, Index3, Index2, FrameAllocator.Valid, Spent;
      hide OnlyTakesFree, Levelled, Built, OnWalk, Turn;
      RegionSlots(a, va, kernelRegion);
      WalkTurns(a, va);
      RootTableAt(T(), a);
      ghost var t0, r0 := T(), frames.refs[..];
      pt := roots[a];
      ok := EnsureLevel(pt, Index4(va), 0, !kernelRegion);
      ghost var t1, r1 := T(), frames.refs[..];
      LevelBuilt(t0, t1, pt, Index4(va), !kernelRegion, a, va);
      if !ok {
        SpentMore(t0, r0, t1, r1, 0, 2);
        return;
      }
      FollowLink(T(), pt, Index4(va));
      pt := tables[pt][Index4(va)].frame;
      ok := EnsureLevel(pt, Index3(va), 1, !kernelRegion);
      ghost var t2, r2 := T(), frames.refs[..];
      LevelBuilt(t1, t2, pt, Index3(va), !kernelRegion, a, va);
      BuiltTwice(t0, t1, t2, a, va);
      SpentTwice(t0, r0, t1, r1, t2, r2, 1, if ok then 1 else 0);
      TakesFreeTwice(r0, r1, r2);
      if !ok {
        SpentMore(t0, r0, t2, r2, 1, 2);
        return;
      }
      FollowLink(T(), pt, Index3(va));
      pt := tables[pt][Index3(va)].frame;
      ok := EnsureLevel(pt, Index2(va), 2, !kernelRegion);
      LevelBuilt(t2, T(), pt, Index2(va), !kernelRegion, a, va);
      BuiltTwice(t0, t2, T(), a, va);
      SpentTwice(t0, r0, t2, r2, T(), frames.refs[..], 2, if ok then 1 else 0);
      TakesFreeTwice(r0, r2, frames.refs[..]);
      if !ok {
        return;
      }
      FollowLink(T(), pt, Index2(va));
      pt := tables[pt][Index2(va)].frame;
    }

    /** A large page covers `va`. */
    ghost predicate LargePage(a: nat, va: nat)
      requires Shape(T())
      reads this
    {
      var pd := TablePos(a, va).up;
      pd in at && tables[at[pd]][Index2(va)].present && tables[at[pd]][Index2(va)].huge
    }

    /** Clear entry `i` of table `u` and give back the empty table it led to. */
    method Prune(u: nat, i: nat)
      requires Valid() && CanUnlink(T(), u, i)
      modifies this`tables, this`at, this`pos, frames.Repr()
      ensures Valid() && T() == UnlinkEmpty(old(T()), u, i) && tables.Keys <= old(tables).Keys
      ensures frames.refs[..] == Counted(old(frames.refs[..]), old(tables[u][i].frame), -1)
      ensures Slots(T()) == old(Slots(T())) && frames.managed == old(frames.managed)
    {
      hide Slots, Shape, Up, Down, Leaves, Perms, Exact, NoneUsed, FrameAllocator.Valid;
      TableSize(T(), u);
      var f := tables[u][i].frame;
      UnlinkEmptyInv(T(), u, i);
      UnlinkEmptyPerms(T(), u, i);
      ExactUnlink(frames.refs[..], ext, T(), u, i);
      ghost var p := Child(pos[u], i);
      tables := tables[u := tables[u][i := NO_ENTRY]];
      tables, at, pos := tables - {f}, at - {p}, pos - {f};
      assert T() == UnlinkEmpty(old(T()), u, i);
      if f < frames.refs.Length && frames.refs[f] != UNMANAGED {
        frames.Put(f);
      }
      assert frames.refs[..] == Counted(old(frames.refs[..]), f, -1);
      assert T() == UnlinkEmpty(old(T()), u, i);
    }
  
    // ----- walking

    /** Walk the tables for `va` without changing them. */
    method WalkToPte(a: nat, va: nat) returns (w: Option<PageWalk>)
      requires Valid() && a in roots
      ensures w.None? <==> Resolve(tables, roots, TablePos(a, va)).None?
      ensures w.Some? ==> Resolve(tables, roots, TablePos(a, va)) == Some(w.value.pt) && ReachesPt(T(), w.value, a, va)
    {
      hide Slots, Shape, Up, Down, Leaves, Perms, Exact, Index4, Index3, Index2, FrameAllocator.Valid;
      RootTableAt(T(), a);
      var pml4 := roots[a];
      ghost var p4, p3 := Root(a), Sub(Root(a), Index4(va));
      ghost var p2 := Sub(p3, Index3(va));
      assert Resolve(tables, roots, p4) == Some(pml4) && Depth(p4) == 0 && Depth(p3) == 1 && Depth(p2) == 2;
      assert TablePos(a, va) == Sub(p2, Index2(va));
      if !tables[pml4][Index4(va)].present {
        assert Resolve(tables, roots, p3).None? && Resolve(tables, roots, p2).None?;
        return None;
      }
      FollowLink(T(), pml4, Index4(va));
      var pdpt := tables[pml4][Index4(va)].frame;
      assert Resolve(tables, roots, p3) == Some(pdpt);
      if !tables[pdpt][Index3(va)].present {
        assert Resolve(tables, roots, p2).None?;
        return None;
      }
      FollowLink(T(), pdpt, Index3(va));
      var pd := tables[pdpt][Index3(va)].frame;
      assert Resolve(tables, roots, p2) == Some(pd);
      if !tables[pd][Index2(va)].present || tables[pd][Index2(va)].huge {
        return None;
      }
      FollowLink(T(), pd, Index2(va));
      return Some(PageWalk(pml4, pdpt, pd, tables[pd][Index2(va)].frame));
    }

    /** The physical address behind any virtual address of a space. */
    method TranslateAddress(a: nat, va: nat) returns (pa: Option<nat>)
      requires Valid() && a in roots
      ensures var k := Sub(Canon(TablePos(a, va)), Index1(va));
              pa == if Sees(T(), TablePos(a, va)) && k in model
                    then Some(model[k].frame * PAGE_SIZE + va % PAGE_SIZE) else None
    {
      hide Slots, Shape, Up, Down, Leaves, Perms, Exact, Index4, Index3, Index2, Index1, FrameAllocator.Valid;
      hide Canon, Sees;
      TranslateIsModel(T(), TablePos(a, va), Index1(va));
      var w := WalkToPte(a, va);
      if w.Some? && tables[w.value.pt][Index1(va)].present {
        return Some(tables[w.value.pt][Index1(va)].frame * PAGE_SIZE + va % PAGE_SIZE);
      }
      return None;
    }

    /** Whether the page at `va` is mapped. */
    method IsMapped(a: nat, va: nat, ghost kernelRegion: bool) returns (b: bool)
      requires Valid() && a in roots && Allowed(a, va, kernelRegion) && va < WORD_LIMIT
      ensures Valid() && (b <==> Key(a, va) in model)
    {
      hide Slots, Inv, Perms, Exact, Index4, Index3, Index2, Index1, FrameAllocator.Valid, Allowed;
      var w := FindPte(a, va, kernelRegion);
      b := w.Some? && tables[w.value.pt][Index1(va)].present;
    }

    // ----- single pages

    /** Fill an absent last-level entry, with the reference the mapping needs. */
    method InstallLeaf(u: nat, i: nat, e: Entry, owned: bool)
      requires Valid() && u in tables && i < ENTRIES && u in pos && Depth(pos[u]) == 3 && e.present
      requires Sub(pos[u], i) !in model && Mappable(frames.refs[..], ext, e.frame, owned)
      modifies this`tables, this`model, this`ext, frames.Repr()
      ensures Valid() && model == old(model)[Sub(pos[u], i) := LeafOf(e)]
      ensures Shape(old(T())) && T() == SetLeaf(old(T()), u, i, e)
      ensures ext == if owned then Surrendered(old(frames.refs[..]), old(ext), e.frame) else old(ext)
      ensures Undisturbed(old(frames.refs[..]), frames.refs[..], e.frame, if owned then 0 else 1)
      ensures Spent(old(T()), old(frames.refs[..]), T(), frames.refs[..], 0)
      ensures Slots(T()) == old(Slots(T())) && frames.managed == old(frames.managed)
    {
      hide Slots, Shape, Up, Down, Leaves, Perms, Exact, FrameAllocator.Valid, Bitmap.Valid, Spent;
      LeafAt(T(), u, i);
      SetLeafInv(T(), u, i, e);
      SetLeafPerms(T(), u, i, e);
      ExactMap(frames.refs[..], ext, T(), u, i, e, owned);
      ghost var refs := frames.refs[..];
      if e.frame < frames.refs.Length && frames.refs[e.frame] != UNMANAGED && !owned {
        frames.Get(e.frame);
      }
      assert !owned ==> frames.refs[..] == Counted(refs, e.frame, 1);
      if owned {
        ext := Surrendered(refs, ext, e.frame);
      }
      SpentLeaf(T(), refs, u, i, e, frames.refs[..]);
      tables, model := tables[u := tables[u][i := e]], model[Sub(pos[u], i) := LeafOf(e)];
      assert T() == SetLeaf(old(T()), u, i, e);
    }

    /** Build the tables for `va` and fill its entry, unless it is already filled. */
    method MapFrame(a: nat, va: nat, f: nat, flags: Protection, owned: bool, kernelRegion: bool) returns (ok: bool)
      requires Valid() && a in roots && Allowed(a, va, kernelRegion) && va < WORD_LIMIT
      requires Mappable(frames.refs[..], ext, f, owned)
      modifies this`tables, this`at, this`pos, this`model, this`ext, frames.Repr()
      ensures Valid()
      ensures ok ==> Key(a, va) !in old(model) && model == old(model)[Key(a, va) := LeafOf(PageEntry(f, flags))]
      ensures ok ==> ext == if owned then Surrendered(old(frames.refs[..]), old(ext), f) else old(ext)
      ensures !ok ==> model == old(model) && ext == old(ext)
      ensures !ok && Key(a, va) !in old(model) ==> Exhausted(frames.refs[..]) || LargePage(a, va)
      ensures Undisturbed(old(frames.refs[..]), frames.refs[..], f, if ok && !owned then 1 else 0)
      ensures Spent(old(T()), old(frames.refs[..]), T(), frames.refs[..],
                    if ok || Key(a, va) in old(model) then 3 else 2)
      ensures Slots(T()) == old(Slots(T())) && frames.managed == old(frames.managed) && Built(old(T()), T(), a, va)
    {
      hide Slots, Shape, Up, Down, Leaves, Perms, Exact, Index4, Index3, Index2, Index1, FrameAllocator.Valid;
      hide Exhausted, LargePage, Surrendered, LeafOf, Allowed, Spent, Built, SetLeaf;
      var pt;
      ok, pt := EnsurePageTable(a, va, kernelRegion);
      if !ok {
        SpentMore(old(T()), old(frames.refs[..]), T(), frames.refs[..], 2, 3);
        return;
      }
      LeafAt(T(), pt, Index1(va));
      if tables[pt][Index1(va)].present {
        return false;
      }
      ghost var mid, built := frames.refs[..], T();
      InstallLeaf(pt, Index1(va), PageEntry(f, flags), owned);
      LeafBuilt(built, pt, a, va, PageEntry(f, flags));
      BuiltTwice(old(T()), built, T(), a, va);
      SpentTwice(old(T()), old(frames.refs[..]), built, mid, T(), frames.refs[..], 3, 0);
      UndisturbedAfter(old(frames.refs[..]), mid, frames.refs[..], old(ext), f, if owned then 0 else 1);
    }

    /**
      Map frame `pa / PAGE_SIZE` at `va`, with no entry in any list. An owned mapping
      takes over a reference the caller holds; any other mapping takes its own.
     */
    method MapPage(a: nat, va: nat, pa: nat, flags: Protection, owned: bool, kernelRegion: bool) returns (ok: bool)
      requires Valid() && a in roots && va < WORD_LIMIT && pa < PHYS_LIMIT
      requires Mappable(frames.refs[..], ext, pa / PAGE_SIZE, owned)
      modifies this`tables, this`at, this`pos, this`model, this`ext, frames.Repr()
      ensures Valid()
      ensures ok ==> Allowed(a, va, kernelRegion) && pa % PAGE_SIZE == 0 && Key(a, va) !in old(model)
      ensures ok ==> model == old(model)[Key(a, va) := LeafOf(PageEntry(pa / PAGE_SIZE, flags))]
      ensures ok ==> ext == if owned then Surrendered(old(frames.refs[..]), old(ext), pa / PAGE_SIZE) else old(ext)
      ensures !ok ==> model == old(model) && ext == old(ext)
      ensures !ok && Allowed(a, va, kernelRegion) && pa % PAGE_SIZE == 0 && Key(a, va) !in old(model) ==>
              Exhausted(frames.refs[..]) || LargePage(a, va)
      ensures Undisturbed(old(frames.refs[..]), frames.refs[..], pa / PAGE_SIZE, if ok && !owned then 1 else 0)
      ensures Spent(old(T()), old(frames.refs[..]), T(), frames.refs[..],
                    if ok || Key(a, va) in old(model) then 3 else 2)
      ensures Slots(T()) == old(Slots(T())) && frames.managed == old(frames.managed) && Built(old(T()), T(), a, va)
      ensures ok ==> Seen(old(T()), T(), Key(a, va),
                          Some(Leaf(pa / PAGE_SIZE, flags.writable, flags.user, flags.nx)))
      ensures !ok ==> SeenSame(old(T()), T())
    {
      hide Slots, Inv, Perms, Exact, Index4, Index3, Index2, Index1, FrameAllocator.Valid;
      hide Exhausted, LargePage, Surrendered, Mappable, Spent, Built, Seen, SeenSame, Key;
      if !Allowed(a, va, kernelRegion) || pa % PAGE_SIZE != 0 {
        HasShape(T());
        BuiltSelf(T(), a, va);
        SeenKept(T(), T());
        SpentNone(T(), frames.refs[..]);
        SpentMore(T(), frames.refs[..], T(), frames.refs[..], 0, 2);
        SpentMore(T(), frames.refs[..], T(), frames.refs[..], 0, 3);
        return false;
      }
      ok := MapFrame(a, va, pa / PAGE_SIZE, flags, owned, kernelRegion);
      if ok {
        SeenUpdate(old(T()), T(), Key(a, va), Some(LeafOf(PageEntry(pa / PAGE_SIZE, flags))));
      } else {
        SeenKept(old(T()), T());
      }
    }

    /** Clear a last-level entry and drop the reference its mapping held. */
    method ClearLeaf(u: nat, i: nat)
      requires Valid() && u in tables && i < ENTRIES && u in pos && Depth(pos[u]) == 3 && Sub(pos[u], i) in model
      modifies this`tables, this`model, frames.Repr()
      ensures Shape(old(T())) && Valid() && T() == SetLeaf(old(T()), u, i, NO_ENTRY) && tables.Keys == old(tables).Keys
      ensures model == old(model) - {Sub(pos[u], i)}
      ensures frames.refs[..] == Counted(old(frames.refs[..]), old(model)[Sub(pos[u], i)].frame, -1)
      ensures Slots(T()) == old(Slots(T())) && frames.managed == old(frames.managed)
    {
      hide Slots, Shape, Up, Down, Leaves, Perms, Exact, FrameAllocator.Valid;
      LeafAt(T(), u, i);
      SetLeafInv(T(), u, i, NO_ENTRY);
      SetLeafPerms(T(), u, i, NO_ENTRY);
      ExactUnmap(frames.refs[..], ext, T(), u, i);
      var f := tables[u][i].frame;
      tables, model := tables[u := tables[u][i := NO_ENTRY]], model - {Sub(pos[u], i)};
      assert T() == SetLeaf(old(T()), u, i, NO_ENTRY);
      if f < frames.refs.Length && frames.refs[f] != UNMANAGED {
        frames.Put(f);
      }
      assert frames.refs[..] == Counted(old(frames.refs[..]), f, -1);
    }

    /** No entry of the table is present. */
    method TableEmpty(u: nat) returns (b: bool)
      requires u in tables && |tables[u]| == ENTRIES
      ensures b <==> NoneUsed(tables[u])
    {
      for i := 0 to ENTRIES
        invariant forall k :: 0 <= k < i ==> !tables[u][k].present
      {
        if tables[u][i].present {
          return false;
        }
      }
      return true;
    }

    /** A walk for an address the space may map: it ends at the entry of the address's key. */
    method FindPte(a: nat, va: nat, ghost kernelRegion: bool) returns (w: Option<PageWalk>)
      requires Valid() && a in roots && va < WORD_LIMIT && Allowed(a, va, kernelRegion)
      ensures w.None? ==> Key(a, va) !in model
      ensures w.Some? ==> ReachesPt(T(), w.value, a, va) && pos[w.value.pt] == TablePos(a, va)
      ensures w.Some? ==> (tables[w.value.pt][Index1(va)].present <==> Key(a, va) in model)
      ensures w.Some? && Key(a, va) in model ==> model[Key(a, va)] == LeafOf(tables[w.value.pt][Index1(va)])
    {
      hide Slots, Shape, Up, Down, Leaves, Perms, Exact, Index4, Index3, Index2, Index1, FrameAllocator.Valid;
      RegionSlots(a, va, kernelRegion);
      TranslateIsModel(T(), TablePos(a, va), Index1(va));
      if Key(a, va) in model {
        SeesMapped(T(), a, va);
      }
      w := WalkToPte(a, va);
      if w.Some? {
        LeafAt(T(), w.value.pt, Index1(va));
      }
    }

    /** Give back the tables of a walk that hold nothing any more, from the bottom up. */
    method PruneEmpty(w: PageWalk, a: nat, va: nat)
      requires Valid() && ReachesPt(T(), w, a, va) && Child(Root(a), Index4(va)) == Sub(Root(a), Index4(va))
      modifies this`tables, this`at, this`pos, frames.Repr()
      ensures Valid() && tables.Keys <= old(tables).Keys
      ensures Pruned(old(T()), T(), a, va) && Shape(T()) && TidyWalk(T(), a, va)
      ensures Slots(T()) == old(Slots(T())) && frames.managed == old(frames.managed)
    {
      hide Slots, Inv, Perms, Exact, Index4, Index3, Index2, Index1, FrameAllocator.Valid, NoneUsed, UnlinkEmpty;
      hide Pruned, TidyWalk, Shape, Child;
      HasShape(T());
      ghost var t0 := T();
      var b := TableEmpty(w.pt);
      if !b {
        BuiltSelf(t0, a, va);
        TidyPt(t0, w, a, va);
        return;
      }
      PrunePt(t0, w, a, va);
      PrunedPt(t0, w, a, va);
      Prune(w.pd, Index2(va));
      ghost var t1 := T();
      PruneUpper(w, a, va);
      PrunedTwice(t0, t1, T(), a, va);
    }

    /** The same from the page directory up, when the last table has gone. */
    method PruneUpper(w: PageWalk, a: nat, va: nat)
      requires Valid() && ReachesPd(T(), w, a, va) && Child(Root(a), Index4(va)) == Sub(Root(a), Index4(va))
      requires TablePos(a, va) !in at
      modifies this`tables, this`at, this`pos, frames.Repr()
      ensures Valid() && tables.Keys <= old(tables).Keys
      ensures Pruned(old(T()), T(), a, va) && Shape(T()) && TidyWalk(T(), a, va)
      ensures Slots(T()) == old(Slots(T())) && frames.managed == old(frames.managed)
    {
      hide Slots, Inv, Perms, Exact, Index4, Index3, Index2, Index1, FrameAllocator.Valid, NoneUsed, UnlinkEmpty;
      hide Pruned, TidyWalk, Shape, Child;
      HasShape(T());
      ghost var t1 := T();
      var b := TableEmpty(w.pd);
      if !b {
        BuiltSelf(t1, a, va);
        TidyPd(t1, w, a, va);
        return;
      }
      PrunePd(t1, w, a, va);
      PrunedPd(t1, w, a, va);
      Prune(w.pdpt, Index3(va));
      ghost var t2 := T();
      StillGone(t1, t2, a, va, TablePos(a, va));
      b := TableEmpty(w.pdpt);
      if b && Index4(va) < SHARED_SLOT {
        PrunedPdpt(t2, w, a, va);
        Prune(w.pml4, Index4(va));
        PrunedTwice(t1, t2, T(), a, va);
        StillGone(t2, T(), a, va, TablePos(a, va));
        StillGone(t2, T(), a, va, TablePos(a, va).up);
        TidyNone(T(), a, va);
      } else {
        TidyPdpt(t2, w, a, va);
      }
    }

    /** Clear the entry of `va`, then give back every table that this leaves empty. */
    method UnmapFrame(a: nat, va: nat, kernelRegion: bool) returns (ok: bool)
      requires Valid() && a in roots && va < WORD_LIMIT && Allowed(a, va, kernelRegion)
      modifies this`tables, this`at, this`pos, this`model, frames.Repr()
      ensures Valid() && tables.Keys <= old(tables).Keys
      ensures ok <==> Key(a, va) in old(model)
      ensures model == old(model) - {Key(a, va)}
      ensures Slots(T()) == old(Slots(T())) && frames.managed == old(frames.managed)
      ensures ok ==> Pruned(old(T()), T(), a, va) && Shape(T()) && TidyWalk(T(), a, va)
      ensures !ok ==> T() == old(T()) && frames.refs[..] == old(frames.refs[..])
    {
      hide Slots, Inv, Perms, Exact, Index4, Index3, Index2, Index1, FrameAllocator.Valid, Resolve, SetLeaf, Allowed;
      hide LeafOf, Pruned, TidyWalk, Shape;
      var r := FindPte(a, va, kernelRegion);
      if r.None? {
        return false;
      }
      var w := r.value;
      if !tables[w.pt][Index1(va)].present {
        return false;
      }
      ClearKeepsWalk(T(), w, a, va, NO_ENTRY);
      RegionChild(a, va, kernelRegion);
      ghost var t0 := T();
      HasShape(t0);
      ClearLeaf(w.pt, Index1(va));
      ghost var t1 := T();
      HasShape(t1);
      LeafBuilt(t0, w.pt, a, va, NO_ENTRY);
      PruneEmpty(w, a, va);
      PrunedTwice(t0, t1, T(), a, va);
      return true;
    }

    /** Remove the page at `va`, leaving every list alone. */
    method UnmapPage(a: nat, va: nat, kernelRegion: bool) returns (ok: bool)
      requires Valid() && a in roots && va < WORD_LIMIT
      modifies this`tables, this`at, this`pos, this`model, frames.Repr()
      ensures Valid() && tables.Keys <= old(tables).Keys
      ensures ok <==> Allowed(a, va, kernelRegion) && Key(a, va) in old(model)
      ensures model == if ok then old(model) - {Key(a, va)} else old(model)
      ensures Slots(T()) == old(Slots(T())) && frames.managed == old(frames.managed)
      ensures ok ==> Pruned(old(T()), T(), a, va) && Shape(T()) && TidyWalk(T(), a, va)
      ensures ok ==> Released(old(T()), old(frames.refs[..]), T(), frames.refs[..], old(model)[Key(a, va)].frame)
      ensures ok ==> Seen(old(T()), T(), Key(a, va), None)
      ensures !ok ==> T() == old(T()) && frames.refs[..] == old(frames.refs[..])
    {
      hide Slots, Inv, Perms, Exact, Index4, Index3, Index2, Index1, FrameAllocator.Valid, Key, Allowed;
      hide Pruned, TidyWalk, Shape, Released, Seen, Marks, SameManaged;
      ghost var t0, refs0 := T(), frames.refs[..];
      Marked();
      if !Allowed(a, va, kernelRegion) {
        return false;
      }
      ok := UnmapFrame(a, va, kernelRegion);
      if ok {
        Marked();
        MarksSame(refs0, frames.refs[..], frames.managed);
        UnmappedCounts(t0, refs0, T(), frames.refs[..], ext, Key(a, va));
        SeenUpdate(t0, T(), Key(a, va), None);
      }
    }

    lemma Marked()
      requires Valid()
      ensures Marks(frames.refs[..], frames.managed)
    {
      hide Inv, Perms, Exact;
    }

    /** Replace the protection of the page at `va`. */
    method ProtectPage(a: nat, va: nat, flags: Protection, kernelRegion: bool) returns (ok: bool)
      requires Valid() && a in roots && va < WORD_LIMIT
      modifies this`tables, this`model
      ensures Valid()
      ensures ok <==> Allowed(a, va, kernelRegion) && Key(a, va) in old(model)
      ensures ok ==> (
                var k := Key(a, va);
                model == old(model)[k := Leaf(old(model)[k].frame, flags.writable, flags.user, flags.nx)])
      ensures !ok ==> T() == old(T())
      ensures Slots(T()) == old(Slots(T())) && tables.Keys == old(tables).Keys
      ensures ok ==> Seen(old(T()), T(), Key(a, va), Some(Leaf(old(model)[Key(a, va)].frame, flags.writable, flags.user,
                                                               flags.nx)))
    {
      hide Slots, Inv, Perms, Exact, Index4, Index3, Index2, Index1, FrameAllocator.Valid, Resolve, Seen;
      if !Allowed(a, va, kernelRegion) {
        return false;
      }
      var r := FindPte(a, va, kernelRegion);
      if r.None? {
        return false;
      }
      var pt := r.value.pt;
      var e := tables[pt][Index1(va)];
      if !e.present {
        return false;
      }
      e := e.(writable := flags.writable, user := flags.user, nx := flags.nx);
      ReplaceLeaf(pt, Index1(va), e);
      SeenUpdate(old(T()), T(), Key(a, va), Some(LeafOf(e)));
      return true;
    }

    /** Overwrite a present last-level entry with one for the same frame. */
    method ReplaceLeaf(u: nat, i: nat, e: Entry)
      requires Valid() && u in tables && u in pos && i < ENTRIES && Depth(pos[u]) == 3
      requires |tables[u]| == ENTRIES && tables[u][i].present && e.present && e.frame == tables[u][i].frame
      modifies this`tables, this`model
      ensures Valid() && model == old(model)[Sub(pos[u], i) := LeafOf(e)]
      ensures Slots(T()) == old(Slots(T())) && tables.Keys == old(tables).Keys
    {
      hide Slots, Shape, Up, Down, Leaves, Perms, Exact, FrameAllocator.Valid;
      LeafAt(T(), u, i);
      SetLeafInv(T(), u, i, e);
      SetLeafPerms(T(), u, i, e);
      ExactProtect(frames.refs[..], ext, T(), u, i, e);
      tables, model := tables[u := tables[u][i := e]], model[Sub(pos[u], i) := LeafOf(e)];
      assert T() == SetLeaf(old(T()), u, i, e);
    }

    /** A new space: nothing of its own is mapped, and its upper slots are the kernel's. */
    method NewSpace(a: nat) returns (ok: bool)
      requires Valid() && a !in roots
      modifies this`tables, this`roots, this`at, this`pos, frames.Repr()
      ensures Valid() && OnlyTakesFree(old(frames.refs[..]), frames.refs[..]) && model == old(model)
      ensures ok ==> roots.Keys == old(roots).Keys + {a} && forall k :: k in model ==> SpaceOf(k) != a
      ensures ok ==> SlotsAdded(old(T()), T(), a)
      ensures !ok ==> roots == old(roots) && Exhausted(frames.refs[..])
    {
      hide Slots, Shape, Up, Down, Leaves, Perms, Exact, FrameAllocator.Valid, SlotsAdded, SpaceOf;
      var found := frames.AllocPages(1);
      if found.None? {
        return false;
      }
      var f := found.value;
      ghost var before := old(frames.refs[..]);
      assert before[f] == 0 && frames.refs[..] == before[f := 1];
      FreeMeansUnused(before, ext, T(), f);
      AddRootInv(T(), a, f);
      AddRootPerms(T(), a, f);
      AddRootSlots(T(), a, f);
      OwnSpaceOnly(T(), a);
      ExactAddRoot(before, ext, T(), a, f);
      KernelRoot(T());
      tables, roots := tables[f := RootTable(tables[roots[KERNEL]])], roots[a := f];
      at, pos := at[Root(a) := f], pos[f := Root(a)];
      assert T() == AddRoot(old(T()), a, f);
      return true;
    }

    // ----- references held outside the tables

    /** Allocate one frame for a caller, who then holds its only reference. */
    method AllocPage() returns (found: Option<nat>)
      requires Valid()
      modifies this`ext, frames.Repr()
      ensures Valid() && frames.managed == old(frames.managed)
      ensures OnlyTakesFree(old(frames.refs[..]), frames.refs[..])
      ensures found.Some? ==> found.value < |old(ext)| && old(ext)[found.value] == 0
      ensures found.Some? ==> ext == old(ext)[found.value := 1]
      ensures found.Some? ==> found.value < frames.refs.Length && old(frames.refs[..])[found.value] == 0
      ensures found.Some? ==> frames.refs[found.value] == 1
      ensures found.Some? ==> found.value !in tables && forall k :: k in model ==> model[k].frame != found.value
      ensures found.Some? ==> Spent(T(), old(frames.refs[..]), T(), frames.refs[..], 1)
      ensures found.None? ==> ext == old(ext) && frames.refs[..] == old(frames.refs[..]) && Exhausted(frames.refs[..])
    {
      hide Slots, Inv, Perms, FrameAllocator.Valid, Spent;
      found := frames.AllocPages(1);
      if found.Some? {
        var f := found.value;
        ghost var before := old(frames.refs[..]);
        assert before[f] == 0 && frames.refs[..] == before[f := 1];
        FreeMeansUnused(before, ext, T(), f);
        SpentFrame(T(), before, f);
        ext := ext[f := 1];
      }
    }

    /** Allocate contiguous frames for a caller, who then holds the only reference on each. */
    method AllocPages(n: nat) returns (found: Option<nat>)
      requires Valid()
      modifies this`ext, frames.Repr()
      ensures Valid() && frames.managed == old(frames.managed)
      ensures found.Some? ==>
              (FreeRun(old(frames.refs[..]), GENERAL_FLOOR, frames.refs.Length, found.value, n) && 0 < n
               && frames.refs[..] == Taken(old(frames.refs[..]), found.value, n))
      ensures found.Some? ==> ext == Raised(old(ext), found.value, n) && NoneHeld(old(ext), found.value, n)
      ensures found.None? ==> ext == old(ext) && frames.refs[..] == old(frames.refs[..])
      ensures found.None? <==>
              (n == 0 || OnlyStraddling(old(frames.refs[..]), GENERAL_FLOOR, frames.refs.Length,
                                        old(frames.generalHint), n))
    {
      hide Slots, Inv, Perms, FrameAllocator.Valid, OnlyStraddling;
      ghost var before := frames.refs[..];
      found := frames.AllocPages(n);
      if found.Some? {
        ExactRun(before, ext, T(), found.value, n);
        ext := Raised(ext, found.value, n);
      }
    }

    /** Drop a reference that a caller holds. */
    method ReleasePage(f: nat)
      requires Valid() && frames.Managed(f) && f < |ext| && ext[f] > 0
      modifies this`ext, frames.Repr()
      ensures Valid() && f < |old(ext)| && ext == old(ext)[f := old(ext)[f] - 1]
      ensures frames.managed == old(frames.managed)
    {
      hide Slots, Inv, Perms, FrameAllocator.Valid;
      frames.Put(f);
      ext := ext[f := ext[f] - 1];
    }
  }

  /** The holds with one more on each frame of the run. */
  ghost function Raised(ext: seq<nat>, f: nat, n: nat): (r: seq<nat>)
    ensures |r| == |ext| && forall g :: 0 <= g < |ext| ==> r[g] >= ext[g]
  {
    seq(|ext|, g requires 0 <= g < |ext| => if f <= g < f + n then ext[g] + 1 else ext[g])
  }

  ghost predicate NoneHeld(ext: seq<nat>, f: nat, n: nat) {
    f + n <= |ext| && forall g :: f <= g < f + n ==> ext[g] == 0
  }

  lemma ExactRun(refs: seq<nat>, ext: seq<nat>, t: Tree, f: nat, n: nat)
    requires Exact(refs, ext, t) && FreeRun(refs, 0, |refs|, f, n)
    ensures Exact(Taken(refs, f, n), Raised(ext, f, n), t) && NoneHeld(ext, f, n)
  {
    hide Uses;
    assert forall g: nat :: f <= g < f + n ==> refs[g] == 0 == ext[g] + Uses(t, g);
  }

  /** A page that could not be mapped, where no large page is in the way, means that the frames have run out. */
  lemma OutOfFrames(sp: Spaces, z: Zone, va: nat, t0: Tree, refs0: seq<nat>, n: nat)
    requires sp.Valid() && Spent(t0, refs0, sp.T(), sp.frames.refs[..], n) && z.lo <= Index4(va) < z.hi
    ensures Small(t0, z) && (Exhausted(sp.frames.refs[..]) || sp.LargePage(z.space, va)) ==> |GeneralFree(refs0)| <= n
  {
    hide GeneralFree, Exact, Up, Down, Leaves, FrameAllocator.Valid;
    if Small(t0, z) {
      NotLarge(sp.T(), z, va);
      if Exhausted(sp.frames.refs[..]) {
        SpentAll(t0, refs0, sp.T(), sp.frames.refs[..], n);
      }
    }
  }

  lemma KernelRoot(t: Tree)
    requires Shape(t)
    ensures KERNEL in t.roots && t.roots[KERNEL] in t.tables && |t.tables[t.roots[KERNEL]]| == ENTRIES
  {
  }

  /** A mapped page is reached through a present root slot. */
  lemma SeesMapped(t: Tree, a: nat, va: nat)
    requires Inv(t) && Key(a, va) in t.model
    ensures Sees(t, TablePos(a, va))
  {
  }

  /** A last-level entry is present exactly if the map has its key. */
  lemma LeafAt(t: Tree, u: nat, i: nat)
    requires Inv(t) && u in t.tables && i < ENTRIES && Depth(t.pos[u]) == 3
    ensures u in t.pos && |t.tables[u]| == ENTRIES && (t.tables[u][i].present <==> Sub(t.pos[u], i) in t.model)
    ensures t.tables[u][i].present ==> t.model[Sub(t.pos[u], i)] == LeafOf(t.tables[u][i])
  {
    assert Sub(t.pos[u], i) == Sub(t.pos[u], i);
  }

  // ----- mapping a page and unmapping it again

  lemma LinkDown(t: Tree, q: Pos, i: nat)
    requires Inv(t) && q in t.at && i < ENTRIES && Depth(q) < 3 && IsLink(Depth(q), EntryAt(t, q, i))
    requires Child(q, i) == Sub(q, i)
    ensures Sub(q, i) in t.at
  {
    hide Up, Leaves;
    assert Child(t.pos[t.at[q]], i) in t.at;
  }

  lemma LinkUp(t: Tree, q: Pos, i: nat)
    requires Inv(t) && Sub(q, i) in t.at
    ensures q in t.at && i < ENTRIES && IsLink(Depth(q), EntryAt(t, q, i))
  {
    hide Down, Leaves;
  }

  lemma LeafEntry(t: Tree, q: Pos, i: nat)
    requires Inv(t) && q in t.at && i < ENTRIES && Depth(q) == 3
    ensures EntryAt(t, q, i).present <==> Sub(q, i) in t.model
  {
    hide Down, Up;
    assert Sub(t.pos[t.at[q]], i) == Sub(q, i);
  }

  /** A table that was there, with an entry the walk does not take, survives. */
  lemma Survives(t: Tree, t1: Tree, t2: Tree, a: nat, va: nat, p: Pos, j: nat)
    requires Built(t, t1, a, va) && Pruned(t1, t2, a, va) && p in t.at && j < ENTRIES && j != Turn(p, va)
    requires EntryAt(t, p, j).present
    ensures p in t2.at
  {
    hide Shape, OnWalk, Turn, EntryAt;
  }

  /** A table that was not there is not there in the end, unless it has come to hold the walk's entry alone. */
  lemma BackToNone(t: Tree, t1: Tree, t2: Tree, a: nat, va: nat, p: Pos, j: nat)
    requires Built(t, t1, a, va) && Pruned(t1, t2, a, va) && p !in t.at && p in t2.at && j < ENTRIES
    requires EntryAt(t2, p, j).present
    ensures p in t1.at && j == Turn(p, va) && EntryAt(t1, p, j) == EntryAt(t2, p, j)
  {
    hide Shape, OnWalk, Turn, EntryAt;
  }

  /** One level of a walk, with the next one known to be the same before and after. */
  lemma LevelRestored(t: Tree, t1: Tree, t2: Tree, a: nat, va: nat, q: Pos)
    requires Inv(t) && Inv(t1) && Inv(t2) && Built(t, t1, a, va) && Pruned(t1, t2, a, va)
    requires Depth(q) < 3 && Child(q, Turn(q, va)) == Sub(q, Turn(q, va)) && Turn(q, va) < ENTRIES
    requires Tidy(t, q) && Tidy(t2, q) && Sub(q, Turn(q, va)) in t1.at
    requires Sub(q, Turn(q, va)) in t.at <==> Sub(q, Turn(q, va)) in t2.at
    ensures q in t.at <==> q in t2.at
  {
    hide Inv, Shape, OnWalk, Turn, EntryAt, Built, Pruned;
    var i := Turn(q, va);
    HasShape(t);
    HasShape(t2);
    LinkUp(t1, q, i);
    if q in t.at && q !in t2.at {
      var j: nat :| j < ENTRIES && EntryAt(t, q, j).present;
      if j == i {
        BuiltKeeps(t, t1, a, va, q, j);
        LinkDown(t, q, i);
        LinkUp(t2, q, i);
      } else {
        Survives(t, t1, t2, a, va, q, j);
      }
    }
    if q in t2.at && q !in t.at {
      var j: nat :| j < ENTRIES && EntryAt(t2, q, j).present;
      BackToNone(t, t1, t2, a, va, q, j);
      LinkDown(t2, q, i);
      LinkUp(t, q, i);
    }
  }

  lemma BuiltKeeps(t: Tree, t1: Tree, a: nat, va: nat, p: Pos, j: nat)
    requires Built(t, t1, a, va) && p in t.at && j < ENTRIES && EntryAt(t, p, j).present
    ensures p in t1.at && EntryAt(t1, p, j) == EntryAt(t, p, j)
  {
    hide Shape, OnWalk, Turn, EntryAt;
  }

  lemma LastRestored(t: Tree, t1: Tree, t2: Tree, a: nat, va: nat)
    requires Inv(t) && Inv(t2) && Built(t, t1, a, va) && Pruned(t1, t2, a, va)
    requires Tidy(t, TablePos(a, va)) && Tidy(t2, TablePos(a, va))
    requires Key(a, va) !in t.model && Key(a, va) !in t2.model
    ensures TablePos(a, va) in t.at <==> TablePos(a, va) in t2.at
  {
    hide Inv, Shape, OnWalk, Turn, EntryAt, Built, Pruned, TablePos, Index1;
    var q := TablePos(a, va);
    HasShape(t);
    HasShape(t2);
    WalkTurns(a, va);
    if q in t.at && q !in t2.at {
      var j: nat :| j < ENTRIES && EntryAt(t, q, j).present;
      LeafEntry(t, q, j);
      Survives(t, t1, t2, a, va, q, j);
    }
    if q in t2.at && q !in t.at {
      var j: nat :| j < ENTRIES && EntryAt(t2, q, j).present;
      LeafEntry(t2, q, j);
      BackToNone(t, t1, t2, a, va, q, j);
    }
  }

  /** Building the tables of a walk and giving them back leaves the tables that were there. */
  lemma WalkRestored(t: Tree, t1: Tree, t2: Tree, a: nat, va: nat)
    requires Inv(t) && Inv(t1) && Inv(t2) && Built(t, t1, a, va) && Pruned(t1, t2, a, va) && TablePos(a, va) in t1.at
    requires TidyWalk(t, a, va) && TidyWalk(t2, a, va) && Index4(va) < SHARED_SLOT && t2.roots == t.roots
    requires Key(a, va) !in t.model && Key(a, va) !in t2.model
    ensures t2.at == t.at && t2.tables.Keys == t.tables.Keys
  {
    hide Inv, Turn, EntryAt, Built, Pruned, Index4, Index3, Index2, Index1, Tidy, Key, Shape;
    var p := TablePos(a, va);
    HasShape(t);
    HasShape(t2);
    WalkTurns(a, va);
    LastRestored(t, t1, t2, a, va);
    LinkUp(t1, p.up, Index2(va));
    LevelRestored(t, t1, t2, a, va, p.up);
    LinkUp(t1, p.up.up, Index3(va));
    LevelRestored(t, t1, t2, a, va, p.up.up);
    RestoredElsewhere(t, t1, t2, a, va);
  }

  lemma RestoredElsewhere(t: Tree, t1: Tree, t2: Tree, a: nat, va: nat)
    requires Shape(t) && Shape(t2) && Built(t, t1, a, va) && Pruned(t1, t2, a, va) && t2.roots == t.roots
    requires forall p :: OnWalk(p, a, va) && p != Root(a) ==> (p in t.at <==> p in t2.at)
    ensures t2.at == t.at && t2.tables.Keys == t.tables.Keys
  {
    hide OnWalk, Turn, EntryAt, Shape;
    RootKept(t, t2, a);
    forall p
      ensures p in t.at <==> p in t2.at
      ensures p in t.at ==> t2.at[p] == t.at[p]
    {
      if p in t.at {
        assert p in t1.at && t1.at[p] == t.at[p];
      }
    }
    FramesOfPlaces(t, t2);
  }

  lemma RootKept(t: Tree, t2: Tree, a: nat)
    requires Shape(t) && Shape(t2) && t2.roots == t.roots
    ensures Root(a) in t.at <==> Root(a) in t2.at
  {
  }

  lemma FramesOfPlaces(t: Tree, t2: Tree)
    requires Shape(t) && Shape(t2) && t2.at == t.at
    ensures t2.tables.Keys == t.tables.Keys
  {
    forall f
      ensures f in t2.pos <==> f in t.pos
    {
      if f in t.pos {
        assert t.at[t.pos[f]] == f;
      }
      if f in t2.pos {
        assert t2.at[t2.pos[f]] == f;
      }
    }
  }

  /**
    Mapping a page of the lower half and unmapping it again, where no empty table
    was left on the way before: not only the map but every count is as it was, so
    exactly the same frames are free.
   */
  method MapThenUnmap(sp: Spaces, a: nat, va: nat, pa: nat, flags: Protection) returns (ok: bool)
    requires sp.Valid() && a in sp.roots && va < USER_TOP && pa < PHYS_LIMIT && sp !in sp.frames.Repr()
    requires Mappable(sp.frames.refs[..], sp.ext, pa / PAGE_SIZE, false)
    requires Shape(sp.T()) && TidyWalk(sp.T(), a, va)
    modifies sp`tables, sp`at, sp`pos, sp`model, sp`ext, sp.frames.Repr()
    ensures sp.Valid() && sp.model == old(sp.model)
    ensures ok ==> sp.frames.refs[..] == old(sp.frames.refs[..]) && sp.tables.Keys == old(sp.tables).Keys
  {
    hide Spaces.Valid, Slots, Key, Shape, TidyWalk, Built, Pruned, Seen, SeenSame, Released, Spent, Mappable;
    hide Exhausted, Spaces.LargePage, Undisturbed, LeafOf, Index4;
    ghost var t, refs, ext := sp.T(), sp.frames.refs[..], sp.ext;
    ValidMeans(sp);
    ok := sp.MapPage(a, va, pa, flags, false, false);
    if !ok {
      return;
    }
    ghost var t1 := sp.T();
    ValidMeans(sp);
    MappedHasTable(t1, a, va);
    var done := sp.UnmapPage(a, va, false);
    assert done;
    ValidMeans(sp);
    assert sp.model == t.model;
    LowSlot(va);
    WalkRestored(t, t1, sp.T(), a, va);
    CountsRestored(t, refs, sp.T(), sp.frames.refs[..], ext, sp.frames.managed);
  }

  lemma LowSlot(va: nat)
    requires va < USER_TOP
    ensures Index4(va) < SHARED_SLOT
  {
  }

  lemma MappedHasTable(t: Tree, a: nat, va: nat)
    requires Inv(t) && Key(a, va) in t.model
    ensures TablePos(a, va) in t.at
  {
    hide Down, Up;
    assert Key(a, va).up == TablePos(a, va);
  }

  lemma ValidMeans(sp: Spaces)
    requires sp.Valid()
    ensures Inv(sp.T()) && Exact(sp.frames.refs[..], sp.ext, sp.T()) && Marks(sp.frames.refs[..], sp.frames.managed)
    ensures Perms(sp.T())
  {
    sp.Marked();
  }

  lemma CountsRestored(t: Tree, refs: seq<nat>, t': Tree, refs': seq<nat>, ext: seq<nat>, managed: set<nat>)
    requires Exact(refs, ext, t) && Exact(refs', ext, t') && t'.model == t.model && t'.tables.Keys == t.tables.Keys
    requires Marks(refs, managed) && Marks(refs', managed)
    ensures refs' == refs
  {
    hide LeafRefs;
    forall f: nat | f < |refs|
      ensures refs'[f] == refs[f]
    {
      assert f in t'.tables.Keys <==> f in t.tables.Keys;
    }
  }
}
