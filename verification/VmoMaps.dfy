/**
  The index of memory-object mappings of one address space, and its agreement
  with the page map: what each recorded mapping demands of the pages it covers.
 */
module VmoMaps {
  import opened Basics
  import opened PageTree
  import opened AddressSpaces
  import opened AddressRanges
  import opened KernelHeap
  import opened Frames
  import opened VmoRights
  import Pmem

  const MAX_HANDLE: nat := 0xffff_ffff_ffff_ffff

  datatype Vmo = Vmo(pmem: nat, rights: Rights)

  /** One recorded mapping. */
  datatype Record = Record(va: nat, length: nat, vmo: nat, offset: nat, rights: Rights)

  function FlagsFor(va: nat, rights: Rights): Protection {
    Protection(rights.write, va < USER_TOP, !rights.exec)
  }

  /** The physical address behind the first byte of a mapping. */
  ghost function Backing(e: Record, vmos: map<nat, Vmo>, info: map<nat, Pmem.Info>): nat
    requires e.vmo in vmos && vmos[e.vmo].pmem in info
  {
    info[vmos[e.vmo].pmem].base + e.offset
  }

  /** Page `i` of the mapping is page `i` of its backing, with flags from its rights. */
  ghost predicate Painted(m: map<Pos, Leaf>, a: nat, e: Record, pa: nat) {
    forall i: nat :: i < PageCount(e.length) ==>
      var k := Key(a, PageAt(e.va, i));
      k in m && m[k] == Leaf(pa / PAGE_SIZE + i, e.rights.write, e.va < USER_TOP, !e.rights.exec)
  }

  /** What holds of a recorded mapping apart from the page tables. */
  ghost predicate Proper(a: nat, e: Record, vmos: map<nat, Vmo>, info: map<nat, Pmem.Info>) {
    && RangeOk(a, e.va, e.length) && e.vmo in vmos && e.vmo < MAX_HANDLE && vmos[e.vmo].pmem in info
    && Within(e.rights, vmos[e.vmo].rights) && e.rights.read && !e.rights.map_ && vmos[e.vmo].rights.map_
    && e.offset + e.length <= info[vmos[e.vmo].pmem].length
    && Backing(e, vmos, info) % PAGE_SIZE == 0
  }

  predicate Clear(e: Record, f: Record) {
    e.va + e.length <= f.va || f.va + f.length <= e.va
  }

  ghost predicate Disjoint(entries: seq<Record>) {
    forall i, j :: 0 <= i < j < |entries| ==> Clear(entries[i], entries[j])
  }

  /** Some recorded mapping covers the page kept under `k`. */
  ghost predicate Recorded(entries: seq<Record>, a: nat, k: Pos) {
    exists i :: 0 <= i < |entries| && InRange(k, a, entries[i].va, PageCount(entries[i].length))
  }

  /** Every page mapped in the space belongs to a recorded mapping. */
  ghost predicate Indexed(m: map<Pos, Leaf>, a: nat, entries: seq<Record>) {
    forall k :: k in m && SpaceOf(k) == a ==> Recorded(entries, a, k)
  }

  ghost predicate AllProper(a: nat, entries: seq<Record>, vmos: map<nat, Vmo>, info: map<nat, Pmem.Info>) {
    forall i :: 0 <= i < |entries| ==> Proper(a, entries[i], vmos, info)
  }

  ghost predicate AllPainted(m: map<Pos, Leaf>, a: nat, entries: seq<Record>, vmos: map<nat, Vmo>, info: map<nat,
                             Pmem.Info>) {
    forall i :: 0 <= i < |entries| ==>
      entries[i].vmo in vmos && vmos[entries[i].vmo].pmem in info
      && Painted(m, a, entries[i], Backing(entries[i], vmos, info))
  }

  /** The index and the page map agree. */
  ghost predicate Agree(m: map<Pos, Leaf>, a: nat, entries: seq<Record>, vmos: map<nat, Vmo>, info: map<nat,
                        Pmem.Info>) {
    AllProper(a, entries, vmos, info) && AllPainted(m, a, entries, vmos, info) && Disjoint(entries)
    && Indexed(m, a, entries)
  }

  // ----- pages of mappings that do not overlap

  /** Mappings apart in bytes are apart in pages. */
  lemma ClearPages(a: nat, e: Record, f: Record, i: nat, j: nat)
    requires RangeOk(a, e.va, e.length) && RangeOk(a, f.va, f.length) && Clear(e, f)
    requires i < PageCount(e.length) && j < PageCount(f.length)
    ensures Key(a, PageAt(e.va, i)) != Key(a, PageAt(f.va, j))
  {
    hide Key, Allowed;
    PageAllowed(a, e.va, e.length, i);
    PageAllowed(a, f.va, f.length, j);
    if Key(a, PageAt(e.va, i)) == Key(a, PageAt(f.va, j)) {
      KeyInjective(a, PageAt(e.va, i), a, PageAt(f.va, j), a == KERNEL);
      SamePage(e.va, e.length, i, f.va, f.length, j);
    }
  }

  lemma SamePage(va: nat, length: nat, i: nat, vb: nat, len: nat, j: nat)
    requires va % PAGE_SIZE == 0 && vb % PAGE_SIZE == 0 && i < PageCount(length) && j < PageCount(len)
    requires PageAt(va, i) == PageAt(vb, j)
    ensures va < vb + len && vb < va + length
  {
  }

  lemma ClearOf(a: nat, e: Record, f: Record, k: Pos)
    requires RangeOk(a, e.va, e.length) && RangeOk(a, f.va, f.length) && Clear(e, f)
    requires InRange(k, a, e.va, PageCount(e.length))
    ensures !InRange(k, a, f.va, PageCount(f.length))
  {
    hide Key, RangeOk, PageCount;
    var i: nat :| i < PageCount(e.length) && k == Key(a, PageAt(e.va, i));
    if InRange(k, a, f.va, PageCount(f.length)) {
      var j: nat :| j < PageCount(f.length) && k == Key(a, PageAt(f.va, j));
      ClearPages(a, e, f, i, j);
    }
  }

  /** A change confined to other pages leaves a mapping's pages as they were. */
  lemma PaintedKept(m: map<Pos, Leaf>, m': map<Pos, Leaf>, a: nat, e: Record, pa: nat)
    requires Painted(m, a, e, pa)
    requires forall k :: k in m && InRange(k, a, e.va, PageCount(e.length)) ==> k in m' && m'[k] == m[k]
    ensures Painted(m', a, e, pa)
  {
    hide Key, PageCount;
    forall i: nat | i < PageCount(e.length)
      ensures Key(a, PageAt(e.va, i)) in m' && m'[Key(a, PageAt(e.va, i))] == m[Key(a, PageAt(e.va, i))]
    {
      assert InRange(Key(a, PageAt(e.va, i)), a, e.va, PageCount(e.length));
    }
  }

  /** Overlapping mappings share a page. */
  lemma OverlapShares(a: nat, e: Record, f: Record) returns (i: nat, j: nat)
    requires RangeOk(a, e.va, e.length) && RangeOk(a, f.va, f.length) && !Clear(e, f)
    ensures i < PageCount(e.length) && j < PageCount(f.length) && PageAt(e.va, i) == PageAt(f.va, j)
  {
    if e.va >= f.va {
      i, j := 0, (e.va - f.va) / PAGE_SIZE;
    } else {
      i, j := (f.va - e.va) / PAGE_SIZE, 0;
    }
  }

  // ----- mapping

  lemma MapClear(m: map<Pos, Leaf>, a: nat, f: Record, pa: nat, e: Record)
    requires RangeOk(a, f.va, f.length) && Painted(m, a, f, pa)
    requires RangeOk(a, e.va, e.length) && NoneMapped(m, a, e.va, PageCount(e.length))
    ensures Clear(f, e)
    ensures forall k :: k in m ==> !InRange(k, a, e.va, PageCount(e.length))
  {
    hide Key, RangeOk, PageCount;
    if !Clear(f, e) {
      var i, j := OverlapShares(a, f, e);
      assert false;
    }
  }

  lemma MapPaints(m: map<Pos, Leaf>, a: nat, entries: seq<Record>, vmos: map<nat, Vmo>, info: map<nat, Pmem.Info>,
                  e: Record)
    requires AllProper(a, entries, vmos, info) && AllPainted(m, a, entries, vmos, info)
    requires Proper(a, e, vmos, info) && NoneMapped(m, a, e.va, PageCount(e.length))
    ensures var m' := Install(m, a, e.va, Backing(e, vmos, info) / PAGE_SIZE, PageCount(e.length),
                              FlagsFor(e.va, e.rights));
            AllPainted(m', a, entries + [e], vmos, info)
  {
    hide Key, RangeOk, PageCount, Install, Painted, InRange, NoneMapped;
    var pa := Backing(e, vmos, info);
    var n := PageCount(e.length);
    var m' := Install(m, a, e.va, pa / PAGE_SIZE, n, FlagsFor(e.va, e.rights));
    InstallAt(m, a, e.va, e.length, pa / PAGE_SIZE, n, FlagsFor(e.va, e.rights));
    MapPaintsNew(m, a, e, pa);
    forall i | 0 <= i < |entries|
      ensures Painted(m', a, entries[i], Backing(entries[i], vmos, info))
    {
      assert Proper(a, entries[i], vmos, info);
      MapClear(m, a, entries[i], Backing(entries[i], vmos, info), e);
      PaintedKept(m, m', a, entries[i], Backing(entries[i], vmos, info));
    }
  }

  lemma MapPaintsNew(m: map<Pos, Leaf>, a: nat, e: Record, pa: nat)
    requires RangeOk(a, e.va, e.length)
    ensures Painted(Install(m, a, e.va, pa / PAGE_SIZE, PageCount(e.length), FlagsFor(e.va, e.rights)), a, e, pa)
  {
    hide Key, RangeOk, PageCount, Install;
    InstallAt(m, a, e.va, e.length, pa / PAGE_SIZE, PageCount(e.length), FlagsFor(e.va, e.rights));
  }

  lemma MapIndexes(m: map<Pos, Leaf>, a: nat, entries: seq<Record>, e: Record, f: nat, flags: Protection)
    requires Indexed(m, a, entries) && RangeOk(a, e.va, e.length)
    ensures Indexed(Install(m, a, e.va, f, PageCount(e.length), flags), a, entries + [e])
  {
    hide Key, RangeOk, PageCount, Install, InRange, SpaceOf;
    var m' := Install(m, a, e.va, f, PageCount(e.length), flags);
    InstallAt(m, a, e.va, e.length, f, PageCount(e.length), flags);
    var all := entries + [e];
    forall k | k in m' && SpaceOf(k) == a
      ensures Recorded(all, a, k)
    {
      if InRange(k, a, e.va, PageCount(e.length)) {
        assert InRange(k, a, all[|entries|].va, PageCount(all[|entries|].length));
      } else {
        assert Recorded(entries, a, k);
        var i :| 0 <= i < |entries| && InRange(k, a, entries[i].va, PageCount(entries[i].length));
        assert all[i] == entries[i];
      }
    }
  }

  /** Mapping into free pages and recording it keeps the agreement, and never overlaps an earlier mapping. */
  lemma AgreeMap(m: map<Pos, Leaf>, a: nat, entries: seq<Record>, vmos: map<nat, Vmo>, info: map<nat, Pmem.Info>,
                 e: Record)
    requires Agree(m, a, entries, vmos, info)
    requires Proper(a, e, vmos, info) && NoneMapped(m, a, e.va, PageCount(e.length))
    ensures forall i :: 0 <= i < |entries| ==> Clear(entries[i], e)
    ensures var m' := Install(m, a, e.va, Backing(e, vmos, info) / PAGE_SIZE, PageCount(e.length),
                              FlagsFor(e.va, e.rights));
            Agree(m', a, entries + [e], vmos, info)
  {
    hide Key, RangeOk, PageCount, Install, Painted, InRange, NoneMapped, Indexed, Clear;
    forall i | 0 <= i < |entries|
      ensures Clear(entries[i], e)
    {
      assert Proper(a, entries[i], vmos, info);
      MapClear(m, a, entries[i], Backing(entries[i], vmos, info), e);
    }
    MapPaints(m, a, entries, vmos, info, e);
    MapIndexes(m, a, entries, e, Backing(e, vmos, info) / PAGE_SIZE, FlagsFor(e.va, e.rights));
  }

  // ----- unmapping

  function Drop(entries: seq<Record>, j: nat): (r: seq<Record>)
    requires j < |entries|
    ensures |r| == |entries| - 1
  {
    entries[..j] + entries[j + 1..]
  }

  lemma DropAt(entries: seq<Record>, j: nat, i: nat)
    requires j < |entries| && i < |entries| - 1
    ensures Drop(entries, j)[i] == entries[if i < j then i else i + 1]
  {
  }

  lemma ClearBoth(entries: seq<Record>, i: nat, j: nat)
    requires Disjoint(entries) && i < |entries| && j < |entries| && i != j
    ensures Clear(entries[i], entries[j])
  {
  }

  lemma UnmapKeeps(m: map<Pos, Leaf>, a: nat, e: Record, f: Record, pa: nat)
    requires RangeOk(a, e.va, e.length) && RangeOk(a, f.va, f.length) && Clear(f, e) && Painted(m, a, f, pa)
    ensures Painted(Remove(m, a, e.va, PageCount(e.length)), a, f, pa)
  {
    hide Key, RangeOk, PageCount, Remove, Painted, InRange, Clear;
    var m' := Remove(m, a, e.va, PageCount(e.length));
    RemoveAt(m, a, e.va, e.length, PageCount(e.length));
    forall k | k in m && InRange(k, a, f.va, PageCount(f.length))
      ensures k in m' && m'[k] == m[k]
    {
      ClearOf(a, f, e, k);
    }
    PaintedKept(m, m', a, f, pa);
  }

  lemma UnmapIndexes(m: map<Pos, Leaf>, a: nat, entries: seq<Record>, j: nat)
    requires Indexed(m, a, entries) && j < |entries| && RangeOk(a, entries[j].va, entries[j].length)
    ensures Indexed(Remove(m, a, entries[j].va, PageCount(entries[j].length)), a, Drop(entries, j))
  {
    hide Key, RangeOk, PageCount, Remove, InRange, SpaceOf, Drop;
    var e, rest := entries[j], Drop(entries, j);
    var m' := Remove(m, a, e.va, PageCount(e.length));
    RemoveAt(m, a, e.va, e.length, PageCount(e.length));
    forall k | k in m' && SpaceOf(k) == a
      ensures Recorded(rest, a, k)
    {
      if InRange(k, a, e.va, PageCount(e.length)) {
        RemovedGone(m, a, e, k);
      }
      assert Recorded(entries, a, k);
      var i :| 0 <= i < |entries| && InRange(k, a, entries[i].va, PageCount(entries[i].length));
      var i' := if i < j then i else i - 1;
      DropAt(entries, j, i');
      assert InRange(k, a, rest[i'].va, PageCount(rest[i'].length));
    }
  }

  lemma RemovedGone(m: map<Pos, Leaf>, a: nat, e: Record, k: Pos)
    requires RangeOk(a, e.va, e.length) && InRange(k, a, e.va, PageCount(e.length))
    ensures k !in Remove(m, a, e.va, PageCount(e.length))
  {
    hide Key, RangeOk, PageCount, Remove;
    RemoveAt(m, a, e.va, e.length, PageCount(e.length));
  }

  /** Unmapping a recorded mapping and dropping its record keeps the agreement. */
  lemma AgreeUnmap(m: map<Pos, Leaf>, a: nat, entries: seq<Record>, vmos: map<nat, Vmo>, info: map<nat, Pmem.Info>,
                   j: nat)
    requires Agree(m, a, entries, vmos, info) && j < |entries|
    ensures AllMapped(m, a, entries[j].va, PageCount(entries[j].length))
    ensures Agree(Remove(m, a, entries[j].va, PageCount(entries[j].length)), a, Drop(entries, j), vmos, info)
  {
    hide Key, RangeOk, PageCount, Remove, Painted, InRange, Indexed, Clear, Drop;
    var e, rest := entries[j], Drop(entries, j);
    assert Proper(a, e, vmos, info);
    PaintedMapped(m, a, e, Backing(e, vmos, info));
    UnmapIndexes(m, a, entries, j);
    forall i | 0 <= i < |rest|
      ensures Proper(a, rest[i], vmos, info)
      ensures Painted(Remove(m, a, e.va, PageCount(e.length)), a, rest[i], Backing(rest[i], vmos, info))
    {
      DropAt(entries, j, i);
      var i' := if i < j then i else i + 1;
      assert Proper(a, entries[i'], vmos, info);
      ClearBoth(entries, i', j);
      UnmapKeeps(m, a, e, entries[i'], Backing(entries[i'], vmos, info));
    }
    forall i, l | 0 <= i < l < |rest|
      ensures Clear(rest[i], rest[l])
    {
      DropAt(entries, j, i);
      DropAt(entries, j, l);
    }
  }

  lemma PaintedMapped(m: map<Pos, Leaf>, a: nat, e: Record, pa: nat)
    requires Painted(m, a, e, pa)
    ensures AllMapped(m, a, e.va, PageCount(e.length))
  {
  }

  // ----- protecting

  lemma ProtectPaints(m: map<Pos, Leaf>, a: nat, e: Record, pa: nat, rights: Rights)
    requires RangeOk(a, e.va, e.length) && Painted(m, a, e, pa)
    ensures Painted(Recolour(m, a, e.va, PageCount(e.length), FlagsFor(e.va, rights)), a, e.(rights := rights), pa)
  {
    hide Key, RangeOk, PageCount, Recolour;
    PaintedMapped(m, a, e, pa);
    RecolourAt(m, a, e.va, e.length, PageCount(e.length), FlagsFor(e.va, rights));
  }

  lemma ProtectKeeps(m: map<Pos, Leaf>, a: nat, e: Record, f: Record, pa: nat, flags: Protection)
    requires RangeOk(a, e.va, e.length) && RangeOk(a, f.va, f.length) && Clear(f, e) && Painted(m, a, f, pa)
    requires AllMapped(m, a, e.va, PageCount(e.length))
    ensures Painted(Recolour(m, a, e.va, PageCount(e.length), flags), a, f, pa)
  {
    hide Key, RangeOk, PageCount, Recolour, Painted, InRange, Clear, AllMapped;
    var m' := Recolour(m, a, e.va, PageCount(e.length), flags);
    RecolourAt(m, a, e.va, e.length, PageCount(e.length), flags);
    forall k | k in m && InRange(k, a, f.va, PageCount(f.length))
      ensures k in m' && m'[k] == m[k]
    {
      ClearOf(a, f, e, k);
    }
    PaintedKept(m, m', a, f, pa);
  }

  /** Changing the rights of a recorded mapping, in the tables and in its record, keeps the agreement. */
  lemma AgreeProtect(m: map<Pos, Leaf>, a: nat, entries: seq<Record>, vmos: map<nat, Vmo>, info: map<nat, Pmem.Info>,
                     j: nat, rights: Rights)
    requires Agree(m, a, entries, vmos, info) && j < |entries|
    requires entries[j].vmo in vmos ==> Within(rights, vmos[entries[j].vmo].rights)
    requires rights.read && !rights.map_
    ensures AllMapped(m, a, entries[j].va, PageCount(entries[j].length))
    ensures Agree(Recolour(m, a, entries[j].va, PageCount(entries[j].length), FlagsFor(entries[j].va, rights)), a,
                  entries[j := entries[j].(rights := rights)], vmos, info)
  {
    hide Key, RangeOk, PageCount, Recolour, Painted, InRange, Clear, AllMapped, SpaceOf;
    var e := entries[j];
    var es := entries[j := e.(rights := rights)];
    var m' := Recolour(m, a, e.va, PageCount(e.length), FlagsFor(e.va, rights));
    assert Proper(a, e, vmos, info);
    PaintedMapped(m, a, e, Backing(e, vmos, info));
    ProtectPaints(m, a, e, Backing(e, vmos, info), rights);
    RecolourAt(m, a, e.va, e.length, PageCount(e.length), FlagsFor(e.va, rights));
    forall i | 0 <= i < |es|
      ensures Proper(a, es[i], vmos, info) && Painted(m', a, es[i], Backing(es[i], vmos, info))
    {
      assert Proper(a, entries[i], vmos, info);
      if i != j {
        ClearBoth(entries, i, j);
        ProtectKeeps(m, a, e, entries[i], Backing(entries[i], vmos, info), FlagsFor(e.va, rights));
      }
    }
    forall i, l | 0 <= i < l < |es|
      ensures Clear(es[i], es[l])
    {
      ClearSame(entries[i], es[i], entries[l], es[l]);
    }
    forall k | k in m' && SpaceOf(k) == a
      ensures Recorded(es, a, k)
    {
      assert Recorded(entries, a, k);
      var i :| 0 <= i < |entries| && InRange(k, a, entries[i].va, PageCount(entries[i].length));
      assert InRange(k, a, es[i].va, PageCount(es[i].length));
    }
  }

  lemma ClearSame(e: Record, e': Record, f: Record, f': Record)
    requires Clear(e, f) && e.va == e'.va && e.length == e'.length && f.va == f'.va && f.length == f'.length
    ensures Clear(e', f')
  {
  }

  // ----- other spaces and the heap

  /** Pages of other spaces are as they were. */
  ghost predicate SameElsewhere(m: map<Pos, Leaf>, m': map<Pos, Leaf>, a: nat) {
    forall k :: SpaceOf(k) != a ==> (k in m <==> k in m') && (k in m ==> m'[k] == m[k])
  }

  /** The same, but for new pages of the kernel heap. */
  ghost predicate GrownElsewhere(m: map<Pos, Leaf>, m': map<Pos, Leaf>, a: nat) {
    forall k :: SpaceOf(k) != a ==> (
      && (k in m ==> k in m' && m'[k] == m[k])
      && (!InHeap(k) ==> (k in m' <==> k in m)))
  }

  lemma RangeInSpace(k: Pos, a: nat, va: nat, n: nat)
    requires a != KERNEL && InRange(k, a, va, n)
    ensures SpaceOf(k) == a
  {
    hide Key, SpaceOf;
    var i: nat :| i < n && k == Key(a, PageAt(va, i));
    NotHeap(a, PageAt(va, i));
  }

  lemma MapElsewhere(m: map<Pos, Leaf>, m': map<Pos, Leaf>, a: nat, va: nat, length: nat, f: nat, flags: Protection)
    requires a != KERNEL && RangeOk(a, va, length) && Grown(Install(m, a, va, f, PageCount(length), flags), m')
    ensures GrownElsewhere(m, m', a)
  {
    hide Key, SpaceOf, RangeOk, PageCount, Install, InRange, InHeap;
    InstallAt(m, a, va, length, f, PageCount(length), flags);
    forall k | SpaceOf(k) != a
      ensures !InRange(k, a, va, PageCount(length))
    {
      if InRange(k, a, va, PageCount(length)) {
        RangeInSpace(k, a, va, PageCount(length));
      }
    }
  }

  lemma UnmapElsewhere(m: map<Pos, Leaf>, a: nat, va: nat, length: nat)
    requires a != KERNEL && RangeOk(a, va, length)
    ensures SameElsewhere(m, Remove(m, a, va, PageCount(length)), a)
  {
    hide Key, SpaceOf, RangeOk, PageCount, Remove, InRange;
    RemoveAt(m, a, va, length, PageCount(length));
    forall k | SpaceOf(k) != a
      ensures !InRange(k, a, va, PageCount(length))
    {
      if InRange(k, a, va, PageCount(length)) {
        RangeInSpace(k, a, va, PageCount(length));
      }
    }
  }

  lemma ProtectElsewhere(m: map<Pos, Leaf>, a: nat, va: nat, length: nat, flags: Protection)
    requires a != KERNEL && RangeOk(a, va, length) && AllMapped(m, a, va, PageCount(length))
    ensures SameElsewhere(m, Recolour(m, a, va, PageCount(length), flags), a)
  {
    hide Key, SpaceOf, RangeOk, PageCount, Recolour, InRange, AllMapped;
    RecolourAt(m, a, va, length, PageCount(length), flags);
    forall k | SpaceOf(k) != a
      ensures !InRange(k, a, va, PageCount(length))
    {
      if InRange(k, a, va, PageCount(length)) {
        RangeInSpace(k, a, va, PageCount(length));
      }
    }
  }

  /** New heap pages do not touch the agreement of any other space. */
  lemma AgreeGrown(m: map<Pos, Leaf>, m': map<Pos, Leaf>, a: nat, entries: seq<Record>, vmos: map<nat, Vmo>,
                   info: map<nat, Pmem.Info>)
    requires Agree(m, a, entries, vmos, info) && a != KERNEL && Grown(m, m')
    ensures Agree(m', a, entries, vmos, info)
  {
    hide Key, RangeOk, PageCount, Painted, InRange, Clear, Disjoint;
    forall i | 0 <= i < |entries|
      ensures Painted(m', a, entries[i], Backing(entries[i], vmos, info))
    {
      PaintedKept(m, m', a, entries[i], Backing(entries[i], vmos, info));
    }
    forall k | k in m' && SpaceOf(k) == a
      ensures Recorded(entries, a, k)
    {
      assert !InHeap(k);
    }
  }

  // ----- what the agreement says of a page

  /** New objects, and new or destroyed memory ranges, do not disturb it: what an object is never changes. */
  lemma AgreeGrows(m: map<Pos, Leaf>, a: nat, entries: seq<Record>, vmos: map<nat, Vmo>, info: map<nat, Pmem.Info>,
                   vmos': map<nat, Vmo>, info': map<nat, Pmem.Info>)
    requires Agree(m, a, entries, vmos, info)
    requires forall v :: v in vmos ==> v in vmos' && vmos'[v] == vmos[v]
    requires forall p :: p in info ==> p in info' && info'[p] == info[p]
    ensures Agree(m, a, entries, vmos', info')
  {
    hide Key, RangeOk, PageCount, Painted, InRange, Clear, Indexed, Disjoint;
    forall i | 0 <= i < |entries|
      ensures Proper(a, entries[i], vmos', info') && Painted(m, a, entries[i], Backing(entries[i], vmos', info'))
    {
      assert Proper(a, entries[i], vmos, info);
    }
  }

  /**
    Every page mapped in the space lies in exactly one recorded mapping, shows the
    right page of that mapping's object, and is writable or executable exactly as
    recorded, hence only if the object has that right.
   */
  lemma PageIsRecorded(m: map<Pos, Leaf>, a: nat, entries: seq<Record>, vmos: map<nat, Vmo>, info: map<nat, Pmem.Info>,
                       k: Pos)
    requires Agree(m, a, entries, vmos, info) && k in m && SpaceOf(k) == a
    ensures exists j, i: nat ::
              && 0 <= j < |entries| && i < PageCount(entries[j].length) && k == Key(a, PageAt(entries[j].va, i))
              && PageBehind(m[k], entries[j], i, vmos, info)
              && forall l :: 0 <= l < |entries| && l != j ==>
                   !InRange(k, a, entries[l].va, PageCount(entries[l].length))
  {
    hide Key, RangeOk, PageCount, Clear;
    assert Recorded(entries, a, k);
    var j :| 0 <= j < |entries| && InRange(k, a, entries[j].va, PageCount(entries[j].length));
    var e := entries[j];
    var i: nat :| i < PageCount(e.length) && k == Key(a, PageAt(e.va, i));
    assert Proper(a, e, vmos, info) && Painted(m, a, e, Backing(e, vmos, info));
    forall l | 0 <= l < |entries| && l != j
      ensures !InRange(k, a, entries[l].va, PageCount(entries[l].length))
    {
      assert Proper(a, entries[l], vmos, info);
      ClearBoth(entries, j, l);
      ClearOf(a, e, entries[l], k);
    }
    assert PageBehind(m[k], e, i, vmos, info);
  }

  ghost predicate PageBehind(leaf: Leaf, e: Record, i: nat, vmos: map<nat, Vmo>, info: map<nat, Pmem.Info>) {
    && e.vmo in vmos && vmos[e.vmo].pmem in info
    && leaf.frame == Backing(e, vmos, info) / PAGE_SIZE + i
    && leaf.writable == e.rights.write && leaf.nx == !e.rights.exec && leaf.user == (e.va < USER_TOP)
    && (leaf.writable ==> vmos[e.vmo].rights.write) && (!leaf.nx ==> vmos[e.vmo].rights.exec)
  }
}
