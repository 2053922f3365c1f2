/**
  Memory objects and the mappings of one user address space: every operation
  changes the page tables and the index of mappings together.
 */
module VmoLayer {
  import opened Basics
  import opened Frames
  import opened PageTree
  import opened AddressSpaces
  import opened KernelHeap
  import opened KernelMemory
  import opened AddressRanges
  import opened VmoMaps
  import opened VmoRights
  import opened Links
  import H = Heap
  import Pmem

  /** The range and the recorded mapping have an address in common. */
  predicate Crosses(e: Record, va: nat, length: nat) {
    va < e.va + e.length && e.va < va + length
  }

  /** Size of a record in the heap. */
  const RECORD_SIZE: nat := 96

  lemma RecordRequest()
    ensures Request(RECORD_SIZE) == PAGE_SIZE && 4 * Request(RECORD_SIZE) / PAGE_SIZE == 4
  {
    assert H.RoundUp16(96) == 96;
  }

  /** Every record has a block of its own in the heap. */
  ghost predicate NodesOwned(entries: seq<Record>, nodes: seq<nat>, lent: set<nat>) {
    |nodes| == |entries| && Distinct(nodes) && forall i :: 0 <= i < |nodes| ==> nodes[i] in lent
  }

  /** The space exists, its index agrees with the page map, and the records are in the heap. */
  ghost predicate Kept(s: Snap, a: nat, entries: seq<Record>, nodes: seq<nat>, vmos: map<nat, Vmo>, info: map<nat,
                       Pmem.Info>) {
    a in s.t.roots && NodesOwned(entries, nodes, s.lent) && Agree(s.t.model, a, entries, vmos, info)
  }

  class Layer {
    const mem: Memory
    const pmem: Pmem.Registry
    /** The address space whose mappings this set records. */
    const a: nat
    var vmos: map<nat, Vmo>
    var nextVmo: nat
    /** The recorded mappings, oldest first, and where in the heap each record is. */
    var entries: seq<Record>
    var nodes: seq<nat>
    /** Every object ever created. */
    ghost var known: map<nat, Vmo>

    ghost predicate Valid()
      reads this, mem, mem.heap.pages, mem.heap.chunks, mem.heap.pages.sp, mem.heap.pages.sp.frames.Repr(), pmem
    {
      && this !in mem.Sp().frames.Repr() && pmem !in mem.Sp().frames.Repr()
      && mem.Valid() && pmem.Valid() && a != KERNEL
      && (forall v :: v in vmos ==> v in known && known[v] == vmos[v])
      && (forall v :: v in known ==> 0 < v < nextVmo) && 0 < nextVmo <= MAX_HANDLE
      && Kept(mem.Now(), a, entries, nodes, known, pmem.history)
    }

    /** The set of a space in which nothing is mapped. */
    constructor (mem: Memory, pmem: Pmem.Registry, a: nat)
      requires pmem !in mem.Sp().frames.Repr() && mem.Valid() && pmem.Valid() && a in mem.Sp().roots && a != KERNEL
      requires forall k :: k in mem.Sp().model ==> SpaceOf(k) != a
      ensures Valid() && this.mem == mem && this.pmem == pmem && this.a == a && entries == [] && vmos == map[]
    {
      hide Pmem.Registry.Valid, Memory.Valid, Painted, Proper, RangeOk, Key, SpaceOf;
      this.mem, this.pmem, this.a := mem, pmem, a;
      vmos, nextVmo, entries, nodes, known := map[], 1, [], [], map[];
    }

    /** A new object over a memory range; which range it names never changes. `stray`: the rights hold unknown bits. */
    method Create(p: nat, rights: Rights, stray: bool, memoryOk: bool) returns (v: Option<nat>)
      requires Valid() && nextVmo < MAX_HANDLE
      modifies this`vmos, this`nextVmo, this`known
      ensures Valid() && (v.Some? <==> !stray && memoryOk)
      ensures v.Some? ==> v.value == old(nextVmo) && v.value !in old(known)
      ensures v.Some? ==> vmos == old(vmos)[v.value := Vmo(p, rights)] && known == old(known)[v.value := Vmo(p, rights)]
      ensures v.None? ==> vmos == old(vmos) && known == old(known) && nextVmo == old(nextVmo)
    {
      hide Memory.Valid, Memory.Now, Pmem.Registry.Valid, Kept;
      if stray || !memoryOk {
        return None;
      }
      v := Some(nextVmo);
      KeptGrows(mem.Now(), a, entries, nodes, known, pmem.history, known[nextVmo := Vmo(p, rights)], pmem.history);
      vmos, known := vmos[nextVmo := Vmo(p, rights)], known[nextVmo := Vmo(p, rights)];
      nextVmo := nextVmo + 1;
    }

    /** Destroying an object leaves its mappings in place. */
    method Destroy(v: nat) returns (ok: bool)
      requires Valid()
      modifies this`vmos
      ensures Valid() && (ok <==> v in old(vmos)) && vmos == old(vmos) - {v}
    {
      hide Memory.Valid, Memory.Now, Pmem.Registry.Valid, Kept;
      ok := v in vmos;
      vmos := vmos - {v};
    }

    /** Does the range cross a recorded mapping? */
    method Overlaps(va: nat, length: nat) returns (hit: bool)
      ensures hit <==>
              exists i :: 0 <= i < |entries| && Crosses(entries[i], va, length)
    {
      var i := 0;
      while i < |entries|
        invariant i <= |entries|
        invariant forall j :: 0 <= j < i ==> !Crosses(entries[j], va, length)
      {
        if Crosses(entries[i], va, length) {
          return true;
        }
        i := i + 1;
      }
      return false;
    }

    /** The recorded mapping that contains `va`. */
    method Find(va: nat) returns (found: bool, j: nat)
      ensures found <==> exists i :: 0 <= i < |entries| && entries[i].va <= va < entries[i].va + entries[i].length
      ensures found ==> j < |entries| && entries[j].va <= va < entries[j].va + entries[j].length
    {
      j := 0;
      while j < |entries|
        invariant j <= |entries| && forall i :: 0 <= i < j ==>
          !(entries[i].va <= va < entries[i].va + entries[i].length)
      {
        if entries[j].va <= va < entries[j].va + entries[j].length {
          return true, j;
        }
        j := j + 1;
      }
      return false, 0;
    }

    /** The recorded mapping that starts at `va`. */
    method FindAt(va: nat) returns (found: bool, j: nat)
      ensures found <==> exists i :: 0 <= i < |entries| && entries[i].va == va
      ensures found ==> j < |entries| && entries[j].va == va
    {
      j := 0;
      while j < |entries|
        invariant j <= |entries| && forall i :: 0 <= i < j ==> entries[i].va != va
      {
        if entries[j].va == va {
          return true, j;
        }
        j := j + 1;
      }
      return false, 0;
    }

    /** What the tables demand of the frames behind a request that passes the checks. */
    ghost predicate Held(v: nat, va: nat, offset: nat, length: nat)
      reads this, mem.heap.pages.sp, mem.heap.pages.sp.frames, mem.heap.pages.sp.frames.refs, pmem
    {
      v in vmos && vmos[v].pmem in pmem.history ==> (
        var pa := pmem.history[vmos[v].pmem].base + offset;
        RangeOk(a, va, length) && pa % PAGE_SIZE == 0 ==> (
          && pa + PageCount(length) * PAGE_SIZE <= PHYS_LIMIT
          && FramesMappable(mem.Sp().frames.refs[..], mem.Sp().ext, pa / PAGE_SIZE, 0, PageCount(length))))
    }

    /** A request that the object, its memory and the space allow. */
    ghost predicate Acceptable(v: nat, va: nat, offset: nat, length: nat, rights: Rights)
      reads this, mem.heap.pages.sp, pmem
    {
      && v in vmos && v != MAX_HANDLE && vmos[v].rights.map_ && rights.read && !rights.map_
      && Within(rights, vmos[v].rights)
      && vmos[v].pmem in pmem.registered && vmos[v].pmem in pmem.history
      && var i := pmem.history[vmos[v].pmem];
         && offset + length <= i.length && i.base + offset <= MAX_HANDLE && (i.base + offset) % PAGE_SIZE == 0
         && RangeOk(a, va, length) && length > 0 && NoneMapped(mem.Sp().model, a, va, PageCount(length))
    }

    /** The frame at which a part of an object starts. */
    ghost function FrameOf(v: nat, offset: nat): nat
      reads this, pmem
    {
      if v in vmos && vmos[v].pmem in pmem.history then (pmem.history[vmos[v].pmem].base + offset) / PAGE_SIZE else 0
    }

    /**
      Map part of an object. On success the pages show the object's memory, each of
      its frames has one more reference, and the mapping is recorded last; on failure
      nothing has changed but perhaps the heap, and counts are kept.
      Giving the pages up again when there is no memory for the record cannot fail.
     */
    method Map(v: nat, va: nat, offset: nat, length: nat, rights: Rights) returns (ok: bool)
      requires Valid() && va < WORD_LIMIT && Held(v, va, offset, length)
      modifies this`entries, this`nodes, mem, mem.heap.pages, mem.heap.chunks
      modifies mem.Sp()`tables, mem.Sp()`at, mem.Sp()`pos, mem.Sp()`model, mem.Sp()`ext, mem.Sp().frames.Repr()
      ensures Valid()
      ensures ok ==> old(Acceptable(v, va, offset, length, rights))
      ensures ok ==> entries == old(entries) + [Record(va, length, v, offset, rights)]
      ensures ok ==> Referenced(old(mem.Now()).refs, mem.Now().refs, FrameOf(v, offset), PageCount(length))
      ensures GrownElsewhere(old(mem.Sp().model), mem.Sp().model, a)
      ensures !ok ==> entries == old(entries) && Refused(old(mem.Now()), mem.Now())
      ensures old(Acceptable(v, va, offset, length, rights)) && Roomy(old(mem.Now()), a, va, length) ==> ok
    {
      hide Memory.Valid, Memory.Now, Pmem.Registry.Valid, Kept, RangeOk, PageCount, FramesMappable, NoneMapped;
      hide Refused, Roomy, Referenced;
      RefusedSelf(mem.Now());
      ElsewhereSelf(mem.Sp().model, a);
      if v == MAX_HANDLE || length == 0 || rights.map_ || v !in vmos {
        return false;
      }
      var vmo := vmos[v];
      if !vmo.rights.map_ || !Within(rights, vmo.rights) || !rights.read || vmo.pmem !in pmem.registered {
        return false;
      }
      Resolve(vmo.pmem);
      var info := pmem.recs[vmo.pmem].info;
      if offset > info.length || length > info.length - offset || offset > MAX_HANDLE - info.base {
        return false;
      }
      ok := Establish(Record(va, length, v, offset, rights), info.base + offset);
    }

    /** A request within the object's rights and length. */
    ghost predicate Asked(e: Record, pa: nat)
      reads this, pmem
    {
      && e.vmo in known && e.vmo < MAX_HANDLE && known[e.vmo].pmem in pmem.history
      && Within(e.rights, known[e.vmo].rights) && e.rights.read && !e.rights.map_ && known[e.vmo].rights.map_
      && e.offset + e.length <= pmem.history[known[e.vmo].pmem].length
      && pa == pmem.history[known[e.vmo].pmem].base + e.offset
    }

    /** Maps the pages, then makes the record; without memory for it, unmaps them again. */
    method Establish(e: Record, pa: nat) returns (ok: bool)
      requires Valid() && e.va < WORD_LIMIT && Asked(e, pa)
      requires RangeOk(a, e.va, e.length) && pa % PAGE_SIZE == 0 ==> (
                 && pa + PageCount(e.length) * PAGE_SIZE <= PHYS_LIMIT
                 && FramesMappable(mem.Sp().frames.refs[..], mem.Sp().ext, pa / PAGE_SIZE, 0, PageCount(e.length)))
      modifies this`entries, this`nodes, mem, mem.heap.pages, mem.heap.chunks
      modifies mem.Sp()`tables, mem.Sp()`at, mem.Sp()`pos, mem.Sp()`model, mem.Sp()`ext, mem.Sp().frames.Repr()
      ensures Valid() && GrownElsewhere(old(mem.Sp().model), mem.Sp().model, a)
      ensures ok ==> entries == old(entries) + [e]
      ensures ok ==> RangeOk(a, e.va, e.length) && pa % PAGE_SIZE == 0
      ensures ok ==> NoneMapped(old(mem.Sp().model), a, e.va, PageCount(e.length))
      ensures !ok ==> entries == old(entries) && Refused(old(mem.Now()), mem.Now())
      ensures ok ==> Referenced(old(mem.Now()).refs, mem.Now().refs, pa / PAGE_SIZE, PageCount(e.length))
      ensures Roomy(old(mem.Now()), a, e.va, e.length) && RangeOk(a, e.va, e.length) && pa % PAGE_SIZE == 0 ==>
              (NoneMapped(old(mem.Sp().model), a, e.va, PageCount(e.length)) ==> ok)
    {
      hide Memory.Valid, Memory.Now, Pmem.Registry.Valid, Kept, RangeOk, PageCount, FramesMappable, NoneMapped, Refused;
      hide RangeMapped, Spent, GrownElsewhere, Asked, Spaces.T, ClearOfHeap, FlagsFor, Roomy, Small, GeneralFree;
      hide Referenced, OnlyTakesFree;
      ghost var s, n := mem.Now(), PageCount(e.length);
      mem.SnapIs(s);
      KeptRoot(s, a, entries, nodes, known, pmem.history);
      UserClearOfHeap(a, e.va, n);
      if Roomy(s, a, e.va, e.length) {
        RoomyMeans(s, a, e.va, e.length);
      }
      ghost var inner;
      ok, inner := MapRange(mem, a, e.va, pa, e.length, FlagsFor(e.va, e.rights), false);
      ghost var s1 := mem.Now();
      mem.SnapIs(s1);
      if !ok {
        Unrecorded(s, s1, a, entries, nodes, known, pmem.history);
        return;
      }
      StillRoomy(s, s1, a, e.va, e.length);
      ok := MakeRecord(e, pa, s, inner);
      mem.SnapIs(mem.Now());
      if ok {
        ReferencedThen(s.refs, s1.refs, mem.Now().refs, pa / PAGE_SIZE, n);
      }
    }

    /** The record for pages just mapped, or the pages unmapped again. */
    method MakeRecord(e: Record, ghost pa: nat, ghost s: Snap, ghost inner: seq<nat>) returns (ok: bool)
      requires this !in mem.Sp().frames.Repr() && pmem !in mem.Sp().frames.Repr() && mem.Valid() && a != KERNEL
      requires e.va < WORD_LIMIT
      requires Kept(s, a, entries, nodes, known, pmem.history) && Asked(e, pa)
      requires RangeOk(a, e.va, e.length) && pa % PAGE_SIZE == 0 && NoneMapped(s.t.model, a, e.va, PageCount(e.length))
      requires |inner| == PageCount(e.length)
      requires RangeMapped(s, mem.Now(), a, e.va, pa / PAGE_SIZE, inner, FlagsFor(e.va, e.rights))
      modifies this`entries, this`nodes, mem, mem.heap.pages, mem.heap.chunks
      modifies mem.Sp()`tables, mem.Sp()`at, mem.Sp()`pos, mem.Sp()`model, mem.Sp()`ext, mem.Sp().frames.Repr()
      ensures mem.Valid() && Kept(mem.Now(), a, entries, nodes, known, pmem.history)
      ensures GrownElsewhere(s.t.model, mem.Now().t.model, a)
      ensures ok ==> entries == old(entries) + [e] && OnlyTakesFree(old(mem.Now()).refs, mem.Now().refs)
      ensures !ok ==> entries == old(entries) && nodes == old(nodes) && Refused(s, mem.Now())
      ensures RecordRoom(old(mem.Now())) ==> ok
    {
      hide Memory.Valid, Memory.Now, Kept, RangeOk, PageCount, NoneMapped, Refused, RangeMapped, RangeUnmapped, Lent;
      hide GrownElsewhere, Asked, Spaces.T, ClearOfHeap, FlagsFor, Small, GeneralFree, AllMapped, Proper, OnlyTakesFree;
      hide KernelHeap.Request;
      ghost var s1 := mem.Now();
      mem.SnapIs(s1);
      RecordRequest();
      var p := mem.Lend(RECORD_SIZE);
      ghost var s2 := mem.Now();
      mem.SnapIs(s2);
      if p == H.NULL {
        StillThere(s, s1, s2, a, e, pa / PAGE_SIZE, inner);
        KeptRoot(s, a, entries, nodes, known, pmem.history);
        UserClearOfHeap(a, e.va, PageCount(e.length));
        ok := UnmapRange(mem, a, e.va, e.length);
        // the kernel panics here if the pages cannot be unmapped; they always can
        assert ok;
        RangeUndone(s, s1, s2, mem.Now(), a, e.va, e.length, pa / PAGE_SIZE, inner, FlagsFor(e.va, e.rights));
        Unrecorded(s, mem.Now(), a, entries, nodes, known, pmem.history);
        return false;
      }
      ProperNew(e, pa);
      NowRecorded(s, s1, s2, a, entries, nodes, known, pmem.history, e, inner, p);
      var hit := Overlaps(e.va, e.length);
      assert !hit;
      entries, nodes := entries + [e], nodes + [p];
      ok := true;
    }

    lemma Resolve(p: nat)
      requires pmem.Valid() && p in pmem.registered
      ensures p in pmem.recs && p in pmem.history && pmem.recs[p].info == pmem.history[p]
    {
    }

    lemma ProperNew(e: Record, pa: nat)
      requires Asked(e, pa) && RangeOk(a, e.va, e.length) && pa % PAGE_SIZE == 0
      ensures Proper(a, e, known, pmem.history) && Backing(e, known, pmem.history) == pa
    {
    }

    /** Remove one whole mapping of an object; `sized` asks for a matching length too. */
    method Unmap(v: nat, va: nat, length: nat, sized: bool) returns (ok: bool)
      requires Valid() && va < WORD_LIMIT
      modifies this`entries, this`nodes, mem, mem.heap.chunks`mem, mem.heap.chunks`blocks
      modifies mem.Sp()`tables, mem.Sp()`at, mem.Sp()`pos, mem.Sp()`model, mem.Sp().frames.Repr()
      ensures Valid()
      ensures ok <==> v != MAX_HANDLE && exists j: nat :: Names(old(entries), j, v, va, length, sized)
      ensures ok ==> exists j: nat ::
                && Names(old(entries), j, v, va, length, sized) && entries == Drop(old(entries), j)
                && mem.Sp().model == Remove(old(mem.Sp().model), a, va, PageCount(old(entries)[j].length))
                && RangeReleased(old(mem.Now()), mem.Now(), a, va, PageCount(old(entries)[j].length))
      ensures SameElsewhere(old(mem.Sp().model), mem.Sp().model, a)
      ensures !ok ==> entries == old(entries) && mem.Now() == old(mem.Now())
    {
      hide Memory.Valid, Memory.Now, Pmem.Registry.Valid, Kept, Agree, Remove, RangeOk, PageCount, Drop, SameElsewhere;
      hide Spaces.T, RangeReleased;
      ghost var s := mem.Now();
      mem.SnapIs(s);
      KeptRoot(s, a, entries, nodes, known, pmem.history);
      StartsDiffer();
      SameSelf(mem.Sp().model, a);
      if v == MAX_HANDLE || (sized && length == 0) {
        LengthsPositive();
        return false;
      }
      var found, j := FindAt(va);
      if !found || entries[j].vmo != v || (sized && entries[j].length != length) {
        return false;
      }
      assert Names(old(entries), j, v, va, length, sized);
      DropRecord(j);
      ok := true;
    }

    /** Unmaps the pages of record `j` and frees the record. */
    method DropRecord(j: nat)
      requires Valid() && j < |entries|
      modifies this`entries, this`nodes, mem, mem.heap.chunks`mem, mem.heap.chunks`blocks
      modifies mem.Sp()`tables, mem.Sp()`at, mem.Sp()`pos, mem.Sp()`model, mem.Sp().frames.Repr()
      ensures Valid() && entries == Drop(old(entries), j)
      ensures mem.Sp().model == Remove(old(mem.Sp().model), a, old(entries)[j].va, PageCount(old(entries)[j].length))
      ensures SameElsewhere(old(mem.Sp().model), mem.Sp().model, a)
      ensures RangeReleased(old(mem.Now()), mem.Now(), a, old(entries)[j].va, PageCount(old(entries)[j].length))
    {
      hide Memory.Valid, Memory.Now, Pmem.Registry.Valid, Kept, Remove, RangeOk, PageCount, Drop, SameElsewhere;
      hide RangeReleased;
      hide RangeUnmapped, Spaces.T, ClearOfHeap, AllMapped, Agree;
      ghost var s, e := mem.Now(), entries[j];
      mem.SnapIs(s);
      RecordThere(s, a, entries, nodes, known, pmem.history, j);
      UserClearOfHeap(a, e.va, PageCount(e.length));
      var ok := UnmapRange(mem, a, entries[j].va, entries[j].length);
      // the record describes pages that are mapped, so this cannot fail
      assert ok;
      ghost var s1 := mem.Now();
      mem.SnapIs(s1);
      RecordGone(s, s1, a, entries, nodes, known, pmem.history, j);
      var node := nodes[j];
      entries, nodes := Drop(entries, j), Cut(nodes, j);
      mem.Return(node);
      mem.SnapIs(mem.Now());
      StillReleased(s, s1, mem.Now(), a, e.va, PageCount(e.length));
    }

    lemma StartsDiffer()
      requires Agree(mem.Sp().model, a, entries, known, pmem.history)
      ensures forall i, j :: 0 <= i < j < |entries| ==> entries[i].va != entries[j].va
    {
      hide RangeOk, PageCount, Key, Painted, Indexed;
      forall i, j | 0 <= i < j < |entries|
        ensures entries[i].va != entries[j].va
      {
        assert Proper(a, entries[i], known, pmem.history) && Proper(a, entries[j], known, pmem.history);
        RangePositive(a, entries[i].va, entries[i].length);
        RangePositive(a, entries[j].va, entries[j].length);
        assert Clear(entries[i], entries[j]);
      }
    }

    lemma LengthsPositive()
      requires Agree(mem.Sp().model, a, entries, known, pmem.history)
      ensures forall i :: 0 <= i < |entries| ==> entries[i].length > 0 && entries[i].vmo < MAX_HANDLE
    {
      hide PageCount, Key, Painted, Indexed;
      forall i | 0 <= i < |entries|
        ensures entries[i].length > 0 && entries[i].vmo < MAX_HANDLE
      {
        assert Proper(a, entries[i], known, pmem.history);
      }
    }

    lemma RangeHeld(j: nat)
      requires Agree(mem.Sp().model, a, entries, known, pmem.history) && j < |entries|
      ensures RangeOk(a, entries[j].va, entries[j].length) && entries[j].vmo in known && entries[j].vmo < MAX_HANDLE
    {
      hide RangeOk, Painted, Indexed;
      assert Proper(a, entries[j], known, pmem.history);
    }

    /** Change the rights of one whole mapping, within the object's rights. */
    method Protect(v: nat, va: nat, length: nat, rights: Rights) returns (ok: bool)
      requires Valid() && va < WORD_LIMIT
      modifies this`entries, mem.Sp()`tables, mem.Sp()`model
      ensures Valid()
      ensures ok <==> v in vmos && rights.read && !rights.map_ && Within(rights, vmos[v].rights)
                      && exists j: nat :: Names(old(entries), j, v, va, length, true)
      ensures ok ==> exists j: nat :: Names(old(entries), j, v, va, length, true)
                                      && entries == old(entries)[j := old(entries)[j].(rights := rights)]
      ensures SameElsewhere(old(mem.Sp().model), mem.Sp().model, a)
      ensures !ok ==> entries == old(entries) && mem.Now() == old(mem.Now())
    {
      hide Memory.Valid, Memory.Now, Pmem.Registry.Valid, Kept, Agree, SameElsewhere, Spaces.T;
      ghost var s := mem.Now();
      mem.SnapIs(s);
      KeptRoot(s, a, entries, nodes, known, pmem.history);
      LengthsPositive();
      SameSelf(mem.Sp().model, a);
      if v == MAX_HANDLE || length == 0 || rights.map_ || !rights.read || v !in vmos
         || !Within(rights, vmos[v].rights) {
        return false;
      }
      var found, j := Find(va);
      if found {
        OnlyOneContains(j, va);
      }
      if !found || entries[j].vmo != v || entries[j].va != va || entries[j].length != length {
        return false;
      }
      assert Names(old(entries), j, v, va, length, true);
      ChangeRecord(j, rights);
      ok := true;
    }

    /** Changes the flags of the pages of record `j`, then its rights. */
    method ChangeRecord(j: nat, rights: Rights)
      requires Valid() && j < |entries| && rights.read && !rights.map_
      requires entries[j].vmo in known ==> Within(rights, known[entries[j].vmo].rights)
      modifies this`entries, mem.Sp()`tables, mem.Sp()`model
      ensures Valid() && entries == old(entries)[j := old(entries)[j].(rights := rights)]
      ensures SameElsewhere(old(mem.Sp().model), mem.Sp().model, a)
    {
      hide Memory.Valid, Memory.Now, Pmem.Registry.Valid, Kept, RangeOk, PageCount, SameElsewhere, RangeProtected;
      hide Spaces.T, AllMapped, FlagsFor, Within, Agree;
      ghost var s, e := mem.Now(), entries[j];
      mem.SnapIs(s);
      RecordThere(s, a, entries, nodes, known, pmem.history, j);
      var ok := ProtectRange(mem, a, entries[j].va, entries[j].length, FlagsFor(entries[j].va, rights));
      // the record describes pages that are mapped, so this cannot fail
      assert ok;
      mem.SnapIs(mem.Now());
      RecordChanged(s, mem.Now(), a, entries, nodes, known, pmem.history, j, rights);
      KeptRoot(s, a, entries, nodes, known, pmem.history);
      OneStart(s.t.model, entries, j);
      var again, i := FindAt(entries[j].va);
      // the kernel panics here if the record has gone; it never has
      assert again && i == j;
      entries := entries[i := entries[i].(rights := rights)];
    }

    lemma OneStart(m: map<Pos, Leaf>, es: seq<Record>, j: nat)
      requires Agree(m, a, es, known, pmem.history) && j < |es|
      ensures forall i :: 0 <= i < |es| && es[i].va == es[j].va ==> i == j
    {
      hide RangeOk, PageCount, Key, Painted, Indexed;
      forall i | 0 <= i < |es| && es[i].va == es[j].va
        ensures i == j
      {
        assert Proper(a, es[i], known, pmem.history) && Proper(a, es[j], known, pmem.history);
        RangePositive(a, es[i].va, es[i].length);
        RangePositive(a, es[j].va, es[j].length);
        if i != j {
          ClearBoth(es, i, j);
        }
      }
    }

    lemma OnlyOneContains(j: nat, va: nat)
      requires Agree(mem.Sp().model, a, entries, known, pmem.history)
      requires j < |entries| && entries[j].va <= va < entries[j].va + entries[j].length
      ensures forall i :: 0 <= i < |entries| && entries[i].va == va ==> i == j
    {
      hide PageCount, Key, Painted, Indexed;
      LengthsPositive();
      forall i | 0 <= i < |entries| && entries[i].va == va
        ensures i == j
      {
        if i != j {
          ClearBoth(entries, i, j);
        }
      }
    }

    /** Removes every mapping; afterwards the space maps nothing, and every other space what it did. */
    method UnmapAll()
      requires Valid()
      modifies this`entries, this`nodes, mem, mem.heap.chunks`mem, mem.heap.chunks`blocks
      modifies mem.Sp()`tables, mem.Sp()`at, mem.Sp()`pos, mem.Sp()`model, mem.Sp().frames.Repr()
      ensures Valid() && entries == [] && forall k :: k in mem.Sp().model ==> SpaceOf(k) != a
      ensures SameElsewhere(old(mem.Sp().model), mem.Sp().model, a)
    {
      hide Memory.Valid, Memory.Now, Pmem.Registry.Valid, Kept, Agree, RangeOk, PageCount, Key, Drop, Remove, SpaceOf;
      hide SameElsewhere, Spaces.T;
      SameSelf(mem.Sp().model, a);
      while entries != []
        modifies this`entries, this`nodes, mem, mem.heap.chunks`mem, mem.heap.chunks`blocks
        modifies mem.Sp()`tables, mem.Sp()`at, mem.Sp()`pos, mem.Sp()`model, mem.Sp().frames.Repr()
        invariant Valid() && SameElsewhere(old(mem.Sp().model), mem.Sp().model, a)
        decreases |entries|
      {
        mem.SnapIs(mem.Now());
        KeptRoot(mem.Now(), a, entries, nodes, known, pmem.history);
        RangeHeld(0);
        RangePositive(a, entries[0].va, entries[0].length);
        assert Names(entries, 0, entries[0].vmo, entries[0].va, entries[0].length, true);
        ghost var m := mem.Sp().model;
        var ok := Unmap(entries[0].vmo, entries[0].va, entries[0].length, true);
        assert ok;
        SameTwice(old(mem.Sp().model), m, mem.Sp().model, a);
      }
      mem.SnapIs(mem.Now());
      KeptRoot(mem.Now(), a, entries, nodes, known, pmem.history);
      NothingLeft(mem.Sp().model, a, entries, known, pmem.history);
    }
  }

  /**
    What a recorded mapping gives to the program: at each of its pages the hardware
    finds the right frame of the object's memory, open to user code, and lets it be
    written or executed exactly as recorded.
   */
  lemma RecordGrantsAccess(layer: Layer, j: nat, i: nat)
    requires layer.Valid() && j < |layer.entries| && i < PageCount(layer.entries[j].length)
    ensures layer.entries[j].vmo in layer.known && layer.known[layer.entries[j].vmo].pmem in layer.pmem.history
    ensures var e := layer.entries[j];
            var f := Backing(e, layer.known, layer.pmem.history) / PAGE_SIZE + i;
            View(layer.mem.Sp().T(), layer.a, PageAt(e.va, i)) == Some(Leaf(f, e.rights.write, true, !e.rights.exec))
  {
    hide Memory.Valid, Pmem.Registry.Valid, Key, PageCount, View, Clear, Indexed, Index4, Inv, Perms;
    var e := layer.entries[j];
    layer.mem.Inside();
    ValidMeans(layer.mem.Sp());
    layer.mem.SnapIs(layer.mem.Now());
    assert Proper(layer.a, e, layer.known, layer.pmem.history);
    assert Painted(layer.mem.Sp().model, layer.a, e, Backing(e, layer.known, layer.pmem.history));
    PageAllowed(layer.a, e.va, e.length, i);
    LowSlot(PageAt(e.va, i));
    WalkIsLookup(layer.mem.Sp().T(), layer.a, PageAt(e.va, i));
  }

  // ----- steps, on snapshots

  /** No large page is in the way, the heap has room, and every page and the record have their frames. */
  ghost predicate Roomy(s: Snap, a: nat, va: nat, length: nat) {
    && s.brk + (PageCount(length) + 1) * PAGE_SIZE <= H.LIMIT
    && Small(s.t, HEAP_ZONE) && Small(s.t, RangeSlots(a, va, length))
    && |GeneralFree(s.refs)| >= 7 * PageCount(length) + 4
  }

  /** There is room for one more record in the heap. */
  ghost predicate RecordRoom(s: Snap) {
    Small(s.t, HEAP_ZONE) && |GeneralFree(s.refs)| >= 4 && s.brk + PAGE_SIZE <= H.LIMIT
  }

  lemma StillRoomy(s: Snap, s1: Snap, a: nat, va: nat, length: nat)
    requires Spent(s.t, s.refs, s1.t, s1.refs, 7 * PageCount(length))
    requires s1.brk <= s.brk + PageCount(length) * PAGE_SIZE
    ensures Roomy(s, a, va, length) ==> RecordRoom(s1)
  {
    hide Small, GeneralFree, PageCount;
    if Roomy(s, a, va, length) {
      SpentSmall(s.t, s.refs, s1.t, s1.refs, 7 * PageCount(length), HEAP_ZONE);
    }
  }

  lemma ReferencedThen(before: seq<nat>, mid: seq<nat>, after: seq<nat>, f: nat, n: nat)
    requires Referenced(before, mid, f, n) && OnlyTakesFree(mid, after)
    ensures Referenced(before, after, f, n)
  {
  }

  lemma ElsewhereSelf(m: map<Pos, Leaf>, a: nat)
    ensures GrownElsewhere(m, m, a)
  {
  }

  lemma SameSelf(m: map<Pos, Leaf>, a: nat)
    ensures SameElsewhere(m, m, a)
  {
  }

  lemma SameTwice(m: map<Pos, Leaf>, m': map<Pos, Leaf>, m'': map<Pos, Leaf>, a: nat)
    requires SameElsewhere(m, m', a) && SameElsewhere(m', m'', a)
    ensures SameElsewhere(m, m'', a)
  {
    hide SpaceOf;
  }

  lemma KeptRoot(s: Snap, a: nat, entries: seq<Record>, nodes: seq<nat>, vmos: map<nat, Vmo>, info: map<nat, Pmem.Info>)
    requires Kept(s, a, entries, nodes, vmos, info)
    ensures a in s.t.roots && Agree(s.t.model, a, entries, vmos, info)
  {
  }

  lemma KeptGrows(s: Snap, a: nat, entries: seq<Record>, nodes: seq<nat>, vmos: map<nat, Vmo>, info: map<nat,
                  Pmem.Info>,
                  vmos': map<nat, Vmo>, info': map<nat, Pmem.Info>)
    requires Kept(s, a, entries, nodes, vmos, info)
    requires forall v :: v in vmos ==> v in vmos' && vmos'[v] == vmos[v]
    requires forall p :: p in info ==> p in info' && info'[p] == info[p]
    ensures Kept(s, a, entries, nodes, vmos', info')
  {
    hide Agree;
    AgreeGrows(s.t.model, a, entries, vmos, info, vmos', info');
  }

  lemma Unrecorded(s: Snap, s1: Snap, a: nat, entries: seq<Record>, nodes: seq<nat>, vmos: map<nat, Vmo>, info: map<nat,
                   Pmem.Info>)
    requires Refused(s, s1) && Kept(s, a, entries, nodes, vmos, info) && a != KERNEL
    ensures Kept(s1, a, entries, nodes, vmos, info) && GrownElsewhere(s.t.model, s1.t.model, a)
  {
    hide Agree, NodesOwned, SpaceOf, InHeap;
    AgreeGrown(s.t.model, s1.t.model, a, entries, vmos, info);
  }

  lemma RoomyMeans(s: Snap, a: nat, va: nat, length: nat)
    requires Roomy(s, a, va, length)
    ensures s.brk + PageCount(length) * PAGE_SIZE <= H.LIMIT
    ensures Small(s.t, HEAP_ZONE) && Small(s.t, RangeSlots(a, va, length))
    ensures |GeneralFree(s.refs)| >= 7 * PageCount(length)
  {
  }

  lemma StillThere(s: Snap, s1: Snap, s2: Snap, a: nat, e: Record, f: nat, inner: seq<nat>)
    requires RangeOk(a, e.va, e.length) && |inner| == PageCount(e.length) && Refused(s1, s2)
    requires RangeMapped(s, s1, a, e.va, f, inner, FlagsFor(e.va, e.rights))
    ensures AllMapped(s2.t.model, a, e.va, PageCount(e.length)) && s2.t.roots == s.t.roots
  {
    hide Key, RangeOk, PageCount, Install, SameOutside, FlagsFor, Pushed;
    NewMapped(s.t.model, a, e.va, e.length, f, FlagsFor(e.va, e.rights));
  }

  lemma NowRecorded(s: Snap, s1: Snap, s2: Snap, a: nat, entries: seq<Record>, nodes: seq<nat>, vmos: map<nat, Vmo>,
                    info: map<nat, Pmem.Info>, e: Record, inner: seq<nat>, p: nat)
    requires Kept(s, a, entries, nodes, vmos, info) && a != KERNEL
    requires Proper(a, e, vmos, info) && NoneMapped(s.t.model, a, e.va, PageCount(e.length))
    requires |inner| == PageCount(e.length)
    requires RangeMapped(s, s1, a, e.va, Backing(e, vmos, info) / PAGE_SIZE, inner, FlagsFor(e.va, e.rights))
    requires Lent(s1, s2, p, PAGE_SIZE, 4)
    ensures Kept(s2, a, entries + [e], nodes + [p], vmos, info) && GrownElsewhere(s.t.model, s2.t.model, a)
    ensures forall i :: 0 <= i < |entries| ==> Clear(entries[i], e)
    ensures OnlyTakesFree(s1.refs, s2.refs)
  {
    hide Agree, Key, PageCount, Install, Grown, Charged, Spent, OnlyTakesFree, NoneMapped, Pushed, RangeOk, FlagsFor;
    hide GrownElsewhere, Clear;
    var f, flags := Backing(e, vmos, info) / PAGE_SIZE, FlagsFor(e.va, e.rights);
    var m := Install(s.t.model, a, e.va, f, PageCount(e.length), flags);
    GrownTwice(m, s1.t.model, s2.t.model);
    AgreeMap(s.t.model, a, entries, vmos, info, e);
    AgreeGrown(m, s2.t.model, a, entries + [e], vmos, info);
    MapElsewhere(s.t.model, s2.t.model, a, e.va, e.length, f, flags);
  }

  lemma RecordThere(s: Snap, a: nat, entries: seq<Record>, nodes: seq<nat>, vmos: map<nat, Vmo>, info: map<nat,
                    Pmem.Info>, j: nat)
    requires Kept(s, a, entries, nodes, vmos, info) && j < |entries|
    ensures a in s.t.roots && RangeOk(a, entries[j].va, entries[j].length) && entries[j].va < WORD_LIMIT
    ensures AllMapped(s.t.model, a, entries[j].va, PageCount(entries[j].length))
  {
    hide PageCount, Key, Painted, InRange, Clear, Indexed, AllMapped;
    AgreeUnmap(s.t.model, a, entries, vmos, info, j);
    assert Proper(a, entries[j], vmos, info);
    RangePositive(a, entries[j].va, entries[j].length);
  }

  /** With its pages gone and its block returned, the record can be dropped. */
  lemma RecordGone(s: Snap, s1: Snap, a: nat, entries: seq<Record>, nodes: seq<nat>, vmos: map<nat, Vmo>, info: map<nat,
                   Pmem.Info>, j: nat)
    requires Kept(s, a, entries, nodes, vmos, info) && j < |entries| && a != KERNEL
    requires RangeUnmapped(s, s1, a, entries[j].va, PageCount(entries[j].length))
    ensures j < |nodes| && nodes[j] in s1.lent
    ensures Kept(s1.(lent := s1.lent - {nodes[j]}), a, Drop(entries, j), Cut(nodes, j), vmos, info)
    ensures SameElsewhere(s.t.model, s1.t.model, a)
    ensures RangeReleased(s, s1, a, entries[j].va, PageCount(entries[j].length))
    ensures s1.t.model == Remove(s.t.model, a, entries[j].va, PageCount(entries[j].length))
  {
    hide Key, PageCount, RangeOk, Remove, Agree, Drop, Cut, Dropped, RangeReleased;
    RecordThere(s, a, entries, nodes, vmos, info, j);
    AgreeUnmap(s.t.model, a, entries, vmos, info, j);
    OwnedDrop(entries, nodes, s.lent, j);
    UnmapElsewhere(s.t.model, a, entries[j].va, entries[j].length);
  }

  lemma StillReleased(s: Snap, s1: Snap, s2: Snap, a: nat, va: nat, n: nat)
    requires RangeReleased(s, s1, a, va, n) && s2.t == s1.t && s2.refs == s1.refs
    ensures RangeReleased(s, s2, a, va, n)
  {
  }

  /** With its flags changed, the record's rights can be. */
  lemma RecordChanged(s: Snap, s1: Snap, a: nat, entries: seq<Record>, nodes: seq<nat>, vmos: map<nat, Vmo>,
                      info: map<nat, Pmem.Info>,
                      j: nat, rights: Rights)
    requires Kept(s, a, entries, nodes, vmos, info) && j < |entries| && a != KERNEL && rights.read && !rights.map_
    requires entries[j].vmo in vmos ==> Within(rights, vmos[entries[j].vmo].rights)
    requires RangeProtected(s, s1, a, entries[j].va, PageCount(entries[j].length), FlagsFor(entries[j].va, rights))
    ensures Kept(s1, a, entries[j := entries[j].(rights := rights)], nodes, vmos, info)
    ensures SameElsewhere(s.t.model, s1.t.model, a)
  {
    hide Key, PageCount, RangeOk, Recolour, Agree, FlagsFor, Within;
    RecordThere(s, a, entries, nodes, vmos, info, j);
    AgreeProtect(s.t.model, a, entries, vmos, info, j, rights);
    ProtectElsewhere(s.t.model, a, entries[j].va, entries[j].length, FlagsFor(entries[j].va, rights));
  }

  lemma OwnedDrop(entries: seq<Record>, nodes: seq<nat>, lent: set<nat>, j: nat)
    requires NodesOwned(entries, nodes, lent) && j < |entries|
    ensures NodesOwned(Drop(entries, j), Cut(nodes, j), lent - {nodes[j]})
  {
    CutDistinct(nodes, j);
    assert forall i :: 0 <= i < |Cut(nodes, j)| ==> Cut(nodes, j)[i] in Cut(nodes, j);
  }

  /** Record `j` is the mapping of `v` that starts at `va`. */
  ghost predicate Names(entries: seq<Record>, j: nat, v: nat, va: nat, length: nat, sized: bool) {
    j < |entries| && entries[j].va == va && entries[j].vmo == v && (sized ==> entries[j].length == length)
  }

  lemma RangePositive(a: nat, va: nat, length: nat)
    requires RangeOk(a, va, length)
    ensures length > 0 && va < WORD_LIMIT
  {
  }

  lemma NothingLeft(m: map<Pos, Leaf>, a: nat, entries: seq<Record>, vmos: map<nat, Vmo>, info: map<nat, Pmem.Info>)
    requires Agree(m, a, entries, vmos, info) && entries == []
    ensures forall k :: k in m ==> SpaceOf(k) != a
  {
    hide SpaceOf, InRange;
    assert forall k :: !Recorded(entries, a, k);
  }

  lemma NewMapped(m: map<Pos, Leaf>, a: nat, va: nat, length: nat, f: nat, flags: Protection)
    requires RangeOk(a, va, length)
    ensures AllMapped(Install(m, a, va, f, PageCount(length), flags), a, va, PageCount(length))
  {
    hide RangeOk, PageCount, Install, Key;
    InstallAt(m, a, va, length, f, PageCount(length), flags);
  }
}
