/**
  The physical frame allocator of the kernel: one bit and one reference count
  per tracked frame, a count of free and of managed frames, and two search
  hints. A frame whose count is `UNMANAGED` is not the allocator's to give out.
 */
module Frames {
  import opened Basics

  const UNMANAGED: nat := 0xffff_ffff
  /** First frame of the general pool: everything below 16 MiB is kept for legacy DMA. */
  const GENERAL_FLOOR: nat := 0x1000

  function Mask(k: nat): bv8
    requires k < 8
  {
    if k == 0 then 1 else if k == 1 then 2 else if k == 2 then 4 else if k == 3 then 8
    else if k == 4 then 16 else if k == 5 then 32 else if k == 6 then 64 else 128
  }

  /** The masks are the powers of two. */
  lemma MaskIsShift(k: nat)
    requires k < 8
    ensures Mask(k) == (1 as bv8) << k
  {
  }

  /** Bit `i` of a byte-addressed bitmap. */
  predicate Bit(bitmap: seq<bv8>, i: nat)
    requires i < 8 * |bitmap|
  {
    bitmap[i / 8] & Mask(i % 8) != 0
  }

  lemma MaskBits(b: bv8, k: nat, j: nat)
    requires k < 8 && j < 8
    ensures (b | Mask(k)) & Mask(j) != 0 <==> (j == k || b & Mask(j) != 0)
    ensures (b & !Mask(k)) & Mask(j) != 0 <==> (j != k && b & Mask(j) != 0)
  {
  }

  /** The kernel's `alloc_bitmap`: one byte per eight frames. */
  class Bitmap {
    const bytes: array<bv8>
    ghost var bits: seq<bool>

    ghost predicate Valid()
      reads this, bytes
    {
      && |bits| == 8 * bytes.Length
      && forall i: nat {:trigger Bit(bytes[..], i)} :: i < |bits| ==> (Bit(bytes[..], i) <==> bits[i])
    }

    constructor (n: nat)
      ensures Valid() && fresh(bytes) && n <= |bits| && forall i :: 0 <= i < |bits| ==> bits[i]
    {
      bytes := new bv8[(n + 7) / 8](_ => 0xff);
      bits := seq(8 * ((n + 7) / 8), _ => true);
      new;
      forall i: nat | i < |bits|
        ensures Bit(bytes[..], i)
      {
        MaskBits(0, i % 8, i % 8);
        assert bytes[i / 8] == 0xff;
      }
    }

    method Test(i: nat) returns (b: bool)
      requires Valid() && i < |bits|
      ensures b == bits[i]
    {
      assert Bit(bytes[..], i) <==> bits[i];
      b := bytes[i / 8] & Mask(i % 8) != 0;
    }

    method Set(i: nat)
      requires Valid() && i < |bits|
      modifies this, bytes
      ensures Valid() && bits == old(bits)[i := true]
    {
      ghost var was := bytes[..];
      bytes[i / 8] := bytes[i / 8] | Mask(i % 8);
      bits := bits[i := true];
      forall j: nat | j < |bits|
        ensures Bit(bytes[..], j) <==> bits[j]
      {
        assert Bit(was, j) <==> old(bits)[j];
        if j / 8 == i / 8 {
          MaskBits(was[i / 8], i % 8, j % 8);
        }
      }
    }

    method Clear(i: nat)
      requires Valid() && i < |bits|
      modifies this, bytes
      ensures Valid() && bits == old(bits)[i := false]
    {
      ghost var was := bytes[..];
      bytes[i / 8] := bytes[i / 8] & !Mask(i % 8);
      bits := bits[i := false];
      forall j: nat | j < |bits|
        ensures Bit(bytes[..], j) <==> bits[j]
      {
        assert Bit(was, j) <==> old(bits)[j];
        if j / 8 == i / 8 {
          MaskBits(was[i / 8], i % 8, j % 8);
        }
      }
    }
  }

  ghost function FreeSet(refs: seq<nat>): set<nat> {
    set i: nat | i < |refs| && refs[i] == 0
  }

  ghost function ManagedSet(refs: seq<nat>): set<nat> {
    set i: nat | i < |refs| && refs[i] != UNMANAGED
  }

  /** The run of `count` frames from `s` lies in [lo, hi) and all of it is free. */
  ghost predicate FreeRun(refs: seq<nat>, lo: nat, hi: nat, s: nat, count: nat) {
    lo <= s && s + count <= hi && hi <= |refs| && forall k :: s <= k < s + count ==> refs[k] == 0
  }

  ghost predicate NoRun(refs: seq<nat>, lo: nat, hi: nat, count: nat) {
    forall s: nat :: !FreeRun(refs, lo, hi, s, count)
  }

  /** `s` is the lowest free run of this length in [lo, hi). */
  ghost predicate Lowest(refs: seq<nat>, lo: nat, hi: nat, count: nat, s: nat) {
    FreeRun(refs, lo, hi, s, count) && forall r: nat :: r < s ==> !FreeRun(refs, lo, hi, r, count)
  }

  /** The run that the two-part search settles on. */
  ghost predicate Chosen(refs: seq<nat>, lo: nat, hi: nat, hint: nat, count: nat, s: nat) {
    var st := SearchStart(lo, hi, hint);
    Lowest(refs, st, hi, count, s) || (NoRun(refs, st, hi, count) && Lowest(refs, lo, st, count, s))
  }

  /** Where a search over [lo, hi) starts, given the remembered hint. */
  function SearchStart(lo: nat, hi: nat, hint: nat): nat {
    if hint < lo || hint >= hi then lo else hint
  }

  /** The counts after frames [s, s + count) have been handed out. */
  ghost function Taken(refs: seq<nat>, s: nat, count: nat): (r: seq<nat>)
    requires s + count <= |refs|
    ensures |r| == |refs|
  {
    seq(|refs|, i requires 0 <= i < |refs| => if s <= i < s + count then 1 else refs[i])
  }

  lemma {:induction false} TakenFree(refs: seq<nat>, s: nat, count: nat)
    requires FreeRun(refs, 0, |refs|, s, count)
    ensures |FreeSet(refs)| >= count && |FreeSet(Taken(refs, s, count))| == |FreeSet(refs)| - count
    ensures ManagedSet(Taken(refs, s, count)) == ManagedSet(refs)
    decreases count
  {
    if count == 0 {
      assert Taken(refs, s, 0) == refs;
    } else {
      var before := Taken(refs, s, count - 1);
      TakenFree(refs, s, count - 1);
      assert FreeSet(Taken(refs, s, count)) == FreeSet(before) - {s + count - 1};
      assert s + count - 1 in FreeSet(before);
    }
  }

  lemma SetFree(refs: seq<nat>, i: nat, v: nat)
    requires i < |refs|
    ensures |FreeSet(refs[i := v])| == |FreeSet(refs)| - (if refs[i] == 0 then 1 else 0) + (if v == 0 then 1 else 0)
  {
    var rest := FreeSet(refs) - {i};
    assert FreeSet(refs) == if refs[i] == 0 then rest + {i} else rest;
    assert FreeSet(refs[i := v]) == if v == 0 then rest + {i} else rest;
  }

  lemma SetManaged(refs: seq<nat>, i: nat, v: nat)
    requires i < |refs|
    ensures |ManagedSet(refs[i := v])| ==
            |ManagedSet(refs)| - (if refs[i] != UNMANAGED then 1 else 0) + (if v != UNMANAGED then 1 else 0)
    ensures (refs[i] != UNMANAGED <==> v != UNMANAGED) ==> ManagedSet(refs[i := v]) == ManagedSet(refs)
  {
    var rest := ManagedSet(refs) - {i};
    assert ManagedSet(refs) == if refs[i] != UNMANAGED then rest + {i} else rest;
    assert ManagedSet(refs[i := v]) == if v != UNMANAGED then rest + {i} else rest;
  }

  /**
    A run is missed only if it straddles the hint: for one frame the search is
    complete, whatever the hint.
   */
  lemma SearchCompleteForOne(refs: seq<nat>, lo: nat, hi: nat, hint: nat)
    requires lo < hi <= |refs|
    ensures (NoRun(refs, SearchStart(lo, hi, hint), hi, 1) && NoRun(refs, lo, SearchStart(lo, hi, hint), 1))
       <==> (forall f: nat :: lo <= f < hi ==> refs[f] != 0)
  {
    var st := SearchStart(lo, hi, hint);
    if NoRun(refs, st, hi, 1) && NoRun(refs, lo, st, 1) {
      forall f: nat | lo <= f < hi
        ensures refs[f] != 0
      {
        assert !FreeRun(refs, st, hi, f, 1) && !FreeRun(refs, lo, st, f, 1);
      }
    }
    if forall f: nat :: lo <= f < hi ==> refs[f] != 0 {
      forall s: nat
        ensures !FreeRun(refs, st, hi, s, 1) && !FreeRun(refs, lo, st, s, 1)
      {
        if lo <= s < hi {
          assert refs[s] != 0;
        }
      }
    }
  }

  /** In general the search fails exactly when every free run straddles the starting point. */
  lemma SearchFailsIffStraddling(refs: seq<nat>, lo: nat, hi: nat, hint: nat, count: nat)
    requires lo < hi <= |refs| && 0 < count
    ensures var st := SearchStart(lo, hi, hint);
            (NoRun(refs, st, hi, count) && NoRun(refs, lo, st, count)) <==>
            (forall s: nat :: FreeRun(refs, lo, hi, s, count) ==> s < st < s + count)
  {
    var st := SearchStart(lo, hi, hint);
    if NoRun(refs, st, hi, count) && NoRun(refs, lo, st, count) {
      forall s: nat | FreeRun(refs, lo, hi, s, count)
        ensures s < st < s + count
      {
        assert !FreeRun(refs, st, hi, s, count) && !FreeRun(refs, lo, st, s, count);
      }
    }
    if forall s: nat :: FreeRun(refs, lo, hi, s, count) ==> s < st < s + count {
      forall s: nat
        ensures !FreeRun(refs, st, hi, s, count) && !FreeRun(refs, lo, st, s, count)
      {
        if FreeRun(refs, st, hi, s, count) || FreeRun(refs, lo, st, s, count) {
          assert FreeRun(refs, lo, hi, s, count);
        }
      }
    }
  }

  /** Every free run of this length in [lo, hi) crosses the place where the search starts. */
  ghost predicate OnlyStraddling(refs: seq<nat>, lo: nat, hi: nat, hint: nat, count: nat) {
    forall s: nat :: FreeRun(refs, lo, hi, s, count) ==> s < SearchStart(lo, hi, hint) < s + count
  }

  /** How many of `total` frames start below the address. */
  function FramesBelow(limit: nat, total: nat): (n: nat)
    ensures forall f: nat :: f < n <==> f < total && f * PAGE_SIZE < limit
  {
    var end := (limit + PAGE_SIZE - 1) / PAGE_SIZE;
    if end > total then total else end
  }

  class FrameAllocator {
    const bitmap: Bitmap
    const refs: array<nat>
    var freeCount: nat
    var managedCount: nat
    var generalHint: nat
    var constrainedHint: nat
    ghost var managed: set<nat>

    ghost function Repr(): set<object> {
      {this, bitmap, bitmap.bytes, refs}
    }

    ghost predicate Valid()
      reads Repr()
    {
      && bitmap.Valid() && refs as object != bitmap.bytes && refs.Length <= |bitmap.bits|
      && (forall i: nat :: i < refs.Length ==> refs[i] <= UNMANAGED)
      && (forall i: nat :: i < refs.Length ==> bitmap.bits[i] == (refs[i] != 0))
      && freeCount == |FreeSet(refs[..])|
      && managed == ManagedSet(refs[..])
      && managedCount == |managed|
    }

    predicate Managed(f: nat)
      reads this, refs
    {
      f < refs.Length && refs[f] != UNMANAGED
    }

    /** Metadata as first set up: every frame reserved. */
    constructor (total: nat)
      ensures Valid() && fresh(bitmap) && fresh(bitmap.bytes) && fresh(refs)
      ensures refs.Length == total && managedCount == 0 && freeCount == 0 && generalHint == GENERAL_FLOOR
      ensures constrainedHint == 1
      ensures forall i: nat :: i < total ==> refs[i] == UNMANAGED
    {
      bitmap := new Bitmap(total);
      refs := new nat[total](_ => UNMANAGED);
      freeCount, managedCount := 0, 0;
      generalHint, constrainedHint := GENERAL_FLOOR, 1;
      managed := {};
      new;
      assert FreeSet(refs[..]) == {};
      assert ManagedSet(refs[..]) == {};
    }

    /** Hand the frames wholly inside the byte range [start, end) to the allocator. */
    method MarkManaged(start: nat, end: nat)
      requires Valid()
      modifies Repr()
      ensures Valid() && generalHint == old(generalHint) && constrainedHint == old(constrainedHint)
      ensures forall i: nat :: i < refs.Length ==>
        refs[i] == if start <= i * PAGE_SIZE && (i + 1) * PAGE_SIZE <= end && old(refs[i]) == UNMANAGED
                   then 0 else old(refs[i])
    {
      var lo := (start + PAGE_SIZE - 1) / PAGE_SIZE;
      var hi := end / PAGE_SIZE;
      var page := lo;
      while page < hi
        invariant lo <= page && (page <= hi || page == lo)
        invariant Valid() && generalHint == old(generalHint) && constrainedHint == old(constrainedHint)
        invariant forall i: nat :: i < refs.Length ==>
          refs[i] == if lo <= i < page && old(refs[i]) == UNMANAGED then 0 else old(refs[i])
      {
        if page < refs.Length && refs[page] == UNMANAGED {
          ghost var was := refs[..];
          SetFree(was, page, 0);
          SetManaged(was, page, 0);
          bitmap.Clear(page);
          refs[page] := 0;
          managedCount := managedCount + 1;
          freeCount := freeCount + 1;
          assert refs[..] == was[page := 0];
          managed := ManagedSet(refs[..]);
        }
        page := page + 1;
      }
    }

    /** Take one frame away from the allocator. */
    method Reserve(page: nat)
      requires Valid() && page < refs.Length
      modifies Repr()
      ensures Valid() && generalHint == old(generalHint) && constrainedHint == old(constrainedHint)
      ensures refs[..] == old(refs[..])[page := UNMANAGED]
    {
      ghost var was := refs[..];
      SetFree(was, page, UNMANAGED);
      SetManaged(was, page, UNMANAGED);
      if refs[page] != UNMANAGED {
        var used := bitmap.Test(page);
        if !used && freeCount != 0 {
          freeCount := freeCount - 1;
        }
        if managedCount != 0 {
          managedCount := managedCount - 1;
        }
      }
      bitmap.Set(page);
      refs[page] := UNMANAGED;
      assert refs[..] == was[page := UNMANAGED];
      managed := ManagedSet(refs[..]);
    }

    /** Take every frame touching the byte range [start, end) away from the allocator. */
    method MarkUnmanaged(start: nat, end: nat)
      requires Valid()
      modifies Repr()
      ensures Valid() && generalHint == old(generalHint) && constrainedHint == old(constrainedHint)
      ensures forall i: nat :: i < refs.Length ==>
        refs[i] == if start / PAGE_SIZE <= i < (end + PAGE_SIZE - 1) / PAGE_SIZE then UNMANAGED else old(refs[i])
    {
      var lo := start / PAGE_SIZE;
      var hi := (end + PAGE_SIZE - 1) / PAGE_SIZE;
      var page := lo;
      while page < hi
        invariant lo <= page && (page <= hi || page == lo)
        invariant Valid() && generalHint == old(generalHint) && constrainedHint == old(constrainedHint)
        invariant forall i: nat :: i < refs.Length ==>
          refs[i] == if lo <= i < page then UNMANAGED else old(refs[i])
      {
        if page < refs.Length {
          Reserve(page);
        }
        page := page + 1;
      }
    }

    /** The lowest run of `count` free frames in [start, end), if there is one. */
    method SearchFreeRun(start: nat, end: nat, count: nat) returns (found: Option<nat>)
      requires Valid() && end <= refs.Length && 0 < count
      ensures found.Some? ==> FreeRun(refs[..], start, end, found.value, count)
      ensures found.Some? ==> forall s: nat :: s < found.value ==> !FreeRun(refs[..], start, end, s, count)
      ensures found.None? ==> NoRun(refs[..], start, end, count)
    {
      var run := 0;
      var runStart := start;
      var page := start;
      while page < end
        invariant start <= page && (page <= end || page == start)
        invariant run < count && (run > 0 ==> start <= runStart && runStart + run == page)
        invariant forall k: nat :: page - run <= k < page ==> refs[k] == 0
        invariant forall s: nat :: s < page - run ==> !FreeRun(refs[..], start, end, s, count)
      {
        var used := bitmap.Test(page);
        if !used && refs[page] == 0 {
          if run == 0 {
            runStart := page;
          }
          run := run + 1;
          if run == count {
            return Some(runStart);
          }
        } else {
          assert forall s: nat :: s <= page && FreeRun(refs[..], start, end, s, count) ==> s + count <= page;
          run := 0;
        }
        page := page + 1;
      }
      return None;
    }

    /** Mark a free run as allocated, each frame with one reference. */
    method Claim(first: nat, count: nat)
      requires Valid() && FreeRun(refs[..], 0, refs.Length, first, count)
      modifies this`freeCount, bitmap, bitmap.bytes, refs
      ensures Valid() && refs[..] == Taken(old(refs[..]), first, count)
    {
      ghost var before := refs[..];
      TakenFree(before, first, count);
      var i := 0;
      while i < count
        modifies bitmap, bitmap.bytes, refs
        invariant i <= count
        invariant refs[..] == Taken(before, first, i)
        invariant bitmap.Valid() && |bitmap.bits| == |old(bitmap.bits)|
        invariant forall k: nat :: k < refs.Length ==> bitmap.bits[k] == (refs[k] != 0)
      {
        ghost var was := refs[..];
        bitmap.Set(first + i);
        refs[first + i] := 1;
        assert refs[..] == was[first + i := 1];
        i := i + 1;
      }
      freeCount := freeCount - count;
      assert forall k: nat :: k < refs.Length ==> refs[k] == refs[..][k];
    }

    /**
      Allocate `count` frames from [lo, hi), searching from the hint to the end
      and then from the beginning to the hint.
     */
    method AllocRun(lo: nat, hi: nat, hint: nat, count: nat) returns (found: Option<nat>)
      requires Valid() && hi <= refs.Length
      modifies Repr()
      ensures Valid() && managed == old(managed)
      ensures generalHint == old(generalHint) && constrainedHint == old(constrainedHint)
      ensures found.Some? ==>
              (FreeRun(old(refs[..]), lo, hi, found.value, count) && 0 < count
               && refs[..] == Taken(old(refs[..]), found.value, count))
      ensures found.Some? ==> Chosen(old(refs[..]), lo, hi, hint, count, found.value)
      ensures found.None? ==> refs[..] == old(refs[..]) && freeCount == old(freeCount)
      ensures found.None? <==>
              (count == 0 || lo >= hi ||
               (NoRun(old(refs[..]), SearchStart(lo, hi, hint), hi, count) &&
                NoRun(old(refs[..]), lo, SearchStart(lo, hi, hint), count)))
    {
      if count == 0 || lo >= hi || hi - lo < count {
        return None;
      }
      var start := SearchStart(lo, hi, hint);
      ghost var before := refs[..];
      found := SearchFreeRun(start, hi, count);
      if found.None? && start > lo {
        found := SearchFreeRun(lo, start, count);
        assert found.Some? ==> FreeRun(before, lo, hi, found.value, count);
      }
      if found.None? {
        return;
      }
      assert !(NoRun(before, start, hi, count) && NoRun(before, lo, start, count));
      Claim(found.value, count);
    }

    /** Allocate from the general pool. */
    method AllocPages(count: nat) returns (found: Option<nat>)
      requires Valid()
      modifies Repr()
      ensures Valid() && managed == old(managed)
      ensures found.Some? ==>
              (FreeRun(old(refs[..]), GENERAL_FLOOR, refs.Length, found.value, count) && 0 < count
               && refs[..] == Taken(old(refs[..]), found.value, count))
      ensures found.Some? ==> Chosen(old(refs[..]), GENERAL_FLOOR, refs.Length, old(generalHint), count, found.value)
      ensures generalHint == (if found.Some? then found.value + count else old(generalHint))
      ensures constrainedHint == old(constrainedHint)
      ensures found.None? ==> refs[..] == old(refs[..])
      ensures found.None? && count == 1 ==> forall f: nat :: GENERAL_FLOOR <= f < refs.Length ==> refs[f] != 0
      ensures found.None? <==>
              (count == 0 || OnlyStraddling(old(refs[..]), GENERAL_FLOOR, refs.Length, old(generalHint), count))
    {
      if count > 0 && GENERAL_FLOOR < refs.Length {
        SearchFailsIffStraddling(refs[..], GENERAL_FLOOR, refs.Length, generalHint, count);
      }
      found := AllocRun(GENERAL_FLOOR, refs.Length, generalHint, count);
      if found.Some? {
        generalHint := found.value + count;
      } else if count == 1 && GENERAL_FLOOR < refs.Length {
        SearchCompleteForOne(refs[..], GENERAL_FLOOR, refs.Length, generalHint);
        assert forall f: nat :: f < refs.Length ==> refs[f] == refs[..][f];
      }
    }

    /** Allocate below a physical address limit; frame 0 is never given out. */
    method AllocPagesBelow(count: nat, limit: nat) returns (found: Option<nat>)
      requires Valid()
      modifies Repr()
      ensures Valid() && managed == old(managed)
      ensures found.Some? ==>
              (FreeRun(old(refs[..]), 1, refs.Length, found.value, count) && 0 < count
               && (found.value + count - 1) * PAGE_SIZE < limit
               && refs[..] == Taken(old(refs[..]), found.value, count))
      ensures found.Some? ==> Chosen(old(refs[..]), 1, FramesBelow(limit, refs.Length), old(constrainedHint), count,
                                     found.value)
      ensures constrainedHint == (if found.Some? then found.value + count else old(constrainedHint))
      ensures generalHint == old(generalHint)
      ensures found.None? ==> refs[..] == old(refs[..])
      ensures found.None? <==>
              (count == 0 || limit <= PAGE_SIZE
               || OnlyStraddling(old(refs[..]), 1, FramesBelow(limit, refs.Length), old(constrainedHint), count))
    {
      if count == 0 || limit <= PAGE_SIZE {
        return None;
      }
      var end := FramesBelow(limit, refs.Length);
      if 1 < end {
        SearchFailsIffStraddling(refs[..], 1, end, constrainedHint, count);
      }
      found := AllocRun(1, end, constrainedHint, count);
      if found.Some? {
        constrainedHint := found.value + count;
      }
    }

    /** Take one more reference on a frame that is in use. */
    method Get(f: nat)
      requires Valid() && Managed(f) && 0 < refs[f] < UNMANAGED - 1
      modifies refs
      ensures Valid() && managed == old(managed) && refs[..] == old(refs[..])[f := old(refs[f]) + 1]
    {
      ghost var was := refs[..];
      SetFree(was, f, refs[f] + 1);
      SetManaged(was, f, refs[f] + 1);
      refs[f] := refs[f] + 1;
      assert refs[..] == was[f := was[f] + 1];
    }

    /** Drop one reference; the last one frees the frame. */
    method Put(f: nat)
      requires Valid() && Managed(f) && 0 < refs[f]
      modifies Repr()
      ensures Valid() && managed == old(managed)
      ensures refs[..] == old(refs[..])[f := old(refs[f]) - 1]
      ensures constrainedHint == if old(refs[f]) == 1 && f < old(constrainedHint) then f else old(constrainedHint)
      ensures generalHint == if old(refs[f]) == 1 && GENERAL_FLOOR <= f < old(generalHint) then f else old(generalHint)
    {
      ghost var was := refs[..];
      SetFree(was, f, refs[f] - 1);
      SetManaged(was, f, refs[f] - 1);
      refs[f] := refs[f] - 1;
      assert refs[..] == was[f := was[f] - 1];
      if refs[f] == 0 {
        bitmap.Clear(f);
        freeCount := freeCount + 1;
        if f < generalHint && f >= GENERAL_FLOOR {
          generalHint := f;
        }
        if f < constrainedHint {
          constrainedHint := f;
        }
      }
    }
  }

  lemma ChosenIs(refs: seq<nat>, lo: nat, hi: nat, hint: nat, count: nat, s: nat, t: nat)
    requires Chosen(refs, lo, hi, hint, count, s) && Lowest(refs, SearchStart(lo, hi, hint), hi, count, t)
    ensures s == t
  {
  }

  /**
    For longer runs the search is not complete, and that state is reached: of seven
    frames 1 to 6 are managed; two single frames are taken, the first is put back, two
    pairs are taken and the second frame is put back. Frames 1 and 2 are then free
    and the hint is 2, so a request for two frames fails.
   */
  method MissesFreeRun() returns (pool: FrameAllocator, last: Option<nat>)
    ensures fresh(pool) && pool.Valid() && pool.refs.Length == 7
    ensures FreeRun(pool.refs[..], 1, 7, 1, 2) && last == None
  {
    hide FrameAllocator.Valid, Lowest, Taken, OnlyStraddling, FreeRun, Chosen;
    var u := UNMANAGED;
    pool := new FrameAllocator(7);
    pool.MarkManaged(PAGE_SIZE, 7 * PAGE_SIZE);
    assert pool.refs[..] == [u, 0, 0, 0, 0, 0, 0];
    TakesOf7();
    TakeLowest(pool, 1, 1, [u, 0, 0, 0, 0, 0, 0]);
    TakeLowest(pool, 1, 2, [u, 1, 0, 0, 0, 0, 0]);
    pool.Put(1);
    assert pool.refs[..] == [u, 0, 1, 0, 0, 0, 0];
    TakeLowest(pool, 2, 3, [u, 0, 1, 0, 0, 0, 0]);
    TakeLowest(pool, 2, 5, [u, 0, 1, 1, 1, 0, 0]);
    pool.Put(2);
    assert pool.refs[..] == [u, 0, 0, 1, 1, 1, 1];
    LastStraddles(pool.refs[..]);
    last := pool.AllocPagesBelow(2, 7 * PAGE_SIZE);
  }

  method TakeLowest(pool: FrameAllocator, count: nat, t: nat, ghost refs: seq<nat>)
    requires pool.Valid() && pool.refs.Length == 7 && pool.refs[..] == refs
    requires Lowest(refs, SearchStart(1, 7, pool.constrainedHint), 7, count, t) && 0 < count
    modifies pool.Repr()
    ensures pool.Valid() && pool.refs[..] == Taken(refs, t, count) && pool.constrainedHint == t + count
  {
    hide FrameAllocator.Valid, Taken;
    assert FreeRun(refs, 1, 7, t, count) && !OnlyStraddling(refs, 1, 7, pool.constrainedHint, count);
    var f := pool.AllocPagesBelow(count, 7 * PAGE_SIZE);
    ChosenIs(refs, 1, 7, old(pool.constrainedHint), count, f.value, t);
  }

  lemma LastStraddles(refs: seq<nat>)
    requires refs == [UNMANAGED, 0, 0, 1, 1, 1, 1]
    ensures FreeRun(refs, 1, 7, 1, 2) && OnlyStraddling(refs, 1, 7, 2, 2)
  {
    forall s: nat | FreeRun(refs, 1, 7, s, 2)
      ensures s == 1
    {
      assert refs[3] != 0 && refs[5] != 0;
    }
  }

  lemma TakesOf7()
    ensures var u := UNMANAGED;
            && Lowest([u, 0, 0, 0, 0, 0, 0], 1, 7, 1, 1) && Taken([u, 0, 0, 0, 0, 0, 0], 1, 1) == [u, 1, 0, 0, 0, 0, 0]
            && Lowest([u, 1, 0, 0, 0, 0, 0], 2, 7, 1, 2) && Taken([u, 1, 0, 0, 0, 0, 0], 2, 1) == [u, 1, 1, 0, 0, 0, 0]
            && Lowest([u, 0, 1, 0, 0, 0, 0], 1, 7, 2, 3) && Taken([u, 0, 1, 0, 0, 0, 0], 3, 2) == [u, 0, 1, 1, 1, 0, 0]
            && Lowest([u, 0, 1, 1, 1, 0, 0], 5, 7, 2, 5) && Taken([u, 0, 1, 1, 1, 0, 0], 5, 2) == [u, 0, 1, 1, 1, 1, 1]
  {
    var third := [UNMANAGED, 0, 1, 0, 0, 0, 0];
    forall r: nat | r < 3
      ensures !FreeRun(third, 1, 7, r, 2)
    {
      assert third[2] != 0;
    }
  }
}
