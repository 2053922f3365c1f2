/** The allocator of kernel virtual addresses: a sorted list of regions, first fit. */
module Kvalloc {
  import opened Basics

  const BASE: nat := 0xffff_f000_0000_0000
  const END: nat := BASE + 0x80_0000_0000

  datatype Region = Region(base: nat, length: nat)

  /** Whole pages for `size` bytes, unless rounding would wrap. */
  function RoundUp(size: nat): (r: Option<nat>)
    ensures r.Some? <==> 0 < size <= WORD_LIMIT - PAGE_SIZE
    ensures r.Some? ==> r.value % PAGE_SIZE == 0 && size <= r.value < size + PAGE_SIZE
  {
    if size == 0 || size > WORD_LIMIT - 1 - (PAGE_SIZE - 1) then None
    else Some((size + PAGE_SIZE - 1) / PAGE_SIZE * PAGE_SIZE)
  }

  predicate InArena(g: Region) {
    BASE <= g.base && g.base % PAGE_SIZE == 0 && g.length > 0 && g.length % PAGE_SIZE == 0 && g.base + g.length <= END
  }

  predicate Apart(g: Region, h: Region) {
    g.base + g.length <= h.base || h.base + h.length <= g.base
  }

  /** Sorted, disjoint, page-aligned and inside the arena. */
  ghost predicate Sorted(s: seq<Region>) {
    && (forall i :: 0 <= i < |s| ==> InArena(s[i]))
    && (forall i, j :: 0 <= i < j < |s| ==> s[i].base + s[i].length <= s[j].base)
  }

  /** A region of this length at this base would lie in the arena and touch no other. */
  ghost predicate FreeAt(s: seq<Region>, base: nat, length: nat) {
    BASE <= base && base + length <= END && forall i :: 0 <= i < |s| ==> Apart(Region(base, length), s[i])
  }

  /** One region more, at position `k`. */
  ghost predicate Inserted(s: seq<Region>, t: seq<Region>, k: nat, g: Region)
    requires k <= |s|
  {
    t == s[..k] + [g] + s[k..]
  }

  /** One region fewer, the one at position `k`. */
  ghost predicate Removed(s: seq<Region>, t: seq<Region>, k: nat)
    requires k < |s|
  {
    t == s[..k] + s[k + 1..]
  }

  class Arena {
    var regions: seq<Region>

    ghost predicate Valid()
      reads this
    {
      Sorted(regions)
    }

    constructor ()
      ensures Valid() && regions == []
    {
      regions := [];
    }

    /**
      The result is the lowest address at which the rounded length fits, over all
      addresses; failure means bad arguments, no memory for the record, or no gap
      long enough anywhere.
     */
    method Alloc(size: nat, recordOk: bool) returns (r: Option<nat>)
      requires Valid()
      modifies this
      ensures Valid()
      ensures r.Some? ==> (
                && RoundUp(size).Some?
                && var n := RoundUp(size).value;
                   && FreeAt(old(regions), r.value, n) && (forall b: nat :: FreeAt(old(regions), b, n) ==> r.value <= b)
                   && exists k: nat :: k <= |old(regions)| && Inserted(old(regions), regions, k, Region(r.value, n)))
      ensures r.None? ==> regions == old(regions)
      ensures r.None? && recordOk && RoundUp(size).Some? ==> forall b: nat :: !FreeAt(regions, b, RoundUp(size).value)
    {
      var rounded := RoundUp(size);
      if rounded.None? || !recordOk {
        return None;
      }
      var n := rounded.value;
      var s, candidate, k := regions, BASE, 0;
      while k < |s| && !(candidate <= s[k].base && n <= s[k].base - candidate)
        invariant regions == old(regions) == s && k <= |s|
        invariant BASE <= candidate <= END && candidate % PAGE_SIZE == 0
        invariant forall i :: 0 <= i < k ==> s[i].base + s[i].length <= candidate
        invariant forall i :: k <= i < |s| ==> candidate <= s[i].base
        invariant forall b: nat :: FreeAt(s, b, n) ==> candidate <= b
      {
        NoneBefore(s, k, candidate, n);
        candidate := s[k].base + s[k].length;
        k := k + 1;
      }
      if candidate > END || n > END - candidate {
        return None;
      }
      SortedInsert(s, k, Region(candidate, n));
      regions := s[..k] + [Region(candidate, n)] + s[k..];
      assert Inserted(s, regions, k, Region(candidate, n));
      r := Some(candidate);
    }

    /** Succeeds exactly for the base of a live region, which it removes. */
    method Free(addr: nat) returns (ok: bool)
      requires Valid()
      modifies this
      ensures Valid()
      ensures ok <==> exists g :: g in old(regions) && g.base == addr
      ensures ok ==>
        exists k: nat :: k < |old(regions)| && old(regions)[k].base == addr && Removed(old(regions), regions, k)
      ensures !ok ==> regions == old(regions)
    {
      var k := 0;
      while k < |regions| && regions[k].base != addr
        invariant k <= |regions| && forall i :: 0 <= i < k ==> regions[i].base < addr
      {
        if regions[k].base > addr {
          assert forall i :: k <= i < |regions| ==> regions[i].base > addr;
          return false;
        }
        k := k + 1;
      }
      if k == |regions| {
        return false;
      }
      assert regions[k] in regions;
      regions := regions[..k] + regions[k + 1..];
      assert Removed(old(regions), regions, k);
      ok := true;
    }
  }

  lemma SortedInsert(s: seq<Region>, k: nat, g: Region)
    requires Sorted(s) && k <= |s| && InArena(g)
    requires forall i :: 0 <= i < k ==> s[i].base + s[i].length <= g.base
    requires forall i :: k <= i < |s| ==> g.base + g.length <= s[i].base
    ensures Sorted(s[..k] + [g] + s[k..]) && FreeAt(s, g.base, g.length)
  {
    var t := s[..k] + [g] + s[k..];
    forall i | 0 <= i < |t|
      ensures InArena(t[i])
    {
      assert t[i] == (if i < k then s[i] else if i == k then g else s[i - 1]);
    }
  }

  /** If the gap before region `k` is too short, nothing fits below that region's end. */
  lemma NoneBefore(s: seq<Region>, k: nat, candidate: nat, n: nat)
    requires Sorted(s) && k < |s| && candidate <= s[k].base && n > s[k].base - candidate && n > 0
    requires forall b: nat :: FreeAt(s, b, n) ==> candidate <= b
    ensures forall b: nat :: FreeAt(s, b, n) ==> s[k].base + s[k].length <= b
  {
    forall b: nat | FreeAt(s, b, n)
      ensures s[k].base + s[k].length <= b
    {
      assert Apart(Region(b, n), s[k]);
    }
  }

  /** Freeing what was just allocated gives back the list. */
  lemma AllocThenFree(s: seq<Region>, k: nat, g: Region)
    requires Sorted(s) && k <= |s| && Sorted(s[..k] + [g] + s[k..])
    ensures var t := s[..k] + [g] + s[k..];
            forall j :: 0 <= j < |t| && t[j].base == g.base ==> t[..j] + t[j + 1..] == s
  {
    var t := s[..k] + [g] + s[k..];
    assert t[k] == g;
    forall j | 0 <= j < |t| && t[j].base == g.base
      ensures t[..j] + t[j + 1..] == s
    {
      assert j == k;
    }
  }
}
