/**
  Whole ranges of pages: each operation changes every page of the range or none,
  with a rollback that undoes a mapping that could not be completed.
 */
module AddressRanges {
  import opened Basics
  import opened Frames
  import opened PageTree
  import opened AddressSpaces
  import opened KernelHeap
  import opened KernelMemory
  import H = Heap

  /** The pages that `length` bytes take up, unless rounding would overflow. */
  function PageCount(length: nat): nat {
    (length + PAGE_SIZE - 1) / PAGE_SIZE
  }

  predicate LengthOk(length: nat) {
    0 < length <= WORD_LIMIT - PAGE_SIZE
  }

  /** The checks that every range operation makes on its addresses before it touches a table. */
  predicate RangeOk(a: nat, va: nat, length: nat) {
    && va % PAGE_SIZE == 0 && LengthOk(length)
    && va + PageCount(length) * PAGE_SIZE <= WORD_LIMIT
    && Allowed(a, va, a == KERNEL)
    && Allowed(a, va + (PageCount(length) - 1) * PAGE_SIZE, a == KERNEL)
  }

  function PageAt(va: nat, i: nat): nat {
    va + i * PAGE_SIZE
  }

  lemma PageAllowed(a: nat, va: nat, length: nat, i: nat)
    requires RangeOk(a, va, length) && i < PageCount(length)
    ensures Allowed(a, PageAt(va, i), a == KERNEL) && PageAt(va, i) < WORD_LIMIT
  {
  }

  /** The checks pass exactly for a length whose every page may be mapped and that does not wrap. */
  lemma RangeOkIff(a: nat, va: nat, length: nat)
    ensures RangeOk(a, va, length) <==> (
              && 0 < length && length + 4095 < WORD_LIMIT && va + PageCount(length) * 4096 <= WORD_LIMIT
              && forall i: nat :: i < PageCount(length) ==> Allowed(a, PageAt(va, i), a == KERNEL))
    ensures PageCount(length) * 4096 >= length > (PageCount(length) - 1) * 4096 || length == PageCount(length) == 0
  {
    if RangeOk(a, va, length) {
      forall i: nat | i < PageCount(length)
        ensures Allowed(a, PageAt(va, i), a == KERNEL)
      {
        PageAllowed(a, va, length, i);
      }
    } else if 0 < length && forall i: nat :: i < PageCount(length) ==> Allowed(a, PageAt(va, i), a == KERNEL) {
      assert Allowed(a, PageAt(va, 0), a == KERNEL);
      assert Allowed(a, PageAt(va, PageCount(length) - 1), a == KERNEL);
    }
  }

  lemma PagesDistinct(a: nat, va: nat, length: nat, i: nat, j: nat)
    requires RangeOk(a, va, length) && i < PageCount(length) && j < PageCount(length) && i != j
    ensures Key(a, PageAt(va, i)) != Key(a, PageAt(va, j))
  {
    PageAllowed(a, va, length, i);
    PageAllowed(a, va, length, j);
    if Key(a, PageAt(va, i)) == Key(a, PageAt(va, j)) {
      KeyInjective(a, PageAt(va, i), a, PageAt(va, j), a == KERNEL);
    }
  }

  // ----- what the operations do to the map

  ghost function Install(m: map<Pos, Leaf>, a: nat, va: nat, f: nat, n: nat, flags: Protection): map<Pos, Leaf> {
    if n == 0 then m
    else Install(m, a, va, f, n - 1, flags)[Key(a, PageAt(va, n - 1)) := LeafOf(PageEntry(f + n - 1, flags))]
  }

  ghost function Remove(m: map<Pos, Leaf>, a: nat, va: nat, n: nat): map<Pos, Leaf> {
    if n == 0 then m else Remove(m, a, va, n - 1) - {Key(a, PageAt(va, n - 1))}
  }

  ghost function Recolour(m: map<Pos, Leaf>, a: nat, va: nat, n: nat, flags: Protection): map<Pos, Leaf> {
    if n == 0 then m
    else
      var r := Recolour(m, a, va, n - 1, flags);
      var k := Key(a, PageAt(va, n - 1));
      if k in r then r[k := Leaf(r[k].frame, flags.writable, flags.user, flags.nx)] else r
  }

  ghost predicate AllMapped(m: map<Pos, Leaf>, a: nat, va: nat, n: nat) {
    forall i: nat :: i < n ==> Key(a, PageAt(va, i)) in m
  }

  ghost predicate NoneMapped(m: map<Pos, Leaf>, a: nat, va: nat, n: nat) {
    forall i: nat :: i < n ==> Key(a, PageAt(va, i)) !in m
  }

  /** `k` is the key of one of the first `n` pages. */
  ghost predicate InRange(k: Pos, a: nat, va: nat, n: nat) {
    exists i: nat :: i < n && k == Key(a, PageAt(va, i))
  }

  /** After mapping a range, page `i` is frame `f + i` with the requested protection, and nothing else changed. */
  lemma {:induction false} InstallAt(m: map<Pos, Leaf>, a: nat, va: nat, length: nat, f: nat, n: nat, flags: Protection)
    requires RangeOk(a, va, length) && n <= PageCount(length)
    ensures var r := Install(m, a, va, f, n, flags);
            && (forall i: nat :: i < n ==>
                 Key(a, PageAt(va, i)) in r
                 && r[Key(a, PageAt(va, i))] == Leaf(f + i, flags.writable, flags.user, flags.nx))
            && (forall k :: !InRange(k, a, va, n) ==> (k in r <==> k in m) && (k in m ==> r[k] == m[k]))
  {
    hide Key, Allowed, PageCount;
    if n > 0 {
      InstallAt(m, a, va, length, f, n - 1, flags);
      forall i: nat | i < n - 1
        ensures Key(a, PageAt(va, i)) != Key(a, PageAt(va, n - 1))
      {
        PagesDistinct(a, va, length, i, n - 1);
      }
      forall k | !InRange(k, a, va, n)
        ensures !InRange(k, a, va, n - 1) && k != Key(a, PageAt(va, n - 1))
      {
      }
    }
  }

  lemma {:induction false} RemoveAt(m: map<Pos, Leaf>, a: nat, va: nat, length: nat, n: nat)
    requires RangeOk(a, va, length) && n <= PageCount(length)
    ensures var r := Remove(m, a, va, n);
            && (forall i: nat :: i < n ==> Key(a, PageAt(va, i)) !in r)
            && (forall k :: !InRange(k, a, va, n) ==> (k in r <==> k in m) && (k in m ==> r[k] == m[k]))
  {
    hide Key, Allowed, PageCount;
    if n > 0 {
      RemoveAt(m, a, va, length, n - 1);
      forall k | !InRange(k, a, va, n)
        ensures !InRange(k, a, va, n - 1) && k != Key(a, PageAt(va, n - 1))
      {
      }
    }
  }

  lemma {:induction false} RecolourAt(m: map<Pos, Leaf>, a: nat, va: nat, length: nat, n: nat, flags: Protection)
    requires RangeOk(a, va, length) && n <= PageCount(length) && AllMapped(m, a, va, n)
    ensures var r := Recolour(m, a, va, n, flags);
            && r.Keys == m.Keys
            && (forall i: nat :: i < n ==>
                 r[Key(a, PageAt(va, i))] == Leaf(m[Key(a, PageAt(va, i))].frame, flags.writable, flags.user, flags.nx))
            && (forall k :: k in m && !InRange(k, a, va, n) ==> r[k] == m[k])
  {
    hide Key, Allowed, PageCount;
    if n > 0 {
      RecolourAt(m, a, va, length, n - 1, flags);
      forall i: nat | i < n - 1
        ensures Key(a, PageAt(va, i)) != Key(a, PageAt(va, n - 1))
      {
        PagesDistinct(a, va, length, i, n - 1);
      }
      forall k | !InRange(k, a, va, n)
        ensures !InRange(k, a, va, n - 1) && k != Key(a, PageAt(va, n - 1))
      {
      }
      if InRange(Key(a, PageAt(va, n - 1)), a, va, n - 1) {
        assert false;
      }
    }
  }

  /** Mapping a range and then unmapping it gives back the map one started with. */
  lemma MapThenUnmap(m: map<Pos, Leaf>, a: nat, va: nat, length: nat, f: nat, n: nat, flags: Protection)
    requires RangeOk(a, va, length) && n <= PageCount(length) && NoneMapped(m, a, va, n)
    ensures Remove(Install(m, a, va, f, n, flags), a, va, n) == m
  {
    hide Key, Allowed, PageCount, RangeOk, Install, Remove;
    var r := Install(m, a, va, f, n, flags);
    InstallAt(m, a, va, length, f, n, flags);
    RemoveAt(r, a, va, length, n);
    forall k
      ensures k in Remove(r, a, va, n) <==> k in m
      ensures k in m ==> Remove(r, a, va, n)[k] == m[k]
    {
      if InRange(k, a, va, n) {
        assert k !in m && k !in Remove(r, a, va, n);
      }
    }
  }

  /** The list with a node for each of the first pages of a range on top, the latest first. */
  ghost function Pushed(list: seq<Mapping>, va: nat, f: nat, nodes: seq<nat>): seq<Mapping> {
    if nodes == [] then list
    else
      var n := |nodes| - 1;
      [Mapping(PageAt(va, n), f + n, false, nodes[n])] + Pushed(list, va, f, nodes[..n])
  }

  lemma PushedNext(list: seq<Mapping>, va: nat, f: nat, nodes: seq<nat>, node: nat)
    ensures Pushed(list, va, f, nodes + [node])
            == [Mapping(PageAt(va, |nodes|), f + |nodes|, false, node)] + Pushed(list, va, f, nodes)
  {
    assert (nodes + [node])[..|nodes|] == nodes;
  }

  /** The list after the first `n` pages of a range have been dropped from it. */
  ghost function Dropped(list: seq<Mapping>, va: nat, n: nat): seq<Mapping> {
    if n == 0 then list else DropFirst(Dropped(list, va, n - 1), PageAt(va, n - 1))
  }

  /** No page of the range is one of the kernel heap's: true of every space but the kernel's own. */
  ghost predicate ClearOfHeap(a: nat, va: nat, n: nat) {
    forall i: nat :: i < n ==> !InHeap(Key(a, PageAt(va, i)))
  }

  lemma UserClearOfHeap(a: nat, va: nat, n: nat)
    requires a != KERNEL
    ensures ClearOfHeap(a, va, n)
  {
    hide InHeap, Key;
    forall i: nat | i < n
      ensures !InHeap(Key(a, PageAt(va, i)))
    {
      NotHeap(a, PageAt(va, i));
    }
  }

  /** The first pages of a range are mapped, with their nodes; the heap may have grown. */
  ghost predicate RangeMapped(s: Snap, s': Snap, a: nat, va: nat, f: nat, nodes: seq<nat>, flags: Protection) {
    && SameFrame(s, s') && Grown(Install(s.t.model, a, va, f, |nodes|, flags), s'.t.model)
    && s'.ext == s.ext && s'.lent == s.lent
    && a in s.lists && s'.lists == s.lists[a := Pushed(s.lists[a], va, f, nodes)]
    && Charged(s.t, s.refs, s'.t, s'.refs, f, f + |nodes|)
  }

  /** Every frame in use keeps its count, except that the managed ones of the range have one more. */
  ghost predicate Referenced(before: seq<nat>, after: seq<nat>, f: nat, n: nat) {
    && |after| == |before|
    && forall g :: 0 <= g < |before| && before[g] != 0 ==>
         after[g] == if f <= g < f + n && before[g] != UNMANAGED then before[g] + 1 else before[g]
  }

  /** How many of the first `n` pages of a range are frame `g`. */
  ghost function PagesOf(m: map<Pos, Leaf>, a: nat, va: nat, n: nat, g: nat): nat {
    if n == 0 then 0
    else
      var k := Key(a, PageAt(va, n - 1));
      PagesOf(m, a, va, n - 1, g) + if k in m && m[k].frame == g then 1 else 0
  }

  /** Every managed frame has lost a reference for each of the first `n` pages that was that frame. */
  ghost predicate RangeReleased(s: Snap, s': Snap, a: nat, va: nat, n: nat) {
    && SameManaged(s.refs, s'.refs) && s'.t.tables.Keys <= s.t.tables.Keys
    && forall g: nat :: g < |s.refs| && s.refs[g] != UNMANAGED ==>
         DataRefs(s'.t, s'.refs, g) == DataRefs(s.t, s.refs, g) - PagesOf(s.t.model, a, va, n, g)
  }

  /** The first `n` pages of a range are unmapped. */
  ghost predicate RangeUnmapped(s: Snap, s': Snap, a: nat, va: nat, n: nat) {
    && SameFrame(s, s') && s'.t.model == Remove(s.t.model, a, va, n) && s'.ext == s.ext && s'.lent == s.lent
    && s'.brk == s.brk && RangeReleased(s, s', a, va, n)
    && a in s.lists && s'.lists == s.lists[a := Dropped(s.lists[a], va, n)]
  }

  /** The first `n` pages of a range have other flags. */
  ghost predicate RangeProtected(s: Snap, s': Snap, a: nat, va: nat, n: nat, flags: Protection) {
    && SameFrame(s, s') && s'.t.model == Recolour(s.t.model, a, va, n, flags)
    && s'.refs == s.refs && s'.ext == s.ext && s'.lent == s.lent && s'.brk == s.brk && s'.lists == s.lists
    && s'.t.tables.Keys == s.t.tables.Keys
  }

  lemma RangeStart(s: Snap, a: nat, va: nat, f: nat, flags: Protection)
    requires a in s.lists
    ensures RangeMapped(s, s, a, va, f, [], flags) && RangeUnmapped(s, s, a, va, 0)
    ensures RangeProtected(s, s, a, va, 0, flags)
  {
    OutsideSelf(s.t.model, []);
    ChargedSelf(s.t, s.t, s.refs, f);
    assert s.lists[a := s.lists[a]] == s.lists;
  }

  lemma RangeNothing(s: Snap, s': Snap, a: nat, va: nat, f: nat, flags: Protection)
    requires RangeMapped(s, s', a, va, f, [], flags)
    ensures Refused(s, s')
  {
    hide Grown, Charged;
    ChargedNone(s.t, s.refs, s'.t, s'.refs, f, 0);
    assert s.lists[a := s.lists[a]] == s.lists;
  }

  lemma RangeNext(s: Snap, s1: Snap, s2: Snap, a: nat, va: nat, f: nat, nodes: seq<nat>, flags: Protection, node: nat,
                  cost: nat)
    requires RangeMapped(s, s1, a, va, f, nodes, flags)
    requires PageMapped(s1, s2, a, Mapping(PageAt(va, |nodes|), f + |nodes|, false, node), flags, cost)
    ensures RangeMapped(s, s2, a, va, f, nodes + [node], flags)
  {
    hide Grown, Key, Slots, Spent, Undisturbed, Pushed, LeafOf, Charged;
    var n := f + |nodes|;
    ChargedTwice(s.t, s.refs, s1.t, s1.refs, s2.t, s2.refs, f, n, n + 1);
    var k, leaf := Key(a, PageAt(va, |nodes|)), LeafOf(PageEntry(f + |nodes|, flags));
    var m := Install(s.t.model, a, va, f, |nodes|, flags);
    GrownWith(m, s1.t.model, k, leaf);
    GrownTwice(m[k := leaf], s1.t.model[k := leaf], s2.t.model);
    PushedNext(s.lists[a], va, f, nodes, node);
  }

  lemma RangeRefused(s: Snap, s1: Snap, s2: Snap, a: nat, va: nat, f: nat, nodes: seq<nat>, flags: Protection)
    requires RangeMapped(s, s1, a, va, f, nodes, flags) && Refused(s1, s2)
    ensures RangeMapped(s, s2, a, va, f, nodes, flags)
  {
    hide Grown, Slots, Pushed, Install, Charged;
    ChargedNone(s1.t, s1.refs, s2.t, s2.refs, 0, f + |nodes|);
    ChargedTwice(s.t, s.refs, s1.t, s1.refs, s2.t, s2.refs, f, f + |nodes|, f + |nodes|);
    GrownTwice(Install(s.t.model, a, va, f, |nodes|, flags), s1.t.model, s2.t.model);
  }

  /** Unmapping the last page of a partial mapping undoes that page, list and all. */
  lemma RangeBack(s: Snap, s1: Snap, s2: Snap, a: nat, va: nat, length: nat, f: nat, nodes: seq<nat>, flags: Protection)
    requires RangeMapped(s, s1, a, va, f, nodes, flags) && nodes != [] && RangeOk(a, va, length)
    requires |nodes| <= PageCount(length)
    requires NoneMapped(s.t.model, a, va, PageCount(length))
    requires PageUnmapped(s1, s2, a, PageAt(va, |nodes| - 1))
    ensures RangeMapped(s, s2, a, va, f, nodes[..|nodes| - 1], flags)
  {
    hide Grown, Slots, Install, Key, RangeOk, PageCount, Charged, Released;
    var n := |nodes| - 1;
    UninstallLast(s.t.model, a, va, length, f, n + 1, flags);
    PageKept(Install(s.t.model, a, va, f, n + 1, flags), s1.t.model, Key(a, PageAt(va, n)));
    ChargedBack(s.t, s.refs, s1.t, s1.refs, s2.t, s2.refs, f, f + n);
    GrownWithout(Install(s.t.model, a, va, f, n + 1, flags), s1.t.model, Key(a, PageAt(va, n)));
    assert nodes == nodes[..n] + [nodes[n]];
    PushedNext(s.lists[a], va, f, nodes[..n], nodes[n]);
  }

  lemma PageKept(m: map<Pos, Leaf>, m': map<Pos, Leaf>, k: Pos)
    requires Grown(m, m') && k in m
    ensures k in m' && m'[k] == m[k]
  {
  }

  /** A range of consecutive frames has one page of each. */
  lemma {:induction false} PagesOfRange(m: map<Pos, Leaf>, a: nat, va: nat, f: nat, n: nat, g: nat)
    requires forall i: nat :: i < n ==> Key(a, PageAt(va, i)) in m && m[Key(a, PageAt(va, i))].frame == f + i
    ensures PagesOf(m, a, va, n, g) == if f <= g < f + n then 1 else 0
  {
    hide Key;
    if n > 0 {
      PagesOfRange(m, a, va, f, n - 1, g);
    }
  }

  /** Mapping a range and then unmapping it gives every reference back. */
  lemma ChargedThenReleased(s: Snap, s1: Snap, s2: Snap, a: nat, va: nat, length: nat, f: nat, n: nat,
                            flags: Protection)
    requires RangeOk(a, va, length) && n <= PageCount(length)
    requires Charged(s.t, s.refs, s1.t, s1.refs, f, f + n) && RangeReleased(s1, s2, a, va, n)
    requires Grown(Install(s.t.model, a, va, f, n, flags), s1.t.model)
    ensures SameCounts(s, s2)
  {
    hide Key, RangeOk, PageCount, Install, DataRefs, PagesOf, SameOutside;
    InstallAt(s.t.model, a, va, length, f, n, flags);
    forall g: nat
      ensures PagesOf(s1.t.model, a, va, n, g) == if f <= g < f + n then 1 else 0
    {
      PagesOfRange(s1.t.model, a, va, f, n, g);
    }
  }

  /** Dropping the nodes of a range that were just pushed gives back the list. */
  lemma {:induction false} DroppedPushed(list: seq<Mapping>, va: nat, f: nat, nodes: seq<nat>)
    ensures Dropped(Pushed(list, va, f, nodes), va, |nodes|) == list
    decreases |nodes|
  {
    if nodes != [] {
      var n := |nodes| - 1;
      var e := Mapping(PageAt(va, n), f + n, false, nodes[n]);
      var rest := Pushed(list, va, f, nodes[..n]);
      DroppedPast(e, rest, va, n);
      DroppedPushed(list, va, f, nodes[..n]);
      assert ([e] + Dropped(rest, va, n))[1..] == Dropped(rest, va, n);
    }
  }

  lemma {:induction false} DroppedPast(e: Mapping, list: seq<Mapping>, va: nat, n: nat)
    requires forall i: nat :: i < n ==> e.va != PageAt(va, i)
    ensures Dropped([e] + list, va, n) == [e] + Dropped(list, va, n)
  {
    if n > 0 {
      DroppedPast(e, list, va, n - 1);
      assert ([e] + Dropped(list, va, n - 1))[1..] == Dropped(list, va, n - 1);
    }
  }

  lemma {:induction false} GrownRemove(m: map<Pos, Leaf>, m': map<Pos, Leaf>, a: nat, va: nat, n: nat)
    requires Grown(m, m')
    ensures Grown(Remove(m, a, va, n), Remove(m', a, va, n))
  {
    hide Grown, Key;
    if n > 0 {
      GrownRemove(m, m', a, va, n - 1);
      GrownWithout(Remove(m, a, va, n - 1), Remove(m', a, va, n - 1), Key(a, PageAt(va, n - 1)));
    }
  }

  /** Mapping a range and then unmapping it changes nothing but perhaps the heap. */
  lemma RangeUndone(s: Snap, s1: Snap, s2: Snap, s3: Snap, a: nat, va: nat, length: nat, f: nat, nodes: seq<nat>,
                    flags: Protection)
    requires RangeMapped(s, s1, a, va, f, nodes, flags) && Refused(s1, s2) && RangeUnmapped(s2, s3, a, va, |nodes|)
    requires RangeOk(a, va, length) && |nodes| == PageCount(length) && NoneMapped(s.t.model, a, va, |nodes|)
    ensures Refused(s, s3)
  {
    hide Grown, Slots, Install, Remove, Key, RangeOk, PageCount, NoneMapped, Pushed, Dropped, Charged, RangeReleased;
    var m, n := Install(s.t.model, a, va, f, |nodes|, flags), f + |nodes|;
    GrownTwice(m, s1.t.model, s2.t.model);
    ChargedNone(s1.t, s1.refs, s2.t, s2.refs, 0, n);
    ChargedTwice(s.t, s.refs, s1.t, s1.refs, s2.t, s2.refs, f, n, n);
    ChargedThenReleased(s, s2, s3, a, va, length, f, |nodes|, flags);
    GrownRemove(m, s2.t.model, a, va, |nodes|);
    MapThenUnmap(s.t.model, a, va, length, f, |nodes|, flags);
    DroppedPushed(s.lists[a], va, f, nodes);
    assert s.lists[a := s.lists[a]] == s.lists;
  }

  lemma RangeHas(s: Snap, s1: Snap, a: nat, va: nat, length: nat, f: nat, nodes: seq<nat>, flags: Protection)
    requires RangeMapped(s, s1, a, va, f, nodes, flags) && nodes != [] && RangeOk(a, va, length)
    requires |nodes| <= PageCount(length)
    requires NoneMapped(s.t.model, a, va, PageCount(length))
    ensures Key(a, PageAt(va, |nodes| - 1)) in s1.t.model
  {
    hide Slots, Install, Key, RangeOk, PageCount, SameOutside;
    UninstallLast(s.t.model, a, va, length, f, |nodes|, flags);
  }

  lemma RangeFree(s: Snap, s1: Snap, a: nat, va: nat, length: nat, f: nat, nodes: seq<nat>, flags: Protection)
    requires RangeMapped(s, s1, a, va, f, nodes, flags) && RangeOk(a, va, length) && |nodes| < PageCount(length)
    requires NoneMapped(s.t.model, a, va, PageCount(length)) && ClearOfHeap(a, va, PageCount(length))
    ensures Key(a, PageAt(va, |nodes|)) !in s1.t.model
  {
    hide Slots, Install, Key, RangeOk, PageCount, Grown;
    NotYet(s.t.model, a, va, length, f, |nodes|, flags);
    KeyKept(Install(s.t.model, a, va, f, |nodes|, flags), s1.t.model, Key(a, PageAt(va, |nodes|)));
  }

  /** What a range mapping demands of the frames from `f + from` on. */
  ghost predicate FramesMappable(refs: seq<nat>, ext: seq<nat>, f: nat, from: nat, n: nat) {
    forall g: nat :: f + from <= g < f + n ==> Mappable(refs, ext, g, false)
  }

  lemma UninstallLast(m: map<Pos, Leaf>, a: nat, va: nat, length: nat, f: nat, n: nat, flags: Protection)
    requires RangeOk(a, va, length) && 0 < n <= PageCount(length) && NoneMapped(m, a, va, n)
    ensures Key(a, PageAt(va, n - 1)) in Install(m, a, va, f, n, flags)
    ensures Install(m, a, va, f, n, flags)[Key(a, PageAt(va, n - 1))].frame == f + n - 1
    ensures Install(m, a, va, f, n, flags) - {Key(a, PageAt(va, n - 1))} == Install(m, a, va, f, n - 1, flags)
  {
    hide Key, Allowed, PageCount, RangeOk;
    var k := Key(a, PageAt(va, n - 1));
    InstallAt(m, a, va, length, f, n - 1, flags);
    if InRange(k, a, va, n - 1) {
      var i: nat :| i < n - 1 && k == Key(a, PageAt(va, i));
      PagesDistinct(a, va, length, i, n - 1);
    }
    assert k !in Install(m, a, va, f, n - 1, flags);
  }

  lemma StillMapped(m: map<Pos, Leaf>, a: nat, va: nat, length: nat, n: nat)
    requires RangeOk(a, va, length) && n < PageCount(length) && AllMapped(m, a, va, PageCount(length))
    ensures Key(a, PageAt(va, n)) in Remove(m, a, va, n) && Key(a, PageAt(va, n)) in m
    ensures Remove(m, a, va, n)[Key(a, PageAt(va, n))] == m[Key(a, PageAt(va, n))]
  {
    hide Key, Allowed, PageCount, RangeOk, Remove;
    RemoveAt(m, a, va, length, n);
    var k := Key(a, PageAt(va, n));
    if InRange(k, a, va, n) {
      var i: nat :| i < n && k == Key(a, PageAt(va, i));
      PagesDistinct(a, va, length, i, n);
    }
  }

  /** Is every page of the range mapped (or, with `want` false, is every page unmapped)? */
  method Preflight(sp: Spaces, a: nat, va: nat, length: nat, want: bool) returns (ok: bool)
    requires sp.Valid() && a in sp.roots && RangeOk(a, va, length)
    ensures sp.Valid()
    ensures want ==> (ok <==> AllMapped(sp.model, a, va, PageCount(length)))
    ensures !want ==> (ok <==> NoneMapped(sp.model, a, va, PageCount(length)))
  {
    hide Spaces.Valid, Key;
    var n := PageCount(length);
    var i := 0;
    while i < n
      invariant i <= n && sp.Valid()
      invariant forall j: nat :: j < i ==> (Key(a, PageAt(va, j)) in sp.model <==> want)
    {
      PageAllowed(a, va, length, i);
      var b := sp.IsMapped(a, PageAt(va, i), a == KERNEL);
      if b != want {
        return false;
      }
      i := i + 1;
    }
    return true;
  }

  /** Undo the first pages of a mapping that could not be completed. */
  method Rollback(mem: Memory, a: nat, va: nat, length: nat, ghost f: nat, n: nat, ghost nodes: seq<nat>,
                  ghost flags: Protection, ghost s: Snap)
    requires mem.Valid() && a in mem.Sp().roots && RangeOk(a, va, length) && n == |nodes| <= PageCount(length)
    requires NoneMapped(s.t.model, a, va, PageCount(length)) && ClearOfHeap(a, va, PageCount(length))
    requires RangeMapped(s, mem.Now(), a, va, f, nodes, flags)
    modifies mem, mem.heap.chunks`mem, mem.heap.chunks`blocks
    modifies mem.Sp()`tables, mem.Sp()`at, mem.Sp()`pos, mem.Sp()`model, mem.Sp().frames.Repr()
    ensures mem.Valid() && Refused(s, mem.Now()) && mem.Now().brk == old(mem.Now()).brk
  {
    hide Memory.Valid, Memory.Now, RangeMapped, PageUnmapped, Refused, Key, RangeOk, Allowed, InHeap, PageCount;
    hide NoneMapped;
    hide Spaces.T, Spaces.Valid, PageAt;
    mem.RootsOf();
    assert nodes[..n] == nodes;
    var offset: nat := n;
    while offset > 0
      modifies mem, mem.heap.chunks`mem, mem.heap.chunks`blocks
      modifies mem.Sp()`tables, mem.Sp()`at, mem.Sp()`pos, mem.Sp()`model, mem.Sp().frames.Repr()
      invariant mem.Valid() && offset <= n && a in mem.Sp().roots && mem.Now().brk == old(mem.Now()).brk
      invariant RangeMapped(s, mem.Now(), a, va, f, nodes[..offset], flags)
    {
      ghost var s1 := mem.Now();
      mem.SnapIs(s1);
      RangeHas(s, s1, a, va, length, f, nodes[..offset], flags);
      assert nodes[..offset][..offset - 1] == nodes[..offset - 1];
      offset := offset - 1;
      PageAllowed(a, va, length, offset);
      mem.RootsOf();
      var ok := mem.UnmapPage(a, PageAt(va, offset), a == KERNEL);
      // the kernel panics here if the page is not mapped; it always is
      assert ok;
      RangeBack(s, s1, mem.Now(), a, va, length, f, nodes[..offset + 1], flags);
      UnmappedSame(s1, mem.Now(), a, PageAt(va, offset));
      mem.SnapIs(mem.Now());
    }
    assert nodes[..0] == [];
    RangeNothing(s, mem.Now(), a, va, f, flags);
  }

  lemma UnmappedSame(s: Snap, s': Snap, a: nat, va: nat)
    requires PageUnmapped(s, s', a, va)
    ensures s'.brk == s.brk && s'.t.roots == s.t.roots
  {
  }

  /**
    Map `length` bytes of physical memory at `va`, all or nothing. The nodes of the
    list come from the kernel heap, which may gain pages; nothing else changes
    outside the range. With seven free frames for each page, room below the heap's
    limit and no large page in its root slots, a request for free addresses cannot
    fail. Success adds one reference to each managed frame of the range and leaves
    every other frame in use its count; failure leaves the count of every frame
    that is mapped or held (see `Refused`).
   */
  method MapRange(mem: Memory, a: nat, va: nat, pa: nat, length: nat, flags: Protection, owned: bool)
    returns (ok: bool, ghost nodes: seq<nat>)
    requires mem.Valid() && a in mem.Sp().roots && va < WORD_LIMIT
    requires RangeOk(a, va, length) && pa % PAGE_SIZE == 0 && !owned ==> (
               && pa + PageCount(length) * PAGE_SIZE <= PHYS_LIMIT && ClearOfHeap(a, va, PageCount(length))
               && FramesMappable(mem.Sp().frames.refs[..], mem.Sp().ext, pa / PAGE_SIZE, 0, PageCount(length)))
    modifies mem, mem.heap.pages, mem.heap.chunks
    modifies mem.Sp()`tables, mem.Sp()`at, mem.Sp()`pos, mem.Sp()`model, mem.Sp()`ext, mem.Sp().frames.Repr()
    ensures mem.Valid() && mem.Now().brk <= old(mem.Now()).brk + PageCount(length) * PAGE_SIZE
    ensures ok ==> RangeOk(a, va, length) && pa % PAGE_SIZE == 0 && !owned && |nodes| == PageCount(length)
    ensures ok ==> NoneMapped(old(mem.Now()).t.model, a, va, PageCount(length))
    ensures ok ==> RangeMapped(old(mem.Now()), mem.Now(), a, va, pa / PAGE_SIZE, nodes, flags)
    ensures ok ==> Spent(old(mem.Now()).t, old(mem.Now()).refs, mem.Now().t, mem.Now().refs, 7 * PageCount(length))
    ensures ok ==> Referenced(old(mem.Now()).refs, mem.Now().refs, pa / PAGE_SIZE, PageCount(length))
    ensures !ok ==> Refused(old(mem.Now()), mem.Now())
    ensures !ok && RangeOk(a, va, length) && pa % PAGE_SIZE == 0 && !owned
            && NoneMapped(old(mem.Now()).t.model, a, va, PageCount(length))
            && old(mem.Now()).brk + PageCount(length) * PAGE_SIZE <= H.LIMIT
            && Small(old(mem.Now()).t, HEAP_ZONE) && Small(old(mem.Now()).t, RangeSlots(a, va, length)) ==>
            |GeneralFree(old(mem.Now()).refs)| < 7 * PageCount(length)
  {
    hide Memory.Valid, Memory.Now, RangeMapped, PageMapped, Refused, Key, Allowed, InHeap, PageCount, Spent, Small;
    hide GeneralFree, Referenced;
    hide Spaces.T, Spaces.Valid, PageAt, RangeOk, NoneMapped, Mappable, RangeSlots, SlotsOf;
    ghost var s := mem.Now();
    mem.SnapIs(s);
    mem.RootsOf();
    RefusedSelf(s);
    nodes := [];
    if !RangeOk(a, va, length) || pa % PAGE_SIZE != 0 || owned {
      return false, [];
    }
    mem.Inside();
    ok := Preflight(mem.Sp(), a, va, length, false);
    if !ok {
      return;
    }
    var f, n := pa / PAGE_SIZE, PageCount(length);
    RangeStart(s, a, va, f, flags);
    SpentNone(s.t, s.refs);
    ReferencedNone(s.refs, f);
    var i := 0;
    while i < n
      modifies mem, mem.heap.pages, mem.heap.chunks
      modifies mem.Sp()`tables, mem.Sp()`at, mem.Sp()`pos, mem.Sp()`model, mem.Sp()`ext, mem.Sp().frames.Repr()
      invariant i <= n && |nodes| == i && mem.Valid() && a in mem.Sp().roots && mem.Now().brk <= s.brk + i * PAGE_SIZE
      invariant RangeMapped(s, mem.Now(), a, va, f, nodes, flags)
      invariant Spent(s.t, s.refs, mem.Now().t, mem.Now().refs, 7 * i) && Referenced(s.refs, mem.Now().refs, f, i)
      invariant FramesMappable(mem.Now().refs, mem.Now().ext, f, i, n)
    {
      ghost var s1 := mem.Now();
      mem.SnapIs(s1);
      PageAllowed(a, va, length, i);
      PhysicalPage(pa, i, n);
      RangeFree(s, s1, a, va, length, f, nodes, flags);
      assert Mappable(s1.refs, s1.ext, f + i, false);
      ghost var node;
      ok, node := mem.MapPage(a, PageAt(va, i), PageAt(pa, i), flags, false, a == KERNEL);
      mem.SnapIs(mem.Now());
      if !ok {
        RangeShort(s, s1, 7 * i, a, va, length, i);
        RefusedRoots(s1, mem.Now());
        RangeRefused(s, s1, mem.Now(), a, va, f, nodes, flags);
        Rollback(mem, a, va, length, f, i, nodes, flags, s);
        return;
      }
      RangeNext(s, s1, mem.Now(), a, va, f, nodes, flags, node, 7);
      MappedNext(s, s1, mem.Now(), a, Mapping(PageAt(va, i), f + i, false, node), flags, 7 * i, f, i, n);
      nodes := nodes + [node];
      i := i + 1;
    }
    ok := true;
  }

  /** Too few frames for one more page, after what has been spent. */
  lemma RangeShort(s: Snap, s1: Snap, n: nat, a: nat, va: nat, length: nat, i: nat)
    requires Spent(s.t, s.refs, s1.t, s1.refs, n) && RangeOk(a, va, length) && i < PageCount(length)
    ensures Small(s.t, HEAP_ZONE) && Small(s.t, RangeSlots(a, va, length)) ==> (
              && Small(s1.t, HEAP_ZONE) && Small(s1.t, SlotsOf(a, PageAt(va, i), PageAt(va, i)))
              && (|GeneralFree(s1.refs)| < 7 ==> |GeneralFree(s.refs)| < n + 7))
  {
    hide Small, GeneralFree, RangeOk, PageCount, RangeSlots, SlotsOf;
    if Small(s.t, HEAP_ZONE) && Small(s.t, RangeSlots(a, va, length)) {
      SpentSmall(s.t, s.refs, s1.t, s1.refs, n, HEAP_ZONE);
      SpentSmall(s.t, s.refs, s1.t, s1.refs, n, RangeSlots(a, va, length));
      SmallPage(s1.t, a, va, length, i);
    }
  }

  /** The root slots that a range goes through. */
  function RangeSlots(a: nat, va: nat, length: nat): Zone {
    SlotsOf(a, va, if PageCount(length) == 0 then va else PageAt(va, PageCount(length) - 1))
  }

  lemma SmallPage(t: Tree, a: nat, va: nat, length: nat, i: nat)
    requires Small(t, RangeSlots(a, va, length)) && RangeOk(a, va, length) && i < PageCount(length)
    ensures Small(t, SlotsOf(a, PageAt(va, i), PageAt(va, i)))
  {
    hide Index4, Allowed, LengthOk;
    PageAllowed(a, va, length, 0);
    PageAllowed(a, va, length, i);
    PageAllowed(a, va, length, PageCount(length) - 1);
    SlotsInOrder(a, va, PageAt(va, i));
    SlotsInOrder(a, PageAt(va, i), PageAt(va, PageCount(length) - 1));
  }

  lemma ReferencedNone(refs: seq<nat>, f: nat)
    ensures Referenced(refs, refs, f, 0)
  {
  }

  lemma ReferencedNext(before: seq<nat>, mid: seq<nat>, after: seq<nat>, f: nat, i: nat)
    requires Referenced(before, mid, f, i) && Undisturbed(mid, after, f + i, 1)
    ensures Referenced(before, after, f, i + 1)
  {
  }

  lemma RefusedRoots(s: Snap, s': Snap)
    requires Refused(s, s')
    ensures s'.t.roots == s.t.roots
  {
  }

  lemma MappedNext(s: Snap, s1: Snap, s2: Snap, a: nat, m: Mapping, flags: Protection, spent: nat, f: nat, i: nat,
                   n: nat)
    requires PageMapped(s1, s2, a, m, flags, 7) && m.frame == f + i && !m.owned
    requires FramesMappable(s1.refs, s1.ext, f, i, n) && Referenced(s.refs, s1.refs, f, i)
    requires Spent(s.t, s.refs, s1.t, s1.refs, spent)
    ensures Referenced(s.refs, s2.refs, f, i + 1)
    ensures FramesMappable(s2.refs, s2.ext, f, i + 1, n) && Spent(s.t, s.refs, s2.t, s2.refs, spent + 7)
    ensures s2.t.roots == s1.t.roots
  {
    hide Grown, Spent, Key, Charged, Referenced, Undisturbed, FramesMappable;
    NextMappable(s1.refs, s2.refs, s1.ext, f, i, n);
    ReferencedNext(s.refs, s1.refs, s2.refs, f, i);
    SpentTwice(s.t, s.refs, s1.t, s1.refs, s2.t, s2.refs, spent, 7);
  }

  lemma NotYet(m: map<Pos, Leaf>, a: nat, va: nat, length: nat, f: nat, n: nat, flags: Protection)
    requires RangeOk(a, va, length) && n < PageCount(length) && NoneMapped(m, a, va, PageCount(length))
    ensures Key(a, PageAt(va, n)) !in Install(m, a, va, f, n, flags)
  {
    hide Key, RangeOk, PageCount, Install;
    InstallAt(m, a, va, length, f, n, flags);
    if InRange(Key(a, PageAt(va, n)), a, va, n) {
      var i: nat :| i < n && Key(a, PageAt(va, n)) == Key(a, PageAt(va, i));
      PagesDistinct(a, va, length, i, n);
    }
  }

  lemma PhysicalPage(pa: nat, i: nat, n: nat)
    requires pa % PAGE_SIZE == 0 && i < n && pa + n * PAGE_SIZE <= PHYS_LIMIT
    ensures PageAt(pa, i) < PHYS_LIMIT && PageAt(pa, i) / PAGE_SIZE == pa / PAGE_SIZE + i
    ensures PageAt(pa, i) % PAGE_SIZE == 0
  {
  }

  /** Mapping one frame leaves the others of the range as mappable as they were. */
  lemma NextMappable(before: seq<nat>, after: seq<nat>, ext: seq<nat>, f: nat, i: nat, n: nat)
    requires FramesMappable(before, ext, f, i, n) && Undisturbed(before, after, f + i, 1)
    ensures FramesMappable(after, ext, f, i + 1, n)
  {
    forall g: nat | f + i + 1 <= g < f + n
      ensures Mappable(after, ext, g, false)
    {
      assert Mappable(before, ext, g, false);
    }
  }

  /** Unmap a range, all or nothing. */
  method UnmapRange(mem: Memory, a: nat, va: nat, length: nat) returns (ok: bool)
    requires mem.Valid() && a in mem.Sp().roots && va < WORD_LIMIT
    requires RangeOk(a, va, length) ==> ClearOfHeap(a, va, PageCount(length))
    modifies mem, mem.heap.chunks`mem, mem.heap.chunks`blocks
    modifies mem.Sp()`tables, mem.Sp()`at, mem.Sp()`pos, mem.Sp()`model, mem.Sp().frames.Repr()
    ensures mem.Valid()
    ensures ok <==> RangeOk(a, va, length) && AllMapped(old(mem.Now()).t.model, a, va, PageCount(length))
    ensures ok ==> RangeUnmapped(old(mem.Now()), mem.Now(), a, va, PageCount(length))
    ensures !ok ==> mem.Now() == old(mem.Now())
  {
    hide Memory.Valid, Memory.Now, RangeUnmapped, PageUnmapped, Key, Allowed, InHeap, PageCount;
    hide Spaces.T, Spaces.Valid, PageAt, RangeOk, AllMapped, Remove, Refused;
    ghost var s := mem.Now();
    mem.SnapIs(s);
    mem.RootsOf();
    if !RangeOk(a, va, length) {
      return false;
    }
    mem.Inside();
    ok := Preflight(mem.Sp(), a, va, length, true);
    if !ok {
      return;
    }
    RangeStart(s, a, va, 0, Protection(false, false, false));
    var n := PageCount(length);
    var i := 0;
    while i < n
      modifies mem, mem.heap.chunks`mem, mem.heap.chunks`blocks
      modifies mem.Sp()`tables, mem.Sp()`at, mem.Sp()`pos, mem.Sp()`model, mem.Sp().frames.Repr()
      invariant i <= n && mem.Valid() && a in mem.Sp().roots && RangeUnmapped(s, mem.Now(), a, va, i)
    {
      ghost var s1 := mem.Now();
      mem.SnapIs(s1);
      PageAllowed(a, va, length, i);
      StillMapped(s.t.model, a, va, length, i);
      RangeModel(s, s1, a, va, i);
      var done := mem.UnmapPage(a, PageAt(va, i), a == KERNEL);
      // the kernel panics here if a page of the checked range is not mapped; it always is
      assert done;
      RangeUnmappedNext(s, s1, mem.Now(), a, va, length, i);
      UnmappedSame(s1, mem.Now(), a, PageAt(va, i));
      mem.SnapIs(mem.Now());
      i := i + 1;
    }
  }

  lemma RangeModel(s: Snap, s1: Snap, a: nat, va: nat, n: nat)
    requires RangeUnmapped(s, s1, a, va, n)
    ensures s1.t.model == Remove(s.t.model, a, va, n)
  {
  }

  lemma RangeUnmappedNext(s: Snap, s1: Snap, s2: Snap, a: nat, va: nat, length: nat, n: nat)
    requires RangeUnmapped(s, s1, a, va, n) && PageUnmapped(s1, s2, a, PageAt(va, n))
    requires RangeOk(a, va, length) && n < PageCount(length) && AllMapped(s.t.model, a, va, PageCount(length))
    ensures RangeUnmapped(s, s2, a, va, n + 1)
  {
    hide Slots, Key, RangeOk, PageCount, AllMapped, DataRefs;
    StillMapped(s.t.model, a, va, length, n);
  }

  lemma StillRecoloured(m: map<Pos, Leaf>, a: nat, va: nat, length: nat, n: nat, flags: Protection)
    requires RangeOk(a, va, length) && n < PageCount(length) && AllMapped(m, a, va, PageCount(length))
    ensures Key(a, PageAt(va, n)) in Recolour(m, a, va, n, flags)
  {
    hide Key, RangeOk, PageCount, Recolour;
    RecolourAt(m, a, va, length, n, flags);
  }

  /** Change the protection of a range, all or nothing. */
  method ProtectRange(mem: Memory, a: nat, va: nat, length: nat, flags: Protection) returns (ok: bool)
    requires mem.Valid() && a in mem.Sp().roots && va < WORD_LIMIT
    modifies mem.Sp()`tables, mem.Sp()`model
    ensures mem.Valid()
    ensures ok <==> RangeOk(a, va, length) && AllMapped(old(mem.Now()).t.model, a, va, PageCount(length))
    ensures ok ==> RangeProtected(old(mem.Now()), mem.Now(), a, va, PageCount(length), flags)
    ensures !ok ==> mem.Now() == old(mem.Now())
  {
    hide Memory.Valid, Memory.Now, RangeProtected, PageProtected, Key, Allowed, PageCount;
    hide Spaces.T, Spaces.Valid, PageAt, RangeOk, AllMapped, Recolour, Refused;
    ghost var s := mem.Now();
    mem.SnapIs(s);
    mem.RootsOf();
    if !RangeOk(a, va, length) {
      return false;
    }
    mem.Inside();
    ok := Preflight(mem.Sp(), a, va, length, true);
    if !ok {
      return;
    }
    RangeStart(s, a, va, 0, flags);
    var n := PageCount(length);
    var i := 0;
    while i < n
      modifies mem.Sp()`tables, mem.Sp()`model
      invariant i <= n && mem.Valid() && a in mem.Sp().roots && RangeProtected(s, mem.Now(), a, va, i, flags)
    {
      ghost var s1 := mem.Now();
      mem.SnapIs(s1);
      PageAllowed(a, va, length, i);
      StillRecoloured(s.t.model, a, va, length, i, flags);
      RangeColours(s, s1, a, va, i, flags);
      var done := mem.ProtectPage(a, PageAt(va, i), flags, a == KERNEL);
      // the kernel panics here if a page of the checked range is not mapped; it always is
      assert done;
      RangeProtectedNext(s, s1, mem.Now(), a, va, i, flags);
      mem.SnapIs(mem.Now());
      i := i + 1;
    }
  }

  lemma RangeColours(s: Snap, s1: Snap, a: nat, va: nat, n: nat, flags: Protection)
    requires RangeProtected(s, s1, a, va, n, flags)
    ensures s1.t.model == Recolour(s.t.model, a, va, n, flags)
  {
  }

  lemma RangeProtectedNext(s: Snap, s1: Snap, s2: Snap, a: nat, va: nat, n: nat, flags: Protection)
    requires RangeProtected(s, s1, a, va, n, flags) && PageProtected(s1, s2, a, PageAt(va, n), flags)
    ensures RangeProtected(s, s2, a, va, n + 1, flags)
  {
    hide Slots, Key;
  }

  // ----- what each space sees

  /** A space that holds a shared slot finds there what the kernel finds. */
  lemma SharesKernelHalf(t: Tree, a: nat, va: nat)
    requires Inv(t) && Perms(t) && a in t.roots && a != KERNEL && (a, Index4(va)) in Slots(t)
    ensures View(t, a, va) == View(t, KERNEL, va)
  {
    hide Down, Up, Leaves, Perms, View, Index1, Index2, Index3;
    WalkIsLookup(t, a, va);
    WalkIsLookup(t, KERNEL, va);
    assert Index4(va) >= SHARED_SLOT;
  }

  /** Mapping, unmapping or protecting in a lower half never shows in any upper half, nor in another space. */
  lemma LowerHalfIsPrivate(t: Tree, s: Tree, a: nat, va: nat, b: nat, vb: nat)
    requires Inv(t) && Inv(s) && Perms(t) && Perms(s) && s.roots == t.roots && Slots(s) == Slots(t)
    requires s.model - {Key(a, va)} == t.model - {Key(a, va)} && Index4(va) < SHARED_SLOT
    requires b in t.roots && (Index4(vb) >= SHARED_SLOT || b != a)
    ensures View(s, b, vb) == View(t, b, vb)
  {
    hide Inv, Perms, View, Slots, Index1, Index2, Index3, Index4;
    OnlyThatPage(t, s, Key(a, va), b, vb);
  }
}
