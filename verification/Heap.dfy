/**
  The kernel heap: chunks with an in-band header each, kept on a doubly linked
  list in address order. The list tiles the heap from its base to the break.
 */
module Heap {
  import opened Basics

  const BASE: nat := 0xffff_c000_0000_0000
  const LIMIT: nat := 0xffff_e000_0000_0000
  const HEADER: nat := 32
  const ALIGN: nat := 16
  const MIN_SPLIT: nat := 32
  const NULL: nat := 0
  /** Requests this large would overflow the signed break increment. */
  const REQUEST_LIMIT: nat := 0x7fff_ffff_ffff_0000

  /** A header as it lies in memory. */
  datatype Chunk = Chunk(size: nat, free: bool, next: nat, prev: nat)

  /** A chunk of the tiling. */
  datatype Block = Block(size: nat, free: bool)

  // ----- the tiling

  /** The address of block `i`: the blocks before it lie end to end from the base. */
  ghost function Addr(bs: seq<Block>, i: nat): (a: nat)
    requires i <= |bs|
    ensures a >= BASE
  {
    if i == 0 then BASE else Addr(bs, i - 1) + HEADER + bs[i - 1].size
  }

  lemma AddrNext(bs: seq<Block>, i: nat)
    requires i < |bs|
    ensures Addr(bs, i + 1) == Addr(bs, i) + HEADER + bs[i].size
  {
  }

  lemma FirstAddr(bs: seq<Block>)
    ensures Addr(bs, 0) == BASE
  {
  }

  ghost function ChunkOf(bs: seq<Block>, i: nat): Chunk
    requires i < |bs|
  {
    Chunk(bs[i].size, bs[i].free, if i + 1 < |bs| then Addr(bs, i + 1) else NULL,
          if i > 0 then Addr(bs, i - 1) else NULL)
  }

  /** Memory holds the list that the tiling describes. */
  ghost predicate Represents(mem: map<nat, Chunk>, head: nat, brk: nat, bs: seq<Block>) {
    && (forall i :: 0 <= i < |bs| ==> Addr(bs, i) in mem && mem[Addr(bs, i)] == ChunkOf(bs, i))
    && head == (if bs == [] then NULL else BASE)
    && brk == Addr(bs, |bs|)
  }

  lemma ChunkInMemory(mem: map<nat, Chunk>, head: nat, brk: nat, bs: seq<Block>, i: nat)
    requires Represents(mem, head, brk, bs) && i < |bs|
    ensures Addr(bs, i) in mem && mem[Addr(bs, i)] == ChunkOf(bs, i)
  {
  }

  ghost predicate Aligned(bs: seq<Block>) {
    forall i :: 0 <= i < |bs| ==> bs[i].size % ALIGN == 0
  }

  ghost predicate NoTwoFree(bs: seq<Block>) {
    forall i :: 0 <= i < |bs| - 1 ==> !(bs[i].free && bs[i + 1].free)
  }

  lemma {:induction false} AddrMonotone(bs: seq<Block>, i: nat, j: nat)
    requires i <= j <= |bs|
    ensures Addr(bs, i) <= Addr(bs, j) && (i < j ==> Addr(bs, i) + HEADER + bs[i].size <= Addr(bs, j))
    decreases j
  {
    if i < j {
      AddrMonotone(bs, i, j - 1);
    }
  }

  lemma {:induction false} AddrPrefix(bs: seq<Block>, cs: seq<Block>, i: nat)
    requires i <= |bs| && i <= |cs| && forall k :: 0 <= k < i ==> bs[k].size == cs[k].size
    ensures Addr(bs, i) == Addr(cs, i)
  {
    if i > 0 {
      AddrPrefix(bs, cs, i - 1);
    }
  }

  lemma {:induction false} AddrAligned(bs: seq<Block>, i: nat)
    requires Aligned(bs) && i <= |bs|
    ensures Addr(bs, i) % ALIGN == 0
  {
    hide Addr;
    if i == 0 {
      FirstAddr(bs);
    } else {
      AddrAligned(bs, i - 1);
      AddrNext(bs, i - 1);
      AlignedSum(Addr(bs, i - 1), bs[i - 1].size);
    }
  }

  lemma AlignedSum(a: nat, n: nat)
    requires a % ALIGN == 0 && n % ALIGN == 0
    ensures (a + HEADER + n) % ALIGN == 0
  {
  }

  // ----- the changes the allocator makes

  /** Cut block `i` after `w` bytes; the rest becomes a free block. */
  ghost function Split(bs: seq<Block>, i: nat, w: nat): (cs: seq<Block>)
    requires i < |bs| && w + HEADER <= bs[i].size
    ensures |cs| == |bs| + 1
  {
    bs[..i] + [Block(w, bs[i].free), Block(bs[i].size - w - HEADER, true)] + bs[i + 1..]
  }

  /** Join block `i` with the one after it. */
  ghost function Join(bs: seq<Block>, i: nat): (cs: seq<Block>)
    requires i + 1 < |bs|
    ensures |cs| == |bs| - 1
  {
    bs[..i] + [Block(bs[i].size + HEADER + bs[i + 1].size, bs[i].free)] + bs[i + 2..]
  }

  lemma JoinUndoesSplit(bs: seq<Block>, i: nat, w: nat)
    requires i < |bs| && w + HEADER <= bs[i].size
    ensures Join(Split(bs, i, w), i) == bs
  {
    var cs := Split(bs, i, w);
    assert cs[..i] == bs[..i] && cs[i + 2..] == bs[i + 1..];
  }

  lemma {:induction false} AddrSplit(bs: seq<Block>, i: nat, w: nat, j: nat)
    requires i < |bs| && w + HEADER <= bs[i].size && j <= |bs| + 1
    ensures Addr(Split(bs, i, w), j) ==
            if j <= i then Addr(bs, j) else if j == i + 1 then Addr(bs, i) + HEADER + w else Addr(bs, j - 1)
    decreases j
  {
    var cs := Split(bs, i, w);
    if j > 0 {
      AddrSplit(bs, i, w, j - 1);
      assert cs[j - 1] == if j - 1 < i then bs[j - 1] else if j - 1 == i then Block(w, bs[i].free)
                          else if j - 1 == i + 1 then Block(bs[i].size - w - HEADER, true) else bs[j - 2];
    }
  }

  lemma {:induction false} AddrJoin(bs: seq<Block>, i: nat, j: nat)
    requires i + 1 < |bs| && j < |bs|
    ensures Addr(Join(bs, i), j) == if j <= i then Addr(bs, j) else Addr(bs, j + 1)
    decreases j
  {
    var cs := Join(bs, i);
    if j > 0 {
      AddrJoin(bs, i, j - 1);
      assert cs[j - 1] == if j - 1 < i then bs[j - 1]
                          else if j - 1 == i then Block(bs[i].size + HEADER + bs[i + 1].size, bs[i].free) else bs[j];
    }
  }

  /** Mark block `i` free or taken. */
  ghost function Mark(bs: seq<Block>, i: nat, free: bool): seq<Block>
    requires i < |bs|
  {
    bs[i := bs[i].(free := free)]
  }

  // ----- the same changes on the headers in memory

  function SplitMem(mem: map<nat, Chunk>, c: nat, w: nat): map<nat, Chunk>
    requires c in mem && w + HEADER <= mem[c].size && (mem[c].next != NULL ==> mem[c].next in mem)
  {
    var s := c + HEADER + w;
    var n := mem[c].next;
    var m1 := mem[s := Chunk(mem[c].size - w - HEADER, true, n, c)];
    var m2 := if n != NULL then m1[n := m1[n].(prev := s)] else m1;
    m2[c := mem[c].(size := w, next := s)]
  }

  function JoinMem(mem: map<nat, Chunk>, c: nat): map<nat, Chunk>
    requires c in mem && mem[c].next in mem && (mem[mem[c].next].next != NULL ==> mem[mem[c].next].next in mem)
  {
    var n := mem[mem[c].next];
    var m1 := mem[c := mem[c].(size := mem[c].size + HEADER + n.size, next := n.next)];
    if n.next != NULL then m1[n.next := m1[n.next].(prev := c)] else m1
  }

  lemma SplitRep(mem: map<nat, Chunk>, head: nat, brk: nat, bs: seq<Block>, i: nat, w: nat)
    requires Represents(mem, head, brk, bs) && i < |bs| && w + HEADER <= bs[i].size
    ensures var c := Addr(bs, i);
            && c in mem && mem[c] == ChunkOf(bs, i) && (mem[c].next != NULL ==> mem[c].next in mem)
            && Represents(SplitMem(mem, c, w), head, brk, Split(bs, i, w))
  {
    hide Addr, Split, SplitMem;
    var cs := Split(bs, i, w);
    assert mem[Addr(bs, i)] == ChunkOf(bs, i);
    assert i + 1 < |bs| ==> Addr(bs, i + 1) in mem;
    AddrSplit(bs, i, w, |cs|);
    forall j | 0 <= j < |cs|
      ensures Addr(cs, j) in SplitMem(mem, Addr(bs, i), w)
      ensures SplitMem(mem, Addr(bs, i), w)[Addr(cs, j)] == ChunkOf(cs, j)
    {
      SplitRepAt(mem, head, brk, bs, i, w, j);
    }
  }

  lemma SplitRepAt(mem: map<nat, Chunk>, head: nat, brk: nat, bs: seq<Block>, i: nat, w: nat, j: nat)
    requires Represents(mem, head, brk, bs) && i < |bs| && w + HEADER <= bs[i].size && j <= |bs|
    requires Addr(bs, i) in mem && mem[Addr(bs, i)] == ChunkOf(bs, i)
    requires mem[Addr(bs, i)].next != NULL ==> mem[Addr(bs, i)].next in mem
    ensures var mem', cs := SplitMem(mem, Addr(bs, i), w), Split(bs, i, w);
            j < |cs| && Addr(cs, j) in mem' && mem'[Addr(cs, j)] == ChunkOf(cs, j)
  {
    hide Addr, Split, Represents, ChunkOf;
    SplitChunk(bs, i, w, j);
    AddrMonotone(bs, i, i + 1);
    ChunkNext(bs, i);
    AddrNext(bs, i);
    if j < i {
      ChunkInMemory(mem, head, brk, bs, j);
      AddrMonotone(bs, j, i);
    } else if j > i + 1 {
      ChunkInMemory(mem, head, brk, bs, j - 1);
      AddrMonotone(bs, i + 1, j - 1);
    }
  }

  /** The header of each block after a split, in terms of the blocks before. */
  lemma SplitChunk(bs: seq<Block>, i: nat, w: nat, j: nat)
    requires i < |bs| && w + HEADER <= bs[i].size && j <= |bs|
    ensures var cs := Split(bs, i, w);
            && j < |cs|
            && (j < i ==> Addr(cs, j) == Addr(bs, j) && ChunkOf(cs, j) == ChunkOf(bs, j))
            && (j == i ==> Addr(cs, j) == Addr(bs, i))
            && (j == i ==> ChunkOf(cs, j) == ChunkOf(bs, i).(size := w, next := Addr(bs, i) + HEADER + w))
            && (j == i + 1 ==> Addr(cs, j) == Addr(bs, i) + HEADER + w)
            && (j == i + 1 ==> ChunkOf(cs, j) == Chunk(bs[i].size - w - HEADER, true, ChunkOf(bs, i).next, Addr(bs, i)))
            && (j == i + 2 ==> Addr(cs, j) == Addr(bs, i + 1))
            && (j == i + 2 ==> ChunkOf(cs, j) == ChunkOf(bs, i + 1).(prev := Addr(bs, i) + HEADER + w))
            && (j > i + 2 ==> Addr(cs, j) == Addr(bs, j - 1) && ChunkOf(cs, j) == ChunkOf(bs, j - 1))
  {
    AddrSplit(bs, i, w, j);
    AddrSplit(bs, i, w, j + 1);
    if j > 0 {
      AddrSplit(bs, i, w, j - 1);
    }
  }

  lemma JoinChunk(bs: seq<Block>, i: nat, j: nat)
    requires i + 1 < |bs| && j + 1 < |bs|
    ensures var cs := Join(bs, i);
            && j < |cs|
            && (j < i ==> Addr(cs, j) == Addr(bs, j) && ChunkOf(cs, j) == ChunkOf(bs, j))
            && (j == i ==> Addr(cs, j) == Addr(bs, i))
            && (j == i ==>
                 ChunkOf(cs, j) == Chunk(bs[i].size + HEADER + bs[i + 1].size, bs[i].free,
                                         ChunkOf(bs, i + 1).next, ChunkOf(bs, i).prev))
            && (j == i + 1 ==> Addr(cs, j) == Addr(bs, i + 2))
            && (j == i + 1 ==> ChunkOf(cs, j) == ChunkOf(bs, i + 2).(prev := Addr(bs, i)))
            && (j > i + 1 ==> Addr(cs, j) == Addr(bs, j + 1) && ChunkOf(cs, j) == ChunkOf(bs, j + 1))
  {
    AddrJoin(bs, i, j);
    AddrJoin(bs, i, j + 1);
    if j > 0 {
      AddrJoin(bs, i, j - 1);
    }
  }

  lemma JoinRep(mem: map<nat, Chunk>, head: nat, brk: nat, bs: seq<Block>, i: nat)
    requires Represents(mem, head, brk, bs) && i + 1 < |bs|
    ensures var c := Addr(bs, i);
            && c in mem && mem[c].next in mem && (mem[mem[c].next].next != NULL ==> mem[mem[c].next].next in mem)
            && Represents(JoinMem(mem, c), head, brk, Join(bs, i))
  {
    hide Addr, Join, JoinMem;
    var c, cs := Addr(bs, i), Join(bs, i);
    assert mem[c] == ChunkOf(bs, i) && mem[Addr(bs, i + 1)] == ChunkOf(bs, i + 1);
    assert i + 2 < |bs| ==> Addr(bs, i + 2) in mem;
    AddrJoin(bs, i, |cs|);
    forall j | 0 <= j < |cs|
      ensures Addr(cs, j) in JoinMem(mem, c) && JoinMem(mem, c)[Addr(cs, j)] == ChunkOf(cs, j)
    {
      JoinRepAt(mem, head, brk, bs, i, j);
    }
  }

  lemma JoinRepAt(mem: map<nat, Chunk>, head: nat, brk: nat, bs: seq<Block>, i: nat, j: nat)
    requires Represents(mem, head, brk, bs) && i + 1 < |bs| && j + 1 < |bs|
    requires Addr(bs, i) in mem && mem[Addr(bs, i)] == ChunkOf(bs, i)
    requires Addr(bs, i + 1) in mem && mem[Addr(bs, i + 1)] == ChunkOf(bs, i + 1)
    requires ChunkOf(bs, i).next == Addr(bs, i + 1)
    requires ChunkOf(bs, i + 1).next != NULL ==> ChunkOf(bs, i + 1).next in mem
    ensures var mem', cs := JoinMem(mem, Addr(bs, i)), Join(bs, i);
            j < |cs| && Addr(cs, j) in mem' && mem'[Addr(cs, j)] == ChunkOf(cs, j)
  {
    hide Addr, Join, ChunkOf, Represents;
    JoinChunk(bs, i, j);
    AddrMonotone(bs, i, i + 2);
    ChunkNext(bs, i);
    ChunkNext(bs, i + 1);
    if j < i {
      ChunkInMemory(mem, head, brk, bs, j);
      AddrMonotone(bs, j, i);
    } else if j > i {
      ChunkInMemory(mem, head, brk, bs, j + 1);
      AddrMonotone(bs, i + 2, j + 1);
      AddrMonotone(bs, i, j + 1);
    }
  }

  lemma ChunkNext(bs: seq<Block>, i: nat)
    requires i < |bs|
    ensures ChunkOf(bs, i).next == (if i + 1 < |bs| then Addr(bs, i + 1) else NULL)
    ensures ChunkOf(bs, i).size == bs[i].size && ChunkOf(bs, i).free == bs[i].free
  {
  }

  lemma MarkChunk(bs: seq<Block>, i: nat, free: bool, j: nat)
    requires i < |bs| && j < |bs|
    ensures var cs := Mark(bs, i, free);
            && Addr(cs, j) == Addr(bs, j)
            && ChunkOf(cs, j) == if j == i then ChunkOf(bs, i).(free := free) else ChunkOf(bs, j)
    ensures j != i ==> Addr(bs, j) != Addr(bs, i)
  {
    var cs := Mark(bs, i, free);
    AddrPrefix(bs, cs, j);
    AddrPrefix(bs, cs, j + 1);
    if j > 0 {
      AddrPrefix(bs, cs, j - 1);
    }
    if j < i {
      AddrMonotone(bs, j, i);
    } else {
      AddrMonotone(bs, i, j);
    }
  }

  lemma MarkRep(mem: map<nat, Chunk>, head: nat, brk: nat, bs: seq<Block>, i: nat, free: bool)
    requires Represents(mem, head, brk, bs) && i < |bs|
    ensures var c := Addr(bs, i);
            c in mem && Represents(mem[c := mem[c].(free := free)], head, brk, Mark(bs, i, free))
  {
    hide Addr, ChunkOf;
    var c, cs := Addr(bs, i), Mark(bs, i, free);
    AddrPrefix(bs, cs, |bs|);
    forall j | 0 <= j < |cs|
      ensures Addr(cs, j) in mem[c := mem[c].(free := free)]
      ensures mem[c := mem[c].(free := free)][Addr(cs, j)] == ChunkOf(cs, j)
    {
      MarkChunk(bs, i, free, j);
    }
  }

  lemma AppendChunk(bs: seq<Block>, b: Block, j: nat)
    requires j <= |bs|
    ensures var cs, brk := bs + [b], Addr(bs, |bs|);
            && Addr(cs, j) == Addr(bs, j)
            && (j < |bs| - 1 ==> ChunkOf(cs, j) == ChunkOf(bs, j) && Addr(bs, j) < Addr(bs, |bs| - 1))
            && (j == |bs| - 1 ==> ChunkOf(cs, j) == ChunkOf(bs, j).(next := brk))
            && (j < |bs| ==> Addr(bs, j) < brk)
            && (j == |bs| ==> ChunkOf(cs, j) == Chunk(b.size, b.free, NULL, if j > 0 then Addr(bs, j - 1) else NULL))
  {
    var n, cs := |bs|, bs + [b];
    AddrPrefix(bs, cs, j);
    AddrMonotone(bs, j, n);
    if j > 0 {
      AddrPrefix(bs, cs, j - 1);
    }
    if j < n {
      AddrPrefix(bs, cs, j + 1);
      AddrMonotone(bs, j, n - 1);
    }
  }

  /** A new last chunk at the break. */
  function AppendMem(mem: map<nat, Chunk>, brk: nat, size: nat, last: nat): map<nat, Chunk>
    requires last != NULL ==> last in mem
  {
    var m1 := mem[brk := Chunk(size, false, NULL, last)];
    if last == NULL then m1 else m1[last := mem[last].(next := brk)]
  }

  lemma AppendRep(mem: map<nat, Chunk>, head: nat, brk: nat, bs: seq<Block>, size: nat)
    requires Represents(mem, head, brk, bs)
    ensures bs != [] ==> Addr(bs, |bs| - 1) in mem
    ensures var last := if bs == [] then NULL else Addr(bs, |bs| - 1);
            Represents(AppendMem(mem, brk, size, last), if bs == [] then brk else head, brk + HEADER + size,
                       bs + [Block(size, false)])
  {
    hide Addr, ChunkOf;
    var n, b := |bs|, Block(size, false);
    var cs := bs + [b];
    AppendChunk(bs, b, n);
    AddrNext(cs, n);
    if n > 0 {
      AppendChunk(bs, b, n - 1);
      ChunkInMemory(mem, head, brk, bs, n - 1);
    }
    FirstAddr(bs);
    var mem' := AppendMem(mem, brk, size, if bs == [] then NULL else Addr(bs, n - 1));
    forall j | 0 <= j < |cs|
      ensures Addr(cs, j) in mem' && mem'[Addr(cs, j)] == ChunkOf(cs, j)
    {
      AppendChunk(bs, b, j);
    }
  }

  // ----- what callers own

  /** Block `i` is in use, with its payload at `p` and `n` bytes long. */
  ghost predicate LiveAt(bs: seq<Block>, i: nat, p: nat, n: nat) {
    i < |bs| && !bs[i].free && p == Addr(bs, i) + HEADER && n == bs[i].size
  }

  ghost predicate IsLive(bs: seq<Block>, p: nat, n: nat) {
    exists i :: LiveAt(bs, i, p, n)
  }

  /** Live payloads never overlap, nor touch a header. */
  lemma LiveDisjoint(bs: seq<Block>, p: nat, n: nat, q: nat, m: nat)
    requires IsLive(bs, p, n) && IsLive(bs, q, m) && p <= q
    ensures (p == q && n == m) || p + n + HEADER <= q
  {
    var i: nat :| LiveAt(bs, i, p, n);
    var j: nat :| LiveAt(bs, j, q, m);
    if i < j {
      AddrMonotone(bs, i, j);
    } else if j < i {
      AddrMonotone(bs, j, i);
    }
  }

  /** Live payloads are aligned and lie inside the heap. */
  lemma LiveInside(bs: seq<Block>, p: nat, n: nat)
    requires Aligned(bs) && IsLive(bs, p, n)
    ensures p % ALIGN == 0 && BASE < p && p + n <= Addr(bs, |bs|)
  {
    var i: nat :| LiveAt(bs, i, p, n);
    AddrAligned(bs, i);
    AddrMonotone(bs, i, |bs|);
  }

  lemma SplitLiveBack(bs: seq<Block>, i: nat, w: nat, j: nat, p: nat, n: nat)
    requires i < |bs| && w + HEADER <= bs[i].size && LiveAt(Split(bs, i, w), j, p, n)
    ensures if !bs[i].free && p == Addr(bs, i) + HEADER then n == w else IsLive(bs, p, n)
  {
    hide Addr, Split;
    SplitChunk(bs, i, w, j);
    if j < i {
      AddrMonotone(bs, j, i);
      assert LiveAt(bs, j, p, n);
    } else if j > i {
      AddrMonotone(bs, i, j - 1);
      assert LiveAt(bs, j - 1, p, n);
    }
  }

  lemma SplitLiveForth(bs: seq<Block>, i: nat, w: nat, j: nat, p: nat, n: nat)
    requires i < |bs| && w + HEADER <= bs[i].size && LiveAt(bs, j, p, n)
    ensures IsLive(Split(bs, i, w), p, if j == i then w else n)
  {
    hide Addr, Split;
    SplitChunk(bs, i, w, j);
    SplitChunk(bs, i, w, j + 1);
    var cs := Split(bs, i, w);
    assert if j <= i then LiveAt(cs, j, p, if j == i then w else n) else LiveAt(cs, j + 1, p, n);
  }

  /** Splitting a free block changes nothing for callers; splitting a used one trims it. */
  lemma SplitLive(bs: seq<Block>, i: nat, w: nat, p: nat, n: nat)
    requires i < |bs| && w + HEADER <= bs[i].size
    ensures IsLive(Split(bs, i, w), p, n) <==>
            if !bs[i].free && p == Addr(bs, i) + HEADER then n == w else IsLive(bs, p, n)
  {
    hide Addr, Split;
    if IsLive(Split(bs, i, w), p, n) {
      var j: nat :| LiveAt(Split(bs, i, w), j, p, n);
      SplitLiveBack(bs, i, w, j, p, n);
    }
    if !bs[i].free && p == Addr(bs, i) + HEADER {
      assert LiveAt(bs, i, p, bs[i].size);
      SplitLiveForth(bs, i, w, i, p, bs[i].size);
    } else if IsLive(bs, p, n) {
      var j: nat :| LiveAt(bs, j, p, n);
      SplitLiveForth(bs, i, w, j, p, n);
    }
  }

  lemma JoinLive(bs: seq<Block>, i: nat, p: nat, n: nat)
    requires i + 1 < |bs| && bs[i].free && bs[i + 1].free
    ensures IsLive(Join(bs, i), p, n) <==> IsLive(bs, p, n)
  {
    var cs := Join(bs, i);
    if IsLive(cs, p, n) {
      var j: nat :| LiveAt(cs, j, p, n);
      AddrJoin(bs, i, j);
      assert if j < i then LiveAt(bs, j, p, n) else LiveAt(bs, j + 1, p, n);
    }
    if IsLive(bs, p, n) {
      var j: nat :| LiveAt(bs, j, p, n);
      AddrJoin(bs, i, j);
      if j > 0 {
        AddrJoin(bs, i, j - 1);
      }
      assert if j < i then LiveAt(cs, j, p, n) else LiveAt(cs, j - 1, p, n);
    }
  }

  lemma MarkLive(bs: seq<Block>, i: nat, free: bool, p: nat, n: nat)
    requires i < |bs| && bs[i].free != free
    ensures IsLive(Mark(bs, i, free), p, n) <==>
            if p == Addr(bs, i) + HEADER then !free && n == bs[i].size else IsLive(bs, p, n)
  {
    var cs := Mark(bs, i, free);
    if IsLive(cs, p, n) {
      var j: nat :| LiveAt(cs, j, p, n);
      MarkChunk(bs, i, free, j);
      assert j != i ==> LiveAt(bs, j, p, n);
    }
    if p == Addr(bs, i) + HEADER {
      MarkChunk(bs, i, free, i);
      if !free {
        assert LiveAt(cs, i, p, bs[i].size);
      }
    } else if IsLive(bs, p, n) {
      var j: nat :| LiveAt(bs, j, p, n);
      MarkChunk(bs, i, free, j);
      assert LiveAt(cs, j, p, n);
    }
  }

  lemma AppendLive(bs: seq<Block>, size: nat, p: nat, n: nat)
    ensures IsLive(bs + [Block(size, false)], p, n) <==> IsLive(bs, p, n) || (p == Addr(bs, |bs|) + HEADER && n == size)
  {
    var b := Block(size, false);
    var cs := bs + [b];
    if IsLive(cs, p, n) {
      var j: nat :| LiveAt(cs, j, p, n);
      AppendChunk(bs, b, j);
      assert j < |bs| ==> LiveAt(bs, j, p, n);
    }
    if IsLive(bs, p, n) {
      var j: nat :| LiveAt(bs, j, p, n);
      AppendChunk(bs, b, j);
      assert LiveAt(cs, j, p, n);
    }
    AppendChunk(bs, b, |bs|);
    assert LiveAt(cs, |bs|, Addr(bs, |bs|) + HEADER, size);
  }

  // ----- the allocator

  function RoundUp16(n: nat): (r: nat)
    ensures n <= r < n + ALIGN && r % ALIGN == 0
  {
    (n + 15) / 16 * 16
  }

  function RoundUpPage(n: nat): (r: nat)
    ensures n <= r < n + PAGE_SIZE && r % PAGE_SIZE == 0
  {
    (n + 4095) / 4096 * 4096
  }

  ghost predicate Fits(bs: seq<Block>, i: nat, w: nat) {
    i < |bs| && bs[i].free && bs[i].size >= w
  }

  /** Only blocks below `i` were looked at, and none of them fits. */
  ghost predicate NoneFitBefore(bs: seq<Block>, i: nat, w: nat) {
    forall k: nat :: k < i ==> !Fits(bs, k, w)
  }

  /** The blocks that callers own are those of `bs` and a new one of `n` bytes at `p`. */
  ghost predicate Gained(bs: seq<Block>, cs: seq<Block>, p: nat, n: nat) {
    && (forall m :: !IsLive(bs, p, m))
    && (forall q, m :: IsLive(cs, q, m) <==> IsLive(bs, q, m) || (q == p && m == n))
  }

  ghost predicate Lost(bs: seq<Block>, cs: seq<Block>, p: nat) {
    forall q, m :: IsLive(cs, q, m) <==> IsLive(bs, q, m) && q != p
  }

  /** Cut the chosen block if enough is left over for another one. */
  ghost function Trimmed(bs: seq<Block>, i: nat, w: nat): (cs: seq<Block>)
    requires i < |bs| && w <= bs[i].size
    ensures |cs| >= |bs|
  {
    if bs[i].size >= w + HEADER + MIN_SPLIT then Split(bs, i, w) else bs
  }

  lemma TrimmedFacts(bs: seq<Block>, i: nat, w: nat)
    requires i < |bs| && w <= bs[i].size && Aligned(bs) && w % ALIGN == 0
    ensures var cs := Trimmed(bs, i, w);
            && Aligned(cs) && cs[i].free == bs[i].free && w <= cs[i].size < w + HEADER + MIN_SPLIT
            && Addr(cs, i) == Addr(bs, i)
            && NoTwoFree(cs[..i + 1]) == NoTwoFree(bs[..i + 1])
  {
    var cs := Trimmed(bs, i, w);
    AddrPrefix(bs, cs, i);
    assert forall k :: 0 <= k < i ==> cs[k] == bs[k];
  }

  /** Using block `i`, cut to size: callers own it and everything they owned before. */
  lemma TakeGains(bs: seq<Block>, i: nat, w: nat)
    requires Fits(bs, i, w) && Aligned(bs) && NoTwoFree(bs) && w % ALIGN == 0
    ensures var cs := Mark(Trimmed(bs, i, w), i, false);
            && Aligned(cs) && NoTwoFree(cs)
            && cs[i].size >= w && Gained(bs, cs, Addr(bs, i) + HEADER, cs[i].size)
  {
    var ts := Trimmed(bs, i, w);
    var cs := Mark(ts, i, false);
    TrimmedFacts(bs, i, w);
    var p := Addr(bs, i) + HEADER;
    forall m
      ensures !IsLive(bs, p, m)
    {
      NotLive(bs, i, p, m);
    }
    forall q, m
      ensures IsLive(cs, q, m) <==> IsLive(bs, q, m) || (q == Addr(bs, i) + HEADER && m == cs[i].size)
    {
      MarkLive(ts, i, false, q, m);
      if ts != bs {
        SplitLive(bs, i, w, q, m);
      }
      if q == Addr(bs, i) + HEADER {
        NotLive(bs, i, q, m);
      }
    }
  }

  lemma NotLive(bs: seq<Block>, i: nat, p: nat, n: nat)
    requires i < |bs| && bs[i].free && p == Addr(bs, i) + HEADER
    ensures !IsLive(bs, p, n)
  {
    if IsLive(bs, p, n) {
      var j: nat :| LiveAt(bs, j, p, n);
      if j < i {
        AddrMonotone(bs, j, i);
      } else {
        AddrMonotone(bs, i, j);
      }
    }
  }

  /** Free block `i` and join it with the free blocks on either side. */
  ghost function Freed(bs: seq<Block>, i: nat): seq<Block>
    requires i < |bs|
  {
    var ms := Mark(bs, i, true);
    var js := if i + 1 < |ms| && ms[i + 1].free then Join(ms, i) else ms;
    if i > 0 && js[i - 1].free then Join(js, i - 1) else js
  }

  lemma FreeLoses(bs: seq<Block>, i: nat)
    requires i < |bs| && !bs[i].free && Aligned(bs) && NoTwoFree(bs)
    ensures Aligned(Freed(bs, i)) && NoTwoFree(Freed(bs, i)) && Lost(bs, Freed(bs, i), Addr(bs, i) + HEADER)
  {
    var ms := Mark(bs, i, true);
    var js := if i + 1 < |ms| && ms[i + 1].free then Join(ms, i) else ms;
    FreedShape(bs, i);
    forall q, m
      ensures IsLive(Freed(bs, i), q, m) <==> IsLive(bs, q, m) && q != Addr(bs, i) + HEADER
    {
      MarkLive(bs, i, true, q, m);
      if js != ms {
        JoinLive(ms, i, q, m);
      }
      if i > 0 && js[i - 1].free {
        JoinLive(js, i - 1, q, m);
      }
    }
  }

  lemma JoinBlocks(bs: seq<Block>, i: nat, k: nat)
    requires i + 1 < |bs| && k + 1 < |bs|
    ensures Join(bs, i)[k] == if k < i then bs[k]
                              else if k == i then Block(bs[i].size + HEADER + bs[i + 1].size, bs[i].free) else bs[k + 1]
  {
  }

  lemma JoinAligned(bs: seq<Block>, i: nat)
    requires i + 1 < |bs| && Aligned(bs)
    ensures Aligned(Join(bs, i))
  {
    forall k | 0 <= k < |Join(bs, i)|
      ensures Join(bs, i)[k].size % ALIGN == 0
    {
      JoinBlocks(bs, i, k);
    }
  }

  /** No two neighbours are free, except perhaps `i` and `i + 1`. */
  ghost predicate NoTwoFreeBut(bs: seq<Block>, i: int) {
    forall k :: 0 <= k < |bs| - 1 && k != i ==> !(bs[k].free && bs[k + 1].free)
  }

  lemma JoinNoTwoFree(bs: seq<Block>, i: nat, j: int)
    requires i + 1 < |bs| && bs[i].free && bs[i + 1].free && (j == i || j == i - 1)
    requires forall k :: 0 <= k < |bs| - 1 && k != i && k != j ==> !(bs[k].free && bs[k + 1].free)
    ensures NoTwoFreeBut(Join(bs, i), if j == i then -1 else j)
  {
    var cs := Join(bs, i);
    forall k | 0 <= k < |cs| - 1 && k != (if j == i then -1 else j)
      ensures !(cs[k].free && cs[k + 1].free)
    {
      JoinBlocks(bs, i, k);
      JoinBlocks(bs, i, k + 1);
    }
  }

  lemma FreedShape(bs: seq<Block>, i: nat)
    requires i < |bs| && !bs[i].free && Aligned(bs) && NoTwoFree(bs)
    ensures Aligned(Freed(bs, i)) && NoTwoFree(Freed(bs, i))
  {
    hide Join;
    var ms := Mark(bs, i, true);
    var js := if i + 1 < |ms| && ms[i + 1].free then Join(ms, i) else ms;
    if i + 1 < |ms| && ms[i + 1].free {
      JoinAligned(ms, i);
      JoinNoTwoFree(ms, i, i - 1);
      JoinBlocks(ms, i, i);
    }
    assert Aligned(js) && NoTwoFreeBut(js, i - 1) && js[i].free;
    if i > 0 && js[i - 1].free {
      JoinAligned(js, i - 1);
      JoinNoTwoFree(js, i - 1, i - 1);
    }
  }

  class Allocator {
    var mem: map<nat, Chunk>
    var head: nat
    var brk: nat
    ghost var blocks: seq<Block>

    ghost predicate Valid()
      reads this
    {
      Represents(mem, head, brk, blocks) && Aligned(blocks) && NoTwoFree(blocks)
    }

    constructor ()
      ensures Valid() && blocks == []
    {
      mem, head, brk, blocks := map[], NULL, BASE, [];
    }

    /** The first chunk on the list that is free and large enough, or NULL. */
    method FirstFit(w: nat) returns (c: nat, ghost i: nat)
      requires Valid()
      ensures NoneFitBefore(blocks, i, w) && i <= |blocks|
      ensures c == NULL ==> i == |blocks|
      ensures c == NULL <==> NoneFitBefore(blocks, |blocks|, w)
      ensures c != NULL ==> Fits(blocks, i, w) && c == Addr(blocks, i)
    {
      hide Addr, Aligned, NoTwoFree;
      FirstAddr(blocks);
      c, i := head, 0;
      while c != NULL
        invariant i <= |blocks| && NoneFitBefore(blocks, i, w)
        invariant c == if i < |blocks| then Addr(blocks, i) else NULL
        decreases |blocks| - i
      {
        assert c in mem && mem[c] == ChunkOf(blocks, i);
        if mem[c].free && mem[c].size >= w {
          assert Fits(blocks, i, w);
          return;
        }
        c, i := mem[c].next, i + 1;
      }
    }

    /** Cut chunk `c` if enough is left over. */
    method Trim(c: nat, w: nat, ghost i: nat)
      requires Represents(mem, head, brk, blocks) && i < |blocks| && c == Addr(blocks, i) && w <= blocks[i].size
      modifies this`mem, this`blocks
      ensures Represents(mem, head, brk, blocks) && blocks == Trimmed(old(blocks), i, w)
    {
      hide Addr, Split;
      assert c in mem && mem[c] == ChunkOf(blocks, i);
      if mem[c].size >= w + HEADER + MIN_SPLIT {
        SplitRep(mem, head, brk, blocks, i, w);
        mem, blocks := SplitMem(mem, c, w), Split(blocks, i, w);
      }
    }

    /** The last chunk on the list, or NULL. */
    method Tail() returns (c: nat)
      requires Valid()
      ensures c == if blocks == [] then NULL else Addr(blocks, |blocks| - 1)
    {
      hide Addr, Aligned, NoTwoFree;
      FirstAddr(blocks);
      c := head;
      if c != NULL {
        ghost var i := 0;
        assert Addr(blocks, 0) in mem && mem[c] == ChunkOf(blocks, 0);
        while mem[c].next != NULL
          invariant i < |blocks| && c == Addr(blocks, i) && c in mem && mem[c] == ChunkOf(blocks, i)
          decreases |blocks| - i
        {
          c, i := mem[c].next, i + 1;
          assert Addr(blocks, i) in mem && mem[c] == ChunkOf(blocks, i);
        }
      }
    }

    /** Use the free chunk `c`. */
    method TakeChunk(c: nat, w: nat, ghost i: nat) returns (p: nat)
      requires Valid() && Fits(blocks, i, w) && c == Addr(blocks, i) && w % ALIGN == 0
      modifies this`mem, this`blocks
      ensures Valid() && p == c + HEADER
      ensures exists n :: w <= n < w + HEADER + MIN_SPLIT && Gained(old(blocks), blocks, p, n)
    {
      hide Addr, Split, Gained, Aligned, NoTwoFree;
      TakeGains(blocks, i, w);
      TrimmedFacts(blocks, i, w);
      Trim(c, w, i);
      MarkRep(mem, head, brk, blocks, i, false);
      mem := mem[c := mem[c].(free := false)];
      blocks := Mark(blocks, i, false);
      assert Gained(old(blocks), blocks, c + HEADER, blocks[i].size);
      p := c + HEADER;
    }

    /** Use a new chunk of whole pages at the break, cut to size. */
    method GrowHeap(w: nat) returns (p: nat)
      requires Valid() && w % ALIGN == 0
      modifies this
      ensures Valid() && p == old(brk) + HEADER && brk == old(brk) + RoundUpPage(HEADER + w)
      ensures exists n :: w <= n < w + HEADER + MIN_SPLIT && Gained(old(blocks), blocks, p, n)
    {
      hide Addr, Split, Gained, Represents, RoundUpPage, Aligned, NoTwoFree, Trimmed;
      var request := RoundUpPage(HEADER + w);
      ghost var i := |blocks|;
      PageMinusHeader(request);
      GrowGains(blocks, request - HEADER, w);
      var c := Append(request);
      TrimmedFacts(blocks, i, w);
      Trim(c, w, i);
      p := c + HEADER;
      assert blocks[i].size >= w && Gained(old(blocks), blocks, p, blocks[i].size);
    }

    /** Put a chunk of `request` bytes, header included, at the break. */
    method Append(request: nat) returns (c: nat)
      requires Valid() && request >= HEADER
      modifies this
      ensures Represents(mem, head, brk, blocks) && blocks == old(blocks) + [Block(request - HEADER, false)]
      ensures c == old(brk) && c == Addr(old(blocks), |old(blocks)|) == Addr(blocks, |old(blocks)|)
      ensures brk == old(brk) + request
    {
      hide Addr, Aligned, NoTwoFree;
      c := brk;
      var last := Tail();
      AppendRep(mem, head, brk, blocks, request - HEADER);
      AppendChunk(blocks, Block(request - HEADER, false), |blocks|);
      mem := AppendMem(mem, c, request - HEADER, last);
      if head == NULL {
        head := c;
      }
      brk := brk + request;
      blocks := blocks + [Block(request - HEADER, false)];
    }

    /** Give a block back. */
    method Kfree(p: nat)
      requires Valid() && (p != NULL ==> exists n :: IsLive(blocks, p, n))
      modifies this`mem, this`blocks
      ensures Valid() && (p == NULL ==> blocks == old(blocks)) && (p != NULL ==> Lost(old(blocks), blocks, p))
    {
      hide Addr, Join, Lost, Aligned, NoTwoFree, Represents;
      if p == NULL {
        return;
      }
      ghost var n :| IsLive(blocks, p, n);
      ghost var i: nat :| LiveAt(blocks, i, p, n);
      var c := p - HEADER;
      FreeLoses(blocks, i);
      MarkRep(mem, head, brk, blocks, i, true);
      ChunkInMemory(mem, head, brk, blocks, i);
      MarkChunk(blocks, i, true, i);
      // the kernel panics here if the chunk is already free; it is not
      assert !mem[c].free;
      mem := mem[c := mem[c].(free := true)];
      blocks := Mark(blocks, i, true);
      JoinNext(c, i);
      JoinPrev(c, i);
      assert blocks == Freed(old(blocks), i);
    }

    /** Join a chunk with the one before it if that is free. */
    method JoinPrev(c: nat, ghost i: nat)
      requires Represents(mem, head, brk, blocks) && i < |blocks| && c == Addr(blocks, i)
      modifies this`mem, this`blocks
      ensures Represents(mem, head, brk, blocks)
      ensures blocks == if i > 0 && old(blocks)[i - 1].free then Join(old(blocks), i - 1) else old(blocks)
    {
      hide Addr, Join;
      assert c in mem && mem[c] == ChunkOf(blocks, i);
      if mem[c].prev != NULL {
        assert Addr(blocks, i - 1) in mem && mem[mem[c].prev] == ChunkOf(blocks, i - 1);
        if mem[mem[c].prev].free {
          JoinRep(mem, head, brk, blocks, i - 1);
          mem, blocks := JoinMem(mem, mem[c].prev), Join(blocks, i - 1);
        }
      }
    }

    /** Join a chunk with the next one if that is free. */
    method JoinNext(c: nat, ghost i: nat)
      requires Represents(mem, head, brk, blocks) && i < |blocks| && c == Addr(blocks, i)
      modifies this`mem, this`blocks
      ensures Represents(mem, head, brk, blocks) && i < |blocks| && c == Addr(blocks, i)
      ensures blocks == if i + 1 < |old(blocks)| && old(blocks)[i + 1].free then Join(old(blocks), i) else old(blocks)
    {
      hide Addr, Join;
      assert c in mem && mem[c] == ChunkOf(blocks, i);
      if mem[c].next != NULL {
        assert Addr(blocks, i + 1) in mem && mem[mem[c].next] == ChunkOf(blocks, i + 1);
        if mem[mem[c].next].free {
          AddrJoin(blocks, i, i);
          JoinRep(mem, head, brk, blocks, i);
          mem, blocks := JoinMem(mem, c), Join(blocks, i);
        }
      }
    }
  }

  /** The new chunk, cut to size, is all that callers gain. */
  lemma GrowGains(bs: seq<Block>, size: nat, w: nat)
    requires Aligned(bs) && NoTwoFree(bs) && w <= size && size % ALIGN == 0 && w % ALIGN == 0
    ensures var gs := bs + [Block(size, false)];
            var cs := Trimmed(gs, |bs|, w);
            && Aligned(gs) && Aligned(cs) && NoTwoFree(cs)
            && cs[|bs|].size >= w && Gained(bs, cs, Addr(bs, |bs|) + HEADER, cs[|bs|].size)
  {
    hide Addr, Split, Trimmed, IsLive, Aligned, NoTwoFree;
    var gs, i := bs + [Block(size, false)], |bs|;
    var cs := Trimmed(gs, i, w);
    GrowShape(bs, size, w);
    AppendChunk(bs, Block(size, false), i);
    var p := Addr(bs, i) + HEADER;
    forall m
      ensures !IsLive(bs, p, m)
    {
      NotLiveAtEnd(bs, p, m);
    }
    forall q, m
      ensures IsLive(cs, q, m) <==> IsLive(bs, q, m) || (q == p && m == cs[i].size)
    {
      AppendLive(bs, size, q, m);
      if cs != gs {
        SplitLive(gs, i, w, q, m);
      }
    }
  }

  lemma GrowShape(bs: seq<Block>, size: nat, w: nat)
    requires Aligned(bs) && NoTwoFree(bs) && w <= size && size % ALIGN == 0 && w % ALIGN == 0
    ensures var gs := bs + [Block(size, false)];
            var cs := Trimmed(gs, |bs|, w);
            && Aligned(gs) && Aligned(cs) && NoTwoFree(cs) && cs[|bs|].size >= w
            && (cs == gs ==> cs[|bs|].size == size)
            && (cs != gs ==> size >= w + HEADER && cs == Split(gs, |bs|, w) && cs[|bs|].size == w)
  {
    hide Addr;
    TrimmedFacts(bs + [Block(size, false)], |bs|, w);
  }

  lemma PageMinusHeader(n: nat)
    requires n >= HEADER && n % PAGE_SIZE == 0
    ensures (n - HEADER) % ALIGN == 0
  {
  }

  lemma NotLiveAtEnd(bs: seq<Block>, p: nat, n: nat)
    requires p == Addr(bs, |bs|) + HEADER
    ensures !IsLive(bs, p, n)
  {
    if IsLive(bs, p, n) {
      var j: nat :| LiveAt(bs, j, p, n);
      AddrMonotone(bs, j, |bs|);
    }
  }
}
