/**
  The chain of authority from physical memory to a mapped page: deriving smaller
  memory objects, making a mappable object from one, and mapping it, each behind
  a capability of the calling address space.
 */
module Authority {
  import opened Basics
  import opened Frames
  import opened PageTree
  import opened AddressSpaces
  import opened KernelHeap
  import opened KernelMemory
  import opened AddressRanges
  import opened VmoMaps
  import opened VmoRights
  import opened VmoLayer
  import Pmem
  import Capabilities

  const MAP_RIGHT: nat := 10
  const READ_RIGHT: nat := 11
  const WRITE_RIGHT: nat := 12
  const EXEC_RIGHT: nat := 13
  const DERIVE_RIGHT: nat := 14

  const GENERIC: set<nat> := {0, 1, 2, 3, 4, 5, 6}

  /** The capability rights that stand for the rights of a memory object. */
  function RightsFor(r: Rights): set<nat> {
    (if r.map_ then {MAP_RIGHT} else {}) + (if r.read then {READ_RIGHT} else {})
    + (if r.write then {WRITE_RIGHT} else {}) + (if r.exec then {EXEC_RIGHT} else {})
  }

  /** The four rights of an object are the rights 10 to 13 of its capability. */
  lemma RightsForIff(r: Rights)
    ensures RightsFor(r) <= {10, 11, 12, 13}
    ensures (10 in RightsFor(r) <==> r.map_) && (11 in RightsFor(r) <==> r.read)
    ensures (12 in RightsFor(r) <==> r.write) && (13 in RightsFor(r) <==> r.exec)
  {
  }

  // ----- what the capabilities say about each other

  ghost predicate Inside(i: Pmem.Info, o: Pmem.Info) {
    o.base <= i.base && i.base + i.length <= o.base + o.length
  }

  /** Capability `c` was derived from `s`: fewer rights, a smaller range. */
  ghost predicate Shrinks(born: map<nat, Capabilities.Cap>, info: map<nat, Pmem.Info>, c: nat, s: nat) {
    && c in born && s in born && s < c && born[c].kind == Capabilities.Memory && born[s].kind == Capabilities.Memory
    && born[c].rights <= born[s].rights
    && born[c].obj in info && born[s].obj in info && Inside(info[born[c].obj], info[born[s].obj])
  }

  ghost predicate AllShrink(born: map<nat, Capabilities.Cap>, info: map<nat, Pmem.Info>, derived: map<nat, nat>) {
    forall c :: c in derived ==> Shrinks(born, info, c, derived[c])
  }

  /** `c` comes from `s` by any number of derivations. */
  ghost predicate From(derived: map<nat, nat>, c: nat, s: nat)
    decreases c
  {
    c == s || (c in derived && derived[c] < c && From(derived, derived[c], s))
  }

  /** Along any chain of derivations rights and byte ranges only shrink. */
  lemma {:induction false} ChainShrinks(born: map<nat, Capabilities.Cap>, info: map<nat, Pmem.Info>,
                                        derived: map<nat, nat>, c: nat, s: nat)
    requires AllShrink(born, info, derived) && From(derived, c, s) && c in born && born[c].obj in info
    ensures s in born && born[s].obj in info && born[c].rights <= born[s].rights && born[c].kind == born[s].kind
    ensures Inside(info[born[c].obj], info[born[s].obj])
    decreases c
  {
    if c != s {
      assert Shrinks(born, info, c, derived[c]);
      ChainShrinks(born, info, derived, derived[c], s);
    }
  }

  /** Object `v` was made under the memory capability `p`, which covers all its rights. */
  ghost predicate MadeUnder(born: map<nat, Capabilities.Cap>, known: map<nat, Vmo>, v: nat, p: nat) {
    && v in known && p in born && born[p].kind == Capabilities.Memory && born[p].obj == known[v].pmem
    && RightsFor(known[v].rights) <= born[p].rights
  }

  ghost predicate AllMade(born: map<nat, Capabilities.Cap>, known: map<nat, Vmo>, maker: map<nat, nat>) {
    forall v :: v in maker ==> MadeUnder(born, known, v, maker[v])
  }

  /** Every page of the mapping begins inside this range. */
  ghost predicate Covers(i: Pmem.Info, pa: nat) {
    i.base <= pa < i.base + i.length
  }

  /**
    A page mapped from an object made under a memory capability: that capability,
    and every capability it was derived from, has the rights to map and to read,
    to write if the page is writable and to execute if it is executable, and the
    page begins inside its memory.
   */
  lemma PageHasAuthority(m: map<Pos, Leaf>, a: nat, entries: seq<Record>, known: map<nat, Vmo>, info: map<nat,
                         Pmem.Info>,
                         born: map<nat, Capabilities.Cap>, derived: map<nat, nat>, maker: map<nat, nat>, k: Pos, s: nat)
    requires Agree(m, a, entries, known, info) && AllShrink(born, info, derived) && AllMade(born, known, maker)
    requires k in m && SpaceOf(k) == a
    ensures exists j, i: nat ::
              && 0 <= j < |entries| && i < PageCount(entries[j].length) && k == Key(a, PageAt(entries[j].va, i))
              && (entries[j].vmo in maker && From(derived, maker[entries[j].vmo], s) ==>
                    && s in born && born[s].obj in info && {MAP_RIGHT, READ_RIGHT} <= born[s].rights
                    && (m[k].writable ==> WRITE_RIGHT in born[s].rights)
                    && (!m[k].nx ==> EXEC_RIGHT in born[s].rights)
                    && m[k].frame * PAGE_SIZE == PageAt(Backing(entries[j], known, info), i)
                    && Covers(info[born[s].obj], m[k].frame * PAGE_SIZE))
  {
    hide Key, RangeOk, Agree;
    PageIsRecorded(m, a, entries, known, info, k);
    var j, i: nat :| 0 <= j < |entries| && i < PageCount(entries[j].length) && k == Key(a, PageAt(entries[j].va, i))
                     && PageBehind(m[k], entries[j], i, known, info);
    var e := entries[j];
    if e.vmo in maker && From(derived, maker[e.vmo], s) {
      ProperAt(m, a, entries, known, info, j);
      assert MadeUnder(born, known, e.vmo, maker[e.vmo]);
      ChainShrinks(born, info, derived, maker[e.vmo], s);
      PageInside(e, known, info, i);
    }
  }

  lemma ProperAt(m: map<Pos, Leaf>, a: nat, entries: seq<Record>, known: map<nat, Vmo>, info: map<nat, Pmem.Info>,
                 j: nat)
    requires Agree(m, a, entries, known, info) && j < |entries|
    ensures Proper(a, entries[j], known, info)
  {
  }

  lemma PageInside(e: Record, known: map<nat, Vmo>, info: map<nat, Pmem.Info>, i: nat)
    requires e.vmo in known && known[e.vmo].pmem in info && i < PageCount(e.length)
    requires e.offset + e.length <= info[known[e.vmo].pmem].length && Backing(e, known, info) % PAGE_SIZE == 0
    ensures (Backing(e, known, info) / PAGE_SIZE + i) * PAGE_SIZE == PageAt(Backing(e, known, info), i)
    ensures Covers(info[known[e.vmo].pmem], PageAt(Backing(e, known, info), i))
  {
  }

  // ----- the calls

  /** One calling address space, its capability set and the memory it can map. */
  class Kernel {
    const caps: Capabilities.Table
    const layer: Layer
    /** The capability set of the calling address space. */
    const set_: nat
    /** For each derived memory capability, the one it was derived from. */
    ghost var derived: map<nat, nat>
    /** For each object made from memory, the capability that allowed it. */
    ghost var maker: map<nat, nat>

    ghost predicate Valid()
      reads this, caps, layer, layer.mem, layer.mem.heap.pages, layer.mem.heap.chunks, layer.mem.heap.pages.sp
      reads layer.mem.heap.pages.sp.frames.Repr(), layer.pmem
    {
      && this !in layer.mem.Sp().frames.Repr() && caps !in layer.mem.Sp().frames.Repr()
      && layer !in layer.mem.Sp().frames.Repr()
      && caps.Valid() && layer.Valid()
      && AllShrink(caps.born, layer.pmem.history, derived) && AllMade(caps.born, layer.known, maker)
    }

    constructor (caps: Capabilities.Table, layer: Layer, set_: nat)
      requires caps.Valid() && layer.Valid() && caps !in layer.mem.Sp().frames.Repr()
      ensures Valid() && this.caps == caps && this.layer == layer && this.set_ == set_
    {
      hide Capabilities.Table.Valid, Memory.Valid, Memory.Now, Pmem.Registry.Valid, Kept;
      this.caps, this.layer, this.set_ := caps, layer, set_;
      derived, maker := map[], map[];
    }

    /** The memory registry as it was before a call that failed. */
    ghost predicate SameObjects(caps0: map<nat, Capabilities.Cap>, sets0: map<nat, seq<nat>>, registered0: set<nat>)
      reads this, caps, layer, layer.pmem
    {
      caps.caps == caps0 && caps.sets == sets0 && layer.pmem.registered == registered0
    }

    /** Capability `c` is for the given part of the object behind `source`, with these rights. */
    ghost predicate PartOf(c: nat, source: nat, offset: nat, length: nat, rights: set<nat>)
      reads this, caps, layer, layer.pmem
    {
      && c in caps.caps && caps.caps[c].kind == Capabilities.Memory && caps.caps[c].rights == rights
      && caps.caps[c].obj in layer.pmem.registered && caps.caps[c].obj in layer.pmem.history
      && source in caps.born && caps.born[source].obj in layer.pmem.history
      && var p := caps.born[source].obj;
         layer.pmem.history[caps.caps[c].obj] == Pmem.Info(layer.pmem.history[p].base + offset, length, false, [p])
    }

    /** The registry can take another child of `p` with this range. */
    ghost predicate Derivable(p: nat, part: Pmem.Info)
      reads layer.pmem
    {
      && layer.pmem.next != Pmem.MAX && p in layer.pmem.registered && p in layer.pmem.recs
      && layer.pmem.recs[p].refs != Pmem.MAX
      && layer.pmem.recs[p].info.base + layer.pmem.recs[p].info.length <= Pmem.MAX
      && Inside(part, layer.pmem.recs[p].info)
    }

    /** The caller may derive this part of the object behind `source`, with these rights. */
    ghost predicate MayDerive(source: nat, offset: nat, length: nat, rights: set<nat>)
      reads this, caps, layer, layer.pmem
    {
      && Capabilities.RightsOk(Capabilities.Memory,
                               rights) && length > 0 && offset % PAGE_SIZE == 0 && length % PAGE_SIZE == 0
      && set_ in caps.sets && source in caps.sets[set_] && source in caps.caps
      && var c := caps.caps[source];
         && c.kind == Capabilities.Memory && DERIVE_RIGHT in c.rights && rights <= c.rights && c.obj in layer.pmem.recs
         && var i := layer.pmem.recs[c.obj].info;
            && i.base + offset <= MAX_HANDLE && (i.base + offset) % PAGE_SIZE == 0
            && Derivable(c.obj, Pmem.Info(i.base + offset, length, false, [c.obj]))
    }

    /**
      A new memory object for part of another, with a capability for it in the
      caller's set. Success needs a capability with the right to derive and all the
      rights asked for, and a page-aligned part inside its object; failure takes
      back everything.
     */
    method DerivePmem(source: nat, offset: nat, length: nat, rights: set<nat>, nodeOk: bool, capOk: bool, entryOk: bool)
      returns (c: Option<nat>)
      requires Valid() && caps.next < Capabilities.MAX_HANDLE
      modifies this`derived, caps, layer.pmem
      ensures Valid() && Capabilities.Evolves(old(caps.S()), caps.S())
      ensures c.None? ==> SameObjects(old(caps.caps), old(caps.sets), old(layer.pmem.registered))
      ensures c.None? ==> derived == old(derived)
      ensures c.Some? <==> nodeOk && capOk && entryOk && old(MayDerive(source, offset, length, rights))
      ensures c.Some? ==> derived == old(derived)[c.value := source] && PartOf(c.value, source, offset, length, rights)
      ensures c.Some? ==> set_ in old(caps.sets)
      ensures c.Some? ==> caps.sets == old(caps.sets)[set_ := old(caps.sets)[set_] + [c.value]]
    {
      hide Memory.Valid, Memory.Now, Pmem.Registry.Valid, Kept, Capabilities.RightsOk, Capabilities.Evolves;
      hide Capabilities.Table.Valid;
      hide AllShrink, AllMade, Derivable, MayDerive;
      Capabilities.EvolvesSelf(caps.S());
      var part := FindPart(source, offset, length, rights);
      if part.None? {
        return None;
      }
      caps.BornBelow(source);
      MayDeriveIf(source, offset, length, rights, part.value);
      c := Issue(source, part.value.parents[0], part.value, rights, nodeOk, capOk, entryOk);
      BornGrows(old(caps.S()), caps.S());
    }

    /** What the caller asks for, if its capability and the object allow it. */
    ghost predicate Wanted(source: nat, offset: nat, length: nat, rights: set<nat>, part: Pmem.Info)
      reads this, caps, layer, layer.pmem
    {
      && Capabilities.RightsOk(Capabilities.Memory,
                               rights) && length > 0 && offset % PAGE_SIZE == 0 && length % PAGE_SIZE == 0
      && set_ in caps.sets && source in caps.sets[set_] && source in caps.caps && source in caps.born
      && caps.born[source] == caps.caps[source]
      && var c := caps.caps[source];
         && c.kind == Capabilities.Memory && DERIVE_RIGHT in c.rights && rights <= c.rights
         && c.obj in layer.pmem.registered && c.obj in layer.pmem.recs && c.obj in layer.pmem.history
         && layer.pmem.recs[c.obj].info == layer.pmem.history[c.obj]
         && part == Pmem.Info(layer.pmem.recs[c.obj].info.base + offset, length, false, [c.obj])
         && part.base <= MAX_HANDLE && part.base % PAGE_SIZE == 0 && Inside(part, layer.pmem.recs[c.obj].info)
    }

    lemma MayDeriveIf(source: nat, offset: nat, length: nat, rights: set<nat>, part: Pmem.Info)
      requires Wanted(source, offset, length, rights, part)
      ensures |part.parents| == 1 && (MayDerive(source, offset, length, rights) <==> Derivable(part.parents[0], part))
    {
      hide Capabilities.RightsOk;
    }

    /** The checks of the call, before anything is made. */
    method FindPart(source: nat, offset: nat, length: nat, rights: set<nat>) returns (part: Option<Pmem.Info>)
      requires Valid()
      ensures part.Some? ==> Wanted(source, offset, length, rights, part.value)
      ensures part.None? ==> !MayDerive(source, offset, length, rights)
    {
      hide Memory.Valid, Memory.Now, Pmem.Registry.Valid, Kept, Capabilities.RightsOk, Capabilities.Table.Valid;
      hide AllShrink, AllMade;
      if !Capabilities.RightsOk(Capabilities.Memory,
                                rights) || length == 0 || offset % PAGE_SIZE != 0 || length % PAGE_SIZE != 0 {
        return None;
      }
      var found := caps.ResolveRecord(set_, source, {DERIVE_RIGHT});
      if found.None? || found.value.kind != Capabilities.Memory || !(rights <= found.value.rights) {
        return None;
      }
      var p := found.value.obj;
      if p !in layer.pmem.registered {
        return None;
      }
      layer.Resolve(p);
      var info := layer.pmem.recs[p].info;
      if offset > info.length || length > info.length - offset || offset > MAX_HANDLE - info.base
         || (info.base + offset) % PAGE_SIZE != 0 {
        return None;
      }
      part := Some(Pmem.Info(info.base + offset, length, false, [p]));
    }

    /** Registers the part and gives out its capability, or does neither. */
    method Issue(ghost source: nat, p: nat, part: Pmem.Info, rights: set<nat>, nodeOk: bool, capOk: bool, entryOk: bool)
      returns (c: Option<nat>)
      requires Valid() && caps.next < Capabilities.MAX_HANDLE && part == Pmem.Info(part.base, part.length, false, [p])
      requires source in caps.born && source < caps.next && caps.born[source].kind == Capabilities.Memory
      requires caps.born[source].obj == p
      requires rights <= caps.born[source].rights
      modifies this`derived, caps, layer.pmem
      ensures Valid() && Capabilities.Evolves(old(caps.S()), caps.S())
      ensures c.None? ==> SameObjects(old(caps.caps), old(caps.sets), old(layer.pmem.registered))
      ensures c.None? ==> derived == old(derived)
      ensures c.Some? ==> set_ in old(caps.sets)
      ensures c.Some? ==> caps.sets == old(caps.sets)[set_ := old(caps.sets)[set_] + [c.value]]
      ensures c.Some? <==> nodeOk && capOk && entryOk && set_ in old(caps.sets)
                           && Capabilities.RightsOk(Capabilities.Memory, rights)
                           && old(Derivable(p, part))
      ensures c.Some? ==> c.value in caps.caps && caps.caps[c.value].kind == Capabilities.Memory
      ensures c.Some? ==> caps.caps[c.value].rights == rights
      ensures c.Some? ==> derived == old(derived)[c.value := source]
      ensures c.Some? ==> caps.caps[c.value].obj in layer.pmem.registered
      ensures c.Some? ==> caps.caps[c.value].obj in layer.pmem.history
      ensures c.Some? ==> layer.pmem.history[caps.caps[c.value].obj] == part
      ensures forall q :: q in old(layer.pmem.history) ==>
        q in layer.pmem.history && layer.pmem.history[q] == old(layer.pmem.history)[q]
    {
      hide Capabilities.RightsOk, Capabilities.Evolves, Valid, Derivable;
      Capabilities.EvolvesSelf(caps.S());
      var d := Register(p, part, nodeOk);
      if d.None? {
        return None;
      }
      c := GiveOut(d.value, Capabilities.Memory, rights, capOk, entryOk);
      BornGrows(old(caps.S()), caps.S());
      if c.None? {
        Withdraw(d.value);
        assert layer.pmem.registered == old(layer.pmem.registered);
        return;
      }
      Link(c.value, source);
    }

    method Register(p: nat, part: Pmem.Info, nodeOk: bool) returns (d: Option<nat>)
      requires Valid() && part == Pmem.Info(part.base, part.length, false, [p])
      modifies layer.pmem
      ensures Valid()
      ensures d.Some? <==> nodeOk && old(Derivable(p, part))
      ensures d.Some? ==> p in old(layer.pmem.history) && d.value !in old(layer.pmem.registered)
      ensures d.Some? ==> d.value !in old(layer.pmem.history)
      ensures d.Some? ==> layer.pmem.history == old(layer.pmem.history)[d.value := part]
      ensures d.Some? ==> Inside(part, old(layer.pmem.history)[p])
      ensures d.Some? ==> layer.pmem.registered == old(layer.pmem.registered) + {d.value}
      ensures d.None? ==> layer.pmem.registered == old(layer.pmem.registered)
      ensures d.None? ==> layer.pmem.history == old(layer.pmem.history)
    {
      hide Memory.Valid, Memory.Now, Pmem.Registry.Valid, Kept, Capabilities.Table.Valid, AllShrink, AllMade;
      ghost var history := layer.pmem.history;
      RegisteredKnown();
      d := layer.pmem.Derive(p, part.base, part.length, nodeOk);
      KeptGrows(layer.mem.Now(), layer.a, layer.entries, layer.nodes, layer.known, history, layer.known,
                layer.pmem.history);
      RecordsGrow(caps.born, caps.born, history, layer.pmem.history, layer.known, derived, maker);
    }

    lemma RegisteredKnown()
      requires layer.pmem.Valid()
      ensures layer.pmem.registered <= layer.pmem.history.Keys
    {
    }

    method Withdraw(d: nat)
      requires Valid()
      modifies layer.pmem
      ensures Valid() && layer.pmem.registered == old(layer.pmem.registered) - {d}
      ensures layer.pmem.history == old(layer.pmem.history)
    {
      hide Memory.Valid, Memory.Now, Pmem.Registry.Valid, Kept, Capabilities.Table.Valid, AllShrink, AllMade;
      hide Pmem.Wanted;
      var _, _, _ := layer.pmem.Destroy(d);
    }

    /** A capability for an object in the caller's set. */
    method GiveOut(obj: nat, kind: Capabilities.Kind, rights: set<nat>, capOk: bool,
                   entryOk: bool) returns (c: Option<nat>)
      requires Valid() && caps.next < Capabilities.MAX_HANDLE
      modifies caps
      ensures Valid() && Capabilities.Evolves(old(caps.S()), caps.S())
      ensures c.Some? <==> Capabilities.RightsOk(kind, rights) && capOk && entryOk && set_ in old(caps.sets)
      ensures c.Some? ==> c.value == old(caps.next) && c.value in caps.born
      ensures c.Some? ==> caps.born[c.value] == Capabilities.Cap(kind, obj, rights)
      ensures c.Some? ==> caps.caps == old(caps.caps)[c.value := Capabilities.Cap(kind, obj, rights)]
      ensures c.Some? ==> caps.sets == old(caps.sets)[set_ := old(caps.sets)[set_] + [c.value]]
      ensures c.None? ==> caps.caps == old(caps.caps) && caps.sets == old(caps.sets)
    {
      hide Memory.Valid, Memory.Now, Pmem.Registry.Valid, Kept, Capabilities.Table.Valid, AllShrink, AllMade;
      hide Capabilities.RightsOk, Capabilities.Evolves;
      c := caps.CreateInSet(set_, obj, kind, rights, capOk, entryOk);
      BornGrows(old(caps.S()), caps.S());
      RecordsGrow(old(caps.born), caps.born, layer.pmem.history, layer.pmem.history, layer.known, derived, maker);
    }

    ghost method Link(c: nat, s: nat)
      requires Valid() && Shrinks(caps.born, layer.pmem.history, c, s)
      modifies this`derived
      ensures Valid() && derived == old(derived)[c := s]
    {
      hide Memory.Valid, Memory.Now, Pmem.Registry.Valid, Kept, Capabilities.Table.Valid, AllShrink, AllMade;
      DerivedNext(caps.born, layer.pmem.history, derived, c, s);
      derived := derived[c := s];
    }

    /**
      A mappable object over the memory of a capability. Success needs a capability
      of the caller with every right the object is to have, and the right to map
      and to read must be among them.
     */
    method NewVmo(pmemCap: nat, rights: Rights, memoryOk: bool, capOk: bool, entryOk: bool) returns (c: Option<nat>)
      requires Valid() && caps.next < Capabilities.MAX_HANDLE && layer.nextVmo < MAX_HANDLE
      modifies this`maker, caps, layer`vmos, layer`nextVmo, layer`known
      ensures Valid() && Capabilities.Evolves(old(caps.S()), caps.S())
      ensures c.None? ==> caps.caps == old(caps.caps) && caps.sets == old(caps.sets) && layer.vmos == old(layer.vmos)
      ensures c.Some? <==> (
                && rights.map_ && rights.read && memoryOk && capOk && entryOk
                && set_ in old(caps.sets) && pmemCap in old(caps.sets)[set_] && pmemCap in old(caps.caps)
                && old(caps.caps)[pmemCap].kind == Capabilities.Memory
                && RightsFor(rights) <= old(caps.caps)[pmemCap].rights)
      ensures c.Some? ==> (
                var v := old(layer.nextVmo);
                && layer.vmos == old(layer.vmos)[v := Vmo(old(caps.caps)[pmemCap].obj, rights)]
                && maker == old(maker)[v := pmemCap] && c.value in caps.caps
                && caps.caps[c.value] == Capabilities.Cap(Capabilities.Vmo, v, GENERIC + RightsFor(rights)))
    {
      hide Capabilities.RightsOk, Capabilities.Evolves, Capabilities.Table.Valid, Layer.Valid, AllShrink, AllMade;
      hide RightsFor;
      Capabilities.EvolvesSelf(caps.S());
      if !rights.map_ || !rights.read {
        return None;
      }
      var p := caps.ResolveHandle(set_, pmemCap, Capabilities.Memory, RightsFor(rights));
      if p.None? {
        return None;
      }
      VmoRightsOk(rights);
      var v := Make(p.value, rights, pmemCap, memoryOk);
      if v.None? {
        return None;
      }
      c := GiveOut(v.value, Capabilities.Vmo, GENERIC + RightsFor(rights), capOk, entryOk);
      if c.None? {
        Unmake(v.value);
        assert layer.vmos == old(layer.vmos);
      }
    }

    method Make(p: nat, rights: Rights, ghost pmemCap: nat, memoryOk: bool) returns (v: Option<nat>)
      requires Valid() && layer.nextVmo < MAX_HANDLE
      requires pmemCap in caps.born && caps.born[pmemCap].kind == Capabilities.Memory && caps.born[pmemCap].obj == p
      requires RightsFor(rights) <= caps.born[pmemCap].rights
      modifies this`maker, layer`vmos, layer`nextVmo, layer`known
      ensures Valid() && (v.Some? <==> memoryOk)
      ensures v.Some? ==> v.value == old(layer.nextVmo) && v.value !in old(layer.vmos)
      ensures v.Some? ==> layer.vmos == old(layer.vmos)[v.value := Vmo(p, rights)]
      ensures v.Some? ==> maker == old(maker)[v.value := pmemCap]
      ensures v.None? ==> layer.vmos == old(layer.vmos) && maker == old(maker)
    {
      hide Memory.Valid, Memory.Now, Pmem.Registry.Valid, Kept, Capabilities.Table.Valid, AllShrink, AllMade, RightsFor;
      ghost var known := layer.known;
      v := layer.Create(p, rights, false, memoryOk);
      if v.Some? {
        MadeNext(caps.born, known, layer.known, maker, v.value, pmemCap);
        maker := maker[v.value := pmemCap];
      }
    }

    method Unmake(v: nat)
      requires Valid()
      modifies layer`vmos
      ensures Valid() && layer.vmos == old(layer.vmos) - {v}
    {
      hide Memory.Valid, Memory.Now, Pmem.Registry.Valid, Kept, Capabilities.Table.Valid, AllShrink, AllMade;
      var _ := layer.Destroy(v);
    }

    /** The caller holds the capability with the rights that the mapping needs, and the object allows it. */
    ghost predicate MayMap(vmoCap: nat, va: nat, offset: nat, length: nat, rights: Rights)
      reads this, caps, layer, layer.mem.heap.pages.sp, layer.pmem
    {
      && va != 0 && vmoCap != Capabilities.MAX_HANDLE
      && set_ in caps.sets && vmoCap in caps.sets[set_] && vmoCap in caps.caps
      && caps.caps[vmoCap].kind == Capabilities.Vmo
      && {MAP_RIGHT} + RightsFor(rights) <= caps.caps[vmoCap].rights
      && layer.Acceptable(caps.caps[vmoCap].obj, va, offset, length, rights)
    }

    /** Maps an object of which the caller holds a capability with the rights asked for. */
    method MapVmo(vmoCap: nat, va: nat, offset: nat, length: nat, rights: Rights) returns (ok: bool)
      requires Valid() && va < WORD_LIMIT
      requires vmoCap in caps.caps ==> layer.Held(caps.caps[vmoCap].obj, va, offset, length)
      modifies layer`entries, layer`nodes, layer.mem, layer.mem.heap.pages, layer.mem.heap.chunks
      modifies layer.mem.Sp()`tables, layer.mem.Sp()`at, layer.mem.Sp()`pos, layer.mem.Sp()`model, layer.mem.Sp()`ext
      modifies layer.mem.Sp().frames.Repr()
      ensures Valid()
      ensures ok ==> old(MayMap(vmoCap, va, offset, length, rights))
      ensures ok ==> vmoCap in caps.caps
      ensures ok ==> layer.entries == old(layer.entries) + [Record(va, length, caps.caps[vmoCap].obj, offset, rights)]
      ensures ok ==> Referenced(old(layer.mem.Now()).refs, layer.mem.Now().refs,
                                layer.FrameOf(caps.caps[vmoCap].obj, offset), PageCount(length))
      ensures GrownElsewhere(old(layer.mem.Sp().model), layer.mem.Sp().model, layer.a)
      ensures !ok ==> layer.entries == old(layer.entries) && Refused(old(layer.mem.Now()), layer.mem.Now())
      ensures old(MayMap(vmoCap, va, offset, length, rights))
              && Roomy(old(layer.mem.Now()), layer.a, va, length) ==>
              ok
    {
      hide Memory.Valid, Memory.Now, Pmem.Registry.Valid, Kept, Capabilities.Table.Valid, AllShrink, AllMade;
      hide RightsFor, Within, Roomy;
      hide PageCount, Layer.Held, Refused, GrownElsewhere, Referenced;
      RefusedSelf(layer.mem.Now());
      ElsewhereSelf(layer.mem.Sp().model, layer.a);
      if vmoCap == Capabilities.MAX_HANDLE || length == 0 || rights.map_ || !rights.read || va == 0 {
        return false;
      }
      var v := caps.ResolveHandle(set_, vmoCap, Capabilities.Vmo, {MAP_RIGHT} + RightsFor(rights));
      if v.None? {
        return false;
      }
      ok := layer.Map(v.value, va, offset, length, rights);
    }
  }

  lemma VmoRightsOk(rights: Rights)
    ensures Capabilities.RightsOk(Capabilities.Vmo, GENERIC + RightsFor(rights))
  {
  }

  lemma MadeNext(born: map<nat, Capabilities.Cap>, known: map<nat, Vmo>, known': map<nat, Vmo>, maker: map<nat, nat>,
                 v: nat, p: nat)
    requires AllMade(born, known, maker) && MadeUnder(born, known', v, p)
    requires forall w :: w in known ==> w in known' && known'[w] == known[w]
    ensures AllMade(born, known', maker[v := p])
  {
    forall w | w in maker
      ensures MadeUnder(born, known', w, maker[w])
    {
      assert MadeUnder(born, known, w, maker[w]);
    }
  }

  lemma BornGrows(s: Capabilities.State, t: Capabilities.State)
    requires Capabilities.Evolves(s, t)
    ensures forall h :: h in s.born ==> h in t.born && t.born[h] == s.born[h]
  {
  }

  /** New records and new ranges keep what is known of the old ones. */
  lemma RecordsGrow(born: map<nat, Capabilities.Cap>, born': map<nat, Capabilities.Cap>, info: map<nat, Pmem.Info>,
                    info': map<nat, Pmem.Info>,
              known: map<nat, Vmo>, derived: map<nat, nat>, maker: map<nat, nat>)
    requires AllShrink(born, info, derived) && AllMade(born, known, maker)
    requires forall h :: h in born ==> h in born' && born'[h] == born[h]
    requires forall p :: p in info ==> p in info' && info'[p] == info[p]
    ensures AllShrink(born', info', derived) && AllMade(born', known, maker)
  {
    forall c | c in derived
      ensures Shrinks(born', info', c, derived[c])
    {
      assert Shrinks(born, info, c, derived[c]);
    }
    forall v | v in maker
      ensures MadeUnder(born', known, v, maker[v])
    {
      assert MadeUnder(born, known, v, maker[v]);
    }
  }

  lemma DerivedNext(born: map<nat, Capabilities.Cap>, info: map<nat, Pmem.Info>, derived: map<nat, nat>, c: nat, s: nat)
    requires AllShrink(born, info, derived) && Shrinks(born, info, c, s)
    ensures AllShrink(born, info, derived[c := s])
  {
  }
}
