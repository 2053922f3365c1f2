/**
  Memory objects that own their pages, over the frame allocator: every frame of
  such an object is held once for it, from its creation until it is given back.
 */
module OwnedPages {
  import opened Basics
  import opened Frames
  import opened PageTree
  import opened AddressSpaces
  import Kvalloc
  import Pmem

  /** The frame is one of the object's. */
  ghost predicate Owns(i: Pmem.Info, g: nat) {
    i.base / PAGE_SIZE <= g < i.base / PAGE_SIZE + i.length / PAGE_SIZE
  }

  ghost predicate Owned(history: map<nat, Pmem.Info>, owners: set<nat>, g: nat) {
    exists h :: h in owners && h in history && Owns(history[h], g)
  }

  /** The object is whole pages, and the allocator manages their frames. */
  ghost predicate Inside(i: Pmem.Info, frames: nat, managed: set<nat>) {
    && i.base % PAGE_SIZE == 0 && i.length % PAGE_SIZE == 0
    && forall g: nat :: Owns(i, g) ==> g < frames && g in managed
  }

  /** The owners have no frame in common, and hold each of theirs once, besides what others hold. */
  ghost predicate Backed(ext: seq<nat>, others: seq<nat>, managed: set<nat>, history: map<nat, Pmem.Info>,
                         owners: set<nat>) {
    && |others| == |ext| && owners <= history.Keys
    && (forall h :: h in owners ==> Inside(history[h], |ext|, managed))
    && (forall h, k, g: nat :: h in owners && k in owners && Owns(history[h], g) && Owns(history[k], g) ==> h == k)
    && (forall g :: 0 <= g < |ext| ==> ext[g] == others[g] + if Owned(history, owners, g) then 1 else 0)
  }

  /** Each frame of the run is held at least once. */
  ghost predicate AllHeld(ext: seq<nat>, managed: set<nat>, f: nat, n: nat) {
    && (n == 0 || f + n <= |ext|)
    && (forall g: nat :: f <= g < f + n ==> g in managed)
    && (forall g: nat :: f <= g < f + n && g < |ext| ==> ext[g] > 0)
  }

  /** The owners whose pages have not been given back. */
  ghost predicate AreOwners(owners: set<nat>, history: map<nat, Pmem.Info>, released: seq<nat>) {
    forall h :: h in owners <==> h in history && history[h].owns && h !in released
  }

  /** The holds with one fewer on each frame of the run. */
  ghost function Lowered(ext: seq<nat>, f: nat, n: nat): seq<nat> {
    seq(|ext|, g requires 0 <= g < |ext| => if f <= g < f + n && ext[g] > 0 then ext[g] - 1 else ext[g])
  }

  lemma LoweredNext(ext: seq<nat>, f: nat, i: nat)
    requires f + i < |ext| && ext[f + i] > 0
    ensures Lowered(ext, f, i)[f + i] == ext[f + i]
    ensures Lowered(ext, f, i)[f + i := ext[f + i] - 1] == Lowered(ext, f, i + 1)
  {
  }

  lemma LoweredNone(ext: seq<nat>, f: nat)
    ensures Lowered(ext, f, 0) == ext
  {
  }

  lemma LoweredRaised(ext: seq<nat>, f: nat, n: nat)
    ensures Lowered(Raised(ext, f, n), f, n) == ext
  {
  }

  lemma OwnsRun(i: Pmem.Info, f: nat, n: nat)
    requires f == i.base / PAGE_SIZE && n == i.length / PAGE_SIZE
    ensures forall g: nat :: Owns(i, g) <==> f <= g < f + n
  {
  }

  /** A new owner of frames that nobody held. */
  lemma BackedNew(ext: seq<nat>, others: seq<nat>, managed: set<nat>, history: map<nat, Pmem.Info>, owners: set<nat>,
                  h: nat, f: nat, n: nat, info: Pmem.Info)
    requires Backed(ext, others, managed, history, owners) && h !in history && NoneHeld(ext, f, n)
    requires info.base == f * PAGE_SIZE && info.length == n * PAGE_SIZE
    requires forall g :: f <= g < f + n ==> g in managed
    ensures Backed(Raised(ext, f, n), others, managed, history[h := info], owners + {h})
  {
    hide Owns;
    var history', owners' := history[h := info], owners + {h};
    OwnsRun(info, f, n);
    forall k, g: nat | k in owners && Owns(history[k], g)
      ensures !Owns(info, g)
    {
      assert Owned(history, owners, g);
    }
    forall g | 0 <= g < |ext|
      ensures Owned(history', owners', g) <==> Owned(history, owners, g) || f <= g < f + n
    {
      if Owned(history, owners, g) {
        var k :| k in owners && k in history && Owns(history[k], g);
        assert Owns(history'[k], g);
      }
      if f <= g < f + n {
        assert Owns(history'[h], g);
      }
    }
  }

  /** An owner less, with its holds dropped. */
  lemma BackedLess(ext: seq<nat>, others: seq<nat>, managed: set<nat>, history: map<nat, Pmem.Info>, owners: set<nat>,
                   h: nat)
    requires Backed(ext, others, managed, history, owners) && h in owners
    ensures var f, n := history[h].base / PAGE_SIZE, history[h].length / PAGE_SIZE;
            && AllHeld(ext, managed, f, n)
            && Backed(Lowered(ext, f, n), others, managed, history, owners - {h})
  {
    hide Owns;
    var f, n := history[h].base / PAGE_SIZE, history[h].length / PAGE_SIZE;
    OwnsRun(history[h], f, n);
    assert Inside(history[h], |ext|, managed);
    forall g | 0 <= g < |ext|
      ensures Owned(history, owners - {h}, g) <==> Owned(history, owners, g) && !Owns(history[h], g)
    {
      if Owned(history, owners, g) && !Owns(history[h], g) {
        var k :| k in owners && k in history && Owns(history[k], g);
        assert k in owners - {h};
      }
    }
    if n > 0 {
      assert Owns(history[h], f + n - 1);
    }
    forall g: nat | f <= g < f + n
      ensures g < |ext| && g in managed && ext[g] > 0
    {
      assert Owns(history[h], g);
      assert Owned(history, owners, g);
    }
  }

  class Store {
    const sp: Spaces
    const reg: Pmem.Registry
    /** The objects whose pages are held for them, and the holds of everybody else. */
    ghost var owners: set<nat>
    ghost var others: seq<nat>

    ghost predicate Valid()
      reads this, sp, sp.frames.Repr(), reg
    {
      && this !in sp.frames.Repr() && reg !in sp.frames.Repr() && sp !in sp.frames.Repr()
      && sp.Valid() && reg.Valid()
      && sp.frames.refs.Length * PAGE_SIZE <= PHYS_LIMIT
      && AreOwners(owners, reg.history, reg.released)
      && Backed(sp.ext, others, sp.frames.managed, reg.history, owners)
    }

    constructor (sp: Spaces, reg: Pmem.Registry)
      requires sp.Valid() && reg.Valid() && reg !in sp.frames.Repr() && sp !in sp.frames.Repr()
      requires reg.history == map[]
      requires sp.frames.refs.Length * PAGE_SIZE <= PHYS_LIMIT
      ensures Valid() && this.sp == sp && this.reg == reg && others == sp.ext
    {
      hide Spaces.Valid, Pmem.Registry.Valid;
      this.sp, this.reg, owners, others := sp, reg, {}, sp.ext;
    }

    /**
      A new object with pages of its own, at least as long as asked for. Fails
      exactly for a bad length, when no run of free frames can be found, or when
      there is no record or handle for it; then every hold is as it was.
     */
    method Alloc(length: nat, nodeOk: bool) returns (h: Option<nat>)
      requires Valid()
      modifies this`owners, sp`ext, sp.frames.Repr(), reg`recs, reg`registered, reg`next, reg`history
      ensures Valid() && others == old(others)
      ensures h.None? ==> sp.ext == old(sp.ext) && owners == old(owners) && reg.history == old(reg.history)
      ensures h.Some? ==> h.value !in old(reg.history) && owners == old(owners) + {h.value} && h.value in reg.history
      ensures h.Some? ==> reg.registered == old(reg.registered) + {h.value}
      ensures h.Some? ==> reg.history == old(reg.history)[h.value := reg.history[h.value]]
      ensures h.Some? ==> (
                var i := reg.history[h.value];
                && i.owns && i.parents == [] && length <= i.length < length + PAGE_SIZE
                && NoneHeld(old(sp.ext), i.base / PAGE_SIZE, i.length / PAGE_SIZE)
                && FreeRun(old(sp.frames.refs[..]), GENERAL_FLOOR, |old(sp.frames.refs[..])|, i.base / PAGE_SIZE,
                           i.length / PAGE_SIZE))
      ensures h.None? <==> (
                || Kvalloc.RoundUp(length).None? || !nodeOk || old(reg.next) == Pmem.MAX
                || OnlyStraddling(old(sp.frames.refs[..]), GENERAL_FLOOR, sp.frames.refs.Length,
                                  old(sp.frames.generalHint), Kvalloc.RoundUp(length).value / PAGE_SIZE))
    {
      hide Spaces.Valid, Pmem.Registry.Valid, Backed, OnlyStraddling, Raised, Lowered, NoneHeld, AllHeld;
      var rounded := Kvalloc.RoundUp(length);
      if rounded.None? {
        return None;
      }
      var n := rounded.value / PAGE_SIZE;
      var found := sp.AllocPages(n);
      if found.None? {
        return None;
      }
      var f := found.value;
      ghost var ext := sp.ext;
      RunIsManaged(sp, old(sp.frames.refs[..]), f, n);
      RunBelow(f, n, sp.frames.refs.Length);
      h := reg.Create(f * PAGE_SIZE, rounded.value, true, nodeOk);
      if h.None? {
        JustRaised(old(sp.ext), sp.frames.managed, f, n);
        FreePages(f, n);
        LoweredRaised(old(sp.ext), f, n);
        return;
      }
      BackedNew(old(sp.ext), others, sp.frames.managed, old(reg.history), owners, h.value, f, n, reg.history[h.value]);
      OwnerNew(owners, old(reg.history), h.value);
      owners := owners + {h.value};
    }

    lemma OwnerNew(was: set<nat>, history: map<nat, Pmem.Info>, h: nat)
      requires AreOwners(was, history, reg.released) && h !in history && h in reg.history && reg.history[h].owns
      requires reg.history == history[h := reg.history[h]] && reg.Valid() && h in reg.registered
      ensures AreOwners(was + {h}, reg.history, reg.released)
    {
    }

    /**
      Unregisters an object. The holds on the pages of every owner that nothing
      registered descends from any more are dropped, and no others.
     */
    method Destroy(h: nat) returns (ok: bool)
      requires Valid()
      modifies this`owners, sp`ext, sp.frames.Repr(), reg`recs, reg`registered, reg`released
      ensures Valid() && others == old(others) && (ok <==> h in old(reg.registered))
      ensures reg.registered == old(reg.registered) - {h} && reg.history == old(reg.history)
      ensures forall k :: k in owners <==> k in old(owners) && Pmem.Wanted(reg.history, reg.registered, k)
    {
      hide Spaces.Valid, Pmem.Registry.Valid, Backed, Lowered, Pmem.Wanted, AllHeld;
      ghost var was := owners;
      OwnersWanted();
      var freed, infos;
      ok, freed, infos := reg.Destroy(h);
      var i := 0;
      while i < |freed|
        modifies this`owners, sp`ext, sp.frames.Repr()
        invariant i <= |freed| && sp.Valid() && sp.frames.managed == old(sp.frames.managed)
        invariant Backed(sp.ext, others, sp.frames.managed, reg.history, owners)
        invariant forall k :: k in owners <==> k in was && k !in freed[..i]
      {
        var k := freed[i];
        assert k in freed;
        FreedOnce(reg, freed, |old(reg.released)|, i);
        BackedLess(sp.ext, others, sp.frames.managed, reg.history, owners, k);
        FreePages(infos[k].base / PAGE_SIZE, infos[k].length / PAGE_SIZE);
        owners := owners - {k};
        assert freed[..i + 1] == freed[..i] + [k];
        i := i + 1;
      }
      assert freed[..i] == freed;
    }

    lemma OwnersWanted()
      requires reg.Valid() && AreOwners(owners, reg.history, reg.released)
      ensures forall k :: k in owners ==> Pmem.Wanted(reg.history, reg.registered, k)
    {
      hide Pmem.Registry.Valid, Pmem.Wanted;
      forall k | k in owners
        ensures Pmem.Wanted(reg.history, reg.registered, k)
      {
        Pmem.ReleasedIffUnwanted(reg, k);
      }
    }

    /** Drops the hold on each frame of a run. */
    method FreePages(f: nat, n: nat)
      requires sp.Valid() && this !in sp.frames.Repr() && reg !in sp.frames.Repr() && sp !in sp.frames.Repr()
      requires AllHeld(sp.ext, sp.frames.managed, f, n)
      modifies sp`ext, sp.frames.Repr()
      ensures sp.Valid() && sp.ext == Lowered(old(sp.ext), f, n) && sp.frames.managed == old(sp.frames.managed)
    {
      hide Spaces.Valid;
      ghost var ext := sp.ext;
      LoweredNone(ext, f);
      var i := 0;
      while i < n
        modifies sp`ext, sp.frames.Repr()
        invariant i <= n && sp.Valid() && sp.ext == Lowered(ext, f, i) && sp.frames.managed == old(sp.frames.managed)
      {
        assert f + i < |ext| && ext[f + i] > 0;
        LoweredNext(ext, f, i);
        HeldIsManaged(sp, f + i);
        sp.ReleasePage(f + i);
        i := i + 1;
      }
    }
  }

  lemma FreedOnce(reg: Pmem.Registry, freed: seq<nat>, n: nat, i: nat)
    requires reg.Valid() && n <= |reg.released| && reg.released[n..] == freed && i < |freed|
    ensures freed[i] !in freed[..i] && freed[i] in reg.history && reg.history[freed[i]].owns
    ensures freed[i] !in reg.released[..n]
  {
    assert reg.released[n + i] == freed[i];
    assert freed[i] in reg.released;
  }

  lemma RunIsManaged(sp: Spaces, refs: seq<nat>, f: nat, n: nat)
    requires sp.Valid() && |refs| == sp.frames.refs.Length && FreeRun(refs, GENERAL_FLOOR, |refs|, f, n)
    requires sp.frames.refs[..] == Taken(refs, f, n)
    ensures forall g :: f <= g < f + n ==> g in sp.frames.managed
  {
    hide Inv;
    forall g | f <= g < f + n
      ensures g in sp.frames.managed
    {
      assert sp.frames.refs[..][g] == 1;
    }
  }

  lemma RunBelow(f: nat, n: nat, frames: nat)
    requires f + n <= frames && frames * PAGE_SIZE <= PHYS_LIMIT
    ensures f * PAGE_SIZE + n * PAGE_SIZE <= Pmem.MAX && f * PAGE_SIZE % PAGE_SIZE == 0
    ensures f * PAGE_SIZE / PAGE_SIZE == f && n * PAGE_SIZE / PAGE_SIZE == n
  {
  }

  lemma JustRaised(ext: seq<nat>, managed: set<nat>, f: nat, n: nat)
    requires NoneHeld(ext, f, n) && forall g :: f <= g < f + n ==> g in managed
    ensures AllHeld(Raised(ext, f, n), managed, f, n)
  {
    var r := Raised(ext, f, n);
    forall g: nat | f <= g < f + n
      ensures g < |r| && r[g] > 0
    {
      assert r[g] == ext[g] + 1;
    }
  }

  /**
    The memory of a registered object whose parentless ancestors own their pages is
    never free: each of its bytes lies in a frame that is held, and that can be
    mapped as long as its count does not overflow.
   */
  lemma RegisteredIsHeld(store: Store, h: nat, x: nat) returns (root: nat)
    requires store.Valid() && h in store.reg.registered && h in store.reg.history && Pmem.Has(store.reg.history[h], x)
    ensures root in Pmem.Up(store.reg.history, h) && root in store.reg.history
    ensures store.reg.history[root].parents == [] && Pmem.Has(store.reg.history[root], x)
    ensures store.reg.history[root].owns ==> (
              var g := x / PAGE_SIZE;
              && g < |store.sp.ext| && store.sp.ext[g] > 0 && store.sp.frames.Managed(g) && store.sp.frames.refs[g] > 0
              && (store.sp.frames.refs[g] < UNMANAGED - 1 ==>
                   Mappable(store.sp.frames.refs[..], store.sp.ext, g, false)))
  {
    hide Inv, Pmem.Registry.Valid;
    root := Pmem.BackingStays(store.reg, h, x);
    var i := store.reg.history[root];
    if i.owns {
      assert root in store.owners;
      assert Inside(i, |store.sp.ext|, store.sp.frames.managed);
      assert Owns(i, x / PAGE_SIZE);
      assert Owned(store.reg.history, store.owners, x / PAGE_SIZE);
      HeldIsManaged(store.sp, x / PAGE_SIZE);
    }
  }

  lemma HeldIsManaged(sp: Spaces, f: nat)
    requires sp.Valid() && f in sp.frames.managed && f < |sp.ext|
    ensures sp.frames.Managed(f)
  {
    hide Inv;
  }
}
