/**
  The program loader. Memory objects are arrays of bytes; an address space maps
  page numbers into them. The loader maps the file read-only into itself, fills
  private objects through scratch mappings and maps both kinds into the target.
 */
module ElfLoader {
  import opened Basics
  import opened ElfFormat
  import opened VmoRights

  const LOAD_BASE: nat := 0x4000_0000_0000
  const SCRATCH_TOP: nat := LOAD_BASE
  const SCRATCH_BOTTOM: nat := 0x3000_0000_0000

  const READ_ONLY := Rights(false, true, false, false)
  const READ_WRITE := Rights(false, true, true, false)

  datatype Vmo = Vmo(bytes: seq<Byte>, rights: Rights)

  /** A page of an address space: bytes `at` and following of an object. */
  datatype Mapping = Mapping(vmo: nat, at: nat, rights: Rights)

  type Space = map<nat, Mapping>

  /** `Overrun`: a copy would read beyond the mapped file. */
  datatype Outcome = Loaded(entry: nat) | Refused | Overrun

  datatype Step = Done | Failed | Beyond

  function Prot(s: Segment): Rights {
    Rights(false, Readable(s), Writable(s), Executable(s))
  }

  function Zeros(n: nat): (z: seq<Byte>)
    ensures |z| == n && forall i :: 0 <= i < n ==> z[i] == 0
  {
    seq(n, _ => 0)
  }

  // ----- address spaces

  /** Every page is one of user addresses and shows a whole page of an object that allows it. */
  ghost predicate Backed(sp: Space, vmos: map<nat, Vmo>) {
    forall p :: p in sp ==> (
      && (p + 1) * PAGE_SIZE <= USER_TOP
      && sp[p].vmo in vmos && sp[p].at % PAGE_SIZE == 0 && sp[p].at + PAGE_SIZE <= |vmos[sp[p].vmo].bytes|
      && Within(sp[p].rights, vmos[sp[p].vmo].rights))
  }

  predicate InPages(p: nat, va: nat, len: nat) {
    va / PAGE_SIZE <= p < (va + len) / PAGE_SIZE
  }

  function PageSet(va: nat, len: nat): set<nat> {
    set p: nat | va / PAGE_SIZE <= p < (va + len) / PAGE_SIZE && InPages(p, va, len)
  }

  /** Pages `[va, va + len)` show the object from byte `at` on. */
  ghost predicate Window(sp: Space, v: nat, va: nat, at: nat, len: nat, rights: Rights) {
    forall p: nat :: InPages(p, va, len) ==>
      p in sp && sp[p] == Mapping(v, at + (p - va / PAGE_SIZE) * PAGE_SIZE, rights)
  }

  /** The address space with those pages added. */
  function Mapped(sp: Space, v: nat, va: nat, at: nat, len: nat, rights: Rights): (r: Space)
    ensures Window(r, v, va, at, len, rights)
    ensures forall p :: p in r <==> p in sp || InPages(p, va, len)
    ensures forall p :: p in sp && !InPages(p, va, len) ==> r[p] == sp[p]
  {
    map p | p in sp.Keys + PageSet(va, len) ::
      if InPages(p, va, len) then Mapping(v, at + (p - va / PAGE_SIZE) * PAGE_SIZE, rights) else sp[p]
  }

  /** What the kernel demands of a mapping request, beyond finding memory for tables. */
  predicate CanMap(sp: Space, vmos: map<nat, Vmo>, v: nat, va: nat, at: nat, len: nat, rights: Rights) {
    && len > 0 && va > 0 && rights.read && !rights.map_ && v in vmos && vmos[v].rights.map_
    && Within(rights, vmos[v].rights)
    && at + len <= |vmos[v].bytes| && va % PAGE_SIZE == 0 && at % PAGE_SIZE == 0 && len % PAGE_SIZE == 0
    && va + len <= USER_TOP
    && (forall p :: p in sp ==> !InPages(p, va, len))
  }

  ghost predicate Extends(sp: Space, sp': Space) {
    forall p :: p in sp ==> p in sp' && sp'[p] == sp[p]
  }

  ghost predicate Keeps(vmos: map<nat, Vmo>, vmos': map<nat, Vmo>) {
    forall v :: v in vmos ==> v in vmos' && vmos'[v] == vmos[v]
  }

  /** The byte `b` is seen at address `a`. */
  ghost predicate Holds(sp: Space, vmos: map<nat, Vmo>, a: nat, b: Byte) {
    var p := a / PAGE_SIZE;
    && p in sp && sp[p].vmo in vmos && sp[p].at + a % PAGE_SIZE < |vmos[sp[p].vmo].bytes|
    && vmos[sp[p].vmo].bytes[sp[p].at + a % PAGE_SIZE] == b
  }

  ghost predicate Shows(sp: Space, vmos: map<nat, Vmo>, va: nat, bytes: seq<Byte>) {
    forall k: nat :: k < |bytes| ==> Holds(sp, vmos, va + k, bytes[k])
  }

  lemma HoldsKept(sp: Space, vmos: map<nat, Vmo>, sp': Space, vmos': map<nat, Vmo>, a: nat, b: Byte)
    requires Holds(sp, vmos, a, b) && Extends(sp, sp') && Keeps(vmos, vmos')
    ensures Holds(sp', vmos', a, b)
  {
  }

  lemma ShowsKept(sp: Space, vmos: map<nat, Vmo>, sp': Space, vmos': map<nat, Vmo>, va: nat, bytes: seq<Byte>)
    requires Shows(sp, vmos, va, bytes) && Extends(sp, sp') && Keeps(vmos, vmos')
    ensures Shows(sp', vmos', va, bytes)
  {
    hide Holds, Extends, Keeps;
    forall k: nat | k < |bytes|
      ensures Holds(sp', vmos', va + k, bytes[k])
    {
      HoldsKept(sp, vmos, sp', vmos', va + k, bytes[k]);
    }
  }

  lemma WindowAt(sp: Space, v: nat, va: nat, at: nat, len: nat, rights: Rights, k: nat)
    requires Window(sp, v, va, at, len, rights) && va % PAGE_SIZE == 0 && len % PAGE_SIZE == 0 && k < len
    ensures var p := (va + k) / PAGE_SIZE;
            p in sp && sp[p].vmo == v && sp[p].rights == rights && sp[p].at + (va + k) % PAGE_SIZE == at + k
  {
    var p := (va + k) / PAGE_SIZE;
    assert InPages(p, va, len);
  }

  /** A window shows the object's bytes. */
  lemma WindowShows(sp: Space, vmos: map<nat, Vmo>, v: nat, va: nat, at: nat, len: nat, rights: Rights)
    requires Window(sp, v, va, at, len, rights) && va % PAGE_SIZE == 0 && len % PAGE_SIZE == 0
    requires v in vmos && at + len <= |vmos[v].bytes|
    ensures Shows(sp, vmos, va, vmos[v].bytes[at..at + len])
  {
    hide Window;
    var bytes := vmos[v].bytes[at..at + len];
    forall k: nat | k < |bytes|
      ensures Holds(sp, vmos, va + k, bytes[k])
    {
      WindowAt(sp, v, va, at, len, rights, k);
    }
  }

  lemma MappedBacked(sp: Space, vmos: map<nat, Vmo>, v: nat, va: nat, at: nat, len: nat, rights: Rights)
    requires Backed(sp, vmos) && CanMap(sp, vmos, v, va, at, len, rights)
    ensures Backed(Mapped(sp, v, va, at, len, rights), vmos) && Extends(sp, Mapped(sp, v, va, at, len, rights))
  {
    hide Mapped;
    var r := Mapped(sp, v, va, at, len, rights);
    forall p | p in r
      ensures (p + 1) * PAGE_SIZE <= USER_TOP
      ensures r[p].vmo in vmos && r[p].at % PAGE_SIZE == 0 && r[p].at + PAGE_SIZE <= |vmos[r[p].vmo].bytes|
      ensures Within(r[p].rights, vmos[r[p].vmo].rights)
    {
      if InPages(p, va, len) {
        assert r[p] == Mapping(v, at + (p - va / PAGE_SIZE) * PAGE_SIZE, rights);
      }
    }
  }

  lemma WindowKept(sp: Space, sp': Space, v: nat, va: nat, at: nat, len: nat, rights: Rights)
    requires Window(sp, v, va, at, len, rights) && Extends(sp, sp')
    ensures Window(sp', v, va, at, len, rights)
  {
  }

  lemma BackedKept(sp: Space, vmos: map<nat, Vmo>, vmos': map<nat, Vmo>)
    requires Backed(sp, vmos)
    requires forall v :: v in vmos ==>
      v in vmos' && |vmos'[v].bytes| == |vmos[v].bytes| && vmos'[v].rights == vmos[v].rights
    ensures Backed(sp, vmos')
  {
  }

  /** The bytes with `data` written from position `o`. */
  function Written(bytes: seq<Byte>, o: nat, data: seq<Byte>): (r: seq<Byte>)
    requires o + |data| <= |bytes|
    ensures |r| == |bytes|
  {
    bytes[..o] + data + bytes[o + |data|..]
  }

  lemma WrittenNext(bytes: seq<Byte>, o: nat, data: seq<Byte>, b: Byte)
    requires o + |data| < |bytes|
    ensures Written(bytes, o, data)[o + |data| := b] == Written(bytes, o, data + [b])
  {
  }

  lemma WrittenNothing(bytes: seq<Byte>, o: nat)
    requires o <= |bytes|
    ensures Written(bytes, o, []) == bytes
  {
  }

  // ----- what a loaded segment looks like

  /** Exactly the pages of `[va, va + len)` were added, with these rights; the file is never writable. */
  ghost predicate Granted(sp0: Space, sp: Space, va: nat, len: nat, rights: Rights, file: nat) {
    && Extends(sp0, sp)
    && (forall p :: p in sp <==> p in sp0 || InPages(p, va, len))
    && (forall p :: p in sp && p !in sp0 ==> sp[p].rights == rights && (sp[p].vmo == file ==> !rights.write))
  }

  /** No page added between the two spaces gives write access to the file. */
  ghost predicate Unwritable(sp0: Space, sp: Space, file: nat) {
    Extends(sp0, sp) && forall p :: p in sp && p !in sp0 && sp[p].vmo == file ==> !sp[p].rights.write
  }

  lemma UnwritableMap(sp: Space, vmos: map<nat, Vmo>, v: nat, va: nat, at: nat, len: nat, rights: Rights, file: nat)
    requires CanMap(sp, vmos, v, va, at, len, rights) && (v == file ==> !rights.write)
    ensures Unwritable(sp, Mapped(sp, v, va, at, len, rights), file)
  {
    hide Mapped;
  }

  lemma GrantedNone(sp: Space, va: nat, rights: Rights, file: nat)
    ensures Granted(sp, sp, va, 0, rights, file)
  {
  }

  lemma GrantedMap(sp: Space, vmos: map<nat, Vmo>, v: nat, va: nat, at: nat, len: nat, rights: Rights, file: nat)
    requires CanMap(sp, vmos, v, va, at, len, rights) && (v == file ==> !rights.write)
    ensures Granted(sp, Mapped(sp, v, va, at, len, rights), va, len, rights, file)
    ensures Unwritable(sp, Mapped(sp, v, va, at, len, rights), file)
  {
    hide Mapped;
  }

  lemma GrantedJoin(sp0: Space, sp1: Space, sp2: Space, va: nat, len1: nat, len2: nat, rights: Rights, file: nat)
    requires va % PAGE_SIZE == 0 && len1 % PAGE_SIZE == 0 && len2 % PAGE_SIZE == 0
    requires Granted(sp0, sp1, va, len1, rights, file) && Granted(sp1, sp2, va + len1, len2, rights, file)
    ensures Granted(sp0, sp2, va, len1 + len2, rights, file)
  {
    hide InPages;
    forall p: nat
      ensures InPages(p, va, len1 + len2) <==> InPages(p, va, len1) || InPages(p, va + len1, len2)
    {
      PagesJoin(p, va, len1, len2);
    }
  }

  lemma PagesJoin(p: nat, va: nat, len1: nat, len2: nat)
    requires va % PAGE_SIZE == 0 && len1 % PAGE_SIZE == 0 && len2 % PAGE_SIZE == 0
    ensures InPages(p, va, len1 + len2) <==> InPages(p, va, len1) || InPages(p, va + len1, len2)
  {
  }

  /** Every byte of the segment is what the loader puts there. */
  ghost predicate Image(sp: Space, vmos: map<nat, Vmo>, bytes: seq<Byte>, s: Segment) {
    && Origin(s) + s.filesz <= |bytes|
    && (forall k: nat :: k < s.memsz ==> Holds(sp, vmos, s.vaddr + k, LoadedByte(bytes, s, k)))
  }

  lemma ImageKept(sp: Space, vmos: map<nat, Vmo>, sp': Space, vmos': map<nat, Vmo>, bytes: seq<Byte>, s: Segment)
    requires Image(sp, vmos, bytes, s) && Extends(sp, sp') && Keeps(vmos, vmos')
    ensures Image(sp', vmos', bytes, s)
  {
    hide Holds, Extends, Keeps;
    forall k: nat | k < s.memsz
      ensures Holds(sp', vmos', s.vaddr + k, LoadedByte(bytes, s, k))
    {
      HoldsKept(sp, vmos, sp', vmos', s.vaddr + k, LoadedByte(bytes, s, k));
    }
  }

  lemma WritableImage(sp: Space, vmos: map<nat, Vmo>, bytes: seq<Byte>, s: Segment)
    requires Writable(s) && s.filesz <= s.memsz && s.offset + s.filesz <= |bytes|
    requires Shows(sp, vmos, PageVaddr(s), Written(Zeros(Span(s)), PageOffset(s), bytes[s.offset..s.offset + s.filesz]))
    ensures Image(sp, vmos, bytes, s)
  {
    hide Holds;
    var w := Written(Zeros(Span(s)), PageOffset(s), bytes[s.offset..s.offset + s.filesz]);
    forall k: nat | k < s.memsz
      ensures Holds(sp, vmos, s.vaddr + k, LoadedByte(bytes, s, k))
    {
      assert w[PageOffset(s) + k] == LoadedByte(bytes, s, k);
      assert PageVaddr(s) + (PageOffset(s) + k) == s.vaddr + k;
    }
  }

  /** The mixed page: the last file bytes, then zeros. */
  ghost function MixedPage(bytes: seq<Byte>, s: Segment): seq<Byte>
    requires PageDown(s.offset) + DirectSize(s) + MixedSize(s) <= |bytes|
  {
    var at := PageDown(s.offset) + DirectSize(s);
    Written(Zeros(PAGE_SIZE), 0, bytes[at..at + MixedSize(s)])
  }

  lemma SharedByte(sp: Space, vmos: map<nat, Vmo>, bytes: seq<Byte>, s: Segment, k: nat)
    requires !Writable(s) && s.filesz <= s.memsz && k < s.memsz
    requires PageDown(s.offset) + DirectSize(s) + MixedSize(s) <= |bytes| && Origin(s) + s.filesz <= |bytes|
    requires Shows(sp, vmos, PageVaddr(s), bytes[PageDown(s.offset)..PageDown(s.offset) + DirectSize(s)])
    requires MixedSize(s) != 0 ==> Shows(sp, vmos, PageVaddr(s) + DirectSize(s), MixedPage(bytes, s))
    requires Shows(sp, vmos, PageVaddr(s) + FilledSize(s), Zeros(Span(s) - FilledSize(s)))
    ensures Holds(sp, vmos, s.vaddr + k, LoadedByte(bytes, s, k))
  {
    hide Holds;
    FilledWithin(s);
    var i := PageOffset(s) + k;
    assert PageVaddr(s) + i == s.vaddr + k;
    if i < DirectSize(s) {
      assert bytes[PageDown(s.offset)..PageDown(s.offset) + DirectSize(s)][i] == LoadedByte(bytes, s, k);
    } else if i < FilledSize(s) {
      var j := i - DirectSize(s);
      assert MixedPage(bytes, s)[j] == LoadedByte(bytes, s, k);
      assert PageVaddr(s) + DirectSize(s) + j == s.vaddr + k;
    } else {
      var j := i - FilledSize(s);
      assert Zeros(Span(s) - FilledSize(s))[j] == LoadedByte(bytes, s, k);
      assert PageVaddr(s) + FilledSize(s) + j == s.vaddr + k;
    }
  }

  // ----- what a file must meet for the loader to succeed

  const CAPACITY: nat := SCRATCH_TOP - SCRATCH_BOTTOM

  /** No page of the range is in the space. */
  ghost predicate FreeFor(sp: Space, va: nat, len: nat) {
    forall p :: p in sp ==> !InPages(p, va, len)
  }

  /** The scratch addresses not yet handed out are free. */
  ghost predicate ScratchClear(sp: Space, used: nat) {
    used <= CAPACITY && used % PAGE_SIZE == 0 && FreeFor(sp, SCRATCH_BOTTOM, CAPACITY - used)
  }

  /** The segment has a place in the target: readable, in user addresses, and free. */
  ghost predicate Placeable(sp: Space, s: Segment) {
    Readable(s) && PageVaddr(s) > 0 && PageVaddr(s) + Span(s) <= USER_TOP && FreeFor(sp, PageVaddr(s), Span(s))
  }

  /** The file may be mapped with the segment's permissions, and holds what the loader takes from it. */
  predicate Allows(v: Vmo, s: Segment) {
    && v.rights.map_ && Within(Prot(s), v.rights)
    && (!Writable(s) ==> PageDown(s.offset) + DirectSize(s) + MixedSize(s) <= |v.bytes|)
  }

  /** The scratch addresses that loading the segment takes. */
  function Need(s: Segment): nat {
    if !Loads(s) then 0 else if Writable(s) then Span(s) else FilledNeed(s)
  }

  function FilledNeed(s: Segment): nat {
    if MixedSize(s) != 0 then PAGE_SIZE else 0
  }

  lemma ScratchNext(sp: Space, used: nat, v: nat, va: nat, len: nat, rights: Rights)
    requires ScratchClear(sp, used) && len % PAGE_SIZE == 0 && used + len <= CAPACITY && va + len == SCRATCH_TOP - used
    ensures va % PAGE_SIZE == 0 && FreeFor(sp, va, len)
    ensures ScratchClear(Mapped(sp, v, va, 0, len, rights), used + len)
  {
    hide Mapped;
    var rest := CAPACITY - used - len;
    forall p: nat | InPages(p, va, len)
      ensures InPages(p, SCRATCH_BOTTOM, CAPACITY - used) && !InPages(p, SCRATCH_BOTTOM, rest)
    {
    }
    forall p: nat | InPages(p, SCRATCH_BOTTOM, rest)
      ensures InPages(p, SCRATCH_BOTTOM, CAPACITY - used)
    {
    }
  }

  /** After the first part of a range has been mapped, the next part is still free. */
  lemma FreeAfter(sp0: Space, sp: Space, va: nat, total: nat, done: nat, len: nat, rights: Rights, file: nat)
    requires FreeFor(sp0, va, total) && Granted(sp0, sp, va, done, rights, file) && done + len <= total
    requires va % PAGE_SIZE == 0 && done % PAGE_SIZE == 0 && len % PAGE_SIZE == 0
    ensures FreeFor(sp, va + done, len)
  {
    forall p: nat | InPages(p, va + done, len)
      ensures InPages(p, va, total) && !InPages(p, va, done)
    {
    }
  }

  // ----- the loader

  class Loader {
    /** Whether the kernel finds the memory for the n-th request. */
    const grants: nat -> bool
    var requests: nat
    var vmos: map<nat, Vmo>
    var nextVmo: nat
    var self: Space
    var target: Space
    var scratchUsed: nat
    /** Some request of the loader has been turned down. */
    ghost var turnedDown: bool

    ghost predicate Valid()
      reads this
    {
      && Backed(self, vmos) && Backed(target, vmos)
      && (forall v :: v in vmos ==> v < nextVmo && |vmos[v].bytes| % PAGE_SIZE == 0)
    }

    constructor (grants: nat -> bool, file: nat, vmo: Vmo)
      requires |vmo.bytes| % PAGE_SIZE == 0
      ensures Valid() && this.grants == grants && vmos == map[file := vmo] && self == map[] && target == map[]
      ensures scratchUsed == 0
    {
      this.grants, requests, vmos, nextVmo := grants, 0, map[file := vmo], file + 1;
      self, target, scratchUsed, turnedDown := map[], map[], 0, false;
    }

    /** Every request will be granted and `need` bytes of scratch addresses are left. */
    ghost predicate Able(need: nat)
      reads this
    {
      (forall n: nat :: grants(n)) && ScratchClear(self, scratchUsed) && scratchUsed + need <= CAPACITY
    }

    method MapSelf(v: nat, va: nat, at: nat, len: nat, rights: Rights) returns (ok: bool)
      requires Valid()
      modifies this`self, this`requests, this`turnedDown
      ensures Valid() && turnedDown == (old(turnedDown) || !ok)
      ensures ok <==> CanMap(old(self), vmos, v, va, at, len, rights) && grants(old(requests))
      ensures ok ==> CanMap(old(self), vmos, v, va, at, len, rights)
      ensures ok ==> self == Mapped(old(self), v, va, at, len, rights)
      ensures !ok ==> self == old(self)
      ensures Extends(old(self), self)
    {
      hide Mapped, Backed, CanMap;
      ok := CanMap(self, vmos, v, va, at, len, rights) && grants(requests);
      requests, turnedDown := requests + 1, turnedDown || !ok;
      if ok {
        MappedBacked(self, vmos, v, va, at, len, rights);
        self := Mapped(self, v, va, at, len, rights);
      }
    }

    method MapTarget(v: nat, va: nat, at: nat, len: nat, rights: Rights) returns (ok: bool)
      requires Valid()
      modifies this`target, this`requests, this`turnedDown
      ensures Valid() && Extends(old(target), target) && turnedDown == (old(turnedDown) || !ok)
      ensures ok <==> CanMap(old(target), vmos, v, va, at, len, rights) && grants(old(requests))
      ensures ok ==> CanMap(old(target), vmos, v, va, at, len, rights)
      ensures ok ==> target == Mapped(old(target), v, va, at, len, rights)
      ensures ok ==> Shows(target, vmos, va, vmos[v].bytes[at..at + len])
      ensures !ok ==> target == old(target)
    {
      hide Mapped, Backed, CanMap, Shows, Window;
      ok := CanMap(target, vmos, v, va, at, len, rights) && grants(requests);
      requests, turnedDown := requests + 1, turnedDown || !ok;
      if ok {
        MappedBacked(target, vmos, v, va, at, len, rights);
        MappedShows(target, vmos, v, va, at, len, rights);
        target := Mapped(target, v, va, at, len, rights);
      }
    }

    /** A new object of zeros. */
    method CreateAnon(len: nat, rights: Rights) returns (ok: bool, v: nat)
      requires Valid() && len % PAGE_SIZE == 0
      modifies this`vmos, this`nextVmo, this`requests, this`turnedDown
      ensures Valid() && Keeps(old(vmos), vmos) && turnedDown == (old(turnedDown) || !ok)
      ensures ok <==> len > 0 && grants(old(requests))
      ensures ok ==> len > 0 && v == old(nextVmo) && v !in old(vmos)
      ensures ok ==> vmos == old(vmos)[v := Vmo(Zeros(len), rights.(map_ := true))]
      ensures !ok ==> vmos == old(vmos)
    {
      hide Backed;
      ok, v := len > 0 && grants(requests), nextVmo;
      requests, turnedDown := requests + 1, turnedDown || !ok;
      if ok {
        assert v !in vmos;
        ghost var was := vmos;
        vmos := vmos[v := Vmo(Zeros(len), rights.(map_ := true))];
        BackedKept(self, was, vmos);
        BackedKept(target, was, vmos);
        nextVmo := nextVmo + 1;
      }
    }

    /** Takes the next range of scratch addresses, below all those taken before. */
    method Reserve(size: nat) returns (ok: bool, va: nat)
      modifies this`scratchUsed, this`turnedDown
      ensures turnedDown == (old(turnedDown) || !ok)
      ensures ok <==> size > 0 && size % PAGE_SIZE == 0 && old(scratchUsed) + size <= SCRATCH_TOP - SCRATCH_BOTTOM
      ensures ok ==> SCRATCH_BOTTOM <= va && va + size == SCRATCH_TOP - old(scratchUsed)
      ensures ok ==> scratchUsed == old(scratchUsed) + size
      ensures !ok ==> scratchUsed == old(scratchUsed)
    {
      var capacity := SCRATCH_TOP - SCRATCH_BOTTOM;
      if size == 0 || size % PAGE_SIZE != 0 || scratchUsed > capacity || size > capacity - scratchUsed {
        turnedDown := true;
        return false, 0;
      }
      scratchUsed := scratchUsed + size;
      ok, va := true, SCRATCH_TOP - scratchUsed;
    }

    method Load(a: nat) returns (b: Byte)
      requires Valid() && a / PAGE_SIZE in self
      ensures Holds(self, vmos, a, b)
    {
      var m := self[a / PAGE_SIZE];
      b := vmos[m.vmo].bytes[m.at + a % PAGE_SIZE];
    }

    method Store(a: nat, b: Byte)
      requires Valid() && a / PAGE_SIZE in self && self[a / PAGE_SIZE].rights.write
      modifies this`vmos
      ensures Valid()
      ensures var v, at := self[a / PAGE_SIZE].vmo, self[a / PAGE_SIZE].at + a % PAGE_SIZE;
              && v in old(vmos) && at < |old(vmos)[v].bytes|
              && vmos == old(vmos)[v := old(vmos)[v].(bytes := old(vmos)[v].bytes[at := b])]
    {
      var m := self[a / PAGE_SIZE];
      vmos := vmos[m.vmo := vmos[m.vmo].(bytes := vmos[m.vmo].bytes[m.at + a % PAGE_SIZE := b])];
    }

    /** Copies file bytes from the image at LOAD_BASE into a scratch mapping of the object `v`. */
    method Copy(ghost file: nat, ghost fileLen: nat, from: nat, ghost v: nat, va: nat, ghost len: nat, o: nat, n: nat)
      requires Valid() && v != file && v in vmos && file in vmos
      requires Window(self, file, LOAD_BASE, 0, fileLen, READ_ONLY) && fileLen == |vmos[file].bytes|
      requires Window(self, v, va, 0, len, READ_WRITE) && len == |vmos[v].bytes|
      requires va % PAGE_SIZE == 0 && o + n <= len && from + n <= fileLen
      modifies this`vmos
      ensures Valid()
      ensures var data := old(vmos)[file].bytes[from..from + n];
              vmos == old(vmos)[v := old(vmos)[v].(bytes := Written(old(vmos)[v].bytes, o, data))]
    {
      hide Backed, Window, Written;
      ghost var was, bytes, data := vmos, vmos[v].bytes, vmos[file].bytes[from..from + n];
      WrittenNothing(bytes, o);
      assert data[..0] == [];
      var j := 0;
      while j < n
        invariant j <= n && Valid()
        invariant vmos == was[v := was[v].(bytes := Written(bytes, o, data[..j]))]
      {
        WindowAt(self, file, LOAD_BASE, 0, fileLen, READ_ONLY, from + j);
        WindowAt(self, v, va, 0, len, READ_WRITE, o + j);
        var b := Load(LOAD_BASE + (from + j));
        Store(va + (o + j), b);
        WrittenNext(bytes, o, data[..j], b);
        assert data[..j + 1] == data[..j] + [b];
        j := j + 1;
      }
      assert data[..n] == data;
    }

    /** The file is mapped at LOAD_BASE, whole and read-only. */
    ghost predicate Ready(file: nat)
      reads this
    {
      && Valid() && file in vmos
      && Window(self, file, LOAD_BASE, 0, |vmos[file].bytes|, READ_ONLY)
    }

    /**
      Since the given state: the file is still mapped and unchanged, objects and
      mappings that existed are as they were, and no new mapping lets anyone write
      the file.
     */
    ghost predicate Advanced(file: nat, self0: Space, target0: Space, vmos0: map<nat, Vmo>)
      reads this
    {
      Ready(file) && Keeps(vmos0, vmos) && Unwritable(self0, self, file) && Unwritable(target0, target, file)
    }

    lemma AdvancedTwice(file: nat, self0: Space, target0: Space, vmos0: map<nat, Vmo>, self1: Space, target1: Space,
                        vmos1: map<nat, Vmo>)
      requires Advanced(file, self1, target1, vmos1)
      requires Keeps(vmos0, vmos1) && Unwritable(self0, self1, file) && Unwritable(target0, target1, file)
      ensures Advanced(file, self0, target0, vmos0)
    {
    }

    lemma ReadyAfter(file: nat, self0: Space, vmos0: map<nat, Vmo>)
      requires Valid() && file in vmos0 && Window(self0, file, LOAD_BASE, 0, |vmos0[file].bytes|, READ_ONLY)
      requires Extends(self0, self) && Keeps(vmos0, vmos)
      ensures Ready(file) && vmos[file] == vmos0[file]
    {
      WindowKept(self0, self, file, LOAD_BASE, 0, |vmos0[file].bytes|, READ_ONLY);
    }

    /** A private object of zeros with `n` bytes of the file copied in at `o`. */
    method MakePrivate(ghost file: nat, len: nat, rights: Rights, from: nat, o: nat, n: nat) returns (ok: bool, v: nat)
      requires Ready(file) && len % PAGE_SIZE == 0 && o + n <= len && from + n <= |vmos[file].bytes|
      modifies this`self, this`vmos, this`nextVmo, this`requests, this`scratchUsed, this`turnedDown
      ensures Advanced(file, old(self), target, old(vmos)) && (!ok ==> turnedDown)
      ensures old(Able(len)) && len > 0 && rights.read && rights.write ==> ok
      ensures ok ==> scratchUsed == old(scratchUsed) + len
      ensures ok && old(Able(len)) ==> ScratchClear(self, scratchUsed)
      ensures ok ==> v !in old(vmos)
      ensures ok ==> (
                var data := old(vmos)[file].bytes[from..from + n];
                vmos == old(vmos)[v := Vmo(Written(Zeros(len), o, data), rights.(map_ := true))])
    {
      hide Backed, Window, Written, Mapped, ScratchClear;
      ok, v := CreateAnon(len, rights);
      ReadyAfter(file, self, old(vmos));
      if !ok {
        return;
      }
      var va;
      ok, va := Reserve(len);
      if !ok {
        return;
      }
      if old(Able(len)) {
        ScratchNext(self, old(scratchUsed), v, va, len, READ_WRITE);
      }
      ok := MapSelf(v, va, 0, len, READ_WRITE);
      ReadyAfter(file, old(self), old(vmos));
      if !ok {
        return;
      }
      UnwritableMap(old(self), vmos, v, va, 0, len, READ_WRITE, file);
      Copy(file, |vmos[file].bytes|, from, v, va, len, o, n);
      ReadyAfter(file, old(self), old(vmos));
    }

    /** A writable segment gets one private object, filled and mapped. */
    method LoadWritable(ghost file: nat, s: Segment) returns (ok: bool)
      requires Ready(file) && Writable(s) && s.filesz <= s.memsz && s.offset + s.filesz <= |vmos[file].bytes|
      modifies this
      ensures Advanced(file, old(self), old(target), old(vmos)) && (!ok ==> turnedDown)
      ensures ok ==> Granted(old(target), target, PageVaddr(s), Span(s), Prot(s), file)
      ensures ok ==> Image(target, vmos, vmos[file].bytes, s)
      ensures old(Able(Span(s)) && Placeable(target, s)) && s.memsz > 0 ==> ok
      ensures ok ==> scratchUsed == old(scratchUsed) + Span(s)
      ensures ok && old(Able(Span(s))) ==> ScratchClear(self, scratchUsed)
    {
      hide Backed, Window, Written, Mapped, Shows, Granted, Image, ScratchClear;
      ghost var bytes := vmos[file].bytes;
      var v;
      ok, v := MakePrivate(file, Span(s), Rights(false, true, true, Executable(s)), s.offset, PageOffset(s), s.filesz);
      if !ok {
        return;
      }
      ok := MapTarget(v, PageVaddr(s), 0, Span(s), Prot(s));
      if ok {
        GrantedMap(old(target), vmos, v, PageVaddr(s), 0, Span(s), Prot(s), file);
        assert vmos[v].bytes[0..0 + Span(s)] == vmos[v].bytes;
        WritableImage(target, vmos, bytes, s);
      }
    }

    /** Whole pages straight from the file. */
    method MapDirect(file: nat, s: Segment) returns (ok: bool)
      requires Ready(file) && !Writable(s)
      modifies this`target, this`requests, this`turnedDown
      ensures Advanced(file, self, old(target), vmos) && (!ok ==> turnedDown)
      ensures ok ==> Granted(old(target), target, PageVaddr(s), DirectSize(s), Prot(s), file)
      ensures ok && DirectSize(s) != 0 ==> PageDown(s.offset) + DirectSize(s) <= |vmos[file].bytes|
      ensures ok && DirectSize(s) != 0 ==> (
                var at := PageDown(s.offset);
                Shows(target, vmos, PageVaddr(s), vmos[file].bytes[at..at + DirectSize(s)]))
      ensures (forall n: nat :: grants(n)) && Placeable(old(target), s) && Allows(vmos[file], s)
              && s.filesz <= s.memsz ==>
              ok
    {
      hide Backed, Window, Mapped, Shows, Granted, CanMap;
      if Placeable(target, s) && Allows(vmos[file], s) && s.filesz <= s.memsz {
        DirectCanMap(target, vmos, file, s);
      }
      ok := true;
      if DirectSize(s) != 0 {
        ok := MapTarget(file, PageVaddr(s), PageDown(s.offset), DirectSize(s), Prot(s));
        if ok {
          GrantedMap(old(target), vmos, file, PageVaddr(s), PageDown(s.offset), DirectSize(s), Prot(s), file);
          CanMapFits(old(target), vmos, file, PageVaddr(s), PageDown(s.offset), DirectSize(s), Prot(s));
        }
      } else {
        GrantedNone(target, PageVaddr(s), Prot(s), file);
      }
    }

    /** The page on which file bytes end and zeros begin. */
    method LoadMixed(ghost file: nat, s: Segment) returns (ok: bool)
      requires Ready(file) && !Writable(s) && MixedSize(s) != 0
      requires PageDown(s.offset) + DirectSize(s) + MixedSize(s) <= |vmos[file].bytes|
      modifies this
      ensures Advanced(file, old(self), old(target), old(vmos)) && (!ok ==> turnedDown)
      ensures ok ==> Granted(old(target), target, PageVaddr(s) + DirectSize(s), PAGE_SIZE, Prot(s), file)
      ensures ok ==> Shows(target, vmos, PageVaddr(s) + DirectSize(s), MixedPage(vmos[file].bytes, s))
      ensures old(Able(PAGE_SIZE)) && Readable(s) && FreeFor(old(target), PageVaddr(s) + DirectSize(s), PAGE_SIZE)
              && PageVaddr(s) > 0 && PageVaddr(s) + DirectSize(s) + PAGE_SIZE <= USER_TOP ==>
              ok
      ensures ok ==> scratchUsed == old(scratchUsed) + PAGE_SIZE
      ensures ok && old(Able(PAGE_SIZE)) ==> ScratchClear(self, scratchUsed)
    {
      hide Backed, Window, Written, Mapped, Shows, Granted, ScratchClear;
      var v;
      ok, v := MakePrivate(file, PAGE_SIZE, Prot(s).(write := true), PageDown(s.offset) + DirectSize(s), 0,
                           MixedSize(s));
      if !ok {
        return;
      }
      ok := MapTarget(v, PageVaddr(s) + DirectSize(s), 0, PAGE_SIZE, Prot(s));
      if ok {
        GrantedMap(old(target), vmos, v, PageVaddr(s) + DirectSize(s), 0, PAGE_SIZE, Prot(s), file);
        assert vmos[v].bytes[0..0 + PAGE_SIZE] == vmos[v].bytes;
      }
    }

    /** The pages that hold nothing but zeros. */
    method LoadZeros(ghost file: nat, va: nat, len: nat, rights: Rights) returns (ok: bool)
      requires Ready(file) && va % PAGE_SIZE == 0 && len % PAGE_SIZE == 0 && len > 0 && !rights.write
      modifies this`vmos, this`nextVmo, this`target, this`requests, this`turnedDown
      ensures Advanced(file, old(self), old(target), old(vmos)) && (!ok ==> turnedDown)
      ensures ok ==> Granted(old(target), target, va, len, rights, file) && Shows(target, vmos, va, Zeros(len))
      ensures (forall n: nat :: grants(n)) && rights.read && !rights.map_ && va > 0 && va + len <= USER_TOP
              && FreeFor(old(target), va, len) ==>
              ok
    {
      hide Backed, Window, Mapped, Shows, Granted;
      var v;
      ok, v := CreateAnon(len, rights);
      ReadyAfter(file, self, old(vmos));
      if !ok {
        return;
      }
      ok := MapTarget(v, va, 0, len, rights);
      if ok {
        GrantedMap(old(target), vmos, v, va, 0, len, rights, file);
        assert vmos[v].bytes[0..0 + len] == vmos[v].bytes;
      }
    }

    /** What a segment that is not writable takes from the file: shared pages, then a mixed one. */
    method LoadFilled(file: nat, s: Segment) returns (step: Step)
      requires Ready(file) && !Writable(s) && s.filesz <= s.memsz && s.offset + s.filesz <= |vmos[file].bytes|
      modifies this
      ensures Advanced(file, old(self), old(target), old(vmos)) && (step == Failed ==> turnedDown)
      ensures step == Done ==> Granted(old(target), target, PageVaddr(s), FilledSize(s), Prot(s), file)
      ensures step == Done ==> FilledShown(target, vmos, vmos[file].bytes, s)
      ensures Congruent(s) ==> step != Beyond
      ensures old(Able(FilledNeed(s)) && Placeable(target, s) && Allows(vmos[file], s)) ==> step == Done
      ensures step == Done ==> scratchUsed == old(scratchUsed) + FilledNeed(s)
      ensures step == Done && old(Able(FilledNeed(s))) ==> ScratchClear(self, scratchUsed)
    {
      hide Backed, Window, Mapped, Shows, Granted, Image, CanMap, Keeps, Unwritable, Extends, MixedPage;
      hide DirectSize, MixedSize, FilledSize, Span, PageDown, PageVaddr, Congruent, FreeFor, ScratchClear, Prot;
      ghost var bytes := vmos[file].bytes;
      FilledIs(s);
      if Congruent(s) && MixedSize(s) != 0 {
        MixedInFile(s);
      }
      var pv, at := PageVaddr(s), PageDown(s.offset);
      Unchanged(file);
      FilledWithin(s);
      var ok := MapDirect(file, s);
      if !ok {
        return Failed;
      }
      ghost var direct := bytes[at..if DirectSize(s) == 0 then at else at + DirectSize(s)];
      assert Shows(target, vmos, pv, direct) by {
        ShowsNone(target, vmos, pv);
      }
      ghost var self1, target1, vmos1 := self, target, vmos;
      if MixedSize(s) != 0 {
        if at + DirectSize(s) + MixedSize(s) > |vmos[file].bytes| {
          return Beyond;
        }
        if FreeFor(old(target), pv, Span(s)) {
          FreeAfter(old(target), target, pv, Span(s), DirectSize(s), PAGE_SIZE, Prot(s), file);
        }
        ok := LoadMixed(file, s);
        Kept(file, target1, vmos1, bytes, pv, direct);
        AdvancedTwice(file, old(self), old(target), old(vmos), self1, target1, vmos1);
        if !ok {
          return Failed;
        }
        GrantedJoin(old(target), target1, target, pv, DirectSize(s), PAGE_SIZE, Prot(s), file);
      }
      step := Done;
    }

    /** A segment that is not writable: shared file pages, a mixed page, pages of zeros. */
    method LoadShared(file: nat, s: Segment) returns (step: Step)
      requires Ready(file) && !Writable(s) && s.filesz <= s.memsz && s.offset + s.filesz <= |vmos[file].bytes|
      modifies this
      ensures Advanced(file, old(self), old(target), old(vmos)) && (step == Failed ==> turnedDown)
      ensures step == Done ==> Granted(old(target), target, PageVaddr(s), Span(s), Prot(s), file)
      ensures step == Done ==> Image(target, vmos, vmos[file].bytes, s)
      ensures Congruent(s) ==> step != Beyond
      ensures old(Able(FilledNeed(s)) && Placeable(target, s) && Allows(vmos[file], s)) ==> step == Done
      ensures step == Done ==> scratchUsed == old(scratchUsed) + FilledNeed(s)
      ensures step == Done && old(Able(FilledNeed(s))) ==> ScratchClear(self, scratchUsed)
    {
      hide Backed, Window, Mapped, Shows, Granted, Image, CanMap, Keeps, Unwritable, Extends, FilledShown;
      hide FilledSize, Span, PageVaddr, Congruent, FreeFor, ScratchClear, Prot, FilledNeed, Allows, Zeros, Origin;
      hide Writable, Readable, Able, Placeable, Valid, Loads, Written;
      ghost var bytes := vmos[file].bytes;
      ProtIs(s);
      FilledIs(s);
      FilledWithin(s);
      var pv := PageVaddr(s);
      if Placeable(target, s) {
        PlaceableMeans(target, s);
      }
      if Able(FilledNeed(s)) {
        AbleMeans(FilledNeed(s));
      }
      step := LoadFilled(file, s);
      if step != Done {
        return;
      }
      FileKept(file, old(vmos));
      ghost var self1, target1, vmos1 := self, target, vmos;
      if FilledSize(s) < Span(s) {
        if FreeFor(old(target), pv, Span(s)) {
          FreeAfter(old(target), target, pv, Span(s), FilledSize(s), Span(s) - FilledSize(s), Prot(s), file);
        }
        var ok := LoadZeros(file, pv + FilledSize(s), Span(s) - FilledSize(s), Prot(s));
        FilledKept(target1, vmos1, target, vmos, bytes, s, file);
        FileKept(file, vmos1);
        AdvancedTwice(file, old(self), old(target), old(vmos), self1, target1, vmos1);
        if !ok {
          return Failed;
        }
        GrantedJoin(old(target), target1, target, pv, FilledSize(s), Span(s) - FilledSize(s), Prot(s), file);
      } else {
        ShowsNone(target, vmos, pv + FilledSize(s));
      }
      SharedImage(target, vmos, bytes, s);
    }

    lemma AbleMeans(need: nat)
      requires Able(need)
      ensures forall n: nat :: grants(n)
    {
    }

    lemma FileKept(file: nat, vmos0: map<nat, Vmo>)
      requires Keeps(vmos0, vmos) && file in vmos0
      ensures file in vmos && vmos[file] == vmos0[file]
    {
    }

    lemma Unchanged(file: nat)
      requires Ready(file)
      ensures Advanced(file, self, target, vmos)
    {
    }

    lemma Kept(file: nat, target0: Space, vmos0: map<nat, Vmo>, bytes: seq<Byte>, va: nat, shown: seq<Byte>)
      requires Keeps(vmos0, vmos) && Unwritable(target0, target, file) && Shows(target0, vmos0, va, shown)
      requires file in vmos0 && vmos0[file].bytes == bytes
      ensures Shows(target, vmos, va, shown) && file in vmos && vmos[file].bytes == bytes
    {
      ShowsKept(target0, vmos0, target, vmos, va, shown);
    }

    method LoadSegment(file: nat, fileLen: nat, s: Segment) returns (step: Step)
      requires Ready(file) && fileLen <= |vmos[file].bytes| && s.vaddr < WORD_LIMIT
      modifies this
      ensures Advanced(file, old(self), old(target), old(vmos))
      ensures step == Failed ==> turnedDown || !Fits(s, fileLen)
      ensures step == Done ==> Fits(s, fileLen)
      ensures step == Done && !Loads(s) ==> target == old(target)
      ensures step == Done && Loads(s) ==> Granted(old(target), target, PageVaddr(s), Span(s), Prot(s), file)
      ensures step == Done && Loads(s) ==> Image(target, vmos, vmos[file].bytes, s)
      ensures Congruent(s) ==> step != Beyond
      ensures Fits(s, fileLen) && old(Able(Need(s)))
              && (Loads(s) ==> old(Placeable(target, s) && Allows(vmos[file], s))) ==>
              step == Done
      ensures step == Done ==> scratchUsed == old(scratchUsed) + Need(s)
      ensures step == Done && old(Able(Need(s))) ==> ScratchClear(self, scratchUsed)
    {
      hide Backed, Window, Mapped, Shows, Granted, Image, CanMap, Keeps, Unwritable, Extends, ScratchClear, Placeable;
      Unchanged(file);
      if s.kind != PT_LOAD {
        return Done;
      }
      if s.offset > fileLen || s.filesz > fileLen - s.offset || s.filesz > s.memsz {
        return Failed;
      }
      if s.memsz == 0 {
        return Done;
      }
      if s.memsz > WORD_LIMIT - 1 - PageOffset(s) || PageOffset(s) + s.memsz > WORD_LIMIT - 1 - (PAGE_SIZE - 1) {
        return Failed;
      }
      if Span(s) > WORD_LIMIT - 1 - PageVaddr(s) {
        return Failed;
      }
      if Writable(s) {
        var ok := LoadWritable(file, s);
        step := if ok then Done else Failed;
      } else {
        step := LoadShared(file, s);
      }
    }

    /**
      Loading a file. Success means that the header passed, and that every loadable
      segment lies in the file and shows the loader's image with the segment's own
      permissions, which is the ELF image for a sound segment; nothing else was
      mapped. On every outcome the file is untouched, no new mapping can write it and
      earlier mappings stay. Congruent segments never make a copy run past the file.
      A suited file is loaded if every request is granted.
     */
    method ElfLoad(file: nat, fileLen: nat) returns (o: Outcome)
      requires Valid() && file in vmos
      modifies this
      ensures Valid() && Keeps(old(vmos), vmos) && Unwritable(old(self), self, file)
      ensures Unwritable(old(target), target, file)
      ensures o.Loaded? ==> HEADER_SIZE <= fileLen <= |vmos[file].bytes|
      ensures o.Loaded? ==> (
                var h := ReadHeader(vmos[file].bytes);
                && HeaderOk(h, fileLen) && Accepted(vmos[file].bytes, fileLen) && o.entry == EntryOf(vmos[file].bytes)
                && AllLoaded(target, vmos, vmos[file].bytes, fileLen, h.phoff, h.phnum)
                && OnlySegments(old(target), target, vmos[file].bytes, h.phoff, h.phnum))
      ensures o.Refused? ==> turnedDown || !WellFormed(vmos[file].bytes, fileLen)
      ensures old((forall n: nat :: grants(n)) && Suited(self, target, vmos[file], fileLen, scratchUsed)) ==> o.Loaded?
      ensures o.Overrun? ==> exists s :: !Congruent(s) && SomeSegment(vmos[file].bytes, fileLen, s)
    {
      hide Backed, Window, Mapped, Shows, Granted, Image, CanMap, HeaderOk, ReadHeader, ReadSegment, SegmentAt;
      hide Congruent, Loads, Suited, ScratchClear, Placeable, Allows, Need, NeedSum, Fits, FreeFor, Accepted, EntryOf;
      ghost var v := vmos[file];
      ghost var sure := (forall n: nat :: grants(n)) && Suited(self, target, v, fileLen, scratchUsed);
      if sure {
        SuitedStart(self, target, vmos, file, fileLen, scratchUsed);
      }
      var pageLen := |vmos[file].bytes|;
      if !grants(requests) {
        turnedDown := true;
        return Refused;
      }
      requests := requests + 1;
      if pageLen == 0 || pageLen < fileLen {
        return Refused;
      }
      var ok := MapSelf(file, LOAD_BASE, 0, pageLen, READ_ONLY);
      if !ok {
        return Refused;
      }
      UnwritableMap(old(self), vmos, file, LOAD_BASE, 0, pageLen, READ_ONLY, file);
      if fileLen < HEADER_SIZE {
        return Refused;
      }
      var h := ReadHeader(vmos[file].bytes);
      if !HeaderOk(h, fileLen) {
        return Refused;
      }
      TablesBound(h, fileLen);
      HeaderOkIff(vmos[file].bytes, fileLen);
      EntryRead(vmos[file].bytes);
      ghost var self1 := self;
      o := LoadSegments(file, fileLen, h, old(self), sure);
      AdvancedTwice(file, old(self), old(target), old(vmos), self1, old(target), old(vmos));
      FileKept(file, old(vmos));
    }

    /** The segments one after the other. */
    method LoadSegments(file: nat, fileLen: nat, h: Header, ghost self0: Space, ghost sure: bool) returns (o: Outcome)
      requires Ready(file) && HEADER_SIZE <= fileLen <= |vmos[file].bytes|
      requires h == ReadHeader(vmos[file].bytes) && HeaderOk(h, fileLen)
      requires sure ==> (forall n: nat :: grants(n)) && Suited(self0, target, vmos[file], fileLen, scratchUsed)
      requires sure ==> ScratchClear(self, scratchUsed)
      modifies this
      ensures Advanced(file, old(self), old(target), old(vmos)) && vmos[file] == old(vmos)[file]
      ensures h.phoff + h.phnum * PROGRAM_HEADER_SIZE <= |vmos[file].bytes|
      ensures o.Loaded? ==> (
                && o.entry == h.entry && AllLoaded(target, vmos, vmos[file].bytes, fileLen, h.phoff, h.phnum)
                && OnlySegments(old(target), target, vmos[file].bytes, h.phoff, h.phnum))
      ensures o.Refused? ==> turnedDown || !WellFormed(vmos[file].bytes, fileLen)
      ensures o.Overrun? ==> exists s :: !Congruent(s) && SomeSegment(vmos[file].bytes, fileLen, s)
      ensures sure ==> o.Loaded?
    {
      hide Backed, Window, Mapped, Shows, Granted, Image, CanMap, HeaderOk, ReadHeader, ReadSegment, SegmentAt;
      hide Congruent, Loads, Suited, ScratchClear, Placeable, Allows, Need, NeedSum, Fits, FreeFor;
      hide Keeps, Unwritable, WellFormed;
      ghost var bytes, v := vmos[file].bytes, vmos[file];
      TablesBound(h, fileLen);
      Unchanged(file);
      NeedNone(bytes, h.phoff);
      var i := 0;
      while i < h.phnum
        invariant i <= h.phnum && Advanced(file, old(self), old(target), old(vmos)) && vmos[file] == v
        invariant AllLoaded(target, vmos, bytes, fileLen, h.phoff, i)
        invariant OnlySegments(old(target), target, bytes, h.phoff, i)
        invariant sure ==> scratchUsed == old(scratchUsed) + NeedSum(bytes, h.phoff, i)
        invariant sure ==> ScratchClear(self, scratchUsed)
      {
        var s := SegmentAt(vmos[file].bytes, h.phoff, i);
        if sure {
          SuitedNext(self0, old(target), target, v, fileLen, old(scratchUsed), i);
        }
        ghost var self1, target1, vmos1 := self, target, vmos;
        SegmentBounds(bytes, h.phoff, i);
        var step := LoadSegment(file, fileLen, s);
        FileKept(file, vmos1);
        AdvancedTwice(file, old(self), old(target), old(vmos), self1, target1, vmos1);
        if step == Failed {
          if !turnedDown {
            IllFormed(bytes, fileLen, i);
          }
          return Refused;
        }
        if step == Beyond {
          SomeSegmentAt(bytes, fileLen, i);
          return Overrun;
        }
        LoadedNext(target1, vmos1, target, vmos, bytes, fileLen, h.phoff, i, file);
        OnlyNext(old(target), target1, target, bytes, h.phoff, i, file);
        i := i + 1;
      }
      o := Loaded(h.entry);
    }
  }

  // ----- files that are sure to be loaded

  /** The segments have no page in common. */
  predicate Apart(s: Segment, t: Segment) {
    Loads(s) && Loads(t) ==> PageVaddr(s) + Span(s) <= PageVaddr(t) || PageVaddr(t) + Span(t) <= PageVaddr(s)
  }

  /** The scratch addresses that the first `n` segments take. */
  function NeedSum(bytes: seq<Byte>, phoff: nat, n: nat): nat
    requires phoff + n * PROGRAM_HEADER_SIZE <= |bytes|
  {
    if n == 0 then 0 else NeedSum(bytes, phoff, n - 1) + Need(SegmentAt(bytes, phoff, n - 1))
  }

  lemma NeedNone(bytes: seq<Byte>, phoff: nat)
    requires phoff <= |bytes|
    ensures NeedSum(bytes, phoff, 0) == 0
  {
  }

  lemma {:induction false} NeedGrows(bytes: seq<Byte>, phoff: nat, i: nat, n: nat)
    requires phoff + n * PROGRAM_HEADER_SIZE <= |bytes| && i <= n
    ensures NeedSum(bytes, phoff, i) <= NeedSum(bytes, phoff, n)
  {
    hide SegmentAt, Need;
    if i < n {
      NeedGrows(bytes, phoff, i, n - 1);
    }
  }

  /**
    A well-formed file whose loadable segments are readable, within its own rights,
    in user addresses, apart from each other and from what the target already maps,
    with room for the file itself and for the scratch mappings.
   */
  ghost predicate Suited(self: Space, target: Space, v: Vmo, fileLen: nat, used: nat) {
    && WellFormed(v.bytes, fileLen) && v.rights.map_ && v.rights.read
    && |v.bytes| % PAGE_SIZE == 0 && LOAD_BASE + |v.bytes| <= USER_TOP && FreeFor(self, LOAD_BASE, |v.bytes|)
    && var h := ReadHeader(v.bytes);
       && h.phoff + h.phnum * PROGRAM_HEADER_SIZE <= |v.bytes|
       && ScratchClear(self, used) && used + NeedSum(v.bytes, h.phoff, h.phnum) <= CAPACITY
       && (forall i: nat :: i < h.phnum ==> Welcome(target, v, SegmentAt(v.bytes, h.phoff, i)))
       && (forall i: nat, j: nat :: i < j < h.phnum ==>
            Apart(SegmentAt(v.bytes, h.phoff, i), SegmentAt(v.bytes, h.phoff, j)))
  }

  ghost predicate Welcome(target: Space, v: Vmo, s: Segment) {
    Loads(s) ==> Placeable(target, s) && Allows(v, s)
  }

  lemma SuitedStart(self: Space, target: Space, vmos: map<nat, Vmo>, file: nat, fileLen: nat, used: nat)
    requires file in vmos && Suited(self, target, vmos[file], fileLen, used)
    ensures var v := vmos[file];
            && HEADER_SIZE <= fileLen <= |v.bytes| && HeaderOk(ReadHeader(v.bytes), fileLen)
            && CanMap(self, vmos, file, LOAD_BASE, 0, |v.bytes|, READ_ONLY) && ScratchClear(self, used)
            && ScratchClear(Mapped(self, file, LOAD_BASE, 0, |v.bytes|, READ_ONLY), used)
  {
    hide Mapped, HeaderOk, ReadHeader, SegmentAt, Welcome, Apart;
    forall p: nat | InPages(p, LOAD_BASE, |vmos[file].bytes|)
      ensures !InPages(p, SCRATCH_BOTTOM, CAPACITY - used)
    {
    }
  }

  /** The next segment of a suited file still has its place when those before it have been loaded. */
  lemma SuitedNext(self: Space, target0: Space, target: Space, v: Vmo, fileLen: nat, used: nat, i: nat)
    requires Suited(self, target0, v, fileLen, used) && i < ReadHeader(v.bytes).phnum
    requires ReadHeader(v.bytes).phoff + (i + 1) * PROGRAM_HEADER_SIZE <= |v.bytes|
    requires OnlySegments(target0, target, v.bytes, ReadHeader(v.bytes).phoff, i)
    ensures var h := ReadHeader(v.bytes);
            var s := SegmentAt(v.bytes, h.phoff, i);
            && Fits(s, fileLen) && (Loads(s) ==> Placeable(target, s) && Allows(v, s))
            && NeedSum(v.bytes, h.phoff, i + 1) == NeedSum(v.bytes, h.phoff, i) + Need(s)
            && used + NeedSum(v.bytes, h.phoff, i + 1) <= CAPACITY
  {
    hide HeaderOk, ReadHeader, SegmentAt, Fits, Need, Loads, Allows, ScratchClear, InPages, Span, PageVaddr, Readable;
    var h := ReadHeader(v.bytes);
    var s := SegmentAt(v.bytes, h.phoff, i);
    SomeSegmentAt(v.bytes, fileLen, i);
    NeedGrows(v.bytes, h.phoff, i + 1, h.phnum);
    assert Welcome(target0, v, s);
    if Loads(s) {
      forall p | p in target
        ensures !InPages(p, PageVaddr(s), Span(s))
      {
        if p !in target0 {
          var j: nat :| j < i && PageOf(target, p, SegmentAt(v.bytes, h.phoff, j));
          assert Apart(SegmentAt(v.bytes, h.phoff, j), s);
          PagesApart(p, SegmentAt(v.bytes, h.phoff, j), s);
        }
      }
    }
  }

  lemma PagesApart(p: nat, s: Segment, t: Segment)
    requires Apart(s, t) && Loads(s) && Loads(t) && InPages(p, PageVaddr(s), Span(s))
    ensures !InPages(p, PageVaddr(t), Span(t))
  {
  }

  /** A segment is not for loading, or lies in the file and in 64 bits of address. */
  predicate Fits(s: Segment, fileLen: nat) {
    s.kind == PT_LOAD ==> (
      && s.offset + s.filesz <= fileLen && s.filesz <= s.memsz
      && (s.memsz > 0 ==> PageVaddr(s) + Span(s) < WORD_LIMIT))
  }

  predicate Loads(s: Segment) {
    s.kind == PT_LOAD && s.memsz > 0
  }

  function SegmentAt(file: seq<Byte>, phoff: nat, i: nat): Segment
    requires phoff + i * PROGRAM_HEADER_SIZE + PROGRAM_HEADER_SIZE <= |file|
  {
    ReadSegment(file, phoff + i * PROGRAM_HEADER_SIZE)
  }

  lemma SegmentBounds(file: seq<Byte>, phoff: nat, i: nat)
    requires phoff + i * PROGRAM_HEADER_SIZE + PROGRAM_HEADER_SIZE <= |file|
    ensures SegmentAt(file, phoff, i).vaddr < WORD_LIMIT
  {
  }

  /** A program header of a file whose header passes the check. */
  ghost predicate SomeSegment(bytes: seq<Byte>, fileLen: nat, s: Segment) {
    && HEADER_SIZE <= fileLen <= |bytes| && HeaderOk(ReadHeader(bytes), fileLen)
    && var h := ReadHeader(bytes);
       exists i: nat :: i < h.phnum && h.phoff + i * PROGRAM_HEADER_SIZE + PROGRAM_HEADER_SIZE <= |bytes|
                        && s == SegmentAt(bytes, h.phoff, i)
  }

  lemma SomeSegmentAt(bytes: seq<Byte>, fileLen: nat, i: nat)
    requires HEADER_SIZE <= fileLen <= |bytes| && HeaderOk(ReadHeader(bytes), fileLen) && i < ReadHeader(bytes).phnum
    ensures ReadHeader(bytes).phoff + i * PROGRAM_HEADER_SIZE + PROGRAM_HEADER_SIZE <= |bytes|
    ensures SomeSegment(bytes, fileLen, SegmentAt(bytes, ReadHeader(bytes).phoff, i))
  {
    hide ReadHeader, HeaderOk, SegmentAt;
    TablesInside(ReadHeader(bytes), fileLen, i);
  }

  /** A file whose header passes and whose every segment fits. */
  ghost predicate WellFormed(bytes: seq<Byte>, fileLen: nat) {
    && HEADER_SIZE <= fileLen <= |bytes| && HeaderOk(ReadHeader(bytes), fileLen)
    && forall s :: SomeSegment(bytes, fileLen, s) ==> Fits(s, fileLen)
  }

  lemma IllFormed(bytes: seq<Byte>, fileLen: nat, i: nat)
    requires HEADER_SIZE <= fileLen <= |bytes| && HeaderOk(ReadHeader(bytes), fileLen) && i < ReadHeader(bytes).phnum
    requires ReadHeader(bytes).phoff + i * PROGRAM_HEADER_SIZE + PROGRAM_HEADER_SIZE <= |bytes|
    requires !Fits(SegmentAt(bytes, ReadHeader(bytes).phoff, i), fileLen)
    ensures !WellFormed(bytes, fileLen)
  {
    hide ReadHeader, HeaderOk, SegmentAt, Fits;
    SomeSegmentAt(bytes, fileLen, i);
  }

  lemma TablesBound(h: Header, fileLen: nat)
    requires |h.ident| == 16 && HeaderOk(h, fileLen)
    ensures h.phoff + h.phnum * PROGRAM_HEADER_SIZE <= fileLen
  {
  }

  /** The first `n` program headers: every loadable one is in memory. */
  ghost predicate AllLoaded(sp: Space, vmos: map<nat, Vmo>, bytes: seq<Byte>, fileLen: nat, phoff: nat, n: nat)
    requires phoff + n * PROGRAM_HEADER_SIZE <= |bytes|
  {
    forall i: nat :: i < n ==> SegmentLoaded(sp, vmos, bytes, fileLen, SegmentAt(bytes, phoff, i))
  }

  ghost predicate SegmentLoaded(sp: Space, vmos: map<nat, Vmo>, bytes: seq<Byte>, fileLen: nat, s: Segment) {
    Fits(s, fileLen) && (Loads(s) ==> Image(sp, vmos, bytes, s))
  }

  lemma LoadedNext(sp: Space, vmos: map<nat, Vmo>, sp': Space, vmos': map<nat, Vmo>, bytes: seq<Byte>, fileLen: nat,
                   phoff: nat, n: nat, file: nat)
    requires phoff + (n + 1) * PROGRAM_HEADER_SIZE <= |bytes| && AllLoaded(sp, vmos, bytes, fileLen, phoff, n)
    requires Unwritable(sp, sp', file) && Keeps(vmos, vmos')
    requires SegmentLoaded(sp', vmos', bytes, fileLen, SegmentAt(bytes, phoff, n))
    ensures AllLoaded(sp', vmos', bytes, fileLen, phoff, n + 1)
  {
    hide Image, SegmentAt, Extends, Keeps;
    forall i: nat | i < n + 1
      ensures SegmentLoaded(sp', vmos', bytes, fileLen, SegmentAt(bytes, phoff, i))
    {
      var s := SegmentAt(bytes, phoff, i);
      if i < n && Loads(s) {
        assert SegmentLoaded(sp, vmos, bytes, fileLen, s);
        ImageKept(sp, vmos, sp', vmos', bytes, s);
      }
    }
  }

  /** Every page added belongs to one of the first `n` segments and has its permissions. */
  ghost predicate OnlySegments(sp0: Space, sp: Space, bytes: seq<Byte>, phoff: nat, n: nat)
    requires phoff + n * PROGRAM_HEADER_SIZE <= |bytes|
  {
    forall p :: p in sp && p !in sp0 ==>
      exists i: nat :: i < n && PageOf(sp, p, SegmentAt(bytes, phoff, i))
  }

  ghost predicate PageOf(sp: Space, p: nat, s: Segment) {
    Loads(s) && p in sp && InPages(p, PageVaddr(s), Span(s)) && sp[p].rights == Prot(s)
  }

  lemma OnlyNext(sp0: Space, sp: Space, sp': Space, bytes: seq<Byte>, phoff: nat, n: nat, file: nat)
    requires phoff + (n + 1) * PROGRAM_HEADER_SIZE <= |bytes| && OnlySegments(sp0, sp, bytes, phoff, n)
    requires Unwritable(sp0, sp, file)
    requires var s := SegmentAt(bytes, phoff, n);
             if Loads(s) then Granted(sp, sp', PageVaddr(s), Span(s), Prot(s), file) else sp' == sp
    ensures OnlySegments(sp0, sp', bytes, phoff, n + 1)
  {
    hide SegmentAt, InPages;
    forall p | p in sp' && p !in sp0
      ensures exists i: nat :: i < n + 1 && PageOf(sp', p, SegmentAt(bytes, phoff, i))
    {
      if p in sp {
        var i: nat :| i < n && PageOf(sp, p, SegmentAt(bytes, phoff, i));
        assert PageOf(sp', p, SegmentAt(bytes, phoff, i));
      } else {
        assert PageOf(sp', p, SegmentAt(bytes, phoff, n));
      }
    }
  }

  /** What the file format promises of a segment. */
  ghost predicate ElfImage(sp: Space, vmos: map<nat, Vmo>, bytes: seq<Byte>, s: Segment) {
    && s.offset + s.filesz <= |bytes|
    && (forall k: nat :: k < s.memsz ==> Holds(sp, vmos, s.vaddr + k, ElfByte(bytes, s, k)))
  }

  /** A loaded sound segment is the ELF image. */
  lemma SoundIsElf(sp: Space, vmos: map<nat, Vmo>, bytes: seq<Byte>, fileLen: nat, s: Segment)
    requires SegmentLoaded(sp, vmos, bytes, fileLen, s) && Loads(s) && Sound(s) && fileLen <= |bytes|
    ensures ElfImage(sp, vmos, bytes, s)
  {
    hide Holds;
    forall k: nat | k < s.memsz
      ensures Holds(sp, vmos, s.vaddr + k, ElfByte(bytes, s, k))
    {
      SoundBytes(bytes, s, k);
    }
  }

  lemma ShowsNone(sp: Space, vmos: map<nat, Vmo>, va: nat)
    ensures Shows(sp, vmos, va, []) && Zeros(0) == []
  {
  }

  /** The shared pages show the file, and the mixed page its last bytes and zeros. */
  ghost predicate FilledShown(sp: Space, vmos: map<nat, Vmo>, bytes: seq<Byte>, s: Segment) {
    var at, n := PageDown(s.offset), DirectSize(s);
    && (n + MixedSize(s) != 0 ==> at + n + MixedSize(s) <= |bytes|)
    && (n != 0 ==> Shows(sp, vmos, PageVaddr(s), bytes[at..at + n]))
    && (MixedSize(s) != 0 ==> Shows(sp, vmos, PageVaddr(s) + n, MixedPage(bytes, s)))
  }

  lemma FilledKept(sp: Space, vmos: map<nat, Vmo>, sp': Space, vmos': map<nat, Vmo>, bytes: seq<Byte>, s: Segment,
                   file: nat)
    requires FilledShown(sp, vmos, bytes, s) && Unwritable(sp, sp', file) && Keeps(vmos, vmos')
    ensures FilledShown(sp', vmos', bytes, s)
  {
    hide Shows, Keeps, Extends, MixedPage;
    var at, n := PageDown(s.offset), DirectSize(s);
    if n != 0 {
      ShowsKept(sp, vmos, sp', vmos', PageVaddr(s), bytes[at..at + n]);
    }
    if MixedSize(s) != 0 {
      ShowsKept(sp, vmos, sp', vmos', PageVaddr(s) + n, MixedPage(bytes, s));
    }
  }

  lemma SharedImage(sp: Space, vmos: map<nat, Vmo>, bytes: seq<Byte>, s: Segment)
    requires !Writable(s) && s.filesz <= s.memsz && s.offset + s.filesz <= |bytes| && FilledShown(sp, vmos, bytes, s)
    requires Shows(sp, vmos, PageVaddr(s) + FilledSize(s), Zeros(Span(s) - FilledSize(s)))
    ensures Image(sp, vmos, bytes, s)
  {
    hide Shows, Holds, MixedPage;
    FilledWithin(s);
    if DirectSize(s) == 0 {
      ShowsNone(sp, vmos, PageVaddr(s));
      assert bytes[PageDown(s.offset)..PageDown(s.offset) + DirectSize(s)] == [];
    }
    forall k: nat | k < s.memsz
      ensures Holds(sp, vmos, s.vaddr + k, LoadedByte(bytes, s, k))
    {
      SharedByte(sp, vmos, bytes, s, k);
    }
  }

  /** The permissions of a segment are its three lowest flag bits: execute, write, read. */
  lemma ProtBits(s: Segment, rest: nat, r: bool, w: bool, x: bool)
    requires s.flags == 8 * rest + (if r then 4 else 0) + (if w then 2 else 0) + (if x then 1 else 0)
    ensures Prot(s) == Rights(false, r, w, x)
  {
    assert s.flags / 4 == 2 * rest + if r then 1 else 0;
    assert s.flags / 2 == 2 * (2 * rest + if r then 1 else 0) + if w then 1 else 0;
  }

  lemma PlaceableMeans(sp: Space, s: Segment)
    requires Placeable(sp, s)
    ensures Readable(s) && PageVaddr(s) > 0 && PageVaddr(s) + Span(s) <= USER_TOP && FreeFor(sp, PageVaddr(s), Span(s))
  {
  }

  lemma ProtIs(s: Segment)
    ensures Prot(s).read == Readable(s) && Prot(s).write == Writable(s) && !Prot(s).map_
  {
  }

  lemma DirectCanMap(sp: Space, vmos: map<nat, Vmo>, file: nat, s: Segment)
    requires Placeable(sp, s) && file in vmos && Allows(vmos[file], s) && !Writable(s) && s.filesz <= s.memsz
    ensures DirectSize(s) != 0 ==>
              CanMap(sp, vmos, file, PageVaddr(s), PageDown(s.offset), DirectSize(s), Prot(s))
  {
    FilledWithin(s);
    forall p: nat | InPages(p, PageVaddr(s), DirectSize(s))
      ensures InPages(p, PageVaddr(s), Span(s))
    {
    }
  }

  lemma CanMapFits(sp: Space, vmos: map<nat, Vmo>, v: nat, va: nat, at: nat, len: nat, rights: Rights)
    requires CanMap(sp, vmos, v, va, at, len, rights)
    ensures v in vmos && at + len <= |vmos[v].bytes|
  {
  }

  lemma MappedShows(sp: Space, vmos: map<nat, Vmo>, v: nat, va: nat, at: nat, len: nat, rights: Rights)
    requires CanMap(sp, vmos, v, va, at, len, rights)
    ensures v in vmos && at + len <= |vmos[v].bytes|
    ensures Shows(Mapped(sp, v, va, at, len, rights), vmos, va, vmos[v].bytes[at..at + len])
  {
    hide Mapped, Shows, Window;
    WindowShows(Mapped(sp, v, va, at, len, rights), vmos, v, va, at, len, rights);
  }
}
