/** The parts of a 64-bit ELF file that the loader reads, and its header check. */
module ElfFormat {
  import opened Basics

  const HEADER_SIZE: nat := 64
  const PROGRAM_HEADER_SIZE: nat := 56
  const SECTION_HEADER_SIZE: nat := 64
  const MAX_SECTIONS: nat := 1024
  const MAX_PROGRAM_HEADERS: nat := 64
  const PT_LOAD: nat := 1

  type Byte = x: int | 0 <= x < 256

  // Little-endian numbers of two, four and eight bytes.

  function Le16(file: seq<Byte>, at: nat): (v: nat)
    requires at + 2 <= |file|
    ensures v < 0x1_0000
  {
    file[at] as int + 0x100 * (file[at + 1] as int)
  }

  function Le32(file: seq<Byte>, at: nat): (v: nat)
    requires at + 4 <= |file|
    ensures v < 0x1_0000_0000
  {
    Le16(file, at) + 0x1_0000 * Le16(file, at + 2)
  }

  function Le64(file: seq<Byte>, at: nat): (v: nat)
    requires at + 8 <= |file|
    ensures v < WORD_LIMIT
  {
    Le32(file, at) + 0x1_0000_0000 * Le32(file, at + 4)
  }

  datatype Header = Header(
    ident: seq<Byte>, kind: nat, machine: nat, version: nat, entry: nat, phoff: nat, shoff: nat, flags: nat,
    ehsize: nat, phentsize: nat, phnum: nat, shentsize: nat, shnum: nat, shstrndx: nat)

  function ReadHeader(file: seq<Byte>): (h: Header)
    requires |file| >= HEADER_SIZE
    ensures |h.ident| == 16 && h.entry < WORD_LIMIT
  {
    Header(file[..16], Le16(file, 16), Le16(file, 18), Le32(file, 20), Le64(file, 24), Le64(file, 32),
           Le64(file, 40), Le32(file, 48), Le16(file, 52), Le16(file, 54), Le16(file, 56),
           Le16(file, 58), Le16(file, 60), Le16(file, 62))
  }

  /** A program header: what to load, from where in the file, to where in memory. */
  datatype Segment = Segment(kind: nat, flags: nat, offset: nat, vaddr: nat, filesz: nat, memsz: nat)

  function ReadSegment(file: seq<Byte>, at: nat): (s: Segment)
    requires at + PROGRAM_HEADER_SIZE <= |file|
    ensures s.offset < WORD_LIMIT && s.vaddr < WORD_LIMIT && s.filesz < WORD_LIMIT && s.memsz < WORD_LIMIT
  {
    Segment(Le32(file, at), Le32(file, at + 4), Le64(file, at + 8), Le64(file, at + 16),
            Le64(file, at + 32), Le64(file, at + 40))
  }

  predicate IdentOk(id: seq<Byte>)
    requires |id| == 16
  {
    && id[0] == 0x7F && id[1] == 'E' as int && id[2] == 'L' as int && id[3] == 'F' as int
    && id[4] == 2 && id[5] == 1 && id[6] == 1 && id[7] == 0 && id[8] == 0
    && (forall i :: 9 <= i < 15 ==> id[i] == 0)
  }

  predicate SectionsOk(h: Header, fileLen: nat) {
    && h.shnum <= MAX_SECTIONS
    && (if h.shnum == 0 then h.shoff == 0 && h.shstrndx == 0
        else
          && h.shentsize == SECTION_HEADER_SIZE && h.shoff != 0 && h.shoff <= fileLen
          && h.shnum <= (fileLen - h.shoff) / SECTION_HEADER_SIZE
          && h.shnum * SECTION_HEADER_SIZE <= fileLen
          && (h.shstrndx < h.shnum || h.shstrndx == 0))
  }

  /** The header check of the loader. */
  predicate HeaderOk(h: Header, fileLen: nat)
    requires |h.ident| == 16
  {
    && IdentOk(h.ident) && h.kind == 2 && h.machine == 62 && h.version == 1
    && h.phoff <= fileLen && h.shoff <= fileLen && h.flags == 0 && h.ehsize == HEADER_SIZE
    && h.phentsize == PROGRAM_HEADER_SIZE && 0 < h.phnum <= MAX_PROGRAM_HEADERS
    && h.phnum <= (fileLen - h.phoff) / PROGRAM_HEADER_SIZE
    && h.phnum * PROGRAM_HEADER_SIZE <= fileLen
    && SectionsOk(h, fileLen)
  }

  /**
    A checked header puts every program header and every section header inside
    the file; no product or sum in the check can exceed 64 bits.
   */
  lemma TablesInside(h: Header, fileLen: nat, i: nat)
    requires |h.ident| == 16 && HeaderOk(h, fileLen)
    ensures i < h.phnum ==> h.phoff + i * PROGRAM_HEADER_SIZE + PROGRAM_HEADER_SIZE <= fileLen
    ensures i < h.shnum ==> h.shoff + i * SECTION_HEADER_SIZE + SECTION_HEADER_SIZE <= fileLen
    ensures h.phnum * PROGRAM_HEADER_SIZE < WORD_LIMIT && h.shnum * SECTION_HEADER_SIZE < WORD_LIMIT
  {
  }

  /** Which files pass, byte by byte. */
  ghost predicate Accepted(file: seq<Byte>, fileLen: nat)
    requires |file| >= HEADER_SIZE
  {
    var phoff, phnum := Le64(file, 32), Le16(file, 56);
    var shoff, shnum, names := Le64(file, 40), Le16(file, 60), Le16(file, 62);
    && file[..15] == [0x7f, 69, 76, 70, 2, 1, 1, 0, 0, 0, 0, 0, 0, 0, 0]
    && file[16..24] == [2, 0, 62, 0, 1, 0, 0, 0]
    && file[48..56] == [0, 0, 0, 0, 64, 0, 56, 0]
    && 1 <= phnum <= 64 && phoff + 56 * phnum <= fileLen
    && (shnum == 0 ==> shoff == 0 && names == 0)
    && (shnum > 0 ==> file[58..60] == [64, 0] && shnum <= 1024 && shoff > 0 && shoff + 64 * shnum <= fileLen)
    && (shnum > 0 ==> names < shnum)
  }

  /** The check accepts exactly those files. */
  lemma HeaderOkIff(file: seq<Byte>, fileLen: nat)
    requires |file| >= HEADER_SIZE
    ensures HeaderOk(ReadHeader(file), fileLen) <==> Accepted(file, fileLen)
  {
    hide IdentOk, Le16, Le32, Le64;
    IdentIff(file);
    FixedIff(file);
  }

  lemma IdentIff(file: seq<Byte>)
    requires |file| >= HEADER_SIZE
    ensures IdentOk(file[..16]) <==> file[..15] == [0x7f, 69, 76, 70, 2, 1, 1, 0, 0, 0, 0, 0, 0, 0, 0]
  {
    var id := file[..16];
    assert id[..15] == file[..15];
    if IdentOk(id) {
      assert id[9] == 0 && id[10] == 0 && id[11] == 0 && id[12] == 0 && id[13] == 0 && id[14] == 0;
    }
  }

  lemma FixedIff(file: seq<Byte>)
    requires |file| >= HEADER_SIZE
    ensures Le16(file, 16) == 2 && Le16(file, 18) == 62 && Le32(file, 20) == 1 <==>
            file[16..24] == [2, 0, 62, 0, 1, 0, 0, 0]
    ensures Le32(file, 48) == 0 && Le16(file, 52) == 64 && Le16(file, 54) == 56 <==>
            file[48..56] == [0, 0, 0, 0, 64, 0, 56, 0]
    ensures Le16(file, 58) == 64 <==> file[58..60] == [64, 0]
  {
    assert file[16..24] == [file[16], file[17], file[18], file[19], file[20], file[21], file[22], file[23]];
    assert file[48..56] == [file[48], file[49], file[50], file[51], file[52], file[53], file[54], file[55]];
    assert file[58..60] == [file[58], file[59]];
  }

  /** The number that `n` bytes stand for, the lowest first. */
  ghost function Value(file: seq<Byte>, at: nat, n: nat): nat
    requires at + n <= |file|
    decreases n
  {
    if n == 0 then 0 else file[at] as int + 0x100 * Value(file, at + 1, n - 1)
  }

  lemma ValueOf16(file: seq<Byte>, at: nat)
    requires at + 2 <= |file|
    ensures Value(file, at, 2) == Le16(file, at)
  {
    assert Value(file, at + 1, 1) == file[at + 1] as int + 0x100 * Value(file, at + 2, 0);
  }

  lemma ValueOf32(file: seq<Byte>, at: nat)
    requires at + 4 <= |file|
    ensures Value(file, at, 4) == Le32(file, at)
  {
    assert Value(file, at + 1, 3) == file[at + 1] as int + 0x100 * Value(file, at + 2, 2);
    ValueOf16(file, at + 2);
  }

  lemma ValueOf64(file: seq<Byte>, at: nat)
    requires at + 8 <= |file|
    ensures Value(file, at, 8) == Le64(file, at)
  {
    assert Value(file, at + 1, 7) == file[at + 1] as int + 0x100 * Value(file, at + 2, 6);
    assert Value(file, at + 2, 6) == file[at + 2] as int + 0x100 * Value(file, at + 3, 5);
    assert Value(file, at + 3, 5) == file[at + 3] as int + 0x100 * Value(file, at + 4, 4);
    ValueOf32(file, at + 4);
  }

  /** The entry address that the file names: bytes 24 to 31. */
  ghost function EntryOf(file: seq<Byte>): nat
    requires |file| >= HEADER_SIZE
  {
    Value(file, 24, 8)
  }

  lemma EntryRead(file: seq<Byte>)
    requires |file| >= HEADER_SIZE
    ensures ReadHeader(file).entry == EntryOf(file)
  {
    hide Value, Le64;
    ValueOf64(file, 24);
  }

  // ----- pages

  function PageDown(a: nat): (p: nat)
    ensures p % PAGE_SIZE == 0 && p <= a < p + PAGE_SIZE
  {
    a - a % PAGE_SIZE
  }

  function PageUp(a: nat): (p: nat)
    ensures p % PAGE_SIZE == 0 && a <= p < a + PAGE_SIZE
  {
    PageDown(a + PAGE_SIZE - 1)
  }

  predicate Readable(s: Segment) {
    s.flags / 4 % 2 == 1
  }

  predicate Writable(s: Segment) {
    s.flags / 2 % 2 == 1
  }

  predicate Executable(s: Segment) {
    s.flags % 2 == 1
  }

  function PageVaddr(s: Segment): nat {
    PageDown(s.vaddr)
  }

  function PageOffset(s: Segment): (o: nat)
    ensures o < PAGE_SIZE
  {
    s.vaddr % PAGE_SIZE
  }

  /** Bytes of memory the segment takes, in whole pages from its first page. */
  function Span(s: Segment): nat {
    PageUp(PageOffset(s) + s.memsz)
  }

  /** End of the file bytes, counted from the segment's first page. */
  function FileSize(s: Segment): nat {
    PageOffset(s) + s.filesz
  }

  /** The part mapped straight from the file: whole pages, or all of it when no zeros follow. */
  function DirectSize(s: Segment): (n: nat)
    ensures n % PAGE_SIZE == 0
  {
    if s.filesz == s.memsz then PageUp(FileSize(s)) else PageDown(FileSize(s))
  }

  /** File bytes on the page that they share with zeros. */
  function MixedSize(s: Segment): (n: nat)
    ensures n < PAGE_SIZE
  {
    if s.filesz == s.memsz then 0 else FileSize(s) % PAGE_SIZE
  }

  function FilledSize(s: Segment): (n: nat)
    ensures n % PAGE_SIZE == 0
  {
    DirectSize(s) + (if MixedSize(s) != 0 then PAGE_SIZE else 0)
  }

  lemma FilledIs(s: Segment)
    ensures FilledSize(s) == DirectSize(s) + (if MixedSize(s) != 0 then PAGE_SIZE else 0)
    ensures PageVaddr(s) % PAGE_SIZE == 0 && Span(s) % PAGE_SIZE == 0
  {
  }

  /** The copy to the mixed page of a congruent segment ends where its file bytes end. */
  lemma MixedInFile(s: Segment)
    requires Congruent(s) && MixedSize(s) != 0 && s.filesz <= s.memsz
    ensures PageDown(s.offset) + DirectSize(s) + MixedSize(s) == s.offset + s.filesz
  {
    FilledWithin(s);
  }

  /** File-backed and mixed pages reach past the file bytes and stay inside the segment's pages. */
  lemma FilledWithin(s: Segment)
    requires s.filesz <= s.memsz
    ensures FileSize(s) <= FilledSize(s) <= Span(s)
    ensures s.filesz < s.memsz ==> DirectSize(s) + MixedSize(s) == FileSize(s)
  {
    var f, m := FileSize(s), PageOffset(s) + s.memsz;
    assert f <= m;
    if s.filesz < s.memsz && MixedSize(s) != 0 {
      assert PageUp(m) >= m > f > PageDown(f);
    }
  }

  predicate Congruent(s: Segment) {
    s.offset % PAGE_SIZE == s.vaddr % PAGE_SIZE
  }

  /** What the format promises at `vaddr + k`: the file's bytes, then zeros. */
  function ElfByte(file: seq<Byte>, s: Segment, k: nat): Byte
    requires s.offset + s.filesz <= |file|
  {
    if k < s.filesz then file[s.offset + k] else 0
  }

  /** Where in the file the loader takes the byte at `vaddr` from. */
  function Origin(s: Segment): nat {
    if Writable(s) then s.offset else PageDown(s.offset) + PageOffset(s)
  }

  /** What the loader puts at `vaddr + k`. */
  function LoadedByte(file: seq<Byte>, s: Segment, k: nat): Byte
    requires Origin(s) + s.filesz <= |file|
  {
    if k < s.filesz then file[Origin(s) + k] else 0
  }

  /** The segments the loader gets right, whatever the file's contents. */
  predicate Sound(s: Segment) {
    Writable(s) || Congruent(s) || s.filesz == 0
  }

  /** A sound segment's bytes come from where the format says. */
  lemma SoundBytes(file: seq<Byte>, s: Segment, k: nat)
    requires Sound(s) && s.filesz <= s.memsz && s.offset + s.filesz <= |file| && Origin(s) + s.filesz <= |file|
    ensures LoadedByte(file, s, k) == ElfByte(file, s, k)
  {
    assert s.filesz > 0 ==> Origin(s) == s.offset;
  }
}
