/**
  Which segments the loader gets right, over the files it can be given: for every
  other segment a file is built, header and program header included, that passes
  all checks and is loaded wrongly.
 */
module ElfWitness {
  import opened Basics
  import opened ElfFormat
  import opened ElfLoader
  import opened VmoRights

  // ----- writing numbers into a file

  function Byte16(v: nat, k: nat): Byte
    requires v < 0x1_0000 && k < 2
  {
    if k == 0 then v % 256 else v / 256
  }

  function Byte32(v: nat, k: nat): Byte
    requires v < 0x1_0000_0000 && k < 4
  {
    if k < 2 then Byte16(v % 0x1_0000, k) else Byte16(v / 0x1_0000, k - 2)
  }

  function Byte64(v: nat, k: nat): Byte
    requires v < WORD_LIMIT && k < 8
  {
    if k < 4 then Byte32(v % 0x1_0000_0000, k) else Byte32(v / 0x1_0000_0000, k - 4)
  }

  lemma Le16Of(file: seq<Byte>, at: nat, v: nat)
    requires at + 2 <= |file| && v < 0x1_0000 && forall k: nat :: k < 2 ==> file[at + k] == Byte16(v, k)
    ensures Le16(file, at) == v
  {
    assert file[at + 0] == Byte16(v, 0) && file[at + 1] == Byte16(v, 1);
  }

  lemma Le32Of(file: seq<Byte>, at: nat, v: nat)
    requires at + 4 <= |file| && v < 0x1_0000_0000 && forall k: nat :: k < 4 ==> file[at + k] == Byte32(v, k)
    ensures Le32(file, at) == v
  {
    hide Byte16, Le16;
    forall k: nat | k < 2
      ensures file[at + k] == Byte16(v % 0x1_0000, k) && file[at + 2 + k] == Byte16(v / 0x1_0000, k)
    {
      assert file[at + k] == Byte32(v, k) && file[at + (k + 2)] == Byte32(v, k + 2);
    }
    Le16Of(file, at, v % 0x1_0000);
    Le16Of(file, at + 2, v / 0x1_0000);
  }

  lemma Le64Of(file: seq<Byte>, at: nat, v: nat)
    requires at + 8 <= |file| && v < WORD_LIMIT && forall k: nat :: k < 8 ==> file[at + k] == Byte64(v, k)
    ensures Le64(file, at) == v
  {
    hide Byte32, Le32;
    forall k: nat | k < 4
      ensures file[at + k] == Byte32(v % 0x1_0000_0000, k) && file[at + 4 + k] == Byte32(v / 0x1_0000_0000, k)
    {
      assert file[at + k] == Byte64(v, k) && file[at + (k + 4)] == Byte64(v, k + 4);
    }
    Le32Of(file, at, v % 0x1_0000_0000);
    Le32Of(file, at + 4, v / 0x1_0000_0000);
  }

  // ----- a file with one segment

  /** The fields of a program header fit their width. */
  predicate Encodable(s: Segment) {
    && s.kind < 0x1_0000_0000 && s.flags < 0x1_0000_0000 && s.offset < WORD_LIMIT && s.vaddr < WORD_LIMIT
    && s.filesz < WORD_LIMIT && s.memsz < WORD_LIMIT
  }

  /** The fields of a header fit their widths. */
  predicate HeaderFits(h: Header) {
    && |h.ident| == 16 && h.kind < 0x1_0000 && h.machine < 0x1_0000 && h.version < 0x1_0000_0000
    && h.entry < WORD_LIMIT && h.phoff < WORD_LIMIT && h.shoff < WORD_LIMIT && h.flags < 0x1_0000_0000
    && h.ehsize < 0x1_0000 && h.phentsize < 0x1_0000 && h.phnum < 0x1_0000
    && h.shentsize < 0x1_0000 && h.shnum < 0x1_0000 && h.shstrndx < 0x1_0000
  }

  /** The bytes of a header, field after field. */
  function HeaderByte(h: Header, i: nat): Byte
    requires HeaderFits(h) && i < HEADER_SIZE
  {
    if i < 16 then h.ident[i]
    else if i < 18 then Byte16(h.kind, i - 16)
    else if i < 20 then Byte16(h.machine, i - 18)
    else if i < 24 then Byte32(h.version, i - 20)
    else if i < 32 then Byte64(h.entry, i - 24)
    else if i < 40 then Byte64(h.phoff, i - 32)
    else if i < 48 then Byte64(h.shoff, i - 40)
    else if i < 52 then Byte32(h.flags, i - 48)
    else if i < 54 then Byte16(h.ehsize, i - 52)
    else if i < 56 then Byte16(h.phentsize, i - 54)
    else if i < 58 then Byte16(h.phnum, i - 56)
    else if i < 60 then Byte16(h.shentsize, i - 58)
    else if i < 62 then Byte16(h.shnum, i - 60)
    else Byte16(h.shstrndx, i - 62)
  }

  /** Every header reads back from its bytes, field by field. */
  lemma HeaderReadsBack(file: seq<Byte>, h: Header)
    requires |file| >= HEADER_SIZE && HeaderFits(h)
    requires forall i: nat :: i < HEADER_SIZE ==> file[i] == HeaderByte(h, i)
    ensures ReadHeader(file) == h
  {
    hide Byte16, Byte32, Byte64, Le16, Le32, Le64;
    assert file[..16] == h.ident;
    SmallFields(file, h);
    Field32(file, h, 20, h.version);
    Field64(file, h, 24, h.entry);
    Field64(file, h, 32, h.phoff);
    Field64(file, h, 40, h.shoff);
    Field32(file, h, 48, h.flags);
  }

  lemma SmallFields(file: seq<Byte>, h: Header)
    requires |file| >= HEADER_SIZE && HeaderFits(h)
    requires forall i: nat :: i < HEADER_SIZE ==> file[i] == HeaderByte(h, i)
    ensures Le16(file, 16) == h.kind && Le16(file, 18) == h.machine && Le16(file, 52) == h.ehsize
    ensures Le16(file, 54) == h.phentsize && Le16(file, 56) == h.phnum && Le16(file, 58) == h.shentsize
    ensures Le16(file, 60) == h.shnum && Le16(file, 62) == h.shstrndx
  {
    hide Byte16, Byte32, Byte64, Le16;
    Field16(file, h, 16, h.kind);
    Field16(file, h, 18, h.machine);
    Field16(file, h, 52, h.ehsize);
    Field16(file, h, 54, h.phentsize);
    Field16(file, h, 56, h.phnum);
    Field16(file, h, 58, h.shentsize);
    Field16(file, h, 60, h.shnum);
    Field16(file, h, 62, h.shstrndx);
  }

  lemma Field16(file: seq<Byte>, h: Header, at: nat, v: nat)
    requires |file| >= HEADER_SIZE && HeaderFits(h) && at + 2 <= HEADER_SIZE && v < 0x1_0000
    requires forall i: nat :: i < HEADER_SIZE ==> file[i] == HeaderByte(h, i)
    requires HeaderByte(h, at) == Byte16(v, 0) && HeaderByte(h, at + 1) == Byte16(v, 1)
    ensures Le16(file, at) == v
  {
    hide HeaderByte, Byte16, Le16;
    forall k: nat | k < 2
      ensures file[at + k] == Byte16(v, k)
    {
      assert k == 0 || k == 1;
    }
    Le16Of(file, at, v);
  }

  lemma Field32(file: seq<Byte>, h: Header, at: nat, v: nat)
    requires |file| >= HEADER_SIZE && HeaderFits(h) && at + 4 <= HEADER_SIZE && v < 0x1_0000_0000
    requires forall i: nat :: i < HEADER_SIZE ==> file[i] == HeaderByte(h, i)
    requires forall k: nat :: k < 4 ==> HeaderByte(h, at + k) == Byte32(v, k)
    ensures Le32(file, at) == v
  {
    hide HeaderByte, Byte32, Le32;
    forall k: nat | k < 4
      ensures file[at + k] == Byte32(v, k)
    {
      assert HeaderByte(h, at + k) == Byte32(v, k);
    }
    Le32Of(file, at, v);
  }

  lemma Field64(file: seq<Byte>, h: Header, at: nat, v: nat)
    requires |file| >= HEADER_SIZE && HeaderFits(h) && at + 8 <= HEADER_SIZE && v < WORD_LIMIT
    requires forall i: nat :: i < HEADER_SIZE ==> file[i] == HeaderByte(h, i)
    requires forall k: nat :: k < 8 ==> HeaderByte(h, at + k) == Byte64(v, k)
    ensures Le64(file, at) == v
  {
    hide HeaderByte, Byte64, Le64;
    forall k: nat | k < 8
      ensures file[at + k] == Byte64(v, k)
    {
      assert HeaderByte(h, at + k) == Byte64(v, k);
    }
    Le64Of(file, at, v);
  }

  const IDENT: seq<Byte> := [0x7f, 69, 76, 70, 2, 1, 1, 0, 0, 0, 0, 0, 0, 0, 0, 0]

  /** An executable for x86-64 with this entry, one program header, at `phoff`, and no sections. */
  function HeaderFor(entry: nat, phoff: nat): (h: Header)
    requires entry < WORD_LIMIT && phoff < WORD_LIMIT
    ensures HeaderFits(h)
  {
    Header(IDENT, 2, 62, 1, entry, phoff, 0, 0, 64, 56, 1, 0, 0, 0)
  }

  function SegmentByte(s: Segment, i: nat): Byte
    requires Encodable(s) && i < PROGRAM_HEADER_SIZE
  {
    if i < 4 then Byte32(s.kind, i)
    else if i < 8 then Byte32(s.flags, i - 4)
    else if i < 16 then Byte64(s.offset, i - 8)
    else if i < 24 then Byte64(s.vaddr, i - 16)
    else if 32 <= i < 40 then Byte64(s.filesz, i - 32)
    else if 40 <= i < 48 then Byte64(s.memsz, i - 40)
    else 0
  }

  /** The program header comes after everything the segment names in the file. */
  function TableAt(s: Segment): nat {
    (if s.offset < Origin(s) then Origin(s) else s.offset) + s.filesz
  }

  function FileLen(s: Segment): nat {
    PageUp(TableAt(s) + PROGRAM_HEADER_SIZE)
  }

  /** The header, a one at the segment's offset, zeros elsewhere, and the program header. */
  function FileFor(s: Segment, entry: nat): (file: seq<Byte>)
    requires Encodable(s) && TableAt(s) < WORD_LIMIT && entry < WORD_LIMIT
    ensures |file| == FileLen(s)
  {
    seq(FileLen(s), i requires 0 <= i =>
      if i < HEADER_SIZE then HeaderByte(HeaderFor(entry, TableAt(s)), i)
      else if TableAt(s) <= i < TableAt(s) + PROGRAM_HEADER_SIZE then SegmentByte(s, i - TableAt(s))
      else if i == s.offset then 1
      else 0)
  }

  /** The file has the entry that it was made with. */
  lemma ReadsHeader(s: Segment, entry: nat)
    requires Encodable(s) && HEADER_SIZE <= TableAt(s) < WORD_LIMIT && entry < WORD_LIMIT
    ensures |FileFor(s, entry)| >= HEADER_SIZE
    ensures var h := ReadHeader(FileFor(s, entry));
            h == HeaderFor(entry, TableAt(s)) && HeaderOk(h, FileLen(s))
    ensures EntryOf(FileFor(s, entry)) == entry
  {
    hide HeaderByte, ReadHeader, EntryOf;
    var file := FileFor(s, entry);
    HeaderReadsBack(file, HeaderFor(entry, TableAt(s)));
    EntryRead(file);
    assert (FileLen(s) - TableAt(s)) / PROGRAM_HEADER_SIZE >= 1;
  }

  lemma ReadsSegment(s: Segment, entry: nat)
    requires Encodable(s) && HEADER_SIZE <= TableAt(s) < WORD_LIMIT && entry < WORD_LIMIT
    ensures TableAt(s) + PROGRAM_HEADER_SIZE <= |FileFor(s, entry)|
    ensures ReadSegment(FileFor(s, entry), TableAt(s)) == s
  {
    var file, at := FileFor(s, entry), TableAt(s);
    assert forall i: nat :: i < PROGRAM_HEADER_SIZE ==> file[at + i] == SegmentByte(s, i);
    SegmentFields(file, at, s);
  }

  lemma SegmentFields(file: seq<Byte>, at: nat, s: Segment)
    requires Encodable(s) && at + PROGRAM_HEADER_SIZE <= |file|
    requires forall i: nat :: i < PROGRAM_HEADER_SIZE ==> file[at + i] == SegmentByte(s, i)
    ensures ReadSegment(file, at) == s
  {
    hide Byte32, Byte64, Le32, Le64;
    forall k: nat | k < 4
      ensures file[at + k] == Byte32(s.kind, k)
    {
      assert file[at + k] == SegmentByte(s, k);
    }
    Le32Of(file, at, s.kind);
    forall k: nat | k < 4
      ensures file[at + 4 + k] == Byte32(s.flags, k)
    {
      assert file[at + (4 + k)] == SegmentByte(s, 4 + k);
    }
    Le32Of(file, at + 4, s.flags);
    forall k: nat | k < 8
      ensures file[at + 8 + k] == Byte64(s.offset, k) && file[at + 16 + k] == Byte64(s.vaddr, k)
      ensures file[at + 32 + k] == Byte64(s.filesz, k) && file[at + 40 + k] == Byte64(s.memsz, k)
    {
      assert file[at + (8 + k)] == SegmentByte(s, 8 + k) && file[at + (16 + k)] == SegmentByte(s, 16 + k);
      assert file[at + (32 + k)] == SegmentByte(s, 32 + k) && file[at + (40 + k)] == SegmentByte(s, 40 + k);
    }
    Le64Of(file, at + 8, s.offset);
    Le64Of(file, at + 16, s.vaddr);
    Le64Of(file, at + 32, s.filesz);
    Le64Of(file, at + 40, s.memsz);
  }

  // ----- the exact condition

  /** A loadable segment that some file can hold, with its bytes beyond the ELF header. */
  predicate Holdable(s: Segment) {
    && Encodable(s) && s.kind == PT_LOAD && s.filesz <= s.memsz && (s.memsz > 0 ==> PageVaddr(s) + Span(s) < WORD_LIMIT)
    && HEADER_SIZE <= s.offset && HEADER_SIZE <= Origin(s) && FileLen(s) < WORD_LIMIT
  }

  /** The loader puts at every address of the segment what the format promises. */
  ghost predicate LoadsRight(file: seq<Byte>, s: Segment) {
    s.offset + s.filesz <= |file| && Origin(s) + s.filesz <= |file| ==>
      forall k: nat :: k < s.memsz ==> LoadedByte(file, s, k) == ElfByte(file, s, k)
  }

  /** The file made for a segment passes every check of the loader and holds that one segment. */
  lemma FileIsWellFormed(s: Segment, entry: nat)
    requires Holdable(s) && entry < WORD_LIMIT
    ensures WellFormed(FileFor(s, entry), FileLen(s)) && SomeSegment(FileFor(s, entry), FileLen(s), s)
  {
    hide FileFor, HeaderOk, ReadHeader, ReadSegment;
    ReadsHeader(s, entry);
    ReadsSegment(s, entry);
    var file := FileFor(s, entry);
    SomeSegmentAt(file, FileLen(s), 0);
    forall x | SomeSegment(file, FileLen(s), x)
      ensures Fits(x, FileLen(s))
    {
      assert x == s;
    }
  }

  /** For a segment that is not sound that file is loaded wrongly, at its very first byte. */
  lemma WrongFirstByte(s: Segment, entry: nat)
    requires Holdable(s) && !Sound(s) && entry < WORD_LIMIT
    ensures s.offset + s.filesz <= |FileFor(s, entry)| && Origin(s) + s.filesz <= |FileFor(s, entry)|
    ensures LoadedByte(FileFor(s, entry), s, 0) == 0 && ElfByte(FileFor(s, entry), s, 0) == 1
  {
    assert Origin(s) != s.offset;
  }

  /**
    Over all well-formed files that hold the segment: the loader gets it right in
    every one of them exactly if it is writable, or its offset and address agree
    modulo the page size, or it has no file bytes.
   */
  lemma LoadsTheImageIff(s: Segment)
    requires Holdable(s)
    ensures Sound(s) <==> forall file: seq<Byte>, fileLen: nat ::
                            WellFormed(file, fileLen) && SomeSegment(file, fileLen, s) ==> LoadsRight(file, s)
  {
    hide WellFormed, SomeSegment, FileFor, LoadedByte, ElfByte, Sound;
    if Sound(s) {
      forall file: seq<Byte>, k: nat | s.offset + s.filesz <= |file| && Origin(s) + s.filesz <= |file| && k < s.memsz
        ensures LoadedByte(file, s, k) == ElfByte(file, s, k)
      {
        SoundBytes(file, s, k);
      }
    } else {
      FileIsWellFormed(s, 0);
      WrongFirstByte(s, 0);
      NotEmpty(s);
      assert !LoadsRight(FileFor(s, 0), s);
    }
  }

  lemma NotEmpty(s: Segment)
    requires !Sound(s) && s.filesz <= s.memsz
    ensures s.memsz > 0
  {
  }

  /** Wherever such a file is loaded, what the program sees is the ELF image exactly if the segment is sound. */
  lemma RightExactlyIfSound(s: Segment, entry: nat, sp: Space, vmos: map<nat, Vmo>)
    requires Holdable(s) && s.memsz > 0 && entry < WORD_LIMIT
    requires SegmentLoaded(sp, vmos, FileFor(s, entry), FileLen(s), s)
    ensures ElfImage(sp, vmos, FileFor(s, entry), s) <==> Sound(s)
  {
    hide FileFor;
    if Sound(s) {
      SoundIsElf(sp, vmos, FileFor(s, entry), FileLen(s), s);
    } else {
      WrongFirstByte(s, entry);
      assert Holds(sp, vmos, s.vaddr + 0, LoadedByte(FileFor(s, entry), s, 0));
      assert !Holds(sp, vmos, s.vaddr + 0, ElfByte(FileFor(s, entry), s, 0));
    }
  }

  /** The segment has user addresses of its own, and there is room for the file and for filling the segment. */
  predicate Placed(s: Segment) {
    && Readable(s) && s.memsz > 0 && PageVaddr(s) > 0 && PageVaddr(s) + Span(s) <= USER_TOP
    && LOAD_BASE + FileLen(s) <= USER_TOP && Span(s) <= CAPACITY
  }

  const ALL_RIGHTS := Rights(true, true, true, true)

  lemma FileAllows(s: Segment, entry: nat)
    requires Holdable(s) && entry < WORD_LIMIT
    ensures Allows(Vmo(FileFor(s, entry), ALL_RIGHTS), s)
  {
    hide FileFor, Readable, Writable, Executable;
    if !Writable(s) {
      FilledWithin(s);
      assert PageDown(s.offset) + FileSize(s) <= TableAt(s);
    }
  }

  lemma NeedFits(s: Segment)
    requires Placed(s)
    ensures Need(s) <= CAPACITY
  {
  }

  /** The file made for such a segment is sure to be loaded into an empty space. */
  lemma FileIsSuited(s: Segment, entry: nat)
    requires Holdable(s) && Placed(s) && entry < WORD_LIMIT
    ensures Suited(map[], map[], Vmo(FileFor(s, entry), ALL_RIGHTS), FileLen(s), 0)
  {
    hide FileFor, HeaderOk, ReadHeader, ReadSegment, WellFormed, Allows, SomeSegment, Need;
    var bytes := FileFor(s, entry);
    ReadsHeader(s, entry);
    ReadsSegment(s, entry);
    FileIsWellFormed(s, entry);
    FileAllows(s, entry);
    NeedFits(s);
    var h := ReadHeader(bytes);
    assert SegmentAt(bytes, h.phoff, 0) == s;
    assert NeedSum(bytes, h.phoff, 1) == NeedSum(bytes, h.phoff, 0) + Need(s) <= CAPACITY;
    forall i: nat | i < h.phnum
      ensures Welcome(map[], Vmo(bytes, ALL_RIGHTS), SegmentAt(bytes, h.phoff, i))
    {
      assert i == 0;
    }
  }

  /**
    A run of the loader on the file of a segment, into an empty space and with every
    request granted: it succeeds and returns the entry address of the file, and what
    the program sees is the ELF image exactly if the segment is sound.
   */
  method LoadsFile(s: Segment, entry: nat) returns (o: Outcome, loader: Loader)
    requires Holdable(s) && Placed(s) && entry < WORD_LIMIT
    ensures o == Loaded(entry) && 1 in loader.vmos && loader.vmos[1].bytes == FileFor(s, entry)
    ensures ElfImage(loader.target, loader.vmos, FileFor(s, entry), s) <==> Sound(s)
  {
    hide FileFor, HeaderOk, ReadHeader, ReadSegment, Suited, ElfImage, Holdable, OnlySegments, Unwritable, Image;
    hide Placed, Sound, Encodable, FileLen, TableAt, WellFormed, SomeSegment, Writable, Keeps, Loads, Congruent;
    hide Accepted, EntryOf;
    InFile(s);
    FileIsSuited(s, entry);
    ReadsHeader(s, entry);
    ReadsSegment(s, entry);
    WholePages(s);
    var bytes := FileFor(s, entry);
    loader := new Loader(_ => true, 1, Vmo(bytes, ALL_RIGHTS));
    o := loader.ElfLoad(1, FileLen(s));
    loader.FileKept(1, map[1 := Vmo(bytes, ALL_RIGHTS)]);
    assert SegmentAt(bytes, TableAt(s), 0) == s;
    assert SegmentLoaded(loader.target, loader.vmos, bytes, FileLen(s), SegmentAt(bytes, TableAt(s), 0));
    RightExactlyIfSound(s, entry, loader.target, loader.vmos);
  }

  lemma InFile(s: Segment)
    requires Holdable(s) && Placed(s)
    ensures Encodable(s) && HEADER_SIZE <= TableAt(s) < WORD_LIMIT && s.memsz > 0
  {
  }

  lemma WholePages(s: Segment)
    ensures FileLen(s) % PAGE_SIZE == 0
  {
  }

  /** One byte at offset 4096, to be read at address 8208: a file that is accepted and shows another byte there. */
  lemma ConcreteWrongFile()
    ensures var s := Segment(PT_LOAD, 4, 4096, 8208, 1, 1);
            && Holdable(s) && Placed(s) && !Writable(s) && !Congruent(s) && !Sound(s)
            && WellFormed(FileFor(s, 8208), 8192) && SomeSegment(FileFor(s, 8208), 8192, s)
            && |FileFor(s, 8208)| == 8192
            && LoadedByte(FileFor(s, 8208), s, 0) == 0 && ElfByte(FileFor(s, 8208), s, 0) == 1
  {
    hide WellFormed, SomeSegment, FileFor;
    var s := Segment(PT_LOAD, 4, 4096, 8208, 1, 1);
    assert Origin(s) == 4112 && FileLen(s) == 8192;
    FileIsWellFormed(s, 8208);
    WrongFirstByte(s, 8208);
  }
}
