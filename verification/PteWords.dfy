/** Page-table entries as the 64-bit words they are, and what the tables read back from them. */
module PteWords {
  import opened PageTree
  import opened AddressSpaces

  const ADDR_MASK: bv64 := 0x000f_ffff_ffff_f000
  const PRESENT: bv64 := 0x001
  const WRITABLE: bv64 := 0x002
  const USER: bv64 := 0x004
  const HUGE: bv64 := 0x080
  const NX: bv64 := 0x8000_0000_0000_0000
  const PROTECTION: bv64 := 0x8000_0000_0000_0006

  /** The word that mapping stores in a last-level entry. */
  function LeafWord(pa: bv64, flags: bv64): bv64 {
    (pa & ADDR_MASK) | PRESENT | (flags & PROTECTION)
  }

  /** The word that building a table stores in the entry above it. */
  function LinkWord(table: bv64, user: bool): bv64 {
    table | PRESENT | WRITABLE | (if user then USER else 0)
  }

  /** The word after a change of protection. */
  function ProtectWord(w: bv64, flags: bv64): bv64 {
    (w & !PROTECTION) | (flags & PROTECTION)
  }

  /** An entry as the model of the tables has it. */
  function ToEntry(w: bv64): Entry {
    Entry(w & PRESENT != 0, w & WRITABLE != 0, w & USER != 0, w & HUGE != 0, w & NX != 0,
          ((w & ADDR_MASK) >> 12) as nat)
  }

  function ToProtection(flags: bv64): Protection {
    Protection(flags & WRITABLE != 0, flags & USER != 0, flags & NX != 0)
  }

  predicate PageAligned(pa: bv64) {
    pa & 0xfff == 0
  }

  /** Below 2^52: no bit outside the address field. */
  predicate Addressable(pa: bv64) {
    pa >> 52 == 0
  }

  /**
    The address that unmapping reads from an entry is the one that mapping was
    given exactly when it is below 2^52.
   */
  lemma AddressReadsBack(pa: bv64, flags: bv64)
    requires PageAligned(pa)
    ensures LeafWord(pa, flags) & ADDR_MASK == pa <==> Addressable(pa)
  {
  }

  /** A stored leaf is the entry of the model. */
  lemma LeafIsEntry(pa: bv64, flags: bv64)
    requires PageAligned(pa) && Addressable(pa)
    ensures ToEntry(LeafWord(pa, flags)) == PageEntry((pa >> 12) as nat, ToProtection(flags))
  {
    hide LeafWord, PageAligned, Addressable;
    AddressReadsBack(pa, flags);
    LeafState(pa, flags);
    LeafFlags(pa, flags);
  }

  lemma LeafState(pa: bv64, flags: bv64)
    ensures var w := LeafWord(pa, flags);
            w & PRESENT != 0 && w & HUGE == 0
  {
  }

  lemma LeafFlags(pa: bv64, flags: bv64)
    ensures var w := LeafWord(pa, flags);
            w & WRITABLE == flags & WRITABLE && w & USER == flags & USER && w & NX == flags & NX
  {
  }

  lemma LinkIsEntry(table: bv64, user: bool)
    requires PageAligned(table) && Addressable(table)
    ensures ToEntry(LinkWord(table, user)) == Entry(true, true, user, false, false, (table >> 12) as nat)
  {
    hide LinkWord, PageAligned, Addressable;
    LinkAddress(table, user);
    LinkFlags(table, user);
  }

  lemma LinkAddress(table: bv64, user: bool)
    requires PageAligned(table) && Addressable(table)
    ensures LinkWord(table, user) & ADDR_MASK == table
  {
  }

  lemma LinkFlags(table: bv64, user: bool)
    requires PageAligned(table) && Addressable(table)
    ensures var w := LinkWord(table, user);
            && w & PRESENT != 0 && w & HUGE == 0 && w & WRITABLE != 0 && w & NX == 0 && (w & USER != 0) == user
  {
  }

  /** A change of protection keeps the address and the other bits, and sets exactly the three flags. */
  lemma ProtectIsEntry(w: bv64, flags: bv64)
    ensures var p := ToProtection(flags);
            ToEntry(ProtectWord(w, flags)) == ToEntry(w).(writable := p.writable, user := p.user, nx := p.nx)
  {
    hide ProtectWord;
    ProtectKept(w, flags);
    ProtectFlags(w, flags);
  }

  lemma ProtectKept(w: bv64, flags: bv64)
    ensures var v := ProtectWord(w, flags);
            v & ADDR_MASK == w & ADDR_MASK && v & PRESENT == w & PRESENT && v & HUGE == w & HUGE
  {
  }

  lemma ProtectFlags(w: bv64, flags: bv64)
    ensures var v := ProtectWord(w, flags);
            v & WRITABLE == flags & WRITABLE && v & USER == flags & USER && v & NX == flags & NX
  {
  }

  /** The cleared word is the empty entry. */
  lemma ZeroIsEmpty()
    ensures ToEntry(0) == NO_ENTRY
  {
    assert (0 as bv64) & ADDR_MASK == 0;
  }
}
