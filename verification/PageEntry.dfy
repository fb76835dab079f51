/** Page-table entries as 64-bit words (src/arch/paging.rs), with the code's masks taken literally. */
module PageEntry {
  import opened PageOffset

  predicate Present(e: bv64) {
    e & 1 != 0
  }

  /** Bits 4 to 47: the mask overlaps flag bits 4 to 11. */
  function Addr(e: bv64): bv64 {
    e & 0x0000_FFFF_FFFF_FFF0
  }

  function SetAddr(e: bv64, addr: bv64): bv64 {
    (e & !0x0000_FFFF_FFFF_FFF0) | (addr & 0x0000_FFFF_FFFF_FFF0)
  }

  function SetPresent(e: bv64, present: bool): bv64 {
    (e & !1) | (if present then 1 else 0)
  }

  function SetWritable(e: bv64, writable: bool): bv64 {
    (e & !2) | (if writable then 2 else 0)
  }

  function SetAccessed(e: bv64, accessed: bool): bv64 {
    (e & !32) | (if accessed then 32 else 0)
  }

  function SetDirty(e: bv64, dirty: bool): bv64 {
    (e & !64) | (if dirty then 64 else 0)
  }

  function Flags(e: bv64): bv64 {
    e & 0xFFF
  }

  function SetFlags(e: bv64, flags: bv64): bv64 {
    (e & !0xFFF) | (flags & 0xFFF)
  }

  /** The page frame of an entry: bits 12 to 47. */
  function Frame(e: bv64): bv64 {
    Addr(e) & !0xFFF
  }

  /** Flags with one more bit raised. */
  function Raise(flags: bv64, bit: bv64): bv64 {
    flags | bit
  }

  /** A page frame joined with the offset of a virtual address. */
  function Join(frame: bv64, virt: nat): bv64 {
    frame | Offset(virt)
  }

  /** The entry `map_page` stores in an upper table for a new lower table at `b`. */
  function LinkEntry(e: bv64, b: bv64): bv64 {
    SetWritable(SetPresent(SetAddr(e, b), true), true)
  }

  /** Where a table may be allocated: 16-byte aligned and below 2^48. */
  predicate Usable(b: bv64) {
    b & 0x0000_FFFF_FFFF_FFF0 == b
  }

  /** Whatever the entry held, the pointer it stores reads back exactly when the table is usable. */
  lemma LinkReadsBack(e: bv64, b: bv64)
    ensures Present(LinkEntry(e, b))
    ensures Addr(LinkEntry(e, b)) == b <==> Usable(b)
  {
  }

  /** An upper entry: empty, or a table address with exactly the present and writable bits. */
  predicate Plain(e: bv64) {
    e == 0 || e == Addr(e) | 3
  }

  lemma PlainPointer(b: bv64)
    requires Usable(b)
    ensures Plain(b | 3) && Plain(0)
  {
  }

  lemma PlainAbsent(e: bv64)
    requires Plain(e) && !Present(e)
    ensures e == 0
  {
  }

  lemma PlainPresent(e: bv64)
    requires Plain(e)
    ensures e == 0 || (Present(e) && e == Addr(e) | 3)
  {
  }

  /** Linking a fresh table from an absent plain entry leaves a plain entry. */
  lemma PlainLink(e: bv64, b: bv64)
    requires Plain(e) && !Present(e) && Usable(b)
    ensures Plain(LinkEntry(e, b)) && Plain(0)
  {
    hide Plain, Present, Usable, LinkEntry;
    PlainAbsent(e);
    LinkFromEmpty(b);
    PlainPointer(b);
  }

  /** Stored over an empty entry, the pointer carries the present and writable bits and nothing else. */
  lemma LinkFromEmpty(b: bv64)
    requires Usable(b)
    ensures LinkEntry(0, b) == b | 3
  {
  }

  /** `addr()` returns the page-aligned part of an entry exactly when bits 4 to 11 are clear. */
  lemma AddrExactIff(e: bv64, b: bv64)
    requires e & 0x0000_FFFF_FFFF_F000 == b
    ensures Addr(e) == b <==> e & 0xFF0 == 0
  {
  }

  /**
    Once its accessed bit is set, an entry reads back its table address exactly when the address has that bit itself.
   */
  lemma AccessedBreaksAddr(e: bv64, b: bv64)
    requires Usable(b)
    ensures Addr(SetAccessed(LinkEntry(e, b), true)) == b <==> b & 32 == 32
  {
    assert Addr(SetAccessed(LinkEntry(e, b), true)) == b | 32;
    AlreadySet(b);
  }

  lemma AlreadySet(b: bv64)
    ensures b | 32 == b <==> b & 32 == 32
  {
  }
}
