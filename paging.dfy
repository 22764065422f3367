/**
 * The page-table entry layout and table indexing of boot.rs, following the
 * x86-64 4-level paging format (section 4.5 of the Intel 64 and IA-32
 * Architectures Software Developer's Manual, Volume 3A): bit 0 of an entry is
 * the present flag, bits 0-11 hold the flags, bits 12-51 the 4 KiB-aligned
 * frame address, and bits 52-63 are left to other uses. A virtual address
 * selects one of 512 entries per level through 9 of its bits.
 */
module Paging {
  const PT_ENTRIES: int := 512
  const PT_LEVELS: int := 4
  /** `PT_LEVELS - 1`, the level `map_page` writes the final entry at. */
  const LEAF_LEVEL: bv64 := (PT_LEVELS - 1) as bv64

  /** Bits 12-51: the physical frame address. */
  const FRAME_MASK: bv64 := 0x000f_ffff_ffff_f000
  /** Bits 0-11 and 52-63: everything `set_frame_address` keeps. */
  const FRAME_KEEP_MASK: bv64 := 0xfff0_0000_0000_0fff
  /** Bits 0-11: the flags. */
  const FLAGS_MASK: bv64 := 0xfff
  /** Bits 12-63: everything `set_flags` keeps. */
  const FLAGS_KEEP_MASK: bv64 := 0xffff_ffff_ffff_f000

  /** `PageTableEntry(u64)`. */
  datatype PageTableEntry = PageTableEntry(bits: bv64)

  /** `is_present`: bit 0 of the entry. */
  predicate IsPresent(e: PageTableEntry) {
    e.bits & 1 != 0
  }

  /** An entry is present exactly when its value is odd. */
  lemma PresentIsOdd(e: PageTableEntry)
    ensures IsPresent(e) <==> e.bits % 2 == 1
  {
  }

  /**
   * `frame_address`: an address whose low 12 bits and bits 52-63 are zero,
   * which together with those bits of the entry makes up the whole entry.
   */
  function FrameAddress(e: PageTableEntry): (a: bv64)
    ensures a & 0xfff == 0
    ensures a >> 52 == 0
  {
    e.bits & FRAME_MASK
  }

  /** A frame address is a multiple of the 4 KiB page size. */
  lemma FrameAddressAligned(e: PageTableEntry)
    ensures FrameAddress(e) % 4096 == 0
  {
  }

  /** `flags`: the low 12 bits, which together with the rest of the entry make up the whole entry. */
  function Flags(e: PageTableEntry): (f: bv64)
    ensures f <= 0xfff
  {
    e.bits & FLAGS_MASK
  }

  /** An entry is made up of its bits 52-63, its frame address and its flags. */
  lemma EntryFields(e: PageTableEntry)
    ensures e.bits == ((e.bits >> 52) << 52) | FrameAddress(e) | Flags(e)
  {
  }

  /** The flags are the entry's value modulo 4096. */
  lemma FlagsAreRemainder(e: PageTableEntry)
    ensures Flags(e) == e.bits % 0x1000
  {
  }

  /** `set_frame_address`: afterwards the frame is the part of `addr` in bits 12-51. */
  function SetFrameAddress(e: PageTableEntry, addr: bv64): (r: PageTableEntry)
    ensures FrameAddress(r) == addr & FRAME_MASK
  {
    PageTableEntry((e.bits & FRAME_KEEP_MASK) | (addr & FRAME_MASK))
  }

  /** An address that is 4 KiB-aligned and below 2^52 comes back unchanged from the entry. */
  lemma FrameRoundTrip(e: PageTableEntry, addr: bv64)
    requires addr & 0xfff == 0 && addr >> 52 == 0
    ensures FrameAddress(SetFrameAddress(e, addr)) == addr
  {
  }

  /** `set_frame_address` keeps the flags, hence the present bit, and bits 52-63. */
  lemma SetFrameAddressKeepsRest(e: PageTableEntry, addr: bv64)
    ensures Flags(SetFrameAddress(e, addr)) == Flags(e)
    ensures IsPresent(SetFrameAddress(e, addr)) == IsPresent(e)
    ensures SetFrameAddress(e, addr).bits >> 52 == e.bits >> 52
  {
  }

  /**
   * `set_flags`: afterwards the flags are the low 12 bits of `flags`, so the
   * entry is present exactly when `flags` has bit 0 set.
   */
  function SetFlags(e: PageTableEntry, flags: bv64): (r: PageTableEntry)
    ensures Flags(r) == flags & 0xfff
    ensures flags <= 0xfff ==> Flags(r) == flags
    ensures IsPresent(r) <==> flags & 1 == 1
  {
    PageTableEntry((e.bits & FLAGS_KEEP_MASK) | (flags & FLAGS_MASK))
  }

  /** `set_flags` keeps the frame address and bits 52-63. */
  lemma SetFlagsKeepsRest(e: PageTableEntry, flags: bv64)
    ensures FrameAddress(SetFlags(e, flags)) == FrameAddress(e)
    ensures SetFlags(e, flags).bits >> 52 == e.bits >> 52
  {
  }

  /** Setting the flags with bit 0 forced on, as `map_page` does, makes the entry present. */
  lemma PresentAfterMapping(e: PageTableEntry, flags: bv64)
    ensures IsPresent(SetFlags(e, flags | 1))
    ensures Flags(SetFlags(e, flags | 1)) == (flags | 1) & 0xfff
  {
    assert (flags | 1) & 1 == 1;
  }

  /**
   * The final entry update of `map_page`, `set_frame_address(physicalAddress)`
   * followed by `set_flags(flags | 0x1)`: the entry is then present, maps the
   * frame of `physicalAddress`, carries the low 12 bits of `flags | 1` and
   * keeps its bits 52-63.
   */
  function MappedEntry(e: PageTableEntry, physicalAddress: bv64, flags: bv64): (r: PageTableEntry)
    ensures IsPresent(r)
    ensures FrameAddress(r) == physicalAddress & FRAME_MASK
    ensures Flags(r) == (flags | 1) & 0xfff
    ensures r.bits >> 52 == e.bits >> 52
  {
    var framed := SetFrameAddress(e, physicalAddress);
    SetFrameAddressKeepsRest(e, physicalAddress);
    SetFlagsKeepsRest(framed, flags | 1);
    PresentAfterMapping(framed, flags);
    SetFlags(framed, flags | 1)
  }

  /**
   * The index computation of `get_entry` and `get_entry_mut`: the 9 bits of
   * the address starting at bit `level * 9 + 12`. Shifted back into place it
   * is exactly that field of the address. A shift by 64 or more panics under
   * overflow checks (and is masked to its low 6 bits without them); every
   * caller passes a level of at most 3, and the model admits up to 5.
   */
  function IndexBits(virtualAddress: bv64, level: bv64): (i: bv64)
    requires level <= 5
    ensures i < 0x200
    ensures i << (level * 9 + 12) == virtualAddress & (0x1ff << (level * 9 + 12))
  {
    (virtualAddress >> (level * 9 + 12)) & 0x1ff
  }

  /** The same index as a table position: always one of the `PT_ENTRIES` slots. */
  function EntryIndex(virtualAddress: bv64, level: bv64): (i: nat)
    requires level <= 5
    ensures i < PT_ENTRIES
  {
    IndexBits(virtualAddress, level) as nat
  }

  /** `PageTable`: 512 entries, updated in place through `get_entry_mut`. */
  class PageTable {
    const entries: array<PageTableEntry>

    ghost predicate Valid()
      reads this
    {
      entries.Length == PT_ENTRIES
    }

    /** `PageTable::new`: 512 zero entries, none of them present. */
    constructor ()
      ensures Valid() && fresh(entries)
      ensures forall i :: 0 <= i < PT_ENTRIES ==> entries[i] == PageTableEntry(0)
      ensures forall i :: 0 <= i < PT_ENTRIES ==> !IsPresent(entries[i]) && FrameAddress(entries[i]) == 0 && Flags(entries[i]) == 0
    {
      entries := new PageTableEntry[PT_ENTRIES](_ => PageTableEntry(0));
    }

    /** `get_entry`: the entry the address selects at `level`. */
    function GetEntry(virtualAddress: bv64, level: bv64): (e: PageTableEntry)
      requires Valid() && level <= 5
      reads this, entries
      ensures exists i :: 0 <= i < PT_ENTRIES && e == entries[i]
    {
      entries[EntryIndex(virtualAddress, level)]
    }

    /** `get_entry_mut(..).set_frame_address(addr)`: only the selected entry changes, and only in its frame. */
    method SetEntryFrameAddress(virtualAddress: bv64, level: bv64, addr: bv64)
      requires Valid() && level <= 5
      modifies entries
      ensures entries[EntryIndex(virtualAddress, level)] == SetFrameAddress(old(entries[EntryIndex(virtualAddress, level)]), addr)
      ensures forall i :: 0 <= i < PT_ENTRIES && i != EntryIndex(virtualAddress, level) ==> entries[i] == old(entries[i])
    {
      var index := EntryIndex(virtualAddress, level);
      entries[index] := SetFrameAddress(entries[index], addr);
    }

    /** `get_entry_mut(..).set_flags(flags)`: only the selected entry changes, and only in its flags. */
    method SetEntryFlags(virtualAddress: bv64, level: bv64, flags: bv64)
      requires Valid() && level <= 5
      modifies entries
      ensures entries[EntryIndex(virtualAddress, level)] == SetFlags(old(entries[EntryIndex(virtualAddress, level)]), flags)
      ensures forall i :: 0 <= i < PT_ENTRIES && i != EntryIndex(virtualAddress, level) ==> entries[i] == old(entries[i])
    {
      var index := EntryIndex(virtualAddress, level);
      entries[index] := SetFlags(entries[index], flags);
    }

    /**
     * The last step of `map_page`: the entry the address selects at level
     * `LEAF_LEVEL` becomes `MappedEntry` of its old value; no other entry changes.
     */
    method MapLeafEntry(virtualAddress: bv64, physicalAddress: bv64, flags: bv64)
      requires Valid()
      modifies entries
      ensures entries[EntryIndex(virtualAddress, LEAF_LEVEL)] == MappedEntry(old(entries[EntryIndex(virtualAddress, LEAF_LEVEL)]), physicalAddress, flags)
      ensures forall i :: 0 <= i < PT_ENTRIES && i != EntryIndex(virtualAddress, LEAF_LEVEL) ==> entries[i] == old(entries[i])
    {
      SetEntryFrameAddress(virtualAddress, LEAF_LEVEL, physicalAddress);
      SetEntryFlags(virtualAddress, LEAF_LEVEL, flags | 1);
    }
  }
}
