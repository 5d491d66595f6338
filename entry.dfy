/** Page-table entries: a 64-bit word holding flag bits (0-8 and 63) and the
    start address of a frame (bits 12-51, the mask 0x000f_ffff_ffff_f000).
    Bit `k` of a word `x` is `(x / 2^k) % 2`. */
module Entries {
  import opened Outcomes
  import opened Frames
  import opened BitArithmetic

  /** A value of the `bitflags!` type `EntryFlags`: one field per declared
      flag, so a value holds exactly the declared bits and nothing else. */
  datatype EntryFlags = EntryFlags(
    present: bool,         // bit 0
    writable: bool,        // bit 1
    userAccessible: bool,  // bit 2
    writeThrough: bool,    // bit 3
    noCache: bool,         // bit 4
    accessed: bool,        // bit 5
    dirty: bool,           // bit 6
    hugePage: bool,        // bit 7
    global: bool,          // bit 8
    noExecute: bool)       // bit 63
  {
    /** `bits()`: the word with the flags' bits set. */
    function Bits(): (x: Word)
      ensures x % 0x8000_0000_0000_0000 < 512
    {
      var low := BitValue(present) * 0x1 + BitValue(writable) * 0x2 + BitValue(userAccessible) * 0x4
        + BitValue(writeThrough) * 0x8 + BitValue(noCache) * 0x10 + BitValue(accessed) * 0x20
        + BitValue(dirty) * 0x40 + BitValue(hugePage) * 0x80 + BitValue(global) * 0x100;
      assert low < 512;
      BitArithmetic.DivModUnique(low + BitValue(noExecute) * 0x8000_0000_0000_0000,
        0x8000_0000_0000_0000, BitValue(noExecute), low);
      low + BitValue(noExecute) * 0x8000_0000_0000_0000
    }
  }

  function BitValue(b: bool): nat {
    if b then 1 else 0
  }

  const NO_FLAGS := EntryFlags(false, false, false, false, false, false, false, false, false, false)
  const PRESENT := NO_FLAGS.(present := true)
  const WRITABLE := NO_FLAGS.(writable := true)

  /** Whether bit `k` of `x` is set, for `w == 2^k`. */
  predicate BitSet(x: nat, w: nat)
    requires w > 0
  {
    (x / w) % 2 == 1
  }

  /** `EntryFlags::from_bits_truncate`: the declared bits of `x`; bits 9-62
      have no field to go to and are dropped. */
  function FromBitsTruncate(x: Word): EntryFlags {
    EntryFlags(BitSet(x, 0x1), BitSet(x, 0x2), BitSet(x, 0x4), BitSet(x, 0x8), BitSet(x, 0x10),
      BitSet(x, 0x20), BitSet(x, 0x40), BitSet(x, 0x80), BitSet(x, 0x100),
      BitSet(x, 0x8000_0000_0000_0000))
  }

  /** `x & 0x000f_ffff_ffff_f000`: bits 12-51 of `x`. */
  function AddressField(x: Word): Word {
    (x % 0x10_0000_0000_0000) / 4096 * 4096
  }

  /** One slot of a page table. */
  datatype Entry = Entry(raw: Word) {

    /** `is_unused`: the word is zero. */
    predicate IsUnused() {
      raw == 0
    }

    /** The entry `mark_unused` leaves behind. */
    function MarkUnused(): (e: Entry)
      ensures e.IsUnused()
    {
      Entry(0)
    }

    /** `flags()`. */
    function Flags(): EntryFlags {
      FromBitsTruncate(raw)
    }

    /** `frame()`: the frame this entry points to, when PRESENT is set. */
    function TargetFrame(): (r: Option<Frame>)
      ensures r.Some? <==> Flags().present
      ensures r.Some? ==> StartAddress(r.value) == AddressField(raw)
    {
      if Flags().present then Some(FrameForAddress(AddressField(raw))) else None
    }
  }

  /** `set_flags(frame, flags)`: the frame's start address must lie in the
      address field (page-aligned, below 2^52); then the entry is that address
      ORed with the flag bits, which is their sum since the two occupy
      disjoint bits. */
  function SetFlags(frame: Frame, flags: EntryFlags): (r: Result<Entry>)
    ensures r.Err? <==> AddressField(StartAddress(frame)) != StartAddress(frame)
    ensures r.Err? ==> r.fault == FrameNotEncodable
  {
    var start := StartAddress(frame);
    if start % 4096 == 0 && start < 0x10_0000_0000_0000 then
      Ok(Entry(start + flags.Bits()))
    else
      Err(FrameNotEncodable)
  }

  /** `set_flags` accepts exactly the frames below 2^40, the frames whose
      start address lies below 2^52 (the 52-bit physical address space). */
  lemma SetFlagsAccepts(frame: Frame, flags: EntryFlags)
    requires frame.index < FRAME_COUNT
    ensures SetFlags(frame, flags).Ok? <==> frame.index < 0x100_0000_0000
  {
    StartAddressRoundTrip(frame);
  }

  /** What `set_flags` writes is read back by `flags()` and by `frame()`:
      present exactly when the flags say so, and then the frame of the start
      address written. */
  lemma SetFlagsReadBack(frame: Frame, flags: EntryFlags)
    requires SetFlags(frame, flags).Ok?
    ensures SetFlags(frame, flags).value.Flags() == flags
    ensures flags.present ==>
      SetFlags(frame, flags).value.TargetFrame() == Some(FrameForAddress(StartAddress(frame)))
    ensures !flags.present ==> SetFlags(frame, flags).value.TargetFrame() == None
  {
    var e := SetFlags(frame, flags).value;
    var start := StartAddress(frame);
    WordLayout(start, flags);
    BitsOfSum(e.raw, BitValue(flags.present), BitValue(flags.writable),
      BitValue(flags.userAccessible), BitValue(flags.writeThrough), BitValue(flags.noCache),
      BitValue(flags.accessed), BitValue(flags.dirty), BitValue(flags.hugePage),
      BitValue(flags.global), BitValue(flags.noExecute), start / 4096);
    ReadFlags(e.raw, flags);
  }

  /** The round trip: for a frame whose start address does not wrap, `frame()`
      after `set_flags` with PRESENT is that very frame. */
  lemma SetFlagsRoundTrip(frame: Frame, flags: EntryFlags)
    requires frame.index < FRAME_COUNT
    requires SetFlags(frame, flags).Ok?
    ensures SetFlags(frame, flags).value.Flags() == flags
    ensures flags.present ==> SetFlags(frame, flags).value.TargetFrame() == Some(frame)
    ensures !flags.present ==> SetFlags(frame, flags).value.TargetFrame() == None
  {
    SetFlagsReadBack(frame, flags);
    StartAddressRoundTrip(frame);
  }

  /** The word `set_flags` writes, bit by bit. */
  lemma WordLayout(start: Word, flags: EntryFlags)
    requires start % 4096 == 0 && start < 0x10_0000_0000_0000
    ensures start + flags.Bits() ==
      BitValue(flags.present) * 0x1 + BitValue(flags.writable) * 0x2
      + BitValue(flags.userAccessible) * 0x4 + BitValue(flags.writeThrough) * 0x8
      + BitValue(flags.noCache) * 0x10 + BitValue(flags.accessed) * 0x20
      + BitValue(flags.dirty) * 0x40 + BitValue(flags.hugePage) * 0x80
      + BitValue(flags.global) * 0x100 + BitValue(flags.noExecute) * 0x8000_0000_0000_0000
      + 4096 * (start / 4096)
    ensures start / 4096 < 0x100_0000_0000
  {
  }

  /** A word whose declared bits are those of `flags` reads back as `flags`. */
  lemma ReadFlags(x: Word, flags: EntryFlags)
    requires x % 2 == BitValue(flags.present) && (x / 0x2) % 2 == BitValue(flags.writable)
    requires (x / 0x4) % 2 == BitValue(flags.userAccessible) && (x / 0x8) % 2 == BitValue(flags.writeThrough)
    requires (x / 0x10) % 2 == BitValue(flags.noCache) && (x / 0x20) % 2 == BitValue(flags.accessed)
    requires (x / 0x40) % 2 == BitValue(flags.dirty) && (x / 0x80) % 2 == BitValue(flags.hugePage)
    requires (x / 0x100) % 2 == BitValue(flags.global)
    requires (x / 0x8000_0000_0000_0000) % 2 == BitValue(flags.noExecute)
    ensures FromBitsTruncate(x) == flags
  {
  }

  /** `from_bits_truncate(x).bits()` is `x` with bits 9-62 cleared: the
      flags read from two words agree when the words agree outside bits 9-62. */
  lemma FlagsIgnoreUndefinedBits(x: Word, y: Word)
    requires x % 512 == y % 512 && x / 0x8000_0000_0000_0000 == y / 0x8000_0000_0000_0000
    ensures FromBitsTruncate(x) == FromBitsTruncate(y)
  {
    LowBitOf(x, 0x1, 0x200);   LowBitOf(y, 0x1, 0x200);
    LowBitOf(x, 0x2, 0x100);   LowBitOf(y, 0x2, 0x100);
    LowBitOf(x, 0x4, 0x80);    LowBitOf(y, 0x4, 0x80);
    LowBitOf(x, 0x8, 0x40);    LowBitOf(y, 0x8, 0x40);
    LowBitOf(x, 0x10, 0x20);   LowBitOf(y, 0x10, 0x20);
    LowBitOf(x, 0x20, 0x10);   LowBitOf(y, 0x20, 0x10);
    LowBitOf(x, 0x40, 0x8);    LowBitOf(y, 0x40, 0x8);
    LowBitOf(x, 0x80, 0x4);    LowBitOf(y, 0x80, 0x4);
    LowBitOf(x, 0x100, 0x2);   LowBitOf(y, 0x100, 0x2);
  }

  /** An unused entry has no flags and points nowhere. */
  lemma UnusedEntryIsAbsent(e: Entry)
    requires e.IsUnused()
    ensures e.Flags() == NO_FLAGS && e.TargetFrame() == None
  {
  }
}
