/** Physical frames: a frame is identified by its index, the physical address
    divided by the page size. Machine words (`usize`, `u64`) are naturals below
    2^64; where the source's arithmetic can overflow, the wrap-around is
    written out with `% WORD_MODULUS`. */
module Frames {

  /** The size of a page and of a frame, in bytes. */
  const PAGE_SIZE: nat := 4096

  /** 2^64: one more than the largest `usize`. */
  const WORD_MODULUS: nat := 0x1_0000_0000_0000_0000

  /** The number of frames whose start address fits in 64 bits (2^52). */
  const FRAME_COUNT: nat := 0x10_0000_0000_0000

  /** A `usize` or a `u64`. */
  type Word = x: nat | x < 0x1_0000_0000_0000_0000

  /** One physical page. Equality and ordering of frames are those of `index`,
      like the derived `Eq` and `Ord` of a struct with that single field; the
      model compares `index` directly. */
  datatype Frame = Frame(index: Word)

  /** `Frame::get_frame_for_address`: the frame that holds physical address
      `addr`. */
  function FrameForAddress(addr: Word): (f: Frame)
    ensures f.index < FRAME_COUNT
    ensures f.index * PAGE_SIZE <= addr < f.index * PAGE_SIZE + PAGE_SIZE
  {
    Frame(addr / PAGE_SIZE)
  }

  /** `Frame::get_start_address`: `index * PAGE_SIZE`, which wraps in `usize`
      for indices of 2^52 and above. */
  function StartAddress(f: Frame): Word {
    (f.index * PAGE_SIZE) % WORD_MODULUS
  }

  /** The comparisons the allocator makes on frames agree with those on the
      addresses the frames were computed from. */
  lemma FrameForAddressMonotone(a: Word, b: Word)
    requires a <= b
    ensures FrameForAddress(a).index <= FrameForAddress(b).index
  {
  }

  /** A frame is the frame of its own start address, unless that address wraps. */
  lemma StartAddressRoundTrip(f: Frame)
    requires f.index < FRAME_COUNT
    ensures StartAddress(f) == f.index * PAGE_SIZE
    ensures FrameForAddress(StartAddress(f)) == f
  {
  }
}
