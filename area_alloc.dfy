/** The bump allocator over the memory areas the boot loader reports. It hands
    out frames in increasing order and skips two reserved, inclusive frame
    ranges: the kernel image and the multiboot2 information. */
module AreaAlloc {
  import opened Outcomes
  import opened Frames

  /** One multiboot2 memory area. Nothing guarantees `length != 0` or that
      `base_addr + length - 1` does not overflow: the model wraps it modulo
      2^64, as a release build does. */
  datatype MemoryArea = MemoryArea(baseAddr: Word, length: Word) {

    function StartFrame(): Frame {
      FrameForAddress(baseAddr)
    }

    /** The frame of the area's last byte, `base_addr + length - 1`. */
    function LastFrame(): Frame {
      FrameForAddress((baseAddr + length - 1) % WORD_MODULUS)
    }

    /** The filter of `find_free_area`: the area still has a frame at or
        after `next`. */
    predicate Reaches(next: Frame) {
      LastFrame().index >= next.index
    }
  }

  function Max(a: nat, b: nat): (m: nat)
    ensures m >= a && m >= b && (m == a || m == b)
  {
    if a < b then b else a
  }

  /** The position of the area `filter(..).min_by_key(base_addr)` yields: the
      first, among the areas that reach `next`, with the smallest base. */
  function LowestReaching(areas: seq<MemoryArea>, next: Frame): (r: Option<nat>)
    ensures r.None? <==> forall j :: 0 <= j < |areas| ==> !areas[j].Reaches(next)
    ensures r.Some? ==> r.value < |areas| && areas[r.value].Reaches(next)
    ensures r.Some? ==> forall j :: 0 <= j < |areas| && areas[j].Reaches(next) ==>
      areas[r.value].baseAddr <= areas[j].baseAddr
    ensures r.Some? ==> forall j :: 0 <= j < r.value && areas[j].Reaches(next) ==>
      areas[r.value].baseAddr < areas[j].baseAddr
  {
    if |areas| == 0 then None
    else
      var best := LowestReaching(areas[..|areas| - 1], next);
      var last := |areas| - 1;
      if !areas[last].Reaches(next) then best
      else if best.Some? && areas[best.value].baseAddr <= areas[last].baseAddr then best
      else Some(last)
  }

  /** The fields of an `AreaFrameAllocator`. */
  datatype AreaState = AreaState(
    nextFrame: Frame,
    area: Option<MemoryArea>,
    areas: seq<MemoryArea>,
    kernelStart: Frame,
    kernelEnd: Frame,
    mb2Start: Frame,
    mb2End: Frame)
  {
    /** What `new` establishes and every operation keeps: the reserved ends
        and the cursor come from addresses, the current area is one of the
        areas and the cursor has reached its start, and when there is no
        current area no area has a frame left. */
    predicate Valid() {
      && kernelEnd.index < FRAME_COUNT
      && mb2End.index < FRAME_COUNT
      && nextFrame.index <= FRAME_COUNT
      && (area.Some? ==> area.value in areas && area.value.StartFrame().index <= nextFrame.index)
      && (area.None? ==> forall a :: a in areas ==> !a.Reaches(nextFrame))
    }

    /** The frames the allocator must never hand out (both ranges inclusive). */
    predicate Reserved(f: Frame) {
      || (kernelStart.index <= f.index && f.index <= kernelEnd.index)
      || (mb2Start.index <= f.index && f.index <= mb2End.index)
    }

    /** `find_free_area`: choose the lowest area that still reaches the cursor
        and move the cursor up to that area's start. */
    function FindFreeArea(): (s: AreaState)
      ensures s.areas == areas && s.kernelStart == kernelStart && s.kernelEnd == kernelEnd
      ensures s.mb2Start == mb2Start && s.mb2End == mb2End
      ensures s.area.None? <==> forall a :: a in areas ==> !a.Reaches(nextFrame)
      ensures s.area.Some? ==> s.area.value in areas && s.area.value.Reaches(nextFrame)
      ensures s.area.Some? ==> forall a :: a in areas && a.Reaches(nextFrame) ==>
        s.area.value.baseAddr <= a.baseAddr
      ensures s.area.None? ==> s.nextFrame == nextFrame
      ensures s.area.Some? ==> s.nextFrame.index == Max(nextFrame.index, s.area.value.StartFrame().index)
      ensures Valid() ==> s.Valid()
    {
      match LowestReaching(areas, nextFrame)
      case None => this.(area := None)
      case Some(i) =>
        var start := areas[i].StartFrame();
        this.(area := Some(areas[i]),
              nextFrame := if nextFrame.index < start.index then start else nextFrame)
    }

    /** `alloc_frame`: the next frame that lies in an area and is not reserved,
        or None once the areas are used up. The retries terminate: each one
        either drops the area, raises the cursor, or replaces an area the
        cursor has run past by one it has not. */
    function AllocFrame(): (r: (AreaState, Option<Frame>))
      requires Valid()
      ensures r.0.Valid()
      ensures r.0.areas == areas && r.0.kernelStart == kernelStart && r.0.kernelEnd == kernelEnd
      ensures r.0.mb2Start == mb2Start && r.0.mb2End == mb2End
      ensures r.0.nextFrame.index >= nextFrame.index
      ensures area.None? ==> r == (this, None)
      ensures r.1.None? ==> r.0.area.None?
      ensures r.1.Some? ==> !Reserved(r.1.value)
      ensures r.1.Some? ==> r.1.value.index >= nextFrame.index
      ensures r.1.Some? ==> r.0.nextFrame.index == r.1.value.index + 1
      ensures r.1.Some? ==> (r.0.area.Some?
        && r.0.area.value.StartFrame().index <= r.1.value.index
        && r.1.value.index <= r.0.area.value.LastFrame().index)
      decreases (if area.Some? then 1 else 0), FRAME_COUNT - nextFrame.index,
        (if area.Some? && nextFrame.index > area.value.LastFrame().index then 1 else 0)
    {
      if area.None? then (this, None)
      else
        var frame := Frame(nextFrame.index);
        var lastFrame := area.value.LastFrame();
        if frame.index > lastFrame.index then
          FindFreeArea().AllocFrame()
        else if frame.index >= kernelStart.index && frame.index <= kernelEnd.index then
          this.(nextFrame := Frame(kernelEnd.index + 1)).AllocFrame()
        else if frame.index >= mb2Start.index && frame.index <= mb2End.index then
          this.(nextFrame := Frame(mb2End.index + 1)).AllocFrame()
        else
          (this.(nextFrame := Frame(nextFrame.index + 1)), Some(frame))
    }

    /** `dealloc_frame` is `unimplemented!()`: it always halts. */
    function DeallocFrame(f: Frame): (r: Result<AreaState>)
      ensures r == Err(Unimplemented)
    {
      Err(Unimplemented)
    }

    /** `n` successive allocations: the state after them and the frames they
        returned, stopping at the first None. */
    function AllocMany(n: nat): (r: (AreaState, seq<Frame>))
      requires Valid()
      ensures r.0.Valid() && |r.1| <= n
      ensures r.0.nextFrame.index >= nextFrame.index
      ensures r.0.kernelStart == kernelStart && r.0.kernelEnd == kernelEnd
      ensures r.0.mb2Start == mb2Start && r.0.mb2End == mb2End
      decreases n
    {
      if n == 0 then (this, [])
      else
        var (s, f) := AllocFrame();
        if f.None? then (s, [])
        else
          var (t, fs) := s.AllocMany(n - 1);
          (t, [f.value] + fs)
    }
  }

  /** `AreaFrameAllocator::new`: the cursor starts at frame 0 and an area is
      chosen at once; with wrapping arithmetic every area reaches frame 0, so
      the allocator starts exhausted only when there are no areas. */
  function NewAreaState(kernelStart: Word, kernelEnd: Word, mb2Start: Word, mb2End: Word,
                        areas: seq<MemoryArea>): (s: AreaState)
    ensures s.Valid()
    ensures s.areas == areas
    ensures s.kernelStart == FrameForAddress(kernelStart) && s.kernelEnd == FrameForAddress(kernelEnd)
    ensures s.mb2Start == FrameForAddress(mb2Start) && s.mb2End == FrameForAddress(mb2End)
    ensures s.area.None? <==> areas == []
    ensures s.area.Some? ==> s.nextFrame == s.area.value.StartFrame()
    ensures s.area.Some? ==> forall a :: a in areas ==> s.area.value.baseAddr <= a.baseAddr
  {
    var s := AreaState(FrameForAddress(0), None, areas,
      FrameForAddress(kernelStart), FrameForAddress(kernelEnd),
      FrameForAddress(mb2Start), FrameForAddress(mb2End));
    assert areas != [] ==> areas[0] in areas && areas[0].Reaches(s.nextFrame);
    s.FindFreeArea()
  }

  /** Successive allocations return strictly increasing frames, none of them
      reserved, all below the final cursor. */
  lemma {:induction false} AllocManyIncreasing(s: AreaState, n: nat)
    requires s.Valid()
    ensures Increasing(s.AllocMany(n).1)
    ensures forall f :: f in s.AllocMany(n).1 ==>
      !s.Reserved(f) && s.nextFrame.index <= f.index < s.AllocMany(n).0.nextFrame.index
    decreases n
  {
    AllocManyBounds(s, n);
    if n > 0 {
      var (t, f) := s.AllocFrame();
      if f.Some? {
        var (u, fs) := t.AllocMany(n - 1);
        AllocManyIncreasing(t, n - 1);
        assert s.AllocMany(n) == (u, [f.value] + fs);
        PrependIncreasing(f.value, fs, t.nextFrame.index);
      }
    }
  }

  /** Every frame of successive allocations lies between the first and the
      final cursor and is not reserved. */
  lemma {:induction false} AllocManyBounds(s: AreaState, n: nat)
    requires s.Valid()
    ensures forall f :: f in s.AllocMany(n).1 ==>
      !s.Reserved(f) && s.nextFrame.index <= f.index < s.AllocMany(n).0.nextFrame.index
    decreases n
  {
    if n > 0 {
      var (t, f) := s.AllocFrame();
      if f.Some? {
        var (u, fs) := t.AllocMany(n - 1);
        AllocManyBounds(t, n - 1);
        assert s.AllocMany(n) == (u, [f.value] + fs);
        PrependBounds(s, t, f.value, fs, u.nextFrame.index);
      }
    }
  }

  /** A frame allocated from `s`, in front of frames allocated from the
      state `t` it leaves behind, keeps the bounds of both. */
  lemma PrependBounds(s: AreaState, t: AreaState, f: Frame, fs: seq<Frame>, hi: nat)
    requires t.kernelStart == s.kernelStart && t.kernelEnd == s.kernelEnd
    requires t.mb2Start == s.mb2Start && t.mb2End == s.mb2End
    requires !s.Reserved(f) && s.nextFrame.index <= f.index < t.nextFrame.index <= hi
    requires forall g :: g in fs ==> !t.Reserved(g) && t.nextFrame.index <= g.index < hi
    ensures forall g :: g in [f] + fs ==> !s.Reserved(g) && s.nextFrame.index <= g.index < hi
  {
    forall g | g in [f] + fs
      ensures !s.Reserved(g) && s.nextFrame.index <= g.index < hi
    {
      if g != f {
        assert g in fs;
      }
    }
  }

  /** Frames in strictly increasing order. */
  predicate Increasing(fs: seq<Frame>) {
    forall i, j :: 0 <= i < j < |fs| ==> fs[i].index < fs[j].index
  }

  lemma PrependIncreasing(f: Frame, fs: seq<Frame>, bound: nat)
    requires Increasing(fs) && f.index < bound
    requires forall g :: g in fs ==> bound <= g.index
    ensures Increasing([f] + fs)
  {
    forall i, j | 0 <= i < j < |[f] + fs|
      ensures ([f] + fs)[i].index < ([f] + fs)[j].index
    {
      if i > 0 {
        assert ([f] + fs)[i] == fs[i - 1] && ([f] + fs)[j] == fs[j - 1];
      } else {
        assert ([f] + fs)[j] == fs[j - 1] && fs[j - 1] in fs;
      }
    }
  }

  /** An exhausted allocator stays exhausted. */
  lemma ExhaustedStaysExhausted(s: AreaState)
    requires s.Valid() && s.area.None?
    ensures s.AllocFrame() == (s, None)
    ensures s.AllocFrame().0.AllocFrame() == (s, None)
  {
  }

  /** One area from address 0, the kernel at 0x10000..=0x20000 and the
      multiboot2 information at 0x20000..=0x21000: the area starts below the
      kernel, so the first frame is frame 0. */
  lemma FirstFrameBelowKernel()
    ensures NewAreaState(0x10000, 0x20000, 0x20000, 0x21000, [MemoryArea(0, 0x100000)]).AllocFrame().1
      == Some(Frame(0))
  {
  }

  /** The same layout with the area starting at the kernel: the allocator
      skips the kernel frames 0x10..=0x20, then the multiboot2 frames
      0x20..=0x21, and returns frame 0x22. */
  lemma FirstFrameAfterReserved()
    ensures NewAreaState(0x10000, 0x20000, 0x20000, 0x21000, [MemoryArea(0x10000, 0x100000)]).AllocFrame().1
      == Some(Frame(0x22))
  {
  }

  /** The allocator object: its fields are updated in place. The `areas`
      iterator is only ever cloned, so it is a sequence that never changes. */
  class AreaFrameAllocator {
    var nextFrame: Frame
    var area: Option<MemoryArea>
    var areas: seq<MemoryArea>
    var kernelStart: Frame
    var kernelEnd: Frame
    var mb2Start: Frame
    var mb2End: Frame

    /** The fields, as a value. */
    function State(): AreaState
      reads this
    {
      AreaState(nextFrame, area, areas, kernelStart, kernelEnd, mb2Start, mb2End)
    }

    predicate Valid()
      reads this
    {
      State().Valid()
    }

    /** `new`: the cursor at frame 0, the reserved ranges as frames, and an
        area chosen at once. */
    constructor (kernelStartAddr: Word, kernelEndAddr: Word, mb2StartAddr: Word, mb2EndAddr: Word,
                 memoryAreas: seq<MemoryArea>)
      ensures Valid()
      ensures State() == NewAreaState(kernelStartAddr, kernelEndAddr, mb2StartAddr, mb2EndAddr, memoryAreas)
    {
      nextFrame := FrameForAddress(0);
      area := None;
      areas := memoryAreas;
      kernelStart := FrameForAddress(kernelStartAddr);
      kernelEnd := FrameForAddress(kernelEndAddr);
      mb2Start := FrameForAddress(mb2StartAddr);
      mb2End := FrameForAddress(mb2EndAddr);
      new;
      FindFreeArea();
    }

    /** `find_free_area`. */
    method FindFreeArea()
      modifies this
      ensures State() == old(State()).FindFreeArea()
    {
      match LowestReaching(areas, nextFrame)
      case None => area := None;
      case Some(i) => area := Some(areas[i]);
      match area {
        case Some(a) =>
          var startFrame := a.StartFrame();
          if nextFrame.index < startFrame.index {
            nextFrame := startFrame;
          }
        case None =>
      }
    }

    /** `alloc_frame`, retrying by recursion exactly as the source does. */
    method AllocFrame() returns (frame: Option<Frame>)
      requires Valid()
      modifies this
      ensures Valid()
      ensures (State(), frame) == old(State()).AllocFrame()
      decreases (if area.Some? then 1 else 0), FRAME_COUNT - nextFrame.index,
        (if area.Some? && nextFrame.index > area.value.LastFrame().index then 1 else 0)
    {
      ghost var before := State();
      if area.None? {
        return None;
      }
      var current := area.value;
      var candidate := Frame(nextFrame.index);
      var lastFrame := current.LastFrame();
      if candidate.index > lastFrame.index {
        FindFreeArea();
        assert before.AllocFrame() == State().AllocFrame();
      } else if candidate.index >= kernelStart.index && candidate.index <= kernelEnd.index {
        nextFrame := Frame(kernelEnd.index + 1);
        assert before.AllocFrame() == State().AllocFrame();
      } else if candidate.index >= mb2Start.index && candidate.index <= mb2End.index {
        nextFrame := Frame(mb2End.index + 1);
        assert before.AllocFrame() == State().AllocFrame();
      } else {
        nextFrame := Frame(nextFrame.index + 1);
        return Some(candidate);
      }
      frame := AllocFrame();
    }

    /** `dealloc_frame`: `unimplemented!()`, so every call halts. */
    method DeallocFrame(frame: Frame) returns (r: Result<()>)
      ensures r == State().DeallocFrame(frame).PropagateFailure()
      ensures r.Err? && r.fault == Unimplemented
    {
      return Err(Unimplemented);
    }
  }
}
