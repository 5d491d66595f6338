/** The three-slot frame pool that a temporary page draws its page-table
    frames from. */
module TinyAlloc {
  import opened Outcomes
  import opened Frames

  /** The contents of the `[Option<Frame>; 3]` array. */
  type Slots = s: seq<Option<Frame>> | |s| == 3 witness [None, None, None]

  /** The position of the first occupied slot, or `|slots|` when there is none. */
  function FirstOccupied(slots: seq<Option<Frame>>): (i: nat)
    ensures i <= |slots|
    ensures i < |slots| ==> slots[i].Some?
    ensures forall j :: 0 <= j < i ==> slots[j].None?
  {
    if |slots| == 0 then 0
    else if slots[0].Some? then 0
    else 1 + FirstOccupied(slots[1..])
  }

  /** The position of the first empty slot, or `|slots|` when there is none. */
  function FirstEmpty(slots: seq<Option<Frame>>): (i: nat)
    ensures i <= |slots|
    ensures i < |slots| ==> slots[i].None?
    ensures forall j :: 0 <= j < i ==> slots[j].Some?
  {
    if |slots| == 0 then 0
    else if slots[0].None? then 0
    else 1 + FirstEmpty(slots[1..])
  }

  /** The frames held in some slots. */
  function Held(slots: seq<Option<Frame>>): (m: multiset<Frame>)
    ensures |m| <= |slots|
  {
    if |slots| == 0 then multiset{} else SlotFrames(slots[0]) + Held(slots[1..])
  }

  /** The frame in one slot, if any. */
  function SlotFrames(slot: Option<Frame>): (m: multiset<Frame>)
    ensures |m| <= 1
  {
    if slot.Some? then multiset{slot.value} else multiset{}
  }

  /** A `TinyAllocator`, as a value. */
  datatype TinyPool = TinyPool(slots: Slots) {

    /** The frames the pool holds. */
    function Frames(): multiset<Frame> {
      Held(slots)
    }

    /** `alloc_frame`: takes the first occupied slot, in the order 0, 1, 2,
        and leaves the other slots as they were; None when all are empty. */
    function AllocFrame(): (r: (TinyPool, Option<Frame>))
      ensures r.1.None? <==> forall j :: 0 <= j < 3 ==> slots[j].None?
      ensures r.1.None? ==> r.0 == this
      ensures r.1.Some? ==> exists i :: (0 <= i < 3 && slots[i] == r.1
        && (forall j :: 0 <= j < i ==> slots[j].None?) && r.0.slots == slots[i := None])
    {
      var i := FirstOccupied(slots);
      if i < 3 then (TinyPool(slots[i := None]), slots[i]) else (this, None)
    }

    /** `dealloc_frame`: stores the frame in the first empty slot and leaves
        the other slots as they were; with all three occupied it panics. */
    function DeallocFrame(frame: Frame): (r: Result<TinyPool>)
      ensures r.Err? <==> forall j :: 0 <= j < 3 ==> slots[j].Some?
      ensures r.Err? ==> r.fault == PoolFull
      ensures r.Ok? ==> exists i :: (0 <= i < 3 && slots[i].None?
        && (forall j :: 0 <= j < i ==> slots[j].Some?) && r.value.slots == slots[i := Some(frame)])
    {
      var i := FirstEmpty(slots);
      if i < 3 then Ok(TinyPool(slots[i := Some(frame)])) else Err(PoolFull)
    }
  }

  /** Replacing one slot's contents trades that slot's frame for the new one. */
  lemma {:induction false} HeldAfterUpdate(slots: seq<Option<Frame>>, i: nat, v: Option<Frame>)
    requires i < |slots|
    ensures Held(slots[i := v]) + SlotFrames(slots[i]) == Held(slots) + SlotFrames(v)
    decreases i
  {
    var updated := slots[i := v];
    if i > 0 {
      var rest := slots[1..];
      HeldAfterUpdate(rest, i - 1, v);
      assert rest[i - 1] == slots[i];
      assert updated[1..] == rest[i - 1 := v];
      var lhs := Held(updated) + SlotFrames(slots[i]);
      var rhs := Held(slots) + SlotFrames(v);
      assert Held(updated) == SlotFrames(slots[0]) + Held(rest[i - 1 := v]);
      assert Held(slots) == SlotFrames(slots[0]) + Held(rest);
      forall g
        ensures lhs[g] == rhs[g]
      {
        assert (Held(rest[i - 1 := v]) + SlotFrames(slots[i]))[g] == (Held(rest) + SlotFrames(v))[g];
      }
      assert lhs == rhs;
    } else {
      assert updated[1..] == slots[1..];
      assert Held(updated) == SlotFrames(v) + Held(slots[1..]);
    }
  }

  /** `alloc_frame` hands out one frame the pool held and keeps the rest. */
  lemma AllocTakesHeldFrame(p: TinyPool)
    ensures p.AllocFrame().1.Some? ==>
      p.AllocFrame().1.value in p.Frames()
      && p.AllocFrame().0.Frames() + multiset{p.AllocFrame().1.value} == p.Frames()
    ensures p.AllocFrame().1.None? ==> p.Frames() == multiset{}
  {
    var i := FirstOccupied(p.slots);
    if i < 3 {
      HeldAfterUpdate(p.slots, i, None);
      assert p.AllocFrame().0.Frames() + multiset{p.slots[i].value} == p.Frames();
    } else {
      AllEmptyHoldsNothing(p.slots);
    }
  }

  /** `dealloc_frame` adds exactly the given frame to the pool. */
  lemma DeallocAddsFrame(p: TinyPool, f: Frame)
    requires p.DeallocFrame(f).Ok?
    ensures p.DeallocFrame(f).value.Frames() == p.Frames() + multiset{f}
  {
    HeldAfterUpdate(p.slots, FirstEmpty(p.slots), Some(f));
  }

  lemma {:induction false} AllEmptyHoldsNothing(slots: seq<Option<Frame>>)
    requires forall j :: 0 <= j < |slots| ==> slots[j].None?
    ensures Held(slots) == multiset{}
  {
    if |slots| > 0 {
      AllEmptyHoldsNothing(slots[1..]);
    }
  }

  /** A pool seeded with A, B, C hands out A, B, C and then None; a full pool
      refuses a fourth frame. */
  lemma SeededPoolOrder(a: Frame, b: Frame, c: Frame, d: Frame)
    ensures var p0 := TinyPool([Some(a), Some(b), Some(c)]);
      var (p1, f1) := p0.AllocFrame();
      var (p2, f2) := p1.AllocFrame();
      var (p3, f3) := p2.AllocFrame();
      var (p4, f4) := p3.AllocFrame();
      && f1 == Some(a) && f2 == Some(b) && f3 == Some(c) && f4 == None
      && p4.slots == [None, None, None]
      && p0.DeallocFrame(d) == Err(PoolFull)
  {
    var p0 := TinyPool([Some(a), Some(b), Some(c)]);
    assert FirstOccupied(p0.slots) == 0;
    var p1 := TinyPool([None, Some(b), Some(c)]);
    assert p0.slots[0 := None] == p1.slots;
    assert FirstOccupied(p1.slots) == 1;
    var p2 := TinyPool([None, None, Some(c)]);
    assert p1.slots[1 := None] == p2.slots;
    assert p2.slots[1..][1..] == [Some(c)];
    assert FirstOccupied(p2.slots[1..]) == 1;
    assert p2.slots[2 := None] == [None, None, None];
  }

  /** The allocator object: a fixed array of three slots changed in place. */
  class TinyAllocator {
    const slots: array<Option<Frame>>

    predicate Valid()
      reads this
    {
      slots.Length == 3
    }

    /** The slots, as a value. */
    function Pool(): TinyPool
      reads this, slots
      requires Valid()
    {
      TinyPool(slots[..])
    }

    /** `TinyAllocator(frames)`. */
    constructor (frames: Slots)
      ensures Valid() && fresh(slots)
      ensures Pool() == TinyPool(frames)
    {
      slots := new Option<Frame>[3](i requires 0 <= i < 3 => frames[i]);
      new;
      assert slots[..] == frames;
    }

    /** `alloc_frame`: the loop over the slots with `take()`. */
    method AllocFrame() returns (frame: Option<Frame>)
      requires Valid()
      modifies slots
      ensures Valid()
      ensures (Pool(), frame) == old(Pool()).AllocFrame()
    {
      for i := 0 to 3
        invariant slots[..] == old(slots[..])
        invariant forall j :: 0 <= j < i ==> slots[j].None?
      {
        if slots[i].Some? {
          frame := slots[i];
          slots[i] := None;
          assert FirstOccupied(old(slots[..])) == i;
          return;
        }
      }
      assert FirstOccupied(slots[..]) == 3;
      return None;
    }

    /** `dealloc_frame`: the loop that fills the first empty slot, and the
        panic when there is none. */
    method DeallocFrame(frame: Frame) returns (r: Result<()>)
      requires Valid()
      modifies slots
      ensures Valid()
      ensures old(Pool()).DeallocFrame(frame).Ok? ==> r.Ok? && Pool() == old(Pool()).DeallocFrame(frame).value
      ensures old(Pool()).DeallocFrame(frame).Err? ==>
        r == old(Pool()).DeallocFrame(frame).PropagateFailure() && Pool() == old(Pool())
    {
      for i := 0 to 3
        invariant slots[..] == old(slots[..])
        invariant forall j :: 0 <= j < i ==> slots[j].Some?
      {
        if slots[i].None? {
          slots[i] := Some(frame);
          assert FirstEmpty(old(slots[..])) == i;
          return Ok(());
        }
      }
      assert FirstEmpty(slots[..]) == 3;
      return Err(PoolFull);
    }
  }
}
