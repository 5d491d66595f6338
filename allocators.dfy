/** The `FrameAllocator` interface (`alloc_frame`, `dealloc_frame`) and the two
    allocators that implement it. The page-table code is generic over
    `A: FrameAllocator`; the model makes that choice a variant of `Allocator`. */
module Allocators {
  import opened Outcomes
  import opened Frames
  import opened AreaAlloc
  import opened TinyAlloc

  /** An allocator behind `&mut A`: the bump allocator or a three-slot pool. */
  datatype Allocator = Area(state: AreaState) | Tiny(pool: TinyPool) {

    predicate Valid() {
      Area? ==> state.Valid()
    }

    /** Whether `alloc_frame` may return `g`, now or later: for the bump
        allocator a frame at or past the cursor, for the pool a frame it holds. */
    predicate MayHandOut(g: Frame) {
      match this
      case Area(s) => s.nextFrame.index <= g.index < FRAME_COUNT
      case Tiny(p) => g in p.Frames()
    }

    /** The pool holds no frame twice (the bump allocator never repeats one). */
    ghost predicate Distinct() {
      Tiny? ==> forall g :: pool.Frames()[g] <= 1
    }

    /** `alloc_frame`: the allocator only ever hands out frames it could hand
        out before, never one it has already handed out (given Distinct), and
        it stays the same kind of allocator. */
    function AllocFrame(): (r: (Allocator, Option<Frame>))
      requires Valid()
      ensures r.0.Valid() && r.0.Area? == Area?
      ensures r.1.Some? ==> MayHandOut(r.1.value)
      ensures forall g :: r.0.MayHandOut(g) ==> MayHandOut(g)
      ensures Distinct() ==> r.0.Distinct()
      ensures Distinct() && r.1.Some? ==> !r.0.MayHandOut(r.1.value)
      ensures Tiny? ==> r.0.pool.Frames() <= pool.Frames()
    {
      match this
      case Area(s) =>
        var (s', f) := s.AllocFrame();
        (Area(s'), f)
      case Tiny(p) =>
        AllocTakesHeldFrame(p);
        var (p', f) := p.AllocFrame();
        assert forall g :: p'.Frames()[g] <= p.Frames()[g];
        (Tiny(p'), f)
    }

    /** `dealloc_frame`: the bump allocator always halts; the pool takes the
        frame back unless it is full. */
    function DeallocFrame(frame: Frame): (r: Result<Allocator>)
      ensures Area? ==> r == Err(Unimplemented)
      ensures Tiny? ==> (r.Err? <==> forall j :: 0 <= j < 3 ==> pool.slots[j].Some?)
      ensures r.Ok? ==> r.value.Tiny? && r.value.pool.Frames() == pool.Frames() + multiset{frame}
    {
      match this
      case Area(s) =>
        (match s.DeallocFrame(frame)
         case Ok(s') => Ok(Area(s'))
         case Err(e) => Err(e))
      case Tiny(p) =>
        var p' :- p.DeallocFrame(frame);
        DeallocAddsFrame(p, frame);
        Ok(Tiny(p'))
    }

    /** The allocator after `k` calls of `alloc_frame`. */
    function Drawn(k: nat): (a: Allocator)
      requires Valid()
      ensures a.Valid() && a.Area? == Area?
      ensures forall g :: a.MayHandOut(g) ==> MayHandOut(g)
      ensures Distinct() ==> a.Distinct()
      ensures Tiny? ==> a.pool.Frames() <= pool.Frames()
      decreases k
    {
      if k == 0 then this else AllocFrame().0.Drawn(k - 1)
    }
  }

  /** Up to three draws, one `alloc_frame` at a time. */
  lemma DrawnSteps(a: Allocator)
    requires a.Valid()
    ensures a.Drawn(0) == a && a.Drawn(1) == a.AllocFrame().0
    ensures a.Drawn(2) == a.Drawn(1).AllocFrame().0
    ensures a.Drawn(3) == a.Drawn(2).AllocFrame().0
  {
    var a1 := a.AllocFrame().0;
    var a2 := a1.AllocFrame().0;
    assert a.Drawn(1) == a1.Drawn(0) == a1;
    assert a.Drawn(2) == a1.Drawn(1) == a2.Drawn(0) == a2;
    assert a.Drawn(3) == a1.Drawn(2) == a2.Drawn(1) == a2.AllocFrame().0.Drawn(0);
  }

  /** `TinyAllocator::new(allocator)`: three calls of the upstream
      `alloc_frame`, whose results fill the slots in order. */
  function NewPool(upstream: Allocator): (r: (TinyPool, Allocator))
    requires upstream.Valid()
    ensures r.1 == upstream.Drawn(3) && r.1.Valid()
    ensures forall k :: 0 <= k < 3 ==> r.0.slots[k] == upstream.Drawn(k).AllocFrame().1
  {
    var (a1, f1) := upstream.AllocFrame();
    var (a2, f2) := a1.AllocFrame();
    var (a3, f3) := a2.AllocFrame();
    DrawnSteps(upstream);
    (TinyPool([f1, f2, f3]), a3)
  }

  /** A pool filled from the bump allocator holds strictly increasing frames,
      all of them at or past the upstream cursor, with every empty slot after
      the occupied ones; in particular it holds no frame twice. */
  lemma PoolFromBumpAllocator(s: AreaState)
    requires s.Valid()
    ensures var p := NewPool(Area(s)).0;
      && (forall i, j :: 0 <= i < j < 3 && p.slots[i].Some? && p.slots[j].Some? ==>
            p.slots[i].value.index < p.slots[j].value.index)
      && (forall i, j :: 0 <= i < j < 3 && p.slots[i].None? ==> p.slots[j].None?)
      && (forall i :: 0 <= i < 3 && p.slots[i].Some? ==> s.nextFrame.index <= p.slots[i].value.index)
      && Tiny(p).Distinct()
  {
    var (s1, f1) := s.AllocFrame();
    var (s2, f2) := s1.AllocFrame();
    var (s3, f3) := s2.AllocFrame();
    var p := TinyPool([f1, f2, f3]);
    assert NewPool(Area(s)).0 == p;
    if f1.None? {
      ExhaustedStaysExhausted(s1);
    } else if f2.None? {
      ExhaustedStaysExhausted(s2);
    }
    DistinctWhenIncreasing(p);
  }

  /** Slots whose occupied entries increase hold each frame at most once. */
  lemma DistinctWhenIncreasing(p: TinyPool)
    requires forall i, j :: 0 <= i < j < 3 && p.slots[i].Some? && p.slots[j].Some? ==>
      p.slots[i].value.index < p.slots[j].value.index
    ensures Tiny(p).Distinct()
  {
    var s := p.slots;
    assert s == [s[0]] + ([s[1]] + [s[2]]);
    assert Held(s) == Held([s[0]]) + Held([s[1]] + [s[2]]) by {
      assert s[1..] == [s[1]] + [s[2]];
    }
    assert Held([s[1]] + [s[2]]) == Held([s[1]]) + Held([s[2]]) by {
      assert ([s[1]] + [s[2]])[1..] == [s[2]];
    }
    forall g
      ensures p.Frames()[g] <= 1
    {
      assert Held([s[0]])[g] <= (if s[0] == Some(g) then 1 else 0) by { assert [s[0]][1..] == []; }
      assert Held([s[1]])[g] <= (if s[1] == Some(g) then 1 else 0) by { assert [s[1]][1..] == []; }
      assert Held([s[2]])[g] <= (if s[2] == Some(g) then 1 else 0) by { assert [s[2]][1..] == []; }
    }
  }

  /** The allocator passed as `&mut A`: it wraps either allocator object. */
  class FrameAllocator {
    const area: AreaFrameAllocator?
    const tiny: TinyAllocator?

    /** The objects `alloc_frame` and `dealloc_frame` may change. */
    function Footprint(): set<object> {
      (if area != null then {area} else {}) + (if tiny != null then {tiny, tiny.slots} else {})
    }

    predicate Valid()
      reads Footprint()
    {
      && (area == null) != (tiny == null)
      && (area != null ==> area.Valid())
      && (tiny != null ==> tiny.Valid())
    }

    /** The wrapped allocator, as a value. */
    function State(): Allocator
      reads Footprint()
      requires Valid()
    {
      if area != null then Area(area.State()) else Tiny(tiny.Pool())
    }

    constructor OverArea(a: AreaFrameAllocator)
      requires a.Valid()
      ensures area == a && tiny == null
      ensures Valid() && State() == Area(a.State())
    {
      area := a;
      tiny := null;
    }

    constructor OverPool(t: TinyAllocator)
      requires t.Valid()
      ensures area == null && tiny == t
      ensures Valid() && State() == Tiny(t.Pool())
    {
      area := null;
      tiny := t;
    }

    /** `alloc_frame` of the wrapped allocator. */
    method AllocFrame() returns (frame: Option<Frame>)
      requires Valid()
      modifies Footprint()
      ensures Valid()
      ensures (State(), frame) == old(State()).AllocFrame()
    {
      if area != null {
        frame := area.AllocFrame();
      } else {
        frame := tiny.AllocFrame();
      }
    }

    /** `dealloc_frame` of the wrapped allocator. */
    method DeallocFrame(frame: Frame) returns (r: Result<()>)
      requires Valid()
      modifies Footprint()
      ensures Valid()
      ensures old(State()).DeallocFrame(frame).Ok? ==>
        r.Ok? && State() == old(State()).DeallocFrame(frame).value
      ensures old(State()).DeallocFrame(frame).Err? ==>
        r == old(State()).DeallocFrame(frame).PropagateFailure()
    {
      if area != null {
        r := area.DeallocFrame(frame);
      } else {
        r := tiny.DeallocFrame(frame);
      }
    }
  }

  /** `TinyAllocator::new(allocator)` on the allocator objects. */
  method NewTinyAllocator(upstream: FrameAllocator) returns (t: TinyAllocator)
    requires upstream.Valid()
    modifies upstream.Footprint()
    ensures upstream.Valid() && t.Valid() && fresh(t) && fresh(t.slots)
    ensures (t.Pool(), upstream.State()) == old(NewPool(upstream.State()))
  {
    var f1 := upstream.AllocFrame();
    var f2 := upstream.AllocFrame();
    var f3 := upstream.AllocFrame();
    t := new TinyAllocator([f1, f2, f3]);
  }
}
