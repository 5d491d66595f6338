/** The temporary page: one virtual page that the kernel maps to an arbitrary
    frame for a while, with the page tables this needs drawn from its own
    three-frame pool. */
module TemporaryPages {
  import opened Outcomes
  import opened Frames
  import opened Entries
  import opened TinyAlloc
  import opened Allocators
  import opened PageTables
  import opened Paging

  /** A `TemporaryPage`, as a value: the page and the pool's slots. */
  datatype TempPage = TempPage(page: Page, pool: TinyPool) {

    /** `map`: the page must not translate yet (`assert!`); it is mapped to
        `frame` with WRITABLE, drawing tables from the pool, and the result is
        the page's address. */
    function Map(frame: Frame, t: PageTable): (r: Result<(TempPage, PageTable, Word)>)
      ensures t.TranslatePage(page).Some? ==> r == Err(AlreadyMapped)
      ensures r.Ok? ==> r.value.0.page == page && r.value.1.p4 == t.p4 && r.value.2 == page.Address()
      ensures r.Ok? ==> r.value.0.pool.Frames() <= pool.Frames()
    {
      if t.TranslatePage(page).Some? then Err(AlreadyMapped)
      else
        var m :- t.MapTo(page, frame, WRITABLE, Tiny(pool));
        MapToDrawsAtMostThree(t, page, frame, WRITABLE, Tiny(pool));
        Ok((TempPage(page, m.1.pool), m.0, page.Address()))
    }

    /** `unmap`: `unmap` of the page, with the pool taking the frame back. */
    function Unmap(t: PageTable): (r: Result<(TempPage, PageTable)>)
      ensures r.Ok? ==> r.value.0.page == page && r.value.1.p4 == t.p4
    {
      var m :- t.Unmap(page, Tiny(pool));
      Ok((TempPage(page, m.1.pool), m.0))
    }
  }

  /** `TemporaryPage::new`: the pool is filled by three calls of the
      upstream allocator. */
  function NewTempPage(page: Page, upstream: Allocator): (r: (TempPage, Allocator))
    requires upstream.Valid()
    ensures r.0.page == page && r.1 == upstream.Drawn(3)
    ensures forall k :: 0 <= k < 3 ==> r.0.pool.slots[k] == upstream.Drawn(k).AllocFrame().1
  {
    var (pool, a) := NewPool(upstream);
    (TempPage(page, pool), a)
  }

  /** With a fresh pool, `map` maps the page to `frame` through an entry with
      PRESENT | WRITABLE. */
  lemma TempMapRoundTrip(tp: TempPage, frame: Frame, t: PageTable)
    requires Fresh(t.mem, t.p4, Tiny(tp.pool)) && frame.index < FRAME_COUNT
    requires tp.Map(frame, t).Ok?
    ensures var t' := tp.Map(frame, t).value.1;
      && t'.TranslatePage(tp.page) == Some(frame)
      && t'.mem.Read(t'.P1Table(tp.page).value)[tp.page.P1Index()].Flags() == PRESENT.(writable := true)
  {
    MapToRoundTrip(t, tp.page, frame, WRITABLE, Tiny(tp.pool));
  }

  /** `map` followed by `unmap`: the unmap succeeds exactly when the pool
      has a free slot for the frame, and then the page is unmapped again and
      the pool holds the frame in addition. In particular, when `map` drew
      nothing from a full pool, the unmap is fatal. */
  lemma TempMapThenUnmap(tp: TempPage, frame: Frame, t: PageTable)
    requires Fresh(t.mem, t.p4, Tiny(tp.pool)) && frame.index < FRAME_COUNT && tp.page.index < FRAME_COUNT
    requires tp.Map(frame, t).Ok?
    ensures var (tp1, t1, _) := tp.Map(frame, t).value;
      && (tp1.Unmap(t1).Err? <==> forall j :: 0 <= j < 3 ==> tp1.pool.slots[j].Some?)
      && (tp1.Unmap(t1).Err? ==> tp1.Unmap(t1) == Err(PoolFull))
      && (tp1.Unmap(t1).Ok? ==>
            tp1.Unmap(t1).value.1.TranslatePage(tp.page) == None
            && tp1.Unmap(t1).value.0.pool.Frames() == tp1.pool.Frames() + multiset{frame})
  {
    var (t1, a1) := t.MapTo(tp.page, frame, WRITABLE, Tiny(tp.pool)).value;
    assert tp.Map(frame, t).value == (TempPage(tp.page, a1.pool), t1, tp.page.Address());
    MapToRoundTrip(t, tp.page, frame, WRITABLE, Tiny(tp.pool));
    TempUnmapMapped(TempPage(tp.page, a1.pool), t1);
  }

  /** `unmap` of a mapped page: fatal exactly when the pool is full;
      otherwise the page no longer translates and the pool holds its frame
      in addition. */
  lemma TempUnmapMapped(tp: TempPage, t: PageTable)
    requires tp.page.index < FRAME_COUNT && t.TranslatePage(tp.page).Some?
    ensures tp.Unmap(t).Err? <==> forall j :: 0 <= j < 3 ==> tp.pool.slots[j].Some?
    ensures tp.Unmap(t).Err? ==> tp.Unmap(t) == Err(PoolFull)
    ensures tp.Unmap(t).Ok? ==>
      && tp.Unmap(t).value.1.TranslatePage(tp.page) == None
      && tp.Unmap(t).value.0.pool.Frames() == tp.pool.Frames() + multiset{t.TranslatePage(tp.page).value}
  {
    UnmapMapped(t, tp.page, Tiny(tp.pool));
    if tp.Unmap(t).Ok? {
      UnmapClears(t, tp.page, Tiny(tp.pool));
    }
  }

  /** The `TemporaryPage` object: its page and the pool it owns, behind the
      allocator interface. */
  class TemporaryPage {
    const page: Page
    const allocator: FrameAllocator

    predicate Valid()
      reads this, allocator, allocator.Footprint()
    {
      allocator.Valid() && allocator.tiny != null
    }

    /** The temporary page, as a value. */
    function State(): TempPage
      reads this, allocator, allocator.Footprint()
      requires Valid()
    {
      TempPage(page, allocator.tiny.Pool())
    }

    /** `TemporaryPage::new(page, allocator)`. */
    constructor (page: Page, upstream: FrameAllocator)
      requires upstream.Valid()
      modifies upstream.Footprint()
      ensures Valid() && upstream.Valid()
      ensures fresh(allocator) && fresh(allocator.tiny) && fresh(allocator.tiny.slots)
      ensures (State(), upstream.State()) == old(NewTempPage(page, upstream.State()))
    {
      var pool := NewTinyAllocator(upstream);
      this.page := page;
      allocator := new FrameAllocator.OverPool(pool);
    }

    /** `map(frame, active_table)`. */
    method Map(frame: Frame, activeTable: ActivePageTable) returns (r: Result<Word>)
      requires Valid()
      modifies activeTable, allocator.Footprint()
      ensures Valid()
      ensures var spec := old(State().Map(frame, activeTable.State()));
        && (spec.Ok? ==> r == Ok(spec.value.2) && State() == spec.value.0 && activeTable.State() == spec.value.1)
        && (spec.Err? ==> r == Err(spec.fault))
    {
      if activeTable.State().TranslatePage(page).Some? {
        return Err(AlreadyMapped);
      }
      var m := activeTable.MapTo(page, frame, WRITABLE, allocator);
      if m.Err? {
        return Err(m.fault);
      }
      return Ok(page.Address());
    }

    /** `unmap(active_table)`. */
    method Unmap(activeTable: ActivePageTable) returns (r: Result<()>)
      requires Valid()
      modifies activeTable, allocator.Footprint()
      ensures Valid()
      ensures var spec := old(State().Unmap(activeTable.State()));
        && (spec.Ok? ==> r.Ok? && State() == spec.value.0 && activeTable.State() == spec.value.1)
        && (spec.Err? ==> r == Err(spec.fault))
    {
      r := activeTable.Unmap(page, allocator);
    }
  }
}
