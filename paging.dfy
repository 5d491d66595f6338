/** Pages, the four-level walk that translates a page, and the operations that
    map and unmap pages. `PageTable` is the page-table hierarchy as a value:
    the frame holding the level-4 table and the tables the frames hold;
    `ActivePageTable` is the object those operations change. */
module Paging {
  import opened Outcomes
  import opened Frames
  import opened Entries
  import opened Allocators
  import opened PageTables
  import BitArithmetic

  /** A virtual page: the virtual address space in 4096-byte pieces. */
  datatype Page = Page(index: Word) {

    /** `address()`: the page's first virtual address, `index * PAGE_SIZE`
        in a 64-bit word. */
    function Address(): Word {
      (index * PAGE_SIZE) % WORD_MODULUS
    }

    /** `p4_index()`: bits 27-35 of the index. */
    function P4Index(): EntryIndex {
      (index / 0x800_0000) % 512
    }

    /** `p3_index()`: bits 18-26 of the index. */
    function P3Index(): EntryIndex {
      (index / 0x4_0000) % 512
    }

    /** `p2_index()`: bits 9-17 of the index. */
    function P2Index(): EntryIndex {
      (index / 0x200) % 512
    }

    /** `p1_index()`: bits 0-8 of the index. */
    function P1Index(): EntryIndex {
      index % 512
    }

    /** The index into the table of `level` on the walk for this page. */
    function IndexAt(level: Level): EntryIndex {
      match level
      case Level4 => P4Index()
      case Level3 => P3Index()
      case Level2 => P2Index()
      case Level1 => P1Index()
    }
  }

  /** `Page::get_page_at_address`: the page containing `addr`. */
  function PageAtAddress(addr: Word): (p: Page)
    ensures p.index < FRAME_COUNT
    ensures p.index * PAGE_SIZE <= addr < (p.index + 1) * PAGE_SIZE
  {
    Page(addr / PAGE_SIZE)
  }

  /** The four table indices are the low 36 bits of the page index, nine
      bits each, and they determine those bits. */
  lemma PageIndexDecomposition(p: Page)
    ensures p.index % 0x10_0000_0000 ==
      p.P4Index() * 0x800_0000 + p.P3Index() * 0x4_0000 + p.P2Index() * 0x200 + p.P1Index()
  {
    var x := p.index;
    var x1 := x / 512;
    var x2 := x1 / 512;
    var x3 := x2 / 512;
    var x4 := x3 / 512;
    assert x == 0x800_0000 * x3 + (0x4_0000 * (x2 % 512) + 0x200 * (x1 % 512) + x % 512);
    BitArithmetic.DivModUnique(x, 0x800_0000, x3, 0x4_0000 * (x2 % 512) + 0x200 * (x1 % 512) + x % 512);
    assert x == 0x4_0000 * x2 + (0x200 * (x1 % 512) + x % 512);
    BitArithmetic.DivModUnique(x, 0x4_0000, x2, 0x200 * (x1 % 512) + x % 512);
    assert x == 0x10_0000_0000 * x4
      + (0x800_0000 * (x3 % 512) + 0x4_0000 * (x2 % 512) + 0x200 * (x1 % 512) + x % 512);
    BitArithmetic.DivModUnique(x, 0x10_0000_0000, x4,
      0x800_0000 * (x3 % 512) + 0x4_0000 * (x2 % 512) + 0x200 * (x1 % 512) + x % 512);
  }

  /** Pages below 2^36 with the same four indices are the same page. */
  lemma PageIndicesDetermine(p: Page, q: Page)
    requires p.index < 0x10_0000_0000 && q.index < 0x10_0000_0000
    requires p.P4Index() == q.P4Index() && p.P3Index() == q.P3Index()
    requires p.P2Index() == q.P2Index() && p.P1Index() == q.P1Index()
    ensures p == q
  {
    PageIndexDecomposition(p);
    PageIndexDecomposition(q);
    BitArithmetic.DivModUnique(p.index, 0x10_0000_0000, 0, p.index);
    BitArithmetic.DivModUnique(q.index, 0x10_0000_0000, 0, q.index);
  }

  /** Every address `off` bytes into a page whose address does not wrap lies
      in that page, `off` bytes from its start. */
  lemma AddressInPage(p: Page, off: nat)
    requires p.index < FRAME_COUNT && off < PAGE_SIZE
    ensures p.Address() + off < WORD_MODULUS
    ensures PageAtAddress(p.Address() + off) == p
    ensures (p.Address() + off) % PAGE_SIZE == off
  {
    assert p.index * PAGE_SIZE + off < WORD_MODULUS;
    BitArithmetic.DivModUnique(p.index * PAGE_SIZE + off, PAGE_SIZE, p.index, off);
  }

  /** Wrapping a page-aligned address plus an offset into 64 bits keeps the
      offset. */
  lemma WrappedOffset(k: nat, off: nat)
    requires off < PAGE_SIZE
    ensures (k * PAGE_SIZE + off) % WORD_MODULUS % PAGE_SIZE == off
  {
    var n := k * PAGE_SIZE + off;
    var q := n / WORD_MODULUS;
    assert n % WORD_MODULUS == PAGE_SIZE * (k - 0x10_0000_0000_0000 * q) + off;
    BitArithmetic.DivModUnique(n % WORD_MODULUS, PAGE_SIZE, k - 0x10_0000_0000_0000 * q, off);
  }

  /** The page `identitiy_map` maps: the page at the frame's start address,
      which has the frame's index unless that address wraps. */
  function IdentityPage(frame: Frame): (p: Page)
    ensures frame.index < FRAME_COUNT ==> p == Page(frame.index)
  {
    assert frame.index < FRAME_COUNT ==> PageAtAddress(StartAddress(frame)) == Page(frame.index) by {
      if frame.index < FRAME_COUNT { StartAddressRoundTrip(frame); }
    }
    PageAtAddress(StartAddress(frame))
  }

  /** The last step of `map_to`: the level-1 entry must be unused, and it
      is set to `frame` with `flags | PRESENT`. */
  function SetLeaf(mem: Memory, p1: Frame, i: EntryIndex, frame: Frame, flags: EntryFlags): (r: Result<Memory>)
    ensures r.Ok? <==> mem.Read(p1)[i].IsUnused() && SetFlags(frame, flags.(present := true)).Ok?
    ensures !mem.Read(p1)[i].IsUnused() ==> r == Err(EntryInUse)
  {
    if !mem.Read(p1)[i].IsUnused() then Err(EntryInUse)
    else
      var e :- SetFlags(frame, flags.(present := true));
      Ok(mem.Write(p1, i, e))
  }

  /** The hierarchy of page tables, as a value: the frame of the level-4
      table and physical memory. */
  datatype PageTable = PageTable(p4: Frame, mem: Memory) {

    /** The frame of the level-1 table on the walk for `page`: the
        `next_table` chain from level 4 through level 2. */
    function P1Table(page: Page): (r: Option<Frame>)
      ensures mem.NextTable(p4, page.P4Index()).None? ==> r.None?
      ensures r.Some? ==> mem.NextTable(p4, page.P4Index()).Some?
    {
      match mem.NextTable(p4, page.P4Index())
      case None => None
      case Some(p3) =>
        match mem.NextTable(p3, page.P3Index())
        case None => None
        case Some(p2) => mem.NextTable(p2, page.P2Index())
    }

    /** The `next_table` chain for `page` from the table of `level` held in
        frame `f`: a child is looked up only while the level has a next level,
        so the chain ends at the level-1 table, which has no `next_table`. */
    function Walk(level: Level, f: Frame, page: Page): (r: Option<Frame>)
      decreases 3 - level.Depth()
      ensures level == Level1 ==> r == Some(f)
      ensures level != Level1 && mem.NextTable(f, page.IndexAt(level)).None? ==> r.None?
    {
      match level.NextLevel()
      case None => Some(f)
      case Some(next) =>
        match mem.NextTable(f, page.IndexAt(level))
        case None => None
        case Some(child) => Walk(next, child, page)
    }

    /** `translate_page`: the frame the level-1 entry for `page` points to;
        None when some table on the walk is missing, when a level-4, -3 or -2
        entry maps a huge page, or when the final entry is not present. */
    function TranslatePage(page: Page): (r: Option<Frame>)
      ensures P1Table(page).None? ==> r.None?
      ensures mem.Read(p4)[page.P4Index()].Flags().hugePage ==> r.None?
      ensures r.Some? ==> mem.Read(P1Table(page).value)[page.P1Index()].Flags().present
    {
      match P1Table(page)
      case None => None
      case Some(p1) => mem.Read(p1)[page.P1Index()].TargetFrame()
    }

    /** `translate`: the frame's start plus the offset into the page, in a
        64-bit word. */
    function Translate(addr: Word): (r: Option<Word>)
      ensures r.Some? <==> TranslatePage(PageAtAddress(addr)).Some?
      ensures r.Some? ==> r.value % PAGE_SIZE == addr % PAGE_SIZE
    {
      var off := addr % PAGE_SIZE;
      match TranslatePage(PageAtAddress(addr))
      case None => None
      case Some(frame) =>
        WrappedOffset(frame.index, off);
        Some((frame.index * PAGE_SIZE + off) % WORD_MODULUS)
    }

    /** The three `create_next_table` calls `map_to` begins with, at levels
        4, 3 and 2: the memory and allocator afterwards and the frame of the
        level-1 table. */
    function CreateWalk(page: Page, alloc: Allocator): (r: Result<(Memory, Allocator, Frame)>)
      requires alloc.Valid()
      ensures r.Ok? ==> r.value.1.Valid() && r.value.1.Area? == alloc.Area?
      ensures mem.NextTable(p4, page.P4Index()).None? && mem.Read(p4)[page.P4Index()].Flags().hugePage ==>
        r == Err(HugePageEntry)
    {
      var c3 :- mem.CreateNextTable(p4, page.P4Index(), alloc);
      var (m1, a1, p3) := c3;
      var c2 :- m1.CreateNextTable(p3, page.P3Index(), a1);
      var (m2, a2, p2) := c2;
      m2.CreateNextTable(p2, page.P2Index(), a2)
    }

    /** `map_to`: the walk down to the level-1 table, then the level-1
        entry, which must be unused (`assert!`), is set to `frame` with
        `flags | PRESENT`. */
    function MapTo(page: Page, frame: Frame, flags: EntryFlags, alloc: Allocator): (r: Result<(PageTable, Allocator)>)
      requires alloc.Valid()
      ensures r.Ok? ==> r.value.0.p4 == p4 && r.value.1.Valid() && r.value.1.Area? == alloc.Area?
      ensures mem.NextTable(p4, page.P4Index()).None? && mem.Read(p4)[page.P4Index()].Flags().hugePage ==>
        r == Err(HugePageEntry)
    {
      var w :- CreateWalk(page, alloc);
      var (m3, a3, p1) := w;
      var m4 :- SetLeaf(m3, p1, page.P1Index(), frame, flags);
      Ok((PageTable(p4, m4), a3))
    }

    /** `map`: a frame from the allocator (`unwrap`), then `map_to`. */
    function Map(page: Page, flags: EntryFlags, alloc: Allocator): (r: Result<(PageTable, Allocator)>)
      requires alloc.Valid()
      ensures alloc.AllocFrame().1.None? ==> r == Err(NoneUnwrapped)
      ensures alloc.AllocFrame().1.Some? ==>
        r == MapTo(page, alloc.AllocFrame().1.value, flags, alloc.AllocFrame().0)
    {
      var (a, frame) := alloc.AllocFrame();
      if frame.None? then Err(NoneUnwrapped) else MapTo(page, frame.value, flags, a)
    }

    /** `identitiy_map`: `map_to` of the page whose address is the frame's
        start address. */
    function IdentityMap(frame: Frame, flags: EntryFlags, alloc: Allocator): (r: Result<(PageTable, Allocator)>)
      requires alloc.Valid()
      ensures frame.index < FRAME_COUNT ==> r == MapTo(Page(frame.index), frame, flags, alloc)
    {
      MapTo(IdentityPage(frame), frame, flags, alloc)
    }

    /** `unmap`: the page must translate (`assert!`); the level-1 entry is
        marked unused and its frame goes back to the allocator. */
    function Unmap(page: Page, alloc: Allocator): (r: Result<(PageTable, Allocator)>)
      ensures Translate(page.Address()).None? ==> r == Err(PageNotMapped)
      ensures alloc.Area? ==> r.Err?
      ensures r.Ok? ==> r.value.0.p4 == p4 && r.value.1.Tiny?
    {
      if Translate(page.Address()).None? then Err(PageNotMapped)
      else
        match P1Table(page)
        case None => Err(NoneUnwrapped)
        case Some(p1) =>
          match mem.Read(p1)[page.P1Index()].TargetFrame()
          case None => Err(NoneUnwrapped)
          case Some(frame) =>
            var m := mem.Write(p1, page.P1Index(), mem.Read(p1)[page.P1Index()].MarkUnused());
            var a :- alloc.DeallocFrame(frame);
            Ok((PageTable(p4, m), a))
    }
  }

  /** The walk by levels from the level-4 table is the walk `translate_page`
      and `unmap` take: three `next_table` links, at levels 4, 3 and 2. */
  lemma WalkFromLevel4(t: PageTable, page: Page)
    ensures t.Walk(Level4, t.p4, page) == t.P1Table(page)
  {
    match t.mem.NextTable(t.p4, page.P4Index())
    case None =>
    case Some(p3) =>
      assert t.Walk(Level4, t.p4, page) == t.Walk(Level3, p3, page);
      match t.mem.NextTable(p3, page.P3Index())
      case None =>
      case Some(p2) =>
        assert t.Walk(Level3, p3, page) == t.Walk(Level2, p2, page);
  }

  /** `next_table` refuses a HUGE_PAGE entry at every level that has one:
      a huge level-4, level-3 or level-2 entry on the walk makes
      `translate_page` give None. */
  lemma HugeEntriesStopTranslation(t: PageTable, page: Page)
    ensures t.mem.Read(t.p4)[page.P4Index()].Flags().hugePage ==> t.TranslatePage(page).None?
    ensures var p3 := t.mem.NextTable(t.p4, page.P4Index());
      p3.Some? && t.mem.Read(p3.value)[page.P3Index()].Flags().hugePage ==> t.TranslatePage(page).None?
    ensures var p3 := t.mem.NextTable(t.p4, page.P4Index());
      var p2 := if p3.Some? then t.mem.NextTable(p3.value, page.P3Index()) else None;
      p2.Some? && t.mem.Read(p2.value)[page.P2Index()].Flags().hugePage ==> t.TranslatePage(page).None?
  {
  }

  /** Level-1 tables have no `next_table`, so a HUGE_PAGE bit in the level-1
      entry does not stop the translation: the present entry's frame is the
      result. */
  lemma LeafHugeBitIgnored(t: PageTable, page: Page)
    requires t.P1Table(page).Some?
    requires t.mem.Read(t.P1Table(page).value)[page.P1Index()].Flags().present
    ensures t.TranslatePage(page) == t.mem.Read(t.P1Table(page).value)[page.P1Index()].TargetFrame()
    ensures t.TranslatePage(page).Some?
  {
  }

  /** The three tables `map_to` creates keep a fresh allocator fresh and
      link the level-4 table to the new level-1 table; when the walk for the
      page already existed, nothing changes. This is the walk `map_to` and
      every lemma about it share. */
  lemma MapToWalk(mem: Memory, root: Frame, page: Page, alloc: Allocator,
                  m1: Memory, a1: Allocator, p3: Frame,
                  m2: Memory, a2: Allocator, p2: Frame,
                  m3: Memory, a3: Allocator, p1: Frame)
    requires Fresh(mem, root, alloc)
    requires mem.CreateNextTable(root, page.P4Index(), alloc) == Ok((m1, a1, p3))
    requires m1.CreateNextTable(p3, page.P3Index(), a1) == Ok((m2, a2, p2))
    requires m2.CreateNextTable(p2, page.P2Index(), a2) == Ok((m3, a3, p1))
    ensures Fresh(m3, root, a3)
    ensures PageTable(root, m3).P1Table(page) == Some(p1)
    ensures PageTable(root, mem).P1Table(page).Some? ==> m3 == mem && p1 == PageTable(root, mem).P1Table(page).value
    ensures forall g :: a3.MayHandOut(g) ==> alloc.MayHandOut(g)
  {
    WalkFresh(mem, root, page, alloc, m1, a1, p3, m2, a2, p2, m3, a3, p1);
    WalkLinks(mem, root, page, alloc, m1, a1, p3, m2, a2, p2, m3, a3, p1);
  }

  /** Each `create_next_table` of the walk keeps the allocator fresh. */
  lemma WalkFresh(mem: Memory, root: Frame, page: Page, alloc: Allocator,
                  m1: Memory, a1: Allocator, p3: Frame,
                  m2: Memory, a2: Allocator, p2: Frame,
                  m3: Memory, a3: Allocator, p1: Frame)
    requires Fresh(mem, root, alloc)
    requires mem.CreateNextTable(root, page.P4Index(), alloc) == Ok((m1, a1, p3))
    requires m1.CreateNextTable(p3, page.P3Index(), a1) == Ok((m2, a2, p2))
    requires m2.CreateNextTable(p2, page.P2Index(), a2) == Ok((m3, a3, p1))
    ensures Fresh(m1, root, a1) && m1.InUse(root, p3)
    ensures Fresh(m2, root, a2) && m2.InUse(root, p2)
    ensures Fresh(m3, root, a3)
    ensures forall g :: a3.MayHandOut(g) ==> alloc.MayHandOut(g)
  {
    CreateKeepsFresh(mem, root, root, page.P4Index(), alloc);
    CreateKeepsFresh(m1, root, p3, page.P3Index(), a1);
    CreateKeepsFresh(m2, root, p2, page.P2Index(), a2);
  }

  /** The links the walk follows survive the later steps. */
  lemma WalkLinks(mem: Memory, root: Frame, page: Page, alloc: Allocator,
                  m1: Memory, a1: Allocator, p3: Frame,
                  m2: Memory, a2: Allocator, p2: Frame,
                  m3: Memory, a3: Allocator, p1: Frame)
    requires Fresh(mem, root, alloc)
    requires mem.CreateNextTable(root, page.P4Index(), alloc) == Ok((m1, a1, p3))
    requires m1.CreateNextTable(p3, page.P3Index(), a1) == Ok((m2, a2, p2))
    requires m2.CreateNextTable(p2, page.P2Index(), a2) == Ok((m3, a3, p1))
    ensures PageTable(root, m3).P1Table(page) == Some(p1)
    ensures PageTable(root, mem).P1Table(page).Some? ==> m3 == mem && p1 == PageTable(root, mem).P1Table(page).value
  {
    WalkFresh(mem, root, page, alloc, m1, a1, p3, m2, a2, p2, m3, a3, p1);
    assert m1.NextTable(root, page.P4Index()) == Some(p3);
    LinkKept(m1, root, p3, page.P3Index(), a1, root, page.P4Index());
    assert m2.NextTable(p3, page.P3Index()) == Some(p2);
    LinkKept(m2, root, p2, page.P2Index(), a2, root, page.P4Index());
    LinkKept(m2, root, p2, page.P2Index(), a2, p3, page.P3Index());
  }

  /** A link from a table in use survives `create_next_table` elsewhere. */
  lemma LinkKept(mem: Memory, root: Frame, f: Frame, i: EntryIndex, alloc: Allocator, g: Frame, j: EntryIndex)
    requires Fresh(mem, root, alloc) && mem.InUse(root, f)
    requires mem.CreateNextTable(f, i, alloc).Ok?
    requires mem.InUse(root, g) && mem.NextTable(g, j).Some?
    ensures mem.CreateNextTable(f, i, alloc).value.0.NextTable(g, j) == mem.NextTable(g, j)
    ensures mem.CreateNextTable(f, i, alloc).value.0.InUse(root, mem.NextTable(g, j).value)
  {
    CreateKeepsFresh(mem, root, f, i, alloc);
    var m := mem.CreateNextTable(f, i, alloc).value.0;
    assert m.Read(g)[j].TargetFrame() == mem.NextTable(g, j);
  }

  /** Mapping with a fresh allocator succeeds in its purpose: afterwards the
      page translates to `frame` through an entry carrying `flags | PRESENT`.
      Any frame below 2^52 is accepted. */
  lemma MapToRoundTrip(t: PageTable, page: Page, frame: Frame, flags: EntryFlags, alloc: Allocator)
    requires Fresh(t.mem, t.p4, alloc) && frame.index < FRAME_COUNT
    requires t.MapTo(page, frame, flags, alloc).Ok?
    ensures var t' := t.MapTo(page, frame, flags, alloc).value.0;
      && t'.TranslatePage(page) == Some(frame)
      && t'.P1Table(page).Some?
      && t'.mem.Read(t'.P1Table(page).value)[page.P1Index()].Flags() == flags.(present := true)
  {
    var root := t.p4;
    var (m1, a1, p3) := t.mem.CreateNextTable(root, page.P4Index(), alloc).value;
    var (m2, a2, p2) := m1.CreateNextTable(p3, page.P3Index(), a1).value;
    var (m3, a3, p1) := m2.CreateNextTable(p2, page.P2Index(), a2).value;
    MapToWalk(t.mem, root, page, alloc, m1, a1, p3, m2, a2, p2, m3, a3, p1);
    LeafWrite(m3, root, page, p1, frame, flags, a3);
  }

  /** `map_to` with a fresh allocator leaves it fresh, unless `frame` is one
      it could still hand out. */
  lemma MapToKeepsFresh(t: PageTable, page: Page, frame: Frame, flags: EntryFlags, alloc: Allocator)
    requires Fresh(t.mem, t.p4, alloc) && frame.index < FRAME_COUNT && !alloc.MayHandOut(frame)
    requires t.MapTo(page, frame, flags, alloc).Ok?
    ensures var (t', a) := t.MapTo(page, frame, flags, alloc).value;
      Fresh(t'.mem, t'.p4, a)
  {
    var root := t.p4;
    var (m1, a1, p3) := t.mem.CreateNextTable(root, page.P4Index(), alloc).value;
    var (m2, a2, p2) := m1.CreateNextTable(p3, page.P3Index(), a1).value;
    var (m3, a3, p1) := m2.CreateNextTable(p2, page.P2Index(), a2).value;
    MapToWalk(t.mem, root, page, alloc, m1, a1, p3, m2, a2, p2, m3, a3, p1);
    LeafWrite(m3, root, page, p1, frame, flags, a3);
  }

  /** The last step of `map_to`: setting the unused level-1 entry at the end
      of an existing walk. */
  lemma LeafWrite(m: Memory, root: Frame, page: Page, p1: Frame, frame: Frame, flags: EntryFlags, a: Allocator)
    requires Fresh(m, root, a) && frame.index < FRAME_COUNT
    requires PageTable(root, m).P1Table(page) == Some(p1)
    requires m.Read(p1)[page.P1Index()].IsUnused()
    requires SetFlags(frame, flags.(present := true)).Ok?
    ensures var t' := PageTable(root, m.Write(p1, page.P1Index(), SetFlags(frame, flags.(present := true)).value));
      && t'.P1Table(page) == Some(p1)
      && t'.TranslatePage(page) == Some(frame)
      && t'.mem.Read(p1)[page.P1Index()].Flags() == flags.(present := true)
      && (!a.MayHandOut(frame) ==> Fresh(t'.mem, root, a))
  {
    var i := page.P1Index();
    var m' := m.Write(p1, i, SetFlags(frame, flags.(present := true)).value);
    SetFlagsRoundTrip(frame, flags.(present := true));
    UnusedEntryIsAbsent(m.Read(p1)[i]);
    var p3 := m.NextTable(root, page.P4Index()).value;
    var p2 := m.NextTable(p3, page.P3Index()).value;
    assert m'.NextTable(root, page.P4Index()) == Some(p3);
    assert m'.NextTable(p3, page.P3Index()) == Some(p2);
    assert m'.NextTable(p2, page.P2Index()) == Some(p1);
    if !a.MayHandOut(frame) {
      forall h | a.MayHandOut(h)
        ensures !m'.InUse(root, h)
      {
        forall f', j | 0 <= j < ENTRY_COUNT
          ensures m'.Read(f')[j].TargetFrame() != Some(h)
        {
          if f' != p1 || j != i {
            assert m'.Read(f')[j] == m.Read(f')[j];
          }
        }
      }
    }
  }

  /** `map_to` of a page that already translates stops at the `assert!`:
      the walk exists, so no table is created and nothing is drawn. */
  lemma MapToMappedFails(t: PageTable, page: Page, frame: Frame, flags: EntryFlags, alloc: Allocator)
    requires alloc.Valid()
    requires t.TranslatePage(page).Some?
    ensures t.MapTo(page, frame, flags, alloc) == Err(EntryInUse)
  {
    var p3 := t.mem.NextTable(t.p4, page.P4Index()).value;
    var p2 := t.mem.NextTable(p3, page.P3Index()).value;
    var p1 := t.mem.NextTable(p2, page.P2Index()).value;
    assert t.mem.CreateNextTable(t.p4, page.P4Index(), alloc) == Ok((t.mem, alloc, p3));
    assert t.mem.CreateNextTable(p3, page.P3Index(), alloc) == Ok((t.mem, alloc, p2));
    assert t.mem.CreateNextTable(p2, page.P2Index(), alloc) == Ok((t.mem, alloc, p1));
    assert !t.mem.Read(p1)[page.P1Index()].IsUnused();
  }

  /** `map_to` calls `alloc_frame` at most three times, once per missing
      table, and the allocator it leaves is the one after those calls. */
  lemma MapToDrawsAtMostThree(t: PageTable, page: Page, frame: Frame, flags: EntryFlags, alloc: Allocator)
    requires alloc.Valid()
    requires t.MapTo(page, frame, flags, alloc).Ok?
    ensures exists k :: 0 <= k <= 3 && t.MapTo(page, frame, flags, alloc).value.1 == alloc.Drawn(k)
  {
    var (m1, a1, p3) := t.mem.CreateNextTable(t.p4, page.P4Index(), alloc).value;
    var (m2, a2, p2) := m1.CreateNextTable(p3, page.P3Index(), a1).value;
    var (m3, a3, p1) := m2.CreateNextTable(p2, page.P2Index(), a2).value;
    var k1 := DrawStep(alloc, 0, a1);
    var k2 := DrawStep(alloc, k1, a2);
    var k3 := DrawStep(alloc, k2, a3);
    assert t.MapTo(page, frame, flags, alloc).value.1 == alloc.Drawn(k3);
  }

  /** An allocator that is `a` after `k <= 2` draws, or that allocator after
      one more, is `a` after `k` or `k + 1` draws. */
  lemma DrawStep(a: Allocator, k: nat, b: Allocator) returns (k': nat)
    requires a.Valid() && k <= 2
    requires b == a.Drawn(k) || b == a.Drawn(k).AllocFrame().0
    ensures k <= k' <= k + 1 && b == a.Drawn(k')
  {
    DrawnSteps(a);
    if k == 0 {
      k' := if b == a.Drawn(0) then 0 else 1;
    } else if k == 1 {
      k' := if b == a.Drawn(1) then 1 else 2;
    } else {
      k' := if b == a.Drawn(2) then 2 else 3;
    }
  }

  /** `map` with a fresh allocator maps the page to a frame no table used
      before, and the allocator stays fresh. */
  lemma MapRoundTrip(t: PageTable, page: Page, flags: EntryFlags, alloc: Allocator)
    requires Fresh(t.mem, t.p4, alloc)
    requires t.Map(page, flags, alloc).Ok?
    ensures alloc.AllocFrame().1.Some?
    ensures var frame := alloc.AllocFrame().1.value;
      && t.Map(page, flags, alloc).value.0.TranslatePage(page) == Some(frame)
      && !t.mem.InUse(t.p4, frame)
      && Fresh(t.Map(page, flags, alloc).value.0.mem, t.p4, t.Map(page, flags, alloc).value.1)
  {
    var (a, frame) := alloc.AllocFrame();
    assert Fresh(t.mem, t.p4, a);
    MapToRoundTrip(t, page, frame.value, flags, a);
    MapToKeepsFresh(t, page, frame.value, flags, a);
  }

  /** An address `off` bytes into a page that translates to a frame
      translates to `off` bytes into that frame. */
  lemma TranslateInPage(t: PageTable, page: Page, off: nat)
    requires page.index < FRAME_COUNT && off < PAGE_SIZE
    requires t.TranslatePage(page).Some? && t.TranslatePage(page).value.index < FRAME_COUNT
    ensures page.Address() + off < WORD_MODULUS && StartAddress(t.TranslatePage(page).value) + off < WORD_MODULUS
    ensures t.Translate(page.Address() + off) == Some(StartAddress(t.TranslatePage(page).value) + off)
  {
    var frame := t.TranslatePage(page).value;
    AddressInPage(page, off);
    AddressInPage(Page(frame.index), off);
    var n := frame.index * PAGE_SIZE + off;
    BitArithmetic.DivModUnique(n, WORD_MODULUS, 0, n);
    BitArithmetic.DivModUnique(frame.index * PAGE_SIZE, WORD_MODULUS, 0, frame.index * PAGE_SIZE);
  }

  /** `identitiy_map` maps the page at the frame's start address to the
      frame itself, so with `TranslateInPage` every address in the frame
      translates to itself. */
  lemma IdentityMapRoundTrip(t: PageTable, frame: Frame, flags: EntryFlags, alloc: Allocator)
    requires Fresh(t.mem, t.p4, alloc) && frame.index < FRAME_COUNT
    requires t.IdentityMap(frame, flags, alloc).Ok?
    ensures var page := PageAtAddress(StartAddress(frame));
      && page.Address() == StartAddress(frame)
      && t.IdentityMap(frame, flags, alloc).value.0.TranslatePage(page) == Some(frame)
  {
    StartAddressRoundTrip(frame);
    MapToRoundTrip(t, Page(frame.index), frame, flags, alloc);
  }

  /** A successful `unmap` found the page mapped, cleared exactly its
      level-1 entry, and gave the frame back to the allocator; afterwards the
      page does not translate. */
  lemma UnmapClears(t: PageTable, page: Page, alloc: Allocator)
    requires t.Unmap(page, alloc).Ok?
    ensures t.TranslatePage(page).Some?
    ensures var (t', a) := t.Unmap(page, alloc).value;
      && t'.mem == t.mem.Write(t.P1Table(page).value, page.P1Index(), Entry(0))
      && a == alloc.DeallocFrame(t.TranslatePage(page).value).value
      && t'.TranslatePage(page) == None
  {
    var p1 := t.P1Table(page).value;
    assert t.Unmap(page, alloc).value.0 == PageTable(t.p4, t.mem.Write(p1, page.P1Index(), Entry(0)));
    ClearLeaf(t, page, p1);
  }

  /** Clearing the level-1 entry at the end of a walk unmaps the page, even
      when that entry is also one of the walk's own links. */
  lemma ClearLeaf(t: PageTable, page: Page, p1: Frame)
    requires t.P1Table(page) == Some(p1)
    ensures PageTable(t.p4, t.mem.Write(p1, page.P1Index(), Entry(0))).TranslatePage(page) == None
  {
    var root := t.p4;
    var i := page.P1Index();
    var m' := t.mem.Write(p1, i, Entry(0));
    var p3 := t.mem.NextTable(root, page.P4Index()).value;
    var p2 := t.mem.NextTable(p3, page.P3Index()).value;
    UnusedEntryIsAbsent(Entry(0));
    var t' := PageTable(root, m');
    if root == p1 && page.P4Index() == i {
      assert m'.NextTable(root, page.P4Index()) == None;
    } else if p3 == p1 && page.P3Index() == i {
      assert m'.NextTable(root, page.P4Index()) == Some(p3);
      assert m'.NextTable(p3, page.P3Index()) == None;
    } else if p2 == p1 && page.P2Index() == i {
      assert m'.NextTable(root, page.P4Index()) == Some(p3);
      assert m'.NextTable(p3, page.P3Index()) == Some(p2);
      assert m'.NextTable(p2, page.P2Index()) == None;
    } else {
      assert m'.NextTable(root, page.P4Index()) == Some(p3);
      assert m'.NextTable(p3, page.P3Index()) == Some(p2);
      assert m'.NextTable(p2, page.P2Index()) == Some(p1);
      assert t'.P1Table(page) == Some(p1);
      assert m'.Read(p1)[i].TargetFrame() == None;
    }
  }

  /** For a mapped page below 2^52, `unmap` succeeds exactly when the
      allocator takes the frame back: never for the bump allocator, and for
      the pool when a slot is free. */
  lemma UnmapMapped(t: PageTable, page: Page, alloc: Allocator)
    requires page.index < FRAME_COUNT && t.TranslatePage(page).Some?
    ensures t.Unmap(page, alloc).Ok? <==> alloc.DeallocFrame(t.TranslatePage(page).value).Ok?
    ensures t.Unmap(page, alloc).Err? ==> t.Unmap(page, alloc) == alloc.DeallocFrame(t.TranslatePage(page).value).PropagateFailure()
  {
    AddressInPage(page, 0);
    assert PageAtAddress(page.Address() + 0) == PageAtAddress(page.Address()) == page;
    var p1 := t.P1Table(page).value;
    var frame := t.TranslatePage(page).value;
    var leaf := t.mem.Read(p1)[page.P1Index()];
    assert leaf.TargetFrame() == Some(frame);
    var m := t.mem.Write(p1, page.P1Index(), leaf.MarkUnused());
    var d := alloc.DeallocFrame(frame);
    assert t.Unmap(page, alloc) == if d.Ok? then Ok((PageTable(t.p4, m), d.value)) else d.PropagateFailure();
  }

  /** Mapping a page and unmapping it again leaves it unmapped and hands
      the frame to the allocator, when the allocator has room for it. */
  lemma MapToThenUnmap(t: PageTable, page: Page, frame: Frame, flags: EntryFlags, alloc: Allocator)
    requires Fresh(t.mem, t.p4, alloc) && frame.index < FRAME_COUNT && page.index < FRAME_COUNT
    requires t.MapTo(page, frame, flags, alloc).Ok?
    ensures var (t1, a1) := t.MapTo(page, frame, flags, alloc).value;
      && (t1.Unmap(page, a1).Ok? <==> a1.DeallocFrame(frame).Ok?)
      && (t1.Unmap(page, a1).Ok? ==>
            t1.Unmap(page, a1).value.0.TranslatePage(page) == None
            && t1.Unmap(page, a1).value.1.pool.Frames() == a1.pool.Frames() + multiset{frame})
  {
    var (t1, a1) := t.MapTo(page, frame, flags, alloc).value;
    MapToRoundTrip(t, page, frame, flags, alloc);
    UnmapMapped(t1, page, a1);
    if t1.Unmap(page, a1).Ok? {
      UnmapClears(t1, page, a1);
    }
  }

  /** The recursive mapping: when slot 511 of the level-4 table points back
      to that table, the address `next_table_addr` computes for slot `i` of
      the table at `LEVEL4_TABLE` lies in a page whose walk takes slot 511
      three times and then slot `i`, and that page translates to the child
      table's frame. */
  lemma RecursiveMappingFindsChild(t: PageTable, i: EntryIndex)
    requires t.mem.NextTable(t.p4, 511) == Some(t.p4)
    requires NextTableAddress(LEVEL4_TABLE, t.mem.Read(t.p4), i).Some?
    ensures var page := PageAtAddress(NextTableAddress(LEVEL4_TABLE, t.mem.Read(t.p4), i).value);
      && page.P4Index() == 511 && page.P3Index() == 511 && page.P2Index() == 511 && page.P1Index() == i
      && t.TranslatePage(page) == t.mem.NextTable(t.p4, i)
  {
    var addr := NextTableAddress(LEVEL4_TABLE, t.mem.Read(t.p4), i).value;
    assert addr == 0xffff_ffff_ffe0_0000 + i * PAGE_SIZE;
    RecursivePage(i);
  }

  /** The page holding `0xffff_ffff_ffe0_0000 + i * 4096` has table indices
      511, 511, 511 and `i`. */
  lemma RecursivePage(i: EntryIndex)
    ensures var page := PageAtAddress(0xffff_ffff_ffe0_0000 + i * PAGE_SIZE);
      && page.index == 0xf_ffff_ffff_fe00 + i
      && page.P4Index() == 511 && page.P3Index() == 511 && page.P2Index() == 511 && page.P1Index() == i
  {
    BitArithmetic.DivModUnique(0xffff_ffff_ffe0_0000 + i * PAGE_SIZE, PAGE_SIZE, 0xf_ffff_ffff_fe00 + i, 0);
  }

  /** The `ActivePageTable` object: the frame of the level-4 table and the
      tables in physical memory, which its methods change entry by entry. */
  class ActivePageTable {
    const p4: Frame
    var tables: map<Frame, Table>

    /** The hierarchy, as a value. */
    function State(): PageTable
      reads this
    {
      PageTable(p4, Memory(tables))
    }

    /** `ActivePageTable::new`: the hierarchy whose level-4 table is in
        frame `root`. */
    constructor (root: Frame, mem: Memory)
      ensures State() == PageTable(root, mem)
    {
      p4 := root;
      tables := mem.tables;
    }

    /** `zero_fill` of the table in frame `f`: `mark_unused` on each entry. */
    method ZeroFill(f: Frame)
      modifies this
      ensures State() == old(State()).(mem := old(State()).mem.ZeroFill(f))
    {
      ghost var before := tables;
      for i := 0 to ENTRY_COUNT
        invariant forall g :: g != f ==> Memory(tables).Read(g) == Memory(before).Read(g)
        invariant forall j :: 0 <= j < i ==> Memory(tables).Read(f)[j] == Entry(0)
        invariant tables.Keys == before.Keys + (if i == 0 then {} else {f})
      {
        tables := Memory(tables).Write(f, i, Memory(tables).Read(f)[i].MarkUnused()).tables;
      }
      assert tables[f] == ZERO_TABLE by {
        assert f in tables;
        forall j | 0 <= j < ENTRY_COUNT
          ensures tables[f][j] == ZERO_TABLE[j]
        {
          assert Memory(tables).Read(f)[j] == Entry(0);
        }
      }
      assert forall g :: g in tables ==> tables[g] == before[f := ZERO_TABLE][g] by {
        forall g | g in tables && g != f
          ensures tables[g] == before[g]
        {
          assert Memory(tables).Read(g) == Memory(before).Read(g);
        }
      }
    }

    /** `create_next_table`: the same outcome as the function on the state
        before, and on success the same new tables and allocator. */
    method CreateNextTable(f: Frame, i: EntryIndex, allocator: FrameAllocator) returns (r: Result<Frame>)
      requires allocator.Valid()
      modifies this, allocator.Footprint()
      ensures allocator.Valid()
      ensures var spec := old(Memory(tables).CreateNextTable(f, i, allocator.State()));
        && (spec.Ok? ==> r == Ok(spec.value.2) && Memory(tables) == spec.value.0 && allocator.State() == spec.value.1)
        && (spec.Err? ==> r == Err(spec.fault))
    {
      ghost var m0 := Memory(tables);
      ghost var a0 := allocator.State();
      var child := Memory(tables).NextTable(f, i);
      if child.None? {
        if Memory(tables).Read(f)[i].Flags().hugePage {
          return Err(HugePageEntry);
        }
        assert this !in allocator.Footprint();
        var frame := allocator.AllocFrame();
        assert (allocator.State(), frame) == a0.AllocFrame() && Memory(tables) == m0;
        if frame.None? {
          return Err(NoneUnwrapped);
        }
        var e := SetFlags(frame.value, PRESENT.(writable := true));
        if e.Err? {
          return Err(e.fault);
        }
        SetFlagsReadBack(frame.value, PRESENT.(writable := true));
        tables := Memory(tables).Write(f, i, e.value).tables;
        ghost var written := m0.Write(f, i, e.value);
        assert Memory(tables) == written;
        ghost var a1 := allocator.State();
        var target := Memory(tables).NextTable(f, i).value;
        ZeroFill(target);
        ghost var filled := written.ZeroFill(target);
        assert Memory(tables) == filled && allocator.State() == a1;
        child := Memory(tables).NextTable(f, i);
        if child.None? {
          assert m0.CreateNextTable(f, i, a0) == Err(NoneUnwrapped);
          return Err(NoneUnwrapped);
        }
        assert m0.CreateNextTable(f, i, a0) == Ok((filled, a1, child.value));
      }
      return Ok(child.value);
    }

    /** The walk of `map_to`. */
    method CreateWalk(page: Page, allocator: FrameAllocator) returns (r: Result<Frame>)
      requires allocator.Valid()
      modifies this, allocator.Footprint()
      ensures allocator.Valid()
      ensures var spec := old(State().CreateWalk(page, allocator.State()));
        && (spec.Ok? ==> r == Ok(spec.value.2) && Memory(tables) == spec.value.0 && allocator.State() == spec.value.1)
        && (spec.Err? ==> r == Err(spec.fault))
    {
      ghost var t0 := State();
      ghost var c3 := t0.mem.CreateNextTable(p4, page.P4Index(), allocator.State());
      var p3 := CreateNextTable(p4, page.P4Index(), allocator);
      if p3.Err? {
        return Err(p3.fault);
      }
      assert Memory(tables) == c3.value.0 && p3.value == c3.value.2;
      ghost var c2 := c3.value.0.CreateNextTable(c3.value.2, page.P3Index(), c3.value.1);
      var p2 := CreateNextTable(p3.value, page.P3Index(), allocator);
      if p2.Err? {
        return Err(p2.fault);
      }
      assert Memory(tables) == c2.value.0 && p2.value == c2.value.2;
      r := CreateNextTable(p2.value, page.P2Index(), allocator);
    }

    /** `map_to`. */
    method MapTo(page: Page, frame: Frame, flags: EntryFlags, allocator: FrameAllocator) returns (r: Result<()>)
      requires allocator.Valid()
      modifies this, allocator.Footprint()
      ensures allocator.Valid()
      ensures var spec := old(State().MapTo(page, frame, flags, allocator.State()));
        && (spec.Ok? ==> r.Ok? && State() == spec.value.0 && allocator.State() == spec.value.1)
        && (spec.Err? ==> r == Err(spec.fault))
    {
      ghost var t0 := State();
      ghost var spec := t0.MapTo(page, frame, flags, allocator.State());
      ghost var w := t0.CreateWalk(page, allocator.State());
      var p1 := CreateWalk(page, allocator);
      if p1.Err? {
        return Err(p1.fault);
      }
      assert Memory(tables) == w.value.0 && allocator.State() == w.value.1;
      ghost var leaf := SetLeaf(w.value.0, p1.value, page.P1Index(), frame, flags);
      assert spec == if leaf.Err? then Err(leaf.fault) else Ok((PageTable(p4, leaf.value), w.value.1));
      if !Memory(tables).Read(p1.value)[page.P1Index()].IsUnused() {
        return Err(EntryInUse);
      }
      var e := SetFlags(frame, flags.(present := true));
      if e.Err? {
        return Err(e.fault);
      }
      tables := Memory(tables).Write(p1.value, page.P1Index(), e.value).tables;
      return Ok(());
    }

    /** `map`. */
    method Map(page: Page, flags: EntryFlags, allocator: FrameAllocator) returns (r: Result<()>)
      requires allocator.Valid()
      modifies this, allocator.Footprint()
      ensures allocator.Valid()
      ensures var spec := old(State().Map(page, flags, allocator.State()));
        && (spec.Ok? ==> r.Ok? && State() == spec.value.0 && allocator.State() == spec.value.1)
        && (spec.Err? ==> r == Err(spec.fault))
    {
      ghost var t0 := State();
      var frame := allocator.AllocFrame();
      if frame.None? {
        return Err(NoneUnwrapped);
      }
      assert State() == t0;
      ghost var spec := t0.MapTo(page, frame.value, flags, allocator.State());
      r := MapTo(page, frame.value, flags, allocator);
      assert spec.Ok? ==> r.Ok? && State() == spec.value.0 && allocator.State() == spec.value.1;
    }

    /** `identitiy_map`. */
    method IdentityMap(frame: Frame, flags: EntryFlags, allocator: FrameAllocator) returns (r: Result<()>)
      requires allocator.Valid()
      modifies this, allocator.Footprint()
      ensures allocator.Valid()
      ensures var spec := old(State().IdentityMap(frame, flags, allocator.State()));
        && (spec.Ok? ==> r.Ok? && State() == spec.value.0 && allocator.State() == spec.value.1)
        && (spec.Err? ==> r == Err(spec.fault))
    {
      r := MapTo(PageAtAddress(StartAddress(frame)), frame, flags, allocator);
    }

    /** `unmap`; the `invlpg` that flushes the page from the TLB has no
        counterpart in the model. */
    method Unmap(page: Page, allocator: FrameAllocator) returns (r: Result<()>)
      requires allocator.Valid()
      modifies this, allocator.Footprint()
      ensures allocator.Valid()
      ensures var spec := old(State().Unmap(page, allocator.State()));
        && (spec.Ok? ==> r.Ok? && State() == spec.value.0 && allocator.State() == spec.value.1)
        && (spec.Err? ==> r == Err(spec.fault))
    {
      ghost var t0 := State();
      ghost var a0 := allocator.State();
      if State().Translate(page.Address()).None? {
        return Err(PageNotMapped);
      }
      var p1 := State().P1Table(page);
      if p1.None? {
        return Err(NoneUnwrapped);
      }
      var frame := Memory(tables).Read(p1.value)[page.P1Index()].TargetFrame();
      if frame.None? {
        return Err(NoneUnwrapped);
      }
      tables := Memory(tables).Write(p1.value, page.P1Index(), Memory(tables).Read(p1.value)[page.P1Index()].MarkUnused()).tables;
      ghost var t1 := State();
      assert t1 == PageTable(p4, t0.mem.Write(p1.value, page.P1Index(), t0.mem.Read(p1.value)[page.P1Index()].MarkUnused()));
      assert allocator.State() == a0;
      assert this !in allocator.Footprint();
      r := allocator.DeallocFrame(frame.value);
      assert State() == t1;
    }
  }
}
