/** Page tables: 512 entries each, linked from level 4 down to level 1. The
    kernel reaches a child table through the recursive mapping, at the virtual
    address `next_table_addr` computes; the model follows the same link
    through the child's frame, `Entry::frame()`, and physical memory is a map
    from frames to the tables they hold. A frame missing from the map holds
    zeroes. */
module PageTables {
  import opened Outcomes
  import opened Frames
  import opened Entries
  import opened Allocators
  import BitArithmetic

  const ENTRY_COUNT: nat := 512

  /** An index into a table's `[Entry; 512]`. */
  type EntryIndex = i: nat | i < 512

  type Table = t: seq<Entry> | |t| == 512 witness seq(512, _ => Entry(0))

  /** A table whose entries are all unused. */
  function ZeroTable(): (t: Table)
    ensures forall j :: 0 <= j < ENTRY_COUNT ==> t[j] == Entry(0)
  {
    seq(512, j => Entry(0))
  }

  const ZERO_TABLE: Table := ZeroTable()

  /** `LEVEL4_TABLE`: the address at which slot 511 of the level-4 table,
      pointing back at the table itself, makes that table visible. */
  const LEVEL4_TABLE: Word := 0xffff_ffff_ffff_f000

  /** The table levels and `HierarchicalLevel::NextLevel`. */
  datatype Level = Level4 | Level3 | Level2 | Level1 {

    /** The level of a child table; level 1 tables have no children. */
    function NextLevel(): (r: Option<Level>)
      ensures r.None? <==> this == Level1
      ensures r.Some? ==> r.value.Depth() == Depth() + 1
    {
      match this
      case Level4 => Some(Level3)
      case Level3 => Some(Level2)
      case Level2 => Some(Level1)
      case Level1 => None
    }

    /** The number of links from the level-4 table. */
    function Depth(): (d: nat)
      ensures d <= 3
    {
      match this
      case Level4 => 0
      case Level3 => 1
      case Level2 => 2
      case Level1 => 3
    }
  }

  /** `next_table_addr(i)` of the table at virtual address `tableAddr`:
      `(table_addr << 9) | (i << 12)` when entry `i` is present and not huge.
      A table fills a page, so `tableAddr` is page-aligned; then the shifted
      address (bits 21-63) and the shifted index (bits 12-20) have no bit in
      common, as `ShiftedTableAddress` shows, and the OR is their sum, as
      `OrOfDisjointShifts` shows on 64-bit words. */
  function NextTableAddress(tableAddr: Word, t: Table, i: EntryIndex): (r: Option<Word>)
    requires tableAddr % PAGE_SIZE == 0
    ensures r.Some? <==> t[i].Flags().present && !t[i].Flags().hugePage
    ensures r.Some? ==> r.value % PAGE_SIZE == 0 && r.value / PAGE_SIZE % 512 == i
  {
    var flags := t[i].Flags();
    if flags.present && !flags.hugePage then
      ShiftedTableAddress(tableAddr, i);
      Some((tableAddr * 512) % WORD_MODULUS + i * PAGE_SIZE)
    else
      None
  }

  /** The two operands of the OR in `next_table_addr` occupy disjoint bits:
      the shifted address has bits 0-20 clear and the shifted index lies
      below 2^21; the index is bits 12-20 of the result. */
  lemma ShiftedTableAddress(tableAddr: Word, i: EntryIndex)
    requires tableAddr % PAGE_SIZE == 0
    ensures ((tableAddr * 512) % WORD_MODULUS) % 0x20_0000 == 0
    ensures i * PAGE_SIZE < 0x20_0000
    ensures (tableAddr * 512) % WORD_MODULUS + i * PAGE_SIZE < WORD_MODULUS
    ensures (tableAddr * 512) % WORD_MODULUS + i * PAGE_SIZE == PAGE_SIZE * (512 * (((tableAddr * 512) % WORD_MODULUS) / 0x20_0000) + i)
    ensures ((tableAddr * 512) % WORD_MODULUS + i * PAGE_SIZE) / PAGE_SIZE % 512 == i
  {
    var k := tableAddr / PAGE_SIZE;
    assert tableAddr * 512 == 0x20_0000 * k;
    var q := (0x20_0000 * k) / WORD_MODULUS;
    var low := (0x20_0000 * k) % WORD_MODULUS;
    assert 0x20_0000 * k == WORD_MODULUS * q + low;
    var m := k - 0x800_0000_0000 * q;
    assert low == 0x20_0000 * m;
    assert low / 0x20_0000 == m;
    assert m < 0x800_0000_0000;
    var r := low + i * PAGE_SIZE;
    assert r == PAGE_SIZE * (512 * m + i);
    BitArithmetic.DivModUnique(r, PAGE_SIZE, 512 * m + i, 0);
    BitArithmetic.DivModUnique(512 * m + i, 512, m, i);
  }

  /** On 64-bit words, `(table_addr << 9) | (index << 12)` equals the sum of
      the two shifts when the table address is page-aligned and the index is
      below 512. */
  lemma OrOfDisjointShifts(tableAddr: bv64, i: bv64)
    requires tableAddr & 0xfff == 0 && i < 512
    ensures (tableAddr << 9) | (i << 12) == (tableAddr << 9) + (i << 12)
  {
  }

  /** Slot 511 of the table at `LEVEL4_TABLE` leads back to `LEVEL4_TABLE`:
      the recursive mapping is a fixed point of `next_table_addr`. */
  lemma SelfMapFixedPoint(t: Table)
    requires t[511].Flags().present && !t[511].Flags().hugePage
    ensures NextTableAddress(LEVEL4_TABLE, t, 511) == Some(LEVEL4_TABLE)
  {
  }

  /** Physical memory, as the page tables the frames hold. */
  datatype Memory = Memory(tables: map<Frame, Table>) {

    /** The table held in frame `f`. */
    function Read(f: Frame): Table {
      if f in tables then tables[f] else ZERO_TABLE
    }

    /** Entry `i` of the table in frame `f` replaced by `e`, as `set_flags`
        and `mark_unused` do through `IndexMut`. */
    function Write(f: Frame, i: EntryIndex, e: Entry): (m: Memory)
      ensures m.Read(f)[i] == e
      ensures forall g, j :: 0 <= j < ENTRY_COUNT && (g != f || j != i) ==> m.Read(g)[j] == Read(g)[j]
    {
      Memory(tables[f := Read(f)[i := e]])
    }

    /** `zero_fill` of the table in frame `f`. */
    function ZeroFill(f: Frame): (m: Memory)
      ensures forall j :: 0 <= j < ENTRY_COUNT ==> m.Read(f)[j].IsUnused()
      ensures forall g :: g != f ==> m.Read(g) == Read(g)
    {
      Memory(tables[f := ZERO_TABLE])
    }

    /** `next_table(i)` of the table in frame `f`: the frame of the child
        table, when entry `i` is present and does not map a huge page. */
    function NextTable(f: Frame, i: EntryIndex): (r: Option<Frame>)
      ensures r.Some? <==> Read(f)[i].Flags().present && !Read(f)[i].Flags().hugePage
      ensures r.Some? ==> r == Read(f)[i].TargetFrame()
    {
      var e := Read(f)[i];
      if e.Flags().present && !e.Flags().hugePage then e.TargetFrame() else None
    }

    /** `create_next_table(i, allocator)` on the table in frame `f`: an
        existing child is returned untouched; otherwise the entry must not map
        a huge page, one frame is taken from the allocator (`unwrap`), the entry
        points to it with PRESENT | WRITABLE and the new child is zero-filled.
        The result is the memory, the allocator and the child's frame. */
    function CreateNextTable(f: Frame, i: EntryIndex, alloc: Allocator): (r: Result<(Memory, Allocator, Frame)>)
      requires alloc.Valid()
      ensures r.Ok? ==> r.value.1.Valid() && r.value.1.Area? == alloc.Area? && r.value.0.NextTable(f, i) == Some(r.value.2)
      ensures r.Ok? ==> r.value.1 == alloc || r.value.1 == alloc.AllocFrame().0
      ensures NextTable(f, i).Some? ==> r == Ok((this, alloc, NextTable(f, i).value))
      ensures NextTable(f, i).None? && Read(f)[i].Flags().hugePage ==> r == Err(HugePageEntry)
      ensures NextTable(f, i).None? && !Read(f)[i].Flags().hugePage && alloc.AllocFrame().1.None? ==>
        r == Err(NoneUnwrapped)
    {
      match NextTable(f, i)
      case Some(child) => Ok((this, alloc, child))
      case None =>
        if Read(f)[i].Flags().hugePage then Err(HugePageEntry)
        else
          var (alloc', frame) := alloc.AllocFrame();
          if frame.None? then Err(NoneUnwrapped)
          else
            var e :- SetFlags(frame.value, PRESENT.(writable := true));
            var written := Write(f, i, e);
            match written.NextTable(f, i)
            case None => Err(NoneUnwrapped)
            case Some(child) =>
              var filled := written.ZeroFill(child);
              match filled.NextTable(f, i)
              case None => Err(NoneUnwrapped)
              case Some(c) => Ok((filled, alloc', c))
    }

    /** A table `create_next_table` adds: the entry points to the frame
        just allocated, with PRESENT | WRITABLE, that frame holds a zeroed
        table, and no other entry of any table changes. */
    lemma NewTable(f: Frame, i: EntryIndex, alloc: Allocator)
      requires alloc.Valid()
      requires NextTable(f, i).None? && CreateNextTable(f, i, alloc).Ok?
      ensures var (m, a, child) := CreateNextTable(f, i, alloc).value;
        && alloc.AllocFrame().1.Some?
        && a == alloc.AllocFrame().0
        && m.Read(f)[i].Flags() == PRESENT.(writable := true)
        && m.Read(child) == ZERO_TABLE
        && (alloc.AllocFrame().1.value.index < FRAME_COUNT ==> child == alloc.AllocFrame().1.value)
        && (forall j :: 0 <= j < ENTRY_COUNT && j != i ==> m.Read(f)[j] == Read(f)[j])
        && (forall g :: g != f && g != child ==> m.Read(g) == Read(g))
    {
      var (alloc', found) := alloc.AllocFrame();
      var frame := found.value;
      SetFlagsReadBack(frame, PRESENT.(writable := true));
      var e := SetFlags(frame, PRESENT.(writable := true)).value;
      var written := Write(f, i, e);
      var child := written.NextTable(f, i).value;
      var filled := written.ZeroFill(child);
      assert filled.NextTable(f, i).Some?;
      UnusedEntryIsAbsent(Entry(0));
      assert filled.Read(f)[i] != Entry(0);
      assert child != f;
      assert filled.Read(f) == written.Read(f);
      assert CreateNextTable(f, i, alloc).value == (filled, alloc', child);
      if frame.index < FRAME_COUNT {
        StartAddressRoundTrip(frame);
      }
    }

    /** The frames a new table must not take: the level-4 table's frame and
        every frame a present entry of some table points to. */
    ghost predicate InUse(root: Frame, g: Frame) {
      || g == root
      || exists f, j :: 0 <= j < ENTRY_COUNT && Read(f)[j].TargetFrame() == Some(g)
    }
  }

  /** The allocator hands out only frames that lie below 2^52 and that no
      table uses, and none twice. */
  ghost predicate Fresh(mem: Memory, root: Frame, alloc: Allocator) {
    && alloc.Valid()
    && alloc.Distinct()
    && forall g :: alloc.MayHandOut(g) ==> g.index < FRAME_COUNT && !mem.InUse(root, g)
  }

  /** `create_next_table` with a fresh allocator keeps it fresh, returns a
      child in use, and keeps every existing link from a table in use. */
  lemma CreateKeepsFresh(mem: Memory, root: Frame, f: Frame, i: EntryIndex, alloc: Allocator)
    requires Fresh(mem, root, alloc) && mem.InUse(root, f)
    requires mem.CreateNextTable(f, i, alloc).Ok?
    ensures var (m, a, child) := mem.CreateNextTable(f, i, alloc).value;
      && Fresh(m, root, a)
      && m.InUse(root, child)
      && (a == alloc || a == alloc.AllocFrame().0)
      && (forall g, j :: 0 <= j < ENTRY_COUNT && mem.InUse(root, g) && mem.NextTable(g, j).Some? ==>
            m.NextTable(g, j) == mem.NextTable(g, j))
  {
    var (m, a, child) := mem.CreateNextTable(f, i, alloc).value;
    assert m.Read(f)[i].TargetFrame() == Some(child);
    if mem.NextTable(f, i).None? {
      NewTableKeepsFresh(mem, root, f, i, alloc);
      NewTableKeepsLinks(mem, root, f, i, alloc);
    }
  }

  /** A table `create_next_table` adds takes the frame just allocated, so a
      fresh allocator stays fresh. */
  lemma NewTableKeepsFresh(mem: Memory, root: Frame, f: Frame, i: EntryIndex, alloc: Allocator)
    requires Fresh(mem, root, alloc)
    requires mem.NextTable(f, i).None? && mem.CreateNextTable(f, i, alloc).Ok?
    ensures var (m, a, _) := mem.CreateNextTable(f, i, alloc).value;
      Fresh(m, root, a)
  {
    var (m, a, child) := mem.CreateNextTable(f, i, alloc).value;
    mem.NewTable(f, i, alloc);
    var g := alloc.AllocFrame().1.value;
    assert alloc.MayHandOut(g);
    assert child == g;
    forall h | a.MayHandOut(h)
      ensures h.index < FRAME_COUNT && !m.InUse(root, h)
    {
      assert alloc.MayHandOut(h) && h != g;
      forall f', j | 0 <= j < ENTRY_COUNT
        ensures m.Read(f')[j].TargetFrame() != Some(h)
      {
        if f' == g {
          assert m.Read(f')[j] == Entry(0);
        } else if f' != f || j != i {
          assert m.Read(f')[j] == mem.Read(f')[j];
        }
      }
    }
  }

  /** A table `create_next_table` adds with a fresh allocator leaves every
      link from a table in use as it was. */
  lemma NewTableKeepsLinks(mem: Memory, root: Frame, f: Frame, i: EntryIndex, alloc: Allocator)
    requires Fresh(mem, root, alloc)
    requires mem.NextTable(f, i).None? && mem.CreateNextTable(f, i, alloc).Ok?
    ensures var (m, _, _) := mem.CreateNextTable(f, i, alloc).value;
      forall g, j :: 0 <= j < ENTRY_COUNT && mem.InUse(root, g) && mem.NextTable(g, j).Some? ==>
        m.NextTable(g, j) == mem.NextTable(g, j)
  {
    var (m, a, child) := mem.CreateNextTable(f, i, alloc).value;
    mem.NewTable(f, i, alloc);
    var g := alloc.AllocFrame().1.value;
    assert alloc.MayHandOut(g);
    assert child == g;
    forall g', j | 0 <= j < ENTRY_COUNT && mem.InUse(root, g') && mem.NextTable(g', j).Some?
      ensures m.NextTable(g', j) == mem.NextTable(g', j)
    {
      assert g' != g;
      if g' == f {
        assert j != i;
      }
    }
  }

}
