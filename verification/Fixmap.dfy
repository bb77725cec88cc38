/** The kernel's fixed virtual layout, and what the walk says about the two fixmap
    pages: the control page, which maps the level-0 table that governs it, and the
    window page next to it.
 */
module Fixmap {
  import opened Memory
  import opened Sv39
  import opened PageTable

  const BOOT_FRAME_WINDOW_BASE: nat := 0xFFFF_FFFF_C000_0000
  const FIXMAP_TABLE_BASE: nat := BOOT_FRAME_WINDOW_BASE - 0x4000_0000 - 0x20_0000
  const FIXMAP_FRAME_BASE: nat := FIXMAP_TABLE_BASE + FRAME_SIZE
  const FIXMAP_FRAME_INDEX: nat := FIXMAP_FRAME_BASE / FRAME_SIZE % 512

  /** Address of the window's entry through the control page: `frame_slot`. */
  const FRAME_SLOT: nat := FIXMAP_TABLE_BASE + 8 * FIXMAP_FRAME_INDEX

  const HEAP_START: nat := 0xFFFF_FFE0_0000_0000
  const HEAP_END: nat := HEAP_START + 0x4000_0000

  const CONTROL_PAGE: nat := PageOf(FIXMAP_TABLE_BASE)
  const WINDOW_PAGE: nat := PageOf(FIXMAP_FRAME_BASE)

  /** The two pages are the first two slots of the same level-0 table. */
  lemma {:induction false} FixmapIndices()
    ensures VpnAt(CONTROL_PAGE, 2) == VpnAt(WINDOW_PAGE, 2) == 509
    ensures VpnAt(CONTROL_PAGE, 1) == VpnAt(WINDOW_PAGE, 1) == 511
    ensures VpnAt(CONTROL_PAGE, 0) == 0 && VpnAt(WINDOW_PAGE, 0) == 1
    ensures FIXMAP_FRAME_INDEX == 1
    ensures CONTROL_PAGE == 0x7F7_FE00 && WINDOW_PAGE == 0x7F7_FE01
  {
    assert FIXMAP_TABLE_BASE == 0xFFFF_FFFF_7FE0_0000;
    assert FIXMAP_TABLE_BASE / 4096 == 0xF_FFFF_FFF7_FE00;
    assert FIXMAP_FRAME_BASE / 4096 == 0xF_FFFF_FFF7_FE01;
    assert CONTROL_PAGE == 0x7F7_FE00 && WINDOW_PAGE == 0x7F7_FE01;
  }

  /** `frame_slot` is the window's entry of that table, seen through the control page. */
  lemma {:induction false} FrameSlotAddress()
    ensures Canonical(FRAME_SLOT) && FRAME_SLOT % 8 == 0 && WordIndex(FRAME_SLOT) == 1
    ensures PageOf(FRAME_SLOT) == CONTROL_PAGE
    ensures Canonical(FIXMAP_FRAME_BASE) && FIXMAP_FRAME_BASE % FRAME_SIZE == 0
    ensures PageOf(FIXMAP_FRAME_BASE) == WINDOW_PAGE
  {
    FixmapIndices();
    assert FRAME_SLOT == 0xFFFF_FFFF_7FE0_0008;
    assert FRAME_SLOT / 4096 == 0xF_FFFF_FFF7_FE00;
    assert FIXMAP_FRAME_BASE == 0xFFFF_FFFF_7FE0_1000;
  }

  /** Flags of the control leaf and of every window leaf. */
  const WINDOW_FLAGS: nat := LeafFlags(ReadWrite, false)

  /** The links on the way to the level-0 table of `p` exist and are well-formed. */
  ghost predicate Path(mem: Mem, root: nat, p: nat, table: nat) {
    && IsTable(mem, root) && IsTable(mem, table)
    && var e2 := mem[root][VpnAt(p, 2)];
    && IsLink(e2) && e2 < 1024 * PPN_LIMIT && IsTable(mem, Ppn(e2))
    && var e1 := mem[Ppn(e2)][VpnAt(p, 1)];
    && IsLink(e1) && e1 < 1024 * PPN_LIMIT && Ppn(e1) == table
  }

  lemma {:induction false} PathWalk(mem: Mem, root: nat, p: nat, table: nat)
    requires Path(mem, root, p, table)
    ensures Walk(mem, root, p) == WalkFrom(mem, table, 0, p)
    ensures LeafTable(mem, root, p) == Some(table)
  {
    var e2 := mem[root][VpnAt(p, 2)];
    var e1 := mem[Ppn(e2)][VpnAt(p, 1)];
    LinkEntries(e2);
    LinkEntries(e1);
    assert WalkFrom(mem, Ppn(e2), 1, p) == WalkFrom(mem, table, 0, p);
  }

  /** Storing into an empty entry, or into an index that is not on the path, keeps it. */
  lemma {:induction false} PathKept(mem: Mem, root: nat, p: nat, table: nat, frame: nat, index: nat, value: nat)
    requires Path(mem, root, p, table) && IsTable(mem, frame) && index < ENTRIES
    requires mem[frame][index] == 0 || (index != VpnAt(p, 2) && index != VpnAt(p, 1))
    ensures Path(SetEntry(mem, frame, index, value), root, p, table)
  {
    LinkEntries(0);
  }

  /** Replacing a frame that holds no table of a tree keeps every path of the tree. */
  lemma {:induction false} PathOutside(mem: Mem, t: Tables, p: nat, table: nat, frame: nat, words: seq<nat>)
    requires Tree(mem, t) && Path(mem, t.root, p, table) && frame !in t.All() && |words| == ENTRIES
    ensures Path(mem[frame := words], t.root, p, table)
  {
    var e2 := mem[t.root][VpnAt(p, 2)];
    assert Links(mem, t.root, VpnAt(p, 2), Ppn(e2));
    assert Links(mem, Ppn(e2), VpnAt(p, 1), table);
  }

  /** The fixmap arrangement: the control page's own table is what it maps, and nothing
      but a window mapping may sit in the next slot. */
  ghost predicate Arranged(mem: Mem, root: nat, fixmap: nat) {
    && fixmap < PPN_LIMIT && IsTable(mem, fixmap)
    && Path(mem, root, CONTROL_PAGE, fixmap)
    && mem[fixmap][0] == PageTableEntry(fixmap, WINDOW_FLAGS).value
  }

  /** The control page translates to the very table that governs the window, read/write. */
  lemma {:induction false} ControlWalk(mem: Mem, root: nat, fixmap: nat)
    requires Arranged(mem, root, fixmap)
    ensures Walk(mem, root, CONTROL_PAGE) == Mapped(fixmap, WINDOW_FLAGS)
    ensures Path(mem, root, WINDOW_PAGE, fixmap)
    ensures Walk(mem, root, WINDOW_PAGE) == WalkFrom(mem, fixmap, 0, WINDOW_PAGE)
    ensures MayRead(Walk(mem, root, CONTROL_PAGE), false) && MayWrite(Walk(mem, root, CONTROL_PAGE), false)
  {
    FixmapIndices();
    PathWalk(mem, root, CONTROL_PAGE, fixmap);
    EncodedLeaf(fixmap, ReadWrite, false);
    LeafGrants(ReadWrite, false);
    assert Path(mem, root, WINDOW_PAGE, fixmap);
    PathWalk(mem, root, WINDOW_PAGE, fixmap);
  }

  /** Memory with the window entry replaced. */
  function WithWindow(mem: Mem, fixmap: nat, entry: nat): Mem
    requires IsTable(mem, fixmap)
  {
    SetEntry(mem, fixmap, 1, entry)
  }

  /** Opening the window on any frame, even on the fixmap table itself, makes the window
      translate to exactly that frame and keeps the arrangement. */
  lemma {:induction false} WindowOpens(mem: Mem, root: nat, fixmap: nat, frame: nat)
    requires Arranged(mem, root, fixmap) && frame < PPN_LIMIT
    ensures var open := WithWindow(mem, fixmap, PageTableEntry(frame, WINDOW_FLAGS).value);
            && Arranged(open, root, fixmap)
            && Walk(open, root, WINDOW_PAGE) == Mapped(frame, WINDOW_FLAGS)
            && MayRead(Walk(open, root, WINDOW_PAGE), false) && MayWrite(Walk(open, root, WINDOW_PAGE), false)
  {
    FixmapIndices();
    var entry := PageTableEntry(frame, WINDOW_FLAGS).value;
    PathKept(mem, root, CONTROL_PAGE, fixmap, fixmap, 1, entry);
    ControlWalk(WithWindow(mem, fixmap, entry), root, fixmap);
    EncodedLeaf(frame, ReadWrite, false);
    LeafGrants(ReadWrite, false);
  }

  /** The window entry only matters to the window page. */
  lemma {:induction false} WindowIsPrivate(mem: Mem, t: Tables, fixmap: nat, entry: nat)
    requires Tree(mem, t) && Arranged(mem, t.root, fixmap)
    ensures fixmap in t.l0
    ensures Tree(WithWindow(mem, fixmap, entry), t)
    ensures forall q :: 0 <= q < PAGE_LIMIT && q != WINDOW_PAGE ==>
              Walk(WithWindow(mem, fixmap, entry), t.root, q) == Walk(mem, t.root, q)
  {
    FixmapIndices();
    ControlWalk(mem, t.root, fixmap);
    PathWalk(mem, t.root, WINDOW_PAGE, fixmap);
    WalkThroughSlot(mem, t, WINDOW_PAGE);
    LeafKeepsTree(mem, t, fixmap, 1, entry);
    forall q | 0 <= q < PAGE_LIMIT && q != WINDOW_PAGE
      ensures Walk(WithWindow(mem, fixmap, entry), t.root, q) == Walk(mem, t.root, q)
    {
      LeafKeepsOthers(mem, t, WINDOW_PAGE, entry, q);
    }
  }

  /** The address of a word inside the window page. */
  function WindowWord(index: nat): nat {
    FIXMAP_FRAME_BASE + 8 * index
  }

  lemma {:induction false} WindowAddress(index: nat)
    requires index < ENTRIES
    ensures var va := WindowWord(index);
            Canonical(va) && va % 8 == 0 && WordIndex(va) == index && PageOf(va) == WINDOW_PAGE
  {
    FixmapIndices();
    var va := WindowWord(index);
    assert FIXMAP_FRAME_BASE == 0xFFFF_FFFF_7FE0_1000;
    assert va / 4096 == 0xF_FFFF_FFF7_FE01;
    assert va % 4096 == 8 * index;
  }

  /** Storing into an empty entry keeps the arrangement and the window's translation. */
  lemma {:induction false} StoreKeepsWindow(mem: Mem, root: nat, fixmap: nat, frame: nat, index: nat, value: nat)
    requires Arranged(mem, root, fixmap)
    requires IsTable(mem, frame) && index < ENTRIES && mem[frame][index] == 0
    ensures Arranged(SetEntry(mem, frame, index, value), root, fixmap)
    ensures Walk(SetEntry(mem, frame, index, value), root, CONTROL_PAGE) == Walk(mem, root, CONTROL_PAGE)
  {
    FixmapIndices();
    PathKept(mem, root, CONTROL_PAGE, fixmap, frame, index, value);
    EncodedLeaf(fixmap, ReadWrite, false);
    ControlWalk(mem, root, fixmap);
    ControlWalk(SetEntry(mem, frame, index, value), root, fixmap);
  }

  /** Filling a frame outside the tree keeps the arrangement and every translation. */
  lemma {:induction false} FillKeepsWindow(mem: Mem, t: Tables, fixmap: nat, frame: nat, words: seq<nat>)
    requires Tree(mem, t) && Arranged(mem, t.root, fixmap) && fixmap in t.l0
    requires frame !in t.All() && |words| == ENTRIES
    ensures Arranged(mem[frame := words], t.root, fixmap)
    ensures Tree(mem[frame := words], t)
    ensures forall p :: Walk(mem[frame := words], t.root, p) == Walk(mem, t.root, p)
  {
    PathOutside(mem, t, CONTROL_PAGE, fixmap, frame, words);
    TreeAgrees(mem, mem[frame := words], t);
  }
}
