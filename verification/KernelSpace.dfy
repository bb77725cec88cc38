/** Building the kernel's own address space: page ranges, kernel sections, the device-tree pages
    and the fixmap, over plain memory values. `IntoKernel` is everything `into_kernel` does before
    it switches roots.
 */
module KernelSpace {
  import opened Memory
  import opened Sv39
  import opened PageTable
  import opened Fixmap
  import FA = FrameAccess
  import BA = BootAllocator
  import opened System
  import opened LowerHalf

  datatype VirtRange = VirtRange(start: nat, end: nat) {
    predicate Valid() {
      start < end < U64
    }

    /** Pages needed to cover the range from its start. */
    function Pages(): nat
      requires Valid()
    {
      (end - start + FRAME_SIZE - 1) / FRAME_SIZE
    }
  }

  /** Consecutive pages that map consecutive frames. */
  datatype Span = Span(page: nat, count: nat, frame: nat, permissions: Permissions) {
    predicate Covers(p: nat) {
      page <= p < page + count
    }

    function At(p: nat): Translation
      requires Covers(p)
    {
      Mapped(frame + (p - page), LeafFlags(permissions, false))
    }
  }

  /** Exactly the pages of the spans translate, each as its span says. */
  ghost predicate Maps(mem: Mem, root: nat, spans: seq<Span>) {
    forall p :: 0 <= p < PAGE_LIMIT ==>
      && (forall i :: 0 <= i < |spans| && spans[i].Covers(p) ==> Walk(mem, root, p) == spans[i].At(p))
      && ((forall i :: 0 <= i < |spans| ==> !spans[i].Covers(p)) ==> Walk(mem, root, p) == Fault)
  }

  /** One more span, on pages that did not translate before. */
  ghost predicate Extended(mem: Mem, mem': Mem, root: nat, span: Span) {
    forall p :: 0 <= p < PAGE_LIMIT ==>
      if span.Covers(p) then Walk(mem, root, p) == Fault && Walk(mem', root, p) == span.At(p)
      else Walk(mem', root, p) == Walk(mem, root, p)
  }

  lemma {:induction false} MapsExtended(mem: Mem, mem': Mem, root: nat, spans: seq<Span>, span: Span)
    requires Maps(mem, root, spans) && Extended(mem, mem', root, span)
    ensures Maps(mem', root, spans + [span])
  {
    hide Walk, LeafFlags;
    var all := spans + [span];
    forall p | 0 <= p < PAGE_LIMIT
      ensures forall i :: 0 <= i < |all| && all[i].Covers(p) ==> Walk(mem', root, p) == all[i].At(p)
      ensures (forall i :: 0 <= i < |all| ==> !all[i].Covers(p)) ==> Walk(mem', root, p) == Fault
    {
      forall i | 0 <= i < |all| && all[i].Covers(p) ensures Walk(mem', root, p) == all[i].At(p) {
        if i < |spans| {
          assert spans[i] == all[i];
        }
      }
      if forall i :: 0 <= i < |all| ==> !all[i].Covers(p) {
        assert !all[|spans|].Covers(p);
        forall i | 0 <= i < |spans| ensures !spans[i].Covers(p) {
          assert !all[i].Covers(p);
        }
      }
    }
  }

  // ----- Page ranges

  /** The page loop of `map_range`. */
  function MapPages(s: State, root: nat, va: nat, frame: nat, n: nat, permissions: Permissions): Step<()>
    decreases n
  {
    if n == 0 then Step(s, Ok(()))
    else
      var first := MapPage(s, root, va, frame, permissions, false);
      if first.result.Err? then first
      else MapPages(first.state, root, va + FRAME_SIZE, frame + 1, n - 1, permissions)
  }

  lemma {:induction false} MapPagesStep(s: State, root: nat, va: nat, frame: nat, n: nat, permissions: Permissions)
    requires n > 0
    ensures var first := MapPage(s, root, va, frame, permissions, false);
            MapPages(s, root, va, frame, n, permissions)
            == if first.result.Err? then first
               else MapPages(first.state, root, va + FRAME_SIZE, frame + 1, n - 1, permissions)
  {
  }

  lemma {:induction false} MapNoPages(s: State, root: nat, va: nat, frame: nat, permissions: Permissions)
    ensures MapPages(s, root, va, frame, 0, permissions) == Step(s, Ok(()))
  {
  }

  /** `map_range`: the whole span is checked before any page is mapped. */
  function MapRange(s: State, root: nat, range: VirtRange, frame: nat, permissions: Permissions): Step<()>
    requires range.Valid()
  {
    if range.start % FRAME_SIZE != 0 then Step(s, Err(VirtualAddressNotPageAligned))
    else if !Canonical(range.start) || (range.start < LOW_HALF_END && range.end > LOW_HALF_END) then
      Step(s, Err(VirtualAddressNotCanonical))
    else if frame + range.Pages() - 1 >= PPN_LIMIT then Step(s, Err(PhysicalRangeNotRepresentable))
    else MapPages(s, root, range.start, frame, range.Pages(), permissions)
  }

  /** `n` pages from `va` stay inside one canonical half. */
  predicate InOneHalf(va: nat, n: nat) {
    && va % FRAME_SIZE == 0
    && (va + n * FRAME_SIZE <= LOW_HALF_END || (HIGH_HALF_BASE <= va && va + n * FRAME_SIZE <= U64))
  }

  lemma {:induction false} NextPage(va: nat, n: nat)
    requires InOneHalf(va, n) && n > 0
    ensures Canonical(va) && InOneHalf(va + FRAME_SIZE, n - 1)
    ensures n > 1 ==> PageOf(va + FRAME_SIZE) == PageOf(va) + 1
    ensures PageOf(va) + n <= PAGE_LIMIT
  {
    var q := va / FRAME_SIZE;
    assert va == q * FRAME_SIZE;
    if va < LOW_HALF_END {
      LowPages(q, n);
    } else {
      HighPages(q, n);
    }
  }

  lemma {:induction false} LowPages(q: nat, n: nat)
    requires n > 0 && (q + n) * FRAME_SIZE <= LOW_HALF_END
    ensures PageOf(q * FRAME_SIZE) == q && PageOf(q * FRAME_SIZE + FRAME_SIZE) == q + 1 && q + n <= PAGE_LIMIT
  {
    assert q * FRAME_SIZE / FRAME_SIZE == q && (q * FRAME_SIZE + FRAME_SIZE) / FRAME_SIZE == q + 1;
  }

  lemma {:induction false} HighPages(q: nat, n: nat)
    requires n > 0 && HIGH_HALF_BASE <= q * FRAME_SIZE && (q + n) * FRAME_SIZE <= U64
    ensures PageOf(q * FRAME_SIZE) == q - 0xF_FFFF_F800_0000
    ensures n > 1 ==> PageOf(q * FRAME_SIZE + FRAME_SIZE) == q + 1 - 0xF_FFFF_F800_0000
    ensures q - 0xF_FFFF_F800_0000 + n <= PAGE_LIMIT
  {
    assert q * FRAME_SIZE / FRAME_SIZE == q && (q * FRAME_SIZE + FRAME_SIZE) / FRAME_SIZE == q + 1;
    HighRemainder(q);
    if n > 1 {
      HighRemainder(q + 1);
    }
  }

  lemma {:induction false} ExtendedJoin(mem: Mem, mem1: Mem, mem2: Mem, root: nat, p: nat, n: nat, frame: nat,
                                        permissions: Permissions)
    requires n > 0 && p + n <= PAGE_LIMIT
    requires OnlyMapped(mem, mem1, root, p, Mapped(frame, LeafFlags(permissions, false)))
    requires Extended(mem1, mem2, root, Span(p + 1, n - 1, frame + 1, permissions))
    ensures Extended(mem, mem2, root, Span(p, n, frame, permissions))
  {
    hide Walk, LeafFlags;
  }

  /** A successful page loop maps exactly its span; a failed one leaves a tree. */
  lemma {:induction false} MapPagesCorrect(s: State, t: Tables, va: nat, frame: nat, n: nat, permissions: Permissions)
    returns (t': Tables)
    requires Ready(s, t) && Clean(s.mem, t) && InOneHalf(va, n)
    ensures var step := MapPages(s, t.root, va, frame, n, permissions);
            && Ready(step.state, t') && Clean(step.state.mem, t') && Grown(s, t, step.state, t')
            && (step.result.Ok? ==> Extended(s.mem, step.state.mem, t.root, Span(PageOf(va), n, frame, permissions)))
    decreases n
  {
    hide Ready, Clean, Grown, Walk, MapPage, PageOf, Canonical;
    if n == 0 {
      FA.GrownReflexive(s, t);
      t' := t;
    } else {
      NextPage(va, n);
      var first := MapPage(s, t.root, va, frame, permissions, false);
      t' := MapPageCorrect(s, t, va, frame, permissions, false);
      if first.result.Ok? {
        var t1 := t';
        RootKept(s, t, first.state, t1);
        t' := MapPagesCorrect(first.state, t1, va + FRAME_SIZE, frame + 1, n - 1, permissions);
        var last := MapPages(first.state, t.root, va + FRAME_SIZE, frame + 1, n - 1, permissions);
        GrownTransitive(s, t, first.state, t1, last.state, t');
        if last.result.Ok? {
          if n == 1 {
            NoPages(first.state.mem, t.root, PageOf(va) + 1, frame + 1, permissions);
          }
          ExtendedJoin(s.mem, first.state.mem, last.state.mem, t.root, PageOf(va), n, frame, permissions);
        }
      }
    }
  }

  lemma {:induction false} RootKept(s: State, t: Tables, s': State, t': Tables)
    requires Grown(s, t, s', t')
    ensures t'.root == t.root
  {
  }

  lemma {:induction false} NoPages(mem: Mem, root: nat, p: nat, frame: nat, permissions: Permissions)
    ensures Extended(mem, mem, root, Span(p, 0, frame, permissions))
  {
    hide Walk;
  }

  function RangeSpan(range: VirtRange, frame: nat, permissions: Permissions): Span
    requires range.Valid()
  {
    Span(PageOf(range.start), range.Pages(), frame, permissions)
  }

  /** An accepted range lies in one canonical half, rounded up to whole pages. */
  lemma {:induction false} RangeInOneHalf(range: VirtRange)
    requires range.Valid() && range.start % FRAME_SIZE == 0 && Canonical(range.start)
    requires !(range.start < LOW_HALF_END && range.end > LOW_HALF_END)
    ensures InOneHalf(range.start, range.Pages())
  {
    RoundedUp(range.end - range.start);
    var q := range.start / FRAME_SIZE;
    var n := range.Pages();
    assert range.start == q * FRAME_SIZE;
    assert range.start + n * FRAME_SIZE == (q + n) * FRAME_SIZE;
    assert range.start + n * FRAME_SIZE < range.end + FRAME_SIZE;
  }

  lemma {:induction false} RoundedUp(size: nat)
    ensures size <= (size + FRAME_SIZE - 1) / FRAME_SIZE * FRAME_SIZE < size + FRAME_SIZE
  {
  }

  lemma {:induction false} MapRangeCorrect(s: State, t: Tables, range: VirtRange, frame: nat, permissions: Permissions)
    returns (t': Tables)
    requires Ready(s, t) && Clean(s.mem, t) && range.Valid()
    ensures var step := MapRange(s, t.root, range, frame, permissions);
            && Ready(step.state, t') && Clean(step.state.mem, t') && Grown(s, t, step.state, t')
            && (step.result.Ok? ==> Extended(s.mem, step.state.mem, t.root, RangeSpan(range, frame, permissions)))
  {
    hide Ready, Clean, Grown, Extended, MapPages, PageOf, Canonical;
    t' := t;
    FA.GrownReflexive(s, t);
    if range.start % FRAME_SIZE == 0 && Canonical(range.start)
       && !(range.start < LOW_HALF_END && range.end > LOW_HALF_END) {
      RangeInOneHalf(range);
      if frame + range.Pages() - 1 < PPN_LIMIT {
        t' := MapPagesCorrect(s, t, range.start, frame, range.Pages(), permissions);
      }
    }
  }

  // ----- Sections and the device tree

  /** The linker's sections; an empty one is absent. */
  datatype Sections = Sections(
    virtualStart: nat, text: Option<VirtRange>, rodata: Option<VirtRange>, data: Option<VirtRange>,
    bss: Option<VirtRange>, stack: Option<VirtRange>)

  datatype Section = Section(range: VirtRange, permissions: Permissions)

  function Present(range: Option<VirtRange>, permissions: Permissions): seq<Section> {
    if range.None? then [] else [Section(range.value, permissions)]
  }

  /** The sections that are there, each with the permissions it is mapped with. */
  function AllSections(k: Sections): seq<Section> {
    Present(k.text, ReadExecute) + Present(k.rodata, ReadOnly) + Present(k.data, ReadWrite)
    + Present(k.bss, ReadWrite) + Present(k.stack, ReadWrite)
  }

  predicate SectionsValid(list: seq<Section>) {
    forall k :: 0 <= k < |list| ==> list[k].range.Valid()
  }

  /** `PhysFrame::from_start`. */
  function FrameFrom(address: nat): Option<nat> {
    if address % FRAME_SIZE != 0 || address + FRAME_SIZE >= U64 then None else Some(address / FRAME_SIZE)
  }

  /** The first frame of a section: its offset from the virtual start, added to the load address. */
  function SectionFrame(range: VirtRange, virtualStart: nat, physicalStart: nat): Option<nat> {
    if range.start < virtualStart then None else FrameFrom(physicalStart + (range.start - virtualStart))
  }

  function MapSections(s: State, root: nat, list: seq<Section>, virtualStart: nat, physicalStart: nat): Step<()>
    requires SectionsValid(list)
    decreases |list|
  {
    if list == [] then Step(s, Ok(()))
    else
      var frame := SectionFrame(list[0].range, virtualStart, physicalStart);
      if frame.None? then Step(s, Err(InvalidKernelSection))
      else
        var first := MapRange(s, root, list[0].range, frame.value, list[0].permissions);
        if first.result.Err? then first else MapSections(first.state, root, list[1..], virtualStart, physicalStart)
  }

  /** The spans of the sections: whole pages, at their linear physical offsets. */
  function SectionSpans(list: seq<Section>, virtualStart: nat, physicalStart: nat): seq<Span>
    requires SectionsValid(list)
  {
    if list == [] then []
    else
      var frame := SectionFrame(list[0].range, virtualStart, physicalStart);
      [RangeSpan(list[0].range, if frame.Some? then frame.value else 0, list[0].permissions)]
      + SectionSpans(list[1..], virtualStart, physicalStart)
  }

  lemma {:induction false} MapSectionsCorrect(s: State, t: Tables, list: seq<Section>, virtualStart: nat,
                                              physicalStart: nat,
                                              spans: seq<Span>)
    returns (t': Tables)
    requires Ready(s, t) && Clean(s.mem, t) && SectionsValid(list) && Maps(s.mem, t.root, spans)
    ensures var step := MapSections(s, t.root, list, virtualStart, physicalStart);
            && Ready(step.state, t') && Clean(step.state.mem, t') && Grown(s, t, step.state, t')
            && (step.result.Ok? ==>
                  Maps(step.state.mem, t.root, spans + SectionSpans(list, virtualStart, physicalStart)))
    decreases |list|
  {
    hide Ready, Clean, Grown, Extended, Maps, MapRange, RangeSpan;
    t' := t;
    FA.GrownReflexive(s, t);
    if list == [] {
      assert spans + [] == spans;
    } else {
      var frame := SectionFrame(list[0].range, virtualStart, physicalStart);
      if frame.Some? {
        var first := MapRange(s, t.root, list[0].range, frame.value, list[0].permissions);
        t' := MapRangeCorrect(s, t, list[0].range, frame.value, list[0].permissions);
        if first.result.Ok? {
          var t1 := t';
          var span := RangeSpan(list[0].range, frame.value, list[0].permissions);
          MapsExtended(s.mem, first.state.mem, t.root, spans, span);
          RootKept(s, t, first.state, t1);
          t' := MapSectionsCorrect(first.state, t1, list[1..], virtualStart, physicalStart, spans + [span]);
          var last := MapSections(first.state, t.root, list[1..], virtualStart, physicalStart);
          GrownTransitive(s, t, first.state, t1, last.state, t');
          assert spans + [span] + SectionSpans(list[1..], virtualStart, physicalStart)
              == spans + ([span] + SectionSpans(list[1..], virtualStart, physicalStart));
        }
      }
    }
  }

  /** `dtb_page_mapping`: the pages that cover the device tree at its alias, and their first frame. */
  function DtbMapping(va: nat, dtb: PhysRange): Result<(VirtRange, nat)>
    requires dtb.Valid()
  {
    if va % FRAME_SIZE != dtb.start % FRAME_SIZE then Err(InvalidDtbMapping)
    else if va + (dtb.end - dtb.start) + (FRAME_SIZE - 1) >= U64 then Err(InvalidDtbMapping)
    else
      var range := VirtRange(AlignDown(va), AlignDown(va + (dtb.end - dtb.start) + (FRAME_SIZE - 1)));
      var frame := FrameFrom(AlignDown(dtb.start));
      if range.start >= range.end || frame.None? then Err(InvalidDtbMapping) else Ok((range, frame.value))
  }

  // ----- The fixmap

  /** `prepare_fixmap`. */
  function PrepareFixmap(s: State, root: nat): Step<nat> {
    var down := Descend(s, root, FIXMAP_TABLE_BASE);
    if down.result.Err? then down
    else
      var existing := ReadEntry(down.state.mem, down.result.value, FIXMAP_FRAME_INDEX);
      if existing.Err? then Step(down.state, Err(existing.error))
      else if existing.value != 0 then Step(down.state, Err(PageAlreadyMapped))
      else
        var mapped := MapPage(down.state, root, FIXMAP_TABLE_BASE, down.result.value, ReadWrite, false);
        Step(mapped.state, if mapped.result.Err? then Err(mapped.result.error) else Ok(down.result.value))
  }

  lemma {:induction false} ControlAddress()
    ensures Canonical(FIXMAP_TABLE_BASE) && FIXMAP_TABLE_BASE % FRAME_SIZE == 0
    ensures PageOf(FIXMAP_TABLE_BASE) == CONTROL_PAGE && CONTROL_PAGE < PAGE_LIMIT && WINDOW_PAGE < PAGE_LIMIT
    ensures CONTROL_PAGE != WINDOW_PAGE
    ensures FIXMAP_TABLE_BASE / 0x1000 % 512 == VpnAt(CONTROL_PAGE, 0)
  {
    assert FIXMAP_TABLE_BASE == 0xFFFF_FFFF_7FE0_0000;
    AddressIndices(FIXMAP_TABLE_BASE);
    FixmapIndices();
  }

  /** The two fixmap pages share their level-0 table. */
  lemma {:induction false} SharedTable(mem: Mem, root: nat)
    ensures LeafTable(mem, root, CONTROL_PAGE) == LeafTable(mem, root, WINDOW_PAGE)
  {
    FixmapIndices();
  }

  /** A tree's way to a level-0 table is a path. */
  lemma {:induction false} TreePath(mem: Mem, t: Tables, p: nat, table: nat)
    requires Tree(mem, t) && LeafTable(mem, t.root, p) == Some(table)
    ensures Path(mem, t.root, p, table) && table in t.l0 && table < PPN_LIMIT
  {
    var e2 := mem[t.root][VpnAt(p, 2)];
    assert Links(mem, t.root, VpnAt(p, 2), Ppn(e2));
    assert Links(mem, Ppn(e2), VpnAt(p, 1), table);
  }

  /** The control leaf arranges the fixmap and leaves the window slot empty. */
  lemma {:induction false} ControlLeafArranges(s: State, t: Tables, table: nat)
    requires Ready(s, t) && Clean(s.mem, t) && LeafTable(s.mem, t.root, CONTROL_PAGE) == Some(table)
    requires IsTable(s.mem, table) && table < PPN_LIMIT
    requires s.mem[table][VpnAt(CONTROL_PAGE, 0)] == 0 && s.mem[table][1] == 0
    ensures var leaf := PageTableEntry(table, WINDOW_FLAGS).value;
            var mem' := WriteLeaf(s, table, VpnAt(CONTROL_PAGE, 0), leaf).state.mem;
            Arranged(mem', t.root, table) && mem'[table][1] == 0 && table in t.l0
  {
    TreePath(s.mem, t, CONTROL_PAGE, table);
    FixmapIndices();
    PathKept(s.mem, t.root, CONTROL_PAGE, table, table, 0, PageTableEntry(table, WINDOW_FLAGS).value);
  }

  lemma {:induction false} PrepareFixmapCorrect(s: State, t: Tables) returns (t': Tables)
    requires Ready(s, t) && Clean(s.mem, t)
    ensures var step := PrepareFixmap(s, t.root);
            && Ready(step.state, t') && Clean(step.state.mem, t') && Grown(s, t, step.state, t')
            && (step.result.Ok? ==>
                  var fixmap := step.result.value;
                  && fixmap in t'.l0 && Arranged(step.state.mem, t.root, fixmap) && step.state.mem[fixmap][1] == 0
                  && Extended(s.mem, step.state.mem, t.root, Span(CONTROL_PAGE, 1, fixmap, ReadWrite)))
  {
    ControlAddress();
    hide Grown, Ready, Clean, Walk, Descend, Extended, PageOf, VpnAt, Canonical, LeafTable, Arranged, LeafFlags;
    hide MapPage;
    hide CONTROL_PAGE;
    var down := Descend(s, t.root, FIXMAP_TABLE_BASE);
    t' := DescendCorrect(s, t, FIXMAP_TABLE_BASE);
    if down.result.Ok? {
      var table := down.result.value;
      InTree(down.state, t', CONTROL_PAGE, table);
      FixmapIndices();
      if down.state.mem[table][1] == 0 {
        ControlMapped(s, t, down.state, t', table);
      }
    }
  }

  lemma {:induction false} InTree(s: State, t: Tables, p: nat, table: nat)
    requires Ready(s, t) && LeafTable(s.mem, t.root, p) == Some(table)
    ensures IsTable(s.mem, table) && table in t.l0 && table < PPN_LIMIT
  {
    TreePath(s.mem, t, p, table);
  }

  lemma {:induction false} ControlMapped(s: State, t: Tables, s1: State, t1: Tables, table: nat)
    requires Ready(s, t) && Ready(s1, t1) && Clean(s1.mem, t1) && Grown(s, t, s1, t1)
    requires SameWalks(s.mem, s1.mem, t.root)
    requires LeafTable(s1.mem, t1.root, CONTROL_PAGE) == Some(table) && t1.root == t.root
    requires IsTable(s1.mem, table) && table < PPN_LIMIT && s1.mem[table][1] == 0
    ensures var step := MapPage(s1, t.root, FIXMAP_TABLE_BASE, table, ReadWrite, false);
            && Ready(step.state, t1) && Clean(step.state.mem, t1) && Grown(s, t, step.state, t1)
            && (step.result.Ok? ==>
                  && table in t1.l0 && Arranged(step.state.mem, t.root, table) && step.state.mem[table][1] == 0
                  && Extended(s.mem, step.state.mem, t.root, Span(CONTROL_PAGE, 1, table, ReadWrite)))
  {
    ControlAddress();
    DescendAgain(s1, t1, FIXMAP_TABLE_BASE, table);
    var step := MapPage(s1, t.root, FIXMAP_TABLE_BASE, table, ReadWrite, false);
    var leaf := PageTableEntry(table, WINDOW_FLAGS).value;
    assert step == WriteLeaf(s1, table, VpnAt(CONTROL_PAGE, 0), leaf);
    LeafStep(s1, t1, CONTROL_PAGE, table, ReadWrite, false);
    GrownTransitive(s, t, s1, t1, step.state, t1);
    if step.result.Ok? {
      ControlLeafArranges(s1, t1, table);
      hide Walk, LeafFlags, Grown, Ready, Clean, Arranged;
      OnlyMappedAfter(s.mem, s1.mem, step.state.mem, t.root, CONTROL_PAGE, Mapped(table, WINDOW_FLAGS));
      OneSpan(s.mem, step.state.mem, t.root, CONTROL_PAGE, table);
    }
  }

  lemma {:induction false} OneSpan(mem: Mem, mem': Mem, root: nat, p: nat, frame: nat)
    requires p < PAGE_LIMIT && OnlyMapped(mem, mem', root, p, Mapped(frame, LeafFlags(ReadWrite, false)))
    ensures Extended(mem, mem', root, Span(p, 1, frame, ReadWrite))
  {
    hide Walk, LeafFlags;
  }

  // ----- The whole construction

  datatype Built = Built(root: nat, fixmap: nat)

  /** The mappings that go into a new root. */
  function Populate(s: State, root: nat, physicalStart: nat, k: Sections, range: VirtRange, frame: nat): Step<nat>
    requires SectionsValid(AllSections(k)) && range.Valid()
  {
    var sections := MapSections(s, root, AllSections(k), k.virtualStart, physicalStart);
    if sections.result.Err? then Step(sections.state, Err(sections.result.error))
    else
      var dtb := MapRange(sections.state, root, range, frame, ReadOnly);
      if dtb.result.Err? then Step(dtb.state, Err(dtb.result.error)) else PrepareFixmap(dtb.state, root)
  }

  /** `into_kernel` up to the switch of roots. */
  function IntoKernel(s: State, physicalStart: nat, k: Sections, va: nat, dtb: PhysRange): Step<Built>
    requires SectionsValid(AllSections(k)) && dtb.Valid()
  {
    var cover := DtbMapping(va, dtb);
    if cover.Err? then Step(s, Err(cover.error))
    else
      var table := AllocateTable(s);
      if table.result.Err? then Step(table.state, Err(table.result.error))
      else
        var root := table.result.value;
        var filled := Populate(table.state, root, physicalStart, k, cover.value.0, cover.value.1);
        Step(filled.state,
             if filled.result.Err? then Err(filled.result.error) else Ok(Built(root, filled.result.value)))
  }

  /** Everything the new root maps. */
  function Mappings(physicalStart: nat, k: Sections, range: VirtRange, frame: nat, fixmap: nat): seq<Span>
    requires SectionsValid(AllSections(k)) && range.Valid()
  {
    SectionSpans(AllSections(k), k.virtualStart, physicalStart)
    + [RangeSpan(range, frame, ReadOnly)] + [Span(CONTROL_PAGE, 1, fixmap, ReadWrite)]
  }

  /** The new root is a clean tree with an arranged and closed fixmap. */
  ghost predicate Standing(s: State, t: Tables, fixmap: nat) {
    && Ready(s, t) && Clean(s.mem, t)
    && fixmap in t.l0 && Arranged(s.mem, t.root, fixmap) && s.mem[fixmap][1] == 0
  }

  lemma {:induction false} PopulateCorrect(s: State, t: Tables, physicalStart: nat, k: Sections, range: VirtRange,
                                           frame: nat)
    returns (t': Tables)
    requires Ready(s, t) && Clean(s.mem, t) && Maps(s.mem, t.root, [])
    requires SectionsValid(AllSections(k)) && range.Valid()
    ensures var step := Populate(s, t.root, physicalStart, k, range, frame);
            && Ready(step.state, t') && Grown(s, t, step.state, t')
            && (step.result.Ok? ==>
                  && Standing(step.state, t', step.result.value)
                  && Maps(step.state.mem, t.root, Mappings(physicalStart, k, range, frame, step.result.value)))
  {
    hide Ready, Clean, Grown, Extended, Maps, MapRange, MapSections, PrepareFixmap, Arranged, RangeSpan, AllSections;
    hide CONTROL_PAGE;
    var list := AllSections(k);
    var first := MapSections(s, t.root, list, k.virtualStart, physicalStart);
    t' := MapSectionsCorrect(s, t, list, k.virtualStart, physicalStart, []);
    var spans := SectionSpans(list, k.virtualStart, physicalStart);
    assert [] + spans == spans;
    RootKept(s, t, first.state, t');
    if first.result.Ok? {
      var t1 := t';
      var second := MapRange(first.state, t.root, range, frame, ReadOnly);
      t' := MapRangeCorrect(first.state, t1, range, frame, ReadOnly);
      GrownTransitive(s, t, first.state, t1, second.state, t');
      RootKept(s, t, second.state, t');
      if second.result.Ok? {
        MapsExtended(first.state.mem, second.state.mem, t.root, spans, RangeSpan(range, frame, ReadOnly));
        var t2 := t';
        var third := PrepareFixmap(second.state, t.root);
        t' := PrepareFixmapCorrect(second.state, t2);
        GrownTransitive(s, t, second.state, t2, third.state, t');
        RootKept(s, t, third.state, t');
        if third.result.Ok? {
          MapsExtended(second.state.mem, third.state.mem, t.root, spans + [RangeSpan(range, frame, ReadOnly)],
                       Span(CONTROL_PAGE, 1, third.result.value, ReadWrite));
        }
      }
    }
  }

  /** A zeroed root is a tree that maps nothing. */
  lemma {:induction false} EmptyRoot(s: State, root: nat)
    requires root < PPN_LIMIT && IsTable(s.mem, root) && s.mem[root] == Zeros() && root !in s.rest
    requires forall i, j :: 0 <= i < j < |s.rest| ==> s.rest[i] != s.rest[j]
    ensures var t := Tables(root, {}, {});
            Ready(s, t) && Clean(s.mem, t) && Maps(s.mem, root, [])
  {
    var t := Tables(root, {}, {});
    LinkEntries(0);
    assert forall i: nat, child: nat :: !Links(s.mem, root, i, child);
    forall p | 0 <= p < PAGE_LIMIT ensures Walk(s.mem, root, p) == Fault {
      assert s.mem[root][VpnAt(p, 2)] == 0;
    }
  }

  /** A fresh root is a tree that maps nothing, in a frame that was owed. */
  lemma {:induction false} FreshRoot(s: State)
    requires Distinct(s.rest) && AllocateTable(s).result.Ok?
    ensures var step := AllocateTable(s);
            var t := Tables(step.result.value, {}, {});
            && Ready(step.state, t) && Clean(step.state.mem, t) && Maps(step.state.mem, t.root, [])
            && step.state.mem[t.root] == Zeros() && step.result.value in s.rest
  {
    var step := AllocateTable(s);
    assert s.rest[0] !in step.state.rest;
    EmptyRoot(step.state, s.rest[0]);
  }

  /** Only frames that the allocator owed were touched. */
  ghost predicate TouchesOwed(s: State, s': State) {
    && |s'.rest| <= |s.rest| && s'.rest == s.rest[|s.rest| - |s'.rest|..]
    && forall f :: f !in s.rest ==> (f in s'.mem <==> f in s.mem) && (f in s.mem ==> s'.mem[f] == s.mem[f])
  }

  /** `into_kernel`: whether it succeeds or fails, only owed frames change. On success the new root's
      translations are exactly the page-rounded sections at their linear offsets, the device-tree
      pages and the fixmap control page. */
  lemma {:induction false} IntoKernelCorrect(s: State, physicalStart: nat, k: Sections, va: nat, dtb: PhysRange)
    returns (t: Tables)
    requires Distinct(s.rest) && SectionsValid(AllSections(k)) && dtb.Valid()
    ensures var step := IntoKernel(s, physicalStart, k, va, dtb);
            && TouchesOwed(s, step.state)
            && (step.result.Ok? ==>
                  var built, cover := step.result.value, DtbMapping(va, dtb);
                  && cover.Ok? && t.root == built.root && Standing(step.state, t, built.fixmap)
                  && (forall f :: f in t.All() ==> f in s.rest)
                  && (forall f :: f !in t.All() && f in s.mem ==> f in step.state.mem && step.state.mem[f] == s.mem[f])
                  && Maps(step.state.mem, built.root,
                          Mappings(physicalStart, k, cover.value.0, cover.value.1, built.fixmap)))
  {
    hide Ready, Clean, Grown, Maps, Populate, Arranged, AllSections, DtbMapping, Mappings;
    t := Tables(0, {}, {});
    var cover := DtbMapping(va, dtb);
    if cover.Ok? && s.rest != [] && s.rest[0] < PPN_LIMIT {
      var s1 := AllocateTable(s).state;
      var root := s.rest[0];
      assert root !in s1.rest;
      EmptyRoot(s1, root);
      DtbCover(va, dtb);
      t := PopulateCorrect(s1, Tables(root, {}, {}), physicalStart, k, cover.value.0, cover.value.1);
      var last := Populate(s1, root, physicalStart, k, cover.value.0, cover.value.1);
      RootKept(s1, Tables(root, {}, {}), last.state, t);
      GrownTouches(s, root, last.state, t);
    }
  }

  /** Success or failure, a root none of whose tables is owed translates every page as before. */
  lemma {:induction false} OldRootKept(s: State, physicalStart: nat, k: Sections, va: nat, dtb: PhysRange, boot: Tables)
    requires Distinct(s.rest) && SectionsValid(AllSections(k)) && dtb.Valid()
    requires Tree(s.mem, boot) && forall f :: f in boot.All() ==> f !in s.rest
    ensures var step := IntoKernel(s, physicalStart, k, va, dtb);
            Tree(step.state.mem, boot) && forall p :: Walk(step.state.mem, boot.root, p) == Walk(s.mem, boot.root, p)
  {
    hide IntoKernel, AllSections, DtbMapping, Standing, Maps, Mappings, Walk, LinksDown, LinkedOnce, Linked;
    var t := IntoKernelCorrect(s, physicalStart, k, va, dtb);
    TreeAgrees(s.mem, IntoKernel(s, physicalStart, k, va, dtb).state.mem, boot);
  }

  lemma {:induction false} DtbCover(va: nat, dtb: PhysRange)
    requires dtb.Valid() && DtbMapping(va, dtb).Ok?
    ensures DtbMapping(va, dtb).value.0.Valid()
  {
  }

  lemma {:induction false} GrownTouches(s: State, root: nat, s': State, t: Tables)
    requires Distinct(s.rest) && s.rest != [] && root == s.rest[0]
    requires Grown(State(s.mem[root := Zeros()], s.rest[1..]), Tables(root, {}, {}), s', t)
    ensures TouchesOwed(s, s') && forall f :: f in t.All() ==> f in s.rest
    ensures forall f :: f !in t.All() && f in s.mem ==> f in s'.mem && s'.mem[f] == s.mem[f]
  {
    var rest := s.rest[1..];
    assert s'.rest == s.rest[|s.rest| - |s'.rest|..];
    assert forall f :: f in rest ==> f in s.rest;
    forall f | f in t.All() ensures f in s.rest {
      assert f == root || f in rest;
    }
  }

  // ----- Bytes of sections and of the device tree

  /** A page-aligned stretch of bytes at a linear physical offset. */
  lemma {:induction false} LinearByte(start: nat, physical: nat, offset: nat, n: nat)
    requires InOneHalf(start, n) && physical % FRAME_SIZE == 0 && offset < n * FRAME_SIZE
    ensures Canonical(start + offset) && PageOf(start) + offset / FRAME_SIZE < PAGE_LIMIT
    ensures PageOf(start + offset) == PageOf(start) + offset / FRAME_SIZE
    ensures (physical + offset) / FRAME_SIZE == physical / FRAME_SIZE + offset / FRAME_SIZE
    ensures offset / FRAME_SIZE < n
  {
    var q, j := start / FRAME_SIZE, offset / FRAME_SIZE;
    assert start == q * FRAME_SIZE && j < n;
    assert (q * FRAME_SIZE + offset) / FRAME_SIZE == q + j;
    var m := physical / FRAME_SIZE;
    assert physical == m * FRAME_SIZE;
    assert (m * FRAME_SIZE + offset) / FRAME_SIZE == m + j;
    if start + n * FRAME_SIZE <= LOW_HALF_END {
      LowPages(q, n);
      assert q + j < PAGE_LIMIT;
    } else {
      HighPages(q, n);
      HighRemainder(q + j);
    }
  }

  /** A mapped span translates each of its bytes linearly. */
  lemma {:induction false} SpanByte(mem: Mem, root: nat, spans: seq<Span>, i: nat, start: nat, physical: nat,
                                    offset: nat)
    requires Maps(mem, root, spans) && i < |spans| && InOneHalf(start, spans[i].count)
    requires physical % FRAME_SIZE == 0 && offset < spans[i].count * FRAME_SIZE
    requires spans[i].page == PageOf(start) && spans[i].frame == physical / FRAME_SIZE
    ensures WalkAddress(mem, root, start + offset)
            == Mapped((physical + offset) / FRAME_SIZE, LeafFlags(spans[i].permissions, false))
  {
    hide Walk, LeafFlags, PageOf, Canonical;
    LinearByte(start, physical, offset, spans[i].count);
    assert spans[i].Covers(PageOf(start + offset));
  }

  lemma {:induction false} SectionSpanAt(list: seq<Section>, virtualStart: nat, physicalStart: nat, i: nat)
    requires SectionsValid(list) && i < |list|
    ensures |SectionSpans(list, virtualStart, physicalStart)| == |list|
    ensures var frame := SectionFrame(list[i].range, virtualStart, physicalStart);
            SectionSpans(list, virtualStart, physicalStart)[i]
            == RangeSpan(list[i].range, if frame.Some? then frame.value else 0, list[i].permissions)
    decreases |list|
  {
    hide RangeSpan;
    if i > 0 {
      SectionSpanAt(list[1..], virtualStart, physicalStart, i - 1);
    } else {
      SectionSpansLength(list[1..], virtualStart, physicalStart);
    }
  }

  lemma {:induction false} SectionSpansLength(list: seq<Section>, virtualStart: nat, physicalStart: nat)
    requires SectionsValid(list)
    ensures |SectionSpans(list, virtualStart, physicalStart)| == |list|
    decreases |list|
  {
    hide RangeSpan;
    if list != [] {
      SectionSpansLength(list[1..], virtualStart, physicalStart);
    }
  }

  /** A list that was mapped had a frame for every section and ranges inside one half. */
  lemma {:induction false} SectionsMapped(s: State, root: nat, list: seq<Section>, virtualStart: nat,
                                          physicalStart: nat, i: nat)
    requires SectionsValid(list) && i < |list| && MapSections(s, root, list, virtualStart, physicalStart).result.Ok?
    ensures SectionFrame(list[i].range, virtualStart, physicalStart).Some?
    ensures InOneHalf(list[i].range.start, list[i].range.Pages())
    decreases |list|
  {
    hide MapPages, Canonical;
    var frame := SectionFrame(list[0].range, virtualStart, physicalStart);
    var first := MapRange(s, root, list[0].range, frame.value, list[0].permissions);
    if i == 0 {
      RangeInOneHalf(list[0].range);
    } else {
      SectionsMapped(first.state, root, list[1..], virtualStart, physicalStart, i - 1);
    }
  }

  /** The steps behind a success. */
  lemma {:induction false} BuiltSteps(s: State, physicalStart: nat, k: Sections, va: nat, dtb: PhysRange)
    requires SectionsValid(AllSections(k)) && dtb.Valid() && IntoKernel(s, physicalStart, k, va, dtb).result.Ok?
    ensures DtbMapping(va, dtb).Ok? && DtbMapping(va, dtb).value.0.Valid()
    ensures var root, s1 := IntoKernel(s, physicalStart, k, va, dtb).result.value.root, AllocateTable(s).state;
            var sections := MapSections(s1, root, AllSections(k), k.virtualStart, physicalStart);
            && sections.result.Ok?
            && MapRange(sections.state, root,
                        DtbMapping(va, dtb).value.0, DtbMapping(va, dtb).value.1, ReadOnly).result.Ok?
  {
    hide AllSections, MapSections, MapRange, DtbMapping, PrepareFixmap, AllocateTable;
    DtbCover(va, dtb);
  }

  lemma {:induction false} RangeMapped(s: State, root: nat, range: VirtRange, frame: nat, permissions: Permissions)
    requires range.Valid() && MapRange(s, root, range, frame, permissions).result.Ok?
    ensures InOneHalf(range.start, range.Pages())
  {
    hide MapPages, Canonical, InOneHalf;
    RangeInOneHalf(range);
  }

  /** Every byte of every section translates to the load address plus its offset from the virtual
      start, with the section's permissions. */
  lemma {:induction false} SectionByte(s: State, physicalStart: nat, k: Sections, va: nat, dtb: PhysRange, i: nat,
                                       address: nat)
    requires Distinct(s.rest) && SectionsValid(AllSections(k)) && dtb.Valid()
    requires IntoKernel(s, physicalStart, k, va, dtb).result.Ok?
    requires i < |AllSections(k)|
    requires AllSections(k)[i].range.start <= address < AllSections(k)[i].range.end
    ensures var step := IntoKernel(s, physicalStart, k, va, dtb);
            && k.virtualStart <= address
            && WalkAddress(step.state.mem, step.result.value.root, address)
               == Mapped((physicalStart + (address - k.virtualStart)) / FRAME_SIZE,
                         LeafFlags(AllSections(k)[i].permissions, false))
  {
    hide Ready, Clean, Grown, Maps, Standing, AllSections, LeafFlags, WalkAddress, InOneHalf, IntoKernel, DtbMapping;
    hide MapSections, MapRange, AllocateTable, RangeSpan, SectionSpans, CONTROL_PAGE;
    var step, cover := IntoKernel(s, physicalStart, k, va, dtb), DtbMapping(va, dtb);
    var list := AllSections(k);
    var t := IntoKernelCorrect(s, physicalStart, k, va, dtb);
    BuiltSteps(s, physicalStart, k, va, dtb);
    SectionsMapped(AllocateTable(s).state, step.result.value.root, list, k.virtualStart, physicalStart, i);
    SectionSpanAt(list, k.virtualStart, physicalStart, i);
    var spans := Mappings(physicalStart, k, cover.value.0, cover.value.1, step.result.value.fixmap);
    assert spans[i] == SectionSpans(list, k.virtualStart, physicalStart)[i];
    SectionSpanByte(step.state.mem, step.result.value.root, spans, i, list[i], k.virtualStart, physicalStart, address);
  }

  lemma {:induction false} SectionSpanByte(mem: Mem, root: nat, spans: seq<Span>, i: nat, section: Section,
                                           virtualStart: nat, physicalStart: nat, address: nat)
    requires Maps(mem, root, spans) && i < |spans| && section.range.Valid()
    requires SectionFrame(section.range, virtualStart, physicalStart).Some?
    requires spans[i]
             == RangeSpan(section.range, SectionFrame(section.range, virtualStart, physicalStart).value,
                           section.permissions)
    requires InOneHalf(section.range.start, section.range.Pages()) && section.range.start <= address < section.range.end
    ensures virtualStart <= address
    ensures WalkAddress(mem, root, address)
            == Mapped((physicalStart + (address - virtualStart)) / FRAME_SIZE, LeafFlags(section.permissions, false))
  {
    hide Maps, LeafFlags, WalkAddress, InOneHalf, PageOf;
    var range := section.range;
    RoundedUp(range.end - range.start);
    SpanByte(mem, root, spans, i, range.start, physicalStart + (range.start - virtualStart), address - range.start);
  }

  /** The pages of the device tree, counted from the offset of its first byte. */
  lemma {:induction false} DtbPages(va: nat, dtb: PhysRange)
    requires dtb.Valid() && DtbMapping(va, dtb).Ok?
    ensures var range, offset := DtbMapping(va, dtb).value.0, dtb.start % FRAME_SIZE;
            && range.Valid() && range.start + offset == va && range.start % FRAME_SIZE == 0
            && DtbMapping(va, dtb).value.1 == AlignDown(dtb.start) / FRAME_SIZE
            && AlignDown(dtb.start) + offset == dtb.start
            && offset + (dtb.end - dtb.start) <= range.Pages() * FRAME_SIZE
               < offset + (dtb.end - dtb.start) + FRAME_SIZE
  {
    var range := DtbMapping(va, dtb).value.0;
    RoundedUp(range.end - range.start);
    var end := va + (dtb.end - dtb.start) + (FRAME_SIZE - 1);
    assert range.end == AlignDown(end) && range.start == AlignDown(va);
    WholePages(range.start, range.end);
  }

  lemma {:induction false} WholePages(a: nat, b: nat)
    requires a < b && a % FRAME_SIZE == 0 && b % FRAME_SIZE == 0
    ensures (b - a + FRAME_SIZE - 1) / FRAME_SIZE * FRAME_SIZE == b - a
  {
    var n := (b - a) / FRAME_SIZE;
    assert b - a == n * FRAME_SIZE;
    assert (n * FRAME_SIZE + FRAME_SIZE - 1) / FRAME_SIZE == n;
  }

  /** Every byte of the device tree translates at its alias to its own physical place, read-only. */
  lemma {:induction false} DtbByte(s: State, physicalStart: nat, k: Sections, va: nat, dtb: PhysRange, i: nat)
    requires Distinct(s.rest) && SectionsValid(AllSections(k)) && dtb.Valid()
    requires IntoKernel(s, physicalStart, k, va, dtb).result.Ok? && i < dtb.end - dtb.start
    ensures var step := IntoKernel(s, physicalStart, k, va, dtb);
            WalkAddress(step.state.mem, step.result.value.root, va + i)
            == Mapped((dtb.start + i) / FRAME_SIZE, LeafFlags(ReadOnly, false))
  {
    hide Ready, Clean, Grown, Maps, Standing, AllSections, LeafFlags, WalkAddress, InOneHalf, IntoKernel, DtbMapping;
    hide MapSections, MapRange, AllocateTable, SectionSpans, CONTROL_PAGE;
    var step, cover := IntoKernel(s, physicalStart, k, va, dtb), DtbMapping(va, dtb);
    var t := IntoKernelCorrect(s, physicalStart, k, va, dtb);
    BuiltSteps(s, physicalStart, k, va, dtb);
    var root, range := step.result.value.root, cover.value.0;
    RangeMapped(MapSections(AllocateTable(s).state, root, AllSections(k), k.virtualStart, physicalStart).state,
                root, range, cover.value.1, ReadOnly);
    DtbPages(va, dtb);
    var spans := Mappings(physicalStart, k, range, cover.value.1, step.result.value.fixmap);
    var n := |AllSections(k)|;
    SectionSpansLength(AllSections(k), k.virtualStart, physicalStart);
    assert spans[n] == RangeSpan(range, cover.value.1, ReadOnly);
    SpanByte(step.state.mem, root, spans, n, range.start, AlignDown(dtb.start), dtb.start % FRAME_SIZE + i);
  }

  // ----- The first state of the running system

  /** No frame of a span is in the set. */
  predicate SpanAvoids(span: Span, pool: set<nat>) {
    forall f :: span.frame <= f < span.frame + span.count ==> f !in pool
  }

  predicate SpansAvoid(spans: seq<Span>, pool: set<nat>) {
    forall i :: 0 <= i < |spans| ==> SpanAvoids(spans[i], pool)
  }

  /** The section's bytes lie inside the kernel image. */
  predicate InImage(range: VirtRange, virtualStart: nat, physicalStart: nat, image: PhysRange) {
    virtualStart <= range.start && image.start <= physicalStart + (range.start - virtualStart)
    && physicalStart + (range.end - virtualStart) <= image.end
  }

  /** Owed frames touch neither the kernel image nor the device tree. */
  predicate Spares(rest: seq<nat>, range: PhysRange) {
    forall k :: 0 <= k < |rest| ==> !FrameRange(rest[k]).Overlaps(range)
  }

  lemma {:induction false} SectionAvoids(range: VirtRange, virtualStart: nat, physicalStart: nat, image: PhysRange,
                                         permissions: Permissions, rest: seq<nat>)
    requires range.Valid() && InImage(range, virtualStart, physicalStart, image) && Spares(rest, image)
    requires SectionFrame(range, virtualStart, physicalStart).Some?
    ensures SpanAvoids(RangeSpan(range, SectionFrame(range, virtualStart, physicalStart).value, permissions),
                       set f | f in rest)
  {
    var frame := SectionFrame(range, virtualStart, physicalStart).value;
    RoundedUp(range.end - range.start);
    forall f | frame <= f < frame + range.Pages() ensures f !in rest {
      assert FrameRange(f).start == frame * FRAME_SIZE + (f - frame) * FRAME_SIZE;
      assert (f - frame) * FRAME_SIZE < range.end - range.start;
      assert FrameRange(f).Overlaps(image);
    }
  }

  lemma {:induction false} DtbAvoids(va: nat, dtb: PhysRange, rest: seq<nat>)
    requires dtb.Valid() && DtbMapping(va, dtb).Ok? && DtbMapping(va, dtb).value.0.Valid() && Spares(rest, dtb)
    ensures SpanAvoids(RangeSpan(DtbMapping(va, dtb).value.0, DtbMapping(va, dtb).value.1, ReadOnly), set f | f in rest)
  {
    DtbPages(va, dtb);
    var range, frame := DtbMapping(va, dtb).value.0, DtbMapping(va, dtb).value.1;
    hide DtbMapping;
    forall f | frame <= f < frame + range.Pages() ensures f !in rest {
      assert FrameRange(f).start == AlignDown(dtb.start) + (f - frame) * FRAME_SIZE;
      assert (f - frame) * FRAME_SIZE + FRAME_SIZE <= range.Pages() * FRAME_SIZE;
      assert FrameRange(f).Overlaps(dtb);
    }
  }

  /** All spans but the control page avoid the pool. */
  lemma {:induction false} MappingsAvoid(s: State, physicalStart: nat, k: Sections, va: nat, dtb: PhysRange,
                                         image: PhysRange)
    requires SectionsValid(AllSections(k)) && dtb.Valid() && IntoKernel(s, physicalStart, k, va, dtb).result.Ok?
    requires forall i :: 0 <= i < |AllSections(k)| ==>
        InImage(AllSections(k)[i].range, k.virtualStart, physicalStart, image)
    requires Spares(s.rest, image) && Spares(s.rest, dtb)
    ensures var cover := DtbMapping(va, dtb);
            && cover.Ok? && cover.value.0.Valid()
            && SpansAvoid(SectionSpans(AllSections(k), k.virtualStart, physicalStart)
                          + [RangeSpan(cover.value.0, cover.value.1, ReadOnly)],
                          set f | f in s.rest)
  {
    hide AllSections, IntoKernel, DtbMapping, MapSections, MapRange, AllocateTable, RangeSpan, SectionSpans, InImage;
    hide Spares, SpanAvoids;
    BuiltSteps(s, physicalStart, k, va, dtb);
    var list, cover := AllSections(k), DtbMapping(va, dtb);
    var pool := set f | f in s.rest;
    var root, s1 := IntoKernel(s, physicalStart, k, va, dtb).result.value.root, AllocateTable(s).state;
    var spans := SectionSpans(list, k.virtualStart, physicalStart);
    SectionSpansLength(list, k.virtualStart, physicalStart);
    DtbAvoids(va, dtb, s.rest);
    forall i | 0 <= i < |list| ensures SpanAvoids(spans[i], pool) {
      SectionsMapped(s1, root, list, k.virtualStart, physicalStart, i);
      SectionSpanAt(list, k.virtualStart, physicalStart, i);
      SectionAvoids(list[i].range, k.virtualStart, physicalStart, image, list[i].permissions, s.rest);
    }
  }

  /** What a mapped page of the new root can be. */
  lemma {:induction false} MappedPage(mem: Mem, root: nat, spans: seq<Span>, fixmap: nat, pool: set<nat>, p: nat)
    requires Maps(mem, root, spans + [Span(CONTROL_PAGE, 1, fixmap, ReadWrite)]) && SpansAvoid(spans, pool)
    requires p < PAGE_LIMIT
    ensures !UsesPool(mem, root, pool, p) && GoodLeaf(p, Walk(mem, root, p), pool)
  {
    hide Walk, LeafFlags, GoodLeaf, CONTROL_PAGE;
    var all := spans + [Span(CONTROL_PAGE, 1, fixmap, ReadWrite)];
    FaultIsGood(p, pool);
    if i :| 0 <= i < |all| && all[i].Covers(p) {
      assert Walk(mem, root, p) == all[i].At(p);
      assert i < |spans| ==> SpanAvoids(spans[i], pool);
      LeafIsGood(p, all[i].At(p).frame, all[i].permissions, false, pool);
    }
  }

  lemma {:induction false} FaultIsGood(p: nat, pool: set<nat>)
    ensures GoodLeaf(p, Fault, pool)
  {
  }

  lemma {:induction false} NothingOwned(s: State, t: Tables, pool: set<nat>)
    requires forall p: nat :: p < PAGE_LIMIT ==> !UsesPool(s.mem, t.root, pool, p)
    requires (forall k :: 0 <= k < |s.rest| ==> s.rest[k] in pool) && (forall f :: f in t.All() ==> f in pool)
    ensures Exclusive(s, t, pool, {})
  {
    hide Walk, CONTROL_PAGE;
  }

  /** The frames that were owed, as tables or still owed, are RAM. */
  lemma {:induction false} StillRam(s: State, s': State, t: Tables)
    requires FA.BackedByRam(s.mem, s.rest) && TouchesOwed(s, s') && Ready(s', t)
    requires forall f :: f !in t.All() && f in s.mem ==> f in s'.mem && s'.mem[f] == s.mem[f]
    ensures FA.BackedByRam(s'.mem, s'.rest)
    ensures AllRam(s'.mem, set f | f in s.rest)
  {
    forall f | f in s.rest ensures IsTable(s'.mem, f) {
      if f in t.All() {
        assert f in t.Parents() || f in t.l0;
      }
    }
    forall k | 0 <= k < |s'.rest| ensures IsTable(s'.mem, s'.rest[k]) {
      assert s'.rest[k] == s.rest[|s.rest| - |s'.rest| + k];
      assert s'.rest[k] !in t.All();
    }
  }

  /** Sections and alias in the upper half leave the whole user half unmapped. */
  lemma {:induction false} LowerHalfEmpty(s: State, physicalStart: nat, k: Sections, va: nat, dtb: PhysRange)
    requires Distinct(s.rest) && SectionsValid(AllSections(k)) && dtb.Valid()
    requires IntoKernel(s, physicalStart, k, va, dtb).result.Ok?
    requires forall i :: 0 <= i < |AllSections(k)| ==> AllSections(k)[i].range.start >= HIGH_HALF_BASE
    requires va >= HIGH_HALF_BASE
    ensures var step := IntoKernel(s, physicalStart, k, va, dtb);
            forall p :: 0 <= p < HIGH_PAGE ==> Walk(step.state.mem, step.result.value.root, p) == Fault
  {
    hide Walk, AllSections, IntoKernel, MapSections, MapRange, AllocateTable, SectionSpans, PageOf, Standing;
    var step := IntoKernel(s, physicalStart, k, va, dtb);
    var t := IntoKernelCorrect(s, physicalStart, k, va, dtb);
    BuiltSteps(s, physicalStart, k, va, dtb);
    DtbPages(va, dtb);
    var cover, list := DtbMapping(va, dtb).value, AllSections(k);
    hide DtbMapping;
    var spans := Mappings(physicalStart, k, cover.0, cover.1, step.result.value.fixmap);
    SectionSpansLength(list, k.virtualStart, physicalStart);
    AlignedHigh(va, cover.0.start);
    HighPage(cover.0.start);
    FixmapIndices();
    forall i | 0 <= i < |spans| ensures spans[i].page >= HIGH_PAGE {
      if i < |list| {
        SectionSpanAt(list, k.virtualStart, physicalStart, i);
        HighPage(list[i].range.start);
        assert spans[i] == SectionSpans(list, k.virtualStart, physicalStart)[i];
      }
    }
  }

  lemma {:induction false} AlignedHigh(va: nat, start: nat)
    requires HIGH_HALF_BASE <= va && start <= va < start + FRAME_SIZE && start % FRAME_SIZE == 0
    ensures HIGH_HALF_BASE <= start
  {
    assert HIGH_HALF_BASE % FRAME_SIZE == 0;
  }

  /** The system that `into_kernel` hands over. */
  function Started(s: State, built: Built): System {
    System(s, built.root, built.fixmap, false, None, {}, [])
  }

  /** A successful `into_kernel` establishes the invariant of all later operations. */
  lemma {:induction false} StartsSound(s: State, physicalStart: nat, k: Sections, va: nat, dtb: PhysRange,
                                       image: PhysRange)
    requires Distinct(s.rest) && FA.BackedByRam(s.mem, s.rest)
    requires SectionsValid(AllSections(k)) && dtb.Valid() && IntoKernel(s, physicalStart, k, va, dtb).result.Ok?
    requires forall i :: 0 <= i < |AllSections(k)| ==>
        InImage(AllSections(k)[i].range, k.virtualStart, physicalStart, image)
    requires Spares(s.rest, image) && Spares(s.rest, dtb)
    ensures var step := IntoKernel(s, physicalStart, k, va, dtb);
            Sound(Started(step.state, step.result.value), set f | f in s.rest)
  {
    hide Maps, AllSections, IntoKernel, DtbMapping, SectionSpans, RangeSpan, InImage, Spares, SpansAvoid, Ready, Clean;
    hide Arranged, Exclusive, GoodLeaf, UsesPool, CONTROL_PAGE;
    var pool := set f | f in s.rest;
    var step := IntoKernel(s, physicalStart, k, va, dtb);
    var t := IntoKernelCorrect(s, physicalStart, k, va, dtb);
    MappingsAvoid(s, physicalStart, k, va, dtb, image);
    var cover := DtbMapping(va, dtb).value;
    var spans := SectionSpans(AllSections(k), k.virtualStart, physicalStart) + [RangeSpan(cover.0, cover.1, ReadOnly)];
    var s', built := step.state, step.result.value;
    forall p: nat | p < PAGE_LIMIT
      ensures !UsesPool(s'.mem, t.root, pool, p) && GoodLeaf(p, Walk(s'.mem, t.root, p), pool)
    {
      MappedPage(s'.mem, t.root, spans, built.fixmap, pool, p);
    }
    StillRam(s, s', t);
    NothingOwned(s', t, pool);
    assert SoundTables(s', built.root, built.fixmap, {}, t, pool);
    assert SoundWith(Started(s', built), t, pool);
  }

  /** From the boot allocator's free frames through `into_kernel` and any run after it: the
      invariant holds, and no page of the heap or of user code leads to a reserved frame. */
  lemma {:induction false} LifetimeSound(mem: Mem, ranges: seq<PhysRange>, reserved: seq<PhysRange>, image: PhysRange,
                                         dtb: PhysRange,
                      physicalStart: nat, k: Sections, va: nat, ops: seq<Op>)
    requires BA.Disjoint(ranges) && image in reserved && dtb in reserved && dtb.Valid()
    requires FA.BackedByRam(mem, BA.FreeFrames(ranges, reserved))
    requires SectionsValid(AllSections(k))
    requires forall i :: 0 <= i < |AllSections(k)| ==>
        InImage(AllSections(k)[i].range, k.virtualStart, physicalStart, image)
    requires var step := IntoKernel(State(mem, BA.FreeFrames(ranges, reserved)), physicalStart, k, va, dtb);
             step.result.Ok? && Runnable(Started(step.state, step.result.value), ops)
    ensures var free := BA.FreeFrames(ranges, reserved);
            var step := IntoKernel(State(mem, free), physicalStart, k, va, dtb);
            var sys := Run(Started(step.state, step.result.value), ops);
            && Sound(sys, set f | f in free)
            && (forall f :: f in free ==> BA.Unreserved(f, reserved))
  {
    hide Sound, IntoKernel, AllSections, InImage, Runnable, Started, BA.FreeFrames;
    var free := BA.FreeFrames(ranges, reserved);
    BA.FreeFramesDistinct(ranges, reserved);
    forall f | f in free ensures BA.Unreserved(f, reserved) {
      BA.FreeFramesExact(ranges, reserved, f);
    }
    UnreservedSpares(free, reserved, image);
    UnreservedSpares(free, reserved, dtb);
    StartsSound(State(mem, free), physicalStart, k, va, dtb, image);
    var step := IntoKernel(State(mem, free), physicalStart, k, va, dtb);
    RunSound(Started(step.state, step.result.value), ops, set f | f in free);
  }

  lemma {:induction false} UnreservedSpares(rest: seq<nat>, reserved: seq<PhysRange>, range: PhysRange)
    requires range in reserved && forall f :: f in rest ==> BA.Unreserved(f, reserved)
    ensures Spares(rest, range)
  {
    var i :| 0 <= i < |reserved| && reserved[i] == range;
    forall k | 0 <= k < |rest| ensures !FrameRange(rest[k]).Overlaps(range) {
      assert BA.Unreserved(rest[k], reserved) && !FrameRange(rest[k]).Overlaps(reserved[i]);
    }
  }

  /** What soundness over the free frames means for a single frame: a table, a token, a heap page or
      a user page is in one place only and touches nothing reserved. */
  lemma {:induction false} OwnedOnce(sys: System, free: seq<nat>, reserved: seq<PhysRange>) returns (t: Tables)
    requires Sound(sys, set f | f in free) && forall f :: f in free ==> BA.Unreserved(f, reserved)
    ensures t.root == sys.root
    ensures forall f :: f in t.All() ==> BA.Unreserved(f, reserved) && f !in sys.tokens
    ensures forall f :: f in sys.tokens ==> BA.Unreserved(f, reserved)
    ensures forall p :: 0 <= p < PAGE_LIMIT && p != CONTROL_PAGE && Owned(sys, p) ==>
              var f := Walk(sys.s.mem, sys.root, p).frame;
              && BA.Unreserved(f, reserved) && f !in t.All() && f !in sys.tokens && f !in sys.s.rest
              && (forall q :: 0 <= q < PAGE_LIMIT && q != CONTROL_PAGE && q != p
                               && Walk(sys.s.mem, sys.root, q).Mapped? ==>
                    Walk(sys.s.mem, sys.root, q).frame != f)
  {
    var pool := set f | f in free;
    t :| SoundWith(sys, t, pool);
    hide Walk, Ready, Clean, Arranged, CONTROL_PAGE, GoodBlocks, BA.Unreserved;
    forall p | 0 <= p < PAGE_LIMIT && p != CONTROL_PAGE && Owned(sys, p)
      ensures UsesPool(sys.s.mem, sys.root, pool, p)
    {
      assert GoodLeaf(p, Walk(sys.s.mem, sys.root, p), pool);
    }
    forall p, q | 0 <= p < PAGE_LIMIT && p != CONTROL_PAGE && Owned(sys, p)
                  && 0 <= q < PAGE_LIMIT && q != CONTROL_PAGE && q != p && Walk(sys.s.mem, sys.root, q).Mapped?
      ensures Walk(sys.s.mem, sys.root, q).frame != Walk(sys.s.mem, sys.root, p).frame
    {
      assert Walk(sys.s.mem, sys.root, q).frame in pool ==> UsesPool(sys.s.mem, sys.root, pool, q);
    }
  }

  /** A user page, or a page of the claimed heap. */
  ghost predicate Owned(sys: System, p: nat) {
    var to := Walk(sys.s.mem, sys.root, p);
    to.Mapped? && (Has(to.flags, U) || (sys.claimed && HEAP_FIRST <= p < HEAP_LIMIT))
  }
}
