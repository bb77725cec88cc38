/** When `into_kernel` succeeds: exactly on layouts of well-formed ranges that share no page, given
    enough free frames.
 */
module KernelStart {
  import opened Memory
  import opened Sv39
  import opened PageTable
  import opened Fixmap
  import opened FrameUse
  import opened KernelSpace

  // ----- Pages and ranges

  /** The pages of a span are free. */
  ghost predicate Free(mem: Mem, root: nat, span: Span) {
    forall p :: 0 <= p < PAGE_LIMIT && span.Covers(p) ==> Walk(mem, root, p) == Fault
  }

  lemma {:induction false} OnePageSucceeds(s: State, t: Tables, va: nat, frame: nat, n: nat, permissions: Permissions)
    requires Ready(s, t) && Clean(s.mem, t) && InOneHalf(va, n) && n > 0 && frame < PPN_LIMIT
    requires Free(s.mem, t.root, Span(PageOf(va), n, frame, permissions)) && Available(s.rest, 2)
    ensures MapPage(s, t.root, va, frame, permissions, false).result.Ok?
  {
    hide Ready, Clean, Walk, MapPage, PageOf, Canonical, Available, TablesNeeded;
    NextPage(va, n);
    NeedsAtMostTwo(s.mem, t.root, PageOf(va), s.rest);
    assert Span(PageOf(va), n, frame, permissions).Covers(PageOf(va));
    MapPageSucceedsExactly(s, t, va, frame, permissions, false);
  }

  lemma {:induction false} MapPagesSucceed(s: State, t: Tables, va: nat, frame: nat, n: nat, permissions: Permissions)
    requires Ready(s, t) && Clean(s.mem, t) && InOneHalf(va, n) && frame + n <= PPN_LIMIT
    requires Free(s.mem, t.root, Span(PageOf(va), n, frame, permissions)) && Available(s.rest, 2 * n)
    ensures var step := MapPages(s, t.root, va, frame, n, permissions);
            step.result.Ok? && UsedAtMost(s.rest, step.state.rest, 2 * n)
    decreases n
  {
    hide Ready, Clean, Walk, MapPage, PageOf, Canonical, Available, UsedAtMost, Grown, LeafFlags, Free, OnlyMapped;
    hide InOneHalf, SameWalks;
    hide MapPages;
    if n == 0 {
      MapNoPages(s, t.root, va, frame, permissions);
      UsedNothing(s.rest);
    } else {
      var first := MapPage(s, t.root, va, frame, permissions, false);
      var m := 2 * (n - 1);
      assert 2 * n == 2 + m;
      NextPage(va, n);
      Enough(s.rest, 2, m);
      OnePageSucceeds(s, t, va, frame, n, permissions);
      var t' := MapPageCorrect(s, t, va, frame, permissions, false);
      RootKept(s, t, first.state, t');
      MapPageUses(s, t.root, va, frame, permissions, false);
      StillAvailable(s.rest, first.state.rest, 2, m);
      StillFree(s.mem, first.state.mem, t.root, PageOf(va), va, n, frame, permissions);
      MapPagesSucceed(first.state, t', va + FRAME_SIZE, frame + 1, n - 1, permissions);
      MapPagesStep(s, t.root, va, frame, n, permissions);
      UsedMore(s.rest, first.state.rest, MapPages(s, t.root, va, frame, n, permissions).state.rest, 2, m);
    }
  }

  lemma {:induction false} StillFree(mem: Mem, mem': Mem, root: nat, p: nat, va: nat, n: nat, frame: nat,
                                     permissions: Permissions)
    requires n > 0 && p == PageOf(va) && (n > 1 ==> PageOf(va + FRAME_SIZE) == p + 1)
    requires Free(mem, root, Span(p, n, frame, permissions))
    requires OnlyMapped(mem, mem', root, p, Mapped(frame, LeafFlags(permissions, false)))
    ensures Free(mem', root, Span(PageOf(va + FRAME_SIZE), n - 1, frame + 1, permissions))
  {
    hide Walk, LeafFlags, PageOf;
    forall q | 0 <= q < PAGE_LIMIT && Span(PageOf(va + FRAME_SIZE), n - 1, frame + 1, permissions).Covers(q)
      ensures Walk(mem', root, q) == Fault
    {
      assert Span(p, n, frame, permissions).Covers(q);
    }
  }

  /** The range is aligned, inside one canonical half, and its frames can be represented. */
  predicate Mappable(range: VirtRange, frame: nat)
    requires range.Valid()
  {
    && range.start % FRAME_SIZE == 0 && Canonical(range.start)
    && !(range.start < LOW_HALF_END && range.end > LOW_HALF_END)
    && frame + range.Pages() <= PPN_LIMIT
  }

  lemma {:induction false} MapRangeSucceeds(s: State, t: Tables, range: VirtRange, frame: nat, permissions: Permissions)
    requires Ready(s, t) && Clean(s.mem, t) && range.Valid() && Mappable(range, frame)
    requires Free(s.mem, t.root, RangeSpan(range, frame, permissions)) && Available(s.rest, 2 * range.Pages())
    ensures var step := MapRange(s, t.root, range, frame, permissions);
            step.result.Ok? && UsedAtMost(s.rest, step.state.rest, 2 * range.Pages())
  {
    hide Ready, Clean, Free, Available, UsedAtMost, MapPages, PageOf, Canonical;
    RangeInOneHalf(range);
    MapPagesSucceed(s, t, range.start, frame, range.Pages(), permissions);
  }

  // ----- Sections

  /** No two spans share a page. */
  ghost predicate Separate(spans: seq<Span>) {
    forall i, j, p: nat :: 0 <= i < j < |spans| && spans[i].Covers(p) ==> !spans[j].Covers(p)
  }

  /** A span that comes after separate mapped ones is free. */
  lemma {:induction false} FreeAfter(mem: Mem, root: nat, mapped: seq<Span>, span: Span, rest: seq<Span>)
    requires Maps(mem, root, mapped) && Separate(mapped + ([span] + rest))
    ensures Free(mem, root, span)
  {
    hide Walk;
    var all := mapped + ([span] + rest);
    forall p | 0 <= p < PAGE_LIMIT && span.Covers(p) ensures Walk(mem, root, p) == Fault {
      assert all[|mapped|] == span;
      forall i | 0 <= i < |mapped| ensures !mapped[i].Covers(p) {
        assert all[i] == mapped[i];
      }
    }
  }

  predicate AllMappable(list: seq<Section>, virtualStart: nat, physicalStart: nat)
    requires SectionsValid(list)
  {
    forall k :: 0 <= k < |list| ==>
      var frame := SectionFrame(list[k].range, virtualStart, physicalStart);
      frame.Some? && Mappable(list[k].range, frame.value)
  }

  function TotalPages(list: seq<Section>): nat
    requires SectionsValid(list)
  {
    if list == [] then 0 else list[0].range.Pages() + TotalPages(list[1..])
  }

  lemma {:induction false} MapSectionsSucceed(s: State, t: Tables, list: seq<Section>, virtualStart: nat,
                                              physicalStart: nat,
                                              mapped: seq<Span>, rest: seq<Span>)
    requires Ready(s, t) && Clean(s.mem, t) && Maps(s.mem, t.root, mapped)
    requires SectionsValid(list) && AllMappable(list, virtualStart, physicalStart)
    requires Separate(mapped + (SectionSpans(list, virtualStart, physicalStart) + rest))
    requires Available(s.rest, 2 * TotalPages(list))
    ensures var step := MapSections(s, t.root, list, virtualStart, physicalStart);
            step.result.Ok? && UsedAtMost(s.rest, step.state.rest, 2 * TotalPages(list))
    decreases |list|
  {
    hide Ready, Clean, Grown, Maps, MapRange, Available, UsedAtMost, Mappable, RangeSpan, Separate, Free, Extended;
    UsedNothing(s.rest);
    if list != [] {
      var frame := SectionFrame(list[0].range, virtualStart, physicalStart).value;
      var span := RangeSpan(list[0].range, frame, list[0].permissions);
      var later := SectionSpans(list[1..], virtualStart, physicalStart);
      var n := list[0].range.Pages();
      assert mapped + ([span] + later + rest) == mapped + ([span] + (later + rest));
      FreeAfter(s.mem, t.root, mapped, span, later + rest);
      Enough(s.rest, 2 * n, 2 * TotalPages(list[1..]));
      MapRangeSucceeds(s, t, list[0].range, frame, list[0].permissions);
      var first := MapRange(s, t.root, list[0].range, frame, list[0].permissions);
      var t' := MapRangeCorrect(s, t, list[0].range, frame, list[0].permissions);
      RootKept(s, t, first.state, t');
      MapsExtended(s.mem, first.state.mem, t.root, mapped, span);
      StillAvailable(s.rest, first.state.rest, 2 * n, 2 * TotalPages(list[1..]));
      assert mapped + ([span] + (later + rest)) == mapped + [span] + (later + rest);
      MapSectionsSucceed(first.state, t', list[1..], virtualStart, physicalStart, mapped + [span], rest);
      UsedMore(s.rest, first.state.rest, MapSections(s, t.root, list, virtualStart, physicalStart).state.rest,
               2 * n, 2 * TotalPages(list[1..]));
    }
  }

  // ----- The fixmap

  /** The control and the window page. */
  function FixmapSpan(): Span {
    Span(CONTROL_PAGE, 2, 0, ReadWrite)
  }

  lemma {:induction false} PrepareFixmapSucceeds(s: State, t: Tables)
    requires Ready(s, t) && Clean(s.mem, t) && Free(s.mem, t.root, FixmapSpan()) && Available(s.rest, 2)
    ensures PrepareFixmap(s, t.root).result.Ok?
  {
    ControlAddress();
    FixmapIndices();
    hide Grown, Ready, Clean, Walk, Descend, PageOf, VpnAt, Canonical, Available, LeafFlags, MapPage, TablesNeeded;
    hide LeafTable;
    assert FixmapSpan().Covers(CONTROL_PAGE) && FixmapSpan().Covers(WINDOW_PAGE);
    NeedsAtMostTwo(s.mem, t.root, CONTROL_PAGE, s.rest);
    DescendSucceeds(s, t, FIXMAP_TABLE_BASE);
    var down := Descend(s, t.root, FIXMAP_TABLE_BASE);
    var t' := DescendCorrect(s, t, FIXMAP_TABLE_BASE);
    RootKept(s, t, down.state, t');
    var table := down.result.value;
    InTree(down.state, t', CONTROL_PAGE, table);
    SharedTable(down.state.mem, t.root);
    ReadyTree(down.state, t');
    CleanSlot(down.state.mem, t', WINDOW_PAGE);
    assert down.state.mem[table][1] == 0;
    NoneNeeded(down.state.mem, t.root, CONTROL_PAGE, down.state.rest);
    MapPageSucceedsExactly(down.state, t', FIXMAP_TABLE_BASE, table, ReadWrite, false);
  }

  lemma {:induction false} NoneNeeded(mem: Mem, root: nat, p: nat, rest: seq<nat>)
    requires LeafTable(mem, root, p).Some?
    ensures Available(rest, TablesNeeded(mem, root, p))
  {
  }

  // ----- The whole construction

  /** The frames that always suffice: a root, and two tables for each page and for the fixmap. */
  function FramesNeeded(k: Sections, range: VirtRange): nat
    requires SectionsValid(AllSections(k)) && range.Valid()
  {
    1 + 2 * TotalPages(AllSections(k)) + 2 * range.Pages() + 2
  }

  lemma {:induction false} PopulateSucceeds(s: State, t: Tables, physicalStart: nat, k: Sections, range: VirtRange,
                                            frame: nat)
    requires Ready(s, t) && Clean(s.mem, t) && Maps(s.mem, t.root, []) && SectionsValid(AllSections(k)) && range.Valid()
    requires AllMappable(AllSections(k), k.virtualStart, physicalStart) && Mappable(range, frame)
    requires Separate(SectionSpans(AllSections(k), k.virtualStart, physicalStart)
                      + [RangeSpan(range, frame, ReadOnly), FixmapSpan()])
    requires Available(s.rest, 2 * TotalPages(AllSections(k)) + (2 * range.Pages() + 2))
    ensures Populate(s, t.root, physicalStart, k, range, frame).result.Ok?
  {
    hide Ready, Clean, Grown, Maps, MapRange, MapSections, PrepareFixmap, Available, UsedAtMost, Mappable, RangeSpan;
    hide Free, Extended;
    hide AllSections, Separate, FixmapSpan, AllMappable, TotalPages;
    var list := AllSections(k);
    var spans := SectionSpans(list, k.virtualStart, physicalStart);
    var dtb, fix := RangeSpan(range, frame, ReadOnly), FixmapSpan();
    var n, m := 2 * TotalPages(list), 2 * range.Pages();
    assert [] + (spans + [dtb, fix]) == spans + [dtb, fix];
    Enough(s.rest, n, m + 2);
    MapSectionsSucceed(s, t, list, k.virtualStart, physicalStart, [], [dtb, fix]);
    var first := MapSections(s, t.root, list, k.virtualStart, physicalStart);
    var t1 := MapSectionsCorrect(s, t, list, k.virtualStart, physicalStart, []);
    RootKept(s, t, first.state, t1);
    assert [] + spans == spans;
    StillAvailable(s.rest, first.state.rest, n, m + 2);
    Enough(first.state.rest, m, 2);
    assert spans + [dtb, fix] == spans + ([dtb] + [fix]);
    FreeAfter(first.state.mem, t.root, spans, dtb, [fix]);
    MapRangeSucceeds(first.state, t1, range, frame, ReadOnly);
    var second := MapRange(first.state, t.root, range, frame, ReadOnly);
    var t2 := MapRangeCorrect(first.state, t1, range, frame, ReadOnly);
    RootKept(first.state, t1, second.state, t2);
    MapsExtended(first.state.mem, second.state.mem, t.root, spans, dtb);
    StillAvailable(first.state.rest, second.state.rest, m, 2);
    assert spans + [dtb, fix] == spans + [dtb] + ([fix] + []);
    FreeAfter(second.state.mem, t.root, spans + [dtb], fix, []);
    PrepareFixmapSucceeds(second.state, t2);
  }

  /** `into_kernel` succeeds on every layout of representable ranges that share no page with each
      other or with the fixmap, when there are frames for two tables a page. */
  lemma {:induction false} IntoKernelSucceeds(s: State, physicalStart: nat, k: Sections, va: nat, dtb: PhysRange)
    requires Distinct(s.rest) && SectionsValid(AllSections(k)) && dtb.Valid() && DtbMapping(va, dtb).Ok?
    requires DtbMapping(va, dtb).value.0.Valid() && Mappable(DtbMapping(va, dtb).value.0, DtbMapping(va, dtb).value.1)
    requires AllMappable(AllSections(k), k.virtualStart, physicalStart)
    requires Separate(SectionSpans(AllSections(k), k.virtualStart, physicalStart)
                      + [RangeSpan(DtbMapping(va, dtb).value.0, DtbMapping(va, dtb).value.1, ReadOnly), FixmapSpan()])
    requires Available(s.rest, FramesNeeded(k, DtbMapping(va, dtb).value.0))
    ensures IntoKernel(s, physicalStart, k, va, dtb).result.Ok?
  {
    hide Ready, Clean, Maps, Populate, AllSections, DtbMapping, AllMappable, Mappable, Separate, RangeSpan;
    hide SectionSpans, TotalPages;
    var range, frame := DtbMapping(va, dtb).value.0, DtbMapping(va, dtb).value.1;
    var root := s.rest[0];
    var s1 := AllocateTable(s).state;
    assert root !in s1.rest;
    EmptyRoot(s1, root);
    assert UsedAtMost(s.rest, s1.rest, 1);
    StillAvailable(s.rest, s1.rest, 1, 2 * TotalPages(AllSections(k)) + (2 * range.Pages() + 2));
    PopulateSucceeds(s1, Tables(root, {}, {}), physicalStart, k, range, frame);
  }

  // ----- Nothing less will do

  /** A free span shares no page with the mapped ones. */
  lemma {:induction false} FreeIsSeparate(mem: Mem, root: nat, mapped: seq<Span>, span: Span)
    requires Maps(mem, root, mapped) && Separate(mapped) && Free(mem, root, span)
    requires span.page + span.count <= PAGE_LIMIT
    ensures Separate(mapped + [span])
  {
    hide Walk, LeafFlags;
    var all := mapped + [span];
    forall i, j, p: nat | 0 <= i < j < |all| && all[i].Covers(p) ensures !all[j].Covers(p) {
      assert mapped[i].Covers(p);
      if j < |mapped| {
        assert !mapped[j].Covers(p);
      } else {
        assert span.Covers(p) ==> Walk(mem, root, p) == Fault;
        assert p < PAGE_LIMIT ==> Walk(mem, root, p) == mapped[i].At(p);
      }
    }
  }

  lemma {:induction false} ExtendedWasFree(mem: Mem, mem': Mem, root: nat, span: Span)
    requires Extended(mem, mem', root, span)
    ensures Free(mem, root, span)
  {
    hide Walk;
  }

  lemma {:induction false} MapRangeNeeds(s: State, root: nat, range: VirtRange, frame: nat, permissions: Permissions)
    requires range.Valid() && MapRange(s, root, range, frame, permissions).result.Ok?
    ensures Mappable(range, frame)
    ensures RangeSpan(range, frame, permissions).page + RangeSpan(range, frame, permissions).count <= PAGE_LIMIT
  {
    hide MapPages, Canonical, PageOf;
    RangeInOneHalf(range);
    RoundedUp(range.end - range.start);
    NextPage(range.start, range.Pages());
  }

  lemma {:induction false} MapSectionsNeed(s: State, t: Tables, list: seq<Section>, virtualStart: nat,
                                           physicalStart: nat, mapped: seq<Span>)
    requires Ready(s, t) && Clean(s.mem, t) && Maps(s.mem, t.root, mapped) && Separate(mapped)
    requires SectionsValid(list) && MapSections(s, t.root, list, virtualStart, physicalStart).result.Ok?
    ensures AllMappable(list, virtualStart, physicalStart)
    ensures Separate(mapped + SectionSpans(list, virtualStart, physicalStart))
    decreases |list|
  {
    hide Ready, Clean, Grown, Maps, MapRange, Mappable, RangeSpan, Separate, Free, Extended;
    if list == [] {
      assert mapped + [] == mapped;
    } else {
      var frame := SectionFrame(list[0].range, virtualStart, physicalStart).value;
      var span := RangeSpan(list[0].range, frame, list[0].permissions);
      var first := MapRange(s, t.root, list[0].range, frame, list[0].permissions);
      var t' := MapRangeCorrect(s, t, list[0].range, frame, list[0].permissions);
      RootKept(s, t, first.state, t');
      MapRangeNeeds(s, t.root, list[0].range, frame, list[0].permissions);
      ExtendedWasFree(s.mem, first.state.mem, t.root, span);
      FreeIsSeparate(s.mem, t.root, mapped, span);
      MapsExtended(s.mem, first.state.mem, t.root, mapped, span);
      MapSectionsNeed(first.state, t', list[1..], virtualStart, physicalStart, mapped + [span]);
      assert mapped + [span] + SectionSpans(list[1..], virtualStart, physicalStart)
          == mapped + ([span] + SectionSpans(list[1..], virtualStart, physicalStart));
      assert forall k :: 0 < k < |list| ==> list[k] == list[1..][k - 1];
    }
  }

  lemma {:induction false} PrepareFixmapNeeds(s: State, t: Tables)
    requires Ready(s, t) && Clean(s.mem, t) && PrepareFixmap(s, t.root).result.Ok?
    ensures Free(s.mem, t.root, FixmapSpan())
  {
    ControlAddress();
    FixmapIndices();
    hide Grown, Ready, Clean, Walk, Descend, PageOf, VpnAt, Canonical, LeafFlags, MapPage, LeafTable, Available;
    hide TablesNeeded;
    var down := Descend(s, t.root, FIXMAP_TABLE_BASE);
    var t' := DescendCorrect(s, t, FIXMAP_TABLE_BASE);
    RootKept(s, t, down.state, t');
    var table := down.result.value;
    InTree(down.state, t', CONTROL_PAGE, table);
    SharedTable(down.state.mem, t.root);
    ReadyTree(down.state, t');
    CleanSlot(down.state.mem, t', WINDOW_PAGE);
    MapPageSucceedsExactly(down.state, t', FIXMAP_TABLE_BASE, table, ReadWrite, false);
    assert Walk(s.mem, t.root, CONTROL_PAGE) == Fault && Walk(s.mem, t.root, WINDOW_PAGE) == Fault;
  }

  lemma {:induction false} PopulateNeeds(s: State, t: Tables, physicalStart: nat, k: Sections, range: VirtRange,
                                         frame: nat)
    requires Ready(s, t) && Clean(s.mem, t) && Maps(s.mem, t.root, []) && SectionsValid(AllSections(k)) && range.Valid()
    requires Populate(s, t.root, physicalStart, k, range, frame).result.Ok?
    ensures AllMappable(AllSections(k), k.virtualStart, physicalStart) && Mappable(range, frame)
    ensures Separate(SectionSpans(AllSections(k), k.virtualStart, physicalStart)
                     + [RangeSpan(range, frame, ReadOnly), FixmapSpan()])
  {
    hide Ready, Clean, Grown, Maps, MapRange, MapSections, PrepareFixmap, Mappable, RangeSpan, Free, Extended;
    hide AllSections, Separate, AllMappable;
    var list := AllSections(k);
    var spans := SectionSpans(list, k.virtualStart, physicalStart);
    var dtb, fix := RangeSpan(range, frame, ReadOnly), FixmapSpan();
    NoneShared();
    MapSectionsNeed(s, t, list, k.virtualStart, physicalStart, []);
    assert [] + spans == spans;
    var first := MapSections(s, t.root, list, k.virtualStart, physicalStart);
    var t1 := MapSectionsCorrect(s, t, list, k.virtualStart, physicalStart, []);
    RootKept(s, t, first.state, t1);
    var second := MapRange(first.state, t.root, range, frame, ReadOnly);
    var t2 := MapRangeCorrect(first.state, t1, range, frame, ReadOnly);
    RootKept(first.state, t1, second.state, t2);
    MapRangeNeeds(first.state, t.root, range, frame, ReadOnly);
    ExtendedWasFree(first.state.mem, second.state.mem, t.root, dtb);
    FreeIsSeparate(first.state.mem, t.root, spans, dtb);
    MapsExtended(first.state.mem, second.state.mem, t.root, spans, dtb);
    PrepareFixmapNeeds(second.state, t2);
    FixmapIndices();
    FreeIsSeparate(second.state.mem, t.root, spans + [dtb], fix);
    assert spans + [dtb] + [fix] == spans + [dtb, fix];
  }

  lemma {:induction false} NoneShared()
    ensures Separate([])
  {
  }

  /** With frames for two tables a page, `into_kernel` succeeds exactly when the device tree's alias
      fits, every range is aligned, canonical and representable, and no page is asked for twice. */
  lemma {:induction false} IntoKernelExactly(s: State, physicalStart: nat, k: Sections, va: nat, dtb: PhysRange)
    requires Distinct(s.rest) && SectionsValid(AllSections(k)) && dtb.Valid()
    requires DtbMapping(va, dtb).Ok? ==>
               DtbMapping(va, dtb).value.0.Valid() && Available(s.rest, FramesNeeded(k, DtbMapping(va, dtb).value.0))
    ensures IntoKernel(s, physicalStart, k, va, dtb).result.Ok? <==>
            && DtbMapping(va, dtb).Ok?
            && var range, frame := DtbMapping(va, dtb).value.0, DtbMapping(va, dtb).value.1;
            && Mappable(range, frame) && AllMappable(AllSections(k), k.virtualStart, physicalStart)
            && Separate(SectionSpans(AllSections(k), k.virtualStart, physicalStart)
                        + [RangeSpan(range, frame, ReadOnly), FixmapSpan()])
  {
    hide Ready, Clean, Maps, Populate, AllSections, DtbMapping, AllMappable, Mappable, Separate, RangeSpan;
    hide SectionSpans, Available, FramesNeeded;
    if IntoKernel(s, physicalStart, k, va, dtb).result.Ok? {
      var range, frame := DtbMapping(va, dtb).value.0, DtbMapping(va, dtb).value.1;
      var s1, root := AllocateTable(s).state, AllocateTable(s).result.value;
      assert root !in s1.rest;
      EmptyRoot(s1, root);
      PopulateNeeds(s1, Tables(root, {}, {}), physicalStart, k, range, frame);
    }
    if DtbMapping(va, dtb).Ok? {
      var range, frame := DtbMapping(va, dtb).value.0, DtbMapping(va, dtb).value.1;
      if Mappable(range, frame) && AllMappable(AllSections(k), k.virtualStart, physicalStart)
         && Separate(SectionSpans(AllSections(k), k.virtualStart, physicalStart)
                     + [RangeSpan(range, frame, ReadOnly), FixmapSpan()]) {
        IntoKernelSucceeds(s, physicalStart, k, va, dtb);
      }
    }
  }
}
