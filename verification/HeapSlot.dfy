/** The root slot of the heap reservation: construction of the kernel's root leaves it empty unless it is
    asked for a page there, so the heap can be claimed afterwards.
 */
module HeapSlot {
  import opened Memory
  import opened Sv39
  import opened PageTable
  import opened Fixmap
  import FA = FrameAccess
  import opened KernelPaging
  import opened Heap
  import opened System
  import opened HeapSupply
  import opened KernelSpace

  /** A root slot keeps its entry. */
  predicate SlotKept(mem: Mem, mem': Mem, root: nat, slot: nat)
    requires slot < ENTRIES
  {
    IsTable(mem, root) && IsTable(mem', root) && mem'[root][slot] == mem[root][slot]
  }

  lemma {:induction false} RootApart(s: State, t: Tables)
    requires Ready(s, t)
    ensures IsTable(s.mem, t.root) && t.root !in s.rest
    ensures forall f :: f in t.l1 || f in t.l0 ==> f != t.root
  {
    assert t.root in t.All();
  }

  /** `next_table` writes the entry it is asked for, and a fresh table. */
  lemma {:induction false} NextTableSlot(s: State, root: nat, parent: nat, index: nat, slot: nat)
    requires IsTable(s.mem, root) && root !in s.rest && index < ENTRIES && slot < ENTRIES
    requires parent != root || index != slot
    ensures SlotKept(s.mem, NextTable(s, parent, index).state.mem, root, slot)
  {
    hide PageTableEntry, IntermediateFrame, Zeros;
    assert s.rest != [] ==> s.rest[0] in s.rest;
  }

  lemma {:induction false} DescendSlot(s: State, t: Tables, va: nat, slot: nat)
    requires Ready(s, t) && slot < ENTRIES && va / 0x4000_0000 % 512 != slot
    ensures SlotKept(s.mem, Descend(s, t.root, va).state.mem, t.root, slot)
  {
    hide NextTable, Ready, Grown, Links;
    var first := NextTable(s, t.root, va / 0x4000_0000 % 512);
    RootApart(s, t);
    NextTableSlot(s, t.root, t.root, va / 0x4000_0000 % 512, slot);
    var t1 := NextTableCorrect(s, t, t.root, va / 0x4000_0000 % 512);
    if first.result.Ok? {
      RootKept(s, t, first.state, t1);
      RootApart(first.state, t1);
      NotTheRoot(first.state, t1, first.result.value, t.root);
      NextTableSlot(first.state, t.root, first.result.value, va / 0x20_0000 % 512, slot);
    }
  }

  lemma {:induction false} NotTheRoot(s: State, t: Tables, table: nat, parent: nat)
    requires Ready(s, t) && parent == t.root && table in t.Below(parent)
    ensures table != t.root
  {
  }

  lemma {:induction false} MapPageSlot(s: State, t: Tables, va: nat, frame: nat, permissions: Permissions, user: bool,
                                       slot: nat)
    requires Ready(s, t) && Clean(s.mem, t) && slot < ENTRIES && va / 0x4000_0000 % 512 != slot
    ensures SlotKept(s.mem, MapPage(s, t.root, va, frame, permissions, user).state.mem, t.root, slot)
  {
    hide Descend, Ready, Grown, Clean, LeafTable, PageTableEntry, Walk;
    RootApart(s, t);
    if Descend(s, t.root, va).result.Ok? {
      var down := Descend(s, t.root, va);
      DescendSlot(s, t, va, slot);
      var t1 := DescendCorrect(s, t, va);
      RootKept(s, t, down.state, t1);
      ReadyTree(down.state, t1);
      CleanSlot(down.state.mem, t1, PageOf(va));
      RootApart(down.state, t1);
    } else {
      DescendSlot(s, t, va, slot);
    }
  }

  lemma {:induction false} MapPagesSlot(s: State, t: Tables, va: nat, frame: nat, n: nat, permissions: Permissions,
                                        slot: nat)
    requires Ready(s, t) && Clean(s.mem, t) && slot < ENTRIES
    requires forall a :: va <= a < va + n * FRAME_SIZE ==> a / 0x4000_0000 % 512 != slot
    ensures SlotKept(s.mem, MapPages(s, t.root, va, frame, n, permissions).state.mem, t.root, slot)
    decreases n
  {
    hide MapPage, Ready, Grown, Clean;
    RootApart(s, t);
    if n > 0 {
      MoreBytes(va, n);
      MapPageSlot(s, t, va, frame, permissions, false, slot);
      var first := MapPage(s, t.root, va, frame, permissions, false);
      var t1 := MapPageCorrect(s, t, va, frame, permissions, false);
      RootKept(s, t, first.state, t1);
      if first.result.Ok? {
        MapPagesSlot(first.state, t1, va + FRAME_SIZE, frame + 1, n - 1, permissions, slot);
      }
    }
  }

  lemma {:induction false} MoreBytes(va: nat, n: nat)
    requires n > 0
    ensures va + FRAME_SIZE + (n - 1) * FRAME_SIZE == va + n * FRAME_SIZE && va < va + n * FRAME_SIZE
  {
  }

  // ----- The heap's slot

  predicate OutsideHeap(range: VirtRange) {
    range.end <= HEAP_START || HEAP_END <= range.start
  }

  /** An address of the heap's root slot lies in the heap. */
  lemma {:induction false} HeapAddress(a: nat)
    requires Canonical(a) && a / 0x4000_0000 % 512 == 384
    ensures HEAP_START <= a < HEAP_END
  {
    var g := a / 0x4000_0000;
    assert a < LOW_HALF_END ==> g < 256;
    assert a >= HIGH_HALF_BASE ==> 0x3_FFFF_FF00 <= g < 0x4_0000_0000;
    if g >= 0x3_FFFF_FF00 {
      var h := g - 0x3_FFFF_FE00;
      assert 256 <= h < 512 && g == 0x1FF_FFFF * 512 + h;
      assert g % 512 == h;
    }
  }

  /** The whole pages of a range outside the heap are outside it. */
  lemma {:induction false} PagesOutsideHeap(range: VirtRange)
    requires range.Valid() && OutsideHeap(range) && InOneHalf(range.start, range.Pages())
    ensures forall a :: range.start <= a < range.start + range.Pages() * FRAME_SIZE ==> a / 0x4000_0000 % 512 != 384
  {
    RoundedUp(range.end - range.start);
    var n := range.Pages();
    WholeBelow(range.start, n, range.end);
    forall a | range.start <= a < range.start + n * FRAME_SIZE ensures a / 0x4000_0000 % 512 != 384 {
      if a / 0x4000_0000 % 512 == 384 {
        HeapAddress(a);
      }
    }
  }

  /** Rounding up to whole pages does not reach into an aligned range above. */
  lemma {:induction false} WholeBelow(start: nat, n: nat, end: nat)
    requires start % FRAME_SIZE == 0 && start + n * FRAME_SIZE < end + FRAME_SIZE
    ensures end <= HEAP_START ==> start + n * FRAME_SIZE <= HEAP_START
  {
    var q, h := start / FRAME_SIZE, HEAP_START / FRAME_SIZE;
    assert start + n * FRAME_SIZE == (q + n) * FRAME_SIZE && HEAP_START == h * FRAME_SIZE;
  }

  lemma {:induction false} MapRangeSlot(s: State, t: Tables, range: VirtRange, frame: nat, permissions: Permissions)
    requires Ready(s, t) && Clean(s.mem, t) && range.Valid() && OutsideHeap(range)
    ensures SlotKept(s.mem, MapRange(s, t.root, range, frame, permissions).state.mem, t.root, 384)
  {
    hide MapPages, Ready, Clean, Canonical;
    RootApart(s, t);
    if range.start % FRAME_SIZE == 0 && Canonical(range.start)
       && !(range.start < LOW_HALF_END && range.end > LOW_HALF_END) && frame + range.Pages() - 1 < PPN_LIMIT {
      RangeInOneHalf(range);
      PagesOutsideHeap(range);
      MapPagesSlot(s, t, range.start, frame, range.Pages(), permissions, 384);
    }
  }

  predicate AllOutsideHeap(list: seq<Section>) {
    forall i :: 0 <= i < |list| ==> OutsideHeap(list[i].range)
  }

  lemma {:induction false} MapSectionsSlot(s: State, t: Tables, list: seq<Section>, virtualStart: nat,
                                           physicalStart: nat)
    requires Ready(s, t) && Clean(s.mem, t) && SectionsValid(list) && AllOutsideHeap(list)
    ensures SlotKept(s.mem, MapSections(s, t.root, list, virtualStart, physicalStart).state.mem, t.root, 384)
    decreases |list|
  {
    hide MapRange, Ready, Clean, Grown, OutsideHeap, RangeSpan, Extended;
    RootApart(s, t);
    if list != [] {
      var frame := SectionFrame(list[0].range, virtualStart, physicalStart);
      if frame.Some? {
        MapRangeSlot(s, t, list[0].range, frame.value, list[0].permissions);
        var first := MapRange(s, t.root, list[0].range, frame.value, list[0].permissions);
        var t1 := MapRangeCorrect(s, t, list[0].range, frame.value, list[0].permissions);
        RootKept(s, t, first.state, t1);
        if first.result.Ok? {
          MapSectionsSlot(first.state, t1, list[1..], virtualStart, physicalStart);
        }
      }
    }
  }

  lemma {:induction false} PrepareFixmapSlot(s: State, t: Tables)
    requires Ready(s, t) && Clean(s.mem, t)
    ensures SlotKept(s.mem, PrepareFixmap(s, t.root).state.mem, t.root, 384)
  {
    hide Ready, Clean, Grown, Descend, MapPage, Walk, LeafTable, PageOf;
    FixmapGigapage();
    DescendSlot(s, t, FIXMAP_TABLE_BASE, 384);
    var down := Descend(s, t.root, FIXMAP_TABLE_BASE);
    var t1 := DescendCorrect(s, t, FIXMAP_TABLE_BASE);
    RootKept(s, t, down.state, t1);
    if down.result.Ok? {
      MapPageSlot(down.state, t1, FIXMAP_TABLE_BASE, down.result.value, ReadWrite, false, 384);
    }
  }

  lemma {:induction false} FixmapGigapage()
    ensures FIXMAP_TABLE_BASE / 0x4000_0000 % 512 != 384
  {
    assert FIXMAP_TABLE_BASE == 0xFFFF_FFFF_7FE0_0000;
    assert FIXMAP_TABLE_BASE / 0x4000_0000 == 0x3_FFFF_FFFD;
  }

  /** Nothing that `into_kernel` is asked to map lies in the heap. */
  predicate LeavesHeap(k: Sections, va: nat, dtb: PhysRange)
    requires dtb.Valid()
  {
    && AllOutsideHeap(AllSections(k))
    && (DtbMapping(va, dtb).Ok? ==> OutsideHeap(DtbMapping(va, dtb).value.0))
  }

  /** After a successful `into_kernel` on a layout outside the heap, the heap's root slot is empty. */
  lemma {:induction false} HeapSlotEmpty(s: State, physicalStart: nat, k: Sections, va: nat, dtb: PhysRange)
    requires Distinct(s.rest) && SectionsValid(AllSections(k)) && dtb.Valid() && LeavesHeap(k, va, dtb)
    requires IntoKernel(s, physicalStart, k, va, dtb).result.Ok?
    ensures var step := IntoKernel(s, physicalStart, k, va, dtb);
            IsTable(step.state.mem, step.result.value.root) && step.state.mem[step.result.value.root][384] == 0
  {
    hide Ready, Clean, Grown, Maps, Extended, AllSections, DtbMapping, MapSections, MapRange, PrepareFixmap;
    hide AllOutsideHeap, OutsideHeap, Zeros, RangeSpan, SectionSpans;
    var cover := DtbMapping(va, dtb);
    DtbCover(va, dtb);
    FreshRoot(s);
    var s1, root := AllocateTable(s).state, AllocateTable(s).result.value;
    var t1 := Tables(root, {}, {});
    RootApart(s1, t1);
    EmptyEntry(s1.mem, root);
    var list := AllSections(k);
    var s2 := MapSections(s1, root, list, k.virtualStart, physicalStart).state;
    MapSectionsSlot(s1, t1, list, k.virtualStart, physicalStart);
    var t2 := MapSectionsCorrect(s1, t1, list, k.virtualStart, physicalStart, []);
    RootKept(s1, t1, s2, t2);
    var s3 := MapRange(s2, root, cover.value.0, cover.value.1, ReadOnly).state;
    MapRangeSlot(s2, t2, cover.value.0, cover.value.1, ReadOnly);
    var t3 := MapRangeCorrect(s2, t2, cover.value.0, cover.value.1, ReadOnly);
    RootKept(s2, t2, s3, t3);
    PrepareFixmapSlot(s3, t3);
  }

  lemma {:induction false} EmptyEntry(mem: Mem, root: nat)
    requires IsTable(mem, root) && mem[root] == Zeros()
    ensures mem[root][384] == 0
  {
  }

  /** The kernel's first act can be to claim its heap: on a layout outside the heap with three frames left
      after `into_kernel` it gets an empty one, with its highest page backed. */
  lemma {:induction false} HeapClaimed(s: State, physicalStart: nat, k: Sections, va: nat, dtb: PhysRange,
                                       image: PhysRange)
    requires Distinct(s.rest) && FA.BackedByRam(s.mem, s.rest)
    requires SectionsValid(AllSections(k)) && dtb.Valid() && IntoKernel(s, physicalStart, k, va, dtb).result.Ok?
    requires forall i :: 0 <= i < |AllSections(k)| ==>
        InImage(AllSections(k)[i].range, k.virtualStart, physicalStart, image)
    requires Spares(s.rest, image) && Spares(s.rest, dtb) && LeavesHeap(k, va, dtb)
    requires Available(IntoKernel(s, physicalStart, k, va, dtb).state.rest, 3)
    ensures var step := IntoKernel(s, physicalStart, k, va, dtb);
            var sys := Apply(Started(step.state, step.result.value), ClaimHeap);
            sys.claimed && sys.heap == Some(Heap(0xFFFF_FFE0_0000_0000, 0xFFFF_FFE0_4000_0000,
                                                 0xFFFF_FFE0_4000_0000, 0xFFFF_FFE0_3FFF_F000))
  {
    hide IntoKernel, SoundWith, AllSections, InImage, Spares, LeavesHeap, Available, ClaimReservation;
    var step := IntoKernel(s, physicalStart, k, va, dtb);
    StartsSound(s, physicalStart, k, va, dtb, image);
    HeapSlotEmpty(s, physicalStart, k, va, dtb);
    var start, pool := Started(step.state, step.result.value), set f | f in s.rest;
    var t :| SoundWith(start, t, pool);
    ClaimExactly(start, t, pool);
  }
}
