/** The bootstrap address space: the device-tree window of five 1 GiB leaves, and the construction of
    the kernel's own root one windowed access at a time, up to its activation.
 */
module Bootstrap {
  import opened Memory
  import opened Sv39
  import opened Hart
  import opened PageTable
  import opened Fixmap
  import opened Gigapage
  import opened FrameAccess
  import opened KernelPaging
  import opened BootAllocator
  import opened KernelSpace

  const BOOT_FDT_WINDOW_VPN2: nat := 256
  const BOOT_FDT_WINDOW_GIGAPAGES: nat := 5
  const BOOT_FDT_FLAGS: nat := LeafFlags(ReadOnly, false)

  // ----- The device-tree window

  /** Whether the five entries are free and their regions can be represented. */
  predicate CanMapFdt(mem: Mem, boot: nat, dtb: nat)
    requires IsTable(mem, boot)
  {
    && dtb / FRAME_SIZE < PPN_LIMIT && RegionOf(dtb / FRAME_SIZE) + 4 * GIGA < PPN_LIMIT
    && forall i :: 256 <= i < 256 + BOOT_FDT_WINDOW_GIGAPAGES ==> mem[boot][i] == 0
  }

  /** Exactly the first `n` entries of the window hold consecutive regions; nothing else changed. */
  ghost predicate FdtWindow(mem: Mem, mem': Mem, boot: nat, base: nat, n: nat)
    requires n <= BOOT_FDT_WINDOW_GIGAPAGES
  {
    && IsTable(mem, boot) && IsTable(mem', boot) && mem' == mem[boot := mem'[boot]]
    && (forall k :: 0 <= k < n ==> base + k * GIGA < PPN_LIMIT)
    && forall i :: 0 <= i < ENTRIES ==>
         mem'[boot][i] == if 256 <= i < 256 + n then PageTableEntry(base + (i - 256) * GIGA, BOOT_FDT_FLAGS).value
           else mem[boot][i]
  }

  /** Where the device tree appears: its offset in its region, in the first entry of the window. */
  function FdtAddress(dtb: nat): nat {
    HIGH_HALF_BASE + dtb % 0x4000_0000
  }

  lemma {:induction false} FdtPlace(dtb: nat, i: nat)
    requires dtb % 0x4000_0000 + i < 5 * 0x4000_0000
    ensures var a := dtb % 0x4000_0000 + i;
            var p := 256 * GIGA + a / FRAME_SIZE;
            && FdtAddress(dtb) + i == HIGH_HALF_BASE + a && Canonical(HIGH_HALF_BASE + a)
            && PageOf(HIGH_HALF_BASE + a) == p
            && (256 + a / 0x4000_0000) * GIGA <= p < (256 + a / 0x4000_0000) * GIGA + GIGA
            && (dtb + i) / FRAME_SIZE == RegionOf(dtb / FRAME_SIZE) + a / FRAME_SIZE
  {
    var a := dtb % 0x4000_0000 + i;
    assert HIGH_HALF_BASE == 0xF_FFFF_FC00_0000 * FRAME_SIZE;
    assert (HIGH_HALF_BASE + a) / FRAME_SIZE == 0xF_FFFF_FC00_0000 + a / FRAME_SIZE;
    HighRemainder(0xF_FFFF_FC00_0000 + a / FRAME_SIZE);
    RegionBytes(dtb);
    var base := RegionOf(dtb / FRAME_SIZE);
    assert dtb + i == base * FRAME_SIZE + a;
    assert (base * FRAME_SIZE + a) / FRAME_SIZE == base + a / FRAME_SIZE;
    GigaSplit(a);
  }

  lemma {:induction false} GigaSplit(a: nat)
    ensures a / 0x4000_0000 * GIGA <= a / FRAME_SIZE < a / 0x4000_0000 * GIGA + GIGA
  {
    var k := a / 0x4000_0000;
    assert k * 0x4000_0000 <= a < k * 0x4000_0000 + 0x4000_0000;
  }

  lemma {:induction false} RegionBytes(dtb: nat)
    ensures RegionOf(dtb / FRAME_SIZE) * FRAME_SIZE == dtb - dtb % 0x4000_0000
  {
    var q, k := dtb / FRAME_SIZE, dtb / 0x4000_0000;
    assert q / GIGA == k;
    assert q - q % GIGA == k * GIGA;
  }

  /** Every byte from the start of the device tree to the end of the window is visible at its alias,
      read-only. */
  lemma {:induction false} FdtByte(mem: Mem, mem': Mem, boot: nat, dtb: nat, i: nat)
    requires FdtWindow(mem, mem', boot, RegionOf(dtb / FRAME_SIZE), BOOT_FDT_WINDOW_GIGAPAGES)
    requires dtb % 0x4000_0000 + i < 5 * 0x4000_0000
    ensures WalkAddress(mem', boot, FdtAddress(dtb) + i) == Mapped((dtb + i) / FRAME_SIZE, BOOT_FDT_FLAGS)
  {
    hide LeafFlags, PageOf, Canonical, Walk, PageTableEntry;
    var a := dtb % 0x4000_0000 + i;
    FdtPlace(dtb, i);
    var k := a / 0x4000_0000;
    var base := RegionOf(dtb / FRAME_SIZE);
    assert k < 5 && base + k * GIGA < PPN_LIMIT;
    assert mem'[boot][256 + k] == PageTableEntry(base + (256 + k - 256) * GIGA, BOOT_FDT_FLAGS).value;
    RegionMultiple(base, k);
    RegionLeaf(mem', boot, 256 + k, base + k * GIGA, ReadOnly, 256 * GIGA + a / FRAME_SIZE);
  }

  lemma {:induction false} RegionMultiple(base: nat, k: nat)
    requires base % GIGA == 0
    ensures (base + k * GIGA) % GIGA == 0
  {
  }

  /** Five leaves hold a device tree of any 32-bit size, wherever it starts. Through the root that
      `into_kernel` builds, each of its bytes translates as it did through the window. */
  lemma {:induction false} DtbAgrees(mem: Mem, window: Mem, boot: nat, s: State, physicalStart: nat, k: Sections,
                                     dtb: nat, size: nat, i: nat)
    requires FdtWindow(mem, window, boot, RegionOf(dtb / FRAME_SIZE), BOOT_FDT_WINDOW_GIGAPAGES)
    requires 0 < size < 0x1_0000_0000 && dtb + size < U64 && i < size
    requires Distinct(s.rest) && SectionsValid(AllSections(k))
    requires IntoKernel(s, physicalStart, k, FdtAddress(dtb), PhysRange(dtb, dtb + size)).result.Ok?
    ensures var step := IntoKernel(s, physicalStart, k, FdtAddress(dtb), PhysRange(dtb, dtb + size));
            WalkAddress(step.state.mem, step.result.value.root, FdtAddress(dtb) + i)
            == WalkAddress(window, boot, FdtAddress(dtb) + i)
  {
    hide IntoKernel, WalkAddress, AllSections, FdtWindow, FdtAddress;
    FdtByte(mem, window, boot, dtb, i);
    DtbByte(s, physicalStart, k, FdtAddress(dtb), PhysRange(dtb, dtb + size), i);
  }

  /** The alias always has the page offset that `dtb_page_mapping` asks for, and room above it. */
  lemma {:induction false} AliasFits(dtb: nat, size: nat)
    requires 0 < size < 0x1_0000_0000 && dtb < PPN_LIMIT * FRAME_SIZE
    ensures DtbMapping(FdtAddress(dtb), PhysRange(dtb, dtb + size)).Ok?
  {
    assert FdtAddress(dtb) % FRAME_SIZE == dtb % FRAME_SIZE;
    var end := FdtAddress(dtb) + size + (FRAME_SIZE - 1);
    assert AlignDown(end) > AlignDown(FdtAddress(dtb));
    assert AlignDown(dtb) + FRAME_SIZE < U64;
  }

  /** A device-tree leaf keeps the root flat and the root's own mapping. */
  lemma {:induction false} FdtEntryKept(mem: Mem, boot: nat, index: nat, entry: nat)
    requires BootRoot(mem, boot) && BOOT_FDT_WINDOW_VPN2 <= index < ENTRIES && ZeroOrLeaf(entry)
    ensures BootRoot(SetEntry(mem, boot, index, entry), boot)
    ensures Walk(SetEntry(mem, boot, index, entry), boot, boot) == Walk(mem, boot, boot)
  {
    assert boot / GIGA < 256;
    IdentityKept(mem, SetEntry(mem, boot, index, entry), boot);
  }

  lemma {:induction false} FdtLeaf(base: nat)
    requires base < PPN_LIMIT
    ensures ZeroOrLeaf(PageTableEntry(base, BOOT_FDT_FLAGS).value)
  {
    EncodedLeaf(base, ReadOnly, false);
  }

  /** The root's own page through an exact cache. */
  lemma {:induction false} RootPlace(mem: Mem, boot: nat, tlb: Tlb, index: nat)
    requires BootRoot(mem, boot) && index < ENTRIES && !Stale(mem, boot, tlb, boot)
    ensures var va := RootWord(boot, index);
            && Canonical(va) && va % 8 == 0 && WordIndex(va) == index && PageOf(va) == boot && IsTable(mem, boot)
            && var to := Walk(mem, boot, boot);
            to.Mapped? && to.frame == boot && MayRead(to, false) && MayWrite(to, false)
  {
    IdentityWalk(mem, boot);
    RootAddress(boot, index);
  }

  // ----- The active root

  const SATP_MODE_SV39: nat := 8

  /** The `satp` value that `activate_root` installs. */
  function Satp(root: nat): nat {
    SATP_MODE_SV39 * 0x1000_0000_0000_0000 + root
  }

  function SatpMode(satp: nat): nat {
    satp / 0x1000_0000_0000_0000 % 16
  }

  function SatpRoot(satp: nat): nat {
    satp % PPN_LIMIT
  }

  /** The root found in `satp` is the root that was activated. */
  lemma {:induction false} ActiveRoot(root: nat)
    requires root < PPN_LIMIT
    ensures Satp(root) < U64 && SatpMode(Satp(root)) == SATP_MODE_SV39 && SatpRoot(Satp(root)) == root
  {
    assert 8 * 0x1000_0000_0000_0000 == 8 * 0x1_0000 * PPN_LIMIT;
  }

  /** Who may take over the bootstrap root: the first to ask, and only under Sv39. */
  class BootstrapClaim {
    var claimed: bool

    /** `claim`. A wrong mode is refused before the flag is taken. */
    method Claim(satp: nat, mem: Mem) returns (r: Result<BootstrapPaging>)
      requires SatpMode(satp) == SATP_MODE_SV39 && !claimed ==> BootRoot(mem, SatpRoot(satp))
      modifies this
      ensures r.Ok? <==> SatpMode(satp) == SATP_MODE_SV39 && !old(claimed)
      ensures r.Err? ==>
                r.error == if SatpMode(satp) == SATP_MODE_SV39 then BootstrapPagingAlreadyClaimed
                else UnexpectedAddressTranslationMode(SatpMode(satp))
      ensures claimed == (old(claimed) || r.Ok?)
      ensures r.Ok? ==>
                && fresh(r.value) && fresh(r.value.access) && fresh(r.value.access.hart)
                && r.value.Boot() == SatpRoot(satp) && r.value.access.hart.mem == mem && r.value.Claimed()
    {
      hide BootRoot, BootstrapPaging.Claimed, SatpMode, SatpRoot;
      var mode := SatpMode(satp);
      if mode != SATP_MODE_SV39 {
        return Err(UnexpectedAddressTranslationMode(mode));
      }
      if claimed {
        return Err(BootstrapPagingAlreadyClaimed);
      }
      claimed := true;
      var paging := new BootstrapPaging(mem, SatpRoot(satp));
      return Ok(paging);
    }
  }

  class BootstrapPaging {
    const access: FrameAccess

    /** Takes over the active root, which maps itself and holds nothing but leaves. What the hart has
        cached of it agrees with it. */
    constructor (mem: Mem, boot: nat)
      requires BootRoot(mem, boot)
      ensures fresh(access) && fresh(access.hart) && Boot() == boot && access.hart.mem == mem
      ensures access.window == Region(boot)
      ensures Claimed()
    {
      var hart := new Hart(mem, boot);
      access := new FrameAccess(hart, Region(boot), Tables(boot + 1, {}, {}));
    }

    function Boot(): nat {
      access.hart.root
    }

    /** The capability: the root is usable and nothing cached is out of date. */
    ghost predicate Claimed()
      reads access, access.hart
    {
      access.window.Region? && access.Usable()
    }

    lemma {:induction false} ClaimedIsCoherent()
      requires Claimed()
      ensures Coherent(access.hart.mem, Boot(), access.hart.tlb)
    {
      ExactIsCoherent(access.hart.mem, Boot(), access.hart.tlb);
    }

    // ----- The device-tree window

    method ReadRootEntry(index: nat) returns (entry: nat)
      requires Claimed() && index < ENTRIES
      modifies access.hart`tlb
      ensures Claimed() && entry == access.hart.mem[Boot()][index]
    {
      ClaimedIsCoherent();
      RootPlace(access.hart.mem, Boot(), access.hart.tlb, index);
      hide Walk, BootRoot, Canonical, PageOf, WordIndex;
      entry := access.hart.LoadWord(RootWord(Boot(), index));
      CurrentKept(access.window, access.hart.mem, old(access.hart.tlb), access.hart.mem, access.hart.tlb);
    }

    /** Between two stores of a window: the root stands, and its own page is not stale. */
    ghost predicate Reachable()
      reads access, access.hart
    {
      && access.window == Region(Boot()) && BootRoot(access.hart.mem, Boot())
      && Boot() < HIGH_PAGE && !Stale(access.hart.mem, Boot(), access.hart.tlb, Boot())
    }

    method WriteRootEntry(index: nat, entry: nat)
      requires Reachable() && BOOT_FDT_WINDOW_VPN2 <= index < ENTRIES && ZeroOrLeaf(entry)
      modifies access.hart`mem, access.hart`tlb
      ensures Reachable() && IsTable(old(access.hart.mem), Boot())
      ensures access.hart.mem == SetEntry(old(access.hart.mem), Boot(), index, entry)
    {
      RootPlace(access.hart.mem, Boot(), access.hart.tlb, index);
      FdtEntryKept(access.hart.mem, Boot(), index, entry);
      hide Walk, BootRoot, Canonical, PageOf, WordIndex;
      access.hart.StoreWord(RootWord(Boot(), index), entry);
    }

    /** `map_fdt`: all five entries are checked before the first is written. */
    method MapFdt(dtb: nat) returns (r: Result<nat>)
      requires Claimed()
      modifies access.hart
      ensures Claimed()
      ensures r.Ok? <==> CanMapFdt(old(access.hart.mem), Boot(), dtb)
      ensures r.Err? ==> access.hart.mem == old(access.hart.mem)
      ensures r.Ok? ==> r.value == FdtAddress(dtb)
      ensures r.Ok? ==>
          FdtWindow(old(access.hart.mem), access.hart.mem, Boot(), RegionOf(dtb / FRAME_SIZE),
                    BOOT_FDT_WINDOW_GIGAPAGES)
    {
      hide Walk, IdentityMapped, Flat, Stale, Exact, PageTableEntry, LeafFlags, ZeroOrLeaf;
      ghost var mem := access.hart.mem;
      if dtb / FRAME_SIZE >= PPN_LIMIT {
        return Err(PhysicalAddressNotRepresentable);
      }
      var base := RegionOf(dtb / FRAME_SIZE);
      for k := 0 to BOOT_FDT_WINDOW_GIGAPAGES
        invariant Claimed() && access.hart.mem == mem
        invariant forall i :: 256 <= i < 256 + k ==> mem[Boot()][i] == 0
        invariant k > 0 ==> base + (k - 1) * GIGA < PPN_LIMIT
      {
        var existing := ReadRootEntry(BOOT_FDT_WINDOW_VPN2 + k);
        if existing != 0 {
          return Err(RootEntryInUse);
        }
        if base + k * GIGA >= PPN_LIMIT {
          return Err(PhysicalAddressNotRepresentable);
        }
      }
      ClaimedIsReachable();
      for k := 0 to BOOT_FDT_WINDOW_GIGAPAGES
        invariant Reachable() && FdtWindow(mem, access.hart.mem, Boot(), base, k)
      {
        var entry := PageTableEntry(base + k * GIGA, BOOT_FDT_FLAGS);
        FdtLeaf(base + k * GIGA);
        WriteRootEntry(BOOT_FDT_WINDOW_VPN2 + k, entry.value);
      }
      access.hart.FlushAll();
      return Ok(FdtAddress(dtb));
    }

    lemma {:induction false} ClaimedIsReachable()
      requires Claimed()
      ensures Reachable()
    {
      ClaimedIsCoherent();
    }

    // ----- The kernel's root

    /** Memory and allocator as the plain operations see them. */
    ghost function View(frames: BootFrameAllocator): State
      reads access.hart, frames
    {
      access.View(frames)
    }

    /** `map_range`: the checks, then one page after the other. */
    method MapPageRange(root: nat, range: VirtRange, frame: nat, permissions: Permissions, frames: BootFrameAllocator)
      returns (r: Result<()>)
      requires access.window.Region? && access.Building(frames) && root == access.tables.root && range.Valid()
      modifies access, access.hart, frames
      ensures access.Building(frames) && root == access.tables.root
      ensures Step(View(frames), r) == MapRange(old(View(frames)), root, range, frame, permissions)
    {
      hide FrameAccess.Building, MapPage, MapPages, Grown, BootFrameAllocator.Remaining;
      var start, end := range.start, range.end;
      if start % FRAME_SIZE != 0 {
        return Err(VirtualAddressNotPageAligned);
      }
      if !Canonical(start) || (start < LOW_HALF_END && end > LOW_HALF_END) {
        return Err(VirtualAddressNotCanonical);
      }
      var pageCount := (end - start + FRAME_SIZE - 1) / FRAME_SIZE;
      if frame + pageCount - 1 >= PPN_LIMIT {
        return Err(PhysicalRangeNotRepresentable);
      }
      ghost var whole := MapPages(View(frames), root, start, frame, pageCount, permissions);
      for page := 0 to pageCount
        invariant access.Building(frames) && root == access.tables.root
        invariant MapPages(View(frames), root, start + page * FRAME_SIZE, frame + page, pageCount - page, permissions)
                  == whole
      {
        MapPagesStep(View(frames), root, start + page * FRAME_SIZE, frame + page, pageCount - page, permissions);
        r := access.MapOnePage(root, start + page * FRAME_SIZE, frame + page, permissions, false, frames);
        if r.Err? {
          return;
        }
      }
      MapNoPages(View(frames), root, start + pageCount * FRAME_SIZE, frame + pageCount, permissions);
      return Ok(());
    }

    /** The section loop of `into_kernel`. */
    method MapAllSections(root: nat, list: seq<Section>, virtualStart: nat, physicalStart: nat,
                          frames: BootFrameAllocator)
      returns (r: Result<()>)
      requires access.window.Region? && access.Building(frames) && root == access.tables.root && SectionsValid(list)
      modifies access, access.hart, frames
      ensures access.Building(frames) && root == access.tables.root
      ensures Step(View(frames), r) == MapSections(old(View(frames)), root, list, virtualStart, physicalStart)
    {
      hide FrameAccess.Building, MapRange, MapSections, BootFrameAllocator.Remaining;
      ghost var whole := MapSections(View(frames), root, list, virtualStart, physicalStart);
      assert list[0..] == list;
      for k := 0 to |list|
        invariant access.Building(frames) && root == access.tables.root
        invariant MapSections(View(frames), root, list[k..], virtualStart, physicalStart) == whole
      {
        MapSectionsStep(View(frames), root, list, k, virtualStart, physicalStart);
        var frame := SectionFrame(list[k].range, virtualStart, physicalStart);
        if frame.None? {
          return Err(InvalidKernelSection);
        }
        r := MapPageRange(root, list[k].range, frame.value, list[k].permissions, frames);
        if r.Err? {
          return;
        }
      }
      MapNoSections(View(frames), root, list[|list|..], virtualStart, physicalStart);
      return Ok(());
    }

    /** `prepare_fixmap`. */
    method PrepareControl(root: nat, frames: BootFrameAllocator) returns (r: Result<nat>)
      requires access.window.Region? && access.Building(frames) && root == access.tables.root
      modifies access, access.hart, frames
      ensures access.Building(frames) && root == access.tables.root
      ensures Step(View(frames), r) == PrepareFixmap(old(View(frames)), root)
    {
      hide Ready, BackedByRam, Stale, Distinct, Descend, MapPage, Grown, LeafTable, Window.Reachable, Window.Current;
      hide BootFrameAllocator.Valid, BootFrameAllocator.Remaining;
      FixmapIndices();
      var level0 := access.DescendTo(root, FIXMAP_TABLE_BASE, frames);
      if level0.Err? {
        return level0;
      }
      InLevelZero(View(frames), access.tables, level0.value);
      var existing := access.ReadTableEntry(level0.value, FIXMAP_FRAME_INDEX);
      if existing.value != 0 {
        return Err(PageAlreadyMapped);
      }
      var mapped := access.MapOnePage(root, FIXMAP_TABLE_BASE, level0.value, ReadWrite, false, frames);
      return if mapped.Err? then Err(mapped.error) else level0;
    }

    /** The mappings of `into_kernel` in a new root. */
    method PopulateRoot(root: nat, physicalStart: nat, k: Sections, range: VirtRange, frame: nat,
                        frames: BootFrameAllocator)
      returns (r: Result<nat>)
      requires access.window.Region? && access.Building(frames) && root == access.tables.root
      requires SectionsValid(AllSections(k)) && range.Valid()
      modifies access, access.hart, frames
      ensures access.Building(frames)
      ensures Step(View(frames), r) == Populate(old(View(frames)), root, physicalStart, k, range, frame)
    {
      hide FrameAccess.Building, MapRange, MapSections, PrepareFixmap, AllSections, BootFrameAllocator.Remaining;
      var sections := MapAllSections(root, AllSections(k), k.virtualStart, physicalStart, frames);
      if sections.Err? {
        return Err(sections.error);
      }
      var dtb := MapPageRange(root, range, frame, ReadOnly, frames);
      if dtb.Err? {
        return Err(dtb.error);
      }
      r := PrepareControl(root, frames);
    }

    /** The capability with a closed window and a stock of frames that are not the active root. */
    ghost predicate Stocked(frames: BootFrameAllocator)
      reads access, access.hart, frames
    {
      access.window.Region? && access.Supplied(frames)
    }

    /** `into_kernel`: consumes the bootstrap space and hands over an active kernel space whose
        contents are those of `IntoKernel`. On failure the bootstrap root is as it was and nothing
        cached of it is out of date. */
    method BuildKernel(physicalStart: nat, k: Sections, va: nat, dtb: PhysRange, frames: BootFrameAllocator)
      returns (r: Result<KernelPaging>)
      requires Stocked(frames) && SectionsValid(AllSections(k)) && dtb.Valid()
      modifies access, access.hart, frames
      ensures Claimed() && access.Closed() && frames.Valid()
      ensures Coherent(access.hart.mem, Boot(), access.hart.tlb)
      ensures var step := IntoKernel(old(View(frames)), physicalStart, k, va, dtb);
              && View(frames) == step.state
              && (r.Ok? <==> step.result.Ok?) && (r.Err? ==> r.error == step.result.error)
              && (r.Ok? ==>
                    && fresh(r.value) && r.value.View(frames) == step.state && r.value.Root() == step.result.value.root
                    && r.value.access.window == OnePage(step.result.value.root, step.result.value.fixmap)
                    && !r.value.heapClaimed && r.value.Valid(frames))
    {
      hide Ready, Standing, BackedByRam, Stale, Distinct, AllocateTable, Populate, DtbMapping, AllSections, Maps;
      hide Coherent, KernelPaging.Valid;
      hide BootFrameAllocator.Valid, BootFrameAllocator.Remaining, Tree, Arranged, Mappings, BootRoot, Exact;
      ghost var s := View(frames);
      ghost var t := IntoKernelCorrect(s, physicalStart, k, va, dtb);
      ClaimedIsCoherent();
      var cover := DtbMapping(va, dtb);
      if cover.Err? {
        return Err(cover.error);
      }
      DtbCover(va, dtb);
      var root := access.ZeroedTable(frames);
      ClaimedIsCoherent();
      if root.Err? {
        return Err(root.error);
      }
      FreshRoot(s);
      access.tables := Tables(root.value, {}, {});
      var fixmap := PopulateRoot(root.value, physicalStart, k, cover.value.0, cover.value.1, frames);
      ClaimedIsCoherent();
      if fixmap.Err? {
        return Err(fixmap.error);
      }
      var kernel := Activate(root.value, fixmap.value, t, frames);
      r := Ok(kernel);
    }

    /** `activate_root`: the kernel's root is installed and nothing of the old one stays cached. */
    method Activate(root: nat, fixmap: nat, ghost t: Tables, frames: BootFrameAllocator) returns (kernel: KernelPaging)
      requires Standing(View(frames), t, fixmap) && t.root == root && frames.Valid()
      requires BackedByRam(access.hart.mem, frames.Remaining())
      ensures fresh(kernel) && kernel.View(frames) == View(frames) && kernel.Root() == root
      ensures kernel.access.window == OnePage(root, fixmap) && !kernel.heapClaimed && kernel.Valid(frames)
    {
      hide Ready, Standing, BackedByRam, Stale, Distinct, Coherent, Tree, Arranged;
      hide BootFrameAllocator.Valid, BootFrameAllocator.Remaining;
      kernel := new KernelPaging(access.hart.mem, root, fixmap, t);
      Activated(View(frames), t, fixmap, kernel.access.hart.tlb);
    }
  }

  /** The bootstrap root keeps every translation while the kernel's root is built. */
  lemma {:induction false} BootRootKept(s: State, physicalStart: nat, k: Sections, va: nat, dtb: PhysRange, boot: nat)
    requires Distinct(s.rest) && SectionsValid(AllSections(k)) && dtb.Valid()
    requires BootRoot(s.mem, boot) && boot !in s.rest
    ensures var step := IntoKernel(s, physicalStart, k, va, dtb);
            forall p :: Walk(step.state.mem, boot, p) == Walk(s.mem, boot, p)
  {
    hide IntoKernel, AllSections, Tree, Walk, Flat;
    FlatIsTree(s.mem, boot);
    OldRootKept(s, physicalStart, k, va, dtb, Tables(boot, {}, {}));
  }

  lemma {:induction false} MapSectionsStep(s: State, root: nat, list: seq<Section>, k: nat, virtualStart: nat,
                                           physicalStart: nat)
    requires SectionsValid(list) && k < |list|
    ensures var frame := SectionFrame(list[k].range, virtualStart, physicalStart);
            if frame.None? then MapSections(s, root, list[k..], virtualStart, physicalStart)
              == Step(s, Err(InvalidKernelSection))
            else
              var first := MapRange(s, root, list[k].range, frame.value, list[k].permissions);
              MapSections(s, root, list[k..], virtualStart, physicalStart)
              == if first.result.Err? then first
                 else MapSections(first.state, root, list[k + 1..], virtualStart, physicalStart)
  {
    hide MapRange;
    assert list[k..][1..] == list[k + 1..];
  }

  lemma {:induction false} MapNoSections(s: State, root: nat, list: seq<Section>, virtualStart: nat, physicalStart: nat)
    requires list == []
    ensures MapSections(s, root, list, virtualStart, physicalStart) == Step(s, Ok(()))
  {
  }

  /** A freshly zeroed frame starts an empty tree. */
  /** A standing root can be operated once nothing is cached. */
  lemma {:induction false} Activated(s: State, t: Tables, fixmap: nat, tlb: Tlb)
    requires Standing(s, t, fixmap) && Coherent(s.mem, t.root, tlb)
    ensures !Stale(s.mem, t.root, tlb, CONTROL_PAGE)
    ensures Ready(s, t) && Tree(s.mem, t) && fixmap in t.l0 && Arranged(s.mem, t.root, fixmap)
    ensures IsTable(s.mem, fixmap) && s.mem[fixmap][1] == 0
  {
    FixmapIndices();
    assert CONTROL_PAGE < PAGE_LIMIT;
  }
}
