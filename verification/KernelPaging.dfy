/** The active kernel address space: runtime mappings through the one-page window, each followed by
    a full fence, so that nothing cached is ever stale between operations.
 */
module KernelPaging {
  import opened Memory
  import opened Sv39
  import opened Hart
  import opened PageTable
  import opened Fixmap
  import opened FrameAccess
  import opened BootAllocator

  lemma {:induction false} CoherentStill(root: nat, mem: Mem, tlb: Tlb, mem': Mem, tlb': Tlb)
    requires Coherent(mem, root, tlb) && NoNewStale(root, mem, tlb, mem', tlb') && SameWalks(mem, mem', root)
    ensures Coherent(mem', root, tlb')
  {
  }

  // ----- Runtime mappings as functions on memory

  function InstallPage(s: State, root: nat, va: nat, frame: nat, permissions: Permissions): Step<()> {
    if va < HIGH_HALF_BASE then Step(s, Err(VirtualAddressNotKernel))
    else if va == FIXMAP_FRAME_BASE then Step(s, Err(ReservedVirtualPage))
    else MapPage(s, root, va, frame, permissions, false)
  }

  function MapKernelPage(s: State, root: nat, claimed: bool, va: nat, frame: nat, permissions: Permissions): Step<()> {
    if claimed && HEAP_START <= va < HEAP_END then Step(s, Err(ReservedVirtualPage))
    else InstallPage(s, root, va, frame, permissions)
  }

  function MapUserPage(s: State, root: nat, va: nat, frame: nat, permissions: Permissions): Step<()> {
    if !(FRAME_SIZE <= va < LOW_HALF_END) then Step(s, Err(VirtualAddressNotUser))
    else MapPage(s, root, va, frame, permissions, true)
  }

  function ZeroFrame(s: State, frame: nat): Step<()> {
    if frame >= PPN_LIMIT then Step(s, Err(PhysicalAddressNotRepresentable))
    else Step(s.(mem := s.mem[frame := Zeros()]), Ok(()))
  }

  /** `KernelHeapBacking::map_page`: a fresh zeroed frame at one page of the claimed heap. */
  function BackHeapPage(s: State, root: nat, claimed: bool, va: nat): Step<()> {
    if !claimed || !(HEAP_START <= va < HEAP_END) then Step(s, Err(ReservedVirtualPage))
    else if va % FRAME_SIZE != 0 then Step(s, Err(VirtualAddressNotPageAligned))
    else if s.rest == [] then Step(s, Err(OutOfPhysicalFrames))
    else
      var zeroed := ZeroFrame(s.(rest := s.rest[1..]), s.rest[0]);
      if zeroed.result.Err? then zeroed else InstallPage(zeroed.state, root, va, s.rest[0], ReadWrite)
  }

  // ----- The address space

  class KernelPaging {
    const access: FrameAccess
    var heapClaimed: bool

    /** `activate_root`: the hart starts over with the new root and no cached translation. */
    constructor (mem: Mem, root: nat, fixmap: nat, ghost tables: Tables)
      ensures fresh(access) && fresh(access.hart) && Root() == root && access.window == OnePage(root, fixmap)
      ensures access.hart.mem == mem && access.tables == tables
      ensures !heapClaimed && Coherent(mem, root, access.hart.tlb)
    {
      var hart := new Hart(mem, root);
      ExactIsCoherent(mem, root, hart.tlb);
      access := new FrameAccess(hart, OnePage(root, fixmap), tables);
      heapClaimed := false;
    }

    function Root(): nat {
      access.hart.root
    }

    /** Memory and allocator as the plain operations see them. */
    ghost function View(frames: BootFrameAllocator): State
      reads access.hart, frames
    {
      access.View(frames)
    }

    /** The state between operations: nothing cached is stale. */
    ghost predicate Valid(frames: BootFrameAllocator)
      reads access, access.hart, frames
    {
      && access.window.OnePage? && access.Building(frames)
      && Coherent(access.hart.mem, Root(), access.hart.tlb)
    }

    /** An entry of the root, read through the window. */
    method ReadRootEntry(index: nat, frames: BootFrameAllocator) returns (entry: nat)
      requires Valid(frames) && index < ENTRIES
      modifies access.hart
      ensures Valid(frames) && access.hart.mem == old(access.hart.mem)
      ensures ReadEntry(access.hart.mem, Root(), index) == Ok(entry)
    {
      RootIsTable(View(frames), access.tables, access.window);
      SameWalksSelf(access.hart.mem, Root());
      hide Tree, Ready, Arranged, BackedByRam, Stale, NoNewStale, Coherent, SameWalks;
      hide BootFrameAllocator.Valid, BootFrameAllocator.Remaining;
      var read := access.ReadTableEntry(Root(), index);
      CoherentStill(Root(), old(access.hart.mem), old(access.hart.tlb), access.hart.mem, access.hart.tlb);
      entry := read.value;
    }

    /** `install_page`, synchronized even after partial failure. */
    method Install(va: nat, frame: nat, permissions: Permissions, frames: BootFrameAllocator) returns (r: Result<()>)
      requires Valid(frames)
      modifies access, access.hart, frames
      ensures Valid(frames)
      ensures Step(View(frames), r) == InstallPage(old(View(frames)), Root(), va, frame, permissions)
    {
      hide Tree, Ready, Grown, Arranged, BackedByRam, MapPage, Stale, Window.Current;
      if va < HIGH_HALF_BASE {
        return Err(VirtualAddressNotKernel);
      }
      if va == FIXMAP_FRAME_BASE {
        return Err(ReservedVirtualPage);
      }
      r := access.MapOnePage(Root(), va, frame, permissions, false, frames);
      access.hart.FlushAll();
      CoherentIsCurrent(access.window, access.hart.mem, access.hart.tlb);
    }

    /** `KernelPaging::map_page`. */
    method MapKernel(va: nat, frame: nat, permissions: Permissions, frames: BootFrameAllocator) returns (r: Result<()>)
      requires Valid(frames)
      modifies access, access.hart, frames
      ensures Valid(frames)
      ensures Step(View(frames), r) == MapKernelPage(old(View(frames)), Root(), heapClaimed, va, frame, permissions)
    {
      hide Valid, InstallPage, View;
      if heapClaimed && HEAP_START <= va < HEAP_END {
        return Err(ReservedVirtualPage);
      }
      r := Install(va, frame, permissions, frames);
    }

    /** `map_user_page`, synchronized even after partial failure. */
    method MapUser(va: nat, frame: nat, permissions: Permissions, frames: BootFrameAllocator) returns (r: Result<()>)
      requires Valid(frames)
      modifies access, access.hart, frames
      ensures Valid(frames)
      ensures Step(View(frames), r) == MapUserPage(old(View(frames)), Root(), va, frame, permissions)
    {
      hide Tree, Ready, Grown, Arranged, BackedByRam, MapPage, Stale, Window.Current;
      if !(FRAME_SIZE <= va < LOW_HALF_END) {
        return Err(VirtualAddressNotUser);
      }
      NotTheWindow(va);
      r := access.MapOnePage(Root(), va, frame, permissions, true, frames);
      access.hart.FlushAll();
      CoherentIsCurrent(access.window, access.hart.mem, access.hart.tlb);
    }

    /** Takes a frame off the allocator: it is RAM outside every table. */
    method TakeFrame(frames: BootFrameAllocator) returns (frame: Option<nat>)
      requires Valid(frames)
      modifies frames
      ensures Valid(frames)
      ensures frame.None? <==> old(frames.Remaining()) == []
      ensures frame.None? ==> View(frames) == old(View(frames))
      ensures frame.Some? ==>
                && frame.value == old(frames.Remaining())[0]
                && View(frames) == old(View(frames)).(rest := old(frames.Remaining())[1..])
                && frame.value !in access.tables.All() && IsTable(access.hart.mem, frame.value)
    {
      TakeFacts(View(frames), access.tables);
      hide Tree, Ready, Arranged, BackedByRam, Stale, Coherent, BootFrameAllocator.Valid, BootFrameAllocator.Remaining;
      frame := frames.Allocate();
    }

    /** `zero_frame` and the copying closure of the image loader: writes a whole frame that
        is no table, through the window. */
    method WriteFrame(frame: nat, words: seq<nat>, frames: BootFrameAllocator) returns (r: Result<()>)
      requires Valid(frames) && frame !in access.tables.All() && |words| == ENTRIES
      modifies access.hart
      ensures Valid(frames)
      ensures r == (if frame < PPN_LIMIT then Ok(()) else Err(PhysicalAddressNotRepresentable))
      ensures access.hart.mem == (if r.Ok? then old(access.hart.mem)[frame := words] else old(access.hart.mem))
    {
      WriteFacts(View(frames), access.tables, frame, words);
      SameWalksSelf(access.hart.mem, Root());
      hide Tree, Ready, Arranged, BackedByRam, Stale, NoNewStale, Coherent, SameWalks;
      hide BootFrameAllocator.Valid, BootFrameAllocator.Remaining;
      r := access.FillFrame(frame, words);
      CoherentStill(Root(), old(access.hart.mem), old(access.hart.tlb), access.hart.mem, access.hart.tlb);
    }

    /** `KernelHeapBacking::map_page`. */
    method BackHeap(va: nat, frames: BootFrameAllocator) returns (r: Result<()>)
      requires Valid(frames)
      modifies access, access.hart, frames
      ensures Valid(frames)
      ensures Step(View(frames), r) == BackHeapPage(old(View(frames)), Root(), heapClaimed, va)
    {
      hide Valid, InstallPage, BootFrameAllocator.Remaining;
      if !heapClaimed || !(HEAP_START <= va < HEAP_END) {
        return Err(ReservedVirtualPage);
      }
      if va % FRAME_SIZE != 0 {
        return Err(VirtualAddressNotPageAligned);
      }
      var frame := TakeFrame(frames);
      if frame.None? {
        return Err(OutOfPhysicalFrames);
      }
      var zeroed := WriteFrame(frame.value, Zeros(), frames);
      if zeroed.Err? {
        return Err(zeroed.error);
      }
      r := Install(va, frame.value, ReadWrite, frames);
    }
  }

  lemma {:induction false} CoherentIsCurrent(w: Window, mem: Mem, tlb: Tlb)
    requires w.OnePage? && Coherent(mem, w.root, tlb)
    ensures w.Current(mem, tlb)
  {
    FixmapIndices();
    assert CONTROL_PAGE < PAGE_LIMIT;
  }

  lemma {:induction false} RootIsTable(s: State, t: Tables, w: Window)
    requires Ready(s, t) && w.OnePage? && w.Apart(t, s.rest)
    ensures IsTable(s.mem, w.root) && w.root < PPN_LIMIT && w.root != w.fixmap
  {
  }

  lemma {:induction false} NotTheWindow(va: nat)
    requires va < LOW_HALF_END
    ensures va != FIXMAP_FRAME_BASE
  {
    assert FIXMAP_FRAME_BASE == 0xFFFF_FFFF_7FE0_1000;
  }
}
