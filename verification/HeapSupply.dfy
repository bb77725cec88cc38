/** When the heap can grow: three owed frames for each page it has to back.
 */
module HeapSupply {
  import opened Memory
  import opened Sv39
  import opened PageTable
  import opened Fixmap
  import opened KernelPaging
  import opened Heap
  import opened System
  import opened FrameUse

  /** A fresh page of a sound system is mapped with the next owed frame whenever there are two more
      for its tables. */
  lemma {:induction false} FreshPageMaps(s: State, root: nat, fixmap: nat, tokens: set<nat>, t: Tables, pool: set<nat>,
                                         words: seq<nat>, va: nat, permissions: Permissions, user: bool)
    requires SoundTables(s, root, fixmap, tokens, t, pool) && |words| == ENTRIES
    requires va % FRAME_SIZE == 0 && Canonical(va) && Walk(s.mem, root, PageOf(va)) == Fault && Available(s.rest, 3)
    ensures s.rest[0] < PPN_LIMIT
    ensures var step := MapPage(State(s.mem[s.rest[0] := words], s.rest[1..]), root, va, s.rest[0], permissions, user);
            step.result.Ok? && UsedAtMost(s.rest, step.state.rest, 3)
  {
    hide SoundTables, Ready, Clean, Walk, MapPage, UsedAtMost, TablesNeeded, PageOf, Canonical, SameWalks;
    var frame := s.rest[0];
    var filled := State(s.mem[frame := words], s.rest[1..]);
    TakeKeepsTables(s, root, fixmap, tokens, t, pool);
    WriteKeepsTables(s.(rest := s.rest[1..]), root, fixmap, tokens + {frame}, t, pool, frame, words);
    ReadyParts(filled, root, fixmap, tokens + {frame}, t, pool);
    SameFault(s.mem, filled.mem, root, va);
    UsedOne(s.rest);
    hide Available;
    StillAvailable(s.rest, filled.rest, 1, 2);
    NeedsAtMostTwo(filled.mem, root, PageOf(va), filled.rest);
    MapPageSucceedsExactly(filled, t, va, frame, permissions, user);
    MapPageUses(filled, root, va, frame, permissions, user);
    UsedMore(s.rest, filled.rest, MapPage(filled, root, va, frame, permissions, user).state.rest, 1, 2);
  }

  lemma {:induction false} ReadyParts(s: State, root: nat, fixmap: nat, tokens: set<nat>, t: Tables, pool: set<nat>)
    requires SoundTables(s, root, fixmap, tokens, t, pool)
    ensures Ready(s, t) && Clean(s.mem, t) && t.root == root
  {
  }

  lemma {:induction false} SameFault(mem: Mem, mem': Mem, root: nat, va: nat)
    requires SameWalks(mem, mem', root) && Canonical(va) && Walk(mem, root, PageOf(va)) == Fault
    ensures Walk(mem', root, PageOf(va)) == Fault
  {
    PageInRange(va);
    hide Walk, PageOf;
  }

  lemma {:induction false} UsedOne(rest: seq<nat>)
    requires rest != []
    ensures UsedAtMost(rest, rest[1..], 1)
  {
  }

  /** The page just below the backed suffix. */
  lemma {:induction false} NextPageIsFree(mem: Mem, root: nat, bottom: nat, pool: set<nat>)
    requires HeapBacked(mem, root, bottom, pool)
    requires HEAP_START + FRAME_SIZE <= bottom <= HEAP_END && bottom % FRAME_SIZE == 0
    ensures var va := bottom - FRAME_SIZE;
            Canonical(va) && va % FRAME_SIZE == 0 && Walk(mem, root, PageOf(va)) == Fault
  {
    var va := bottom - FRAME_SIZE;
    HeapStart();
    HeapPageOf(va);
    hide Walk, PageOf, AddressOf;
  }

  lemma {:induction false} BackPageSucceeds(s: State, root: nat, fixmap: nat, tokens: set<nat>, t: Tables,
                                            pool: set<nat>, bottom: nat)
    requires SoundTables(s, root, fixmap, tokens, t, pool) && HeapBacked(s.mem, root, bottom, pool)
    requires HEAP_START + FRAME_SIZE <= bottom <= HEAP_END && bottom % FRAME_SIZE == 0 && Available(s.rest, 3)
    ensures var step := BackHeapPage(s, root, true, bottom - FRAME_SIZE);
            step.result.Ok? && UsedAtMost(s.rest, step.state.rest, 3)
  {
    hide SoundTables, HeapBacked, BackHeapPage, MapPage, Walk, PageOf, UsedAtMost, Canonical;
    var va := bottom - FRAME_SIZE;
    NextPageIsFree(s.mem, root, bottom, pool);
    FreshPageMaps(s, root, fixmap, tokens, t, pool, Zeros(), va, ReadWrite, false);
    BackHeapCases(s, root, va);
  }

  /** Backing down over `n` pages succeeds with three frames for each. */
  lemma {:induction false} BackToSucceeds(s: State, root: nat, fixmap: nat, tokens: set<nat>, t: Tables,
                                          pool: set<nat>, bottom: nat, target: nat, n: nat)
    requires SoundTables(s, root, fixmap, tokens, t, pool) && HeapBacked(s.mem, root, bottom, pool)
    requires HEAP_START <= target && HEAP_START <= bottom <= HEAP_END
    requires bottom % FRAME_SIZE == 0 && target % FRAME_SIZE == 0
    requires bottom <= target + n * FRAME_SIZE && Available(s.rest, 3 * n)
    ensures var step := BackTo(s, root, true, bottom, target);
            step.result.Done? && UsedAtMost(s.rest, step.state.rest, 3 * n)
    decreases n
  {
    hide SoundTables, HeapBacked, BackHeapPage, UsedAtMost, Available, Contains, OthersKept;
    if bottom > target {
      var m := n - 1;
      assert n * FRAME_SIZE == m * FRAME_SIZE + FRAME_SIZE && 3 * n == 3 + 3 * m;
      Enough(s.rest, 3, 3 * m);
      BackPageSucceeds(s, root, fixmap, tokens, t, pool, bottom);
      var t' := BackPageSound(s, root, fixmap, tokens, t, pool, bottom);
      var step := BackHeapPage(s, root, true, bottom - FRAME_SIZE);
      StillAvailable(s.rest, step.state.rest, 3, 3 * m);
      BackToSucceeds(step.state, root, fixmap, tokens, t', pool, bottom - FRAME_SIZE, target, m);
      UsedMore(s.rest, step.state.rest, BackTo(s, root, true, bottom, target).state.rest, 3, 3 * m);
    } else {
      UsedNone(s.rest, 3 * n);
    }
  }

  lemma {:induction false} UsedNone(rest: seq<nat>, n: nat)
    ensures UsedAtMost(rest, rest, n)
  {
  }

  /** A block that fits is issued whenever there are three frames for each of the `n` pages that are
      not backed yet. */
  lemma {:induction false} AllocateSucceeds(sys: System, t: Tables, pool: set<nat>, size: nat, align: nat, n: nat)
    requires SoundWith(sys, t, pool) && sys.heap.Some? && size > 0 && align > 0
    requires var heap := sys.heap.value;
             var place := PlaceBlock(heap.start, heap.cursor, size, align);
             place.Some? && heap.mapped <= AlignDown(place.value) + n * FRAME_SIZE
    requires Available(sys.s.rest, 3 * n)
    ensures var step := AllocateBlock(sys.s, sys.root, sys.claimed, sys.heap.value, size, align);
            step.result.Done? && UsedAtMost(sys.s.rest, step.state.rest, 3 * n)
  {
    hide SoundTables, HeapBacked, BackTo, PlaceBlock, UsedAtMost, Available;
    var heap := sys.heap.value;
    var address := PlaceBlock(heap.start, heap.cursor, size, align).value;
    PlaceBlockExact(heap.start, heap.cursor, size, align);
    HeapBounds();
    TargetInHeap(address);
    BackToSucceeds(sys.s, sys.root, sys.fixmap, sys.tokens, t, pool, heap.mapped, AlignDown(address), n);
  }

  /** `claim_heap`, result by result: a second claim and an occupied root slot are refused with nothing
      changed; otherwise the reservation is taken for good, and three frames are enough for its first page.
      The heap is then empty, with its highest page backed. */
  lemma {:induction false} ClaimExactly(sys: System, t: Tables, pool: set<nat>)
    requires SoundWith(sys, t, pool)
    ensures var step := ClaimReservation(sys.s, sys.root, sys.claimed);
            && IsTable(sys.s.mem, sys.root)
            && (sys.claimed ==> step == ClaimStep(sys.s, true, Failed(Backing(KernelHeapAlreadyClaimed))))
            && (!sys.claimed && sys.s.mem[sys.root][384] != 0 ==>
                  step == ClaimStep(sys.s, false, Failed(Backing(RootEntryInUse))))
            && (!sys.claimed && sys.s.mem[sys.root][384] == 0 ==>
                  && step.claimed && (Available(sys.s.rest, 3) ==> step.result.Done?)
                  && (step.result.Done? ==>
                        step.result.value == Heap(0xFFFF_FFE0_0000_0000, 0xFFFF_FFE0_4000_0000,
                                                  0xFFFF_FFE0_4000_0000, 0xFFFF_FFE0_3FFF_F000)))
  {
    hide Walk, SoundTables, GoodHeap, BackTo;
    RootReadable(sys.s, sys.root, sys.fixmap, sys.tokens, t, pool);
    HeapPages();
    HeapBounds();
    if !sys.claimed && sys.s.mem[sys.root][384] == 0 {
      EmptySlotHeap(sys.s.mem, sys.root, pool);
      BackToBounds(sys.s, sys.root, true, HEAP_END, HEAP_END - FRAME_SIZE);
      if Available(sys.s.rest, 3) {
        BackToSucceeds(sys.s, sys.root, sys.fixmap, sys.tokens, t, pool, HEAP_END, HEAP_END - FRAME_SIZE, 1);
      }
    }
  }

  lemma {:induction false} RootReadable(s: State, root: nat, fixmap: nat, tokens: set<nat>, t: Tables, pool: set<nat>)
    requires SoundTables(s, root, fixmap, tokens, t, pool)
    ensures IsTable(s.mem, root) && root < PPN_LIMIT
  {
  }
}
