/** Kernel activity maps no user page: from a sound state with an empty lower half, every operation
    that is not a user mapping leaves it empty.
 */
module LowerHalf {
  import opened Memory
  import opened Sv39
  import opened PageTable
  import opened Fixmap
  import opened KernelPaging
  import opened Heap
  import opened System
  import opened UserPage

  ghost predicate NoUserPage(mem: Mem, root: nat) {
    forall p :: 0 <= p < HIGH_PAGE ==> Walk(mem, root, p) == Fault
  }

  lemma {:induction false} HighPage(va: nat)
    requires HIGH_HALF_BASE <= va < U64
    ensures PageOf(va) >= HIGH_PAGE
  {
    var q := va / FRAME_SIZE;
    assert 0xF_FFFF_FC00_0000 <= q < 0x10_0000_0000_0000;
    HighRemainder(q);
  }

  /** Operations that do not map user pages. */
  predicate KernelOp(op: Op) {
    !op.MapUser? && !op.LoadUserPage?
  }

  predicate KernelOps(ops: seq<Op>) {
    forall k :: 0 <= k < |ops| ==> KernelOp(ops[k])
  }

  lemma {:induction false} LowerKept(mem: Mem, mem': Mem, root: nat, va: nat)
    requires NoUserPage(mem, root) && HIGH_HALF_BASE <= va < U64
    requires forall q :: 0 <= q < PAGE_LIMIT && q != PageOf(va) ==> Walk(mem', root, q) == Walk(mem, root, q)
    ensures NoUserPage(mem', root)
  {
    HighPage(va);
    hide Walk, PageOf;
  }

  lemma {:induction false} SameLower(mem: Mem, mem': Mem, root: nat)
    requires NoUserPage(mem, root) && SameWalks(mem, mem', root)
    ensures NoUserPage(mem', root)
  {
    hide Walk;
  }

  /** Growing the heap maps no user page. */
  lemma {:induction false} BackToKeepsLower(s: State, root: nat, fixmap: nat, tokens: set<nat>, t: Tables,
                                            pool: set<nat>,
                                            bottom: nat, target: nat)
    requires SoundTables(s, root, fixmap, tokens, t, pool) && HeapBacked(s.mem, root, bottom, pool)
    requires HEAP_START <= target && HEAP_START <= bottom <= HEAP_END && NoUserPage(s.mem, root)
    requires bottom % FRAME_SIZE == 0 && target % FRAME_SIZE == 0
    ensures NoUserPage(BackTo(s, root, true, bottom, target).state.mem, root)
    decreases bottom
  {
    hide SoundTables, HeapBacked, BackHeapPage, Contains, NoUserPage, Walk, PageOf, LeafFlags;
    if bottom > target {
      var va := bottom - FRAME_SIZE;
      var t' := BackPageSound(s, root, fixmap, tokens, t, pool, bottom);
      var step := BackHeapPage(s, root, true, va);
      LowerKept(s.mem, step.state.mem, root, va);
      if step.result.Ok? {
        BackToKeepsLower(step.state, root, fixmap, tokens, t', pool, va, target);
      }
    }
  }

  lemma {:induction false} MapKernelKeepsLower(sys: System, t: Tables, pool: set<nat>, va: nat, frame: nat,
                                               permissions: Permissions)
    requires SoundWith(sys, t, pool) && frame in sys.tokens && NoUserPage(sys.s.mem, sys.root)
    ensures NoUserPage(MapKernelPage(sys.s, sys.root, sys.claimed, va, frame, permissions).state.mem, sys.root)
  {
    hide SoundTables, GoodHeap, MapPage, NoUserPage, Walk, PageOf, LeafFlags, SameWalks;
    if HIGH_HALF_BASE <= va && va != FIXMAP_FRAME_BASE && !(sys.claimed && HEAP_START <= va < HEAP_END) {
      var t' := MapKeepsTables(sys.s, sys.root, sys.fixmap, sys.tokens, t, pool, va, frame, permissions, false);
      var step := MapPage(sys.s, sys.root, va, frame, permissions, false);
      if step.result.Ok? {
        LowerKept(sys.s.mem, step.state.mem, sys.root, va);
      } else {
        SameLower(sys.s.mem, step.state.mem, sys.root);
      }
    }
  }

  lemma {:induction false} HeapKeepsLower(sys: System, t: Tables, pool: set<nat>, op: Op)
    requires SoundWith(sys, t, pool) && Enabled(sys, op) && (op.ClaimHeap? || op.HeapAllocate?)
    requires NoUserPage(sys.s.mem, sys.root)
    ensures NoUserPage(Apply(sys, op).s.mem, sys.root)
  {
    hide HeapBacked, BackTo, NoUserPage, PlaceBlock;
    HeapBounds();
    if op.ClaimHeap? {
      if !sys.claimed && sys.s.mem[sys.root][HEAP_INDEX] == 0 {
        EmptySlotHeap(sys.s.mem, sys.root, pool);
        hide SoundTables, Walk;
        BackToKeepsLower(sys.s, sys.root, sys.fixmap, sys.tokens, t, pool, HEAP_END, HEAP_END - FRAME_SIZE);
      }
    } else {
      hide SoundTables, Walk;
      var heap := sys.heap.value;
      var address := PlaceBlock(heap.start, heap.cursor, op.size, op.align);
      if op.size > 0 && address.Some? && address.value != 0 {
        PlaceBlockExact(heap.start, heap.cursor, op.size, op.align);
        TargetInHeap(address.value);
        BackToKeepsLower(sys.s, sys.root, sys.fixmap, sys.tokens, t, pool, heap.mapped, AlignDown(address.value));
      }
    }
  }

  lemma {:induction false} StepKeepsLower(sys: System, op: Op, pool: set<nat>)
    requires Sound(sys, pool) && Enabled(sys, op) && KernelOp(op) && NoUserPage(sys.s.mem, sys.root)
    ensures NoUserPage(Apply(sys, op).s.mem, sys.root) && Apply(sys, op).root == sys.root
  {
    hide SoundWith, SoundTables, GoodHeap, NoUserPage, MapKernelPage, ClaimReservation, AllocateBlock, SameWalks, Walk;
    hide Storable, LoadPage, SetEntry;
    var t :| SoundWith(sys, t, pool);
    match op
    case TakeFrame =>
    case WriteFrame(frame, words) =>
      SoundParts(sys, t, pool);
      WriteKeepsTables(sys.s, sys.root, sys.fixmap, sys.tokens, t, pool, frame, words);
      SameLower(sys.s.mem, sys.s.mem[frame := words], sys.root);
    case MapKernel(va, frame, permissions) => MapKernelKeepsLower(sys, t, pool, va, frame, permissions);
    case ClaimHeap => HeapKeepsLower(sys, t, pool, op);
    case HeapAllocate(_, _) => HeapKeepsLower(sys, t, pool, op);
    case MapUser(_, _, _) =>
    case LoadUserPage(_, _, _) =>
    case Store(va, word, user) =>
      StoreIsolated(sys, t, pool, va, word, user);
      SameLower(sys.s.mem, Apply(sys, op).s.mem, sys.root);
  }

  lemma {:induction false} RunKeepsLower(sys: System, ops: seq<Op>, pool: set<nat>)
    requires Sound(sys, pool) && Runnable(sys, ops) && KernelOps(ops) && NoUserPage(sys.s.mem, sys.root)
    ensures NoUserPage(Run(sys, ops).s.mem, sys.root) && Run(sys, ops).root == sys.root
    decreases |ops|
  {
    if ops != [] {
      hide Sound, Apply, Enabled, NoUserPage, KernelOp;
      assert KernelOp(ops[0]);
      StepSound(sys, ops[0], pool);
      StepKeepsLower(sys, ops[0], pool);
      RunKeepsLower(Apply(sys, ops[0]), ops[1..], pool);
    }
  }
}
