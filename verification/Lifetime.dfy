/** From the free frames of the boot allocator through `into_kernel`, any kernel activity after it,
    and the loading of the initial process.
 */
module Lifetime {
  import opened Memory
  import opened Sv39
  import opened PageTable
  import opened Fixmap
  import FA = FrameAccess
  import opened KernelPaging
  import opened Heap
  import opened FrameUse
  import opened System
  import opened LowerHalf
  import opened Loader
  import opened KernelSpace
  import BA = BootAllocator

  /** What the boot layout promises: image and device tree are reserved, sections lie in the image,
      sections and alias in the upper half, and the free frames are RAM. */
  ghost predicate BootLayout(mem: Mem, ranges: seq<PhysRange>, reserved: seq<PhysRange>, image: PhysRange,
                             dtb: PhysRange, physicalStart: nat, k: Sections, va: nat) {
    && BA.Disjoint(ranges) && image in reserved && dtb in reserved && dtb.Valid()
    && FA.BackedByRam(mem, BA.FreeFrames(ranges, reserved)) && SectionsValid(AllSections(k))
    && (forall i :: 0 <= i < |AllSections(k)| ==>
          && InImage(AllSections(k)[i].range, k.virtualStart, physicalStart, image)
          && AllSections(k)[i].range.start >= HIGH_HALF_BASE)
    && va >= HIGH_HALF_BASE
  }

  /** The whole way from boot to the first process. After `into_kernel` and any kernel activity,
      successful or not, that has claimed the heap, starting a process keeps the system sound, over
      frames that touch nothing reserved. A success has a kernel stack that user code cannot reach
      and shows user code exactly the image and its stack; a stack that fits and three frames a page
      are enough for it. */
  lemma {:induction false} BootToProcess(mem: Mem, ranges: seq<PhysRange>, reserved: seq<PhysRange>, image: PhysRange,
                                         dtb: PhysRange, physicalStart: nat, k: Sections, va: nat, ops: seq<Op>,
                                         program: Image)
    requires BootLayout(mem, ranges, reserved, image, dtb, physicalStart, k, va)
    requires var step := IntoKernel(State(mem, BA.FreeFrames(ranges, reserved)), physicalStart, k, va, dtb);
             && step.result.Ok? && Runnable(Started(step.state, step.result.value), ops)
             && Run(Started(step.state, step.result.value), ops).heap.Some?
    requires KernelOps(ops) && Loadable(program, IMAGE_LIMIT)
    ensures AllRequests(Requests(program))
    ensures var free := BA.FreeFrames(ranges, reserved);
            var step := IntoKernel(State(mem, free), physicalStart, k, va, dtb);
            var sys := Run(Started(step.state, step.result.value), ops);
            var load := InitLoad(sys.s, sys.root, sys.claimed, sys.heap.value, program);
            && Sound(Moved(sys, load.state, load.heap), set f | f in free)
            && (forall f :: f in free ==> BA.Unreserved(f, reserved))
            && (load.result.Loaded? ==> ProcessImage(load.state.mem, sys.root, program)
                                        && load.result.value.image == program
                                        && Enterable(load.state.mem, sys.root, load.result.value)
                                        && KernelStackOk(load.state.mem, sys.root, load.result.value.stack))
            && (Supplied(sys.s.rest, sys.heap.value, program) ==> load.result.Loaded?)
  {
    hide Sound, IntoKernel, AllSections, InImage, Runnable, Run, BA.FreeFrames, NoUserPage, ProcessImage, InitLoad;
    hide Requests, AllRequests, Loadable, Supplied, FA.BackedByRam, BA.Unreserved, KernelOps, KernelStackOk, Moved;
    hide Enterable;
    RequestsDistinct(program);
    var free := BA.FreeFrames(ranges, reserved);
    var pool := set f | f in free;
    var step := IntoKernel(State(mem, free), physicalStart, k, va, dtb);
    var start := Started(step.state, step.result.value);
    RunNothing(start);
    LifetimeSound(mem, ranges, reserved, image, dtb, physicalStart, k, va, []);
    LifetimeSound(mem, ranges, reserved, image, dtb, physicalStart, k, va, ops);
    BA.FreeFramesDistinct(ranges, reserved);
    FreeDistinct(free);
    LowerEmpty(State(mem, free), physicalStart, k, va, dtb);
    RunKeepsLower(start, ops, pool);
    var sys := Run(start, ops);
    InitSound(sys, pool, program);
    InitCorrect(sys, pool, program);
  }

  lemma {:induction false} RunNothing(sys: System)
    ensures Runnable(sys, []) && Run(sys, []) == sys
  {
  }

  lemma {:induction false} FreeDistinct(free: seq<nat>)
    requires BA.NoDuplicates(free)
    ensures Distinct(free)
  {
  }

  lemma {:induction false} LowerEmpty(s: State, physicalStart: nat, k: Sections, va: nat, dtb: PhysRange)
    requires Distinct(s.rest) && SectionsValid(AllSections(k)) && dtb.Valid()
    requires IntoKernel(s, physicalStart, k, va, dtb).result.Ok?
    requires forall i :: 0 <= i < |AllSections(k)| ==> AllSections(k)[i].range.start >= HIGH_HALF_BASE
    requires va >= HIGH_HALF_BASE
    ensures var step := IntoKernel(s, physicalStart, k, va, dtb); NoUserPage(step.state.mem, step.result.value.root)
  {
    hide Walk, IntoKernel, AllSections;
    LowerHalfEmpty(s, physicalStart, k, va, dtb);
  }
}
