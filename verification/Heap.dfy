/** The downward-growing kernel heap: block placement, page backing, and the class that
    allocates blocks from the claimed range.
 */
module Heap {
  import opened Memory
  import opened Sv39
  import opened PageTable
  import opened Fixmap
  import opened KernelPaging
  import opened BootAllocator

  datatype HeapError = InvalidRange | ZeroSizedAllocation | Exhausted | Backing(error: PagingError)

  datatype HeapResult<+T> = Done(value: T) | Failed(error: HeapError)

  /** Memory and the lower end of the backed suffix after an operation. */
  datatype HeapStep<+T> = HeapStep(state: State, mapped: nat, result: HeapResult<T>)

  // ----- Placement

  /** The address of the next block, if one fits below the cursor. */
  function PlaceBlock(start: nat, cursor: nat, size: nat, align: nat): Option<nat>
    requires align > 0
  {
    if size > cursor then None
    else
      var address := (cursor - size) - (cursor - size) % align;
      if address < start then None else Some(address)
  }

  /** Whether a block at `address` is aligned and lies between `start` and `cursor`. */
  predicate Fits(start: nat, cursor: nat, size: nat, align: nat, address: nat)
    requires align > 0
  {
    address % align == 0 && start <= address && address + size <= cursor
  }

  /** Placement finds the highest block that fits, and fails exactly when none does. */
  lemma {:induction false} PlaceBlockExact(start: nat, cursor: nat, size: nat, align: nat)
    requires align > 0
    ensures var r := PlaceBlock(start, cursor, size, align);
            && (r.None? <==> forall address :: 0 <= address ==> !Fits(start, cursor, size, align, address))
            && (r.Some? ==> Fits(start, cursor, size, align, r.value))
            && (r.Some? ==>
                  forall address :: 0 <= address && Fits(start, cursor, size, align, address) ==> address <= r.value)
  {
    var r := PlaceBlock(start, cursor, size, align);
    if size <= cursor {
      var highest := (cursor - size) - (cursor - size) % align;
      assert highest % align == 0 by {
        RoundedDown(cursor - size, align);
      }
      forall address | 0 <= address && Fits(start, cursor, size, align, address) ensures address <= highest {
        MultipleBelow(address, cursor - size, align);
      }
      if r.Some? {
        assert Fits(start, cursor, size, align, highest);
      }
    }
  }

  lemma {:induction false} RoundedDown(n: nat, align: nat)
    requires align > 0
    ensures (n - n % align) % align == 0 && n - n % align >= 0
  {
    var q := n / align;
    assert n == q * align + n % align;
    MultipleHasNoRest(q, align);
  }

  lemma {:induction false} MultipleHasNoRest(q: nat, align: nat)
    requires align > 0
    ensures (q * align) % align == 0
  {
    var m, r := (q * align) / align, (q * align) % align;
    assert q * align == m * align + r;
    var gap: int := q - m;
    assert gap * align == r;
    assert gap >= 1 ==> gap * align >= align;
    assert gap <= -1 ==> gap * align + align <= 0;
  }

  lemma {:induction false} Ordered(k: nat, q: nat, align: nat)
    requires k <= q
    ensures k * align <= q * align
  {
    assert q * align == k * align + (q - k) * align;
  }

  lemma {:induction false} MultipleBelow(a: nat, n: nat, align: nat)
    requires align > 0 && a % align == 0 && a <= n
    ensures a <= n - n % align
  {
    var k, q := a / align, n / align;
    assert a == k * align && n == q * align + n % align;
    assert (q + 1) * align == q * align + align;
    if k > q {
      Ordered(q + 1, k, align);
    } else {
      Ordered(k, q, align);
    }
  }

  // ----- Backing

  /** `back_to`: extends the backed suffix downward page by page, keeping progress. */
  function BackTo(s: State, root: nat, claimed: bool, mapped: nat, target: nat): HeapStep<()>
    decreases mapped
  {
    if mapped <= target then HeapStep(s, mapped, Done(()))
    else if mapped < FRAME_SIZE then HeapStep(s, mapped, Failed(Exhausted))
    else
      var step := BackHeapPage(s, root, claimed, mapped - FRAME_SIZE);
      if step.result.Err? then HeapStep(step.state, mapped, Failed(Backing(step.result.error)))
      else BackTo(step.state, root, claimed, mapped - FRAME_SIZE, target)
  }

  /** A heap over `start..end` with its two moving bounds. */
  datatype Heap = Heap(start: nat, end: nat, cursor: nat, mapped: nat) {
    /** Ordered bounds; the backed suffix is whole pages and covers every issued block. */
    predicate Valid() {
      && 0 < start <= mapped <= cursor <= end < U64
      && start % FRAME_SIZE == 0 && end % FRAME_SIZE == 0 && mapped % FRAME_SIZE == 0
    }
  }

  datatype AllocateStep = AllocateStep(state: State, heap: Heap, result: HeapResult<nat>)

  /** `KernelHeap::allocate`. */
  function AllocateBlock(s: State, root: nat, claimed: bool, heap: Heap, size: nat, align: nat): AllocateStep
    requires align > 0
  {
    if size == 0 then AllocateStep(s, heap, Failed(ZeroSizedAllocation))
    else
      var address := PlaceBlock(heap.start, heap.cursor, size, align);
      if address.None? || address.value == 0 then AllocateStep(s, heap, Failed(Exhausted))
      else
        var backed := BackTo(s, root, claimed, heap.mapped, AlignDown(address.value));
        if backed.result.Failed? then
          AllocateStep(backed.state, heap.(mapped := backed.mapped), Failed(backed.result.error))
        else AllocateStep(backed.state, heap.(mapped := backed.mapped, cursor := address.value), Done(address.value))
  }

  lemma {:induction false} BackToBounds(s: State, root: nat, claimed: bool, mapped: nat, target: nat)
    requires mapped % FRAME_SIZE == 0 && target % FRAME_SIZE == 0
    ensures var step := BackTo(s, root, claimed, mapped, target);
            && step.mapped <= mapped && step.mapped % FRAME_SIZE == 0
            && (if target <= mapped then target <= step.mapped else step.mapped == mapped)
            && (step.result.Done? ==> step.mapped <= target)
    decreases mapped
  {
    hide BackHeapPage;
    if mapped > target && mapped >= FRAME_SIZE {
      var step := BackHeapPage(s, root, claimed, mapped - FRAME_SIZE);
      if step.result.Ok? {
        BackToBounds(step.state, root, claimed, mapped - FRAME_SIZE, target);
      }
    }
  }

  /** One `allocate` call: a success issues an aligned block below the old cursor and above
      the range start, entirely inside the backed suffix, and moves the cursor to it; a
      failure leaves the cursor alone. `Exhausted` means exactly that no block fits. */
  lemma {:induction false} AllocateBlockCorrect(s: State, root: nat, claimed: bool, heap: Heap, size: nat, align: nat)
    requires heap.Valid() && align > 0
    ensures var step := AllocateBlock(s, root, claimed, heap, size, align);
            && step.heap.Valid() && step.heap.start == heap.start && step.heap.end == heap.end
            && step.heap.mapped <= heap.mapped
            && (step.result.Done? ==>
                  && size > 0 && Fits(heap.start, heap.cursor, size, align, step.result.value)
                  && step.heap.cursor == step.result.value && step.heap.mapped <= step.result.value)
            && (step.result.Failed? ==> step.heap.cursor == heap.cursor)
            && (size == 0 ==> step == AllocateStep(s, heap, Failed(ZeroSizedAllocation)))
            && (size > 0 ==> (step.result == Failed(Exhausted) <==>
                              forall address :: 0 <= address ==> !Fits(heap.start, heap.cursor, size, align, address)))
  {
    hide BackTo, PlaceBlock, Fits, AlignDown;
    PlaceBlockExact(heap.start, heap.cursor, size, align);
    var address := PlaceBlock(heap.start, heap.cursor, size, align);
    if address.Some? {
      var target := AlignDown(address.value);
      FitsBounds(heap.start, heap.cursor, size, align, address.value);
      BackToBounds(s, root, claimed, heap.mapped, target);
      BackToNotExhausted(s, root, claimed, heap.mapped, target);
    }
  }

  lemma {:induction false} FitsBounds(start: nat, cursor: nat, size: nat, align: nat, address: nat)
    requires align > 0 && start % FRAME_SIZE == 0 && Fits(start, cursor, size, align, address)
    ensures start <= AlignDown(address) <= address && address + size <= cursor
  {
  }

  lemma {:induction false} BackToNotExhausted(s: State, root: nat, claimed: bool, mapped: nat, target: nat)
    requires mapped % FRAME_SIZE == 0
    ensures BackTo(s, root, claimed, mapped, target).result != Failed(Exhausted)
    decreases mapped
  {
    hide BackHeapPage;
    if mapped > target && mapped >= FRAME_SIZE {
      var step := BackHeapPage(s, root, claimed, mapped - FRAME_SIZE);
      if step.result.Ok? {
        BackToNotExhausted(step.state, root, claimed, mapped - FRAME_SIZE, target);
      }
    }
  }

  // ----- Claiming the reservation

  /** `KernelHeap::new`: backs the highest page of a page-aligned range. */
  function NewHeap(s: State, root: nat, claimed: bool, start: nat, end: nat): HeapStep<Heap> {
    if start == 0 || start % FRAME_SIZE != 0 || end % FRAME_SIZE != 0 || end < FRAME_SIZE then
      HeapStep(s, end, Failed(InvalidRange))
    else
      var backed := BackTo(s, root, claimed, end, end - FRAME_SIZE);
      if backed.result.Failed? then HeapStep(backed.state, backed.mapped, Failed(backed.result.error))
      else HeapStep(backed.state, backed.mapped, Done(Heap(start, end, end, backed.mapped)))
  }

  datatype ClaimStep = ClaimStep(state: State, claimed: bool, result: HeapResult<Heap>)

  /** Root-table index of the heap reservation. */
  const HEAP_INDEX: nat := HEAP_START / 0x4000_0000 % 512

  /** `claim_heap`: at most once, and only while the root slot is empty. */
  function ClaimReservation(s: State, root: nat, claimed: bool): ClaimStep {
    if claimed then ClaimStep(s, claimed, Failed(Backing(KernelHeapAlreadyClaimed)))
    else
      var entry := ReadEntry(s.mem, root, HEAP_INDEX);
      if entry.Err? then ClaimStep(s, claimed, Failed(Backing(entry.error)))
      else if entry.value != 0 then ClaimStep(s, claimed, Failed(Backing(RootEntryInUse)))
      else
        var made := NewHeap(s, root, true, HEAP_START, HEAP_END);
        ClaimStep(made.state, true, made.result)
  }

  // ----- The heap object

  class KernelHeap {
    const start: nat
    const end: nat
    var cursor: nat
    var mappedStart: nat

    ghost function View(): Heap
      reads this
    {
      Heap(start, end, cursor, mappedStart)
    }

    constructor (start: nat, end: nat)
      ensures View() == Heap(start, end, end, end)
    {
      this.start, this.end, this.cursor, this.mappedStart := start, end, end, end;
    }

    /** `back_to`. */
    method Back(target: nat, paging: KernelPaging, frames: BootFrameAllocator) returns (r: HeapResult<()>)
      requires paging.Valid(frames)
      modifies this`mappedStart, paging.access, paging.access.hart, frames
      ensures paging.Valid(frames)
      ensures HeapStep(paging.View(frames), mappedStart, r)
              == BackTo(old(paging.View(frames)), paging.Root(), paging.heapClaimed, old(mappedStart), target)
    {
      hide BackHeapPage, KernelPaging.Valid;
      ghost var s0, mapped0 := paging.View(frames), mappedStart;
      while mappedStart > target
        invariant paging.Valid(frames)
        invariant BackTo(paging.View(frames), paging.Root(), paging.heapClaimed, mappedStart, target)
                  == BackTo(s0, paging.Root(), paging.heapClaimed, mapped0, target)
        decreases mappedStart
      {
        if mappedStart < FRAME_SIZE {
          return Failed(Exhausted);
        }
        var page := mappedStart - FRAME_SIZE;
        var backed := paging.BackHeap(page, frames);
        if backed.Err? {
          return Failed(Backing(backed.error));
        }
        mappedStart := page;
      }
      return Done(());
    }

    /** `allocate`. */
    method Allocate(size: nat, align: nat, paging: KernelPaging, frames: BootFrameAllocator)
      returns (r: HeapResult<nat>)
      requires paging.Valid(frames) && View().Valid() && align > 0
      modifies this`cursor, this`mappedStart, paging.access, paging.access.hart, frames
      ensures paging.Valid(frames) && View().Valid()
      ensures AllocateStep(paging.View(frames), View(), r)
              == AllocateBlock(old(paging.View(frames)), paging.Root(), paging.heapClaimed, old(View()), size, align)
    {
      hide BackTo, Fits, PlaceBlock, AlignDown, KernelPaging.Valid, KernelPaging.View;
      AllocateBlockCorrect(paging.View(frames), paging.Root(), paging.heapClaimed, View(), size, align);
      if size == 0 {
        return Failed(ZeroSizedAllocation);
      }
      var address := PlaceBlock(start, cursor, size, align);
      if address.None? || address.value == 0 {
        return Failed(Exhausted);
      }
      var backed := Back(AlignDown(address.value), paging, frames);
      if backed.Failed? {
        return Failed(backed.error);
      }
      cursor := address.value;
      return Done(address.value);
    }
  }

  /** `claim_heap`. */
  method ClaimHeap(paging: KernelPaging, frames: BootFrameAllocator) returns (r: HeapResult<KernelHeap>)
    requires paging.Valid(frames)
    modifies paging.access, paging.access.hart, paging`heapClaimed, frames
    ensures paging.Valid(frames)
    ensures r.Done? ==> fresh(r.value)
    ensures ClaimStep(paging.View(frames), paging.heapClaimed,
                      if r.Done? then Done(r.value.View()) else Failed(r.error))
            == ClaimReservation(old(paging.View(frames)), paging.Root(), old(paging.heapClaimed))
  {
    hide BackHeapPage, BackTo, KernelPaging.Valid;
    if paging.heapClaimed {
      return Failed(Backing(KernelHeapAlreadyClaimed));
    }
    var entry := paging.ReadRootEntry(HEAP_INDEX, frames);
    if entry != 0 {
      return Failed(Backing(RootEntryInUse));
    }
    paging.heapClaimed := true;
    var heap := new KernelHeap(HEAP_START, HEAP_END);
    var backed := heap.Back(HEAP_END - FRAME_SIZE, paging, frames);
    if backed.Failed? {
      return Failed(backed.error);
    }
    return Done(heap);
  }
}
