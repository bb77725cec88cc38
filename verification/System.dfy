/** Whole runs of the kernel's memory management: frame allocation, frame contents, user and
    kernel mappings, image loading, the heap claim and heap growth, and stores by user code and the
    kernel through mapped pages, in any order and including steps that fail. `Sound` is what every
    step keeps.
 */
module System {
  import opened Memory
  import opened Sv39
  import opened PageTable
  import opened Fixmap
  import opened FrameAccess
  import opened KernelPaging
  import opened Heap
  import opened UserPage
  import opened BootAllocator

  /** A block issued by the heap. */
  datatype Block = Block(address: nat, size: nat, align: nat)

  /** Memory, allocator, the claim flag and the heap, together with the frames that callers
      hold as `AllocatedFrame` tokens and the heap blocks issued so far. */
  datatype System = System(
    s: State, root: nat, fixmap: nat, claimed: bool, heap: Option<Heap>, tokens: set<nat>, blocks: seq<Block>)

  datatype Op =
    | TakeFrame
    | WriteFrame(frame: nat, words: seq<nat>)
    | MapUser(va: nat, frame: nat, permissions: Permissions)
    | MapKernel(va: nat, frame: nat, permissions: Permissions)
    | ClaimHeap
    | HeapAllocate(size: nat, align: nat)
    | LoadUserPage(va: nat, bytes: seq<nat>, permissions: Permissions)
    | Store(va: nat, word: nat, user: bool)

  /** The translation lets user code, or the kernel, store to this word of RAM. The control page,
      through which the kernel edits its own fixmap, is not for other stores. */
  predicate Storable(mem: Mem, root: nat, va: nat, user: bool) {
    var to := WalkAddress(mem, root, va);
    va % 8 == 0 && MayWrite(to, user) && IsTable(mem, to.frame) && PageOf(va) != CONTROL_PAGE
  }

  /** Frame operations need the frame's token, which mapping consumes. Stores are those that the
      translation permits; a narrower store is one of a word that keeps its other bytes. */
  predicate Enabled(sys: System, op: Op) {
    match op
    case WriteFrame(frame, words) => frame in sys.tokens && |words| == ENTRIES
    case MapUser(_, frame, _) => frame in sys.tokens
    case MapKernel(_, frame, _) => frame in sys.tokens
    case HeapAllocate(_, align) => sys.heap.Some? && align > 0
    case LoadUserPage(_, bytes, _) => |bytes| <= FRAME_SIZE
    case Store(va, word, user) => Storable(sys.s.mem, sys.root, va, user) && word < U64
    case _ => true
  }

  function Apply(sys: System, op: Op): System
    requires Enabled(sys, op)
  {
    match op
    case TakeFrame =>
      if sys.s.rest == [] then sys
      else sys.(s := sys.s.(rest := sys.s.rest[1..]), tokens := sys.tokens + {sys.s.rest[0]})
    case WriteFrame(frame, words) =>
      if frame >= PPN_LIMIT then sys else sys.(s := sys.s.(mem := sys.s.mem[frame := words]))
    case MapUser(va, frame, permissions) =>
      sys.(s := MapUserPage(sys.s, sys.root, va, frame, permissions).state, tokens := sys.tokens - {frame})
    case MapKernel(va, frame, permissions) =>
      sys.(s := MapKernelPage(sys.s, sys.root, sys.claimed, va, frame, permissions).state,
           tokens := sys.tokens - {frame})
    case ClaimHeap =>
      var step := ClaimReservation(sys.s, sys.root, sys.claimed);
      sys.(s := step.state, claimed := step.claimed,
           heap := if step.result.Done? then Some(step.result.value) else sys.heap)
    case HeapAllocate(size, align) =>
      var step := AllocateBlock(sys.s, sys.root, sys.claimed, sys.heap.value, size, align);
      sys.(s := step.state, heap := Some(step.heap),
           blocks := if step.result.Done? then sys.blocks + [Block(step.result.value, size, align)] else sys.blocks)
    case LoadUserPage(va, bytes, permissions) => sys.(s := LoadPage(sys.s, sys.root, va, bytes, permissions).state)
    case Store(va, word, user) =>
      var frame := WalkAddress(sys.s.mem, sys.root, va).frame;
      sys.(s := sys.s.(mem := SetEntry(sys.s.mem, frame, WordIndex(va), word)))
  }

  // ----- What every step keeps

  /** A page, other than the fixmap control page, that translates to an allocatable frame. */
  ghost predicate UsesPool(mem: Mem, root: nat, pool: set<nat>, p: nat) {
    && p < PAGE_LIMIT && p != CONTROL_PAGE
    && Walk(mem, root, p).Mapped? && Walk(mem, root, p).frame in pool
  }

  /** Every allocatable frame is in at most one place: still owed, a table, a token, or mapped
      at one single page. */
  ghost predicate Exclusive(s: State, t: Tables, pool: set<nat>, tokens: set<nat>) {
    && (forall k :: 0 <= k < |s.rest| ==> s.rest[k] in pool)
    && t.All() <= pool
    && (forall f :: f in tokens ==> f in pool && f !in t.All() && f !in s.rest)
    && (forall p :: UsesPool(s.mem, t.root, pool, p) ==>
          var f := Walk(s.mem, t.root, p).frame; f !in s.rest && f !in t.All() && f !in tokens)
    && (forall p, q :: (UsesPool(s.mem, t.root, pool, p) && UsesPool(s.mem, t.root, pool, q)
                        && Walk(s.mem, t.root, p).frame == Walk(s.mem, t.root, q).frame) ==> p == q)
  }

  /** No translation is both writable and executable, writable ones are readable and dirty,
      and user ones lead to allocated frames from the lower half outside the null page. */
  ghost predicate GoodLeaf(p: nat, to: Translation, pool: set<nat>) {
    to.Mapped? ==>
      && !(Has(to.flags, W) && Has(to.flags, X))
      && (Has(to.flags, W) ==> Has(to.flags, R) && Has(to.flags, D))
      && (Has(to.flags, U) ==> 0 < p < HIGH_PAGE && to.frame in pool)
  }

  ghost predicate GoodLeaves(mem: Mem, root: nat, pool: set<nat>) {
    forall p :: 0 <= p < PAGE_LIMIT ==> GoodLeaf(p, Walk(mem, root, p), pool)
  }

  const HEAP_FIRST: nat := PageOf(HEAP_START)
  const HEAP_LIMIT: nat := HEAP_FIRST + 262144

  /** Which heap pages translate: exactly the backed suffix, each supervisor read/write to an
      allocated frame. */
  ghost predicate HeapBacked(mem: Mem, root: nat, bottom: nat, pool: set<nat>) {
    forall p :: HEAP_FIRST <= p < HEAP_LIMIT ==>
      if AddressOf(p) >= bottom
      then
        && Walk(mem, root, p).Mapped? && Walk(mem, root, p).flags == LeafFlags(ReadWrite, false)
        && Walk(mem, root, p).frame in pool
      else Walk(mem, root, p) == Fault
  }

  /** Lower end of the backed suffix. */
  function Bottom(sys: System): nat {
    if sys.heap.Some? then sys.heap.value.mapped else HEAP_END
  }

  /** An issued block is aligned, inside the range, and at or above the cursor. */
  predicate GoodBlock(b: Block, heap: Option<Heap>) {
    && b.size > 0 && b.align > 0 && b.address % b.align == 0
    && heap.Some? && heap.value.cursor <= b.address && b.address + b.size <= HEAP_END
  }

  /** Each block lies below the one issued before it. */
  predicate Stacked(blocks: seq<Block>) {
    forall i, j :: 0 <= i < j < |blocks| ==> blocks[j].address + blocks[j].size <= blocks[i].address
  }

  /** Issued blocks are aligned, inside the range, at or above the cursor, covered by backed
      pages and pairwise disjoint. */
  predicate GoodBlocks(sys: System) {
    Stacked(sys.blocks) && forall k :: 0 <= k < |sys.blocks| ==> GoodBlock(sys.blocks[k], sys.heap)
  }

  ghost predicate GoodHeap(sys: System, pool: set<nat>) {
    && (sys.heap.Some? ==> sys.claimed && sys.heap.value.Valid()
                           && sys.heap.value.start == HEAP_START && sys.heap.value.end == HEAP_END)
    && (sys.claimed ==> HeapBacked(sys.s.mem, sys.root, Bottom(sys), pool))
    && GoodBlocks(sys)
  }

  ghost predicate AllRam(mem: Mem, frames: set<nat>) {
    forall f :: f in frames ==> IsTable(mem, f)
  }

  /** The part of the invariant that does not mention the heap, for table frames `t` and the
      set `pool` of all frames the allocator ever owes. */
  ghost predicate SoundTables(s: State, root: nat, fixmap: nat, tokens: set<nat>, t: Tables, pool: set<nat>) {
    && t.root == root && Ready(s, t) && Clean(s.mem, t) && BackedByRam(s.mem, s.rest)
    && fixmap in t.l0 && Arranged(s.mem, root, fixmap) && s.mem[fixmap][1] == 0
    && Exclusive(s, t, pool, tokens)
    && AllRam(s.mem, pool) && GoodLeaves(s.mem, root, pool)
  }

  ghost predicate SoundWith(sys: System, t: Tables, pool: set<nat>) {
    SoundTables(sys.s, sys.root, sys.fixmap, sys.tokens, t, pool) && GoodHeap(sys, pool)
  }

  ghost predicate Sound(sys: System, pool: set<nat>) {
    exists t :: SoundWith(sys, t, pool)
  }

  // ----- One mapping

  /** Turning owed frames into tables moves no frame into two places. */
  lemma {:induction false} ExclusiveGrown(s: State, t: Tables, s': State, t': Tables, pool: set<nat>, tokens: set<nat>)
    requires Ready(s, t) && Ready(s', t') && Grown(s, t, s', t')
    requires SameWalks(s.mem, s'.mem, t.root) && Exclusive(s, t, pool, tokens)
    ensures Exclusive(s', t', pool, tokens)
  {
    hide Walk, Tree, CONTROL_PAGE;
    forall p ensures UsesPool(s'.mem, t.root, pool, p) <==> UsesPool(s.mem, t.root, pool, p) {
    }
    RestShrinks(s, t, s', t');
  }

  lemma {:induction false} RestShrinks(s: State, t: Tables, s': State, t': Tables)
    requires Grown(s, t, s', t')
    ensures forall f :: f in s'.rest ==> f in s.rest
    ensures forall f :: f in t'.All() ==> f in t.All() || f in s.rest
    ensures forall f :: f in t.All() ==> f in t'.All()
  {
  }

  /** Mapping a token's frame moves it from the tokens to one page. */
  lemma {:induction false} ExclusiveMapped(s: State, t: Tables, s': State, t': Tables, pool: set<nat>, tokens: set<nat>,
                        p: nat, frame: nat, flags: nat)
    requires Ready(s, t) && Ready(s', t') && Grown(s, t, s', t') && p < PAGE_LIMIT
    requires OnlyMapped(s.mem, s'.mem, t.root, p, Mapped(frame, flags)) && frame in tokens
    requires Exclusive(s, t, pool, tokens)
    ensures Exclusive(s', t', pool, tokens - {frame})
  {
    hide Walk, Tree, CONTROL_PAGE;
    forall q | q != p ensures UsesPool(s'.mem, t.root, pool, q) <==> UsesPool(s.mem, t.root, pool, q) {
    }
    RestShrinks(s, t, s', t');
  }

  lemma {:induction false} TablesStayFrames(s: State, t: Tables, s': State, t': Tables)
    requires Tree(s'.mem, t') && Grown(s, t, s', t')
    ensures forall f :: IsTable(s.mem, f) ==> IsTable(s'.mem, f)
  {
    forall f | IsTable(s.mem, f) ensures IsTable(s'.mem, f) {
      if f in t'.All() {
        assert f in t'.Parents() || f in t'.l0;
      }
    }
  }

  /** An entry is its frame and its flags. */
  lemma {:induction false} EntryParts(entry: nat)
    requires entry < 1024 * PPN_LIMIT
    ensures entry == Ppn(entry) * 1024 + Flags(entry)
  {
  }

  /** The fixmap arrangement survives any mapping of another page: the control page keeps its
      translation, and the window's slot is still empty. */
  lemma {:induction false} ArrangementKept(s: State, t: Tables, s': State, t': Tables, fixmap: nat)
    requires Ready(s, t) && Ready(s', t') && Clean(s'.mem, t') && Grown(s, t, s', t')
    requires fixmap in t.l0 && Arranged(s.mem, t.root, fixmap) && s.mem[fixmap][1] == 0
    requires Walk(s'.mem, t.root, CONTROL_PAGE) == Walk(s.mem, t.root, CONTROL_PAGE)
    requires Walk(s'.mem, t.root, WINDOW_PAGE) == Walk(s.mem, t.root, WINDOW_PAGE)
    ensures fixmap in t'.l0 && Arranged(s'.mem, t.root, fixmap) && s'.mem[fixmap][1] == 0
  {
    FixmapIndices();
    ControlWalk(s.mem, t.root, fixmap);
    var v2, v1 := VpnAt(CONTROL_PAGE, 2), VpnAt(CONTROL_PAGE, 1);
    var middle := Ppn(s.mem[t.root][v2]);
    assert Links(s.mem, t.root, v2, middle) && Links(s.mem, middle, v1, fixmap);
    assert middle in t.Parents();
    assert Links(s'.mem, t.root, v2, middle) && Links(s'.mem, middle, v1, fixmap);
    assert IsTable(s'.mem, fixmap) && fixmap in t'.l0;
    assert Path(s'.mem, t.root, CONTROL_PAGE, fixmap);
    PathWalk(s'.mem, t.root, CONTROL_PAGE, fixmap);
    var entry := s'.mem[fixmap][0];
    EntryParts(entry);
    assert s'.mem[fixmap][0] == PageTableEntry(fixmap, WINDOW_FLAGS).value;
    ControlWalk(s'.mem, t.root, fixmap);
    PathWalk(s'.mem, t.root, WINDOW_PAGE, fixmap);
    LinkEntries(0);
    CleanSlot(s'.mem, t', WINDOW_PAGE);
  }

  /** One `map_page` of a token's frame keeps everything but the heap part, and says which
      translation it changed. */
  lemma {:induction false} MapKeepsTables(s: State, root: nat, fixmap: nat, tokens: set<nat>, t: Tables, pool: set<nat>,
                       va: nat, frame: nat, permissions: Permissions, user: bool) returns (t': Tables)
    requires SoundTables(s, root, fixmap, tokens, t, pool) && frame in tokens && va != FIXMAP_FRAME_BASE
    requires user ==> FRAME_SIZE <= va < LOW_HALF_END
    ensures var step := MapPage(s, root, va, frame, permissions, user);
            && SoundTables(step.state, root, fixmap, tokens - {frame}, t', pool)
            && (step.result.Err? ==> SameWalks(s.mem, step.state.mem, root))
            && (step.result.Ok? ==>
                  && Canonical(va) && va % FRAME_SIZE == 0
                  && OnlyMapped(s.mem, step.state.mem, root, PageOf(va), Mapped(frame, LeafFlags(permissions, user))))
  {
    var step := MapPage(s, root, va, frame, permissions, user);
    t' := MapPageCorrect(s, t, va, frame, permissions, user);
    TablesStayFrames(s, t, step.state, t');
    StillBacked(s, step.state);
    ControlIsMapped(s.mem, root, fixmap);
    if step.result.Err? {
      assert Walk(step.state.mem, root, CONTROL_PAGE) == Walk(s.mem, root, CONTROL_PAGE);
      ArrangementKept(s, t, step.state, t', fixmap);
      ExclusiveGrown(s, t, step.state, t', pool, tokens);
      LessExclusive(step.state, t', pool, tokens, frame);
      LeavesSame(s.mem, step.state.mem, root, pool);
    } else {
      NotTheWindowPage(va);
      assert Walk(step.state.mem, root, CONTROL_PAGE) == Walk(s.mem, root, CONTROL_PAGE);
      assert Walk(step.state.mem, root, WINDOW_PAGE) == Walk(s.mem, root, WINDOW_PAGE);
      ArrangementKept(s, t, step.state, t', fixmap);
      ExclusiveMapped(s, t, step.state, t', pool, tokens, PageOf(va), frame, LeafFlags(permissions, user));
      LeavesMapped(s.mem, step.state.mem, root, pool, va, frame, permissions, user);
    }
  }

  lemma {:induction false} ControlIsMapped(mem: Mem, root: nat, fixmap: nat)
    requires Arranged(mem, root, fixmap)
    ensures Walk(mem, root, CONTROL_PAGE).Mapped?
    ensures CONTROL_PAGE < PAGE_LIMIT && WINDOW_PAGE < PAGE_LIMIT
  {
    ControlWalk(mem, root, fixmap);
  }

  lemma {:induction false} NotTheWindowPage(va: nat)
    requires Canonical(va) && va % FRAME_SIZE == 0 && va != FIXMAP_FRAME_BASE
    ensures PageOf(va) != WINDOW_PAGE
  {
    FrameSlotAddress();
    PageAddressRoundTrip(va, WINDOW_PAGE);
    PageAddressRoundTrip(FIXMAP_FRAME_BASE, WINDOW_PAGE);
  }

  lemma {:induction false} LessExclusive(s: State, t: Tables, pool: set<nat>, tokens: set<nat>, frame: nat)
    requires Exclusive(s, t, pool, tokens)
    ensures Exclusive(s, t, pool, tokens - {frame})
  {
  }

  lemma {:induction false} LeavesSame(mem: Mem, mem': Mem, root: nat, pool: set<nat>)
    requires GoodLeaves(mem, root, pool) && SameWalks(mem, mem', root)
    ensures GoodLeaves(mem', root, pool)
  {
  }

  lemma {:induction false} UserPageBounds(va: nat)
    requires FRAME_SIZE <= va < LOW_HALF_END
    ensures 0 < PageOf(va) < HIGH_PAGE
  {
  }

  /** What the kernel maps is always a good leaf: for user code only low pages and pool frames. */
  lemma {:induction false} LeafIsGood(p: nat, frame: nat, permissions: Permissions, user: bool, pool: set<nat>)
    requires user ==> 0 < p < HIGH_PAGE && frame in pool
    ensures GoodLeaf(p, Mapped(frame, LeafFlags(permissions, user)), pool)
  {
    LeafGrants(permissions, user);
    hide LeafFlags, Has;
  }

  lemma {:induction false} LeavesMapped(mem: Mem, mem': Mem, root: nat, pool: set<nat>, va: nat, frame: nat,
                                        permissions: Permissions, user: bool)
    requires GoodLeaves(mem, root, pool) && frame in pool
    requires OnlyMapped(mem, mem', root, PageOf(va), Mapped(frame, LeafFlags(permissions, user)))
    requires user ==> FRAME_SIZE <= va < LOW_HALF_END
    ensures GoodLeaves(mem', root, pool)
  {
    hide Walk, PageOf, LeafFlags, GoodLeaf;
    if user {
      UserPageBounds(va);
    }
    LeafIsGood(PageOf(va), frame, permissions, user, pool);
  }

  // ----- Frames

  lemma {:induction false} TakeKeepsTables(s: State, root: nat, fixmap: nat, tokens: set<nat>, t: Tables,
                                           pool: set<nat>)
    requires SoundTables(s, root, fixmap, tokens, t, pool) && s.rest != []
    ensures SoundTables(s.(rest := s.rest[1..]), root, fixmap, tokens + {s.rest[0]}, t, pool)
  {
    TakeFacts(s, t);
    var s' := s.(rest := s.rest[1..]);
    assert s.rest[0] in s.rest;
    assert forall f :: f in s'.rest ==> f in s.rest;
    assert s.rest[0] !in s'.rest;
    assert Exclusive(s', t, pool, tokens + {s.rest[0]}) by {
      hide Walk, Tree;
    }
  }

  lemma {:induction false} TokenIsSpare(s: State, t: Tables, pool: set<nat>, tokens: set<nat>, frame: nat)
    requires Exclusive(s, t, pool, tokens) && frame in tokens
    ensures frame in pool && frame !in t.All() && frame !in s.rest
  {
  }

  lemma {:induction false} SlotFrame(t: Tables, fixmap: nat)
    requires fixmap in t.l0
    ensures fixmap in t.All()
  {
  }

  lemma {:induction false} CleanSame(mem: Mem, mem': Mem, t: Tables)
    requires Tree(mem, t) && Tree(mem', t) && Clean(mem, t)
    requires forall f :: f in t.All() && f in mem && f in mem' ==> mem'[f] == mem[f]
    ensures Clean(mem', t)
  {
    hide LinksDown, LinkedOnce, Linked, IsLink, IsLeaf;
  }

  lemma {:induction false} ExclusiveSame(s: State, s': State, t: Tables, pool: set<nat>, tokens: set<nat>)
    requires Exclusive(s, t, pool, tokens) && s'.rest == s.rest && SameWalks(s.mem, s'.mem, t.root)
    ensures Exclusive(s', t, pool, tokens)
  {
    hide Walk, CONTROL_PAGE;
    assert forall p :: UsesPool(s'.mem, t.root, pool, p) <==> UsesPool(s.mem, t.root, pool, p);
  }

  lemma {:induction false} RamKept(mem: Mem, pool: set<nat>, frame: nat, words: seq<nat>)
    requires AllRam(mem, pool) && |words| == ENTRIES
    ensures AllRam(mem[frame := words], pool)
  {
  }

  /** Whatever is written to a frame outside every table leaves all translations, and the
      invariant, as they were. */
  lemma {:induction false} FillKeepsTables(s: State, root: nat, fixmap: nat, tokens: set<nat>, t: Tables,
                                           pool: set<nat>, frame: nat, words: seq<nat>)
    requires SoundTables(s, root, fixmap, tokens, t, pool) && frame !in t.All() && |words| == ENTRIES
    ensures SoundTables(s.(mem := s.mem[frame := words]), root, fixmap, tokens, t, pool)
    ensures SameWalks(s.mem, s.mem[frame := words], root)
  {
    hide Ready, Clean, Arranged, Exclusive, GoodLeaves, BackedByRam, AllRam, Tree, Walk, SameWalks;
    var s' := s.(mem := s.mem[frame := words]);
    WriteFacts(s, t, frame, words);
    RamKept(s.mem, pool, frame, words);
    ReadyTree(s, t);
    ReadyTree(s', t);
    SlotFrame(t, fixmap);
    FillKeepsWindow(s.mem, t, fixmap, frame, words);
    CleanSame(s.mem, s'.mem, t);
    LeavesSame(s.mem, s'.mem, root, pool);
    ExclusiveSame(s, s', t, pool, tokens);
  }

  lemma {:induction false} WriteKeepsTables(s: State, root: nat, fixmap: nat, tokens: set<nat>, t: Tables,
                                            pool: set<nat>, frame: nat, words: seq<nat>)
    requires SoundTables(s, root, fixmap, tokens, t, pool) && frame in tokens && |words| == ENTRIES
    ensures SoundTables(s.(mem := s.mem[frame := words]), root, fixmap, tokens, t, pool)
    ensures SameWalks(s.mem, s.mem[frame := words], root)
  {
    hide Ready, Clean, Arranged, GoodLeaves, BackedByRam, AllRam, Tree, Walk, SameWalks;
    TokenIsSpare(s, t, pool, tokens, frame);
    FillKeepsTables(s, root, fixmap, tokens, t, pool, frame, words);
  }

  // ----- The heap

  lemma {:induction false} HeapPages()
    ensures HEAP_FIRST == 0x600_0000 && HEAP_LIMIT == 0x604_0000
    ensures HEAP_INDEX == 384
    ensures forall p {:trigger VpnAt(p, 2)} :: HEAP_FIRST <= p < HEAP_LIMIT ==> VpnAt(p, 2) == HEAP_INDEX
    ensures forall p {:trigger AddressOf(p)} :: HEAP_FIRST <= p < HEAP_LIMIT ==>
              AddressOf(p) == HEAP_START + (p - HEAP_FIRST) * FRAME_SIZE
  {
    assert HEAP_START / 4096 == 0xF_FFFF_FE00_0000;
    assert HEAP_START / 0x4000_0000 == 0x3_FFFF_FF80;
  }

  lemma {:induction false} HeapPageOf(va: nat)
    requires Canonical(va) && va % FRAME_SIZE == 0
    ensures HEAP_FIRST <= PageOf(va) < HEAP_LIMIT <==> HEAP_START <= va < HEAP_END
    ensures AddressOf(PageOf(va)) == va
  {
    HeapPages();
    PageAddressRoundTrip(va, PageOf(va));
  }

  lemma {:induction false} HeapUntouched(mem: Mem, mem': Mem, root: nat, bottom: nat, pool: set<nat>)
    requires HeapBacked(mem, root, bottom, pool) && SameWalks(mem, mem', root)
    ensures HeapBacked(mem', root, bottom, pool)
  {
    hide Walk, AddressOf;
    HeapPages();
  }

  /** A mapping outside the heap range leaves the heap pages alone. */
  lemma {:induction false} HeapAvoided(mem: Mem, mem': Mem, root: nat, bottom: nat, pool: set<nat>, va: nat,
                                       to: Translation)
    requires HeapBacked(mem, root, bottom, pool) && OnlyMapped(mem, mem', root, PageOf(va), to)
    requires Canonical(va) && va % FRAME_SIZE == 0 && !(HEAP_START <= va < HEAP_END)
    ensures HeapBacked(mem', root, bottom, pool)
  {
    HeapPageOf(va);
    HeapPages();
    hide Walk, AddressOf, PageOf;
  }

  /** Backing the next page down extends the backed suffix by exactly that page. */
  lemma {:induction false} HeapExtended(mem: Mem, mem': Mem, root: nat, bottom: nat, pool: set<nat>, frame: nat)
    requires HEAP_START + FRAME_SIZE <= bottom <= HEAP_END && bottom % FRAME_SIZE == 0 && frame in pool
    requires HeapBacked(mem, root, bottom, pool)
    requires OnlyMapped(mem, mem', root, PageOf(bottom - FRAME_SIZE), Mapped(frame, LeafFlags(ReadWrite, false)))
    ensures HeapBacked(mem', root, bottom - FRAME_SIZE, pool)
  {
    var va := bottom - FRAME_SIZE;
    hide Walk, AddressOf, PageOf, Canonical;
    HeapStart();
    HeapPageOf(va);
    forall p | HEAP_FIRST <= p < HEAP_LIMIT && p != PageOf(va)
      ensures AddressOf(p) >= bottom <==> AddressOf(p) >= va
    {
      AdjacentPages(p, va);
    }
  }

  lemma {:induction false} HeapStart()
    ensures HEAP_LIMIT < PAGE_LIMIT && HIGH_HALF_BASE < HEAP_START && HEAP_END < U64
    ensures forall va :: HEAP_START <= va <= HEAP_END ==> Canonical(va)
  {
    HeapPages();
  }

  lemma {:induction false} AdjacentPages(p: nat, va: nat)
    requires p < PAGE_LIMIT && Canonical(va) && va % FRAME_SIZE == 0 && p != PageOf(va)
    ensures AddressOf(p) >= va + FRAME_SIZE <==> AddressOf(p) >= va
  {
    PageAddressRoundTrip(va, p);
    var a := AddressOf(p);
    hide AddressOf, PageOf, Canonical;
    assert a != va && a % FRAME_SIZE == 0;
  }

  // ----- Contents of pages

  /** Page `p` translates to a frame with these words. */
  ghost predicate Contains(mem: Mem, root: nat, p: nat, words: seq<nat>) {
    var to := Walk(mem, root, p);
    to.Mapped? && to.frame in mem && mem[to.frame] == words
  }

  /** All pages but `p` keep translation and, if they use allocated frames, contents. */
  ghost predicate OthersKept(mem: Mem, mem': Mem, root: nat, pool: set<nat>, p: nat) {
    && (forall q :: 0 <= q < PAGE_LIMIT && q != p ==> Walk(mem', root, q) == Walk(mem, root, q))
    && (forall q :: q != p && UsesPool(mem, root, pool, q) && Walk(mem, root, q).frame in mem ==>
          Walk(mem, root, q).frame in mem' && mem'[Walk(mem, root, q).frame] == mem[Walk(mem, root, q).frame])
  }

  /** Frames that are mapped somewhere keep their contents while tables are built elsewhere. */
  lemma {:induction false} ContentsKept(s: State, t: Tables, pool: set<nat>, tokens: set<nat>, filled: State, s': State,
                                        t': Tables, words: seq<nat>)
    requires s.rest != [] && Exclusive(s, t, pool, tokens) && Ready(s, t)
    requires filled == State(s.mem[s.rest[0] := words], s.rest[1..]) && Grown(filled, t, s', t')
    ensures s.rest[0] in s'.mem && s'.mem[s.rest[0]] == words
    ensures forall q :: UsesPool(s.mem, t.root, pool, q) && Walk(s.mem, t.root, q).frame in s.mem ==>
              var f := Walk(s.mem, t.root, q).frame; f in s'.mem && s'.mem[f] == s.mem[f]
  {
    hide Walk, Tree, CONTROL_PAGE;
    var frame := s.rest[0];
    RestShrinks(filled, t, s', t');
    assert frame in s.rest && frame !in filled.rest;
    assert forall f :: f in filled.rest ==> f in s.rest;
    assert frame !in t'.All();
    forall q | UsesPool(s.mem, t.root, pool, q) && Walk(s.mem, t.root, q).frame in s.mem
      ensures var f := Walk(s.mem, t.root, q).frame; f in s'.mem && s'.mem[f] == s.mem[f]
    {
      var f := Walk(s.mem, t.root, q).frame;
      assert f !in s.rest && f !in t.All();
      assert f !in t'.All() && f != frame;
    }
  }

  /** A filled and mapped frame holds its words, and all other pages keep theirs. */
  lemma {:induction false} FilledFrame(s: State, t: Tables, pool: set<nat>, tokens: set<nat>, filled: State, s': State,
                                       t': Tables, p: nat, words: seq<nat>, flags: nat)
    requires s.rest != [] && Exclusive(s, t, pool, tokens) && Ready(s, t) && p < PAGE_LIMIT
    requires filled == State(s.mem[s.rest[0] := words], s.rest[1..]) && Grown(filled, t, s', t')
    requires OnlyMapped(s.mem, s'.mem, t.root, p, Mapped(s.rest[0], flags))
    ensures Contains(s'.mem, t.root, p, words) && OthersKept(s.mem, s'.mem, t.root, pool, p)
  {
    ContentsKept(s, t, pool, tokens, filled, s', t', words);
    hide Walk, Tree, CONTROL_PAGE, Grown, Ready, Exclusive;
  }

  /** A newly backed heap page holds zeros; every other page keeps translation and contents,
      whether or not the backing succeeds. */
  lemma {:induction false} BackPageContents(s: State, root: nat, fixmap: nat, tokens: set<nat>, t: Tables,
                                            pool: set<nat>, va: nat)
    requires SoundTables(s, root, fixmap, tokens, t, pool)
    requires HEAP_START <= va < HEAP_END && va % FRAME_SIZE == 0
    ensures var step := BackHeapPage(s, root, true, va);
            && (step.result.Ok? ==> Contains(step.state.mem, root, PageOf(va), Zeros()))
            && OthersKept(s.mem, step.state.mem, root, pool, PageOf(va))
  {
    hide BackHeapPage, MapPage, Walk, SoundTables, Ready, Exclusive, Grown, OthersKept, Contains, SameWalks, OnlyMapped;
    hide UsesPool, PageOf, LeafFlags, Zeros;
    BackHeapCases(s, root, va);
    TableParts(s, root, fixmap, tokens, t, pool);
    OthersSelf(s.mem, root, pool, PageOf(va));
    var step := BackHeapPage(s, root, true, va);
    if s.rest != [] && s.rest[0] < PPN_LIMIT {
      var frame := s.rest[0];
      var filled := State(s.mem[frame := Zeros()], s.rest[1..]);
      TakeFacts(s, t);
      WriteFacts(s.(rest := s.rest[1..]), t, frame, Zeros());
      var t' := MapPageCorrect(filled, t, va, frame, ReadWrite, false);
      if step.result.Ok? {
        OnlyMappedAfter(s.mem, filled.mem, step.state.mem, root, PageOf(va),
                        Mapped(frame, LeafFlags(ReadWrite, false)));
        FilledFrame(s, t, pool, tokens, filled, step.state, t', PageOf(va), Zeros(), LeafFlags(ReadWrite, false));
      } else {
        ContentsKept(s, t, pool, tokens, filled, step.state, t', Zeros());
        OthersAfterFailure(s.mem, filled.mem, step.state.mem, root, pool, PageOf(va));
      }
    }
  }

  lemma {:induction false} TableParts(s: State, root: nat, fixmap: nat, tokens: set<nat>, t: Tables, pool: set<nat>)
    requires SoundTables(s, root, fixmap, tokens, t, pool)
    ensures t.root == root && Ready(s, t) && Exclusive(s, t, pool, tokens) && BackedByRam(s.mem, s.rest)
  {
  }

  lemma {:induction false} OthersSelf(mem: Mem, root: nat, pool: set<nat>, p: nat)
    ensures OthersKept(mem, mem, root, pool, p)
  {
  }

  lemma {:induction false} OthersAfterFailure(mem: Mem, mem1: Mem, mem2: Mem, root: nat, pool: set<nat>, p: nat)
    requires SameWalks(mem, mem1, root) && SameWalks(mem1, mem2, root)
    requires forall q :: UsesPool(mem, root, pool, q) && Walk(mem, root, q).frame in mem ==>
               var f := Walk(mem, root, q).frame; f in mem2 && mem2[f] == mem[f]
    ensures OthersKept(mem, mem2, root, pool, p)
  {
    hide Walk, CONTROL_PAGE;
  }

  /** One heap page: on success exactly the next page down is backed, on failure no
      translation changes; either way all else is kept. */
  lemma {:induction false} BackPageSound(s: State, root: nat, fixmap: nat, tokens: set<nat>, t: Tables, pool: set<nat>,
                                         bottom: nat)
    returns (t': Tables)
    requires SoundTables(s, root, fixmap, tokens, t, pool) && HeapBacked(s.mem, root, bottom, pool)
    requires HEAP_START + FRAME_SIZE <= bottom <= HEAP_END && bottom % FRAME_SIZE == 0
    ensures var step := BackHeapPage(s, root, true, bottom - FRAME_SIZE);
            && SoundTables(step.state, root, fixmap, tokens, t', pool)
            && HeapBacked(step.state.mem, root, if step.result.Ok? then bottom - FRAME_SIZE else bottom, pool)
            && (step.result.Ok? ==> Contains(step.state.mem, root, PageOf(bottom - FRAME_SIZE), Zeros()))
            && OthersKept(s.mem, step.state.mem, root, pool, PageOf(bottom - FRAME_SIZE))
  {
    hide SoundTables, HeapBacked, BackHeapPage, MapPage, SameWalks, OnlyMapped, Canonical, Contains, OthersKept;
    var va := bottom - FRAME_SIZE;
    BackPageContents(s, root, fixmap, tokens, t, pool, va);
    t' := t;
    BackHeapCases(s, root, va);
    if s.rest != [] {
      var frame := s.rest[0];
      var taken := s.(rest := s.rest[1..]);
      TakeKeepsTables(s, root, fixmap, tokens, t, pool);
      OwedIsNoToken(s, root, fixmap, tokens, t, pool);
      assert tokens + {frame} - {frame} == tokens;
      if frame < PPN_LIMIT {
        var zeroed := taken.(mem := taken.mem[frame := Zeros()]);
        WriteKeepsTables(taken, root, fixmap, tokens + {frame}, t, pool, frame, Zeros());
        HeapUntouched(s.mem, zeroed.mem, root, bottom, pool);
        t' := MapKeepsTables(zeroed, root, fixmap, tokens + {frame}, t, pool, va, frame, ReadWrite, false);
        var mapped := MapPage(zeroed, root, va, frame, ReadWrite, false);
        if mapped.result.Ok? {
          HeapExtended(zeroed.mem, mapped.state.mem, root, bottom, pool, frame);
        } else {
          HeapUntouched(zeroed.mem, mapped.state.mem, root, bottom, pool);
        }
      } else {
        LessTokens(taken, root, fixmap, tokens + {frame}, t, pool, frame);
      }
    }
  }

  lemma {:induction false} BackHeapCases(s: State, root: nat, va: nat)
    requires HEAP_START <= va < HEAP_END && va % FRAME_SIZE == 0
    ensures va != FIXMAP_FRAME_BASE
    ensures s.rest == [] ==> BackHeapPage(s, root, true, va) == Step(s, Err(OutOfPhysicalFrames))
    ensures s.rest != [] ==>
              var frame, taken := s.rest[0], s.(rest := s.rest[1..]);
              BackHeapPage(s, root, true, va) ==
              if frame >= PPN_LIMIT then Step(taken, Err(PhysicalAddressNotRepresentable))
              else MapPage(taken.(mem := taken.mem[frame := Zeros()]), root, va, frame, ReadWrite, false)
  {
    hide MapPage;
    assert FIXMAP_FRAME_BASE == 0xFFFF_FFFF_7FE0_1000;
  }

  lemma {:induction false} OwedIsNoToken(s: State, root: nat, fixmap: nat, tokens: set<nat>, t: Tables, pool: set<nat>)
    requires SoundTables(s, root, fixmap, tokens, t, pool) && s.rest != []
    ensures s.rest[0] !in tokens && s.rest[0] in pool
  {
    assert s.rest[0] in s.rest;
  }

  lemma {:induction false} LessTokens(s: State, root: nat, fixmap: nat, tokens: set<nat>, t: Tables, pool: set<nat>,
                                      frame: nat)
    requires SoundTables(s, root, fixmap, tokens, t, pool)
    ensures SoundTables(s, root, fixmap, tokens - {frame}, t, pool)
  {
    LessExclusive(s, t, pool, tokens, frame);
  }

  /** Heap pages from `lo` up to `hi` hold zeros. */
  ghost predicate ZeroPages(mem: Mem, root: nat, lo: nat, hi: nat) {
    forall p :: HEAP_FIRST <= p < HEAP_LIMIT && lo <= AddressOf(p) < hi ==> Contains(mem, root, p, Zeros())
  }

  /** A backed heap page other than `p` keeps its zeros. */
  lemma {:induction false} ZeroPageKept(mem: Mem, mem': Mem, root: nat, pool: set<nat>, bottom: nat, p: nat, q: nat)
    requires HeapBacked(mem, root, bottom, pool) && OthersKept(mem, mem', root, pool, p) && q != p
    requires HEAP_FIRST <= q < HEAP_LIMIT && AddressOf(q) >= bottom && Contains(mem, root, q, Zeros())
    ensures Contains(mem', root, q, Zeros())
  {
    HeapPages();
    FixmapIndices();
    hide Walk, LeafFlags, AddressOf, Zeros;
    assert UsesPool(mem, root, pool, q);
  }

  /** One more zeroed page below zeroed ones. */
  lemma {:induction false} ZeroPagesExtended(mem: Mem, mem': Mem, root: nat, pool: set<nat>, bottom: nat, hi: nat)
    requires HeapBacked(mem, root, bottom, pool) && ZeroPages(mem, root, bottom, hi)
    requires HEAP_START + FRAME_SIZE <= bottom <= HEAP_END && bottom % FRAME_SIZE == 0
    requires Contains(mem', root, PageOf(bottom - FRAME_SIZE), Zeros())
    requires OthersKept(mem, mem', root, pool, PageOf(bottom - FRAME_SIZE))
    ensures ZeroPages(mem', root, bottom - FRAME_SIZE, hi)
  {
    hide Walk, AddressOf, PageOf, Canonical, Zeros, Contains, OthersKept, HeapBacked, HEAP_FIRST, HEAP_LIMIT;
    var va := bottom - FRAME_SIZE;
    PageBelow(bottom);
    HeapBelowLimit();
    forall q | HEAP_FIRST <= q < HEAP_LIMIT && va <= AddressOf(q) < hi ensures Contains(mem', root, q, Zeros()) {
      if q != PageOf(va) {
        AdjacentPages(q, va);
        ZeroPageKept(mem, mem', root, pool, bottom, PageOf(va), q);
      }
    }
  }

  lemma {:induction false} PageBelow(bottom: nat)
    requires HEAP_START + FRAME_SIZE <= bottom <= HEAP_END && bottom % FRAME_SIZE == 0
    ensures var va := bottom - FRAME_SIZE;
            Canonical(va) && va % FRAME_SIZE == 0 && AddressOf(PageOf(va)) == va
  {
    PageAddressRoundTrip(bottom - FRAME_SIZE, 0);
  }

  lemma {:induction false} HeapBelowLimit()
    ensures HEAP_LIMIT <= PAGE_LIMIT
  {
    HeapPages();
  }

  /** Backing that fails keeps what is backed and zeroed. */
  lemma {:induction false} ZeroPagesKept(mem: Mem, mem': Mem, root: nat, pool: set<nat>, bottom: nat, hi: nat)
    requires HeapBacked(mem, root, bottom, pool) && ZeroPages(mem, root, bottom, hi)
    requires HEAP_START + FRAME_SIZE <= bottom <= HEAP_END && bottom % FRAME_SIZE == 0
    requires OthersKept(mem, mem', root, pool, PageOf(bottom - FRAME_SIZE))
    ensures ZeroPages(mem', root, bottom, hi)
  {
    hide Walk, AddressOf, PageOf, Canonical, Zeros, Contains, OthersKept, HeapBacked, HEAP_FIRST, HEAP_LIMIT;
    var va := bottom - FRAME_SIZE;
    PageBelow(bottom);
    HeapBelowLimit();
    forall q | HEAP_FIRST <= q < HEAP_LIMIT && bottom <= AddressOf(q) < hi ensures Contains(mem', root, q, Zeros()) {
      ZeroPageKept(mem, mem', root, pool, bottom, PageOf(va), q);
    }
  }

  /** Backing down to a target: the heap is backed exactly as far as reported, and every page that
      was added holds zeros. */
  lemma {:induction false} BackToSound(s: State, root: nat, fixmap: nat, tokens: set<nat>, t: Tables, pool: set<nat>,
                                       bottom: nat, target: nat, hi: nat) returns (t': Tables)
    requires SoundTables(s, root, fixmap, tokens, t, pool) && HeapBacked(s.mem, root, bottom, pool)
    requires HEAP_START <= target && HEAP_START <= bottom <= HEAP_END && ZeroPages(s.mem, root, bottom, hi)
    requires bottom % FRAME_SIZE == 0 && target % FRAME_SIZE == 0
    ensures var step := BackTo(s, root, true, bottom, target);
            && SoundTables(step.state, root, fixmap, tokens, t', pool)
            && HeapBacked(step.state.mem, root, step.mapped, pool) && ZeroPages(step.state.mem, root, step.mapped, hi)
    decreases bottom
  {
    hide SoundTables, HeapBacked, BackHeapPage, ZeroPages, Contains, OthersKept;
    t' := t;
    if bottom > target {
      t' := BackPageSound(s, root, fixmap, tokens, t, pool, bottom);
      var step := BackHeapPage(s, root, true, bottom - FRAME_SIZE);
      if step.result.Ok? {
        ZeroPagesExtended(s.mem, step.state.mem, root, pool, bottom, hi);
        t' := BackToSound(step.state, root, fixmap, tokens, t', pool, bottom - FRAME_SIZE, target, hi);
      } else {
        ZeroPagesKept(s.mem, step.state.mem, root, pool, bottom, hi);
      }
    }
  }

  lemma {:induction false} NoZeroPages(mem: Mem, root: nat, bottom: nat)
    ensures ZeroPages(mem, root, bottom, bottom)
  {
  }

  /** An empty root slot means that no heap page translates. */
  lemma {:induction false} EmptySlotHeap(mem: Mem, root: nat, pool: set<nat>)
    requires IsTable(mem, root) && mem[root][HEAP_INDEX] == 0
    ensures HeapBacked(mem, root, HEAP_END, pool)
  {
    HeapPages();
    LinkEntries(0);
    forall p | HEAP_FIRST <= p < HEAP_LIMIT ensures AddressOf(p) < HEAP_END && Walk(mem, root, p) == Fault {
      assert VpnAt(p, 2) == HEAP_INDEX;
    }
  }

  // ----- Every step, every run

  lemma {:induction false} MapOutsideHeapSound(sys: System, t: Tables, pool: set<nat>, va: nat, frame: nat,
                                               permissions: Permissions, user: bool)
    requires SoundWith(sys, t, pool) && frame in sys.tokens && va != FIXMAP_FRAME_BASE
    requires user ==> FRAME_SIZE <= va < LOW_HALF_END
    requires sys.claimed ==> !(HEAP_START <= va < HEAP_END)
    ensures Sound(sys.(s := MapPage(sys.s, sys.root, va, frame, permissions, user).state,
                       tokens := sys.tokens - {frame}), pool)
  {
    hide SoundTables, HeapBacked, MapPage, SameWalks, OnlyMapped, Canonical, GoodBlocks;
    var step := MapPage(sys.s, sys.root, va, frame, permissions, user);
    var t' := MapKeepsTables(sys.s, sys.root, sys.fixmap, sys.tokens, t, pool, va, frame, permissions, user);
    if sys.claimed {
      if step.result.Ok? {
        HeapAvoided(sys.s.mem, step.state.mem, sys.root, Bottom(sys), pool, va,
                    Mapped(frame, LeafFlags(permissions, user)));
      } else {
        HeapUntouched(sys.s.mem, step.state.mem, sys.root, Bottom(sys), pool);
      }
    }
    var sys' := sys.(s := step.state, tokens := sys.tokens - {frame});
    BlocksSame(sys, sys');
    assert SoundWith(sys', t', pool);
  }

  lemma {:induction false} BlocksSame(sys: System, sys': System)
    requires GoodBlocks(sys) && sys'.blocks == sys.blocks
    requires sys.heap.Some? ==> sys'.heap.Some? && sys'.heap.value.cursor == sys.heap.value.cursor
    ensures GoodBlocks(sys')
  {
    hide GoodBlock, Stacked;
    forall k | 0 <= k < |sys'.blocks| ensures GoodBlock(sys'.blocks[k], sys'.heap) {
      BlockSame(sys.blocks[k], sys.heap, sys'.heap);
    }
  }

  lemma {:induction false} BlockSame(b: Block, heap: Option<Heap>, heap': Option<Heap>)
    requires GoodBlock(b, heap) && (heap.Some? ==> heap'.Some? && heap'.value.cursor <= heap.value.cursor)
    ensures GoodBlock(b, heap')
  {
  }

  lemma {:induction false} DropTokenSound(sys: System, t: Tables, pool: set<nat>, frame: nat)
    requires SoundWith(sys, t, pool)
    ensures Sound(sys.(tokens := sys.tokens - {frame}), pool)
  {
    LessTokens(sys.s, sys.root, sys.fixmap, sys.tokens, t, pool, frame);
    var sys' := sys.(tokens := sys.tokens - {frame});
    BlocksSame(sys, sys');
    assert SoundWith(sys', t, pool);
  }

  lemma {:induction false} FramesSound(sys: System, t: Tables, pool: set<nat>, op: Op)
    requires SoundWith(sys, t, pool) && Enabled(sys, op) && (op.TakeFrame? || op.WriteFrame?)
    ensures Sound(Apply(sys, op), pool)
  {
    hide SoundTables, HeapBacked, SameWalks;
    var sys' := Apply(sys, op);
    if sys' != sys {
      if op.TakeFrame? {
        TakeKeepsTables(sys.s, sys.root, sys.fixmap, sys.tokens, t, pool);
      } else {
        WriteKeepsTables(sys.s, sys.root, sys.fixmap, sys.tokens, t, pool, op.frame, op.words);
        if sys.claimed {
          HeapUntouched(sys.s.mem, sys'.s.mem, sys.root, Bottom(sys), pool);
        }
      }
      BlocksSame(sys, sys');
    }
    assert SoundWith(sys', t, pool);
  }

  lemma {:induction false} ClaimSound(sys: System, t: Tables, pool: set<nat>)
    requires SoundWith(sys, t, pool)
    ensures Sound(Apply(sys, ClaimHeap), pool)
  {
    var sys' := Apply(sys, ClaimHeap);
    if sys'.claimed && !sys.claimed {
      assert IsTable(sys.s.mem, sys.root);
      EmptySlotHeap(sys.s.mem, sys.root, pool);
      var t' := ClaimedSound(sys, t, pool);
      assert SoundWith(sys', t', pool);
    } else {
      assert sys' == sys;
    }
  }

  lemma {:induction false} ClaimedSound(sys: System, t: Tables, pool: set<nat>) returns (t': Tables)
    requires SoundWith(sys, t, pool) && !sys.claimed && Apply(sys, ClaimHeap).claimed
    requires HeapBacked(sys.s.mem, sys.root, HEAP_END, pool)
    ensures SoundWith(Apply(sys, ClaimHeap), t', pool)
  {
    hide SoundTables, HeapBacked, BackTo, Canonical;
    HeapBounds();
    NoZeroPages(sys.s.mem, sys.root, HEAP_END);
    t' := BackToSound(sys.s, sys.root, sys.fixmap, sys.tokens, t, pool, HEAP_END, HEAP_END - FRAME_SIZE, HEAP_END);
    BackToBounds(sys.s, sys.root, true, HEAP_END, HEAP_END - FRAME_SIZE);
    BackToOnePage(sys.s, sys.root, HEAP_END);
    BlocksSame(sys, Apply(sys, ClaimHeap));
  }

  lemma {:induction false} HeapBounds()
    ensures 0 < HEAP_START && HEAP_START + FRAME_SIZE < HEAP_END < U64
    ensures HEAP_START % FRAME_SIZE == 0 && HEAP_END % FRAME_SIZE == 0 && (HEAP_END - FRAME_SIZE) % FRAME_SIZE == 0
  {
  }

  /** Backing a single page either moves the bottom by one page or not at all. */
  lemma {:induction false} BackToOnePage(s: State, root: nat, end: nat)
    requires end >= FRAME_SIZE
    ensures var step := BackTo(s, root, true, end, end - FRAME_SIZE);
            step.result.Failed? ==> step.mapped == end
  {
    hide BackHeapPage;
    var step := BackHeapPage(s, root, true, end - FRAME_SIZE);
    assert BackTo(step.state, root, true, end - FRAME_SIZE, end - FRAME_SIZE).result == Done(());
  }

  lemma {:induction false} HeapAllocateSound(sys: System, t: Tables, pool: set<nat>, size: nat, align: nat)
    requires SoundWith(sys, t, pool) && sys.heap.Some? && align > 0
    ensures Sound(Apply(sys, HeapAllocate(size, align)), pool)
    ensures var step := AllocateBlock(sys.s, sys.root, sys.claimed, sys.heap.value, size, align);
            ZeroPages(step.state.mem, sys.root, step.heap.mapped, sys.heap.value.mapped)
  {
    hide SoundTables, HeapBacked, BackTo, PlaceBlock, ZeroPages;
    NoZeroPages(sys.s.mem, sys.root, sys.heap.value.mapped);
    var heap := sys.heap.value;
    var step := AllocateBlock(sys.s, sys.root, true, heap, size, align);
    AllocateBlockCorrect(sys.s, sys.root, true, heap, size, align);
    var address := PlaceBlock(heap.start, heap.cursor, size, align);
    var t' := t;
    if size > 0 && address.Some? && address.value != 0 {
      PlaceBlockExact(heap.start, heap.cursor, size, align);
      TargetInHeap(address.value);
      NoZeroPages(sys.s.mem, sys.root, heap.mapped);
      t' := BackToSound(sys.s, sys.root, sys.fixmap, sys.tokens, t, pool, heap.mapped, AlignDown(address.value),
                        heap.mapped);
    }
    var sys' := Apply(sys, HeapAllocate(size, align));
    assert sys'.s == step.state && sys'.heap == Some(step.heap);
    if step.result.Done? {
      BlockAdded(sys, sys', Block(step.result.value, size, align));
    } else {
      BlocksSame(sys, sys');
    }
    assert SoundWith(sys', t', pool);
  }

  lemma {:induction false} TargetInHeap(address: nat)
    requires HEAP_START <= address
    ensures HEAP_START <= AlignDown(address)
  {
    HeapBounds();
  }

  lemma {:induction false} BlockAdded(sys: System, sys': System, b: Block)
    requires GoodBlocks(sys) && sys'.blocks == sys.blocks + [b]
    requires sys.heap.Some? && sys'.heap.Some? && sys'.heap.value.cursor == b.address
    requires b.size > 0 && b.align > 0 && b.address % b.align == 0
    requires b.address + b.size <= sys.heap.value.cursor <= HEAP_END
    ensures GoodBlocks(sys')
  {
    BlockBelow(sys.blocks, b, sys.heap);
    hide Stacked;
    forall k | 0 <= k < |sys'.blocks| ensures GoodBlock(sys'.blocks[k], sys'.heap) {
      if k < |sys.blocks| {
        BlockSame(sys.blocks[k], sys.heap, sys'.heap);
      }
    }
  }

  lemma {:induction false} BlockBelow(blocks: seq<Block>, b: Block, heap: Option<Heap>)
    requires Stacked(blocks) && heap.Some? && b.address + b.size <= heap.value.cursor
    requires forall k :: 0 <= k < |blocks| ==> GoodBlock(blocks[k], heap)
    ensures Stacked(blocks + [b])
  {
    var all := blocks + [b];
    forall i, j | 0 <= i < j < |all| ensures all[j].address + all[j].size <= all[i].address {
      assert GoodBlock(blocks[i], heap);
    }
  }

  lemma {:induction false} MapUserSound(sys: System, pool: set<nat>, va: nat, frame: nat, permissions: Permissions)
    requires Sound(sys, pool) && frame in sys.tokens
    ensures Sound(Apply(sys, MapUser(va, frame, permissions)), pool)
  {
    hide SoundWith, MapPage;
    var t :| SoundWith(sys, t, pool);
    if FRAME_SIZE <= va < LOW_HALF_END {
      UserIsNotHeap(va);
      MapOutsideHeapSound(sys, t, pool, va, frame, permissions, true);
    } else {
      DropTokenSound(sys, t, pool, frame);
    }
  }

  /** Loading a page takes a frame, writes it and maps it; a frame that cannot be reached is lost. */
  lemma {:induction false} LoadPageSteps(sys: System, va: nat, bytes: seq<nat>, permissions: Permissions)
    requires |bytes| <= FRAME_SIZE && sys.s.rest != [] && sys.s.rest[0] !in sys.tokens
    ensures var frame := sys.s.rest[0];
            var taken := Apply(sys, TakeFrame);
            var written := Apply(taken, WriteFrame(frame, Contents(bytes)));
            && Enabled(taken, WriteFrame(frame, Contents(bytes))) && frame in written.tokens
            && Apply(sys, LoadUserPage(va, bytes, permissions)) ==
               if frame < PPN_LIMIT then Apply(written, MapUser(va, frame, permissions))
               else taken.(tokens := taken.tokens - {frame})
  {
    hide MapUserPage, Contents;
    var frame := sys.s.rest[0];
    assert sys.tokens + {frame} - {frame} == sys.tokens;
  }

  /** Loading one user page, successful or not, keeps the whole invariant, the heap included. */
  lemma {:induction false} LoadPageSound(sys: System, pool: set<nat>, va: nat, bytes: seq<nat>,
                                         permissions: Permissions)
    requires Sound(sys, pool) && |bytes| <= FRAME_SIZE
    ensures Sound(Apply(sys, LoadUserPage(va, bytes, permissions)), pool)
  {
    hide SoundWith, SoundTables, MapUserPage, Contents;
    var t :| SoundWith(sys, t, pool);
    if sys.s.rest != [] {
      var frame := sys.s.rest[0];
      SoundParts(sys, t, pool);
      OwedIsNoToken(sys.s, sys.root, sys.fixmap, sys.tokens, t, pool);
      LoadPageSteps(sys, va, bytes, permissions);
      FramesSound(sys, t, pool, TakeFrame);
      var taken := Apply(sys, TakeFrame);
      var t1 :| SoundWith(taken, t1, pool);
      if frame < PPN_LIMIT {
        FramesSound(taken, t1, pool, WriteFrame(frame, Contents(bytes)));
        MapUserSound(Apply(taken, WriteFrame(frame, Contents(bytes))), pool, va, frame, permissions);
      } else {
        DropTokenSound(taken, t1, pool, frame);
      }
    }
  }

  // ----- Stores through mapped pages

  lemma {:induction false} WordOf(va: nat)
    ensures WordIndex(va) == va % 0x1000 / 8
  {
  }

  lemma {:induction false} PageInRange(va: nat)
    requires Canonical(va)
    ensures PageOf(va) < PAGE_LIMIT
  {
  }

  /** Where a store lands: user code reaches pool frames only, and nobody reaches a table, a frame
      held as a token or one still owed. */
  lemma {:induction false} StoreLands(s: State, t: Tables, pool: set<nat>, tokens: set<nat>, va: nat, user: bool)
    requires Exclusive(s, t, pool, tokens) && GoodLeaves(s.mem, t.root, pool)
    requires MayWrite(WalkAddress(s.mem, t.root, va), user) && PageOf(va) != CONTROL_PAGE
    ensures var f := WalkAddress(s.mem, t.root, va).frame;
            && f !in t.All() && f !in tokens && f !in s.rest && (user ==> f in pool)
  {
    PageInRange(va);
    hide Walk, PageOf, Canonical, Has, CONTROL_PAGE;
    var p := PageOf(va);
    var f := Walk(s.mem, t.root, p).frame;
    assert GoodLeaf(p, Walk(s.mem, t.root, p), pool);
    assert f in pool ==> UsesPool(s.mem, t.root, pool, p);
  }

  /** A pool frame is seen through one page only, so a write to it shows nowhere else. */
  lemma {:induction false} FillShowsOnce(s: State, t: Tables, pool: set<nat>, tokens: set<nat>, p: nat,
                                         words: seq<nat>)
    requires Exclusive(s, t, pool, tokens) && p < PAGE_LIMIT && p != CONTROL_PAGE
    requires Walk(s.mem, t.root, p).Mapped?
    requires var mem' := s.mem[Walk(s.mem, t.root, p).frame := words]; SameWalks(s.mem, mem', t.root)
    ensures OthersKept(s.mem, s.mem[Walk(s.mem, t.root, p).frame := words], t.root, pool, p)
  {
    hide Walk, CONTROL_PAGE;
    var f := Walk(s.mem, t.root, p).frame;
    var mem' := s.mem[f := words];
    forall q | q != p && UsesPool(s.mem, t.root, pool, q) && Walk(s.mem, t.root, q).frame in s.mem
      ensures Walk(s.mem, t.root, q).frame != f
    {
      assert f in pool ==> UsesPool(s.mem, t.root, pool, p);
    }
  }

  /** A store that the translation permits, by user code or the kernel, lands outside every table
      and every unmapped frame of the allocator. It changes no translation and no other page that
      uses allocated frames, and it keeps the invariant. User code can only reach pool frames. */
  lemma {:induction false} StoreIsolated(sys: System, t: Tables, pool: set<nat>, va: nat, word: nat, user: bool)
    requires SoundWith(sys, t, pool) && Enabled(sys, Store(va, word, user))
    ensures var f := WalkAddress(sys.s.mem, sys.root, va).frame;
            var sys' := Apply(sys, Store(va, word, user));
            && f !in t.All() && f !in sys.tokens && f !in sys.s.rest && (user ==> f in pool)
            && SameWalks(sys.s.mem, sys'.s.mem, sys.root)
            && OthersKept(sys.s.mem, sys'.s.mem, sys.root, pool, PageOf(va))
            && SoundWith(sys', t, pool)
    ensures var f := WalkAddress(sys.s.mem, sys.root, va).frame;
            var mem' := Apply(sys, Store(va, word, user)).s.mem;
            && IsTable(sys.s.mem, f) && IsTable(mem', f) && mem'[f][va % 0x1000 / 8] == word
            && (forall i :: 0 <= i < ENTRIES && i != va % 0x1000 / 8 ==> mem'[f][i] == sys.s.mem[f][i])
            && mem' == sys.s.mem[f := mem'[f]]
  {
    WordOf(va);
    hide Walk, PageOf, WordIndex, Canonical, Has, CONTROL_PAGE, Exclusive, GoodLeaves, HeapBacked, SameWalks;
    hide Ready, Clean, Arranged, BackedByRam, AllRam, OthersKept;
    var sys' := Apply(sys, Store(va, word, user));
    var f := WalkAddress(sys.s.mem, sys.root, va).frame;
    StoreLands(sys.s, t, pool, sys.tokens, va, user);
    FillKeepsTables(sys.s, sys.root, sys.fixmap, sys.tokens, t, pool, f, sys'.s.mem[f]);
    PermittedIsMapped(sys.s.mem, sys.root, va, user);
    FillShowsOnce(sys.s, t, pool, sys.tokens, PageOf(va), sys'.s.mem[f]);
    if sys.claimed {
      HeapUntouched(sys.s.mem, sys'.s.mem, sys.root, Bottom(sys), pool);
    }
    BlocksSame(sys, sys');
  }

  lemma {:induction false} PermittedIsMapped(mem: Mem, root: nat, va: nat, user: bool)
    requires MayWrite(WalkAddress(mem, root, va), user)
    ensures Walk(mem, root, PageOf(va)) == WalkAddress(mem, root, va) && Walk(mem, root, PageOf(va)).Mapped?
    ensures PageOf(va) < PAGE_LIMIT
  {
    if Canonical(va) {
      PageInRange(va);
    }
  }

  lemma {:induction false} SoundParts(sys: System, t: Tables, pool: set<nat>)
    requires SoundWith(sys, t, pool)
    ensures SoundTables(sys.s, sys.root, sys.fixmap, sys.tokens, t, pool)
  {
  }

  /** Every step, successful or not, keeps the invariant. */
  lemma {:induction false} StepSound(sys: System, op: Op, pool: set<nat>)
    requires Sound(sys, pool) && Enabled(sys, op)
    ensures Sound(Apply(sys, op), pool)
  {
    hide SoundWith, MapPage, ClaimReservation, AllocateBlock;
    var t :| SoundWith(sys, t, pool);
    match op
    case TakeFrame => FramesSound(sys, t, pool, op);
    case WriteFrame(_, _) => FramesSound(sys, t, pool, op);
    case ClaimHeap => ClaimSound(sys, t, pool);
    case HeapAllocate(size, align) => HeapAllocateSound(sys, t, pool, size, align);
    case LoadUserPage(va, bytes, permissions) => LoadPageSound(sys, pool, va, bytes, permissions);
    case Store(va, word, user) => StoreIsolated(sys, t, pool, va, word, user);
    case MapUser(va, frame, permissions) => MapUserSound(sys, pool, va, frame, permissions);
    case MapKernel(va, frame, permissions) =>
      if HIGH_HALF_BASE <= va && va != FIXMAP_FRAME_BASE && !(sys.claimed && HEAP_START <= va < HEAP_END) {
        MapOutsideHeapSound(sys, t, pool, va, frame, permissions, false);
      } else {
        DropTokenSound(sys, t, pool, frame);
      }
  }

  lemma {:induction false} UserIsNotHeap(va: nat)
    requires va < LOW_HALF_END
    ensures va != FIXMAP_FRAME_BASE && !(HEAP_START <= va < HEAP_END)
  {
    assert FIXMAP_FRAME_BASE == 0xFFFF_FFFF_7FE0_1000;
  }

  /** Whether a whole run only uses frames it holds. */
  predicate Runnable(sys: System, ops: seq<Op>)
    decreases |ops|
  {
    ops == [] || (Enabled(sys, ops[0]) && Runnable(Apply(sys, ops[0]), ops[1..]))
  }

  function Run(sys: System, ops: seq<Op>): System
    requires Runnable(sys, ops)
    decreases |ops|
  {
    if ops == [] then sys else Run(Apply(sys, ops[0]), ops[1..])
  }

  /** Whatever the kernel does, in any order and with any failures, the invariant holds:
      the tables form a tree, the fixmap stays arranged and its window closed, every frame
      is in one place, no page is writable and executable, and the heap is backed exactly
      from its bottom up. */
  lemma {:induction false} RunSound(sys: System, ops: seq<Op>, pool: set<nat>)
    requires Sound(sys, pool) && Runnable(sys, ops)
    ensures Sound(Run(sys, ops), pool)
    decreases |ops|
  {
    if ops != [] {
      hide Sound, Apply, Enabled;
      StepSound(sys, ops[0], pool);
      RunSound(Apply(sys, ops[0]), ops[1..], pool);
    }
  }
}
