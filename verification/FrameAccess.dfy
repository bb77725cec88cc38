/** `FrameAccess`: temporary access to one frame through a window, and the table operations that
    every window supports.

    There are two windows. The kernel's is one page whose entry is written through the control page.
    The bootstrap root's is a 1 GiB leaf in the root itself, written through its identity mapping.
    Each method is proved to have exactly the effect of the corresponding function on plain memory.
 */
module FrameAccess {
  import opened Memory
  import opened Sv39
  import opened Hart
  import opened PageTable
  import opened Fixmap
  import opened Gigapage
  import opened BootAllocator

  // ----- Windows

  /** The slot that holds a window's entry, how it is reached, and where the window appears. */
  datatype Window = OnePage(root: nat, fixmap: nat) | Region(root: nat) {
    function Table(): nat {
      if OnePage? then fixmap else root
    }

    function Index(): (i: nat)
      ensures i < ENTRIES
    {
      if OnePage? then 1 else BOOT_FRAME_WINDOW_VPN2
    }

    predicate IsSlot(frame: nat, index: nat) {
      frame == Table() && index == Index()
    }

    /** The slot's address, and the page it lies in. */
    function Word(): nat {
      if OnePage? then FRAME_SLOT else RootWord(root, BOOT_FRAME_WINDOW_VPN2)
    }

    function Page(): nat {
      if OnePage? then CONTROL_PAGE else root
    }

    /** The entry that shows a frame, and the address and page where it appears. */
    function Entry(frame: nat): nat
      requires frame < PPN_LIMIT
    {
      PageTableEntry(if OnePage? then frame else RegionOf(frame), WINDOW_FLAGS).value
    }

    function Address(frame: nat): nat {
      if OnePage? then FIXMAP_FRAME_BASE else WindowAddressOf(frame)
    }

    function Shows(frame: nat): nat {
      if OnePage? then WINDOW_PAGE else WindowPage(BOOT_FRAME_WINDOW_VPN2, frame)
    }

    /** The address whose own entry is the slot. */
    predicate Hides(va: nat) {
      OnePage? && va == FIXMAP_FRAME_BASE
    }

    /** Why a window cannot be opened. The kernel looks at the frame first, the bootstrap code at
        the slot. */
    function Refusal(frame: nat, existing: nat): Option<PagingError> {
      var far := frame >= PPN_LIMIT;
      if OnePage? then
        if far then Some(PhysicalAddressNotRepresentable) else if existing != 0 then Some(PageAlreadyMapped) else None
      else
        if existing != 0 then Some(RootEntryInUse) else if far then Some(PhysicalAddressNotRepresentable) else None
    }

    /** The slot can be reached, whatever it holds. */
    ghost predicate Reachable(mem: Mem) {
      if OnePage? then Arranged(mem, root, fixmap) else BootRoot(mem, root)
    }

    /** What is cached does not get in the way: the control page of the kernel is not stale; of the
        bootstrap root nothing at all is. */
    ghost predicate Current(mem: Mem, tlb: Tlb) {
      if OnePage? then !Stale(mem, root, tlb, CONTROL_PAGE) else Exact(mem, root, tlb)
    }

    /** The tables stand: the active root's own tree with the slot's table in it, or tables apart
        from the active root. */
    ghost predicate Stands(mem: Mem, t: Tables) {
      if OnePage? then Tree(mem, t) && t.root == root && fixmap in t.l0 else root !in t.All()
    }

    /** The same for tables that are known to form a tree, and the frames still owed. */
    ghost predicate Apart(t: Tables, rest: seq<nat>) {
      if OnePage? then t.root == root && fixmap in t.l0 else root !in t.All() && root !in rest
    }

    /** A frame that may be overwritten as a whole. */
    ghost predicate Spare(t: Tables, frame: nat) {
      if OnePage? then frame !in t.All() else frame != root
    }

    /** Values that a slot may hold. */
    predicate Takes(entry: nat) {
      OnePage? || ZeroOrLeaf(entry)
    }

    /** A store that leaves the way to the slot intact. Through the kernel's window the slot itself
        may be written, and any entry that is not on that way; through the bootstrap window any
        frame but the active root. */
    ghost predicate Permits(mem: Mem, frame: nat, index: nat, value: nat)
      requires IsTable(mem, frame) && index < ENTRIES
    {
      if OnePage? then IsSlot(frame, index) || Reachable(SetEntry(mem, frame, index, value)) else frame != root
    }
  }

  /** Memory with the slot replaced. */
  function WithSlot(mem: Mem, w: Window, entry: nat): Mem
    requires IsTable(mem, w.Table())
  {
    SetEntry(mem, w.Table(), w.Index(), entry)
  }

  /** The slot lies where the window's address says, readable and writable. */
  lemma {:induction false} SlotPlace(mem: Mem, w: Window)
    requires w.Reachable(mem)
    ensures Canonical(w.Word()) && w.Word() % 8 == 0 && WordIndex(w.Word()) == w.Index()
    ensures PageOf(w.Word()) == w.Page() && w.Page() < PAGE_LIMIT && IsTable(mem, w.Table())
    ensures var to := Walk(mem, w.root, w.Page());
            to.Mapped? && to.frame == w.Table() && MayRead(to, false) && MayWrite(to, false)
  {
    if w.OnePage? {
      FrameSlotAddress();
      ControlWalk(mem, w.root, w.fixmap);
    } else {
      RootAddress(w.root, BOOT_FRAME_WINDOW_VPN2);
      IdentityWalk(mem, w.root);
    }
  }

  /** Writing the slot keeps it reachable. */
  lemma {:induction false} SlotStored(mem: Mem, w: Window, entry: nat)
    requires w.Reachable(mem) && IsTable(mem, w.Table()) && w.Takes(entry)
    ensures w.Reachable(WithSlot(mem, w, entry))
    ensures Walk(WithSlot(mem, w, entry), w.root, w.Page()) == Walk(mem, w.root, w.Page())
  {
    var mem' := WithSlot(mem, w, entry);
    if w.OnePage? {
      FixmapIndices();
      PathKept(mem, w.root, CONTROL_PAGE, w.fixmap, w.fixmap, 1, entry);
      ControlWalk(mem, w.root, w.fixmap);
      ControlWalk(mem', w.root, w.fixmap);
    } else {
      assert w.root / GIGA != BOOT_FRAME_WINDOW_VPN2;
      IdentityKept(mem, mem', w.root);
    }
  }

  lemma {:induction false} EntryTaken(w: Window, frame: nat)
    requires frame < PPN_LIMIT
    ensures w.Takes(w.Entry(frame)) && w.Takes(0) && w.Entry(frame) != 0
  {
    EncodedLeaf(if w.OnePage? then frame else RegionOf(frame), ReadWrite, false);
  }

  /** With the window open on any frame, its page translates to exactly that frame. */
  lemma {:induction false} SlotShows(mem: Mem, w: Window, frame: nat)
    requires w.Reachable(mem) && IsTable(mem, w.Table()) && frame < PPN_LIMIT
    ensures var to := Walk(WithSlot(mem, w, w.Entry(frame)), w.root, w.Shows(frame));
            to == Mapped(frame, WINDOW_FLAGS) && MayRead(to, false) && MayWrite(to, false)
  {
    if w.OnePage? {
      WindowOpens(mem, w.root, w.fixmap, frame);
    } else {
      RegionLeaf(WithSlot(mem, w, w.Entry(frame)), w.root, BOOT_FRAME_WINDOW_VPN2, RegionOf(frame), ReadWrite,
                 w.Shows(frame));
      LeafGrants(ReadWrite, false);
    }
  }

  /** Where the words of the window lie. */
  lemma {:induction false} ShownAt(w: Window, frame: nat, index: nat)
    requires index < ENTRIES
    ensures var va := w.Address(frame);
            && Canonical(va) && va % FRAME_SIZE == 0 && PageOf(va) == w.Shows(frame)
            && Canonical(va + 8 * index) && (va + 8 * index) % 8 == 0
            && WordIndex(va + 8 * index) == index && PageOf(va + 8 * index) == w.Shows(frame)
    ensures w.Shows(frame) < PAGE_LIMIT && (w.Region? ==> w.Shows(frame) / GIGA == BOOT_FRAME_WINDOW_VPN2)
  {
    if w.OnePage? {
      FrameSlotAddress();
      FixmapIndices();
      WindowAddress(index);
    } else {
      WindowPlace(frame, index);
    }
  }

  /** Another store commutes with the window's. */
  lemma {:induction false} StoredUnder(mem: Mem, w: Window, entry: nat, frame: nat, index: nat, value: nat)
    requires w.Reachable(mem) && IsTable(mem, w.Table()) && w.Takes(entry) && IsTable(mem, frame) && index < ENTRIES
    requires w.Permits(mem, frame, index, value)
    ensures var open := WithSlot(mem, w, entry);
            var stored := SetEntry(open, frame, index, value);
            && w.Reachable(stored) && Walk(stored, w.root, w.Page()) == Walk(open, w.root, w.Page())
            && (w.Region? ==> stored[w.root] == open[w.root])
  {
    var open := WithSlot(mem, w, entry);
    SlotStored(mem, w, entry);
    if w.OnePage? {
      if w.IsSlot(frame, index) {
        SlotStored(open, w, value);
      } else {
        var other := SetEntry(mem, frame, index, value);
        assert SetEntry(open, frame, index, value) == WithSlot(other, w, entry) by {
          if frame == w.fixmap {
            assert mem[frame][1 := entry][index := value] == mem[frame][index := value][1 := entry];
          }
        }
        SlotStored(other, w, entry);
        SlotPlace(other, w);
        ControlWalk(open, w.root, w.fixmap);
        ControlWalk(SetEntry(open, frame, index, value), w.root, w.fixmap);
      }
    } else {
      IdentityKept(open, SetEntry(open, frame, index, value), w.root);
    }
  }

  /** Closing the window after a store leaves that store, unless it went into the slot. */
  lemma {:induction false} StoreRemains(mem: Mem, w: Window, entry: nat, frame: nat, index: nat, value: nat)
    requires IsTable(mem, w.Table()) && mem[w.Table()][w.Index()] == 0 && IsTable(mem, frame) && index < ENTRIES
    ensures WithSlot(SetEntry(WithSlot(mem, w, entry), frame, index, value), w, 0)
            == if w.IsSlot(frame, index) then mem else SetEntry(mem, frame, index, value)
  {
    var words := mem[w.Table()];
    if frame == w.Table() {
      assert words[w.Index() := entry][index := value][w.Index() := 0]
          == if index == w.Index() then words else words[index := value];
    } else {
      assert words[w.Index() := entry][w.Index() := 0] == words;
    }
  }

  lemma {:induction false} SlotRestored(mem: Mem, w: Window, entry: nat)
    requires IsTable(mem, w.Table()) && mem[w.Table()][w.Index()] == 0
    ensures WithSlot(WithSlot(mem, w, entry), w, 0) == mem
  {
    assert mem[w.Table()][w.Index() := entry][w.Index() := 0] == mem[w.Table()];
  }

  /** Closing the window after filling another frame leaves that frame filled. */
  lemma {:induction false} FillRemains(mem: Mem, w: Window, entry: nat, frame: nat, words: seq<nat>)
    requires IsTable(mem, w.Table()) && mem[w.Table()][w.Index()] == 0 && frame != w.Table()
    ensures WithSlot(WithSlot(mem, w, entry)[frame := words], w, 0) == mem[frame := words]
  {
    assert mem[w.Table()][w.Index() := entry][w.Index() := 0] == mem[w.Table()];
  }

  // ----- What is cached

  /** Accesses that leave the slot's page alone leave the cache current. */
  lemma {:induction false} CurrentKept(w: Window, mem: Mem, tlb: Tlb, mem': Mem, tlb': Tlb)
    requires w.Reachable(mem) && w.Current(mem, tlb)
    requires Derived(w.root, mem, tlb, mem', tlb') && NoNewStale(w.root, mem, tlb, mem', tlb')
    requires Walk(mem', w.root, w.Page()) == Walk(mem, w.root, w.Page())
    requires w.Region? ==> w.root in mem' && mem'[w.root] == mem[w.root]
    ensures w.Current(mem', tlb')
  {
    SlotPlace(mem, w);
    hide Walk;
    if w.Region? {
      FlatExact(mem, mem', w.root, tlb, tlb');
    }
  }

  /** Writing the slot and fencing the window's address leaves the cache current. For the bootstrap
      root this is where the fence must drop the whole 1 GiB mapping. */
  lemma {:induction false} CurrentFenced(w: Window, mem: Mem, tlb: Tlb, entry: nat, tlb1: Tlb, p: nat, tlb2: Tlb)
    requires w.Reachable(mem) && IsTable(mem, w.Table()) && w.Takes(entry) && w.Current(mem, tlb)
    requires var mem' := WithSlot(mem, w, entry);
             && Derived(w.root, mem, tlb, mem', tlb1) && NoNewStale(w.root, mem, tlb, mem', tlb1)
             && Fenced(w.root, mem', tlb1, p, tlb2) && NoNewStale(w.root, mem', tlb1, mem', tlb2)
    requires w.Region? ==> p / GIGA == BOOT_FRAME_WINDOW_VPN2
    ensures w.Current(WithSlot(mem, w, entry), tlb2)
  {
    SlotStored(mem, w, entry);
    SlotPlace(mem, w);
    hide Walk, Arranged, IdentityMapped;
    if w.Region? {
      EntryFenced(mem, WithSlot(mem, w, entry), w.root, BOOT_FRAME_WINDOW_VPN2, tlb, tlb1, p, tlb2);
    }
  }

  /** Nothing is stale about an exact cache. */
  lemma {:induction false} ExactHasNoStale(root: nat, mem: Mem, tlb: Tlb, mem': Mem, tlb': Tlb)
    requires Exact(mem', root, tlb')
    ensures NoNewStale(root, mem, tlb, mem', tlb')
  {
    ExactIsCoherent(mem', root, tlb');
    hide Walk;
  }

  /** Opening the window, using it without touching a table, and closing it again leaves no
      new stale translation: the window page is flushed, and no other page depends on it. */
  lemma {:induction false} WindowCycle(root: nat, t: Tables, fixmap: nat, entry: nat, mem: Mem, tlb: Tlb,
                    used: Mem, used': Mem, mem': Mem, tlb1: Tlb, tlb2: Tlb,
                    tlb': Tlb)
    requires Tree(mem, t) && t.root == root && Arranged(mem, root, fixmap)
    requires used == WithWindow(mem, fixmap, entry)
    requires forall q :: 0 <= q < PAGE_LIMIT ==> Walk(used', root, q) == Walk(used, root, q)
    requires forall q :: 0 <= q < PAGE_LIMIT ==> Walk(mem', root, q) == Walk(mem, root, q)
    requires NoNewStale(root, mem, tlb, used, tlb1) && NoNewStale(root, used, tlb1, used', tlb2)
    requires NoNewStale(root, used', tlb2, mem', tlb') && !Stale(mem', root, tlb', WINDOW_PAGE)
    ensures NoNewStale(root, mem, tlb, mem', tlb')
  {
    WindowIsPrivate(mem, t, fixmap, entry);
  }

  /** A whole cycle of either window leaves no new stale translation, if its use changes none. */
  lemma {:induction false} CycleKeeps(w: Window, t: Tables, entry: nat, mem: Mem, tlb: Tlb, used': Mem, mem': Mem,
                                      tlb1: Tlb, tlb2: Tlb, tlb': Tlb)
    requires w.Reachable(mem) && IsTable(mem, w.Table()) && w.Stands(mem, t)
    requires w.OnePage? ==> SameWalks(WithSlot(mem, w, entry), used', w.root) && SameWalks(mem, mem', w.root)
    requires NoNewStale(w.root, mem, tlb, WithSlot(mem, w, entry), tlb1)
    requires NoNewStale(w.root, WithSlot(mem, w, entry), tlb1, used', tlb2)
    requires NoNewStale(w.root, used', tlb2, mem', tlb') && w.Current(mem', tlb')
    requires w.OnePage? ==> !Stale(mem', w.root, tlb', WINDOW_PAGE)
    ensures NoNewStale(w.root, mem, tlb, mem', tlb')
  {
    hide Walk, Tree, Arranged, BootRoot;
    if w.OnePage? {
      WindowCycle(w.root, t, w.fixmap, entry, mem, tlb, WithSlot(mem, w, entry), used', mem', tlb1, tlb2, tlb');
    } else {
      ExactHasNoStale(w.root, mem, tlb, mem', tlb');
    }
  }

  // ----- Facts about table construction

  /** Every frame still owed by the allocator is RAM. */
  ghost predicate BackedByRam(mem: Mem, rest: seq<nat>) {
    forall k :: 0 <= k < |rest| ==> IsTable(mem, rest[k])
  }

  lemma {:induction false} StillBacked(s: State, s': State)
    requires BackedByRam(s.mem, s.rest)
    requires |s'.rest| <= |s.rest| && s'.rest == s.rest[|s.rest| - |s'.rest|..]
    requires forall f :: IsTable(s.mem, f) ==> IsTable(s'.mem, f)
    ensures BackedByRam(s'.mem, s'.rest)
  {
  }

  lemma {:induction false} NextTableKeepsFrames(s: State, parent: nat, index: nat)
    requires index < ENTRIES
    ensures var s' := NextTable(s, parent, index).state;
            && |s'.rest| <= |s.rest| && s'.rest == s.rest[|s.rest| - |s'.rest|..]
            && forall f :: IsTable(s.mem, f) ==> IsTable(s'.mem, f)
  {
    hide IntermediateFrame, PageTableEntry;
    assert s.rest != [] ==> |s.rest[1..]| == |s.rest| - 1;
  }

  lemma {:induction false} NextTableCases(s: State, parent: nat, index: nat)
    requires IsTable(s.mem, parent) && parent < PPN_LIMIT && index < ENTRIES
    requires s.rest != [] ==> s.rest[0] != parent
    ensures var entry, made := s.mem[parent][index], AllocateTable(s);
            && (entry != 0 ==> NextTable(s, parent, index) == Step(s, IntermediateFrame(entry)))
            && (entry == 0 && made.result.Err? ==> NextTable(s, parent, index) == made)
            && (entry == 0 && made.result.Ok? ==>
                  && made.result.value < PPN_LIMIT && IsTable(made.state.mem, parent)
                  && made.state.mem[parent] == s.mem[parent]
                  && NextTable(s, parent, index)
                     == Step(made.state.(mem := SetEntry(made.state.mem, parent, index,
                                                         PageTableEntry(made.result.value, V).value)),
                             made.result))
  {
  }

  lemma {:induction false} RootIsNoChild(s: State, t: Tables, level1: nat)
    requires Ready(s, t) && level1 in t.Below(t.root)
    ensures level1 in t.Parents() && level1 != t.root
  {
  }

  lemma {:induction false} LinkSurvives(s: State, t: Tables, s': State, t': Tables, parent: nat, index: nat, child: nat)
    requires Grown(s, t, s', t') && parent in t.Parents() && Links(s.mem, parent, index, child)
    ensures Links(s'.mem, parent, index, child)
  {
  }

  lemma {:induction false} GrownReflexive(s: State, t: Tables)
    ensures Grown(s, t, s, t)
  {
  }

  /** Everything the windowed `next_table` needs to know about the plain one. */
  lemma {:induction false} NextTableFacts(s: State, t: Tables, w: Window, parent: nat, index: nat) returns (t': Tables)
    requires Ready(s, t) && BackedByRam(s.mem, s.rest) && w.Apart(t, s.rest)
    requires parent in t.Parents() && index < ENTRIES
    ensures IsTable(s.mem, parent) && parent < PPN_LIMIT && parent != w.Table()
    ensures var step := NextTable(s, parent, index);
            && Ready(step.state, t') && Tree(step.state.mem, t') && Grown(s, t, step.state, t') && t'.root == t.root
            && BackedByRam(step.state.mem, step.state.rest) && w.Apart(t', step.state.rest)
            && (step.result.Ok? ==> step.result.value in t'.Below(parent)
                                    && Links(step.state.mem, parent, index, step.result.value))
    ensures s.rest != [] ==> s.rest[0] != parent
    ensures s.mem[parent][index] != 0 ==>
              NextTable(s, parent, index) == Step(s, IntermediateFrame(s.mem[parent][index]))
  {
    hide Walk, Tree, Ready, Grown, NextTable, AllocateTable, Links, IntermediateFrame, BackedByRam, Window.Apart;
    ParentFacts(s, t, w, parent);
    t' := NextTableCorrect(s, t, parent, index);
    var s' := NextTable(s, parent, index).state;
    NextTableKeepsFrames(s, parent, index);
    StillBacked(s, s');
    NextTableCases(s, parent, index);
    ReadyTree(s', t');
    StillApart(s, t, s', t', w);
  }

  lemma {:induction false} ParentFacts(s: State, t: Tables, w: Window, parent: nat)
    requires Ready(s, t) && w.Apart(t, s.rest) && parent in t.Parents()
    ensures IsTable(s.mem, parent) && parent < PPN_LIMIT && parent != w.Table()
    ensures s.rest != [] ==> s.rest[0] != parent
  {
    hide LinksDown, LinkedOnce, Linked, Distinct;
    assert s.rest != [] ==> s.rest[0] !in t.All();
  }

  /** Tables made of owed frames stay apart from the slot's table. */
  lemma {:induction false} StillApart(s: State, t: Tables, s': State, t': Tables, w: Window)
    requires Grown(s, t, s', t') && w.Apart(t, s.rest)
    ensures t'.root == t.root && w.Apart(t', s'.rest)
  {
    assert s'.rest == s.rest[|s.rest| - |s'.rest|..];
  }

  /** Everything the windowed leaf step needs to know about the plain one. */
  lemma {:induction false} LeafFacts(s: State, t: Tables, w: Window, p: nat, table: nat, leaf: nat)
    requires Ready(s, t) && BackedByRam(s.mem, s.rest) && w.Apart(t, s.rest) && p < PAGE_LIMIT
    requires LeafTable(s.mem, t.root, p) == Some(table)
    ensures IsTable(s.mem, table) && table < PPN_LIMIT && (w.Region? ==> table != w.root)
    ensures var step := WriteLeaf(s, table, VpnAt(p, 0), leaf);
            && Ready(step.state, t) && Tree(step.state.mem, t) && Grown(s, t, step.state, t)
            && BackedByRam(step.state.mem, step.state.rest) && step.state.rest == s.rest
  {
    hide Walk, WalkFrom, Grown, Ready, Tree, LeafTable, VpnAt, BackedByRam;
    WriteLeafCorrect(s, t, p, leaf);
    InLevelZero(s, t, table);
    var step := WriteLeaf(s, table, VpnAt(p, 0), leaf);
    ReadyTree(step.state, t);
    StillBacked(s, step.state);
  }

  /** Taking a frame off the allocator. */
  lemma {:induction false} TakeFacts(s: State, t: Tables)
    requires Ready(s, t) && BackedByRam(s.mem, s.rest)
    ensures s.rest != [] ==>
              && Ready(s.(rest := s.rest[1..]), t) && BackedByRam(s.mem, s.rest[1..])
              && s.rest[0] !in t.All() && IsTable(s.mem, s.rest[0])
  {
    if s.rest != [] {
      var after := s.rest[1..];
      assert forall k :: 0 <= k < |after| ==> after[k] == s.rest[k + 1];
    }
  }

  lemma {:induction false} WriteFacts(s: State, t: Tables, frame: nat, words: seq<nat>)
    requires Ready(s, t) && BackedByRam(s.mem, s.rest) && frame !in t.All() && |words| == ENTRIES
    ensures Ready(s.(mem := s.mem[frame := words]), t)
    ensures BackedByRam(s.mem[frame := words], s.rest)
    ensures SameWalks(s.mem, s.mem[frame := words], t.root)
  {
    TreeAgrees(s.mem, s.mem[frame := words], t);
  }

  /** The owed frames after the first. */
  lemma {:induction false} SupplyFacts(mem: Mem, rest: seq<nat>, w: Window, t: Tables)
    requires Distinct(rest) && BackedByRam(mem, rest) && rest != [] && forall f :: f in rest ==> w.Spare(t, f)
    ensures var after := rest[1..];
            && Distinct(after) && w.Spare(t, rest[0]) && (forall f :: f in after ==> w.Spare(t, f))
            && BackedByRam(mem, after) && BackedByRam(mem[rest[0] := Zeros()], after)
  {
    var after := rest[1..];
    assert forall k :: 0 <= k < |after| ==> after[k] == rest[k + 1];
    assert rest[0] in rest;
  }

  /** Storing into an empty entry of a table of the tree is always permitted. */
  lemma {:induction false} EmptyPermits(mem: Mem, w: Window, frame: nat, index: nat, value: nat)
    requires w.Reachable(mem) && IsTable(mem, frame) && index < ENTRIES && mem[frame][index] == 0
    requires w.Region? ==> frame != w.root
    ensures w.Permits(mem, frame, index, value)
  {
    if w.OnePage? {
      StoreKeepsWindow(mem, w.root, w.fixmap, frame, index, value);
    }
  }

  /** Filling a spare frame keeps the slot reachable, the tree, and every translation. */
  lemma {:induction false} FillFacts(mem: Mem, w: Window, t: Tables, frame: nat, words: seq<nat>)
    requires w.Reachable(mem) && w.Stands(mem, t) && w.Spare(t, frame) && |words| == ENTRIES
    ensures frame != w.Table()
    ensures w.Reachable(mem[frame := words]) && w.Stands(mem[frame := words], t)
    ensures Walk(mem[frame := words], w.root, w.Page()) == Walk(mem, w.root, w.Page())
    ensures w.OnePage? ==> SameWalks(mem, mem[frame := words], w.root)
  {
    if w.OnePage? {
      FillKeepsWindow(mem, t, w.fixmap, frame, words);
    } else {
      IdentityKept(mem, mem[frame := words], w.root);
    }
  }

  /** Opening the window keeps the tree. */
  lemma {:induction false} OpenStands(mem: Mem, w: Window, t: Tables, entry: nat)
    requires w.Reachable(mem) && IsTable(mem, w.Table()) && w.Stands(mem, t)
    ensures w.Stands(WithSlot(mem, w, entry), t)
  {
    if w.OnePage? {
      WindowIsPrivate(mem, t, w.fixmap, entry);
    }
  }

  /** No page but the window itself uses the window's slot. */
  lemma {:induction false} NotTheWindowSlot(mem: Mem, t: Tables, fixmap: nat, va: nat, table: nat)
    requires Tree(mem, t) && Arranged(mem, t.root, fixmap)
    requires Canonical(va) && va % FRAME_SIZE == 0 && va != FIXMAP_FRAME_BASE
    requires LeafTable(mem, t.root, PageOf(va)) == Some(table)
    ensures !(table == fixmap && VpnAt(PageOf(va), 0) == 1)
  {
    FixmapIndices();
    FrameSlotAddress();
    ControlWalk(mem, t.root, fixmap);
    PathWalk(mem, t.root, WINDOW_PAGE, fixmap);
    PageAddressRoundTrip(va, WINDOW_PAGE);
    PageAddressRoundTrip(FIXMAP_FRAME_BASE, WINDOW_PAGE);
    if table == fixmap && VpnAt(PageOf(va), 0) == 1 {
      SlotsAreDistinct(mem, t, PageOf(va), WINDOW_PAGE);
    }
  }

  /** The way down to the window's own entry always exists. */
  lemma {:induction false} WindowDescends(s: State, t: Tables, w: Window)
    requires Ready(s, t) && w.OnePage? && w.Apart(t, s.rest) && w.Reachable(s.mem)
    ensures Descend(s, t.root, FIXMAP_FRAME_BASE) == Step(s, Ok(w.fixmap))
    ensures Canonical(FIXMAP_FRAME_BASE) && FIXMAP_FRAME_BASE % FRAME_SIZE == 0
    ensures FIXMAP_FRAME_BASE / 0x1000 % 512 == 1
  {
    FrameSlotAddress();
    FixmapIndices();
    ControlWalk(s.mem, w.root, w.fixmap);
    PathWalk(s.mem, w.root, WINDOW_PAGE, w.fixmap);
    DescendAgain(s, t, FIXMAP_FRAME_BASE, w.fixmap);
  }

  class FrameAccess {
    const hart: Hart
    const window: Window

    /** The tables under construction: the active root's own, or those of a root to come. */
    ghost var tables: Tables

    constructor (hart: Hart, window: Window, ghost tables: Tables)
      ensures this.hart == hart && this.window == window && this.tables == tables
    {
      this.hart := hart;
      this.window := window;
      this.tables := tables;
    }

    // ----- The window

    /** The slot can be used. */
    ghost predicate Usable()
      reads this, hart
    {
      && window.root == hart.root && IsTable(hart.mem, window.Table())
      && window.Reachable(hart.mem) && window.Current(hart.mem, hart.tlb)
    }

    /** Between uses the slot is empty. */
    ghost predicate Closed()
      reads this, hart
    {
      Usable() && hart.mem[window.Table()][window.Index()] == 0
    }

    method LoadSlot() returns (entry: nat)
      requires Usable()
      modifies hart`tlb
      ensures Usable() && entry == hart.mem[window.Table()][window.Index()]
      ensures NoNewStale(hart.root, hart.mem, old(hart.tlb), hart.mem, hart.tlb)
    {
      SlotPlace(hart.mem, window);
      SlotNotStale(window, hart.mem, hart.tlb);
      hide Walk, Arranged, BootRoot, Canonical, PageOf, WordIndex;
      entry := hart.LoadWord(window.Word());
      CurrentKept(window, hart.mem, old(hart.tlb), hart.mem, hart.tlb);
    }

    /** Writes the slot and fences the window's address. */
    method StoreSlot(entry: nat, va: nat)
      requires Usable() && window.Takes(entry) && (window.Region? ==> PageOf(va) / GIGA == BOOT_FRAME_WINDOW_VPN2)
      modifies hart`mem, hart`tlb
      ensures Usable() && hart.mem == WithSlot(old(hart.mem), window, entry)
      ensures !Stale(hart.mem, hart.root, hart.tlb, PageOf(va))
      ensures NoNewStale(hart.root, old(hart.mem), old(hart.tlb), hart.mem, hart.tlb)
    {
      SlotPlace(hart.mem, window);
      SlotNotStale(window, hart.mem, hart.tlb);
      SlotStored(hart.mem, window, entry);
      hide Walk, Arranged, BootRoot, Canonical, PageOf, WordIndex;
      hart.StoreWord(window.Word(), entry);
      ghost var tlb1 := hart.tlb;
      hart.FlushAddress(va);
      CurrentFenced(window, old(hart.mem), old(hart.tlb), entry, tlb1, PageOf(va), hart.tlb);
    }

    /** First half of `with_frame`: checks, installs the entry, fences. */
    method OpenWindow(frame: nat) returns (r: Result<nat>)
      requires Usable()
      modifies hart`mem, hart`tlb
      ensures Usable()
      ensures r == match window.Refusal(frame, old(hart.mem)[window.Table()][window.Index()])
                   case Some(error) => Err(error)
                   case None => Ok(window.Address(frame))
      ensures r.Err? ==> hart.mem == old(hart.mem)
      ensures r.Ok? ==> frame < PPN_LIMIT && hart.mem == WithSlot(old(hart.mem), window, window.Entry(frame))
      ensures r.Ok? ==> !Stale(hart.mem, hart.root, hart.tlb, window.Shows(frame))
      ensures NoNewStale(hart.root, old(hart.mem), old(hart.tlb), hart.mem, hart.tlb)
    {
      hide Walk, Arranged, BootRoot, Canonical, PageOf, WordIndex;
      if window.OnePage? && frame >= PPN_LIMIT {
        return Err(PhysicalAddressNotRepresentable);
      }
      var existing := LoadSlot();
      if existing != 0 {
        return Err(if window.OnePage? then PageAlreadyMapped else RootEntryInUse);
      }
      if frame >= PPN_LIMIT {
        return Err(PhysicalAddressNotRepresentable);
      }
      EntryTaken(window, frame);
      ShownAt(window, frame, 0);
      StoreSlot(window.Entry(frame), window.Address(frame));
      return Ok(window.Address(frame));
    }

    /** Second half of `with_frame`: clears the entry and fences. Of the bootstrap window nothing
        stays cached. */
    method CloseWindow(ghost frame: nat, va: nat)
      requires Usable() && va == window.Address(frame)
      modifies hart`mem, hart`tlb
      ensures Closed() && hart.mem == WithSlot(old(hart.mem), window, 0)
      ensures window.Region? ==> Coherent(hart.mem, hart.root, hart.tlb)
      ensures !Stale(hart.mem, hart.root, hart.tlb, window.Shows(frame))
      ensures NoNewStale(hart.root, old(hart.mem), old(hart.tlb), hart.mem, hart.tlb)
    {
      hide Walk, Arranged, BootRoot, Canonical, PageOf, WordIndex;
      ShownAt(window, frame, 0);
      StoreSlot(0, va);
      if window.Region? {
        ExactIsCoherent(hart.mem, hart.root, hart.tlb);
      }
    }

    // ----- Operations on one frame

    /** The window is closed and the tables stand. */
    ghost predicate Operable()
      reads this, hart
    {
      Closed() && window.Stands(hart.mem, tables)
    }

    /** `read_page_table_entry`. The slot itself, seen through the window, shows the entry that
        maps its own table. */
    method ReadTableEntry(frame: nat, index: nat) returns (r: Result<nat>)
      requires Operable() && IsTable(hart.mem, frame) && index < ENTRIES
      modifies hart`mem, hart`tlb
      ensures Operable() && hart.mem == old(hart.mem)
      ensures r == if frame < PPN_LIMIT && window.IsSlot(frame, index) then Ok(window.Entry(frame))
                   else ReadEntry(hart.mem, frame, index)
      ensures r == ReadEntry(hart.mem, frame, index) <==> frame >= PPN_LIMIT || !window.IsSlot(frame, index)
      ensures NoNewStale(hart.root, old(hart.mem), old(hart.tlb), hart.mem, hart.tlb)
    {
      hide Walk, Tree, Arranged, BootRoot, Canonical, PageOf, WordIndex, Stale, NoNewStale, MayRead, MayWrite;
      hide PageTableEntry;
      var open := OpenWindow(frame);
      if open.Err? {
        return Err(open.error);
      }
      ghost var entry, used, tlb1 := window.Entry(frame), hart.mem, hart.tlb;
      EntryTaken(window, frame);
      SlotShows(old(hart.mem), window, frame);
      ShownAt(window, frame, index);
      var word := hart.LoadWord(open.value + 8 * index);
      ghost var tlb2 := hart.tlb;
      CurrentKept(window, used, tlb1, used, tlb2);
      CloseWindow(frame, open.value);
      SlotRestored(old(hart.mem), window, entry);
      SameWalksSelf(used, hart.root);
      SameWalksSelf(hart.mem, hart.root);
      CycleKeeps(window, tables, entry, old(hart.mem), old(hart.tlb), used, hart.mem, tlb1, tlb2, hart.tlb);
      return Ok(word);
    }

    /** `write_page_table_entry`. A store into the slot itself is undone when the window closes. */
    method WriteTableEntry(frame: nat, index: nat, value: nat) returns (r: Result<()>)
      requires Closed() && IsTable(hart.mem, frame) && index < ENTRIES && window.Permits(hart.mem, frame, index, value)
      modifies hart`mem, hart`tlb
      ensures Closed()
      ensures r == (if frame < PPN_LIMIT then Ok(()) else Err(PhysicalAddressNotRepresentable))
      ensures hart.mem == if r.Ok? && !window.IsSlot(frame, index) then SetEntry(old(hart.mem), frame, index, value)
                          else old(hart.mem)
    {
      hide Walk, Arranged, BootRoot, Canonical, PageOf, WordIndex, Stale, NoNewStale, MayRead, MayWrite, PageTableEntry;
      var open := OpenWindow(frame);
      if open.Err? {
        return Err(open.error);
      }
      ghost var entry, used, tlb1 := window.Entry(frame), hart.mem, hart.tlb;
      EntryTaken(window, frame);
      SlotShows(old(hart.mem), window, frame);
      ShownAt(window, frame, index);
      StoredUnder(old(hart.mem), window, entry, frame, index, value);
      hart.StoreWord(open.value + 8 * index, value);
      CurrentKept(window, used, tlb1, hart.mem, hart.tlb);
      CloseWindow(frame, open.value);
      StoreRemains(old(hart.mem), window, entry, frame, index, value);
      return Ok(());
    }

    /** `with_frame` around a bulk write of a frame that is not a table. */
    method FillFrame(frame: nat, words: seq<nat>) returns (r: Result<()>)
      requires Operable() && window.Spare(tables, frame) && |words| == ENTRIES
      modifies hart`mem, hart`tlb
      ensures Operable()
      ensures r == (if frame < PPN_LIMIT then Ok(()) else Err(PhysicalAddressNotRepresentable))
      ensures hart.mem == (if r.Ok? then old(hart.mem)[frame := words] else old(hart.mem))
      ensures NoNewStale(hart.root, old(hart.mem), old(hart.tlb), hart.mem, hart.tlb)
    {
      hide Walk, Tree, Arranged, BootRoot, Canonical, PageOf, WordIndex, Stale, NoNewStale, MayRead, MayWrite;
      hide PageTableEntry;
      var open := OpenWindow(frame);
      if open.Err? {
        return Err(open.error);
      }
      ghost var entry, used, tlb1 := window.Entry(frame), hart.mem, hart.tlb;
      EntryTaken(window, frame);
      SlotShows(old(hart.mem), window, frame);
      ShownAt(window, frame, 0);
      OpenStands(old(hart.mem), window, tables, entry);
      FillFacts(used, window, tables, frame, words);
      hart.StorePage(open.value, words);
      ghost var used', tlb2 := hart.mem, hart.tlb;
      CurrentKept(window, used, tlb1, used', tlb2);
      CloseWindow(frame, open.value);
      FillRemains(old(hart.mem), window, entry, frame, words);
      FillFacts(old(hart.mem), window, tables, frame, words);
      CycleKeeps(window, tables, entry, old(hart.mem), old(hart.tlb), used', hart.mem, tlb1, tlb2, hart.tlb);
      return Ok(());
    }

    // ----- Page-table construction

    /** Memory and allocator as the plain operations see them. */
    ghost function View(frames: BootFrameAllocator): State
      reads hart, frames
    {
      State(hart.mem, frames.Remaining())
    }

    /** Distinct owed frames of RAM that may be overwritten. */
    ghost predicate Supplied(frames: BootFrameAllocator)
      reads this, hart, frames
    {
      && Operable() && frames.Valid()
      && Distinct(frames.Remaining()) && BackedByRam(hart.mem, frames.Remaining())
      && forall f :: f in frames.Remaining() ==> window.Spare(tables, f)
    }

    /** What table construction relies on and keeps. */
    ghost predicate Building(frames: BootFrameAllocator)
      reads this, hart, frames
    {
      && Operable() && frames.Valid()
      && Ready(View(frames), tables) && BackedByRam(hart.mem, frames.Remaining())
      && window.Apart(tables, frames.Remaining())
    }

    /** `allocate_page_table`. */
    method ZeroedTable(frames: BootFrameAllocator) returns (r: Result<nat>)
      requires Supplied(frames)
      modifies hart`mem, hart`tlb, frames
      ensures Supplied(frames)
      ensures Step(View(frames), r) == AllocateTable(old(View(frames)))
    {
      hide Window.Stands, Window.Reachable, Window.Current, Window.Spare, Distinct, BackedByRam, Zeros, Stale;
      hide NoNewStale;
      hide BootFrameAllocator.Valid, BootFrameAllocator.Remaining;
      if frames.Remaining() != [] {
        SupplyFacts(hart.mem, frames.Remaining(), window, tables);
      }
      var child := frames.Allocate();
      if child.None? {
        return Err(OutOfPhysicalFrames);
      }
      var zeroed := FillFrame(child.value, Zeros());
      if zeroed.Err? {
        return Err(zeroed.error);
      }
      return Ok(child.value);
    }

    /** The second half of `next_table`: an empty entry gets a fresh table. */
    method LinkNewTable(parent: nat, index: nat, frames: BootFrameAllocator) returns (r: Result<nat>)
      requires Supplied(frames)
      requires IsTable(hart.mem, parent) && parent < PPN_LIMIT && index < ENTRIES && hart.mem[parent][index] == 0
      requires parent != window.Table() && (frames.Remaining() != [] ==> frames.Remaining()[0] != parent)
      modifies hart`mem, hart`tlb, frames
      ensures Closed() && frames.Valid()
      ensures Step(View(frames), r) == NextTable(old(View(frames)), parent, index)
    {
      NextTableCases(View(frames), parent, index);
      hide Window.Stands, Window.Reachable, Window.Current, Window.Spare, Window.Permits, Distinct, BackedByRam, Stale;
      hide NextTable, AllocateTable, BootFrameAllocator.Valid, BootFrameAllocator.Remaining;
      r := ZeroedTable(frames);
      if r.Ok? {
        var link := PageTableEntry(r.value, V);
        EmptyPermits(hart.mem, window, parent, index, link.value);
        var written := WriteTableEntry(parent, index, link.value);
      }
    }

    /** `next_table`. */
    method FollowOrLink(parent: nat, index: nat, frames: BootFrameAllocator) returns (r: Result<nat>)
      requires Building(frames) && parent in tables.Parents() && index < ENTRIES
      modifies hart`mem, hart`tlb, this`tables, frames
      ensures Building(frames) && tables.root == old(tables.root)
      ensures Step(View(frames), r) == NextTable(old(View(frames)), parent, index)
      ensures Grown(old(View(frames)), old(tables), View(frames), tables)
      ensures r.Ok? ==> r.value in tables.Below(parent) && Links(hart.mem, parent, index, r.value)
    {
      hide Links, Tree, Ready, Grown, BackedByRam, NextTable, AllocateTable, Stale, NoNewStale, Distinct;
      hide Window.Reachable;
      hide Window.Current, BootFrameAllocator.Valid, BootFrameAllocator.Remaining;
      ghost var after := NextTableFacts(View(frames), tables, window, parent, index);
      BuildingIsSupplied(View(frames), tables, window);
      var read := ReadTableEntry(parent, index);
      var entry := read.value;
      if entry != 0 {
        r := IntermediateFrame(entry);
      } else {
        r := LinkNewTable(parent, index, frames);
      }
      tables := after;
    }

    /** The two `next_table` calls of `map_page`. */
    method DescendTo(root: nat, va: nat, frames: BootFrameAllocator) returns (r: Result<nat>)
      requires Building(frames) && root == tables.root
      modifies hart`mem, hart`tlb, this`tables, frames
      ensures Building(frames) && root == tables.root
      ensures Step(View(frames), r) == Descend(old(View(frames)), root, va)
      ensures Grown(old(View(frames)), old(tables), View(frames), tables)
      ensures r.Ok? ==> r.value in tables.l0 && LeafTable(hart.mem, root, PageOf(va)) == Some(r.value)
    {
      hide Tree, Ready, Grown, BackedByRam, NextTable, Stale, PageOf, VpnAt, Distinct, Window.Reachable, Window.Current;
      hide Window.Stands, Window.Apart, BootFrameAllocator.Valid, BootFrameAllocator.Remaining;
      ghost var s0, t0 := View(frames), tables;
      AddressIndices(va);
      r := FollowOrLink(root, va / 0x4000_0000 % 512, frames);
      if r.Ok? {
        ghost var s1, t1, level1 := View(frames), tables, r.value;
        RootIsNoChild(s1, tables, level1);
        r := FollowOrLink(r.value, va / 0x20_0000 % 512, frames);
        GrownTransitive(s0, t0, s1, t1, View(frames), tables);
        if r.Ok? {
          LinkSurvives(s1, t1, View(frames), tables, root, va / 0x4000_0000 % 512, level1);
        }
      }
    }

    /** The leaf of `map_page`, for the page `p` whose slot it is. */
    method InstallLeaf(table: nat, index: nat, leaf: nat, ghost p: nat, frames: BootFrameAllocator)
      returns (r: Result<()>)
      requires Building(frames) && p < PAGE_LIMIT && index == VpnAt(p, 0)
      requires table in tables.l0 && LeafTable(hart.mem, tables.root, p) == Some(table)
      modifies hart`mem, hart`tlb
      ensures Building(frames)
      ensures Step(View(frames), r) ==
              if window.IsSlot(table, index) then Step(old(View(frames)), Err(PageAlreadyMapped))
              else WriteLeaf(old(View(frames)), table, index, leaf)
      ensures Grown(old(View(frames)), tables, View(frames), tables)
    {
      hide Tree, Ready, Grown, BackedByRam, Stale, LeafTable, VpnAt, NoNewStale, Distinct, Window.Reachable;
      hide Window.Current;
      hide Window.Permits, BootFrameAllocator.Valid, BootFrameAllocator.Remaining;
      LeafFacts(View(frames), tables, window, p, table, leaf);
      GrownReflexive(View(frames), tables);
      EntryTaken(window, table);
      var existing := ReadTableEntry(table, index);
      if existing.value != 0 {
        return Err(PageAlreadyMapped);
      }
      EmptyPermits(hart.mem, window, table, index, leaf);
      var written := WriteTableEntry(table, index, leaf);
      return Ok(());
    }

    /** `map_page`, one windowed access at a time, has exactly the effect of `MapPage`. Only the window's
        own page always looks occupied, since its entry is read while the window is open. */
    method MapOnePage(root: nat, va: nat, frame: nat, permissions: Permissions, user: bool, frames: BootFrameAllocator)
      returns (r: Result<()>)
      requires Building(frames) && root == tables.root
      modifies hart`mem, hart`tlb, this`tables, frames
      ensures Building(frames) && root == tables.root
      ensures Step(View(frames), r) ==
              if window.Hides(va) && frame < PPN_LIMIT then Step(old(View(frames)), Err(PageAlreadyMapped))
              else MapPage(old(View(frames)), root, va, frame, permissions, user)
      ensures Grown(old(View(frames)), old(tables), View(frames), tables)
    {
      hide Tree, Ready, Grown, BackedByRam, Descend, Stale, LeafTable, PageOf, VpnAt, LeafFlags, Distinct;
      hide Window.Current;
      hide Arranged, BootRoot, BootFrameAllocator.Valid, BootFrameAllocator.Remaining;
      ghost var s0, t0 := View(frames), tables;
      GrownReflexive(s0, t0);
      if window.Hides(va) {
        WindowDescends(s0, t0, window);
      }
      if va % FRAME_SIZE != 0 {
        return Err(VirtualAddressNotPageAligned);
      }
      if !Canonical(va) {
        return Err(VirtualAddressNotCanonical);
      }
      var leaf := PageTableEntry(frame, LeafFlags(permissions, user));
      if leaf.Err? {
        return Err(leaf.error);
      }
      var level0 := DescendTo(root, va, frames);
      if level0.Err? {
        return Err(level0.error);
      }
      ghost var s1, t1 := View(frames), tables;
      AddressIndices(va);
      if window.OnePage? && !window.Hides(va) {
        NotTheWindowSlot(hart.mem, tables, window.fixmap, va, level0.value);
      }
      InLevelZero(s1, t1, level0.value);
      r := InstallLeaf(level0.value, va / 0x1000 % 512, leaf.value, PageOf(va), frames);
      GrownTransitive(s0, t0, s1, t1, View(frames), tables);
    }
  }

  lemma {:induction false} BuildingIsSupplied(s: State, t: Tables, w: Window)
    requires Ready(s, t) && w.Apart(t, s.rest)
    ensures Distinct(s.rest) && forall f :: f in s.rest ==> w.Spare(t, f)
  {
    hide Tree;
  }

  lemma {:induction false} InLevelZero(s: State, t: Tables, table: nat)
    requires Ready(s, t) && table in t.l0
    ensures IsTable(s.mem, table) && table < PPN_LIMIT && table in t.All()
  {
  }

  lemma {:induction false} SlotNotStale(w: Window, mem: Mem, tlb: Tlb)
    requires w.Current(mem, tlb) && w.Page() < PAGE_LIMIT
    ensures !Stale(mem, w.root, tlb, w.Page())
  {
    if w.Region? {
      ExactIsCoherent(mem, w.root, tlb);
    }
  }

  lemma {:induction false} SameWalksSelf(mem: Mem, root: nat)
    ensures SameWalks(mem, mem, root)
  {
  }
}
