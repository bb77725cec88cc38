/** Building Sv39 page tables: entry encoding, the table operations of
    `FrameAccess`, and `map_page`, over plain memory values.

    The operations are the kernel's, branch for branch. They are judged by the
    independent `Sv39.Walk`.
 */
module PageTable {
  import opened Memory
  import opened Sv39

  datatype PagingError =
    | VirtualAddressNotPageAligned
    | VirtualAddressNotCanonical
    | VirtualAddressNotUser
    | VirtualAddressNotKernel
    | ReservedVirtualPage
    | PhysicalAddressNotRepresentable
    | PhysicalRangeNotRepresentable
    | OutOfPhysicalFrames
    | InvalidIntermediateEntry
    | PageAlreadyMapped
    | RootEntryInUse
    | KernelHeapAlreadyClaimed
    | UnexpectedAddressTranslationMode(mode: nat)
    | BootstrapPagingAlreadyClaimed
    | InvalidKernelSection
    | InvalidDtbMapping
    | NotATable // no table behind the frame: excluded by the safety contract of `FrameAccess`

  datatype Result<+T> = Ok(value: T) | Err(error: PagingError)

  datatype Permissions = ReadOnly | ReadWrite | ReadExecute

  /** Memory, and the frames the allocator still owes. */
  datatype State = State(mem: Mem, rest: seq<nat>)

  datatype Step<+T> = Step(state: State, result: Result<T>)

  // ----- Entries

  function PermissionBits(permissions: Permissions): nat {
    match permissions
    case ReadOnly => R
    case ReadWrite => R + W
    case ReadExecute => R + X
  }

  /** Flags of a leaf: valid and accessed always, dirty when writable. */
  function LeafFlags(permissions: Permissions, user: bool): (flags: nat)
    ensures flags < 1024
  {
    V + A + PermissionBits(permissions)
    + (if user then U else 0)
    + (if permissions == ReadWrite then D else 0)
  }

  /** `page_table_entry` of the frame with that number. */
  function PageTableEntry(frame: nat, flags: nat): (r: Result<nat>)
    requires flags < 1024
    ensures r.Ok? <==> frame < PPN_LIMIT
    ensures r.Ok? ==> Ppn(r.value) == frame && Flags(r.value) == flags && r.value < 1024 * PPN_LIMIT
  {
    if frame >= PPN_LIMIT then Err(PhysicalAddressNotRepresentable) else Ok(frame * 1024 + flags)
  }

  /** The kernel's test for a link to the next level. */
  predicate IsLink(entry: nat) {
    Has(entry, V) && !Has(entry, R) && !Has(entry, W) && !Has(entry, X)
  }

  function IntermediateFrame(entry: nat): Result<nat> {
    if !IsLink(entry) then Err(InvalidIntermediateEntry) else Ok(Ppn(entry))
  }

  function Zeros(): (z: seq<nat>)
    ensures |z| == ENTRIES && forall i :: 0 <= i < ENTRIES ==> z[i] == 0
  {
    seq(ENTRIES, i => 0)
  }

  // ----- Table operations

  function ReadEntry(mem: Mem, frame: nat, index: nat): Result<nat>
    requires index < ENTRIES
  {
    if frame >= PPN_LIMIT then Err(PhysicalAddressNotRepresentable)
    else if !IsTable(mem, frame) then Err(NotATable)
    else Ok(mem[frame][index])
  }

  /** `allocate_page_table`: a frame that cannot be reached through the window is lost. */
  function AllocateTable(s: State): Step<nat> {
    if s.rest == [] then Step(s, Err(OutOfPhysicalFrames))
    else if s.rest[0] >= PPN_LIMIT then
      Step(s.(rest := s.rest[1..]), Err(PhysicalAddressNotRepresentable))
    else Step(State(s.mem[s.rest[0] := Zeros()], s.rest[1..]), Ok(s.rest[0]))
  }

  /** `next_table`: follows a link, or links a fresh zeroed table into an empty entry. */
  function NextTable(s: State, parent: nat, index: nat): Step<nat>
    requires index < ENTRIES
  {
    var entry := ReadEntry(s.mem, parent, index);
    if entry.Err? then Step(s, Err(entry.error))
    else if entry.value != 0 then Step(s, IntermediateFrame(entry.value))
    else
      var table := AllocateTable(s);
      if table.result.Err? then Step(table.state, Err(table.result.error))
      else
        var child := table.result.value;
        var link := PageTableEntry(child, V);
        if link.Err? then Step(table.state, Err(link.error))
        else if !IsTable(table.state.mem, parent) then Step(table.state, Err(NotATable))
        else Step(table.state.(mem := SetEntry(table.state.mem, parent, index, link.value)), Ok(child))
  }

  /** The two `next_table` calls that lead to the level-0 table of an address. */
  function Descend(s: State, root: nat, va: nat): Step<nat> {
    var first := NextTable(s, root, va / 0x4000_0000 % 512);
    if first.result.Err? then first else NextTable(first.state, first.result.value, va / 0x20_0000 % 512)
  }

  /** `map_page`: one 4 KiB leaf for the page at `va`. */
  function MapPage(s: State, root: nat, va: nat, frame: nat, permissions: Permissions, user: bool): Step<()> {
    if va % FRAME_SIZE != 0 then Step(s, Err(VirtualAddressNotPageAligned))
    else if !Canonical(va) then Step(s, Err(VirtualAddressNotCanonical))
    else
      var leaf := PageTableEntry(frame, LeafFlags(permissions, user));
      if leaf.Err? then Step(s, Err(leaf.error))
      else
        var down := Descend(s, root, va);
        if down.result.Err? then Step(down.state, Err(down.result.error))
        else WriteLeaf(down.state, down.result.value, va / 0x1000 % 512, leaf.value)
  }

  /** The last step: an occupied slot is never replaced. */
  function WriteLeaf(s: State, table: nat, index: nat, leaf: nat): Step<()>
    requires index < ENTRIES
  {
    var existing := ReadEntry(s.mem, table, index);
    if existing.Err? then Step(s, Err(existing.error))
    else if existing.value != 0 then Step(s, Err(PageAlreadyMapped))
    else Step(s.(mem := SetEntry(s.mem, table, index, leaf)), Ok(()))
  }

  // ----- The table tree

  /** The frames that serve as tables, by level. */
  datatype Tables = Tables(root: nat, l1: set<nat>, l0: set<nat>) {
    function Parents(): set<nat> { {root} + l1 }

    function All(): set<nat> { Parents() + l0 }

    function At(level: nat): set<nat>
      requires level < 3
    {
      if level == 2 then {root} else if level == 1 then l1 else l0
    }

    function Below(parent: nat): set<nat> {
      if parent == root then l1 else l0
    }

    function Add(parent: nat, child: nat): Tables {
      if parent == root then this.(l1 := l1 + {child}) else this.(l0 := l0 + {child})
    }
  }

  /** Entry `index` of `parent` links the table `child`. */
  ghost predicate Links(mem: Mem, parent: nat, index: nat, child: nat) {
    IsTable(mem, parent) && index < ENTRIES && IsLink(mem[parent][index]) && Ppn(mem[parent][index]) == child
  }

  ghost predicate Linked(mem: Mem, t: Tables, child: nat) {
    exists parent: nat, index: nat :: parent in t.Parents() && Links(mem, parent, index, child)
  }

  /** No table is linked from two places. */
  ghost predicate LinkedOnce(mem: Mem, t: Tables) {
    forall f: nat, i: nat, g: nat, j: nat, child: nat ::
      f in t.Parents() && g in t.Parents() && Links(mem, f, i, child) && Links(mem, g, j, child)
      ==> f == g && i == j
  }

  /** Links are well-formed entries and lead to tables of the next level. */
  ghost predicate LinksDown(mem: Mem, t: Tables) {
    forall f: nat, i: nat, child: nat ::
      f in t.Parents() && Links(mem, f, i, child)
      ==> child in t.Below(f) && mem[f][i] < 1024 * PPN_LIMIT
  }

  /** A well-formed table tree: three disjoint levels of table frames, every table
      below the root linked exactly once. Leaves and unused or malformed entries are
      unconstrained. */
  ghost predicate Tree(mem: Mem, t: Tables) {
    && t.root !in t.l1 && t.root !in t.l0 && t.l1 !! t.l0
    && (forall f :: f in t.Parents() || f in t.l0 ==> IsTable(mem, f) && f < PPN_LIMIT)
    && LinksDown(mem, t)
    && LinkedOnce(mem, t)
    && (forall child :: child in t.l1 || child in t.l0 ==> Linked(mem, t, child))
  }

  /** A tree without superpages or junk: every entry is empty, a link above level 0 or a
      leaf at level 0. The kernel's own root stays in this class. */
  ghost predicate Clean(mem: Mem, t: Tables)
    requires Tree(mem, t)
  {
    && (forall f: nat, i: nat :: f in t.Parents() && i < ENTRIES ==> mem[f][i] == 0 || IsLink(mem[f][i]))
    && (forall f: nat, i: nat :: f in t.l0 && i < ENTRIES ==> mem[f][i] == 0 || IsLeaf(mem[f][i]))
  }

  // ----- Entry arithmetic

  lemma {:induction false} LinkEntries(entry: nat)
    ensures entry == 0 ==> !IsLink(entry) && !ValidEntry(entry)
    ensures entry < 1024 * PPN_LIMIT ==> (IsLink(entry) <==> ValidEntry(entry) && !IsLeaf(entry))
  {
  }

  /** A link decodes to the frame it was made from. */
  lemma {:induction false} EncodedLink(frame: nat)
    requires frame < PPN_LIMIT
    ensures var link := PageTableEntry(frame, V).value;
            link != 0 && IsLink(link) && Ppn(link) == frame && link < 1024 * PPN_LIMIT
  {
  }

  /** A leaf decodes to its frame, permissions and privilege. */
  lemma {:induction false} EncodedLeaf(frame: nat, permissions: Permissions, user: bool)
    requires frame < PPN_LIMIT
    ensures var flags := LeafFlags(permissions, user);
            var leaf := PageTableEntry(frame, flags).value;
            && leaf != 0 && IsLeaf(leaf) && !IsLink(leaf) && Ppn(leaf) == frame && Flags(leaf) == flags
  {
  }

  /** What the flags of a leaf grant: readable always, never both writable and
      executable, dirty exactly when writable. */
  lemma {:induction false} LeafGrants(permissions: Permissions, user: bool)
    ensures var flags := LeafFlags(permissions, user);
            && Has(flags, V) && Has(flags, A) && Has(flags, R)
            && (Has(flags, W) <==> permissions == ReadWrite)
            && (Has(flags, X) <==> permissions == ReadExecute)
            && (Has(flags, D) <==> permissions == ReadWrite)
            && (Has(flags, U) <==> user)
  {
  }

  /** The very bits of an entry: the frame number from bit 10 up; valid and accessed; read, write with
      dirty, execute, and user as asked for. A link is valid and nothing else. */
  lemma {:induction false} EntryBits(frame: nat, permissions: Permissions, user: bool)
    requires frame < 0x1000_0000_0000
    ensures PageTableEntry(frame, LeafFlags(permissions, user)) ==
            Ok(frame * 1024 + 0x43 + (if permissions == ReadWrite then 0x84 else 0)
               + (if permissions == ReadExecute then 0x08 else 0) + (if user then 0x10 else 0))
    ensures PageTableEntry(frame, V) == Ok(frame * 1024 + 1)
  {
  }

  // ----- Frames outside the tree do not matter

  lemma {:induction false} WalkAgrees(mem: Mem, mem': Mem, t: Tables, frame: nat, level: nat, p: nat)
    requires Tree(mem, t) && level < 3 && frame in t.At(level)
    requires forall f :: f in t.Parents() || f in t.l0 ==> f in mem' && mem'[f] == mem[f]
    ensures WalkFrom(mem', frame, level, p) == WalkFrom(mem, frame, level, p)
    decreases level
  {
    var entry := mem[frame][VpnAt(p, level)];
    LinkEntries(entry);
    if level > 0 && IsLink(entry) {
      assert Links(mem, frame, VpnAt(p, level), Ppn(entry));
      WalkAgrees(mem, mem', t, Ppn(entry), level - 1, p);
    }
  }

  /** Tree and translations only depend on the table frames. */
  lemma {:induction false} TreeAgrees(mem: Mem, mem': Mem, t: Tables)
    requires Tree(mem, t)
    requires forall f :: f in t.Parents() || f in t.l0 ==> f in mem' && mem'[f] == mem[f]
    ensures Tree(mem', t)
    ensures forall p :: Walk(mem', t.root, p) == Walk(mem, t.root, p)
  {
    forall p ensures Walk(mem', t.root, p) == Walk(mem, t.root, p) {
      WalkAgrees(mem, mem', t, t.root, 2, p);
    }
    forall f: nat, i: nat, child: nat | f in t.Parents() ensures Links(mem', f, i, child) <==> Links(mem, f, i, child) {
    }
    forall child | child in t.l1 || child in t.l0 ensures Linked(mem', t, child) {
      var parent: nat, index: nat :| parent in t.Parents() && Links(mem, parent, index, child);
      assert Links(mem', parent, index, child);
    }
  }

  // ----- Linking a fresh table changes no translation

  ghost predicate CanLink(mem: Mem, t: Tables, parent: nat, index: nat, child: nat) {
    && Tree(mem, t) && parent in t.Parents() && index < ENTRIES && mem[parent][index] == 0
    && child !in t.All() && child < PPN_LIMIT && child in mem && mem[child] == Zeros()
  }

  function LinkChild(mem: Mem, parent: nat, index: nat, child: nat): Mem
    requires IsTable(mem, parent) && index < ENTRIES && child < PPN_LIMIT
  {
    SetEntry(mem, parent, index, PageTableEntry(child, V).value)
  }

  lemma {:induction false} LinkKeepsWalk(mem: Mem, t: Tables, parent: nat, index: nat, child: nat,
                                         frame: nat, level: nat, p: nat)
    requires CanLink(mem, t, parent, index, child) && level < 3 && frame in t.At(level)
    ensures WalkFrom(LinkChild(mem, parent, index, child), frame, level, p) == WalkFrom(mem, frame, level, p)
    decreases level
  {
    var mem' := LinkChild(mem, parent, index, child);
    var i := VpnAt(p, level);
    var entry := mem[frame][i];
    LinkEntries(entry);
    if frame == parent && i == index {
      EncodedLink(child);
      LinkEntries(mem'[frame][i]);
      assert WalkFrom(mem', child, level - 1, p) == Fault;
    } else {
      assert mem'[frame][i] == entry;
      if level > 0 && IsLink(entry) {
        assert Links(mem, frame, i, Ppn(entry));
        LinkKeepsWalk(mem, t, parent, index, child, Ppn(entry), level - 1, p);
      }
    }
  }

  lemma {:induction false} LinkKeepsLinks(mem: Mem, t: Tables, parent: nat, index: nat, child: nat)
    requires CanLink(mem, t, parent, index, child)
    ensures var mem' := LinkChild(mem, parent, index, child);
            forall f: nat, i: nat, c: nat :: f in t.Add(parent, child).Parents() ==>
              (Links(mem', f, i, c) <==>
                 (f in t.Parents() && Links(mem, f, i, c)) || (f == parent && i == index && c == child))
  {
    EncodedLink(child);
    var mem' := LinkChild(mem, parent, index, child);
    forall f: nat, i: nat, c: nat | f in t.Add(parent, child).Parents()
      ensures Links(mem', f, i, c) <==>
          (f in t.Parents() && Links(mem, f, i, c)) || (f == parent && i == index && c == child)
    {
      if f == child {
        assert mem'[f] == Zeros();
      } else if f != parent {
        assert mem'[f] == mem[f];
      }
    }
  }

  lemma {:induction false} LinkKeepsLinked(mem: Mem, t: Tables, parent: nat, index: nat, child: nat)
    requires CanLink(mem, t, parent, index, child)
    ensures var mem', t' := LinkChild(mem, parent, index, child), t.Add(parent, child);
            forall c :: c in t'.l1 || c in t'.l0 ==> Linked(mem', t', c)
  {
    var mem', t' := LinkChild(mem, parent, index, child), t.Add(parent, child);
    LinkKeepsLinks(mem, t, parent, index, child);
    hide Links, LinksDown, LinkedOnce, LinkChild;
    forall c | c in t'.l1 || c in t'.l0 ensures Linked(mem', t', c) {
      if c == child {
        assert Links(mem', parent, index, c);
      } else {
        var f: nat, i: nat :| f in t.Parents() && Links(mem, f, i, c);
        assert Links(mem', f, i, c);
      }
    }
  }

  lemma {:induction false} LinkKeepsOnce(mem: Mem, t: Tables, parent: nat, index: nat, child: nat)
    requires CanLink(mem, t, parent, index, child)
    ensures LinkedOnce(LinkChild(mem, parent, index, child), t.Add(parent, child))
  {
    LinkKeepsLinks(mem, t, parent, index, child);
    hide Links, Linked, LinkChild, Zeros;
  }

  lemma {:induction false} LinkKeepsDown(mem: Mem, t: Tables, parent: nat, index: nat, child: nat)
    requires CanLink(mem, t, parent, index, child)
    ensures LinksDown(LinkChild(mem, parent, index, child), t.Add(parent, child))
  {
    var mem' := LinkChild(mem, parent, index, child);
    LinkKeepsLinks(mem, t, parent, index, child);
    EncodedLink(child);
    hide Linked, LinkedOnce, Zeros, IsLink;
  }

  lemma {:induction false} LinkKeepsTree(mem: Mem, t: Tables, parent: nat, index: nat, child: nat)
    requires CanLink(mem, t, parent, index, child)
    ensures Tree(LinkChild(mem, parent, index, child), t.Add(parent, child))
    ensures forall p :: Walk(LinkChild(mem, parent, index, child), t.root, p) == Walk(mem, t.root, p)
  {
    hide WalkFrom, LinksDown, LinkedOnce, Linked, Zeros, PageTableEntry, IsLink, IsLeaf, ValidEntry;
    var mem', t' := LinkChild(mem, parent, index, child), t.Add(parent, child);
    forall p ensures Walk(mem', t.root, p) == Walk(mem, t.root, p) {
      LinkKeepsWalk(mem, t, parent, index, child, t.root, 2, p);
    }
    LinkKeepsDown(mem, t, parent, index, child);
    LinkKeepsOnce(mem, t, parent, index, child);
    LinkKeepsLinked(mem, t, parent, index, child);
  }

  lemma {:induction false} LinkKeepsClean(mem: Mem, t: Tables, parent: nat, index: nat, child: nat)
    requires CanLink(mem, t, parent, index, child) && Clean(mem, t)
    requires Tree(LinkChild(mem, parent, index, child), t.Add(parent, child))
    ensures Clean(LinkChild(mem, parent, index, child), t.Add(parent, child))
  {
    hide LinksDown, LinkedOnce, Linked, IsLink, IsLeaf, PageTableEntry, Ppn;
    EncodedLink(child);
    var mem', t' := LinkChild(mem, parent, index, child), t.Add(parent, child);
    forall f: nat, i: nat | f in t'.All() && i < ENTRIES
      ensures mem'[f][i] == if f == parent && i == index then PageTableEntry(child, V).value
                            else if f == child then 0 else mem[f][i]
    {
    }
  }

  // ----- Writing a leaf changes one translation

  /** The level-0 table that governs a page, when its two links exist. */
  function LeafTable(mem: Mem, root: nat, p: nat): Option<nat> {
    if !IsTable(mem, root) then None
    else
      var e2 := mem[root][VpnAt(p, 2)];
      if !IsLink(e2) || !IsTable(mem, Ppn(e2)) then None
      else
        var e1 := mem[Ppn(e2)][VpnAt(p, 1)];
        if !IsLink(e1) then None else Some(Ppn(e1))
  }

  /** In a tree, two pages share a level-0 slot only if they are the same page. */
  lemma {:induction false} SlotsAreDistinct(mem: Mem, t: Tables, p: nat, q: nat)
    requires Tree(mem, t) && p < PAGE_LIMIT && q < PAGE_LIMIT
    requires LeafTable(mem, t.root, p).Some? && LeafTable(mem, t.root, p) == LeafTable(mem, t.root, q)
    requires VpnAt(p, 0) == VpnAt(q, 0)
    ensures p == q
  {
    var child := LeafTable(mem, t.root, p).value;
    var p1, q1 := Ppn(mem[t.root][VpnAt(p, 2)]), Ppn(mem[t.root][VpnAt(q, 2)]);
    assert Links(mem, t.root, VpnAt(p, 2), p1) && Links(mem, t.root, VpnAt(q, 2), q1);
    assert Links(mem, p1, VpnAt(p, 1), child) && Links(mem, q1, VpnAt(q, 1), child);
    assert VpnAt(p, 1) == VpnAt(q, 1) && p1 == q1;
    assert VpnAt(p, 2) == VpnAt(q, 2);
    IndicesDeterminePage(p, q);
  }

  /** A page's translation, read off its level-0 slot. */
  lemma {:induction false} WalkThroughSlot(mem: Mem, t: Tables, p: nat)
    requires Tree(mem, t) && LeafTable(mem, t.root, p).Some?
    ensures LeafTable(mem, t.root, p).value in t.l0
    ensures Walk(mem, t.root, p) == WalkFrom(mem, LeafTable(mem, t.root, p).value, 0, p)
  {
    var e2 := mem[t.root][VpnAt(p, 2)];
    var e1 := mem[Ppn(e2)][VpnAt(p, 1)];
    LinkEntries(e2);
    LinkEntries(e1);
    assert Links(mem, t.root, VpnAt(p, 2), Ppn(e2));
    assert Links(mem, Ppn(e2), VpnAt(p, 1), Ppn(e1));
    assert WalkFrom(mem, Ppn(e2), 1, p) == WalkFrom(mem, Ppn(e1), 0, p);
  }

  /** A page without a level-0 table keeps its translation when level-0 tables change. */
  lemma {:induction false} WalkWithoutSlot(mem: Mem, mem': Mem, t: Tables, p: nat)
    requires Tree(mem, t) && LeafTable(mem, t.root, p).None?
    requires forall f :: f in t.Parents() ==> f in mem' && mem'[f] == mem[f]
    ensures Walk(mem', t.root, p) == Walk(mem, t.root, p)
  {
    var e2 := mem[t.root][VpnAt(p, 2)];
    LinkEntries(e2);
    if IsLink(e2) {
      assert Links(mem, t.root, VpnAt(p, 2), Ppn(e2));
      LinkEntries(mem[Ppn(e2)][VpnAt(p, 1)]);
      assert WalkFrom(mem', Ppn(e2), 1, p) == WalkFrom(mem, Ppn(e2), 1, p);
    }
  }

  lemma {:induction false} LeafKeepsTree(mem: Mem, t: Tables, table: nat, index: nat, value: nat)
    requires Tree(mem, t) && table in t.l0 && index < ENTRIES
    ensures Tree(SetEntry(mem, table, index, value), t)
    ensures forall p :: LeafTable(SetEntry(mem, table, index, value), t.root, p) == LeafTable(mem, t.root, p)
  {
    var mem' := SetEntry(mem, table, index, value);
    forall f: nat, i: nat, child: nat | f in t.Parents() ensures Links(mem', f, i, child) <==> Links(mem, f, i, child) {
      assert mem'[f] == mem[f];
    }
    forall child | child in t.l1 || child in t.l0 ensures Linked(mem', t, child) {
      var parent: nat, i: nat :| parent in t.Parents() && Links(mem, parent, i, child);
      assert Links(mem', parent, i, child);
    }
    forall p ensures LeafTable(mem', t.root, p) == LeafTable(mem, t.root, p) {
      var e2 := mem[t.root][VpnAt(p, 2)];
      if IsLink(e2) {
        assert Links(mem, t.root, VpnAt(p, 2), Ppn(e2));
      }
    }
  }

  /** Storing into the slot of `p` leaves every other page alone. */
  lemma {:induction false} LeafKeepsOthers(mem: Mem, t: Tables, p: nat, value: nat, q: nat)
    requires Tree(mem, t) && p < PAGE_LIMIT && q < PAGE_LIMIT && p != q
    requires LeafTable(mem, t.root, p).Some? && LeafTable(mem, t.root, p).value in t.l0
    ensures Walk(SetEntry(mem, LeafTable(mem, t.root, p).value, VpnAt(p, 0), value), t.root, q) == Walk(mem, t.root, q)
  {
    var table := LeafTable(mem, t.root, p).value;
    var mem' := SetEntry(mem, table, VpnAt(p, 0), value);
    LeafKeepsTree(mem, t, table, VpnAt(p, 0), value);
    if LeafTable(mem, t.root, q).None? {
      WalkWithoutSlot(mem, mem', t, q);
    } else {
      WalkThroughSlot(mem, t, q);
      WalkThroughSlot(mem', t, q);
      if LeafTable(mem, t.root, q).value == table && VpnAt(q, 0) == VpnAt(p, 0) {
        SlotsAreDistinct(mem, t, p, q);
      }
    }
  }

  // ----- The operations, judged by the walk

  predicate Distinct(rest: seq<nat>) {
    forall i, j :: 0 <= i < j < |rest| ==> rest[i] != rest[j]
  }

  /** A tree, and an allocator whose remaining frames are distinct and outside it. */
  ghost predicate Ready(s: State, t: Tables) {
    && Tree(s.mem, t) && Distinct(s.rest)
    && (forall k :: 0 <= k < |s.rest| ==> s.rest[k] !in t.All())
  }

  lemma {:induction false} ReadyTree(s: State, t: Tables)
    requires Ready(s, t)
    ensures Tree(s.mem, t)
  {
  }

  /** `s'` follows `s` by taking frames off the allocator and turning some of them into
      tables: all other memory is untouched and links are never removed. */
  ghost predicate Grown(s: State, t: Tables, s': State, t': Tables) {
    && |s'.rest| <= |s.rest| && s'.rest == s.rest[|s.rest| - |s'.rest|..]
    && t'.root == t.root && t.l1 <= t'.l1 && t.l0 <= t'.l0
    && (forall f :: f in t'.All() && f !in t.All() ==> f in s.rest && f !in s'.rest)
    && (forall f :: f !in t'.All() ==> (f in s'.mem <==> f in s.mem) && (f in s.mem ==> s'.mem[f] == s.mem[f]))
    && (forall f: nat, i: nat, child: nat :: f in t.Parents() && Links(s.mem, f, i, child) ==>
          Links(s'.mem, f, i, child))
  }

  lemma {:induction false} GrownTransitive(s: State, t: Tables, s1: State, t1: Tables, s2: State, t2: Tables)
    requires Grown(s, t, s1, t1) && Grown(s1, t1, s2, t2)
    ensures Grown(s, t, s2, t2)
  {
    assert s2.rest == s.rest[|s.rest| - |s2.rest|..];
    forall f | f in t2.All() && f !in t.All() ensures f in s.rest && f !in s2.rest {
    }
    forall f: nat, i: nat, child: nat | f in t.Parents() && Links(s.mem, f, i, child)
      ensures Links(s2.mem, f, i, child)
    {
      assert f in t1.Parents();
    }
  }

  /** The case in which an empty entry gets a fresh table. */
  lemma {:induction false} FreshTable(s: State, t: Tables, parent: nat, index: nat)
    requires Ready(s, t) && parent in t.Parents() && index < ENTRIES && s.mem[parent][index] == 0
    requires s.rest != [] && s.rest[0] < PPN_LIMIT
    ensures var step, t' := NextTable(s, parent, index), t.Add(parent, s.rest[0]);
            && step.result == Ok(s.rest[0]) && Ready(step.state, t') && Grown(s, t, step.state, t')
            && (forall p :: Walk(step.state.mem, t.root, p) == Walk(s.mem, t.root, p))
            && (Clean(s.mem, t) ==> Clean(step.state.mem, t'))
            && s.rest[0] in t'.Below(parent) && Links(step.state.mem, parent, index, s.rest[0])
  {
    var child := s.rest[0];
    var zeroed := s.mem[child := Zeros()];
    assert child !in t.All();
    TreeAgrees(s.mem, zeroed, t);
    assert CanLink(zeroed, t, parent, index, child);
    LinkKeepsTree(zeroed, t, parent, index, child);
    LinkedFresh(s, t, parent, index);
    hide Walk, NextTable, LinkChild, LinksDown, LinkedOnce, Linked, Zeros, Links, Grown;
    if Clean(s.mem, t) {
      assert Clean(zeroed, t);
      LinkKeepsClean(zeroed, t, parent, index, child);
    }
    RestDistinct(s.rest);
  }

  lemma {:induction false} RestDistinct(rest: seq<nat>)
    requires Distinct(rest) && rest != []
    ensures Distinct(rest[1..])
  {
    assert forall k :: 0 <= k < |rest[1..]| ==> rest[1..][k] == rest[k + 1];
  }

  /** `next_table` keeps the tree and every translation, whether or not it succeeds, and
      on success hands back the table that the parent's entry now links. */
  lemma {:induction false} NextTableCorrect(s: State, t: Tables, parent: nat, index: nat) returns (t': Tables)
    requires Ready(s, t) && parent in t.Parents() && index < ENTRIES
    ensures var step := NextTable(s, parent, index);
            && Ready(step.state, t') && Grown(s, t, step.state, t')
            && (forall p :: Walk(step.state.mem, t.root, p) == Walk(s.mem, t.root, p))
            && (Clean(s.mem, t) ==> Clean(step.state.mem, t'))
            && (step.result.Ok? ==> step.result.value in t'.Below(parent)
                                    && Links(step.state.mem, parent, index, step.result.value))
            && (step.result.Err? ==> step.result.error != NotATable)
  {
    t' := t;
    var entry := s.mem[parent][index];
    if entry != 0 {
      if IsLink(entry) {
        assert Links(s.mem, parent, index, Ppn(entry));
      }
    } else if s.rest != [] {
      hide Walk, Clean, LinksDown, LinkedOnce, Linked, Zeros, SetEntry;
      if s.rest[0] < PPN_LIMIT {
        FreshTable(s, t, parent, index);
        t' := t.Add(parent, s.rest[0]);
      } else {
        assert Ready(s.(rest := s.rest[1..]), t);
      }
    }
  }

  lemma {:induction false} LinkedFresh(s: State, t: Tables, parent: nat, index: nat)
    requires Ready(s, t) && parent in t.Parents() && index < ENTRIES
    requires s.rest != [] && s.rest[0] < PPN_LIMIT && s.mem[parent][index] == 0
    requires CanLink(s.mem[s.rest[0] := Zeros()], t, parent, index, s.rest[0])
    ensures var step := NextTable(s, parent, index);
            && step.state == State(LinkChild(s.mem[s.rest[0] := Zeros()], parent, index, s.rest[0]), s.rest[1..])
            && step.result == Ok(s.rest[0])
            && Grown(s, t, step.state, t.Add(parent, s.rest[0]))
            && (forall k :: 0 <= k < |step.state.rest| ==> step.state.rest[k] !in t.Add(parent, s.rest[0]).All())
            && Links(step.state.mem, parent, index, s.rest[0])
  {
    hide LinksDown, LinkedOnce, Linked;
    var child := s.rest[0];
    var zeroed := s.mem[child := Zeros()];
    LinkKeepsLinks(zeroed, t, parent, index, child);
    EncodedLink(child);
    var step := NextTable(s, parent, index);
    forall f: nat, i: nat, c: nat | f in t.Parents() && Links(s.mem, f, i, c) ensures Links(step.state.mem, f, i, c) {
      assert Links(zeroed, f, i, c);
    }
    forall k | 0 <= k < |step.state.rest| ensures step.state.rest[k] !in t.Add(parent, child).All() {
      assert step.state.rest[k] == s.rest[k + 1];
    }
    assert child !in step.state.rest;
  }

  /** The leaf step on its own: the slot of `p` in the tree. */
  lemma {:induction false} WriteLeafCorrect(s: State, t: Tables, p: nat, leaf: nat)
    requires Ready(s, t) && p < PAGE_LIMIT
    requires LeafTable(s.mem, t.root, p).Some?
    ensures var table := LeafTable(s.mem, t.root, p).value;
            var step := WriteLeaf(s, table, VpnAt(p, 0), leaf);
            && table in t.l0
            && Ready(step.state, t) && Grown(s, t, step.state, t)
            && (step.result.Err? ==> step.state == s && step.result.error == PageAlreadyMapped)
            && (step.result.Ok? <==> s.mem[table][VpnAt(p, 0)] == 0)
            && (step.result.Ok? ==>
                  && Walk(s.mem, t.root, p) == Fault
                  && Walk(step.state.mem, t.root, p) == WalkFrom(step.state.mem, table, 0, p)
                  && IsTable(step.state.mem, table) && step.state.mem[table][VpnAt(p, 0)] == leaf
                  && forall q :: 0 <= q < PAGE_LIMIT && q != p ==>
                       Walk(step.state.mem, t.root, q) == Walk(s.mem, t.root, q))
  {
    hide Distinct;
    var table := LeafTable(s.mem, t.root, p).value;
    WalkThroughSlot(s.mem, t, p);
    if s.mem[table][VpnAt(p, 0)] == 0 {
      var mem' := SetEntry(s.mem, table, VpnAt(p, 0), leaf);
      LeafKeepsTree(s.mem, t, table, VpnAt(p, 0), leaf);
      WalkThroughSlot(mem', t, p);
      LinkEntries(0);
      forall q | 0 <= q < PAGE_LIMIT && q != p ensures Walk(mem', t.root, q) == Walk(s.mem, t.root, q) {
        LeafKeepsOthers(s.mem, t, p, leaf, q);
      }
      forall f: nat, i: nat, child: nat | f in t.Parents() && Links(s.mem, f, i, child)
        ensures Links(mem', f, i, child)
      {
        assert mem'[f] == s.mem[f];
      }
    }
  }

  ghost predicate SameWalks(mem: Mem, mem': Mem, root: nat) {
    forall p :: 0 <= p < PAGE_LIMIT ==> Walk(mem', root, p) == Walk(mem, root, p)
  }

  /** Exactly the translation of `p` changed, from nothing to `to`. */
  ghost predicate OnlyMapped(mem: Mem, mem': Mem, root: nat, p: nat, to: Translation) {
    && Walk(mem, root, p) == Fault && Walk(mem', root, p) == to
    && forall q :: 0 <= q < PAGE_LIMIT && q != p ==> Walk(mem', root, q) == Walk(mem, root, q)
  }

  /** Walking down to a level-0 table changes no translation, even when it fails half way. */
  lemma {:induction false} DescendCorrect(s: State, t: Tables, va: nat) returns (t': Tables)
    requires Ready(s, t)
    ensures var step := Descend(s, t.root, va);
            && Ready(step.state, t') && Grown(s, t, step.state, t')
            && SameWalks(s.mem, step.state.mem, t.root)
            && (Clean(s.mem, t) ==> Clean(step.state.mem, t'))
            && (step.result.Err? ==> step.result.error != NotATable)
            && (step.result.Ok? ==> LeafTable(step.state.mem, t.root, PageOf(va)) == Some(step.result.value))
  {
    var p := PageOf(va);
    AddressIndices(va);
    var first := NextTable(s, t.root, VpnAt(p, 2));
    t' := NextTableCorrect(s, t, t.root, VpnAt(p, 2));
    if first.result.Ok? {
      var t1 := t';
      var second := NextTable(first.state, first.result.value, VpnAt(p, 1));
      t' := NextTableCorrect(first.state, t1, first.result.value, VpnAt(p, 1));
      GrownTransitive(s, t, first.state, t1, second.state, t');
      if second.result.Ok? {
        assert Links(second.state.mem, t.root, VpnAt(p, 2), first.result.value);
      }
    }
  }

  /** Going down where the tables already exist only follows links. */
  lemma {:induction false} DescendAgain(s: State, t: Tables, va: nat, table: nat)
    requires Ready(s, t) && LeafTable(s.mem, t.root, PageOf(va)) == Some(table)
    ensures Descend(s, t.root, va) == Step(s, Ok(table))
  {
    AddressIndices(va);
    var p := PageOf(va);
    hide PageOf, VpnAt;
    var e2 := s.mem[t.root][VpnAt(p, 2)];
    assert Links(s.mem, t.root, VpnAt(p, 2), Ppn(e2));
    LinkEntries(e2);
    LinkEntries(s.mem[Ppn(e2)][VpnAt(p, 1)]);
    assert NextTable(s, t.root, VpnAt(p, 2)) == Step(s, Ok(Ppn(e2)));
  }

  lemma {:induction false} OnlyMappedAfter(mem: Mem, mem1: Mem, mem2: Mem, root: nat, p: nat, to: Translation)
    requires p < PAGE_LIMIT && SameWalks(mem, mem1, root) && OnlyMapped(mem1, mem2, root, p, to)
    ensures OnlyMapped(mem, mem2, root, p, to)
  {
  }

  /** What a leaf in a level-0 slot says. */
  lemma {:induction false} LeafWalks(mem: Mem, table: nat, p: nat, frame: nat, permissions: Permissions, user: bool)
    requires IsTable(mem, table) && frame < PPN_LIMIT
    requires mem[table][VpnAt(p, 0)] == PageTableEntry(frame, LeafFlags(permissions, user)).value
    ensures WalkFrom(mem, table, 0, p) == Mapped(frame, LeafFlags(permissions, user))
  {
    hide LeafFlags, VpnAt;
    EncodedLeaf(frame, permissions, user);
  }

  lemma {:induction false} LeafKeepsClean(s: State, t: Tables, table: nat, index: nat, leaf: nat)
    requires Tree(s.mem, t) && Clean(s.mem, t) && table in t.l0 && index < ENTRIES && IsLeaf(leaf)
    requires IsTable(s.mem, table) && Tree(SetEntry(s.mem, table, index, leaf), t)
    ensures Clean(SetEntry(s.mem, table, index, leaf), t)
  {
    hide LinksDown, LinkedOnce, Linked, IsLeaf, IsLink;
  }

  lemma {:induction false} LeafStep(s: State, t: Tables, p: nat, frame: nat, permissions: Permissions, user: bool)
    requires Ready(s, t) && p < PAGE_LIMIT && frame < PPN_LIMIT
    requires LeafTable(s.mem, t.root, p).Some?
    ensures var leaf := PageTableEntry(frame, LeafFlags(permissions, user)).value;
            var step := WriteLeaf(s, LeafTable(s.mem, t.root, p).value, VpnAt(p, 0), leaf);
            && Ready(step.state, t) && Grown(s, t, step.state, t)
            && (Clean(s.mem, t) ==> Clean(step.state.mem, t))
            && (step.result.Err? ==> step.state == s && step.result.error == PageAlreadyMapped)
            && (step.result.Ok? ==>
                  OnlyMapped(s.mem, step.state.mem, t.root, p, Mapped(frame, LeafFlags(permissions, user))))
  {
    hide Ready, Grown, Clean, Walk, WalkFrom, LeafTable, LeafFlags, Tree, SetEntry;
    var leaf := PageTableEntry(frame, LeafFlags(permissions, user)).value;
    var table := LeafTable(s.mem, t.root, p).value;
    WriteLeafCorrect(s, t, p, leaf);
    EncodedLeaf(frame, permissions, user);
    var step := WriteLeaf(s, table, VpnAt(p, 0), leaf);
    if step.result.Ok? {
      LeafWalks(step.state.mem, table, p, frame, permissions, user);
      ReadyTree(s, t);
      ReadyTree(step.state, t);
      if Clean(s.mem, t) {
        LeafKeepsClean(s, t, table, VpnAt(p, 0), leaf);
      }
    }
  }

  /** `map_page` against the walk. On success exactly the requested page changes: it was
      unmapped and now yields the frame with the permissions and privilege asked for. On
      any error, even after intermediate tables were linked, no translation changes.
      Either way the result is again a tree. */
  lemma {:induction false} MapPageCorrect(s: State, t: Tables, va: nat, frame: nat, permissions: Permissions,
                                          user: bool)
    returns (t': Tables)
    requires Ready(s, t)
    ensures var step := MapPage(s, t.root, va, frame, permissions, user);
            && Ready(step.state, t') && Grown(s, t, step.state, t')
            && (Clean(s.mem, t) ==> Clean(step.state.mem, t'))
            && (step.result.Err? ==> step.result.error != NotATable && SameWalks(s.mem, step.state.mem, t.root))
            && (step.result.Ok? ==>
                  && Canonical(va) && va % FRAME_SIZE == 0 && frame < PPN_LIMIT
                  && OnlyMapped(s.mem, step.state.mem, t.root, PageOf(va), Mapped(frame, LeafFlags(permissions, user))))
  {
    t' := t;
    if va % FRAME_SIZE == 0 && Canonical(va) && frame < PPN_LIMIT {
      AddressIndices(va);
      var down := Descend(s, t.root, va);
      t' := DescendCorrect(s, t, va);
      if down.result.Ok? {
        var last := MapPage(s, t.root, va, frame, permissions, user);
        LeafStep(down.state, t', PageOf(va), frame, permissions, user);
        GrownTransitive(s, t, down.state, t', last.state, t');
        if last.result.Ok? {
          OnlyMappedAfter(s.mem, down.state.mem, last.state.mem, t.root, PageOf(va),
                          Mapped(frame, LeafFlags(permissions, user)));
        }
      }
    }
  }

  // ----- When `map_page` succeeds

  /** How many tables are missing on the way to a page's slot. */
  function TablesNeeded(mem: Mem, root: nat, p: nat): nat {
    if LeafTable(mem, root, p).Some? then 0
    else if IsTable(mem, root) && IsLink(mem[root][VpnAt(p, 2)]) then 1
    else 2
  }

  /** The next `n` frames exist and fit into an entry. */
  predicate Available(rest: seq<nat>, n: nat) {
    n <= |rest| && forall k :: 0 <= k < n ==> rest[k] < PPN_LIMIT
  }

  /** What goes wrong when they do not: the first frame that is missing, or that does not fit. */
  function Shortage(rest: seq<nat>, n: nat): PagingError
    requires !Available(rest, n)
    decreases n
  {
    if rest == [] then OutOfPhysicalFrames
    else if rest[0] >= PPN_LIMIT then PhysicalAddressNotRepresentable
    else LessAvailable(rest, n); Shortage(rest[1..], n - 1)
  }

  lemma {:induction false} LessAvailable(rest: seq<nat>, n: nat)
    requires rest != [] && rest[0] < PPN_LIMIT
    ensures n > 0 ==> (Available(rest, n) <==> Available(rest[1..], n - 1))
  {
  }

  lemma {:induction false} NextTableSucceeds(s: State, t: Tables, parent: nat, index: nat)
    requires Ready(s, t) && Clean(s.mem, t) && parent in t.Parents() && index < ENTRIES
    ensures var step := NextTable(s, parent, index);
            if s.mem[parent][index] == 0
            then
              && (step.result.Ok? <==> Available(s.rest, 1))
              && (step.result.Ok? ==> step.result.value == s.rest[0] && step.state.rest == s.rest[1..]
                                      && IsTable(step.state.mem, s.rest[0]) && step.state.mem[s.rest[0]] == Zeros())
              && (step.result.Err? ==> step.result.error == Shortage(s.rest, 1))
            else step.result == Ok(Ppn(s.mem[parent][index])) && step.state == s
  {
    if s.mem[parent][index] == 0 && Available(s.rest, 1) {
      EncodedLink(s.rest[0]);
      assert parent != s.rest[0];
    }
  }

  lemma {:induction false} DescendSucceeds(s: State, t: Tables, va: nat)
    requires Ready(s, t) && Clean(s.mem, t)
    ensures var step := Descend(s, t.root, va);
            var needed := TablesNeeded(s.mem, t.root, PageOf(va));
            && (step.result.Ok? <==> Available(s.rest, needed))
            && (step.result.Err? ==> step.result.error == Shortage(s.rest, needed))
  {
    var p := PageOf(va);
    AddressIndices(va);
    var e2 := s.mem[t.root][VpnAt(p, 2)];
    LinkEntries(e2);
    NextTableSucceeds(s, t, t.root, VpnAt(p, 2));
    var first := NextTable(s, t.root, VpnAt(p, 2));
    if first.result.Ok? {
      var t1 := NextTableCorrect(s, t, t.root, VpnAt(p, 2));
      NextTableSucceeds(first.state, t1, first.result.value, VpnAt(p, 1));
      if e2 == 0 {
        assert first.state.mem[first.result.value][VpnAt(p, 1)] == 0;
        LessAvailable(s.rest, 2);
      } else {
        assert Links(s.mem, t.root, VpnAt(p, 2), Ppn(e2));
        LinkEntries(s.mem[Ppn(e2)][VpnAt(p, 1)]);
      }
    }
  }

  /** In a clean tree a slot is empty exactly when the page does not translate. */
  lemma {:induction false} CleanSlot(mem: Mem, t: Tables, p: nat)
    requires Tree(mem, t) && Clean(mem, t)
    ensures LeafTable(mem, t.root, p).None? ==> Walk(mem, t.root, p) == Fault
    ensures LeafTable(mem, t.root, p).Some? ==>
              var table := LeafTable(mem, t.root, p).value;
              table in t.l0 && (mem[table][VpnAt(p, 0)] == 0 <==> Walk(mem, t.root, p) == Fault)
  {
    LinkEntries(0);
    var e2 := mem[t.root][VpnAt(p, 2)];
    LinkEntries(e2);
    if LeafTable(mem, t.root, p).Some? {
      WalkThroughSlot(mem, t, p);
    } else if e2 != 0 {
      assert Links(mem, t.root, VpnAt(p, 2), Ppn(e2));
      assert mem[Ppn(e2)][VpnAt(p, 1)] == 0;
      assert WalkFrom(mem, Ppn(e2), 1, p) == Fault;
    }
  }

  /** `map_page` succeeds exactly on aligned canonical addresses, representable frames and
      untranslated pages, when the missing tables can be allocated. */
  lemma {:induction false} MapPageSucceedsExactly(s: State, t: Tables, va: nat, frame: nat, permissions: Permissions,
                                                  user: bool)
    requires Ready(s, t) && Clean(s.mem, t)
    ensures MapPage(s, t.root, va, frame, permissions, user).result.Ok? <==>
            && va % FRAME_SIZE == 0 && Canonical(va) && frame < PPN_LIMIT
            && Walk(s.mem, t.root, PageOf(va)) == Fault
            && Available(s.rest, TablesNeeded(s.mem, t.root, PageOf(va)))
  {
    if va % FRAME_SIZE == 0 && Canonical(va) && frame < PPN_LIMIT {
      var p := PageOf(va);
      AddressIndices(va);
      DescendSucceeds(s, t, va);
      var down := Descend(s, t.root, va);
      if down.result.Ok? {
        var t1 := DescendCorrect(s, t, va);
        CleanSlot(down.state.mem, t1, p);
      }
    }
  }

  /** Which error a refused mapping reports: the checks in order, then missing frames for tables, then an
      occupied page. */
  lemma {:induction false} MapPageErrors(s: State, t: Tables, va: nat, frame: nat, permissions: Permissions, user: bool)
    requires Ready(s, t) && Clean(s.mem, t)
    ensures var r := MapPage(s, t.root, va, frame, permissions, user).result;
            var needed := TablesNeeded(s.mem, t.root, PageOf(va));
            && (va % FRAME_SIZE != 0 ==> r == Err(VirtualAddressNotPageAligned))
            && (va % FRAME_SIZE == 0 && !Canonical(va) ==> r == Err(VirtualAddressNotCanonical))
            && (va % FRAME_SIZE == 0 && Canonical(va) && frame >= PPN_LIMIT ==>
                  r == Err(PhysicalAddressNotRepresentable))
            && (va % FRAME_SIZE == 0 && Canonical(va) && frame < PPN_LIMIT ==>
                  && (!Available(s.rest, needed) ==> r == Err(Shortage(s.rest, needed)))
                  && (Available(s.rest, needed) && Walk(s.mem, t.root, PageOf(va)) != Fault ==>
                        r == Err(PageAlreadyMapped)))
  {
    hide Descend, Ready, Clean, Walk, TablesNeeded, Shortage, Available, LeafFlags, Tree;
    if va % FRAME_SIZE == 0 && Canonical(va) && frame < PPN_LIMIT {
      AddressIndices(va);
      DescendSucceeds(s, t, va);
      if Descend(s, t.root, va).result.Ok? {
        MapPageSucceedsExactly(s, t, va, frame, permissions, user);
        DescendedTable(s, t, va);
      }
    }
  }

  /** The slot that the descent leads to can be read. */
  lemma {:induction false} DescendedTable(s: State, t: Tables, va: nat)
    requires Ready(s, t) && Clean(s.mem, t) && Descend(s, t.root, va).result.Ok?
    ensures var down := Descend(s, t.root, va);
            ReadEntry(down.state.mem, down.result.value, va / 0x1000 % 512).Ok?
  {
    hide Descend, Walk, Clean, LeafTable, Ready;
    var down := Descend(s, t.root, va);
    var t' := DescendCorrect(s, t, va);
    ReadyTree(down.state, t');
    CleanSlot(down.state.mem, t', PageOf(va));
    TableReadable(down.state.mem, t', down.result.value);
  }

  lemma {:induction false} TableReadable(mem: Mem, t: Tables, f: nat)
    requires Tree(mem, t) && f in t.l0
    ensures IsTable(mem, f) && f < PPN_LIMIT
  {
    hide LinksDown, LinkedOnce, Linked;
  }
}
