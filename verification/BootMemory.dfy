/** From the bytes of a devicetree blob to the boot frame allocator. */
module BootMemory {
  import opened Memory
  import opened FdtReader
  import opened FdtTree
  import opened FdtViews
  import opened FdtSemantics
  import opened FdtRanges
  import opened FdtBlob
  import BA = BootAllocator

  /** `fdt_range`. */
  function PhysOf(r: Range): PhysRange {
    PhysRange(r.address, r.address + r.size)
  }

  function AllPhys(rs: seq<Range>): (s: seq<PhysRange>)
    ensures |s| == |rs| && forall k :: 0 <= k < |rs| ==> s[k] == PhysOf(rs[k])
  {
    seq(|rs|, k requires 0 <= k < |rs| => PhysOf(rs[k]))
  }

  lemma {:induction false} PhysValid(rs: seq<Range>)
    requires RangesOk(rs)
    ensures BA.AllValid(AllPhys(rs))
  {
    forall k | 0 <= k < |rs| ensures AllPhys(rs)[k].Valid() {
      assert RangeOk(rs[k]);
    }
  }

  lemma {:induction false} EntriesValid(entries: seq<Entry>)
    requires EntriesFit(entries)
    ensures BA.AllValid(BA.NonEmptyRanges(entries))
  {
    if entries != [] {
      assert EntryFits(entries[0]);
      EntriesValid(entries[1..]);
    }
  }

  /** One more range collected; the conversion of an accepted range cannot fail. */
  lemma {:induction false} CollectStep(all: seq<Range>, k: nat)
    requires RangesOk(all) && k < |all|
    ensures FromStartSize(all[k].address, all[k].size) == Some(PhysOf(all[k]))
    ensures AllPhys(all[..k]) + [PhysOf(all[k])] == AllPhys(all[..k + 1])
    ensures all[k..][0] == all[k] && all[k..][1..] == all[k + 1..]
  {
    assert RangeOk(all[k]);
  }

  lemma {:induction false} NoneCollected(rs: seq<Range>)
    requires rs == []
    ensures AllPhys(rs) == []
  {
  }

  /** Runs the memory iterator to its end; no range it yields can fail to convert. */
  method CollectMemory(v: NodeView, ghost root: Node) returns (ranges: seq<PhysRange>)
    requires Shows(v, root) && SemanticsOk(root, v.strings)
    ensures ranges == AllPhys(MemoryOf(root, v.strings))
  {
    hide Shows, SemanticsOk, MemoryOf, AllPhys, FromStartSize, RangesOk, MemoryRanges.Valid, MemoryRanges.Todo;
    AcceptedRanges(root, v.strings);
    ghost var all := MemoryOf(root, v.strings);
    NoneCollected(all[..0]);
    var memory := new MemoryRanges(v, root);
    ranges := [];
    ghost var k: nat := 0;
    while true
      invariant memory.Valid() && fresh(memory) && fresh(memory.nodes) && fresh(memory.nodes.reader)
      invariant memory.current.Some? ==> fresh(memory.current.value)
      invariant k <= |all| && memory.Todo() == all[k..] && ranges == AllPhys(all[..k])
      decreases |all| - k
    {
      var next := memory.Next();
      if next.None? {
        assert k == |all| && all[..k] == all;
        return;
      }
      CollectStep(all, k);
      var range := FromStartSize(next.value.address, next.value.size);
      ranges := ranges + [range.value];
      k := k + 1;
    }
  }

  /** Runs the reserved-memory iterator to its end. */
  method CollectReserved(v: NodeView, ghost root: Node) returns (ranges: seq<PhysRange>)
    requires Shows(v, root) && SemanticsOk(root, v.strings)
    ensures ranges == AllPhys(ReservedOf(root, v.strings))
  {
    hide Shows, SemanticsOk, ReservedOf, AllPhys, FromStartSize, RangesOk, ReservedMemoryRanges.Valid;
    hide ReservedMemoryRanges.Todo;
    AcceptedRanges(root, v.strings);
    ghost var all := ReservedOf(root, v.strings);
    NoneCollected(all[..0]);
    var reserved := new ReservedMemoryRanges(v, root);
    ranges := [];
    ghost var k: nat := 0;
    while true
      invariant reserved.Valid() && fresh(reserved) && fresh(reserved.Footprint())
      invariant k <= |all| && reserved.Todo() == all[k..] && ranges == AllPhys(all[..k])
      decreases |all| - k
    {
      var next := reserved.Next();
      if next.None? {
        assert k == |all| && all[..k] == all;
        return;
      }
      CollectStep(all, k);
      var range := FromStartSize(next.value.address, next.value.size);
      ranges := ranges + [range.value];
      k := k + 1;
    }
  }

  /** Runs the reservation-block iterator to its end. */
  method CollectReservations(bytes: seq<byte>, ghost n: nat) returns (entries: seq<Entry>)
    requires TerminatedAt(bytes, n)
    ensures entries == FirstEntries(bytes, n)
  {
    hide MemoryReservations.Valid, MemoryReservations.Todo, EntryOf;
    ghost var all := FirstEntries(bytes, n);
    var listed := new MemoryReservations(bytes, n);
    hide TerminatedAt, FirstEntries;
    entries := [];
    while true
      invariant fresh(listed) && listed.Valid()
      invariant |entries| <= |all| && listed.Todo() == all[|entries|..] && entries == all[..|entries|]
      decreases |all| - |entries|
    {
      var next := listed.Next();
      if next.None? {
        return;
      }
      FirstMore(all, |entries|);
      entries := entries + [next.value];
    }
  }

  lemma {:induction false} FirstMore(all: seq<Entry>, k: nat)
    requires k < |all|
    ensures all[..k] + [all[k..][0]] == all[..k + 1] && all[k..][1..] == all[k + 1..]
  {
  }

  /** Everything the tree and the reservation block exclude, with the kernel and the blob itself. */
  function ReservedBy(kernel: PhysRange, dtb: PhysRange, entries: seq<Entry>, reserved: seq<Range>): seq<PhysRange> {
    [kernel, dtb] + BA.NonEmptyRanges(entries) + AllPhys(reserved)
  }

  /** The frames that a tree and its reservation block leave to the allocator. */
  function FreeBy(t: Node, strings: seq<byte>, entries: seq<Entry>, kernel: PhysRange, dtb: PhysRange): seq<nat> {
    BA.FreeFrames(AllPhys(MemoryOf(t, strings)), ReservedBy(kernel, dtb, entries, ReservedOf(t, strings)))
  }

  /** The flag that is set once and never cleared. */
  class AllocatorClaim {
    var claimed: bool

    constructor ()
      ensures !claimed
    {
      claimed := false;
    }

    /** `BootFrameAllocator::claim` on a parsed blob: overlapping memory ranges are refused first, a
        second claim next. The one allocator that is granted owes exactly the free frames of the
        tree. */
    method Claim(fdt: Fdt, kernel: PhysRange, dtb: PhysRange, ghost t: Node, ghost n: nat)
      returns (r: BA.Admission<BA.BootFrameAllocator>)
      requires Parsed(fdt, t, n) && kernel.Valid() && dtb.Valid()
      modifies this
      ensures var disjoint := BA.Disjoint(AllPhys(MemoryOf(t, fdt.strings)));
              && (r.Accepted? <==> disjoint && !old(claimed)) && claimed == (old(claimed) || r.Accepted?)
              && (r.Rejected? ==> r.error == if disjoint then BA.AlreadyClaimed else BA.OverlappingMemoryRanges)
      ensures r.Accepted? ==>
                && fresh(r.value) && r.value.Valid()
                && r.value.Remaining() == FreeBy(t, fdt.strings, FirstEntries(fdt.reservations, n), kernel, dtb)
    {
      hide Shows, SemanticsOk, MemoryOf, ReservedOf, AllPhys, FirstEntries, EntryOf, BA.FreeFrames, BA.NonEmptyRanges;
      hide WellFormedRoot, Encodes, RangesOk, EntriesFit, NoClash, BA.BootFrameAllocator.Remaining;
      hide BA.BootFrameAllocator.Valid;
      AcceptedRanges(t, fdt.strings);
      EntriesValid(FirstEntries(fdt.reservations, n));
      PhysValid(MemoryOf(t, fdt.strings));
      PhysValid(ReservedOf(t, fdt.strings));
      var root := Root(fdt.structure, fdt.strings, t);
      var ranges := CollectMemory(root, t);
      var verdict := BA.ValidateMemoryRanges(ranges);
      if verdict.Rejected? {
        return BA.Rejected(verdict.error);
      }
      if claimed {
        return BA.Rejected(BA.AlreadyClaimed);
      }
      claimed := true;
      var entries := CollectReservations(fdt.reservations, n);
      var reserved := CollectReserved(root, t);
      var allocator := new BA.BootFrameAllocator(ranges, kernel, dtb, entries, reserved);
      r := BA.Accepted(allocator);
    }
  }

  // ----- What is owed, in the tree's terms

  /** The frame touches neither the kernel, nor the blob, nor a reservation entry, nor a reserved range. */
  predicate Clear(f: nat, kernel: PhysRange, dtb: PhysRange, entries: seq<Entry>, reserved: seq<Range>) {
    && !FrameRange(f).Overlaps(kernel) && !FrameRange(f).Overlaps(dtb)
    && (forall k :: 0 <= k < |entries| && entries[k].1 > 0 ==>
                    !FrameRange(f).Overlaps(PhysRange(entries[k].0, entries[k].0 + entries[k].1)))
    && (forall k :: 0 <= k < |reserved| ==> !FrameRange(f).Overlaps(PhysOf(reserved[k])))
  }

  lemma {:induction false} UnreservedAppend(f: nat, a: seq<PhysRange>, b: seq<PhysRange>)
    ensures BA.Unreserved(f, a + b) <==> BA.Unreserved(f, a) && BA.Unreserved(f, b)
  {
    if BA.Unreserved(f, a + b) {
      forall k | 0 <= k < |a| ensures !FrameRange(f).Overlaps(a[k]) {
        assert (a + b)[k] == a[k];
      }
      forall k | 0 <= k < |b| ensures !FrameRange(f).Overlaps(b[k]) {
        assert (a + b)[|a| + k] == b[k];
      }
    }
  }

  lemma {:induction false} UnreservedEntries(f: nat, entries: seq<Entry>)
    ensures BA.Unreserved(f, BA.NonEmptyRanges(entries)) <==>
            forall k :: 0 <= k < |entries| && entries[k].1 > 0 ==>
                        !FrameRange(f).Overlaps(PhysRange(entries[k].0, entries[k].0 + entries[k].1))
  {
    if entries != [] {
      var first := entries[0];
      var head := if first.1 == 0 then [] else [PhysRange(first.0, first.0 + first.1)];
      UnreservedEntries(f, entries[1..]);
      UnreservedAppend(f, head, BA.NonEmptyRanges(entries[1..]));
      assert first.1 > 0 ==> head[0] == PhysRange(first.0, first.0 + first.1);
      assert entries == [first] + entries[1..];
    }
  }

  lemma {:induction false} UnreservedIsClear(f: nat, kernel: PhysRange, dtb: PhysRange, entries: seq<Entry>,
                                             reserved: seq<Range>)
    ensures BA.Unreserved(f, ReservedBy(kernel, dtb, entries, reserved)) <==> Clear(f, kernel, dtb, entries, reserved)
  {
    UnreservedAppend(f, [kernel, dtb] + BA.NonEmptyRanges(entries), AllPhys(reserved));
    UnreservedAppend(f, [kernel, dtb], BA.NonEmptyRanges(entries));
    UnreservedEntries(f, entries);
    assert BA.Unreserved(f, [kernel, dtb]) <==> !FrameRange(f).Overlaps(kernel) && !FrameRange(f).Overlaps(dtb) by {
      assert [kernel, dtb][0] == kernel && [kernel, dtb][1] == dtb;
    }
  }

  /** From the blob to the frames: the allocator owes a frame exactly when it lies wholly inside a
      memory range of the tree and touches nothing excluded, and it owes no frame twice. */
  lemma {:induction false} OwedFrames(t: Node, strings: seq<byte>, kernel: PhysRange, dtb: PhysRange,
                                      entries: seq<Entry>, f: nat)
    requires BA.Disjoint(AllPhys(MemoryOf(t, strings)))
    ensures var memory, reserved := MemoryOf(t, strings), ReservedOf(t, strings);
            var owed := FreeBy(t, strings, entries, kernel, dtb);
            && BA.NoDuplicates(owed)
            && (f in owed <==>
                Clear(f, kernel, dtb, entries, reserved)
                && exists k :: 0 <= k < |memory| && BA.Inside(f, PhysOf(memory[k])))
  {
    hide MemoryOf, ReservedOf, Clear, ReservedBy, BA.FreeFrames;
    var memory, reserved := MemoryOf(t, strings), ReservedOf(t, strings);
    var excluded := ReservedBy(kernel, dtb, entries, reserved);
    BA.FreeFramesDistinct(AllPhys(memory), excluded);
    BA.FreeFramesExact(AllPhys(memory), excluded, f);
    UnreservedIsClear(f, kernel, dtb, entries, reserved);
    if k :| 0 <= k < |memory| && BA.Inside(f, PhysOf(memory[k])) {
      assert BA.Inside(f, AllPhys(memory)[k]);
    }
  }
}
