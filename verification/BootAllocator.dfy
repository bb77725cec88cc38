/** The monotonic boot-time physical frame allocator.

    `FreeFrames` is the reference: the complete frames of each RAM range, in
    range order and ascending, that touch no reservation. The allocator is
    proved to hand out exactly that sequence, one element a call, although it
    jumps over whole reservations and drops a range when the end of a
    reservation cannot be aligned.
 */
module BootAllocator {
  import opened Memory

  /** A frame that touches none of the reserved ranges. */
  predicate Unreserved(f: nat, reserved: seq<PhysRange>) {
    forall k :: 0 <= k < |reserved| ==> !FrameRange(f).Overlaps(reserved[k])
  }

  /** The unreserved frame numbers of `lo..hi`, ascending. */
  function FramesBetween(lo: nat, hi: nat, reserved: seq<PhysRange>): seq<nat>
    decreases hi - lo
  {
    if lo >= hi then []
    else if Unreserved(lo, reserved) then [lo] + FramesBetween(lo + 1, hi, reserved)
    else FramesBetween(lo + 1, hi, reserved)
  }

  /** The first frame that begins at or after `address`. */
  function FirstFrame(address: nat): nat {
    (address + FRAME_SIZE - 1) / FRAME_SIZE
  }

  /** Every allocatable frame of `ranges`, in the order the allocator owes them. */
  function FreeFrames(ranges: seq<PhysRange>, reserved: seq<PhysRange>): seq<nat> {
    if ranges == [] then []
    else
      FramesBetween(FirstFrame(ranges[0].start), ranges[0].end / FRAME_SIZE, reserved)
      + FreeFrames(ranges[1..], reserved)
  }

  predicate Disjoint(ranges: seq<PhysRange>) {
    forall i, j :: 0 <= i < j < |ranges| ==> !ranges[i].Overlaps(ranges[j])
  }

  predicate AllValid(ranges: seq<PhysRange>) {
    forall k :: 0 <= k < |ranges| ==> ranges[k].Valid()
  }

  predicate NoDuplicates(s: seq<nat>) {
    forall i, j :: 0 <= i < j < |s| ==> s[i] != s[j]
  }

  /** The frame's bytes lie inside the range. */
  predicate Inside(f: nat, range: PhysRange) {
    range.start <= FrameRange(f).start && FrameRange(f).end <= range.end
  }

  // ----- What the reference sequence contains

  lemma {:induction false} FramesBetweenExact(lo: nat, hi: nat, reserved: seq<PhysRange>, f: nat)
    ensures f in FramesBetween(lo, hi, reserved) <==> lo <= f < hi && Unreserved(f, reserved)
    decreases hi - lo
  {
    if lo < hi {
      FramesBetweenExact(lo + 1, hi, reserved, f);
    }
  }

  predicate Ascending(s: seq<nat>) {
    forall i, j :: 0 <= i < j < |s| ==> s[i] < s[j]
  }

  lemma {:induction false} FramesBetweenAscending(lo: nat, hi: nat, reserved: seq<PhysRange>)
    ensures Ascending(FramesBetween(lo, hi, reserved))
    decreases hi - lo
  {
    if lo < hi {
      FramesBetweenAscending(lo + 1, hi, reserved);
      var rest := FramesBetween(lo + 1, hi, reserved);
      forall k | 0 <= k < |rest| ensures lo < rest[k] {
        FramesBetweenExact(lo + 1, hi, reserved, rest[k]);
      }
      var all := FramesBetween(lo, hi, reserved);
      if all == [lo] + rest {
        forall i, j | 0 <= i < j < |all| ensures all[i] < all[j] {
          assert all[j] == rest[j - 1];
          assert i > 0 ==> all[i] == rest[i - 1];
        }
      }
    }
  }

  lemma {:induction false} InsideBounds(f: nat, range: PhysRange)
    ensures Inside(f, range) <==> FirstFrame(range.start) <= f < range.end / FRAME_SIZE
  {
  }

  lemma {:induction false} InsideBoth(f: nat, a: PhysRange, b: PhysRange)
    ensures Inside(f, a) && Inside(f, b) ==> a.Overlaps(b)
  {
  }

  /** A frame is owed exactly when some RAM range contains all of it and it touches
      no reservation. */
  lemma {:induction false} FreeFramesExact(ranges: seq<PhysRange>, reserved: seq<PhysRange>, f: nat)
    ensures f in FreeFrames(ranges, reserved) <==>
            Unreserved(f, reserved) && exists k :: 0 <= k < |ranges| && Inside(f, ranges[k])
  {
    if ranges != [] {
      FreeFramesExact(ranges[1..], reserved, f);
      FramesBetweenExact(FirstFrame(ranges[0].start), ranges[0].end / FRAME_SIZE, reserved, f);
      InsideBounds(f, ranges[0]);
      if k :| 0 <= k < |ranges| && Inside(f, ranges[k]) {
        assert k > 0 ==> Inside(f, ranges[1..][k - 1]);
      }
      if k :| 0 <= k < |ranges[1..]| && Inside(f, ranges[1..][k]) {
        assert Inside(f, ranges[k + 1]);
      }
    }
  }

  /** Disjoint RAM ranges never owe the same frame twice. */
  lemma {:induction false} FreeFramesDistinct(ranges: seq<PhysRange>, reserved: seq<PhysRange>)
    requires Disjoint(ranges)
    ensures NoDuplicates(FreeFrames(ranges, reserved))
  {
    if ranges != [] {
      var lo, hi := FirstFrame(ranges[0].start), ranges[0].end / FRAME_SIZE;
      FramesBetweenAscending(lo, hi, reserved);
      FreeFramesDistinct(ranges[1..], reserved);
      var first, rest := FramesBetween(lo, hi, reserved), FreeFrames(ranges[1..], reserved);
      forall i, j | 0 <= i < |first| && 0 <= j < |rest| ensures first[i] != rest[j] {
        var f := first[i];
        assert f in first;
        FramesBetweenExact(lo, hi, reserved, f);
        InsideBounds(f, ranges[0]);
        FreeFramesExact(ranges[1..], reserved, f);
        forall k | 0 <= k < |ranges[1..]| ensures !Inside(f, ranges[1..][k]) {
          InsideBoth(f, ranges[0], ranges[k + 1]);
        }
      }
      assert Ascending(first) && NoDuplicates(rest);
      var all := FreeFrames(ranges, reserved);
      assert all == first + rest;
      forall i, j | 0 <= i < j < |all| ensures all[i] != all[j] {
        if i < |first| && j >= |first| {
          assert all[j] == rest[j - |first|];
        }
      }
    }
  }

  // ----- Why jumping over a reservation loses nothing

  /** Every frame from `f` up to the end of a reservation that `f` touches also
      touches it, so the jump skips only frames that are not owed. */
  lemma {:induction false} SkipReservation(f: nat, next: nat, hi: nat, reserved: seq<PhysRange>, k: nat)
    requires k < |reserved| && FrameRange(f).Overlaps(reserved[k])
    requires f <= next <= FirstFrame(reserved[k].end)
    ensures FramesBetween(f, hi, reserved) == FramesBetween(if next < hi then next else hi, hi, reserved)
            || hi < f
    decreases next - f
  {
    if f < next && f < hi {
      assert !Unreserved(f, reserved);
      if f + 1 < next {
        assert FrameRange(f + 1).Overlaps(reserved[k]);
        SkipReservation(f + 1, next, hi, reserved, k);
      }
    }
  }

  /** `CurrentMemoryRange`: both ends frame-aligned, at least one frame left. */
  datatype Current = Current(cursor: nat, end: nat) {
    predicate Valid() {
      cursor % FRAME_SIZE == 0 && end % FRAME_SIZE == 0 && cursor < end < U64
    }
  }

  /** What an allocator in a given position still owes. */
  function Owed(current: Option<Current>, ranges: seq<PhysRange>, reserved: seq<PhysRange>): seq<nat> {
    (if current.None? then []
     else FramesBetween(current.value.cursor / FRAME_SIZE, current.value.end / FRAME_SIZE, reserved))
    + FreeFrames(ranges, reserved)
  }

  /** The position after the cursor moves to `next`. */
  function MoveTo(next: nat, end: nat): Option<Current> {
    if next >= end then None else Some(Current(next, end))
  }

  lemma {:induction false} NothingBetween(hi: nat, reserved: seq<PhysRange>)
    ensures FramesBetween(hi, hi, reserved) == []
  {
  }

  /** Where the jump lands, in frames. */
  lemma {:induction false} JumpFrames(c: Current, r: PhysRange)
    requires c.Valid() && r.Valid() && FrameRange(c.cursor / FRAME_SIZE).Overlaps(r)
    ensures var f, hi, next, aligned := c.cursor / FRAME_SIZE, c.end / FRAME_SIZE, FirstFrame(r.end), AlignUp(r.end);
            && f < hi && f < next && (aligned.None? ==> hi <= next)
            && (aligned.Some? ==> && aligned.value / FRAME_SIZE == next && c.cursor < aligned.value
                                  && aligned.value % FRAME_SIZE == 0 && (aligned.value >= c.end <==> next >= hi))
  {
    var f, hi := c.cursor / FRAME_SIZE, c.end / FRAME_SIZE;
    assert c.cursor == f * FRAME_SIZE && c.end == hi * FRAME_SIZE;
    UpToFrame(r.end);
  }

  /** The aligned end of a range is the start of the first frame behind it. */
  lemma {:induction false} UpToFrame(end: nat)
    requires end < U64
    ensures end <= FirstFrame(end) * FRAME_SIZE < end + FRAME_SIZE
    ensures AlignUp(end).Some? ==> AlignUp(end).value == FirstFrame(end) * FRAME_SIZE
    ensures AlignUp(end).None? ==> FirstFrame(end) * FRAME_SIZE >= U64
  {
    var q := end / FRAME_SIZE;
    assert end == q * FRAME_SIZE + end % FRAME_SIZE;
    assert FirstFrame(end) == if end % FRAME_SIZE == 0 then q else q + 1;
  }

  lemma {:induction false} JumpOwesTheSame(c: Current, ranges: seq<PhysRange>, reserved: seq<PhysRange>, k: nat)
    requires c.Valid() && k < |reserved| && reserved[k].Valid()
    requires FrameRange(c.cursor / FRAME_SIZE).Overlaps(reserved[k])
    ensures var aligned := AlignUp(reserved[k].end);
            var after := if aligned.None? then None else MoveTo(aligned.value, c.end);
            && Owed(after, ranges, reserved) == Owed(Some(c), ranges, reserved)
            && (after.Some? ==> after.value.Valid() && c.cursor < after.value.cursor && after.value.end == c.end)
  {
    var f, hi := c.cursor / FRAME_SIZE, c.end / FRAME_SIZE;
    var next := FirstFrame(reserved[k].end);
    JumpFrames(c, reserved[k]);
    SkipReservation(f, next, hi, reserved, k);
    hide FirstFrame, FrameRange, AlignUp, FreeFrames;
    NothingBetween(hi, reserved);
  }

  lemma {:induction false} IssueOwesTheRest(c: Current, ranges: seq<PhysRange>, reserved: seq<PhysRange>)
    requires c.Valid() && Unreserved(c.cursor / FRAME_SIZE, reserved)
    ensures var f := c.cursor / FRAME_SIZE;
            var after := MoveTo(FrameRange(f).end, c.end);
            && Owed(Some(c), ranges, reserved) == [f] + Owed(after, ranges, reserved)
            && (after.Some? ==> after.value.Valid())
  {
    var f, hi := c.cursor / FRAME_SIZE, c.end / FRAME_SIZE;
    FrameSteps(c);
    hide Unreserved, FrameRange;
    assert FramesBetween(f, hi, reserved) == [f] + FramesBetween(f + 1, hi, reserved);
  }

  lemma {:induction false} FrameSteps(c: Current)
    requires c.Valid()
    ensures var f, hi, end := c.cursor / FRAME_SIZE, c.end / FRAME_SIZE, FrameRange(c.cursor / FRAME_SIZE).end;
            && f < hi && end / FRAME_SIZE == f + 1 && end % FRAME_SIZE == 0
            && (end >= c.end <==> f + 1 >= hi)
  {
  }

  /** A range without a complete frame owes nothing; another one owes its frames first. */
  lemma {:induction false} AdvanceOwes(ranges: seq<PhysRange>, reserved: seq<PhysRange>)
    requires ranges != [] && ranges[0].Valid()
    ensures var start, end := AlignUp(ranges[0].start), AlignDown(ranges[0].end);
            if start.None? || start.value >= end then Owed(None, ranges, reserved) == Owed(None, ranges[1..], reserved)
            else
              && Current(start.value, end).Valid()
              && Owed(Some(Current(start.value, end)), ranges[1..], reserved) == Owed(None, ranges, reserved)
  {
    var range := ranges[0];
    var start, end := AlignUp(range.start), AlignDown(range.end);
    UpToFrame(range.start);
    assert end == range.end / FRAME_SIZE * FRAME_SIZE;
    var first, last := FirstFrame(range.start), range.end / FRAME_SIZE;
    assert FreeFrames(ranges, reserved) == FramesBetween(first, last, reserved) + FreeFrames(ranges[1..], reserved);
    if start.None? || start.value >= end {
      assert first >= last;
      assert FramesBetween(first, last, reserved) == [];
      assert [] + FreeFrames(ranges[1..], reserved) == FreeFrames(ranges[1..], reserved);
    } else {
      assert start.value / FRAME_SIZE == first && end / FRAME_SIZE == last;
      hide FramesBetween;
      assert [] + FreeFrames(ranges, reserved) == FreeFrames(ranges, reserved);
    }
  }

  // ----- The allocator

  datatype ClaimError = OverlappingMemoryRanges | AlreadyClaimed

  datatype Admission<+T> = Accepted(value: T) | Rejected(error: ClaimError)

  /** `validate_memory_ranges`: each range against every later one. */
  method ValidateMemoryRanges(ranges: seq<PhysRange>) returns (r: Admission<()>)
    ensures r.Accepted? <==> Disjoint(ranges)
    ensures r.Rejected? ==> r.error == OverlappingMemoryRanges
  {
    var index := 0;
    while index < |ranges|
      invariant 0 <= index <= |ranges|
      invariant forall i, j :: 0 <= i < index && i < j < |ranges| ==> !ranges[i].Overlaps(ranges[j])
    {
      var next := index + 1;
      while next < |ranges|
        invariant index < next <= |ranges|
        invariant forall j :: index < j < next ==> !ranges[index].Overlaps(ranges[j])
      {
        if ranges[index].Overlaps(ranges[next]) {
          return Rejected(OverlappingMemoryRanges);
        }
        next := next + 1;
      }
      index := index + 1;
    }
    return Accepted(());
  }

  /** The device-tree reservation entries as ranges; zero-sized entries reserve nothing. */
  function NonEmptyRanges(entries: seq<(nat, nat)>): (r: seq<PhysRange>) {
    if entries == [] then []
    else
      (if entries[0].1 == 0 then [] else [PhysRange(entries[0].0, entries[0].0 + entries[0].1)])
      + NonEmptyRanges(entries[1..])
  }

  class BootFrameAllocator {
    var memoryRanges: seq<PhysRange>
    var current: Option<Current>
    const kernel: PhysRange
    const dtb: PhysRange
    const memoryReservations: seq<(nat, nat)>
    const reservedMemory: seq<PhysRange>

    /** Everything that must not be handed out. */
    function Reserved(): seq<PhysRange> {
      [kernel, dtb] + NonEmptyRanges(memoryReservations) + reservedMemory
    }

    ghost predicate Valid()
      reads this
    {
      && AllValid(memoryRanges)
      && AllValid(Reserved())
      && (current.Some? ==> current.value.Valid())
    }

    /** The frames still owed, in order. */
    function Remaining(): seq<nat>
      reads this
    {
      Owed(current, memoryRanges, Reserved())
    }

    constructor (ranges: seq<PhysRange>, kernel: PhysRange, dtb: PhysRange,
                 memoryReservations: seq<(nat, nat)>, reservedMemory: seq<PhysRange>)
      requires AllValid(ranges) && Disjoint(ranges)
      requires AllValid([kernel, dtb] + NonEmptyRanges(memoryReservations) + reservedMemory)
      ensures Valid() && Remaining() == FreeFrames(ranges, Reserved()) && NoDuplicates(Remaining())
      ensures Reserved() == [kernel, dtb] + NonEmptyRanges(memoryReservations) + reservedMemory
    {
      this.memoryRanges := ranges;
      this.current := None;
      this.kernel := kernel;
      this.dtb := dtb;
      this.memoryReservations := memoryReservations;
      this.reservedMemory := reservedMemory;
      new;
      FreeFramesDistinct(ranges, Reserved());
    }

    /** `overlapping_reservation`: the first reservation the candidate touches. */
    method OverlappingReservation(candidate: PhysRange) returns (r: Option<PhysRange>, ghost k: nat)
      ensures r.None? ==> forall i :: 0 <= i < |Reserved()| ==> !candidate.Overlaps(Reserved()[i])
      ensures r.Some? ==> k < |Reserved()| && Reserved()[k] == r.value && candidate.Overlaps(r.value)
    {
      k := 0;
      if candidate.Overlaps(kernel) {
        return Some(kernel), 0;
      }
      if candidate.Overlaps(dtb) {
        return Some(dtb), 1;
      }
      ghost var listed := NonEmptyRanges(memoryReservations);
      var index := 0;
      ghost var seen := 0;
      while index < |memoryReservations|
        invariant 0 <= index <= |memoryReservations|
        invariant seen <= |listed|
        invariant NonEmptyRanges(memoryReservations[index..]) == listed[seen..]
        invariant forall i :: 0 <= i < seen ==> !candidate.Overlaps(listed[i])
      {
        var entry := memoryReservations[index];
        assert memoryReservations[index..][1..] == memoryReservations[index + 1..];
        index := index + 1;
        if entry.1 != 0 {
          var range := PhysRange(entry.0, entry.0 + entry.1);
          assert listed[seen] == range;
          if candidate.Overlaps(range) {
            return Some(range), 2 + seen;
          }
          seen := seen + 1;
        }
      }
      var next := 0;
      while next < |reservedMemory|
        invariant 0 <= next <= |reservedMemory|
        invariant forall i :: 0 <= i < next ==> !candidate.Overlaps(reservedMemory[i])
      {
        if candidate.Overlaps(reservedMemory[next]) {
          return Some(reservedMemory[next]), 2 + |listed| + next;
        }
        next := next + 1;
      }
      return None, 0;
    }

    /** `advance_memory_range`: the next RAM range that holds a complete frame. */
    method AdvanceMemoryRange() returns (found: bool)
      requires Valid() && current.None?
      modifies this
      ensures Valid() && Remaining() == old(Remaining())
      ensures found == current.Some?
      ensures !found ==> memoryRanges == []
      ensures found ==> |memoryRanges| < old(|memoryRanges|)
    {
      while memoryRanges != []
        invariant Valid() && current.None? && Remaining() == old(Remaining())
        invariant |memoryRanges| <= old(|memoryRanges|)
        decreases |memoryRanges|
      {
        hide FreeFrames, FramesBetween, AlignUp, AlignDown;
        AdvanceOwes(memoryRanges, Reserved());
        var range := memoryRanges[0];
        memoryRanges := memoryRanges[1..];
        var start := AlignUp(range.start);
        if start.None? {
          continue;
        }
        var end := AlignDown(range.end);
        if start.value >= end {
          continue;
        }
        current := Some(Current(start.value, end));
        return true;
      }
      return false;
    }

    /** `allocate`: the head of the owed sequence, or nothing exactly when none is left. */
    method Allocate() returns (frame: Option<nat>)
      requires Valid()
      modifies this
      ensures Valid()
      ensures frame.None? <==> old(Remaining()) == []
      ensures frame.None? ==> Remaining() == []
      ensures frame.Some? ==> frame.value == old(Remaining())[0] && Remaining() == old(Remaining())[1..]
    {
      while true
        invariant Valid() && Remaining() == old(Remaining())
        decreases |memoryRanges|, if current.Some? then current.value.end - current.value.cursor else 0
      {
        if current.None? {
          var found := AdvanceMemoryRange();
          if !found {
            return None;
          }
        }
        var range := current.value;
        var candidate := range.cursor / FRAME_SIZE;
        var reserved, k := OverlappingReservation(FrameRange(candidate));
        if reserved.Some? {
          JumpOwesTheSame(range, memoryRanges, Reserved(), k);
          var next := AlignUp(reserved.value.end);
          if next.None? {
            current := None;
            continue;
          }
          current := MoveTo(next.value, range.end);
          continue;
        }
        IssueOwesTheRest(range, memoryRanges, Reserved());
        current := MoveTo(FrameRange(candidate).end, range.end);
        return Some(candidate);
      }
    }
  }
}
