/** How many frames the table operations take from the allocator.
 */
module FrameUse {
  import opened Memory
  import opened Sv39
  import opened PageTable

  /** `after` is `before` without at most `n` frames at the front. */
  predicate UsedAtMost(before: seq<nat>, after: seq<nat>, n: nat) {
    |before| - n <= |after| <= |before| && after == before[|before| - |after|..]
  }

  lemma {:induction false} UsedMore(a: seq<nat>, b: seq<nat>, c: seq<nat>, m: nat, n: nat)
    requires UsedAtMost(a, b, m) && UsedAtMost(b, c, n)
    ensures UsedAtMost(a, c, m + n)
  {
  }

  lemma {:induction false} StillAvailable(before: seq<nat>, after: seq<nat>, m: nat, n: nat)
    requires UsedAtMost(before, after, m) && Available(before, m + n)
    ensures Available(after, n)
  {
    forall k | 0 <= k < n ensures after[k] < PPN_LIMIT {
      assert after[k] == before[|before| - |after| + k];
    }
  }

  lemma {:induction false} NextTableUses(s: State, parent: nat, index: nat)
    requires index < ENTRIES
    ensures UsedAtMost(s.rest, NextTable(s, parent, index).state.rest, 1)
  {
    hide IntermediateFrame, PageTableEntry;
  }

  lemma {:induction false} DescendUses(s: State, root: nat, va: nat)
    ensures UsedAtMost(s.rest, Descend(s, root, va).state.rest, 2)
  {
    hide NextTable, UsedAtMost;
    var first := NextTable(s, root, va / 0x4000_0000 % 512);
    NextTableUses(s, root, va / 0x4000_0000 % 512);
    UsedNothing(first.state.rest);
    UsedMore(s.rest, first.state.rest, first.state.rest, 1, 1);
    if first.result.Ok? {
      NextTableUses(first.state, first.result.value, va / 0x20_0000 % 512);
      UsedMore(s.rest, first.state.rest, Descend(s, root, va).state.rest, 1, 1);
    }
  }

  lemma {:induction false} UsedNothing(rest: seq<nat>)
    ensures UsedAtMost(rest, rest, 0) && UsedAtMost(rest, rest, 1) && UsedAtMost(rest, rest, 2)
  {
  }

  lemma {:induction false} MapPageUses(s: State, root: nat, va: nat, frame: nat, permissions: Permissions, user: bool)
    ensures UsedAtMost(s.rest, MapPage(s, root, va, frame, permissions, user).state.rest, 2)
  {
    hide Descend, UsedAtMost, LeafFlags, Canonical, PageTableEntry;
    DescendUses(s, root, va);
    UsedNothing(s.rest);
  }

  lemma {:induction false} NeedsAtMostTwo(mem: Mem, root: nat, p: nat, rest: seq<nat>)
    requires Available(rest, 2)
    ensures Available(rest, TablesNeeded(mem, root, p))
  {
  }

  lemma {:induction false} Enough(rest: seq<nat>, m: nat, n: nat)
    requires Available(rest, m + n)
    ensures Available(rest, m)
  {
  }
}
