/** What user code can change: whatever it stores, the tables, the kernel, the frames of the allocator
    and its own code stay as they are.
 */
module Isolation {
  import opened Memory
  import opened Sv39
  import opened PageTable
  import opened Fixmap
  import opened FrameAccess
  import opened KernelPaging
  import opened System
  import opened Loader

  /** A run of user code: stores that its translations permit, in any order. */
  predicate UserStores(ops: seq<Op>) {
    forall k :: 0 <= k < |ops| ==> ops[k].Store? && ops[k].user
  }

  /** Some page lets user code write to the frame. */
  ghost predicate UserWritable(mem: Mem, root: nat, frame: nat) {
    exists p :: 0 <= p < PAGE_LIMIT && MayWrite(Walk(mem, root, p), true) && Walk(mem, root, p).frame == frame
  }

  /** Every frame that user code cannot write keeps its contents. */
  ghost predicate OnlyUserWrites(mem: Mem, mem': Mem, root: nat) {
    forall f :: f in mem && !UserWritable(mem, root, f) ==> f in mem' && mem'[f] == mem[f]
  }

  lemma {:induction false} SameWritable(mem: Mem, mem': Mem, root: nat, frame: nat)
    requires SameWalks(mem, mem', root)
    ensures UserWritable(mem', root, frame) <==> UserWritable(mem, root, frame)
  {
    hide Walk, Has;
    if UserWritable(mem, root, frame) {
      var p :| 0 <= p < PAGE_LIMIT && MayWrite(Walk(mem, root, p), true) && Walk(mem, root, p).frame == frame;
      assert MayWrite(Walk(mem', root, p), true);
    }
    if UserWritable(mem', root, frame) {
      var p :| 0 <= p < PAGE_LIMIT && MayWrite(Walk(mem', root, p), true) && Walk(mem', root, p).frame == frame;
      assert MayWrite(Walk(mem, root, p), true);
    }
  }

  lemma {:induction false} StoreIsUserWrite(sys: System, va: nat, word: nat)
    requires Enabled(sys, Store(va, word, true))
    ensures OnlyUserWrites(sys.s.mem, Apply(sys, Store(va, word, true)).s.mem, sys.root)
  {
    hide Walk, Has, PageOf, Canonical, WordIndex;
    PermittedIsMapped(sys.s.mem, sys.root, va, true);
    assert UserWritable(sys.s.mem, sys.root, WalkAddress(sys.s.mem, sys.root, va).frame);
  }

  lemma {:induction false} UserWritesCompose(mem: Mem, mem1: Mem, mem2: Mem, root: nat)
    requires SameWalks(mem, mem1, root)
    requires OnlyUserWrites(mem, mem1, root) && OnlyUserWrites(mem1, mem2, root)
    ensures OnlyUserWrites(mem, mem2, root)
  {
    hide UserWritable, SameWalks;
    forall f | f in mem && !UserWritable(mem, root, f) ensures f in mem2 && mem2[f] == mem[f] {
      SameWritable(mem, mem1, root, f);
    }
  }

  lemma {:induction false} SameWalksCompose(mem: Mem, mem1: Mem, mem2: Mem, root: nat)
    requires SameWalks(mem, mem1, root) && SameWalks(mem1, mem2, root)
    ensures SameWalks(mem, mem2, root)
  {
    hide Walk;
  }

  /** Any run of user code changes memory alone: no translation, and no frame except those that
      user pages make writable. */
  lemma {:induction false} UserRunIsolated(sys: System, ops: seq<Op>, pool: set<nat>)
    requires Sound(sys, pool) && Runnable(sys, ops) && UserStores(ops)
    ensures var after := Run(sys, ops);
            && Sound(after, pool) && after == sys.(s := sys.s.(mem := after.s.mem))
            && SameWalks(sys.s.mem, after.s.mem, sys.root) && OnlyUserWrites(sys.s.mem, after.s.mem, sys.root)
    decreases |ops|
  {
    hide SoundWith, SameWalks, OnlyUserWrites, Storable;
    if ops == [] {
      SameWalksSelf(sys.s.mem, sys.root);
      NothingWritten(sys.s.mem, sys.root);
    } else {
      var op := ops[0];
      var t :| SoundWith(sys, t, pool);
      var next := Apply(sys, op);
      StoreIsolated(sys, t, pool, op.va, op.word, true);
      StoreIsUserWrite(sys, op.va, op.word);
      assert Sound(next, pool);
      UserRunIsolated(next, ops[1..], pool);
      var after := Run(next, ops[1..]);
      SameWalksCompose(sys.s.mem, next.s.mem, after.s.mem, sys.root);
      UserWritesCompose(sys.s.mem, next.s.mem, after.s.mem, sys.root);
    }
  }

  lemma {:induction false} NothingWritten(mem: Mem, root: nat)
    ensures OnlyUserWrites(mem, mem, root)
  {
  }

  /** Out of reach of user code: every table, every token, every owed frame, every page the kernel
      keeps for itself in allocated frames, and every user page that is not writable. */
  lemma {:induction false} BeyondReach(sys: System, t: Tables, pool: set<nat>, frame: nat)
    requires SoundWith(sys, t, pool)
    requires || frame in t.All() || frame in sys.tokens || frame in sys.s.rest || frame !in pool
             || exists p :: UsesPool(sys.s.mem, sys.root, pool, p) && Walk(sys.s.mem, sys.root, p).frame == frame
                            && !MayWrite(Walk(sys.s.mem, sys.root, p), true)
    ensures !UserWritable(sys.s.mem, sys.root, frame)
  {
    hide Walk, Ready, Clean, Arranged, BackedByRam, AllRam, GoodHeap, Has, GoodLeaves;
    if UserWritable(sys.s.mem, sys.root, frame) {
      var q := WritablePage(sys, t, pool, frame);
      assert false;
    }
  }

  lemma {:induction false} WritablePage(sys: System, t: Tables, pool: set<nat>, frame: nat) returns (q: nat)
    requires SoundWith(sys, t, pool) && UserWritable(sys.s.mem, sys.root, frame)
    ensures UsesPool(sys.s.mem, sys.root, pool, q) && Walk(sys.s.mem, sys.root, q).frame == frame
    ensures MayWrite(Walk(sys.s.mem, sys.root, q), true)
  {
    hide Walk, Ready, Clean, Arranged, BackedByRam, AllRam, GoodHeap, Has, Exclusive;
    var mem, root := sys.s.mem, sys.root;
    q :| 0 <= q < PAGE_LIMIT && MayWrite(Walk(mem, root, q), true) && Walk(mem, root, q).frame == frame;
    FixmapIndices();
    assert GoodLeaf(q, Walk(mem, root, q), pool);
  }

  /** User code cannot alter its own program: after any run of stores every image byte, with the
      permissions of its page, is still what was loaded. */
  lemma {:induction false} ProgramKept(sys: System, ops: seq<Op>, pool: set<nat>, image: Image, i: nat)
    requires Sound(sys, pool) && Runnable(sys, ops) && UserStores(ops)
    requires ImageByteOk(sys.s.mem, sys.root, image, i)
    ensures ImageByteOk(Run(sys, ops).s.mem, sys.root, image, i)
  {
    hide Walk, Has, PageOf, Canonical, Run, Runnable, SoundWith, UserWritable, SameWalks, OnlyUserWrites;
    UserRunIsolated(sys, ops, pool);
    var t :| SoundWith(sys, t, pool);
    var after := Run(sys, ops).s.mem;
    var to := WalkAddress(sys.s.mem, sys.root, image.base + i);
    ReadableIsPool(sys, t, pool, image.base + i);
    SameAddress(sys.s.mem, after, sys.root, image.base + i);
    BeyondReach(sys, t, pool, to.frame);
    WrittenFrame(sys.s.mem, after, sys.root, to.frame);
  }

  lemma {:induction false} WrittenFrame(mem: Mem, mem': Mem, root: nat, frame: nat)
    requires OnlyUserWrites(mem, mem', root) && frame in mem && !UserWritable(mem, root, frame)
    ensures frame in mem' && mem'[frame] == mem[frame]
  {
  }

  lemma {:induction false} SameAddress(mem: Mem, mem': Mem, root: nat, va: nat)
    requires SameWalks(mem, mem', root)
    ensures WalkAddress(mem', root, va) == WalkAddress(mem, root, va)
  {
    hide Walk, PageOf;
    if Canonical(va) {
      PageInRange(va);
    }
  }

  lemma {:induction false} ReadableIsPool(sys: System, t: Tables, pool: set<nat>, va: nat)
    requires SoundWith(sys, t, pool) && MayRead(WalkAddress(sys.s.mem, sys.root, va), true)
    ensures Canonical(va) && UsesPool(sys.s.mem, sys.root, pool, PageOf(va))
  {
    hide Walk, Ready, Clean, Arranged, BackedByRam, AllRam, GoodHeap, Has, Exclusive, Canonical;
    PageInRange(va);
    FixmapIndices();
    assert GoodLeaf(PageOf(va), Walk(sys.s.mem, sys.root, PageOf(va)), pool);
  }
}
