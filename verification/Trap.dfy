/** The trap entry and restore protocol: how user and supervisor traps choose a stack, save the
    interrupted registers, and give them back.

    `HartState` is the part of a hart the assembly touches. The two assembly routines are modelled
    instruction by instruction by the class at the end and summarized by the functions here.
 */
module Trap {
  import opened Memory

  /** `size_of::<TrapFrame>()`: 32 registers and four words of metadata. */
  const FRAME_BYTES: nat := 288
  const FRAME_WORDS: nat := 36

  // Status weights: origin (SPP), previous enable (SPIE), interrupt enable (SIE).
  const SPP: nat := 256
  const SPIE: nat := 32
  const SIE: nat := 2

  const RA: nat := 1
  const SP: nat := 2
  const GP: nat := 3
  const TP: nat := 4
  const T0: nat := 5
  const A0: nat := 10
  const A7: nat := 17

  const TIMER_INTERRUPT: nat := 0x8000_0000_0000_0005
  const ILLEGAL_INSTRUCTION: nat := 2
  const USER_ECALL: nat := 8

  predicate Bit(n: nat, weight: nat)
    requires weight > 0
  {
    n / weight % 2 == 1
  }

  function Without(n: nat, weight: nat): nat
    requires weight > 0
  {
    if Bit(n, weight) then n - weight else n
  }

  function With(n: nat, weight: nat, on: bool): nat
    requires weight > 0
  {
    Without(n, weight) + if on then weight else 0
  }

  /** Registers, control registers and supervisor stack memory in 64-bit words. */
  datatype HartState = HartState(
    regs: seq<nat>, pc: nat, user: bool,
    sscratch: nat, sepc: nat, status: nat, cause: nat, value: nat,
    mem: map<nat, nat>)

  predicate Wellformed(h: HartState) {
    |h.regs| == 32 && h.regs[0] == 0
  }

  /** What a trap saves: the interrupted registers and the trap's metadata. */
  datatype Frame = Frame(regs: seq<nat>, epc: nat, status: nat, cause: nat, value: nat) {
    predicate Valid() {
      |regs| == 32 && regs[0] == 0
    }

    /** The frame's words in memory order. */
    function Word(k: nat): nat
      requires Valid() && k < FRAME_WORDS
    {
      if k < 32 then regs[k] else if k == 32 then epc else if k == 33 then status else if k == 34 then cause else value
    }
  }

  /** Memory holds the frame at `base`. */
  predicate SavedAt(mem: map<nat, nat>, base: nat, f: Frame) {
    f.Valid() && forall k :: 0 <= k < FRAME_WORDS ==> base + 8 * k in mem && mem[base + 8 * k] == f.Word(k)
  }

  /** All words of a frame at `base` are present. */
  predicate FramePresent(mem: map<nat, nat>, base: nat) {
    forall k :: 0 <= k < FRAME_WORDS ==> base + 8 * k in mem
  }

  /** The frame that memory holds at `base`; register zero is never loaded. */
  function ReadFrame(mem: map<nat, nat>, base: nat): (f: Frame)
    requires FramePresent(mem, base)
    ensures f.Valid()
  {
    Frame(seq(32, k requires 0 <= k < 32 => if k == 0 then 0 else mem[base + 8 * k]),
          mem[base + 8 * 32], mem[base + 8 * 33], mem[base + 8 * 34], mem[base + 8 * 35])
  }

  lemma {:induction false} SavedIsRead(mem: map<nat, nat>, base: nat, f: Frame)
    requires SavedAt(mem, base, f)
    ensures FramePresent(mem, base) && ReadFrame(mem, base) == f
  {
    var g := ReadFrame(mem, base);
    forall r | 0 <= r < 32 ensures g.regs[r] == f.regs[r] {
      assert mem[base + 8 * r] == f.Word(r);
    }
    assert mem[base + 8 * 32] == f.Word(32) && mem[base + 8 * 33] == f.Word(33);
    assert mem[base + 8 * 34] == f.Word(34) && mem[base + 8 * 35] == f.Word(35);
  }

  /** Nothing outside the frame's words changed. */
  ghost predicate OnlyFrame(mem: map<nat, nat>, mem': map<nat, nat>, base: nat) {
    forall a :: !(base <= a < base + FRAME_BYTES) ==> (a in mem' <==> a in mem) && (a in mem ==> mem'[a] == mem[a])
  }

  /** What the hardware does on a trap: records the origin, masks interrupts, enters supervisor mode. */
  function TakeTrap(h: HartState, vector: nat, cause: nat, value: nat): HartState {
    h.(sepc := h.pc, pc := vector, user := false, cause := cause, value := value,
       status := With(With(Without(h.status, SIE), SPIE, Bit(h.status, SIE)), SPP, !h.user))
  }

  /** What `sret` does. */
  function ReturnFromTrap(h: HartState): HartState {
    h.(pc := h.sepc, user := !Bit(h.status, SPP),
       status := Without(With(h.status, SIE, Bit(h.status, SPIE)), SPP))
  }

  /** Where `__trap_entry` puts the frame: on the stack in `sscratch`, or on the interrupted one. */
  function StackFor(h: HartState): nat
    requires Wellformed(h)
  {
    if h.sscratch != 0 then h.sscratch else h.regs[SP]
  }

  /** `__trap_entry` up to the handler call. */
  ghost predicate Entered(h: HartState, h': HartState)
    requires Wellformed(h)
  {
    var base := StackFor(h) - FRAME_BYTES;
    && base >= 0
    && Wellformed(h') && !h'.user && h'.sscratch == 0 && h'.regs[SP] == base && h'.regs[A0] == base
    && SavedAt(h'.mem, base, Frame(h.regs, h.sepc, h.status, h.cause, h.value))
    && OnlyFrame(h.mem, h'.mem, base)
  }

  /** `__trap_restore` with the final `sret`, from a frame at the stack pointer. */
  function Restored(h: HartState, f: Frame): HartState
    requires Wellformed(h) && f.Valid()
  {
    var status := Without(f.status, SIE);
    ReturnFromTrap(h.(regs := f.regs, sepc := f.epc, status := status,
                      sscratch := if Bit(status, SPP) then 0 else h.regs[SP] + FRAME_BYTES))
  }

  // ----- The handler

  /** How `trap_handler` ends: it resumes with an updated frame, or never returns. */
  datatype Outcome = Resume(frame: Frame) | Fatal

  /** What the handler's callees report: the timer's success, and what a system call with a number and
      an argument returns, if it returns at all. */
  datatype Environment = Environment(
    timerOk: bool, syscall: (nat, nat) -> Option<nat>, probe: nat, unavailable: nat)

  /** `trap_handler`. */
  function Handle(f: Frame, env: Environment): Outcome
    requires f.Valid()
  {
    var supervisor := Bit(f.status, SPP);
    if supervisor && f.cause == ILLEGAL_INSTRUCTION && f.epc == env.probe then Resume(f.(epc := env.unavailable))
    else if f.cause == TIMER_INTERRUPT then
      if env.timerOk then Resume(f) else Fatal
    else if !supervisor then
      if f.cause == USER_ECALL then
        if f.epc + 4 >= U64 then Fatal
        else
          var returned := env.syscall(f.regs[A7], f.regs[A0]);
          if returned.None? then Fatal
          else Resume(f.(epc := f.epc + 4, regs := f.regs[A0 := returned.value]))
      else Fatal
    else Fatal
  }

  /** The three traps a handler returns from: a user system call that returns, the counter probe, and
      a timer tick. */
  predicate ReturningCall(f: Frame, env: Environment)
    requires f.Valid()
  {
    f.cause == 8 && f.status / 256 % 2 == 0 && f.epc + 4 < U64 && env.syscall(f.regs[17], f.regs[10]).Some?
  }

  predicate CounterProbe(f: Frame, env: Environment) {
    f.cause == 2 && f.status / 256 % 2 == 1 && f.epc == env.probe
  }

  predicate TimerTick(f: Frame, env: Environment) {
    f.cause == 0x8000_0000_0000_0005 && env.timerOk
  }

  /** When the handler resumes, and with which frame: a system call with a7 and a0 as its arguments
      puts its result into a0 and steps over the call, the probe continues at the other address, a
      tick changes nothing. Every other trap is fatal. */
  lemma {:induction false} HandleExactly(f: Frame, env: Environment)
    requires f.Valid()
    ensures Handle(f, env).Resume? <==> ReturningCall(f, env) || CounterProbe(f, env) || TimerTick(f, env)
    ensures ReturningCall(f, env) ==>
              var g := Handle(f, env).frame;
              && g.regs[10] == env.syscall(f.regs[17], f.regs[10]).value && g.epc == f.epc + 4
              && |g.regs| == 32 && (forall r :: 0 <= r < 32 && r != 10 ==> g.regs[r] == f.regs[r])
              && g.status == f.status && g.cause == f.cause && g.value == f.value
    ensures CounterProbe(f, env) ==>
              var g := Handle(f, env).frame;
              && g.epc == env.unavailable && g.regs == f.regs
              && g.status == f.status && g.cause == f.cause && g.value == f.value
    ensures TimerTick(f, env) ==> Handle(f, env).frame == f
  {
  }

  /** What a returning handler may change: nothing for a timer tick, only the resume address for
      the counter probe, and only a0 and a step over the call for a system call. */
  lemma {:induction false} HandleChangesLittle(f: Frame, env: Environment)
    requires f.Valid() && Handle(f, env).Resume?
    ensures var g := Handle(f, env).frame;
            && g.Valid() && g.status == f.status
            && (forall r :: 0 <= r < 32 && r != A0 ==> g.regs[r] == f.regs[r])
            && (g.regs[A0] != f.regs[A0] ==> f.cause == USER_ECALL && !Bit(f.status, SPP))
            && (g.epc != f.epc ==>
                  || (f.cause == USER_ECALL && !Bit(f.status, SPP) && g.epc == f.epc + 4)
                  || (f.cause == ILLEGAL_INSTRUCTION && Bit(f.status, SPP)
                      && f.epc == env.probe && g.epc == env.unavailable))
  {
  }

  /** `UserContext::new`: zeroed registers but for the stack pointer, user mode and interrupts on return. */
  function UserContext(entry: nat, stack: nat): (f: Frame)
    ensures f.Valid()
  {
    Frame(seq(32, _ => 0)[SP := stack], entry, 2 * 0x1_0000_0000 + SPIE, 0, 0)
  }

  // ----- Whole runs

  /** A trap that has been entered and not yet returned: where its frame is and what it holds. */
  datatype Activation = Activation(base: nat, frame: Frame, fromUser: bool)

  /** A hart, and as bookkeeping its open traps, outermost first. */
  datatype Machine = Machine(h: HartState, open: seq<Activation>)

  datatype Event =
    | UserRuns(regs: seq<nat>, pc: nat)
    | SupervisorRuns(regs: seq<nat>, pc: nat, mem: map<nat, nat>)
    | Enter(cause: nat, value: nat, h: HartState) // `h`: the hart when the handler starts
    | Leave(env: Environment)
    | EnterUser(frame: Frame, mem: map<nat, nat>) // `mem`: memory with that frame below the stack top

  /** Two memories agree on every open frame. */
  ghost predicate FramesKept(open: seq<Activation>, mem: map<nat, nat>, mem': map<nat, nat>) {
    forall k, a :: 0 <= k < |open| && open[k].base <= a < open[k].base + FRAME_BYTES ==>
      (a in mem' <==> a in mem) && (a in mem ==> mem'[a] == mem[a])
  }

  /** When an event can happen. User code owns its registers only. Supervisor code keeps its stack
      pointer at or below the innermost open frame and does not write into open frames. A trap
      runs the entry code. A handler returns with the stack pointer it was called with. */
  ghost predicate Possible(m: Machine, e: Event, top: nat, vector: nat) {
    && Wellformed(m.h)
    && match e
       case UserRuns(regs, pc) => m.h.user && |regs| == 32 && regs[0] == 0
       case SupervisorRuns(regs, pc, mem) =>
         && !m.h.user && |regs| == 32 && regs[0] == 0
         && FramesKept(m.open, m.h.mem, mem)
         && (m.open != [] ==> regs[SP] <= m.open[|m.open| - 1].base)
       case Enter(cause, value, h) => Entered(TakeTrap(m.h, vector, cause, value), h)
       case Leave(env) =>
         && !m.h.user && m.open != [] && m.h.regs[SP] == m.open[|m.open| - 1].base
         && FramePresent(m.h.mem, m.h.regs[SP]) && Handle(ReadFrame(m.h.mem, m.h.regs[SP]), env).Resume?
       case EnterUser(frame, mem) =>
         && !m.h.user && m.open == [] && !Bit(frame.status, SPP) && top >= FRAME_BYTES
         && SavedAt(mem, top - FRAME_BYTES, frame)
  }

  /** The state after an event. Leaving reads the frame back from memory, as the assembly does. */
  ghost function After(m: Machine, e: Event, top: nat, vector: nat): Machine
    requires Possible(m, e, top, vector)
  {
    match e
    case UserRuns(regs, pc) => m.(h := m.h.(regs := regs, pc := pc))
    case SupervisorRuns(regs, pc, mem) => m.(h := m.h.(regs := regs, pc := pc, mem := mem))
    case Enter(cause, value, h) =>
      var taken := TakeTrap(m.h, vector, cause, value);
      Machine(h, m.open + [Activation(StackFor(taken) - FRAME_BYTES,
                                      Frame(taken.regs, taken.sepc, taken.status, taken.cause, taken.value), m.h.user)])
    case Leave(env) =>
      var sp := m.h.regs[SP];
      var f := Handle(ReadFrame(m.h.mem, sp), env).frame;
      var written := m.h.(mem := m.h.mem[sp + 8 * 32 := f.epc][sp + 8 * A0 := f.regs[A0]]);
      Machine(Restored(written, f), m.open[..|m.open| - 1])
    case EnterUser(frame, mem) =>
      var sp := top - FRAME_BYTES;
      SavedIsRead(mem, sp, frame);
      Machine(Restored(m.h.(mem := mem, regs := m.h.regs[SP := sp]), ReadFrame(mem, sp)), [])
  }

  /** The protocol's invariant for a kernel stack ending at `top`. User code runs with `top` in
      `sscratch` and no trap open. Supervisor code runs with zero there; only the outermost trap
      can come from user code, and then its frame sits right below `top`; the open frames lie
      below each other, intact. */
  ghost predicate Protocol(m: Machine, top: nat) {
    && Wellformed(m.h) && FRAME_BYTES <= top
    && (m.h.user ==> m.open == [] && m.h.sscratch == top)
    && (!m.h.user ==> m.h.sscratch == 0)
    && (m.open != [] ==> m.h.regs[SP] <= m.open[|m.open| - 1].base)
    && IntactTraps(m.open, m.h.mem, top)
  }

  ghost predicate IntactTraps(open: seq<Activation>, mem: map<nat, nat>, top: nat) {
    && (forall k :: 0 <= k < |open| ==>
          var a := open[k];
          && SavedAt(mem, a.base, a.frame)
          && Bit(a.frame.status, SPP) == !a.fromUser
          && (if a.fromUser then k == 0 && a.base + FRAME_BYTES == top else a.frame.regs[SP] == a.base + FRAME_BYTES))
    && (forall k :: 0 < k < |open| ==> open[k].base + FRAME_BYTES <= open[k - 1].base)
  }

  // ----- Status bits

  lemma {:induction false} OriginSet(n: nat, on: bool)
    ensures Bit(With(n, SPP, on), SPP) == on
  {
    var q := n / 256;
    assert Bit(n, SPP) ==> q > 0 && (n - 256) / 256 == q - 1;
    var m := Without(n, SPP);
    assert m / 256 % 2 == 0;
    assert (m + 256) / 256 == m / 256 + 1;
  }

  lemma {:induction false} OriginKept(n: nat)
    ensures Bit(Without(n, SIE), SPP) == Bit(n, SPP)
  {
    var low := n % 256;
    assert n == 256 * (n / 256) + low;
    assert n / 2 == 128 * (n / 256) + low / 2;
    assert Bit(n, SIE) ==> low >= 2;
  }

  /** Bits 1, 5 and 8 do not depend on each other. */
  lemma {:induction false} StatusBits(n: nat, on: bool)
    ensures Bit(With(n, SPIE, on), SPIE) == on && Bit(With(n, SIE, on), SIE) == on
    ensures Bit(With(n, SPP, on), SPIE) == Bit(n, SPIE) && Bit(With(n, SPP, on), SIE) == Bit(n, SIE)
    ensures Bit(With(n, SPIE, on), SIE) == Bit(n, SIE)
    ensures !Bit(Without(n, SIE), SIE) && Bit(Without(n, SIE), SPIE) == Bit(n, SPIE)
  {
    SetBit(n, SIE, on);
    SetBit(n, SPIE, on);
    LowerBit(n, SIE, 8, on);
    LowerBit(n, SPIE, 4, on);
    LowerBit(n, SIE, 64, on);
    UpperBit(n);
    hide With, Without, Bit;
  }

  lemma {:induction false} SetBit(n: nat, w: nat, on: bool)
    requires w > 0
    ensures Bit(With(n, w, on), w) == on && !Bit(Without(n, w), w)
  {
    BitOff(n, w);
    BitOn(Without(n, w), w);
    hide Without;
  }

  lemma {:induction false} BitOff(n: nat, w: nat)
    requires w > 0
    ensures !Bit(Without(n, w), w)
  {
    if Bit(n, w) {
      var q := n / w;
      assert w * (q - 1) == w * q - w;
      QuotientIs(n - w, w, q - 1, n % w);
    }
  }

  lemma {:induction false} BitOn(n: nat, w: nat)
    requires w > 0 && !Bit(n, w)
    ensures Bit(n + w, w)
  {
    var q := n / w;
    assert w * (q + 1) == w * q + w;
    QuotientIs(n + w, w, q + 1, n % w);
  }

  /** Setting a bit leaves the bits of a weight that divides half of its own alone. */
  lemma {:induction false} LowerBit(n: nat, v: nat, k: nat, on: bool)
    requires v > 0 && k > 0
    ensures Bit(With(n, v * (2 * k), on), v) == Bit(n, v)
  {
    var w := v * (2 * k);
    HigherPart(n, v, k);
    if Bit(n, w) {
      AtLeast(n, w);
      HigherPart(n - w, v, k);
    }
  }

  lemma {:induction false} AtLeast(n: nat, w: nat)
    requires w > 0 && Bit(n, w)
    ensures n >= w
  {
    assert n / w >= 1;
  }

  lemma {:induction false} HigherPart(n: nat, v: nat, k: nat)
    requires v > 0
    ensures Bit(n + v * (2 * k), v) == Bit(n, v)
  {
    var q := n / v;
    assert n == v * q + n % v;
    assert v * (q + 2 * k) == v * q + v * (2 * k);
    QuotientIs(n + v * (2 * k), v, q + 2 * k, n % v);
    assert (q + 2 * k) % 2 == q % 2;
  }

  lemma {:induction false} UpperBit(n: nat)
    ensures Bit(Without(n, SIE), SPIE) == Bit(n, SPIE)
  {
    var low := n % 32;
    assert n == 32 * (n / 32) + low;
    assert n / 2 == 16 * (n / 32) + low / 2;
    assert Bit(n, SIE) ==> low >= 2;
  }

  /** A trap masks interrupts and keeps in the saved status whether they were on. */
  lemma {:induction false} InterruptsRecorded(h: HartState, vector: nat, cause: nat, value: nat)
    ensures var status := TakeTrap(h, vector, cause, value).status;
            status / 32 % 2 == h.status / 2 % 2 && status / 2 % 2 == 0
  {
    StatusBits(h.status, false);
    var off := Without(h.status, SIE);
    StatusBits(off, Bit(h.status, SIE));
    StatusBits(With(off, SPIE, Bit(h.status, SIE)), !h.user);
    hide With, Without;
  }

  /** The return turns them on again exactly if the saved status says so. */
  lemma {:induction false} InterruptsRestored(h: HartState, f: Frame)
    requires Wellformed(h) && f.Valid()
    ensures Restored(h, f).status / 2 % 2 == f.status / 32 % 2
  {
    var off := Without(f.status, SIE);
    StatusBits(f.status, false);
    StatusBits(off, Bit(off, SPIE));
    var on := With(off, SIE, Bit(off, SPIE));
    StatusBits(on, false);
    assert With(on, SPP, false) == Without(on, SPP);
    hide With, Without;
  }

  /** The origin recorded by the hardware survives the entry code and decides the return. */
  lemma {:induction false} TrapRecordsOrigin(h: HartState, vector: nat, cause: nat, value: nat)
    ensures Bit(TakeTrap(h, vector, cause, value).status, SPP) == !h.user
  {
    OriginSet(With(Without(h.status, SIE), SPIE, Bit(h.status, SIE)), !h.user);
  }

  lemma {:induction false} RestoreFollowsOrigin(h: HartState, f: Frame)
    requires Wellformed(h) && f.Valid()
    ensures var r := Restored(h, f);
            && r.user == !Bit(f.status, SPP)
            && r.sscratch == (if Bit(f.status, SPP) then 0 else h.regs[SP] + FRAME_BYTES)
            && r.regs == f.regs && r.pc == f.epc && r.mem == h.mem
  {
    OriginKept(f.status);
  }

  // ----- Every event keeps the protocol

  lemma {:induction false} SavedKept(a: Activation, mem: map<nat, nat>, mem': map<nat, nat>)
    requires SavedAt(mem, a.base, a.frame)
    requires forall x :: a.base <= x < a.base + FRAME_BYTES ==>
        (x in mem' <==> x in mem) && (x in mem ==> mem'[x] == mem[x])
    ensures SavedAt(mem', a.base, a.frame)
  {
  }

  lemma {:induction false} BelowAll(open: seq<Activation>, k: nat)
    requires k < |open|
    requires forall j :: 0 < j < |open| ==> open[j].base + FRAME_BYTES <= open[j - 1].base
    ensures open[|open| - 1].base <= open[k].base
    decreases |open| - k
  {
    if k < |open| - 1 {
      BelowAll(open, k + 1);
    }
  }

  lemma {:induction false} EnterKeepsProtocol(m: Machine, cause: nat, value: nat, h: HartState, top: nat, vector: nat)
    requires Protocol(m, top) && Possible(m, Enter(cause, value, h), top, vector)
    ensures Protocol(After(m, Enter(cause, value, h), top, vector), top)
  {
    var taken := TakeTrap(m.h, vector, cause, value);
    TrapRecordsOrigin(m.h, vector, cause, value);
    var base := StackFor(taken) - FRAME_BYTES;
    var m' := After(m, Enter(cause, value, h), top, vector);
    hide With, Without, Bit, SavedAt, IntactTraps, OnlyFrame;
    InnermostOpened(m.open, m.h.mem, h.mem, m'.open[|m.open|], top);
  }

  lemma {:induction false} InnermostOpened(open: seq<Activation>, mem: map<nat, nat>, mem': map<nat, nat>,
                                           a: Activation, top: nat)
    requires IntactTraps(open, mem, top) && OnlyFrame(mem, mem', a.base)
    requires open != [] ==> !a.fromUser && a.base + FRAME_BYTES <= open[|open| - 1].base
    requires SavedAt(mem', a.base, a.frame) && Bit(a.frame.status, SPP) == !a.fromUser
    requires if a.fromUser then a.base + FRAME_BYTES == top else a.frame.regs[SP] == a.base + FRAME_BYTES
    ensures IntactTraps(open + [a], mem', top)
  {
    hide Bit, SavedAt;
    forall k | 0 <= k < |open| ensures SavedAt(mem', open[k].base, open[k].frame) {
      BelowAll(open, k);
      SavedKept(open[k], mem, mem');
    }
  }

  /** Returning gives back what the innermost open trap saved, changed only by its handler, in the
      mode it came from, with `sscratch` right for that mode. */
  lemma {:induction false} LeaveRestores(m: Machine, env: Environment, top: nat, vector: nat)
    requires Protocol(m, top) && Possible(m, Leave(env), top, vector)
    ensures var a := m.open[|m.open| - 1];
            var m' := After(m, Leave(env), top, vector);
            && Handle(a.frame, env).Resume?
            && m'.h.regs == Handle(a.frame, env).frame.regs && m'.h.pc == Handle(a.frame, env).frame.epc
            && m'.h.user == a.fromUser && m'.h.sscratch == (if a.fromUser then top else 0)
            && m'.h.status / 2 % 2 == a.frame.status / 32 % 2
            && m'.open == m.open[..|m.open| - 1] && Wellformed(m'.h)
            && forall x :: !(a.base <= x < a.base + FRAME_BYTES) ==>
                 (x in m'.h.mem <==> x in m.h.mem) && (x in m.h.mem ==> m'.h.mem[x] == m.h.mem[x])
  {
    var a := m.open[|m.open| - 1];
    var sp := m.h.regs[SP];
    assert SavedAt(m.h.mem, a.base, a.frame);
    SavedIsRead(m.h.mem, sp, a.frame);
    HandleChangesLittle(a.frame, env);
    var f := Handle(a.frame, env).frame;
    var written := m.h.(mem := m.h.mem[sp + 8 * 32 := f.epc][sp + 8 * A0 := f.regs[A0]]);
    RestoreFollowsOrigin(written, f);
    InterruptsRestored(written, f);
  }

  lemma {:induction false} LeaveKeepsProtocol(m: Machine, env: Environment, top: nat, vector: nat)
    requires Protocol(m, top) && Possible(m, Leave(env), top, vector)
    ensures Protocol(After(m, Leave(env), top, vector), top)
  {
    hide After, IntactTraps, Handle, FramePresent, ReadFrame, SavedAt, Bit, Entered;
    LeaveRestores(m, env, top, vector);
    var a := m.open[|m.open| - 1];
    InnermostStack(m.open, m.h.mem, top);
    HandleChangesLittle(a.frame, env);
    var m' := After(m, Leave(env), top, vector);
    InnermostClosed(m.open, m.h.mem, m'.h.mem, top);
  }

  /** The stack pointer that the innermost open trap gives back lies at or below the next frame. */
  lemma {:induction false} InnermostStack(open: seq<Activation>, mem: map<nat, nat>, top: nat)
    requires open != [] && IntactTraps(open, mem, top)
    ensures var a := open[|open| - 1];
            && a.frame.Valid() && (a.fromUser ==> |open| == 1)
            && (|open| > 1 ==> a.frame.regs[SP] <= open[|open| - 2].base)
  {
    hide Bit;
  }

  lemma {:induction false} InnermostClosed(open: seq<Activation>, mem: map<nat, nat>, mem': map<nat, nat>, top: nat)
    requires open != [] && IntactTraps(open, mem, top)
    requires var a := open[|open| - 1];
             forall x :: !(a.base <= x < a.base + FRAME_BYTES) ==>
               (x in mem' <==> x in mem) && (x in mem ==> mem'[x] == mem[x])
    ensures IntactTraps(open[..|open| - 1], mem', top)
    ensures open[|open| - 1].fromUser ==> |open| == 1
  {
    hide Bit, SavedAt;
    var rest := open[..|open| - 1];
    forall k | 0 <= k < |rest| ensures SavedAt(mem', rest[k].base, rest[k].frame) {
      BelowAll(rest, k);
      SavedKept(rest[k], mem, mem');
    }
  }

  lemma {:induction false} QuietKeepsProtocol(m: Machine, e: Event, top: nat, vector: nat)
    requires Protocol(m, top) && Possible(m, e, top, vector) && (e.UserRuns? || e.SupervisorRuns? || e.EnterUser?)
    ensures Protocol(After(m, e, top, vector), top)
  {
    var m' := After(m, e, top, vector);
    match e
    case UserRuns(_, _) =>
    case SupervisorRuns(_, _, mem) =>
      hide Bit;
      forall k | 0 <= k < |m.open| ensures SavedAt(mem, m.open[k].base, m.open[k].frame) {
        SavedKept(m.open[k], m.h.mem, mem);
      }
    case EnterUser(frame, mem) =>
      var sp := top - FRAME_BYTES;
      SavedIsRead(mem, sp, frame);
      RestoreFollowsOrigin(m.h.(mem := mem, regs := m.h.regs[SP := sp]), frame);
  }

  /** Whatever happens next, the protocol holds afterwards. */
  lemma {:induction false} EventKeepsProtocol(m: Machine, e: Event, top: nat, vector: nat)
    requires Protocol(m, top) && Possible(m, e, top, vector)
    ensures Protocol(After(m, e, top, vector), top)
  {
    hide Protocol;
    match e
    case Enter(cause, value, h) => EnterKeepsProtocol(m, cause, value, h, top, vector);
    case Leave(env) => LeaveKeepsProtocol(m, env, top, vector);
    case _ => QuietKeepsProtocol(m, e, top, vector);
  }

  // ----- Every run

  /** `m'` is reached from `m` by `events`, with at least `depth` traps open all the way. */
  ghost predicate Reaches(m: Machine, events: seq<Event>, m': Machine, depth: nat, top: nat, vector: nat)
    decreases |events|
  {
    if events == [] then m' == m
    else
      && Possible(m, events[0], top, vector)
      && |After(m, events[0], top, vector).open| >= depth
      && Reaches(After(m, events[0], top, vector), events[1..], m', depth, top, vector)
  }

  /** Over any sequence of user and supervisor execution, traps, returns and entries to user mode. */
  lemma {:induction false} RunKeepsProtocol(m: Machine, events: seq<Event>, m': Machine, depth: nat, top: nat,
                                            vector: nat)
    requires Protocol(m, top) && Reaches(m, events, m', depth, top, vector)
    ensures Protocol(m', top)
    decreases |events|
  {
    if events != [] {
      EventKeepsProtocol(m, events[0], top, vector);
      RunKeepsProtocol(After(m, events[0], top, vector), events[1..], m', depth, top, vector);
    }
  }

  lemma {:induction false} OuterTrapsStay(m: Machine, e: Event, depth: nat, top: nat, vector: nat)
    requires Possible(m, e, top, vector) && depth <= |m.open| && depth <= |After(m, e, top, vector).open| && depth > 0
    ensures After(m, e, top, vector).open[..depth] == m.open[..depth]
  {
  }

  lemma {:induction false} OpenTrapsStay(m: Machine, events: seq<Event>, m': Machine, depth: nat, top: nat, vector: nat)
    requires Reaches(m, events, m', depth, top, vector) && 0 < depth <= |m.open|
    ensures depth <= |m'.open| && m'.open[..depth] == m.open[..depth]
    decreases |events|
  {
    if events != [] {
      OuterTrapsStay(m, events[0], depth, top, vector);
      OpenTrapsStay(After(m, events[0], top, vector), events[1..], m', depth, top, vector);
    }
  }

  /** A trap and its return, whatever happens in between, including nested traps: the interrupted
      code finds its mode, its interrupts on or off, its `sscratch`, its open traps and all its registers
      as they were,
      except that a system call finds its result in a0 and continues behind the call, and the counter
      probe continues at the other address. No other trap returns at all but a timer tick. */
  lemma {:induction false} TrapRoundTrip(m: Machine, cause: nat, value: nat, h: HartState, events: seq<Event>,
                                         inner: Machine,
                      env: Environment, top: nat, vector: nat)
    requires Protocol(m, top) && Possible(m, Enter(cause, value, h), top, vector)
    requires Reaches(After(m, Enter(cause, value, h), top, vector), events, inner, |m.open| + 1, top, vector)
    requires |inner.open| == |m.open| + 1 && Possible(inner, Leave(env), top, vector)
    ensures var m' := After(inner, Leave(env), top, vector);
            && m'.h.user == m.h.user && m'.h.sscratch == m.h.sscratch && m'.open == m.open
            && m'.h.status / 2 % 2 == m.h.status / 2 % 2
            && |m'.h.regs| == 32 && (forall r :: 0 <= r < 32 && r != 10 ==> m'.h.regs[r] == m.h.regs[r])
            && if m.h.user && cause == 8 then
                 && env.syscall(m.h.regs[17], m.h.regs[10]) == Some(m'.h.regs[10])
                 && m'.h.pc == m.h.pc + 4 < U64
               else if !m.h.user && cause == 2 then
                 m.h.pc == env.probe && m'.h.pc == env.unavailable && m'.h.regs[10] == m.h.regs[10]
               else
                 && cause == 0x8000_0000_0000_0005 && env.timerOk
                 && m'.h.pc == m.h.pc && m'.h.regs[10] == m.h.regs[10]
  {
    hide Protocol, Possible, Reaches, Handle, Bit, With, Without, SavedAt, Entered;
    var entered := After(m, Enter(cause, value, h), top, vector);
    var a := EnteredTrap(m, cause, value, h, top, vector);
    hide After;
    EnterKeepsProtocol(m, cause, value, h, top, vector);
    RunKeepsProtocol(entered, events, inner, |m.open| + 1, top, vector);
    OpenTrapsStay(entered, events, inner, |m.open| + 1, top, vector);
    LeaveRestores(inner, env, top, vector);
    assert inner.open == entered.open by {
      assert inner.open[..|m.open| + 1] == inner.open;
    }
    HandlerReturned(a, env);
  }

  /** `HandleExactly` for an open trap, in terms of where it came from. */
  lemma {:induction false} HandlerReturned(a: Activation, env: Environment)
    requires a.frame.Valid() && Bit(a.frame.status, SPP) == !a.fromUser && Handle(a.frame, env).Resume?
    ensures var f, g := a.frame, Handle(a.frame, env).frame;
            && |g.regs| == 32 && (forall r :: 0 <= r < 32 && r != 10 ==> g.regs[r] == f.regs[r])
            && if a.fromUser && f.cause == 8 then
                 env.syscall(f.regs[17], f.regs[10]) == Some(g.regs[10]) && g.epc == f.epc + 4 < U64
               else if !a.fromUser && f.cause == 2 then
                 f.epc == env.probe && g.epc == env.unavailable && g.regs[10] == f.regs[10]
               else
                 && f.cause == 0x8000_0000_0000_0005 && env.timerOk
                 && g.epc == f.epc && g.regs[10] == f.regs[10]
  {
    hide Handle;
    HandleExactly(a.frame, env);
  }

  /** The trap that an entry opens. */
  lemma {:induction false} EnteredTrap(m: Machine, cause: nat, value: nat, h: HartState, top: nat, vector: nat)
    returns (a: Activation)
    requires Protocol(m, top) && Possible(m, Enter(cause, value, h), top, vector)
    ensures After(m, Enter(cause, value, h), top, vector).open == m.open + [a]
    ensures a.fromUser == m.h.user && Bit(a.frame.status, SPP) == !m.h.user
    ensures a.frame.Valid() && a.frame.regs == m.h.regs && a.frame.epc == m.h.pc && a.frame.cause == cause
    ensures m.h.sscratch == if m.h.user then top else 0
    ensures a.frame.status / 32 % 2 == m.h.status / 2 % 2
  {
    InterruptsRecorded(m.h, vector, cause, value);
    a := After(m, Enter(cause, value, h), top, vector).open[|m.open|];
    TrapRecordsOrigin(m.h, vector, cause, value);
  }

  /** The first entry to user mode: from a prepared context the program starts at its entry, on its own
      stack, with all other registers zero, interrupts on, and the kernel stack in `sscratch`. */
  lemma {:induction false} UserStarts(m: Machine, entry: nat, stack: nat, mem: map<nat, nat>, top: nat, vector: nat)
    requires Protocol(m, top) && Possible(m, EnterUser(UserContext(entry, stack), mem), top, vector)
    ensures var h := After(m, EnterUser(UserContext(entry, stack), mem), top, vector).h;
            && h.user && h.pc == entry && |h.regs| == 32 && h.regs[2] == stack
            && (forall r :: 0 <= r < 32 && r != 2 ==> h.regs[r] == 0)
            && h.sscratch == top && h.status / 2 % 2 == 1 && h.mem == mem
            && Protocol(After(m, EnterUser(UserContext(entry, stack), mem), top, vector), top)
  {
    hide SavedAt;
    var context := UserContext(entry, stack);
    var sp := top - FRAME_BYTES;
    SavedIsRead(mem, sp, context);
    QuietKeepsProtocol(m, EnterUser(context, mem), top, vector);
  }

  /** Such a context can be entered whenever the kernel has no trap open and room for a frame. */
  lemma {:induction false} UserContextEnters(m: Machine, entry: nat, stack: nat, mem: map<nat, nat>, top: nat,
                                             vector: nat)
    requires Protocol(m, top) && !m.h.user && m.open == []
    requires SavedAt(mem, top - FRAME_BYTES, UserContext(entry, stack))
    ensures Possible(m, EnterUser(UserContext(entry, stack), mem), top, vector)
  {
    hide SavedAt;
  }

  // ----- The assembly

  ghost function Interval(lo: nat, hi: nat): (s: set<nat>)
    requires lo <= hi
    ensures forall k :: k in s <==> lo <= k < hi
    decreases hi - lo
  {
    if lo == hi then {} else {hi - 1} + Interval(lo, hi - 1)
  }

  /** The words of the frame at `base` in `done` have been stored, and nothing outside it. */
  ghost predicate Stored(mem: map<nat, nat>, before: map<nat, nat>, base: nat, f: Frame, done: set<nat>) {
    && f.Valid()
    && (forall k :: k in done ==> k < FRAME_WORDS && base + 8 * k in mem && mem[base + 8 * k] == f.Word(k))
    && OnlyFrame(before, mem, base)
  }

  /** The words of the general registers, in the order in which they are stored. */
  ghost function Registers(): set<nat> {
    {T0, SP} + Interval(0, 2) + Interval(3, 5) + Interval(6, 32)
  }

  /** Bits 9, 10, 13 and 14 are off; every other bit is as it was. */
  predicate ExtensionsOff(status: nat, status': nat) {
    && status' / 0x200 % 4 == 0 && status' / 0x2000 % 4 == 0
    && status' % 0x200 == status % 0x200 && status' / 0x800 % 4 == status / 0x800 % 4
    && status' / 0x8000 == status / 0x8000
  }

  lemma {:induction false} ExtensionsCleared(status: nat)
    ensures TrapHart.WithoutExtensions(status) >= 0 && ExtensionsOff(status, TrapHart.WithoutExtensions(status))
  {
    var low, q1 := status % 0x200, status / 0x200;
    var vector, q2 := q1 % 4, q1 / 4;
    var middle, q3 := q2 % 4, q2 / 4;
    var float, high := q3 % 4, q3 / 4;
    FieldsOf(low, vector, middle, float, high);
    FieldsOf(low, 0, middle, 0, high);
    hide ExtensionsOff;
    assert TrapHart.WithoutExtensions(status) == low + middle * 0x800 + high * 0x8000;
    FieldsAgree(status, low + middle * 0x800 + high * 0x8000);
  }

  lemma {:induction false} FieldsAgree(n: nat, m: nat)
    requires m / 0x200 % 4 == 0 && m / 0x2000 % 4 == 0 && m % 0x200 == n % 0x200
    requires m / 0x800 % 4 == n / 0x800 % 4 && m / 0x8000 == n / 0x8000
    ensures ExtensionsOff(n, m)
  {
  }

  /** A number put together from its fields. */
  lemma {:induction false} FieldsOf(low: nat, vector: nat, middle: nat, float: nat, high: nat)
    requires low < 0x200 && vector < 4 && middle < 4 && float < 4
    ensures var n := low + vector * 0x200 + middle * 0x800 + float * 0x2000 + high * 0x8000;
            && n % 0x200 == low && n / 0x200 % 4 == vector && n / 0x800 % 4 == middle
            && n / 0x2000 % 4 == float && n / 0x8000 == high
  {
    var top := float + 4 * high;
    var m2 := middle + 4 * top;
    var n := low + 0x200 * (vector + 4 * m2);
    QuotientIs(n, 0x200, vector + 4 * m2, low);
    QuotientIs(n, 0x800, m2, low + 0x200 * vector);
    QuotientIs(n, 0x2000, top, low + 0x200 * vector + 0x800 * middle);
    QuotientIs(n, 0x8000, high, low + 0x200 * vector + 0x800 * middle + 0x2000 * float);
  }

  /** Every word that the save sequence stores. */
  ghost function Everything(): set<nat> {
    Registers() + {32} + {33} + {34} + {35}
  }

  lemma {:induction false} NothingLeftOut(k: nat)
    requires k < FRAME_WORDS
    ensures k in Everything()
  {
    hide Interval;
    if k < 32 && k != SP && k != T0 {
      assert k in Interval(0, 2) || k in Interval(3, 5) || k in Interval(6, 32);
    }
  }

  lemma {:induction false} AllStored(mem: map<nat, nat>, before: map<nat, nat>, base: nat, f: Frame)
    requires Stored(mem, before, base, f, Everything())
    ensures SavedAt(mem, base, f) && OnlyFrame(before, mem, base)
  {
    hide OnlyFrame, Everything;
    forall k | 0 <= k < FRAME_WORDS ensures base + 8 * k in mem && mem[base + 8 * k] == f.Word(k) {
      NothingLeftOut(k);
    }
  }

  /** A frame after its pc and its a0 are written. */
  lemma {:induction false} FrameWritten(mem: map<nat, nat>, frame: nat, epc: nat, a0: nat)
    requires FramePresent(mem, frame)
    ensures var f, mem' := ReadFrame(mem, frame), mem[frame + 8 * 32 := epc][frame + 8 * A0 := a0];
            && FramePresent(mem', frame) && ReadFrame(mem', frame) == f.(epc := epc, regs := f.regs[A0 := a0])
            && (epc == f.epc && a0 == f.regs[A0] ==> mem' == mem)
            && (a0 == f.regs[A0] ==> mem' == mem[frame + 8 * 32 := epc])
  {
    var f, mem' := ReadFrame(mem, frame), mem[frame + 8 * 32 := epc][frame + 8 * A0 := a0];
    var g := ReadFrame(mem', frame);
    assert g.regs == f.regs[A0 := a0];
  }

  /** A hart running the two assembly routines. Addresses wrap at 64 bits; the routines never
      reach a wrap when the selected stack has room for a frame. */
  class TrapHart {
    var regs: seq<nat>
    var sscratch: nat
    var sepc: nat
    var status: nat
    var cause: nat
    var value: nat
    var mem: map<nat, nat>
    const globalPointer: nat
    const returnAddress: nat

    ghost function View(pc: nat, user: bool): HartState
      reads this
    {
      HartState(regs, pc, user, sscratch, sepc, status, cause, value, mem)
    }

    /** One `sd` of the save sequence. */
    method SaveWord(k: nat, word: nat, ghost before: map<nat, nat>, ghost base: nat, ghost f: Frame,
                    ghost done: set<nat>)
      requires |regs| == 32 && regs[SP] == base && k < FRAME_WORDS && f.Valid() && word == f.Word(k)
      requires Stored(mem, before, base, f, done)
      modifies this`mem
      ensures Stored(mem, before, base, f, done + {k})
    {
      mem := mem[regs[SP] + 8 * k := word];
    }

    /** A run of consecutive `sd` instructions for registers that still hold their values. */
    method SaveRange(lo: nat, hi: nat, ghost before: map<nat, nat>, ghost base: nat, ghost f: Frame,
                     ghost done: set<nat>)
      requires |regs| == 32 && regs[SP] == base && lo <= hi <= 32 && f.Valid()
      requires forall k :: lo <= k < hi ==> regs[k] == f.regs[k]
      requires Stored(mem, before, base, f, done)
      modifies this`mem
      ensures Stored(mem, before, base, f, done + Interval(lo, hi))
    {
      ghost var now := done;
      var k := lo;
      while k < hi
        invariant lo <= k <= hi && now == done + Interval(lo, k) && Stored(mem, before, base, f, now)
      {
        SaveWord(k, regs[k], before, base, f, now);
        now := now + {k};
        k := k + 1;
      }
    }

    /** The head of `__trap_entry`: selects the stack with nothing but sp and sscratch, makes room,
        and saves t0 and the interrupted stack pointer. */
    method SelectStack(ghost pc: nat, ghost f: Frame)
      requires Wellformed(View(pc, false)) && StackFor(View(pc, false)) >= FRAME_BYTES
      requires f.Valid() && f.regs == regs
      modifies this`regs, this`sscratch, this`mem
      ensures |regs| == 32 && regs[SP] == old(StackFor(View(pc, false))) - FRAME_BYTES && sscratch == 0
      ensures forall r :: 0 <= r < 32 && r != SP && r != T0 ==> regs[r] == old(regs[r])
      ensures Stored(mem, old(mem), regs[SP], f, {T0, SP})
    {
      ghost var before, base := mem, StackFor(View(pc, false)) - FRAME_BYTES;
      // csrrw sp, sscratch, sp
      regs, sscratch := regs[SP := sscratch], regs[SP];
      if regs[SP] == 0 {
        // csrrw sp, sscratch, sp; then a frame below the interrupted stack pointer
        regs, sscratch := regs[SP := sscratch], regs[SP];
        regs := regs[SP := regs[SP] - FRAME_BYTES];
        SaveWord(T0, regs[T0], before, base, f, {});
        regs := regs[T0 := regs[SP] + FRAME_BYTES];
      } else {
        regs := regs[SP := regs[SP] - FRAME_BYTES];
        SaveWord(T0, regs[T0], before, base, f, {});
        regs := regs[T0 := sscratch];
        sscratch := 0;
      }
      SaveWord(SP, regs[T0], before, base, f, {T0});
      assert {} + {T0} + {SP} == {T0, SP};
    }

    /** `__trap_entry` up to the call of the handler. */
    method Entry(ghost pc: nat)
      requires Wellformed(View(pc, false)) && StackFor(View(pc, false)) >= FRAME_BYTES
      modifies this
      ensures Entered(old(View(pc, false)), View(pc, false))
      ensures regs[1] == returnAddress && regs[3] == globalPointer && regs[4] == 0 && regs[10] == regs[2]
      ensures ExtensionsOff(old(status), status)
    {
      hide Stored, SavedAt, OnlyFrame, Everything, Registers, StackFor, ExtensionsOff;
      ghost var before, f := mem, Frame(regs, sepc, status, cause, value);
      SelectStack(pc, f);
      ghost var base := regs[SP];
      SaveRegisters(before, base, f);
      SaveControls(before, base, f);
      PrepareCall();
      AllStored(mem, before, base, f);
    }

    /** The registers that the handler is called with. */
    method PrepareCall()
      requires |regs| == 32 && regs[0] == 0
      modifies this`regs, this`status
      ensures |regs| == 32 && regs[0] == 0 && regs[SP] == old(regs[SP]) && regs[A0] == regs[SP]
      ensures regs[1] == returnAddress && regs[3] == globalPointer && regs[4] == 0
      ensures ExtensionsOff(old(status), status)
    {
      ExtensionsCleared(status);
      hide WithoutExtensions, ExtensionsOff;
      status := WithoutExtensions(status);
      regs := regs[GP := globalPointer][TP := 0][A0 := regs[SP]][RA := returnAddress];
    }

    /** The registers that `SelectStack` has not saved. */
    method SaveRegisters(ghost before: map<nat, nat>, ghost base: nat, ghost f: Frame)
      requires |regs| == 32 && regs[SP] == base && f.Valid() && Stored(mem, before, base, f, {T0, SP})
      requires forall k :: 0 <= k < 32 && k != SP && k != T0 ==> regs[k] == f.regs[k]
      modifies this`mem
      ensures Stored(mem, before, base, f, Registers())
    {
      hide Stored, Interval;
      SaveRange(0, 2, before, base, f, {T0, SP});
      SaveRange(3, 5, before, base, f, {T0, SP} + Interval(0, 2));
      SaveRange(6, 32, before, base, f, {T0, SP} + Interval(0, 2) + Interval(3, 5));
    }

    /** The control registers. */
    method SaveControls(ghost before: map<nat, nat>, ghost base: nat, ghost f: Frame)
      requires |regs| == 32 && regs[SP] == base && f.Valid() && Stored(mem, before, base, f, Registers())
      requires sepc == f.epc && status == f.status && cause == f.cause && value == f.value
      modifies this`mem
      ensures Stored(mem, before, base, f, Everything())
    {
      hide Stored, Registers;
      SaveWord(32, sepc, before, base, f, Registers());
      SaveWord(33, status, before, base, f, Registers() + {32});
      SaveWord(34, cause, before, base, f, Registers() + {32} + {33});
      SaveWord(35, value, before, base, f, Registers() + {32} + {33} + {34});
    }

    /** `csrc sstatus`: floating-point and vector state off. */
    static function WithoutExtensions(status: nat): nat {
      status - (status / 0x2000 % 4) * 0x2000 - (status / 0x200 % 4) * 0x200
    }

    /** `trap_handler` on the frame at an address: what it writes back is what `Handle` says. */
    method HandleTrap(frame: nat, env: Environment) returns (resumed: bool)
      requires FramePresent(mem, frame)
      modifies this`mem
      ensures resumed <==> Handle(ReadFrame(old(mem), frame), env).Resume?
      ensures resumed ==>
          FramePresent(mem, frame) && Resume(ReadFrame(mem, frame)) == Handle(ReadFrame(old(mem), frame), env)
      ensures resumed ==>
                var g := Handle(ReadFrame(old(mem), frame), env).frame;
                mem == old(mem)[frame + 8 * 32 := g.epc][frame + 8 * A0 := g.regs[A0]]
      ensures !resumed ==> OnlyFrame(old(mem), mem, frame)
    {
      ghost var f := ReadFrame(mem, frame);
      var supervisor := Bit(mem[frame + 8 * 33], SPP);
      if supervisor && mem[frame + 8 * 34] == ILLEGAL_INSTRUCTION && mem[frame + 8 * 32] == env.probe {
        mem := mem[frame + 8 * 32 := env.unavailable];
        FrameWritten(old(mem), frame, env.unavailable, f.regs[A0]);
        return true;
      }
      if mem[frame + 8 * 34] == TIMER_INTERRUPT {
        FrameWritten(old(mem), frame, f.epc, f.regs[A0]);
        return env.timerOk;
      }
      if !supervisor && mem[frame + 8 * 34] == USER_ECALL {
        if mem[frame + 8 * 32] + 4 >= U64 {
          return false;
        }
        mem := mem[frame + 8 * 32 := mem[frame + 8 * 32] + 4];
        var returned := env.syscall(mem[frame + 8 * A7], mem[frame + 8 * A0]);
        if returned.None? {
          return false;
        }
        mem := mem[frame + 8 * A0 := returned.value];
        FrameWritten(old(mem), frame, f.epc + 4, returned.value);
        return true;
      }
      return false;
    }

    /** `__trap_restore` before `sret`. */
    method Restore(ghost pc: nat)
      requires Wellformed(View(pc, false)) && FramePresent(mem, regs[SP])
      modifies this
      ensures ReturnFromTrap(View(pc, false)) == Restored(old(View(pc, false)), ReadFrame(old(mem), old(regs[SP])))
    {
      var sp := regs[SP];
      ghost var f := ReadFrame(mem, sp);
      sepc := mem[sp + 8 * 32];
      status := Without(mem[sp + 8 * 33], SIE);
      sscratch := 0;
      if !Bit(status, SPP) {
        sscratch := sp + FRAME_BYTES;
      }
      var loaded := regs;
      var k := 1;
      while k < 32
        invariant 1 <= k <= 32 && |loaded| == 32 && loaded[0] == 0
        invariant forall r :: 0 <= r < k ==> loaded[r] == f.regs[r]
      {
        loaded := loaded[k := mem[sp + 8 * k]];
        k := k + 1;
      }
      regs := loaded;
      assert regs == f.regs;
    }
  }
}
