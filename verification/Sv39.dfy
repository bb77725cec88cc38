/** The Sv39 address-translation algorithm of the RISC-V Privileged Architecture,
    version 20211203 (sections 4.3.2 and 4.4.1), written without reference to the kernel:
    physical memory is a map from frame numbers to 512 machine words.
 */
module Sv39 {
  import opened Memory

  type Mem = map<nat, seq<nat>>

  const ENTRIES: nat := 512

  /** Physical page numbers have 44 bits. */
  const PPN_LIMIT: nat := 0x1000_0000_0000

  /** Virtual page numbers have 27 bits. */
  const PAGE_LIMIT: nat := 0x800_0000

  /** First page number of the canonical upper half. */
  const HIGH_PAGE: nat := 0x400_0000

  const LOW_HALF_END: nat := 0x40_0000_0000
  const HIGH_HALF_BASE: nat := 0xFFFF_FFC0_0000_0000

  // ----- Page-table entries

  const V: nat := 0x01
  const R: nat := 0x02
  const W: nat := 0x04
  const X: nat := 0x08
  const U: nat := 0x10
  const A: nat := 0x40
  const D: nat := 0x80

  /** Whether the flag with weight `bit` is set; flags are the low ten bits. */
  predicate Has(entry: nat, bit: nat)
    requires bit > 0
  {
    entry % 1024 / bit % 2 == 1
  }

  /** Bits 63..54 are reserved and the write-only combination is illegal. */
  predicate ValidEntry(entry: nat) {
    Has(entry, V) && !(Has(entry, W) && !Has(entry, R)) && entry < 1024 * PPN_LIMIT
  }

  predicate IsLeaf(entry: nat) {
    ValidEntry(entry) && (Has(entry, R) || Has(entry, X))
  }

  function Ppn(entry: nat): nat {
    entry / 1024 % PPN_LIMIT
  }

  function Flags(entry: nat): nat {
    entry % 1024
  }

  // ----- Addresses

  predicate Canonical(va: nat) {
    va < LOW_HALF_END || HIGH_HALF_BASE <= va < U64
  }

  /** The virtual page number of an address: bits 38..12. */
  function PageOf(va: nat): (p: nat)
    ensures p < PAGE_LIMIT
  {
    va / FRAME_SIZE % PAGE_LIMIT
  }

  /** Which of a page's 512 words an address falls into. */
  function WordIndex(va: nat): (i: nat)
    ensures i < ENTRIES
  {
    va % FRAME_SIZE / 8
  }

  /** The canonical address at which a page starts: bit 38 is sign-extended. */
  function AddressOf(p: nat): (va: nat)
    requires p < PAGE_LIMIT
    ensures va % FRAME_SIZE == 0 && Canonical(va)
  {
    if p < HIGH_PAGE then p * FRAME_SIZE else HIGH_HALF_BASE + (p - HIGH_PAGE) * FRAME_SIZE
  }

  /** Pages of one table entry at a level. */
  function LevelSpan(level: nat): (n: nat)
    requires level < 3
    ensures n > 0
  {
    if level == 0 then 1 else if level == 1 then 512 else 262144
  }

  function VpnAt(p: nat, level: nat): (i: nat)
    requires level < 3
    ensures i < ENTRIES
  {
    p / LevelSpan(level) % ENTRIES
  }

  // ----- Translation

  datatype Translation = Fault | Mapped(frame: nat, flags: nat)

  predicate IsTable(mem: Mem, frame: nat) {
    frame in mem && |mem[frame]| == ENTRIES
  }

  /** Physical memory after one 64-bit store to a word of a frame. */
  function SetEntry(mem: Mem, frame: nat, index: nat, value: nat): (r: Mem)
    requires IsTable(mem, frame) && index < ENTRIES
  {
    var words: seq<nat> := mem[frame][index := value];
    mem[frame := words]
  }

  /** Steps 2 to 6 of the algorithm, from the table `frame` at `level`. */
  function WalkFrom(mem: Mem, frame: nat, level: nat, p: nat): Translation
    requires level < 3
    decreases level
  {
    if !IsTable(mem, frame) then Fault
    else
      var entry := mem[frame][VpnAt(p, level)];
      if !ValidEntry(entry) then Fault
      else if IsLeaf(entry) then
        if Ppn(entry) % LevelSpan(level) != 0 then Fault
        else Mapped(Ppn(entry) + p % LevelSpan(level), Flags(entry))
      else if level == 0 then Fault
      else WalkFrom(mem, Ppn(entry), level - 1, p)
  }

  type Level = l: nat | l < 3

  /** The level of the entry that decides a walk, by mapping the page or by faulting. */
  function DecidedAt(mem: Mem, frame: nat, level: Level, p: nat): Level
    decreases level
  {
    if !IsTable(mem, frame) then level
    else
      var entry := mem[frame][VpnAt(p, level)];
      if !ValidEntry(entry) || IsLeaf(entry) || level == 0 then level
      else DecidedAt(mem, Ppn(entry), level - 1, p)
  }

  /** What page `p` translates to under the table rooted at `root`. */
  function Walk(mem: Mem, root: nat, p: nat): Translation {
    WalkFrom(mem, root, 2, p)
  }

  /** What a virtual address translates to; non-canonical addresses fault. */
  function WalkAddress(mem: Mem, root: nat, va: nat): Translation {
    if Canonical(va) then Walk(mem, root, PageOf(va)) else Fault
  }

  /** Supervisor accesses (with `SUM` clear) and accesses of user code. */
  predicate MayRead(t: Translation, user: bool) {
    t.Mapped? && Has(t.flags, R) && Has(t.flags, A) && Has(t.flags, U) == user
  }

  predicate MayWrite(t: Translation, user: bool) {
    t.Mapped? && Has(t.flags, W) && Has(t.flags, A) && Has(t.flags, D) && Has(t.flags, U) == user
  }

  predicate MayExecute(t: Translation, user: bool) {
    t.Mapped? && Has(t.flags, X) && Has(t.flags, A) && Has(t.flags, U) == user
  }

  // ----- Facts about addresses and entries

  /** Canonical page addresses and page numbers correspond one to one. */
  lemma {:induction false} PageAddressRoundTrip(va: nat, p: nat)
    requires p < PAGE_LIMIT
    ensures PageOf(AddressOf(p)) == p
    ensures Canonical(va) && va % FRAME_SIZE == 0 ==> AddressOf(PageOf(va)) == va
  {
    if p < HIGH_PAGE {
      assert p * FRAME_SIZE / FRAME_SIZE == p;
    } else {
      HighAddress(p);
    }
    if Canonical(va) && va % FRAME_SIZE == 0 {
      var q := va / FRAME_SIZE;
      assert va == q * FRAME_SIZE;
      if va >= LOW_HALF_END {
        HighRemainder(q);
      }
    }
  }

  lemma {:induction false} HighAddress(p: nat)
    requires HIGH_PAGE <= p < PAGE_LIMIT
    ensures PageOf(AddressOf(p)) == p
  {
    var q := 0xF_FFFF_F800_0000 + p;
    assert AddressOf(p) == q * FRAME_SIZE;
    assert q * FRAME_SIZE / FRAME_SIZE == q;
    HighRemainder(q);
  }

  /** A page is determined by its three table indices. */
  lemma {:induction false} IndicesDeterminePage(p: nat, q: nat)
    requires p < PAGE_LIMIT && q < PAGE_LIMIT
    requires forall level :: 0 <= level < 3 ==> VpnAt(p, level) == VpnAt(q, level)
    ensures p == q
  {
    assert VpnAt(p, 0) == VpnAt(q, 0) && VpnAt(p, 1) == VpnAt(q, 1) && VpnAt(p, 2) == VpnAt(q, 2);
    hide VpnAt;
    PageFromIndices(p);
    PageFromIndices(q);
  }

  lemma {:induction false} PageFromIndices(p: nat)
    requires p < PAGE_LIMIT
    ensures p == VpnAt(p, 2) * 262144 + VpnAt(p, 1) * 512 + VpnAt(p, 0)
  {
    var a := p / 512;
    var b := a / 512;
    assert p / 262144 == b && b < 512;
    assert VpnAt(p, 2) == b && VpnAt(p, 1) == a % 512 && VpnAt(p, 0) == p % 512;
  }

  lemma {:induction false} PageIndices(page: nat)
    ensures page % PAGE_LIMIT / 262144 % 512 == page / 262144 % 512
    ensures page % PAGE_LIMIT / 512 % 512 == page / 512 % 512
    ensures page % PAGE_LIMIT % 512 == page % 512
  {
    var p, k := page % PAGE_LIMIT, page / PAGE_LIMIT;
    assert page == k * PAGE_LIMIT + p;
    assert page / 262144 == 512 * k + p / 262144;
    assert page / 512 == 512 * (512 * k) + p / 512;
    assert page == 512 * (262144 * k) + p;
    WholeRows(k, p / 262144);
    WholeRows(512 * k, p / 512);
    WholeRows(262144 * k, p);
  }

  lemma {:induction false} WholeRows(k: nat, x: nat)
    ensures (512 * k + x) % 512 == x % 512
  {
  }

  lemma {:induction false} NestedDivision(va: nat)
    ensures va / FRAME_SIZE / 262144 == va / 0x4000_0000
    ensures va / FRAME_SIZE / 512 == va / 0x20_0000
  {
  }

  /** The kernel's shift-and-mask index fields of an address are the table indices of its page. */
  lemma {:induction false} AddressIndices(va: nat)
    ensures VpnAt(PageOf(va), 2) == va / 0x4000_0000 % 512
    ensures VpnAt(PageOf(va), 1) == va / 0x20_0000 % 512
    ensures VpnAt(PageOf(va), 0) == va / 0x1000 % 512
  {
    PageIndices(va / FRAME_SIZE);
    NestedDivision(va);
  }

  /** Page numbers of the upper half. */
  lemma {:induction false} HighRemainder(q: nat)
    requires 0xF_FFFF_FC00_0000 <= q < 0x10_0000_0000_0000
    ensures q % PAGE_LIMIT == q - 0xF_FFFF_F800_0000
  {
    var m := q - 0xF_FFFF_F800_0000;
    assert 0xF_FFFF_F800_0000 == 0x1FF_FFFF * PAGE_LIMIT;
    assert m < PAGE_LIMIT;
  }
}
