/** The bootstrap root: a single table of 1 GiB leaves that maps itself, one of whose entries serves
    as a window onto any frame.
 */
module Gigapage {
  import opened Memory
  import opened Sv39
  import opened Hart
  import opened PageTable
  import opened Fixmap

  /** Pages and frames under one root entry. */
  const GIGA: nat := 262144

  /** Root entry of the temporary window. */
  const BOOT_FRAME_WINDOW_VPN2: nat := 511

  // ----- Gigapages

  /** First frame of the 1 GiB region of a frame. */
  function RegionOf(frame: nat): (base: nat)
    ensures base <= frame < base + GIGA && base % GIGA == 0
  {
    frame - frame % GIGA
  }

  /** The page at which a frame appears through a region leaf in a root entry. */
  function WindowPage(index: nat, frame: nat): nat {
    index * GIGA + frame % GIGA
  }

  /** A region leaf in a root entry translates every page below the entry linearly. */
  lemma {:induction false} RegionLeaf(mem: Mem, root: nat, index: nat, base: nat, permissions: Permissions, p: nat)
    requires IsTable(mem, root) && index < ENTRIES && base % GIGA == 0 && base < PPN_LIMIT
    requires mem[root][index] == PageTableEntry(base, LeafFlags(permissions, false)).value
    requires index * GIGA <= p < index * GIGA + GIGA
    ensures Walk(mem, root, p) == Mapped(base + (p - index * GIGA), LeafFlags(permissions, false))
  {
    RootIndex(index, p);
    EncodedLeaf(base, permissions, false);
  }

  lemma {:induction false} RootIndex(index: nat, p: nat)
    requires index < ENTRIES && index * GIGA <= p < index * GIGA + GIGA
    ensures VpnAt(p, 2) == index && p % LevelSpan(2) == p - index * GIGA
  {
    assert p / GIGA == index;
  }

  // ----- The active root through its identity mapping

  /** The root's own page is mapped one to one, readable and writable, by a region leaf of the
      root itself. */
  ghost predicate IdentityMapped(mem: Mem, boot: nat) {
    && boot < HIGH_PAGE && IsTable(mem, boot)
    && var leaf := mem[boot][boot / GIGA];
    && IsLeaf(leaf) && Ppn(leaf) == RegionOf(boot)
    && Has(Flags(leaf), R) && Has(Flags(leaf), W) && Has(Flags(leaf), A) && Has(Flags(leaf), D) && !Has(Flags(leaf), U)
  }

  lemma {:induction false} IdentityWalk(mem: Mem, boot: nat)
    requires IdentityMapped(mem, boot)
    ensures Walk(mem, boot, boot).Mapped? && Walk(mem, boot, boot).frame == boot
    ensures MayRead(Walk(mem, boot, boot), false) && MayWrite(Walk(mem, boot, boot), false)
  {
    RootIndex(boot / GIGA, boot);
  }

  /** Stores into other entries of the root, or other frames, keep the identity mapping. */
  lemma {:induction false} IdentityKept(mem: Mem, mem': Mem, boot: nat)
    requires IdentityMapped(mem, boot) && IsTable(mem', boot) && mem'[boot][boot / GIGA] == mem[boot][boot / GIGA]
    ensures IdentityMapped(mem', boot)
    ensures Walk(mem', boot, boot) == Walk(mem, boot, boot)
  {
    RootIndex(boot / GIGA, boot);
  }

  /** The address of a root entry through the identity mapping. */
  function RootWord(boot: nat, index: nat): nat {
    boot * FRAME_SIZE + 8 * index
  }

  lemma {:induction false} RootAddress(boot: nat, index: nat)
    requires boot < HIGH_PAGE && index < ENTRIES
    ensures var va := RootWord(boot, index);
            Canonical(va) && va % 8 == 0 && WordIndex(va) == index && PageOf(va) == boot
  {
    var va := RootWord(boot, index);
    assert va / FRAME_SIZE == boot && va % FRAME_SIZE == 8 * index;
  }

  /** Where a frame appears in the temporary window. */
  function WindowAddressOf(frame: nat): nat {
    BOOT_FRAME_WINDOW_BASE + frame % GIGA * FRAME_SIZE
  }

  lemma {:induction false} WindowPlace(frame: nat, index: nat)
    requires index < ENTRIES
    ensures var va := WindowAddressOf(frame);
            && Canonical(va) && va % FRAME_SIZE == 0 && PageOf(va) == WindowPage(511, frame)
            && Canonical(va + 8 * index) && (va + 8 * index) % 8 == 0
            && WordIndex(va + 8 * index) == index && PageOf(va + 8 * index) == WindowPage(511, frame)
  {
    var r := frame % GIGA;
    var va := WindowAddressOf(frame);
    assert BOOT_FRAME_WINDOW_BASE == 0xF_FFFF_FFFC_0000 * FRAME_SIZE;
    assert va == (0xF_FFFF_FFFC_0000 + r) * FRAME_SIZE;
    assert va / FRAME_SIZE == 0xF_FFFF_FFFC_0000 + r && (va + 8 * index) / FRAME_SIZE == 0xF_FFFF_FFFC_0000 + r;
    assert va % FRAME_SIZE == 0 && (va + 8 * index) % FRAME_SIZE == 8 * index;
    HighRemainder(0xF_FFFF_FFFC_0000 + r);
  }

  // ----- A flat root

  predicate ZeroOrLeaf(entry: nat) {
    entry == 0 || IsLeaf(entry)
  }

  /** The root links no further table. */
  ghost predicate Flat(mem: Mem, root: nat) {
    IsTable(mem, root) && forall i :: 0 <= i < ENTRIES ==> ZeroOrLeaf(mem[root][i])
  }

  /** What a flat root says about a page lies in one of its entries. */
  lemma {:induction false} FlatLookup(mem: Mem, mem': Mem, root: nat, p: nat)
    requires Flat(mem, root) && Flat(mem', root) && mem'[root][VpnAt(p, 2)] == mem[root][VpnAt(p, 2)]
    ensures Lookup(mem', root, p) == Lookup(mem, root, p) && Lookup(mem, root, p).level == 2
  {
    assert ZeroOrLeaf(mem[root][VpnAt(p, 2)]);
    LinkEntries(0);
  }

  lemma {:induction false} FlatLevel(mem: Mem, root: nat, p: nat)
    requires Flat(mem, root)
    ensures Lookup(mem, root, p).level == 2
  {
    FlatLookup(mem, mem, root, p);
  }

  /** Other frames do not matter to a flat root. */
  lemma {:induction false} FlatExact(mem: Mem, mem': Mem, root: nat, tlb: Tlb, tlb': Tlb)
    requires Flat(mem, root) && root in mem' && mem'[root] == mem[root]
    requires Exact(mem, root, tlb) && Derived(root, mem, tlb, mem', tlb')
    ensures Exact(mem', root, tlb')
  {
    hide Lookup;
    assert Flat(mem', root);
    forall q: Page | q in tlb' ensures tlb'[q] == Lookup(mem', root, q) {
      FlatLookup(mem, mem', root, q);
    }
  }

  /** Replacing one entry and fencing one address below it leaves nothing out of date. */
  lemma {:induction false} EntryFenced(mem: Mem, mem': Mem, root: nat, index: nat, tlb: Tlb, tlb1: Tlb, p: nat,
                                       tlb2: Tlb)
    requires Flat(mem, root) && Flat(mem', root) && index < ENTRIES && p / GIGA == index
    requires forall i :: 0 <= i < ENTRIES && i != index ==> mem'[root][i] == mem[root][i]
    requires Exact(mem, root, tlb) && Derived(root, mem, tlb, mem', tlb1) && Fenced(root, mem', tlb1, p, tlb2)
    ensures Exact(mem', root, tlb2)
  {
    hide Lookup, Flat;
    forall q: Page | q in tlb2 ensures tlb2[q] == Lookup(mem', root, q) {
      FlatLevel(mem, root, q);
      FlatLevel(mem', root, q);
      RootIndexOf(q);
      if q / GIGA != index {
        FlatLookup(mem, mem', root, q);
      }
    }
  }

  lemma {:induction false} RootIndexOf(q: nat)
    requires q < PAGE_LIMIT
    ensures VpnAt(q, 2) == q / GIGA && LevelSpan(2) == GIGA
  {
  }

  /** A flat root that maps itself. */
  ghost predicate BootRoot(mem: Mem, boot: nat) {
    IdentityMapped(mem, boot) && Flat(mem, boot)
  }

  /** A flat root is a tree of one table. */
  lemma {:induction false} FlatIsTree(mem: Mem, root: nat)
    requires Flat(mem, root) && root < PPN_LIMIT
    ensures Tree(mem, Tables(root, {}, {}))
  {
    LinkEntries(0);
    forall i: nat, child: nat ensures !Links(mem, root, i, child) {
      assert i < ENTRIES ==> ZeroOrLeaf(mem[root][i]);
    }
  }
}
