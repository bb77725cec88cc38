/** What an accepted devicetree says, written down the other way round: the bytes of its properties are
    those of the cell counts and of the address and size pairs that it describes.
 */
module FdtMeaning {
  import opened Memory
  import opened FdtReader
  import opened FdtTree
  import opened FdtSemantics
  import opened FdtPrinting
  import opened FdtGrammar

  // ----- Cell counts

  /** The property holds the count in one cell, or is absent and the count is the default. */
  predicate CountIs(n: Node, name: seq<byte>, default: nat, count: nat, strings: seq<byte>) {
    var value := ValueOf(n, name, strings);
    if value.None? then count == default else count < 0x1_0000_0000 && value.value == Digits(count, 4)
  }

  /** Children of the node give addresses in `a` cells and sizes in `s` cells; two and one by default. */
  predicate Counts(n: Node, a: nat, s: nat, strings: seq<byte>) {
    CountIs(n, Ascii("#address-cells"), 2, a, strings) && CountIs(n, Ascii("#size-cells"), 1, s, strings)
  }

  lemma {:induction false} CountRead(n: Node, name: seq<byte>, default: nat, count: nat, strings: seq<byte>)
    ensures CellCount(n, name, default, strings) == Some(count) <==> CountIs(n, name, default, count, strings)
  {
    hide U32At, Digits, BigEndian, ValueOf;
    var value := ValueOf(n, name, strings);
    FourBytes();
    if value.Some? && |value.value| == 4 {
      WordIsNumber(value.value);
      ReadDigits(value.value);
    }
    if count < 0x1_0000_0000 {
      DigitsRead(count, 4);
    }
  }

  lemma {:induction false} CountsAreLayout(n: Node, a: nat, s: nat, strings: seq<byte>)
    ensures ChildLayout(n, strings) == Some(Layout(4 * a, 4 * s)) <==> Counts(n, a, s, strings)
  {
    hide CountIs, CellCount;
    Names();
    CountRead(n, ADDRESS_CELLS, 2, a, strings);
    CountRead(n, SIZE_CELLS, 1, s, strings);
  }

  /** The counts behind a layout. */
  lemma {:induction false} LayoutCounts(n: Node, strings: seq<byte>) returns (a: nat, s: nat)
    requires ChildLayout(n, strings).Some?
    ensures ChildLayout(n, strings) == Some(Layout(4 * a, 4 * s)) && Counts(n, a, s, strings)
  {
    hide CellCount;
    a := CellCount(n, ADDRESS_CELLS, 2, strings).value;
    s := CellCount(n, SIZE_CELLS, 1, strings).value;
    CountsAreLayout(n, a, s, strings);
  }

  // ----- Described ranges

  /** `memory`, with or without a unit address. */
  predicate MemoryName(name: seq<byte>) {
    name == Ascii("memory") || (|name| >= 7 && name[..7] == Ascii("memory@"))
  }

  lemma {:induction false} MemoryNames(n: Node)
    ensures IsMemory(n) <==> MemoryName(n.name)
  {
    hide Component;
    Names();
    ComponentIs(n.name, MEMORY);
    MemoryAt(n.name);
  }

  lemma {:induction false} MemoryAt(name: seq<byte>)
    ensures (|name| >= 7 && name[..7] == Ascii("memory@"))
            <==> (|name| > 6 && name[..6] == Ascii("memory") && name[6] == AT)
  {
    var long, short := Ascii("memory@"), Ascii("memory");
    assert long[..6] == short && long[6] == AT;
    if |name| >= 7 {
      assert name[..7][..6] == name[..6] && name[..7][6] == name[6];
      assert name[..7] == name[..6] + [name[6]];
      assert long == short + [AT];
    }
  }

  /** Whether a child describes ranges: every one, or the memory nodes only. */
  predicate Selected(n: Node, memoryOnly: bool) {
    memoryOnly ==> MemoryName(n.name)
  }

  /** The `reg` property of child `k`, if it describes ranges, is the writing of `regs[k]`. */
  predicate Written(children: seq<Node>, regs: seq<seq<Range>>, a: nat, s: nat, strings: seq<byte>, memoryOnly: bool) {
    && |regs| == |children|
    && forall k :: 0 <= k < |children| && Selected(children[k], memoryOnly) ==>
                   PairsFit(regs[k], a, s) && ValueOf(children[k], Ascii("reg"), strings) == Some(Pairs(regs[k], a, s))
  }

  /** The pairs of the children that describe ranges, in node and entry order. */
  function Described(children: seq<Node>, regs: seq<seq<Range>>, memoryOnly: bool): seq<Range>
    requires |regs| == |children|
  {
    if children == [] then []
    else (if Selected(children[0], memoryOnly) then regs[0] else []) + Described(children[1..], regs[1..], memoryOnly)
  }

  lemma {:induction false} WrittenFlattens(children: seq<Node>, regs: seq<seq<Range>>, a: nat, s: nat,
                                           strings: seq<byte>, memoryOnly: bool)
    requires a + s > 0 && Written(children, regs, a, s, strings, memoryOnly)
    ensures Flattened(children, Layout(4 * a, 4 * s), strings, memoryOnly) == Described(children, regs, memoryOnly)
  {
    hide ValueOf, Entries, Pairs, PairsFit, IsMemory, MemoryName;
    if children != [] {
      Names();
      MemoryNames(children[0]);
      if Selected(children[0], memoryOnly) {
        PairsRead(regs[0], a, s);
      }
      WrittenLater(children, regs, a, s, strings, memoryOnly);
      WrittenFlattens(children[1..], regs[1..], a, s, strings, memoryOnly);
    }
  }

  lemma {:induction false} WrittenLater(children: seq<Node>, regs: seq<seq<Range>>, a: nat, s: nat,
                                        strings: seq<byte>, memoryOnly: bool)
    requires children != [] && Written(children, regs, a, s, strings, memoryOnly)
    ensures Written(children[1..], regs[1..], a, s, strings, memoryOnly)
  {
    hide ValueOf, Pairs, PairsFit, Selected;
    forall k | 0 <= k < |children[1..]| ensures children[1..][k] == children[k + 1] && regs[1..][k] == regs[k + 1] {
    }
  }

  /** The memory ranges of a tree are exactly the pairs written into its memory nodes, in order: each pair
      an address in as many cells as the root's `#address-cells` says, then a size in as many as its
      `#size-cells` says, or two and one. */
  lemma {:induction false} MemoryIsWritten(root: Node, strings: seq<byte>, a: nat, s: nat, regs: seq<seq<Range>>)
    requires Counts(root, a, s, strings) && a + s > 0 && Written(root.children, regs, a, s, strings, true)
    ensures MemoryOf(root, strings) == Described(root.children, regs, true)
  {
    hide Written, Described, Counts;
    CountsAreLayout(root, a, s, strings);
    WrittenFlattens(root.children, regs, a, s, strings, true);
  }

  /** Likewise the reserved ranges and the children of the `reserved-memory` node. */
  lemma {:induction false} ReservedIsWritten(root: Node, strings: seq<byte>, r: nat, a: nat, s: nat,
                                             regs: seq<seq<Range>>)
    requires NamesOk(root.children) && r < |root.children| && root.children[r].name == Ascii("reserved-memory")
    requires Counts(root.children[r], a, s, strings) && a + s > 0
    requires Written(root.children[r].children, regs, a, s, strings, false)
    ensures ReservedOf(root, strings) == Described(root.children[r].children, regs, false)
  {
    hide Written, Described, Counts, ValidNodeName;
    Names();
    TheChild(root.children, r);
    CountsAreLayout(root.children[r], a, s, strings);
    WrittenFlattens(root.children[r].children, regs, a, s, strings, false);
  }

  lemma {:induction false} NothingReserved(root: Node, strings: seq<byte>)
    requires forall k :: 0 <= k < |root.children| ==> root.children[k].name != Ascii("reserved-memory")
    ensures ReservedOf(root, strings) == []
  {
    Names();
    ChildNamedFinds(root.children, RESERVED_MEMORY);
  }

  lemma {:induction false} TheChild(children: seq<Node>, k: nat)
    requires NamesOk(children) && k < |children|
    ensures ChildNamed(children, children[k].name) == Some(children[k])
  {
    hide ValidNodeName;
    ChildNamedFinds(children, children[k].name);
    var found := ChildNamed(children, children[k].name);
    var j :| 0 <= j < |children| && children[j].name == children[k].name && children[j] == found.value;
    assert j == k;
  }

  // ----- Accepted trees

  /** Whole entries: the writing of some pairs. */
  ghost predicate WrittenReg(reg: seq<byte>, a: nat, s: nat) {
    exists rs: seq<Range> :: PairsFit(rs, a, s) && reg == Pairs(rs, a, s)
  }

  /** At every node the cell counts are well-formed and `reg` holds whole entries of the parent's counts;
      a node with a unit address has `reg` or `ranges`. */
  ghost predicate Addressed(n: Node, strings: seq<byte>)
    decreases n
  {
    && ('@' as int in n.name ==>
          ValueOf(n, Ascii("reg"), strings).Some? || ValueOf(n, Ascii("ranges"), strings).Some?)
    && exists a: nat, s: nat :: Counts(n, a, s, strings)
         && forall k :: 0 <= k < |n.children| ==>
              var reg := ValueOf(n.children[k], Ascii("reg"), strings);
              (reg.Some? ==> WrittenReg(reg.value, a, s)) && Addressed(n.children[k], strings)
  }

  /** The pairs are there, and are non-empty ranges with 64-bit ends. */
  predicate SoundPairs(rs: seq<Range>) {
    rs != [] && forall k :: 0 <= k < |rs| ==> rs[k].size > 0 && rs[k].address + rs[k].size < 0x1_0000_0000_0000_0000
  }

  predicate AllSound(children: seq<Node>, regs: seq<seq<Range>>, memoryOnly: bool)
    requires |regs| == |children|
  {
    forall k :: 0 <= k < |children| && Selected(children[k], memoryOnly) ==> SoundPairs(regs[k])
  }

  /** The children of the node describe these ranges, in cells of both kinds. */
  predicate InPairs(n: Node, a: nat, s: nat, regs: seq<seq<Range>>, strings: seq<byte>, memoryOnly: bool) {
    && a > 0 && s > 0 && Counts(n, a, s, strings)
    && Written(n.children, regs, a, s, strings, memoryOnly) && AllSound(n.children, regs, memoryOnly)
  }

  ghost predicate MemorySound(root: Node, strings: seq<byte>) {
    && (exists a: nat, s: nat, regs :: InPairs(root, a, s, regs, strings, true))
    && forall k :: 0 <= k < |root.children| && MemoryName(root.children[k].name) ==>
         ValueOf(root.children[k], Ascii("device_type"), strings) == Some(Ascii("memory") + [0])
  }

  ghost predicate ReservedSound(n: Node, strings: seq<byte>) {
    && ValueOf(n, Ascii("#address-cells"), strings).Some? && ValueOf(n, Ascii("#size-cells"), strings).Some?
    && ValueOf(n, Ascii("ranges"), strings) == Some([])
    && exists a: nat, s: nat, regs :: InPairs(n, a, s, regs, strings, false)
  }

  /** A devicetree that means something: there are `cpus` and memory, addresses are well-formed
      everywhere, memory is described by ranges, and so is reserved memory if there is any. */
  ghost predicate Meaningful(root: Node, strings: seq<byte>) {
    && (exists k :: 0 <= k < |root.children| && root.children[k].name == Ascii("cpus"))
    && (exists k :: 0 <= k < |root.children| && MemoryName(root.children[k].name))
    && Addressed(root, strings) && MemorySound(root, strings)
    && forall k :: 0 <= k < |root.children| && root.children[k].name == Ascii("reserved-memory") ==>
         ReservedSound(root.children[k], strings)
  }

  lemma {:induction false} PairsLength(rs: seq<Range>, a: nat, s: nat)
    ensures |Pairs(rs, a, s)| == |rs| * (4 * a + 4 * s)
  {
    hide Pair;
    if rs != [] {
      PairsLength(rs[1..], a, s);
      assert |rs| * (4 * a + 4 * s) == |rs[1..]| * (4 * a + 4 * s) + (4 * a + 4 * s);
    }
  }

  lemma {:induction false} WrittenRegs(n: Node, a: nat, s: nat, strings: seq<byte>)
    ensures RegLengthOk(n, Layout(4 * a, 4 * s), strings) <==>
            var reg := ValueOf(n, Ascii("reg"), strings); reg.Some? ==> WrittenReg(reg.value, a, s)
  {
    hide ValueOf, Entries, Pairs, PairsFit;
    Names();
    var reg := ValueOf(n, REG, strings);
    if reg.Some? {
      RegIsWritten(reg.value, a, s);
    }
  }

  lemma {:induction false} RegIsWritten(reg: seq<byte>, a: nat, s: nat)
    ensures WrittenReg(reg, a, s) <==> if a + s == 0 then reg == [] else |reg| % (4 * a + 4 * s) == 0
  {
    hide Entries, PairFits, Pair;
    var unit := 4 * a + 4 * s;
    if a + s == 0 {
      if rs: seq<Range> :| PairsFit(rs, a, s) && reg == Pairs(rs, a, s) {
        PairsLength(rs, a, s);
      }
      assert PairsFit([], a, s) && Pairs([], a, s) == [];
    } else {
      if rs: seq<Range> :| PairsFit(rs, a, s) && reg == Pairs(rs, a, s) {
        PairsLength(rs, a, s);
        MultipleDivides(|reg|, unit, |rs|);
      }
      if |reg| % unit == 0 {
        CellsAreWhole(reg, a, s);
        ReadPairs(reg, a, s);
      }
    }
  }

  lemma {:induction false} CellsAreWhole(reg: seq<byte>, a: nat, s: nat)
    requires a + s > 0 && |reg| % (4 * a + 4 * s) == 0
    ensures Whole(reg, Layout(4 * a, 4 * s))
  {
  }

  lemma {:induction false} HasUnitAddress(name: seq<byte>)
    ensures UnitAddress(name).Some? <==> '@' as int in name
  {
    var c := Component(name);
    assert |c| == |name| ==> c == name;
  }

  lemma {:induction false} AddressedIs(n: Node, strings: seq<byte>)
    ensures AddressingOk(n, strings) <==> Addressed(n, strings)
    decreases n
  {
    hide Counts, ChildLayout, UnitAddress, RegLengthOk, ValueOf, WrittenReg;
    Names();
    HasUnitAddress(n.name);
    forall k | 0 <= k < |n.children|
      ensures AddressingOk(n.children[k], strings) <==> Addressed(n.children[k], strings)
    {
      AddressedIs(n.children[k], strings);
    }
    if ChildLayout(n, strings).Some? {
      var a, s := LayoutCounts(n, strings);
      forall k | 0 <= k < |n.children|
        ensures RegLengthOk(n.children[k], Layout(4 * a, 4 * s), strings) <==>
                var reg := ValueOf(n.children[k], Ascii("reg"), strings); reg.Some? ==> WrittenReg(reg.value, a, s)
      {
        WrittenRegs(n.children[k], a, s, strings);
      }
      forall b: nat, t: nat | Counts(n, b, t, strings) ensures b == a && t == s {
        CountsAreLayout(n, b, t, strings);
      }
    } else {
      forall b: nat, t: nat ensures !Counts(n, b, t, strings) {
        CountsAreLayout(n, b, t, strings);
      }
    }
  }

  /** A child whose `reg` is the writing of sound pairs describes ranges. */
  lemma {:induction false} WrittenDescribes(n: Node, rs: seq<Range>, a: nat, s: nat, strings: seq<byte>)
    requires a > 0 && s > 0 && PairsFit(rs, a, s) && SoundPairs(rs)
    requires ValueOf(n, REG, strings) == Some(Pairs(rs, a, s))
    ensures Describes(n, Layout(4 * a, 4 * s), strings)
  {
    hide ValueOf, Entries, Pairs, PairsFit;
    PairsRead(rs, a, s);
    PairsLength(rs, a, s);
    assert |rs| * (4 * a + 4 * s) > 0;
  }

  /** The `reg` of a child that describes ranges is the writing of sound pairs. */
  lemma {:induction false} DescribesWritten(n: Node, a: nat, s: nat, strings: seq<byte>) returns (rs: seq<Range>)
    requires Describes(n, Layout(4 * a, 4 * s), strings)
    requires Whole(ValueOf(n, REG, strings).value, Layout(4 * a, 4 * s))
    ensures PairsFit(rs, a, s) && SoundPairs(rs) && ValueOf(n, REG, strings) == Some(Pairs(rs, a, s))
  {
    hide ValueOf, Entries, Pairs, PairsFit, Whole;
    var reg := ValueOf(n, REG, strings).value;
    rs := Entries(reg, Layout(4 * a, 4 * s));
    ReadPairs(reg, a, s);
    WholeNotEmpty(reg, Layout(4 * a, 4 * s));
  }

  predicate AllDescribed(n: Node, a: nat, s: nat, strings: seq<byte>, memoryOnly: bool) {
    forall k :: 0 <= k < |n.children| && Selected(n.children[k], memoryOnly) ==>
      Describes(n.children[k], Layout(4 * a, 4 * s), strings)
  }

  lemma {:induction false} DescribedInPairs(n: Node, a: nat, s: nat, strings: seq<byte>, memoryOnly: bool)
    requires AddressingOk(n, strings) && Counts(n, a, s, strings) && a > 0 && s > 0
    ensures AllDescribed(n, a, s, strings, memoryOnly) <==>
        exists regs :: InPairs(n, a, s, regs, strings, memoryOnly)
  {
    hide ValueOf, Counts, Selected, Describes, PairsFit, Pairs, SoundPairs, AddressingOk, Whole;
    Names();
    if AllDescribed(n, a, s, strings, memoryOnly) {
      var regs := RegsOf(n, a, s, strings, memoryOnly, |n.children|);
      assert n.children[..|n.children|] == n.children;
      assert InPairs(n, a, s, regs, strings, memoryOnly);
    }
    if regs :| InPairs(n, a, s, regs, strings, memoryOnly) {
      forall k | 0 <= k < |n.children| && Selected(n.children[k], memoryOnly)
        ensures Describes(n.children[k], Layout(4 * a, 4 * s), strings)
      {
        WrittenDescribes(n.children[k], regs[k], a, s, strings);
      }
    }
  }

  /** The pairs written into the first `m` children. */
  lemma {:induction false} RegsOf(n: Node, a: nat, s: nat, strings: seq<byte>, memoryOnly: bool, m: nat)
    returns (regs: seq<seq<Range>>)
    requires AddressingOk(n, strings) && Counts(n, a, s, strings) && a > 0 && s > 0 && m <= |n.children|
    requires AllDescribed(n, a, s, strings, memoryOnly)
    ensures |regs| == m
    ensures Written(n.children[..m], regs, a, s, strings, memoryOnly) && AllSound(n.children[..m], regs, memoryOnly)
    decreases m
  {
    hide ValueOf, Counts, Selected, PairsFit, Pairs, SoundPairs, AddressingOk, Whole, ChildLayout, Entries;
    Names();
    if m == 0 {
      regs := [];
    } else {
      regs := RegsOf(n, a, s, strings, memoryOnly, m - 1);
      var last: seq<Range> := [];
      if Selected(n.children[m - 1], memoryOnly) {
        CountsAreLayout(n, a, s, strings);
        WholeReg(n, m - 1, strings);
        last := DescribesWritten(n.children[m - 1], a, s, strings);
      }
      regs := regs + [last];
    }
  }

  lemma {:induction false} MemoryIs(root: Node, strings: seq<byte>)
    requires AddressingOk(root, strings)
    ensures MemoryOk(root, strings) <==> MemorySound(root, strings)
  {
    hide ValueOf, Counts, ChildLayout, IsMemory, MemoryName, Describes, AddressingOk, Written, AllSound;
    Names();
    AddressingLayout(root, strings);
    var a, s := LayoutCounts(root, strings);
    forall k | 0 <= k < |root.children| ensures IsMemory(root.children[k]) <==> MemoryName(root.children[k].name) {
      MemoryNames(root.children[k]);
    }
    if a > 0 && s > 0 {
      DescribedInPairs(root, a, s, strings, true);
    }
    forall b: nat, t: nat | Counts(root, b, t, strings) ensures b == a && t == s {
      CountsAreLayout(root, b, t, strings);
    }
  }

  lemma {:induction false} ReservedIs(n: Node, strings: seq<byte>)
    requires AddressingOk(n, strings)
    ensures ReservedParentOk(n, strings) <==> ReservedSound(n, strings)
  {
    hide ValueOf, Counts, ChildLayout, Describes, AddressingOk, Written, AllSound, MemoryName;
    Names();
    AddressingLayout(n, strings);
    var a, s := LayoutCounts(n, strings);
    if a > 0 && s > 0 {
      DescribedInPairs(n, a, s, strings, false);
    }
    forall b: nat, t: nat | Counts(n, b, t, strings) ensures b == a && t == s {
      CountsAreLayout(n, b, t, strings);
    }
  }

  /** The semantic checks accept exactly the devicetrees that mean something. */
  lemma {:induction false} AcceptsMeaningful(root: Node, strings: seq<byte>)
    requires NamesOk(root.children)
    ensures SemanticsOk(root, strings) <==> Meaningful(root, strings)
  {
    hide AddressingOk, Addressed, MemoryOk, MemorySound, ReservedParentOk, ReservedSound, IsMemory, MemoryName;
    hide ValidNodeName;
    Names();
    AddressedIs(root, strings);
    forall k | 0 <= k < |root.children| ensures IsMemory(root.children[k]) <==> MemoryName(root.children[k].name) {
      MemoryNames(root.children[k]);
    }
    if AddressingOk(root, strings) {
      MemoryIs(root, strings);
      ChildNamedFinds(root.children, RESERVED_MEMORY);
      forall k | 0 <= k < |root.children| && root.children[k].name == RESERVED_MEMORY
        ensures ChildNamed(root.children, RESERVED_MEMORY) == Some(root.children[k])
        ensures ReservedParentOk(root.children[k], strings) <==> ReservedSound(root.children[k], strings)
      {
        TheChild(root.children, k);
        ChildAddressing(root, k, strings);
        ReservedIs(root.children[k], strings);
      }
    }
  }

  /** Every accepted tree has such pairs, so its memory ranges are always exactly what is written. */
  lemma {:induction false} AcceptedMemory(root: Node, strings: seq<byte>)
    returns (a: nat, s: nat, regs: seq<seq<Range>>)
    requires SemanticsOk(root, strings)
    ensures InPairs(root, a, s, regs, strings, true)
    ensures MemoryOf(root, strings) == Described(root.children, regs, true)
  {
    hide AddressingOk, Counts, MemoryOk, ReservedOk, RequiredOk, Written, AllSound, Described;
    MemoryIs(root, strings);
    a, s, regs :| InPairs(root, a, s, regs, strings, true);
    MemoryIsWritten(root, strings, a, s, regs);
  }
}
