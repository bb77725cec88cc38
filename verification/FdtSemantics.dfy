/** The meaning of a devicetree: cell counts, `reg` entries, and the memory and reserved-memory
    ranges they describe.

    Predicates and lists over the tree say what is meant. The methods work on views of the block
    and never look at the tree, which appears only in their specifications.
 */
module FdtSemantics {
  import opened Memory
  import opened FdtReader
  import opened FdtItems
  import opened FdtTree
  import opened FdtStructure
  import opened FdtViews

  // "reg", "ranges", "#address-cells", "#size-cells", "device_type", "memory", "memory\0", "cpus", "reserved-memory"
  const REG: seq<byte> := [114, 101, 103]
  const RANGES: seq<byte> := [114, 97, 110, 103, 101, 115]
  const ADDRESS_CELLS: seq<byte> := [35, 97, 100, 100, 114, 101, 115, 115, 45, 99, 101, 108, 108, 115]
  const SIZE_CELLS: seq<byte> := [35, 115, 105, 122, 101, 45, 99, 101, 108, 108, 115]
  const DEVICE_TYPE: seq<byte> := [100, 101, 118, 105, 99, 101, 95, 116, 121, 112, 101]
  const MEMORY: seq<byte> := [109, 101, 109, 111, 114, 121]
  const CPUS: seq<byte> := [99, 112, 117, 115]
  const RESERVED_MEMORY: seq<byte> := [114, 101, 115, 101, 114, 118, 101, 100, 45, 109, 101, 109, 111, 114, 121]

  // ----- Lookups in the tree

  /** The value of the first property with the name. */
  function LookUp(props: seq<Property>, name: seq<byte>, strings: seq<byte>): Option<seq<byte>> {
    if props == [] then None
    else if PropertyName(strings, props[0].nameOffset) == Some(name) then Some(props[0].value)
    else LookUp(props[1..], name, strings)
  }

  function ValueOf(n: Node, name: seq<byte>, strings: seq<byte>): Option<seq<byte>> {
    LookUp(n.props, name, strings)
  }

  lemma {:induction false} LookUpFinds(props: seq<Property>, name: seq<byte>, strings: seq<byte>)
    ensures LookUp(props, name, strings).None? ==>
              forall k :: 0 <= k < |props| ==> PropertyName(strings, props[k].nameOffset) != Some(name)
    ensures LookUp(props, name, strings).Some? ==>
              exists k :: 0 <= k < |props| && PropertyName(strings, props[k].nameOffset) == Some(name)
                          && props[k].value == LookUp(props, name, strings).value
  {
    hide PropertyName;
    if props != [] {
      LookUpFinds(props[1..], name, strings);
      if PropertyName(strings, props[0].nameOffset) != Some(name) && LookUp(props, name, strings).Some? {
        var k :| 0 <= k < |props[1..]| && PropertyName(strings, props[1..][k].nameOffset) == Some(name)
                 && props[1..][k].value == LookUp(props, name, strings).value;
        assert props[k + 1] == props[1..][k];
      }
      forall k | 0 < k < |props| && LookUp(props, name, strings).None?
        ensures PropertyName(strings, props[k].nameOffset) != Some(name)
      {
        assert props[k] == props[1..][k - 1];
      }
    }
  }

  /** The first child with the name. */
  function ChildNamed(children: seq<Node>, name: seq<byte>): Option<Node> {
    if children == [] then None
    else if children[0].name == name then Some(children[0])
    else ChildNamed(children[1..], name)
  }

  lemma {:induction false} ChildNamedFinds(children: seq<Node>, name: seq<byte>)
    ensures ChildNamed(children, name).None? ==> forall k :: 0 <= k < |children| ==> children[k].name != name
    ensures ChildNamed(children, name).Some? ==>
              exists k :: 0 <= k < |children| && children[k].name == name
                          && children[k] == ChildNamed(children, name).value
  {
    if children != [] {
      ChildNamedFinds(children[1..], name);
      if children[0].name != name && ChildNamed(children, name).Some? {
        var k :| 0 <= k < |children[1..]| && children[1..][k].name == name
                 && children[1..][k] == ChildNamed(children, name).value;
        assert children[k + 1] == children[1..][k];
      }
      forall k | 0 < k < |children| && ChildNamed(children, name).None? ensures children[k].name != name {
        assert children[k] == children[1..][k - 1];
      }
    }
  }

  /** A property's value through the view. */
  method ReadValue(v: NodeView, name: seq<byte>, ghost n: Node) returns (r: Option<seq<byte>>)
    requires Shows(v, n)
    ensures r == ValueOf(n, name, v.strings)
  {
    hide Shows, PropertyName;
    var p := FindPropertyNamed(v, name, n);
    LookUpFinds(n.props, name, v.strings);
    r := if p.None? then None else Some(p.value.value);
  }

  // ----- Cells

  /** The number that bytes denote, most significant first. */
  function BigEndian(bytes: seq<byte>): nat {
    if bytes == [] then 0 else BigEndian(bytes[..|bytes| - 1]) * 256 + bytes[|bytes| - 1]
  }

  /** One more cell is one more digit in base 2^32. */
  lemma {:induction false} BigEndianCell(bytes: seq<byte>)
    requires |bytes| >= 4
    ensures BigEndian(bytes) == BigEndian(bytes[..|bytes| - 4]) * 0x1_0000_0000 + U32At(bytes, |bytes| - 4)
  {
    var n := |bytes|;
    assert bytes[..n - 1][..n - 2] == bytes[..n - 2];
    assert bytes[..n - 2][..n - 3] == bytes[..n - 3];
    assert bytes[..n - 3][..n - 4] == bytes[..n - 4];
    BigEndianSnoc(bytes);
    BigEndianSnoc(bytes[..n - 1]);
    BigEndianSnoc(bytes[..n - 2]);
    BigEndianSnoc(bytes[..n - 3]);
    hide BigEndian;
    var high := BigEndian(bytes[..n - 4]);
    var b0: int, b1: int, b2: int, b3: int := bytes[n - 4], bytes[n - 3], bytes[n - 2], bytes[n - 1];
    assert BigEndian(bytes) == (((high * 256 + b0) * 256 + b1) * 256 + b2) * 256 + b3;
  }

  lemma {:induction false} BigEndianSnoc(bytes: seq<byte>)
    requires bytes != []
    ensures BigEndian(bytes) == BigEndian(bytes[..|bytes| - 1]) * 256 + bytes[|bytes| - 1]
  {
  }

  /** Reading on never makes the number smaller. */
  lemma {:induction false} BigEndianGrows(bytes: seq<byte>, k: nat)
    requires k <= |bytes|
    ensures BigEndian(bytes[..k]) <= BigEndian(bytes)
    decreases |bytes| - k
  {
    if k == |bytes| {
      assert bytes[..k] == bytes;
    } else {
      BigEndianGrows(bytes, k + 1);
      BigEndianSnoc(bytes[..k + 1]);
      assert bytes[..k + 1][..k] == bytes[..k];
    }
  }

  /** `decode_cells_u64`: succeeds exactly when the number fits, for any number of cells. */
  method DecodeCells(bytes: seq<byte>) returns (r: Option<nat>)
    ensures r == if |bytes| % 4 == 0 && BigEndian(bytes) < U64 then Some(BigEndian(bytes)) else None
  {
    if |bytes| % 4 != 0 {
      return None;
    }
    hide U32At, BigEndian;
    var value: nat := 0;
    var at := 0;
    DenotesNothing(bytes[..at]);
    while at < |bytes|
      invariant 0 <= at <= |bytes| && at % 4 == 0
      invariant value == BigEndian(bytes[..at]) < U64
    {
      var cell := U32At(bytes, at);
      CellRead(bytes, at);
      value := value * 0x1_0000_0000;
      if value >= U64 {
        return None;
      }
      value := value + cell;
      if value >= U64 {
        return None;
      }
      at := at + 4;
    }
    assert bytes[..at] == bytes;
    return Some(value);
  }

  lemma {:induction false} CellRead(bytes: seq<byte>, at: nat)
    requires at + 4 <= |bytes|
    ensures BigEndian(bytes[..at + 4]) == BigEndian(bytes[..at]) * 0x1_0000_0000 + U32At(bytes, at) <= BigEndian(bytes)
  {
    hide U32At, BigEndian;
    BigEndianCell(bytes[..at + 4]);
    assert bytes[..at + 4][..at] == bytes[..at];
    PrefixWord(bytes, at);
    BigEndianGrows(bytes, at + 4);
  }

  lemma {:induction false} DenotesNothing(bytes: seq<byte>)
    requires bytes == []
    ensures BigEndian(bytes) == 0
  {
  }

  lemma {:induction false} PrefixWord(bytes: seq<byte>, at: nat)
    requires at + 4 <= |bytes|
    ensures U32At(bytes[..at + 4], at) == U32At(bytes, at)
  {
  }

  // ----- Entries of a `reg` property

  datatype Layout = Layout(addressSize: nat, sizeSize: nat) {
    function EntrySize(): nat {
      addressSize + sizeSize
    }
  }

  datatype Range = Range(address: nat, size: nat)

  function EntryAt(bytes: seq<byte>, layout: Layout): Range
    requires layout.EntrySize() <= |bytes|
  {
    Range(BigEndian(bytes[..layout.addressSize]), BigEndian(bytes[layout.addressSize..layout.EntrySize()]))
  }

  /** The complete entries, in order. */
  function Entries(bytes: seq<byte>, layout: Layout): seq<Range> {
    if layout.EntrySize() == 0 || |bytes| < layout.EntrySize() then []
    else [EntryAt(bytes, layout)] + Entries(bytes[layout.EntrySize()..], layout)
  }

  /** A non-empty range with a 64-bit end. */
  predicate RangeOk(r: Range) {
    r.size > 0 && r.address + r.size < U64
  }

  predicate RangesOk(rs: seq<Range>) {
    forall k :: 0 <= k < |rs| ==> RangeOk(rs[k])
  }

  /** Whole entries of whole cells. */
  predicate Whole(bytes: seq<byte>, layout: Layout) {
    layout.addressSize % 4 == 0 && layout.sizeSize % 4 == 0 && layout.EntrySize() > 0
    && |bytes| % layout.EntrySize() == 0
  }

  lemma {:induction false} WholeStep(bytes: seq<byte>, layout: Layout)
    requires Whole(bytes, layout) && bytes != []
    ensures layout.EntrySize() <= |bytes| && Whole(bytes[layout.EntrySize()..], layout)
  {
    RemainderStep(|bytes|, layout.EntrySize());
  }

  lemma {:induction false} RemainderStep(n: nat, e: nat)
    requires e > 0 && n > 0 && n % e == 0
    ensures n >= e && (n - e) % e == 0
  {
    var q := n / e;
    assert n == e * q;
    assert q >= 1;
    assert e * q == e * (q - 1) + e;
    MultipleDivides(n - e, e, q - 1);
  }

  lemma {:induction false} MultipleDivides(m: nat, e: nat, k: nat)
    requires e > 0 && m == e * k
    ensures m % e == 0
  {
    var i: int := e;
    var d := k - m / e;
    assert i * d == m % e;
    assert d >= 1 ==> i * d >= i;
    assert d <= -1 ==> i * d <= -i;
  }

  datatype RegRangeError = Empty | AddressDoesNotFit | SizeDoesNotFit | ZeroSize | EndOverflow

  /** `reg_range::validate`. */
  method ValidateRanges(bytes: seq<byte>, layout: Layout) returns (error: Option<RegRangeError>)
    requires Whole(bytes, layout)
    ensures error.None? <==> bytes != [] && RangesOk(Entries(bytes, layout))
  {
    hide BigEndian, Entries, RangesOk, Whole;
    if bytes == [] {
      return Some(Empty);
    }
    var rest := bytes;
    while rest != []
      invariant Whole(rest, layout)
      invariant RangesOk(Entries(bytes, layout)) <==> RangesOk(Entries(rest, layout))
      decreases |rest|
    {
      WholeStep(rest, layout);
      WholeParts(rest, layout);
      FirstEntry(rest, layout);
      var address := DecodeCells(rest[..layout.addressSize]);
      if address.None? {
        return Some(AddressDoesNotFit);
      }
      var size := DecodeCells(rest[layout.addressSize..layout.EntrySize()]);
      if size.None? {
        return Some(SizeDoesNotFit);
      }
      if size.value == 0 {
        return Some(ZeroSize);
      }
      if address.value + size.value >= U64 {
        return Some(EndOverflow);
      }
      rest := rest[layout.EntrySize()..];
    }
    NoEntries(rest, layout);
    return None;
  }

  lemma {:induction false} WholeParts(bytes: seq<byte>, layout: Layout)
    requires Whole(bytes, layout)
    ensures layout.addressSize % 4 == 0 && layout.sizeSize % 4 == 0 && layout.EntrySize() > 0
  {
  }

  lemma {:induction false} FirstEntry(bytes: seq<byte>, layout: Layout)
    requires 0 < layout.EntrySize() <= |bytes|
    ensures var rest := Entries(bytes[layout.EntrySize()..], layout);
            && Entries(bytes, layout) == [EntryAt(bytes, layout)] + rest
            && (RangesOk(Entries(bytes, layout)) <==> RangeOk(EntryAt(bytes, layout)) && RangesOk(rest))
  {
    hide BigEndian, EntryAt, RangeOk;
    var rest := Entries(bytes[layout.EntrySize()..], layout);
    var all := Entries(bytes, layout);
    assert all == [EntryAt(bytes, layout)] + rest;
    if RangesOk(all) {
      assert RangeOk(all[0]);
      forall k | 0 <= k < |rest| ensures RangeOk(rest[k]) {
        assert RangeOk(all[k + 1]);
      }
    }
  }

  lemma {:induction false} NoEntries(bytes: seq<byte>, layout: Layout)
    requires bytes == []
    ensures Entries(bytes, layout) == [] && RangesOk(Entries(bytes, layout))
  {
  }

  /** The iterator over the entries of an accepted `reg` property. */
  class RegRanges {
    var bytes: seq<byte>
    const layout: Layout

    predicate Valid()
      reads this
    {
      Whole(bytes, layout) && RangesOk(Entries(bytes, layout))
    }

    function Todo(): seq<Range>
      reads this
    {
      Entries(bytes, layout)
    }

    constructor (bytes: seq<byte>, layout: Layout)
      requires Whole(bytes, layout) && RangesOk(Entries(bytes, layout))
      ensures Valid() && Todo() == Entries(bytes, layout)
    {
      this.bytes := bytes;
      this.layout := layout;
    }

    method Next() returns (r: Option<Range>)
      requires Valid()
      modifies this
      ensures Valid()
      ensures r.None? <==> old(Todo()) == []
      ensures r.None? ==> Todo() == []
      ensures r.Some? ==> r.value == old(Todo())[0] && Todo() == old(Todo())[1..]
    {
      hide BigEndian, Entries, RangesOk, Whole;
      if bytes == [] {
        NoEntries(bytes, layout);
        return None;
      }
      WholeStep(bytes, layout);
      WholeParts(bytes, layout);
      FirstEntry(bytes, layout);
      var entry, remaining := bytes[..layout.EntrySize()], bytes[layout.EntrySize()..];
      EntrySlices(bytes, layout);
      bytes := remaining;
      var address := DecodeCells(entry[..layout.addressSize]);
      var size := DecodeCells(entry[layout.addressSize..]);
      r := Some(Range(address.value, size.value));
    }
  }

  lemma {:induction false} EntrySlices(bytes: seq<byte>, layout: Layout)
    requires layout.EntrySize() <= |bytes|
    ensures var entry := bytes[..layout.EntrySize()];
            && entry[..layout.addressSize] == bytes[..layout.addressSize]
            && entry[layout.addressSize..] == bytes[layout.addressSize..layout.EntrySize()]
  {
  }

  // ----- Addressing

  /** A cell count: its default, or exactly one 32-bit value. */
  function CellCount(n: Node, name: seq<byte>, default: nat, strings: seq<byte>): Option<nat> {
    var value := ValueOf(n, name, strings);
    if value.None? then Some(default)
    else if |value.value| == 4 then Some(U32At(value.value, 0))
    else None
  }

  /** The layout of the entries of a node's children, when its cell counts are well-formed. */
  function ChildLayout(n: Node, strings: seq<byte>): Option<Layout> {
    var address, size := CellCount(n, ADDRESS_CELLS, 2, strings), CellCount(n, SIZE_CELLS, 1, strings);
    if address.None? || size.None? then None else Some(Layout(address.value * 4, size.value * 4))
  }

  /** A node with a unit address has `reg` or `ranges`. */
  predicate UnitAddressOk(n: Node, strings: seq<byte>) {
    UnitAddress(n.name).Some? ==> ValueOf(n, REG, strings).Some? || ValueOf(n, RANGES, strings).Some?
  }

  /** A `reg` property holds whole entries. */
  predicate RegLengthOk(n: Node, layout: Layout, strings: seq<byte>) {
    var reg := ValueOf(n, REG, strings);
    reg.Some? ==> if layout.EntrySize() == 0 then reg.value == [] else |reg.value| % layout.EntrySize() == 0
  }

  predicate AddressingOk(n: Node, strings: seq<byte>)
    decreases n
  {
    var layout := ChildLayout(n, strings);
    && layout.Some? && UnitAddressOk(n, strings)
    && forall k :: 0 <= k < |n.children| ==>
                   RegLengthOk(n.children[k], layout.value, strings) && AddressingOk(n.children[k], strings)
  }

  method ReadCellCount(v: NodeView, name: seq<byte>, default: nat, ghost n: Node) returns (r: Option<nat>)
    requires Shows(v, n)
    ensures r == CellCount(n, name, default, v.strings)
  {
    hide Shows, ValueOf;
    var value := ReadValue(v, name, n);
    r := if value.None? then Some(default) else if |value.value| == 4 then Some(U32At(value.value, 0)) else None;
  }

  /** `parse_child_addressing` and `RegLayout::new`; 32-bit counts of 4-byte cells never overflow 64 bits. */
  method ReadLayout(v: NodeView, ghost n: Node) returns (r: Option<Layout>)
    requires Shows(v, n)
    ensures r == ChildLayout(n, v.strings)
  {
    hide Shows, CellCount;
    var address := ReadCellCount(v, ADDRESS_CELLS, 2, n);
    if address.None? {
      return None;
    }
    var size := ReadCellCount(v, SIZE_CELLS, 1, n);
    r := if size.None? then None else Some(Layout(address.value * 4, size.value * 4));
  }

  method ValidateRegLength(v: NodeView, layout: Layout, ghost n: Node) returns (ok: bool)
    requires Shows(v, n)
    ensures ok == RegLengthOk(n, layout, v.strings)
  {
    hide Shows, ValueOf;
    var reg := ReadValue(v, REG, n);
    if reg.None? {
      return true;
    }
    ok := if layout.EntrySize() == 0 then reg.value == [] else |reg.value| % layout.EntrySize() == 0;
  }

  method ValidateNode(v: NodeView, ghost n: Node) returns (layout: Option<Layout>, ok: bool)
    requires Shows(v, n)
    ensures layout == ChildLayout(n, v.strings)
    ensures ok == (layout.Some? && UnitAddressOk(n, v.strings))
  {
    ShownName(v, n);
    hide Shows, ValueOf, CellCount, UnitAddress;
    layout := ReadLayout(v, n);
    if layout.None? {
      return layout, false;
    }
    if UnitAddress(v.name).None? {
      return layout, true;
    }
    var reg := ReadValue(v, REG, n);
    var ranges := ReadValue(v, RANGES, n);
    ok := reg.Some? || ranges.Some?;
  }

  /** The first `n` children have whole entries and well-formed addressing. */
  predicate ChildrenOk(children: seq<Node>, n: nat, layout: Layout, strings: seq<byte>)
    requires n <= |children|
  {
    forall k :: 0 <= k < n ==> RegLengthOk(children[k], layout, strings) && AddressingOk(children[k], strings)
  }

  lemma {:induction false} AddressingParts(n: Node, strings: seq<byte>)
    ensures AddressingOk(n, strings) <==>
            && ChildLayout(n, strings).Some? && UnitAddressOk(n, strings)
            && ChildrenOk(n.children, |n.children|, ChildLayout(n, strings).value, strings)
  {
    hide ChildLayout, UnitAddressOk, RegLengthOk;
  }

  lemma {:induction false} ChildrenStep(children: seq<Node>, n: nat, layout: Layout, strings: seq<byte>)
    requires n < |children| && ChildrenOk(children, n, layout, strings)
    ensures RegLengthOk(children[n], layout, strings) && AddressingOk(children[n], strings) ==>
              ChildrenOk(children, n + 1, layout, strings)
    ensures !(RegLengthOk(children[n], layout, strings) && AddressingOk(children[n], strings)) ==>
              !ChildrenOk(children, |children|, layout, strings)
  {
    hide RegLengthOk, AddressingOk;
  }

  lemma {:induction false} NoChildren(children: seq<Node>, layout: Layout, strings: seq<byte>)
    ensures ChildrenOk(children, 0, layout, strings)
  {
  }

  /** `validate_subtree`. */
  method ValidateAddressing(v: NodeView, ghost n: Node) returns (ok: bool)
    requires Shows(v, n)
    ensures ok == AddressingOk(n, v.strings)
    decreases n
  {
    hide Shows, Children.Valid, Children.Todo, ChildLayout, UnitAddressOk, RegLengthOk, AddressingOk, ChildrenOk;
    AddressingParts(n, v.strings);
    var layout, local := ValidateNode(v, n);
    if !local {
      return false;
    }
    var children := new Children(v, n);
    ghost var passed: nat := 0;
    NoChildren(n.children, layout.value, v.strings);
    while true
      invariant children.Valid() && fresh(children) && fresh(children.reader) && children.strings == v.strings
      invariant passed <= |n.children| && children.Todo() == n.children[passed..]
      invariant ChildrenOk(n.children, passed, layout.value, v.strings)
      decreases |n.children| - passed
    {
      var child := children.Next();
      if child.None? {
        return true;
      }
      ChildrenStep(n.children, passed, layout.value, v.strings);
      ghost var c := n.children[passed];
      var reg := ValidateRegLength(child.value, layout.value, c);
      if !reg {
        return false;
      }
      var below := ValidateAddressing(child.value, c);
      if !below {
        return false;
      }
      passed := passed + 1;
    }
  }

  // ----- Memory

  predicate IsMemory(n: Node) {
    Component(n.name) == MEMORY
  }

  /** The node has a `reg` property with at least one entry, and all its entries are ranges. */
  predicate Describes(n: Node, layout: Layout, strings: seq<byte>) {
    var reg := ValueOf(n, REG, strings);
    reg.Some? && reg.value != [] && RangesOk(Entries(reg.value, layout))
  }

  predicate MemoryNodeOk(n: Node, layout: Layout, strings: seq<byte>) {
    ValueOf(n, DEVICE_TYPE, strings) == Some(MEMORY + [0]) && Describes(n, layout, strings)
  }

  /** Both fields of an entry have cells. */
  predicate Proper(layout: Option<Layout>) {
    layout.Some? && layout.value.addressSize > 0 && layout.value.sizeSize > 0
  }

  predicate MemoryOk(root: Node, strings: seq<byte>) {
    var layout := ChildLayout(root, strings);
    && Proper(layout)
    && forall k :: 0 <= k < |root.children| && IsMemory(root.children[k]) ==>
                   MemoryNodeOk(root.children[k], layout.value, strings)
  }

  lemma {:induction false} WholeReg(parent: Node, k: nat, strings: seq<byte>)
    requires AddressingOk(parent, strings) && Proper(ChildLayout(parent, strings)) && k < |parent.children|
    requires ValueOf(parent.children[k], REG, strings).Some?
    ensures Whole(ValueOf(parent.children[k], REG, strings).value, ChildLayout(parent, strings).value)
  {
    hide ValueOf, U32At;
    assert RegLengthOk(parent.children[k], ChildLayout(parent, strings).value, strings);
  }

  /** The shared tail of the memory and reserved-memory checks. */
  method ValidateDescribes(v: NodeView, layout: Layout, ghost parent: Node, ghost k: nat) returns (ok: bool)
    requires k < |parent.children| && Shows(v, parent.children[k]) && AddressingOk(parent, v.strings)
    requires Proper(Some(layout)) && ChildLayout(parent, v.strings) == Some(layout)
    ensures ok == Describes(parent.children[k], layout, v.strings)
  {
    hide Shows, ValueOf, AddressingOk, ChildLayout, Whole, Entries;
    var reg := ReadValue(v, REG, parent.children[k]);
    if reg.None? {
      return false;
    }
    WholeReg(parent, k, v.strings);
    var error := ValidateRanges(reg.value, layout);
    ok := error.None?;
  }

  method ValidateMemory(v: NodeView, ghost root: Node) returns (ok: bool)
    requires Shows(v, root) && AddressingOk(root, v.strings)
    ensures ok == MemoryOk(root, v.strings)
  {
    hide AddressingOk, ChildLayout, Describes, ValueOf;
    var layout := ReadLayout(v, root);
    AddressingLayout(root, v.strings);
    if layout.value.addressSize == 0 || layout.value.sizeSize == 0 {
      return false;
    }
    var children := new Children(v, root);
    ghost var passed: nat := 0;
    hide Shows, Children.Valid, Children.Todo, Component;
    while true
      invariant children.Valid() && fresh(children) && fresh(children.reader) && children.strings == v.strings
      invariant passed <= |root.children| && children.Todo() == root.children[passed..]
      invariant forall k :: 0 <= k < passed && IsMemory(root.children[k]) ==>
                  MemoryNodeOk(root.children[k], layout.value, v.strings)
      decreases |root.children| - passed
    {
      var child := children.Next();
      if child.None? {
        return true;
      }
      ghost var c := root.children[passed];
      ShownName(child.value, c);
      if Component(child.value.name) == MEMORY {
        var deviceType := ReadValue(child.value, DEVICE_TYPE, c);
        if deviceType != Some(MEMORY + [0]) {
          return false;
        }
        var described := ValidateDescribes(child.value, layout.value, root, passed);
        if !described {
          return false;
        }
      }
      passed := passed + 1;
    }
  }

  lemma {:induction false} AddressingLayout(n: Node, strings: seq<byte>)
    requires AddressingOk(n, strings)
    ensures ChildLayout(n, strings).Some?
  {
  }

  // ----- Reserved memory

  predicate ReservedParentOk(n: Node, strings: seq<byte>) {
    && ValueOf(n, ADDRESS_CELLS, strings).Some? && ValueOf(n, SIZE_CELLS, strings).Some?
    && ValueOf(n, RANGES, strings) == Some([])
    && Proper(ChildLayout(n, strings))
    && forall k :: 0 <= k < |n.children| ==> Describes(n.children[k], ChildLayout(n, strings).value, strings)
  }

  predicate ReservedOk(root: Node, strings: seq<byte>) {
    var parent := ChildNamed(root.children, RESERVED_MEMORY);
    parent.Some? ==> ReservedParentOk(parent.value, strings)
  }

  /** The view of the reserved-memory node, if there is one. */
  method FindReserved(v: NodeView, ghost root: Node) returns (r: Option<NodeView>)
    requires Shows(v, root) && AddressingOk(root, v.strings)
    ensures r.Some? <==> ChildNamed(root.children, RESERVED_MEMORY).Some?
    ensures r.Some? ==>
              && Shows(r.value, ChildNamed(root.children, RESERVED_MEMORY).value) && r.value.strings == v.strings
              && AddressingOk(ChildNamed(root.children, RESERVED_MEMORY).value, v.strings)
  {
    hide Shows, AddressingOk;
    ChildNamedFinds(root.children, RESERVED_MEMORY);
    r := Child(v, RESERVED_MEMORY, root);
    if r.Some? {
      ghost var k :| 0 <= k < |root.children| && root.children[k] == ChildNamed(root.children, RESERVED_MEMORY).value
                     && root.children[k].name == RESERVED_MEMORY;
      ChildAddressing(root, k, v.strings);
    }
  }

  lemma {:induction false} ChildAddressing(n: Node, k: nat, strings: seq<byte>)
    requires AddressingOk(n, strings) && k < |n.children|
    ensures AddressingOk(n.children[k], strings)
  {
  }

  method ValidateReserved(v: NodeView, ghost root: Node) returns (ok: bool)
    requires Shows(v, root) && AddressingOk(root, v.strings)
    ensures ok == ReservedOk(root, v.strings)
  {
    var node := FindReserved(v, root);
    if node.None? {
      return true;
    }
    ok := ValidateReservedParent(node.value, ChildNamed(root.children, RESERVED_MEMORY).value);
  }

  method ValidateReservedParent(v: NodeView, ghost n: Node) returns (ok: bool)
    requires Shows(v, n) && AddressingOk(n, v.strings)
    ensures ok == ReservedParentOk(n, v.strings)
  {
    hide AddressingOk, ChildLayout, Describes, ValueOf;
    AddressingLayout(n, v.strings);
    var address := ReadValue(v, ADDRESS_CELLS, n);
    var size := ReadValue(v, SIZE_CELLS, n);
    var ranges := ReadValue(v, RANGES, n);
    if address.None? || size.None? || ranges != Some([]) {
      return false;
    }
    var layout := ReadLayout(v, n);
    if layout.value.addressSize == 0 || layout.value.sizeSize == 0 {
      return false;
    }
    var children := new Children(v, n);
    ghost var passed: nat := 0;
    hide Shows, Children.Valid, Children.Todo;
    while true
      invariant children.Valid() && fresh(children) && fresh(children.reader) && children.strings == v.strings
      invariant passed <= |n.children| && children.Todo() == n.children[passed..]
      invariant forall k :: 0 <= k < passed ==> Describes(n.children[k], layout.value, v.strings)
      decreases |n.children| - passed
    {
      var child := children.Next();
      if child.None? {
        return true;
      }
      var described := ValidateDescribes(child.value, layout.value, n, passed);
      if !described {
        return false;
      }
      passed := passed + 1;
    }
  }

  // ----- The whole tree

  predicate RequiredOk(root: Node) {
    HasChild(root, CPUS) && exists k :: 0 <= k < |root.children| && IsMemory(root.children[k])
  }

  predicate SemanticsOk(root: Node, strings: seq<byte>) {
    RequiredOk(root) && AddressingOk(root, strings) && MemoryOk(root, strings) && ReservedOk(root, strings)
  }

  /** Whether the `cpus` node and a memory node are among the nodes. */
  function Seen(children: seq<Node>): (bool, bool) {
    (exists k :: 0 <= k < |children| && children[k].name == CPUS,
     exists k :: 0 <= k < |children| && IsMemory(children[k]))
  }

  lemma {:induction false} SeenNone(children: seq<Node>)
    ensures !Seen(children[..0]).0 && !Seen(children[..0]).1
  {
  }

  lemma {:induction false} SeenRequired(root: Node)
    ensures RequiredOk(root) == (Seen(root.children).0 && Seen(root.children).1)
  {
    hide IsMemory;
  }

  lemma {:induction false} SeenSnoc(children: seq<Node>, k: nat)
    requires k < |children|
    ensures var before, after := Seen(children[..k]), Seen(children[..k + 1]);
            && after.0 == (before.0 || children[k].name == CPUS)
            && after.1 == (before.1 || Component(children[k].name) == MEMORY)
  {
    hide Component;
    var before, after := children[..k], children[..k + 1];
    assert after == before + [children[k]];
    if Seen(before).0 {
      var i :| 0 <= i < |before| && before[i].name == CPUS;
      assert after[i].name == CPUS;
    }
    if Seen(before).1 {
      var i :| 0 <= i < |before| && IsMemory(before[i]);
      assert IsMemory(after[i]);
    }
    assert children[k].name == CPUS ==> after[k].name == CPUS;
    assert IsMemory(children[k]) ==> IsMemory(after[k]);
  }

  method ValidateRequired(v: NodeView, ghost root: Node) returns (ok: bool)
    requires Shows(v, root)
    ensures ok == RequiredOk(root)
  {
    hide Shows, Children.Valid, Children.Todo, Component, Seen, RequiredOk;
    var cpusSeen, memorySeen := false, false;
    var children := new Children(v, root);
    ghost var passed: nat := 0;
    SeenNone(root.children);
    while true
      invariant children.Valid() && fresh(children) && fresh(children.reader)
      invariant passed <= |root.children| && children.Todo() == root.children[passed..]
      invariant cpusSeen == Seen(root.children[..passed]).0 && memorySeen == Seen(root.children[..passed]).1
      decreases |root.children| - passed
    {
      var child := children.Next();
      if child.None? {
        assert root.children[..passed] == root.children;
        SeenRequired(root);
        return cpusSeen && memorySeen;
      }
      ShownName(child.value, root.children[passed]);
      SeenSnoc(root.children, passed);
      if child.value.name == CPUS {
        cpusSeen := true;
      }
      if Component(child.value.name) == MEMORY {
        memorySeen := true;
      }
      passed := passed + 1;
    }
  }

  /** `validate_semantics`. */
  method ValidateSemantics(v: NodeView, ghost root: Node) returns (ok: bool)
    requires Shows(v, root)
    ensures ok == SemanticsOk(root, v.strings)
  {
    hide Shows, RequiredOk, AddressingOk, MemoryOk, ReservedOk;
    ok := ValidateRequired(v, root);
    if ok {
      ok := ValidateAddressing(v, root);
    }
    if ok {
      ok := ValidateMemory(v, root);
    }
    if ok {
      ok := ValidateReserved(v, root);
    }
  }

  // ----- Flattened ranges

  /** The entries of one node. */
  function RangesOf(n: Node, layout: Layout, strings: seq<byte>): seq<Range> {
    var reg := ValueOf(n, REG, strings);
    if reg.None? then [] else Entries(reg.value, layout)
  }

  /** The entries of the nodes in order; of the memory nodes only, or of all of them. */
  function Flattened(children: seq<Node>, layout: Layout, strings: seq<byte>, memoryOnly: bool): seq<Range> {
    if children == [] then []
    else
      (if memoryOnly && !IsMemory(children[0]) then [] else RangesOf(children[0], layout, strings))
      + Flattened(children[1..], layout, strings, memoryOnly)
  }

  /** What the memory nodes of the tree describe. */
  function MemoryOf(root: Node, strings: seq<byte>): seq<Range> {
    var layout := ChildLayout(root, strings);
    if layout.None? then [] else Flattened(root.children, layout.value, strings, true)
  }

  /** What the reserved-memory node describes. */
  function ReservedOf(root: Node, strings: seq<byte>): seq<Range> {
    var parent := ChildNamed(root.children, RESERVED_MEMORY);
    if parent.None? || ChildLayout(parent.value, strings).None? then []
    else Flattened(parent.value.children, ChildLayout(parent.value, strings).value, strings, false)
  }

  /** Every selected node has whole, valid entries. */
  predicate AllDescribe(children: seq<Node>, layout: Layout, strings: seq<byte>, memoryOnly: bool) {
    forall k :: 0 <= k < |children| && (memoryOnly ==> IsMemory(children[k])) ==>
                && Describes(children[k], layout, strings)
                && Whole(ValueOf(children[k], REG, strings).value, layout)
  }

  lemma {:induction false} MemoryDescribes(root: Node, strings: seq<byte>)
    requires AddressingOk(root, strings) && MemoryOk(root, strings)
    ensures AllDescribe(root.children, ChildLayout(root, strings).value, strings, true)
  {
    hide ValueOf, AddressingOk, ChildLayout, Whole, Entries, Component;
    forall k | 0 <= k < |root.children| && IsMemory(root.children[k])
      ensures Whole(ValueOf(root.children[k], REG, strings).value, ChildLayout(root, strings).value)
    {
      assert MemoryNodeOk(root.children[k], ChildLayout(root, strings).value, strings);
      WholeReg(root, k, strings);
    }
  }

  lemma {:induction false} ReservedDescribes(n: Node, strings: seq<byte>)
    requires AddressingOk(n, strings) && ReservedParentOk(n, strings)
    ensures AllDescribe(n.children, ChildLayout(n, strings).value, strings, false)
  {
    hide ValueOf, AddressingOk, ChildLayout, Whole, Entries;
    forall k | 0 <= k < |n.children|
      ensures Whole(ValueOf(n.children[k], REG, strings).value, ChildLayout(n, strings).value)
    {
      WholeReg(n, k, strings);
    }
  }

  /** Everything flattened from valid nodes is a range, and one selected node gives at least one. */
  lemma {:induction false} FlattenedOk(children: seq<Node>, layout: Layout, strings: seq<byte>, memoryOnly: bool)
    requires AllDescribe(children, layout, strings, memoryOnly)
    ensures RangesOk(Flattened(children, layout, strings, memoryOnly))
    ensures (exists k :: 0 <= k < |children| && (memoryOnly ==> IsMemory(children[k]))) ==>
              Flattened(children, layout, strings, memoryOnly) != []
  {
    hide Whole, Entries, ValueOf, RangeOk, IsMemory;
    if children != [] {
      var rest := children[1..];
      assert AllDescribe(rest, layout, strings, memoryOnly);
      FlattenedOk(rest, layout, strings, memoryOnly);
      if !memoryOnly || IsMemory(children[0]) {
        WholeNotEmpty(ValueOf(children[0], REG, strings).value, layout);
      } else if k :| 0 <= k < |children| && (memoryOnly ==> IsMemory(children[k])) {
        assert rest[k - 1] == children[k];
      }
    }
  }

  lemma {:induction false} WholeNotEmpty(bytes: seq<byte>, layout: Layout)
    requires Whole(bytes, layout) && bytes != []
    ensures Entries(bytes, layout) != []
  {
    hide BigEndian;
    WholeStep(bytes, layout);
  }

  /** On an accepted tree the memory ranges are non-empty with 64-bit ends, there is at least one,
      and the reserved ranges are as sound. */
  lemma {:induction false} AcceptedRanges(root: Node, strings: seq<byte>)
    requires SemanticsOk(root, strings)
    ensures RangesOk(MemoryOf(root, strings)) && MemoryOf(root, strings) != []
    ensures RangesOk(ReservedOf(root, strings))
  {
    hide AddressingOk, ChildLayout, Describes, ValueOf, Flattened, IsMemory, Whole, ReservedParentOk, RangeOk;
    MemoryDescribes(root, strings);
    FlattenedOk(root.children, ChildLayout(root, strings).value, strings, true);
    var parent := ChildNamed(root.children, RESERVED_MEMORY);
    if parent.Some? && ChildLayout(parent.value, strings).Some? {
      ChildNamedFinds(root.children, RESERVED_MEMORY);
      var k :| 0 <= k < |root.children| && root.children[k] == parent.value && root.children[k].name == RESERVED_MEMORY;
      ChildAddressing(root, k, strings);
      ReservedDescribes(parent.value, strings);
      FlattenedOk(parent.value.children, ChildLayout(parent.value, strings).value, strings, false);
    }
  }
}
