/** The encoder: tokens, names and property values appended to a growing buffer with zero padding,
    and the round trip through the validator.
 */
module FdtEncoder {
  import opened Memory
  import opened FdtReader
  import opened FdtItems
  import opened FdtTree
  import opened FdtStructure

  function ZeroPad(n: nat): (z: seq<byte>)
    ensures |z| == n
  {
    seq(n, _ => 0)
  }

  /** An item with the padding that the encoder writes when it starts aligned. */
  function ZeroPadded(item: Item): Piece {
    match item
    case Begin(name) => Piece(item, ZeroPad(Padding(|name| + 1)))
    case Prop(_, value) => Piece(item, ZeroPad(Padding(|value|)))
    case _ => Piece(item, [])
  }

  /** The item can be encoded at all: its name holds no NUL and its numbers fit in 32 bits. */
  predicate FitsFormat(item: Item) {
    match item
    case Begin(name) => 0 !in name
    case Prop(nameOffset, value) => nameOffset < 0x1_0000_0000 && |value| < 0x1_0000_0000
    case _ => true
  }

  /** The bytes the encoder writes for an item. */
  function ItemBytes(item: Item): (bytes: seq<byte>)
    requires FitsFormat(item)
    ensures |bytes| % 4 == 0
  {
    WholeWords(item);
    PieceBytes(ZeroPadded(item))
  }

  lemma {:induction false} WholeWords(item: Item)
    requires FitsFormat(item)
    ensures PieceOk(ZeroPadded(item)) && |PieceBytes(ZeroPadded(item))| % 4 == 0
  {
    hide Be32, ZeroPad, Padding, U32At, BEGIN_NODE, PROPERTY, END_NODE, NOP, END;
    match item
    case Begin(name) => WordsFilled(4, |name| + 1, |PieceBytes(ZeroPadded(item))|);
    case Prop(_, value) => WordsFilled(12, |value|, |PieceBytes(ZeroPadded(item))|);
    case _ =>
  }

  lemma {:induction false} WordsFilled(head: nat, length: nat, total: nat)
    requires head % 4 == 0 && total == head + length + Padding(length)
    ensures total % 4 == 0
  {
  }

  /** A node as written at an offset, whatever its name holds: the padding reaches the next multiple
      of four of the whole buffer. */
  function NodeBytes(at: nat, name: seq<byte>): seq<byte> {
    Be32(BEGIN_NODE) + name + [0] + ZeroPad(Padding(at + 4 + |name| + 1))
  }

  /** A property as written at an offset; its length is stored modulo 2^32. */
  function PropertyBytes(at: nat, nameOffset: nat, value: seq<byte>): seq<byte>
    requires nameOffset < 0x1_0000_0000
  {
    Be32(PROPERTY) + Be32(|value| % 0x1_0000_0000) + Be32(nameOffset) + value + ZeroPad(Padding(at + 12 + |value|))
  }

  predicate AllFit(items: seq<Item>) {
    forall k :: 0 <= k < |items| ==> FitsFormat(items[k])
  }

  function Padded(items: seq<Item>): (pieces: seq<Piece>)
    ensures |pieces| == |items| && forall k :: 0 <= k < |items| ==> pieces[k] == ZeroPadded(items[k])
  {
    seq(|items|, k requires 0 <= k < |items| => ZeroPadded(items[k]))
  }

  /** The bytes the encoder writes for a sequence of items. */
  function Printed(items: seq<Item>): seq<byte>
    requires AllFit(items)
  {
    Concat(Padded(items))
  }

  /** The items of a whole block. */
  function BlockItems(t: Node): seq<Item> {
    Items(t) + [Fin]
  }

  class Buffer {
    var bytes: seq<byte>

    constructor ()
      ensures bytes == []
    {
      bytes := [];
    }

    method PushU32(value: nat)
      requires value < 0x1_0000_0000
      modifies this
      ensures bytes == old(bytes) + Be32(value)
    {
      bytes := bytes + Be32(value);
    }

    method PadTo4()
      modifies this
      ensures bytes == old(bytes) + ZeroPad(Padding(|old(bytes)|))
    {
      ghost var pushed := 0;
      while |bytes| % 4 != 0
        invariant pushed <= Padding(|old(bytes)|) && bytes == old(bytes) + ZeroPad(pushed)
        decreases Padding(|old(bytes)|) - pushed
      {
        bytes := bytes + [0];
        pushed := pushed + 1;
      }
    }

    method PushBeginNode(name: seq<byte>)
      modifies this
      ensures bytes == old(bytes) + NodeBytes(|old(bytes)|, name)
    {
      PushU32(BEGIN_NODE);
      bytes := bytes + name;
      bytes := bytes + [0];
      hide Padding, Be32;
      PadTo4();
    }

    method PushEndNode()
      modifies this
      ensures bytes == old(bytes) + ItemBytes(End)
    {
      PushU32(END_NODE);
    }

    method PushProperty(nameOffset: nat, value: seq<byte>)
      requires nameOffset < 0x1_0000_0000
      modifies this
      ensures bytes == old(bytes) + PropertyBytes(|old(bytes)|, nameOffset, value)
    {
      PushU32(PROPERTY);
      PushU32(|value| % 0x1_0000_0000);
      PushU32(nameOffset);
      bytes := bytes + value;
      hide Padding, Be32;
      PadTo4();
    }

    method PushNop()
      modifies this
      ensures bytes == old(bytes) + ItemBytes(Nop)
    {
      PushU32(NOP);
    }

    method PushEnd()
      modifies this
      ensures bytes == old(bytes) + ItemBytes(Fin)
    {
      PushU32(END);
    }

    /** One item through the matching call. */
    method PushItem(item: Item)
      requires |bytes| % 4 == 0 && FitsFormat(item)
      modifies this
      ensures bytes == old(bytes) + ItemBytes(item) && |bytes| % 4 == 0
    {
      hide ItemBytes, Be32, Padding, PropertyBytes, NodeBytes, ZeroPad, U32At;
      StillAligned(bytes, ItemBytes(item));
      match item {
        case Begin(name) =>
          NodeFits(|bytes|, name);
          PushBeginNode(name);
        case End => PushEndNode();
        case Prop(nameOffset, value) =>
          PropertyFits(|bytes|, nameOffset, value);
          PushProperty(nameOffset, value);
        case Nop => PushNop();
        case Fin => PushEnd();
      }
    }

    /** A sequence of calls writes the printed items. */
    method PushAll(items: seq<Item>)
      requires |bytes| % 4 == 0 && AllFit(items)
      modifies this
      ensures bytes == old(bytes) + Printed(items) && |bytes| % 4 == 0
    {
      hide ItemBytes, Be32, Printed, FitsFormat;
      PrintedNothing(items[..0]);
      for k := 0 to |items|
        invariant bytes == old(bytes) + Printed(items[..k]) && |bytes| % 4 == 0
      {
        PushItem(items[k]);
        PrintedSnoc(items[..k], items[k]);
        assert items[..k] + [items[k]] == items[..k + 1];
        assert old(bytes) + (Printed(items[..k]) + ItemBytes(items[k]))
           == old(bytes) + Printed(items[..k]) + ItemBytes(items[k]);
      }
      assert items[..|items|] == items;
    }
  }

  /** At an aligned offset what is written is the item's encoding. */
  lemma {:induction false} NodeFits(at: nat, name: seq<byte>)
    requires at % 4 == 0 && 0 !in name
    ensures NodeBytes(at, name) == ItemBytes(Begin(name))
  {
    hide Be32, Padding, ZeroPad, U32At, BEGIN_NODE;
    NodeOffset(at, |name|);
  }

  lemma {:induction false} PropertyFits(at: nat, nameOffset: nat, value: seq<byte>)
    requires at % 4 == 0 && nameOffset < 0x1_0000_0000 && |value| < 0x1_0000_0000
    ensures PropertyBytes(at, nameOffset, value) == ItemBytes(Prop(nameOffset, value))
  {
    hide Be32, Padding, ZeroPad, U32At, PROPERTY;
    PropertyOffset(at, |value|);
  }

  lemma {:induction false} StillAligned(a: seq<byte>, b: seq<byte>)
    requires |a| % 4 == 0 && |b| % 4 == 0
    ensures |a + b| % 4 == 0
  {
  }

  lemma {:induction false} NodeOffset(at: nat, length: nat)
    requires at % 4 == 0
    ensures Padding(at + 4 + length + 1) == Padding(length + 1)
  {
    PaddingShift(at + 4, length + 1);
  }

  lemma {:induction false} PropertyOffset(at: nat, length: nat)
    requires at % 4 == 0 && length < 0x1_0000_0000
    ensures length % 0x1_0000_0000 == length && Padding(at + 12 + length) == Padding(length)
  {
    PaddingShift(at + 12, length);
  }

  lemma {:induction false} ZeroPaddedOk(item: Item)
    requires FitsFormat(item)
    ensures PieceOk(ZeroPadded(item)) && ZeroPadded(item).item == item
  {
  }

  lemma {:induction false} PaddedOk(items: seq<Item>)
    requires AllFit(items)
    ensures PiecesOk(Padded(items))
  {
    forall k | 0 <= k < |items| ensures PieceOk(Padded(items)[k]) {
      ZeroPaddedOk(items[k]);
    }
  }

  lemma {:induction false} PrintedNothing(items: seq<Item>)
    requires items == []
    ensures Printed(items) == []
  {
  }

  lemma {:induction false} FlatSnoc(pieces: seq<Piece>, p: Piece)
    requires PiecesOk(pieces) && PieceOk(p)
    ensures Concat(pieces + [p]) == Concat(pieces) + PieceBytes(p)
  {
    hide PieceBytes, PieceOk;
    if pieces == [] {
      assert pieces + [p] == [p] && [p][1..] == [];
    } else {
      FlatSnoc(pieces[1..], p);
      assert (pieces + [p])[1..] == pieces[1..] + [p];
    }
  }

  lemma {:induction false} PrintedSnoc(items: seq<Item>, item: Item)
    requires AllFit(items) && FitsFormat(item)
    ensures Printed(items + [item]) == Printed(items) + ItemBytes(item)
  {
    hide PieceBytes, ZeroPadded, FitsFormat;
    PaddedOk(items);
    ZeroPaddedOk(item);
    FlatSnoc(Padded(items), ZeroPadded(item));
    assert Padded(items + [item]) == Padded(items) + [ZeroPadded(item)];
  }

  lemma {:induction false} PaddedItems(items: seq<Item>)
    ensures ItemsOf(Padded(items)) == items
  {
    if items != [] {
      PaddedItems(items[1..]);
      assert Padded(items)[1..] == Padded(items[1..]);
      assert items == [items[0]] + items[1..];
    }
  }

  /** What the encoder writes stands for the items written. */
  lemma {:induction false} PrintedEncodes(items: seq<Item>)
    requires AllFit(items)
    ensures Encoding(Printed(items), items)
  {
    PaddedOk(items);
    PaddedItems(items);
  }

  /** Exactly the items that fit can be encoded by any bytes at all. */
  lemma {:induction false} EncodableExactly(items: seq<Item>)
    ensures (exists bytes: seq<byte> :: Encoding(bytes, items)) <==> AllFit(items)
  {
    if bytes: seq<byte> :| Encoding(bytes, items) {
      var pieces: seq<Piece> :| PiecesOk(pieces) && Concat(pieces) == bytes && ItemsOf(pieces) == items;
      forall k | 0 <= k < |items| ensures FitsFormat(items[k]) {
        ItemOfPiece(pieces, k);
        assert PieceOk(pieces[k]);
      }
    }
    if AllFit(items) {
      PrintedEncodes(items);
    }
  }

  lemma {:induction false} ItemOfPiece(pieces: seq<Piece>, k: nat)
    requires k < |pieces|
    ensures ItemsOf(pieces)[k] == pieces[k].item
  {
    if k > 0 {
      ItemOfPiece(pieces[1..], k - 1);
    }
  }

  /** Printing any well-formed tree, with no-ops strewn in anywhere before the end, and parsing
      the result recovers that tree and no other. */
  lemma {:induction false} RoundTrip(items: seq<Item>, t: Node, strings: seq<byte>)
    requires Prints(items, t) && WellFormedRoot(t, strings) && AllFit(items)
    ensures Encodes(Printed(items), t)
    ensures forall u :: Encodes(Printed(items), u) && WellFormedRoot(u, strings) ==> u == t
  {
    hide WellFormedRoot, Prints, Printed;
    PrintedEncodes(items);
    forall u | Encodes(Printed(items), u) && WellFormedRoot(u, strings) ensures u == t {
      EncodedTreeUnique(Printed(items), t, u, strings);
    }
  }

  // ----- Which trees can be written

  predicate PropsFit(props: seq<Property>) {
    forall k :: 0 <= k < |props| ==> props[k].nameOffset < 0x1_0000_0000 && |props[k].value| < 0x1_0000_0000
  }

  /** Values and name offsets of the tree fit in 32 bits. */
  predicate TreeFits(n: Node) {
    PropsFit(n.props) && forall k :: 0 <= k < |n.children| ==> TreeFits(n.children[k])
  }

  lemma {:induction false} ValidNamesHaveNoNul(name: seq<byte>)
    requires ValidNodeName(name)
    ensures 0 !in name
  {
    var component, address := Component(name), UnitAddress(name);
    forall k | 0 <= k < |name| ensures name[k] != 0 {
      if k < |component| {
        assert name[k] == component[k];
      } else if k > |component| {
        assert name[k] == address.value[k - |component| - 1];
      }
    }
  }

  lemma {:induction false} PropItemsFit(props: seq<Property>)
    requires PropsFit(props)
    ensures AllFit(PropItems(props))
  {
    if props != [] {
      PropItemsFit(props[1..]);
    }
  }

  lemma {:induction false} ItemsFit(n: Node, strings: seq<byte>)
    requires TreeFits(n) && WellFormed(n, strings) && 0 !in n.name
    ensures AllFit(Items(n))
    decreases n, 1
  {
    hide ValidNodeName;
    PropItemsFit(n.props);
    ForestItemsFit(n.children, strings);
    ItemsAre(n);
    hide Items;
  }

  lemma {:induction false} ForestItemsFit(children: seq<Node>, strings: seq<byte>)
    requires forall k :: 0 <= k < |children| ==>
                         TreeFits(children[k]) && WellFormed(children[k], strings) && ValidNodeName(children[k].name)
    ensures AllFit(ForestItems(children))
    decreases children, 0
  {
    if children != [] {
      ValidNamesHaveNoNul(children[0].name);
      hide ValidNodeName;
      ItemsFit(children[0], strings);
      ForestItemsFit(children[1..], strings);
      hide Items;
    }
  }

  lemma {:induction false} StripPrinted(items: seq<Item>)
    requires Nop !in items
    ensures Strip(items) == items
  {
    if items != [] {
      StripPrinted(items[1..]);
    }
  }

  lemma {:induction false} PropsHaveNoNop(props: seq<Property>)
    ensures Nop !in PropItems(props)
  {
    if props != [] {
      PropsHaveNoNop(props[1..]);
    }
  }

  lemma {:induction false} TreeHasNoNop(n: Node)
    ensures Nop !in Items(n)
    decreases n, 1
  {
    PropsHaveNoNop(n.props);
    ForestHasNoNop(n.children);
  }

  lemma {:induction false} ForestHasNoNop(children: seq<Node>)
    ensures Nop !in ForestItems(children)
    decreases children, 0
  {
    if children != [] {
      TreeHasNoNop(children[0]);
      ForestHasNoNop(children[1..]);
    }
  }

  /** Every well-formed tree whose numbers fit in 32 bits is written, accepted and recovered. */
  lemma {:induction false} TreeRoundTrip(t: Node, strings: seq<byte>)
    requires WellFormedRoot(t, strings) && TreeFits(t)
    ensures AllFit(BlockItems(t)) && Encodes(Printed(BlockItems(t)), t)
    ensures forall u :: Encodes(Printed(BlockItems(t)), u) && WellFormedRoot(u, strings) ==> u == t
  {
    ItemsFit(t, strings);
    TreeHasNoNop(t);
    hide Items, WellFormed;
    var items := BlockItems(t);
    StripPrinted(items);
    assert Prints(items, t);
    hide Prints, Printed;
    RoundTrip(items, t, strings);
  }

  /** Writing a tree and validating the bytes. */
  method WriteAndValidate(t: Node, strings: seq<byte>) returns (r: Verdict<()>, bytes: seq<byte>, ghost tree: Node)
    requires WellFormedRoot(t, strings) && TreeFits(t)
    ensures r.Good? && tree == t && Encodes(bytes, t)
  {
    TreeRoundTrip(t, strings);
    hide Encodes, WellFormedRoot, Printed, TreeFits, BlockItems;
    var buffer := new Buffer();
    buffer.PushAll(BlockItems(t));
    bytes := buffer.bytes;
    assert bytes == [] + Printed(BlockItems(t)) == Printed(BlockItems(t));
    r, tree := StructureNew(bytes, strings);
  }
}
