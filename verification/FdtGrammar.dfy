/** The text and the tokens of the format spelled out: which names are valid, where they are found, and
    which bytes stand for each item.
 */
module FdtGrammar {
  import opened Memory
  import opened FdtReader
  import opened FdtItems
  import opened FdtTree
  import opened FdtSemantics
  import opened FdtPrinting

  // ----- Names

  predicate Letter(b: int) {
    'A' as int <= b <= 'Z' as int || 'a' as int <= b <= 'z' as int
  }

  /** Letters, digits and five signs. */
  predicate NodeCharacter(b: int) {
    || Letter(b) || '0' as int <= b <= '9' as int
    || b == ',' as int || b == '.' as int || b == '_' as int || b == '+' as int || b == '-' as int
  }

  predicate NodeText(text: seq<byte>) {
    text != [] && forall k :: 0 <= k < |text| ==> NodeCharacter(text[k])
  }

  /** A node name from its parts. */
  function NodeName(component: seq<byte>, address: Option<seq<byte>>): seq<byte> {
    component + if address.None? then [] else ['@' as int] + address.value
  }

  /** One to 31 characters, the first a letter; then, after an at-sign, a unit address. */
  predicate NodeParts(component: seq<byte>, address: Option<seq<byte>>) {
    && NodeText(component) && |component| <= 31 && Letter(component[0])
    && (address.Some? ==> NodeText(address.value))
  }

  /** The component is what stands before the first at-sign. */
  lemma {:induction false} ComponentIs(name: seq<byte>, c: seq<byte>)
    requires AT !in c
    ensures Component(name) == c <==> name == c || (|name| > |c| && name[..|c|] == c && name[|c|] == AT)
  {
    var d := Component(name);
    if name == c || (|name| > |c| && name[..|c|] == c && name[|c|] == AT) {
      assert forall k :: 0 <= k < |c| ==> name[k] == c[k];
      assert name[..|c|] == c;
    }
  }

  lemma {:induction false} NameHasParts(component: seq<byte>, address: Option<seq<byte>>)
    requires NodeParts(component, address)
    ensures Component(NodeName(component, address)) == component && UnitAddress(NodeName(component, address)) == address
  {
    var name := NodeName(component, address);
    NoAtSign(component);
    ComponentIs(name, component);
    assert name[..|component|] == component;
    if address.Some? {
      assert name[|component| + 1..] == address.value;
    }
  }

  lemma {:induction false} NoAtSign(text: seq<byte>)
    requires NodeText(text)
    ensures AT !in text
  {
  }

  lemma {:induction false} PartsMakeName(name: seq<byte>)
    ensures NodeName(Component(name), UnitAddress(name)) == name
  {
    var c := Component(name);
    if |c| < |name| {
      assert name == name[..|c|] + [name[|c|]] + name[|c| + 1..];
    }
  }

  ghost predicate IsNodeName(name: seq<byte>) {
    exists component: seq<byte>, address: Option<seq<byte>> ::
      NodeParts(component, address) && NodeName(component, address) == name
  }

  /** `name::validate` accepts exactly the names put together from valid parts. */
  lemma {:induction false} NodeNameIs(name: seq<byte>)
    ensures ValidNodeName(name) <==> IsNodeName(name)
  {
    hide NodeName, Component, UnitAddress;
    PartsMakeName(name);
    if ValidNodeName(name) {
      assert NodeParts(Component(name), UnitAddress(name));
    }
    if component: seq<byte>, address: Option<seq<byte>> :| NodeParts(component, address)
                                                           && NodeName(component, address) == name {
      NameHasParts(component, address);
    }
  }

  /** A property name: one to 31 node characters, question marks and number signs. */
  predicate PropertyText(text: seq<byte>) {
    && 1 <= |text| <= 31
    && forall k :: 0 <= k < |text| ==> NodeCharacter(text[k]) || text[k] == '?' as int || text[k] == '#' as int
  }

  /** The name stands at the offset, with a NUL after it. */
  predicate NameAt(strings: seq<byte>, at: nat, name: seq<byte>) {
    && PropertyText(name) && at + |name| < |strings|
    && strings[at..at + |name|] == name && strings[at + |name|] == 0
  }

  /** The strings block holds a name at an offset exactly when the name stands there with a NUL after it. */
  lemma {:induction false} PropertyNameIs(strings: seq<byte>, at: nat, name: seq<byte>)
    ensures PropertyName(strings, at) == Some(name) <==> NameAt(strings, at, name)
  {
    hide FindNul;
    if NameAt(strings, at, name) {
      forall k | at <= k < at + |name| ensures strings[k] != 0 {
        assert strings[k] == name[k - at];
      }
      NulAfter(strings, at, at + |name|);
    }
  }

  // ----- Trees

  ghost predicate HasName(strings: seq<byte>, at: nat) {
    exists name: seq<byte> :: NameAt(strings, at, name)
  }

  ghost predicate ShareName(strings: seq<byte>, a: nat, b: nat) {
    exists name: seq<byte> :: NameAt(strings, a, name) && NameAt(strings, b, name)
  }

  /** Property names stand in the strings block and are all different. */
  ghost predicate PropertiesNamed(props: seq<Property>, strings: seq<byte>) {
    && (forall k :: 0 <= k < |props| ==> HasName(strings, props[k].nameOffset))
    && (forall i, j :: 0 <= i < j < |props| ==> !ShareName(strings, props[i].nameOffset, props[j].nameOffset))
  }

  /** At every node, properties and children have valid names, no two properties and no two children the
      same. */
  ghost predicate WellNamed(n: Node, strings: seq<byte>)
    decreases n
  {
    && PropertiesNamed(n.props, strings)
    && (forall k :: 0 <= k < |n.children| ==> IsNodeName(n.children[k].name))
    && (forall i, j :: 0 <= i < j < |n.children| ==> n.children[i].name != n.children[j].name)
    && forall k :: 0 <= k < |n.children| ==> WellNamed(n.children[k], strings)
  }

  lemma {:induction false} NamesAre(strings: seq<byte>, a: nat, b: nat)
    ensures PropertyName(strings, a).Some? <==> HasName(strings, a)
    ensures PropertyName(strings, a).Some? ==>
              (PropertyName(strings, a) == PropertyName(strings, b) <==> ShareName(strings, a, b))
  {
    hide PropertyName, NameAt;
    forall name: seq<byte>
      ensures NameAt(strings, a, name) <==> PropertyName(strings, a) == Some(name)
      ensures NameAt(strings, b, name) <==> PropertyName(strings, b) == Some(name)
    {
      PropertyNameIs(strings, a, name);
      PropertyNameIs(strings, b, name);
    }
    if PropertyName(strings, a).Some? {
      assert NameAt(strings, a, PropertyName(strings, a).value);
    }
  }

  lemma {:induction false} PropertiesAre(props: seq<Property>, strings: seq<byte>)
    ensures PropsOk(props, strings) <==> PropertiesNamed(props, strings)
  {
    hide PropertyName, HasName, ShareName;
    forall i, j | 0 <= i < |props| && 0 <= j < |props|
      ensures PropertyName(strings, props[i].nameOffset).Some? <==> HasName(strings, props[i].nameOffset)
      ensures PropertyName(strings, props[i].nameOffset).Some? ==>
                (PropertyName(strings, props[i].nameOffset) == PropertyName(strings, props[j].nameOffset) <==>
                 ShareName(strings, props[i].nameOffset, props[j].nameOffset))
    {
      NamesAre(strings, props[i].nameOffset, props[j].nameOffset);
    }
  }

  /** The trees that the validator accepts, in these terms. */
  lemma {:induction false} WellFormedIs(n: Node, strings: seq<byte>)
    ensures WellFormed(n, strings) <==> WellNamed(n, strings)
    decreases n
  {
    hide PropsOk, PropertiesNamed, ValidNodeName, IsNodeName;
    PropertiesAre(n.props, strings);
    forall k | 0 <= k < |n.children|
      ensures ValidNodeName(n.children[k].name) <==> IsNodeName(n.children[k].name)
      ensures WellFormed(n.children[k], strings) <==> WellNamed(n.children[k], strings)
    {
      NodeNameIs(n.children[k].name);
      WellFormedIs(n.children[k], strings);
    }
  }

  // ----- Items

  /** The bytes of each item; a length and an offset are numbers of four bytes. */
  lemma {:induction false} ItemBytesAre(name: seq<byte>, nameOffset: nat, value: seq<byte>, pad: seq<byte>)
    requires nameOffset < 0x1_0000_0000 && |value| < 0x1_0000_0000
    ensures PieceOk(Piece(End, [])) && PieceBytes(Piece(End, [])) == [0, 0, 0, 2]
    ensures PieceOk(Piece(Nop, [])) && PieceBytes(Piece(Nop, [])) == [0, 0, 0, 4]
    ensures PieceOk(Piece(Fin, [])) && PieceBytes(Piece(Fin, [])) == [0, 0, 0, 9]
    ensures PieceOk(Piece(Begin(name), pad)) <==> 0 !in name && |pad| < 4 && (|name| + 1 + |pad|) % 4 == 0
    ensures PieceOk(Piece(Begin(name), pad)) ==>
              PieceBytes(Piece(Begin(name), pad)) == [0, 0, 0, 1] + name + [0] + pad
    ensures PieceOk(Piece(Prop(nameOffset, value), pad)) <==> |pad| < 4 && (|value| + |pad|) % 4 == 0
    ensures PieceOk(Piece(Prop(nameOffset, value), pad)) ==>
              PieceBytes(Piece(Prop(nameOffset, value), pad))
              == [0, 0, 0, 3] + Digits(|value|, 4) + Digits(nameOffset, 4) + value + pad
  {
    hide Digits, U32At;
    WordDigits(|value|);
    WordDigits(nameOffset);
    PaddingIs(|name| + 1, |pad|);
    PaddingIs(|value|, |pad|);
  }

  lemma {:induction false} WordDigits(v: nat)
    requires v < 0x1_0000_0000
    ensures Be32(v) == Digits(v, 4)
  {
    hide U32At, BigEndian;
    FourBytes();
    WordIsNumber(Be32(v));
    ReadDigits(Be32(v));
  }

  lemma {:induction false} PaddingIs(at: nat, n: nat)
    ensures n == Padding(at) <==> n < 4 && (at + n) % 4 == 0
  {
  }
}
