/** `Structure::new`: the single validating pass over a structure block, with the two re-scans
    that find duplicate names in the part already accepted.
 */
module FdtStructure {
  import opened Memory
  import opened FdtReader
  import opened FdtItems
  import opened FdtTree

  datatype Token = BeginNode | EndNode | PropertyToken | NopToken | EndToken

  /** `Token::parse`. */
  function TokenOf(value: nat): Option<Token> {
    if value == BEGIN_NODE then Some(BeginNode)
    else if value == END_NODE then Some(EndNode)
    else if value == PROPERTY then Some(PropertyToken)
    else if value == NOP then Some(NopToken)
    else if value == END then Some(EndToken)
    else None
  }

  /** The token at a position, if four bytes there hold one. */
  function TokenAt(bytes: seq<byte>, at: nat): Option<Token> {
    if at + 4 > |bytes| then None else TokenOf(U32At(bytes, at))
  }

  /** The token that starts an item. */
  function KindOf(item: Item): Token {
    match item
    case Begin(_) => BeginNode
    case End => EndNode
    case Prop(_, _) => PropertyToken
    case Nop => NopToken
    case Fin => EndToken
  }

  /** What the rest of an item is once its token is known. */
  lemma {:induction false} ItemAfterToken(bytes: seq<byte>, at: nat)
    ensures TokenAt(bytes, at).None? ==> LexAt(bytes, at).Bad?
    ensures LexAt(bytes, at).Tok? ==> TokenAt(bytes, at) == Some(KindOf(LexAt(bytes, at).item))
    ensures TokenAt(bytes, at).Some? ==>
              && at + 4 <= |bytes|
              && LexAt(bytes, at) == match TokenAt(bytes, at).value
                                     case BeginNode => LexName(bytes, at + 4)
                                     case EndNode => Tok(End, at + 4)
                                     case PropertyToken => LexProperty(bytes, at + 4)
                                     case NopToken => Tok(Nop, at + 4)
                                     case EndToken => Tok(Fin, at + 4)
  {
  }

  /** `read_token`. */
  method ReadToken(reader: Reader) returns (token: Option<Token>)
    requires reader.Valid()
    modifies reader
    ensures reader.Valid() && token == TokenAt(reader.bytes, old(reader.offset))
    ensures token.Some? ==> reader.offset == old(reader.offset) + 4
  {
    var value := reader.ReadU32();
    token := if value.None? then None else TokenOf(value.value);
  }

  /** A node's name and padding, after its token. */
  method ReadName(reader: Reader) returns (name: Option<seq<byte>>)
    requires reader.Valid()
    modifies reader
    ensures reader.Valid()
    ensures name.Some? <==> LexName(reader.bytes, old(reader.offset)).Tok?
    ensures name.Some? ==> LexName(reader.bytes, old(reader.offset)) == Tok(Begin(name.value), reader.offset)
  {
    hide FindNul, Padding;
    name := reader.ReadNulTerminated();
    if name.Some? {
      var aligned := reader.AlignTo4();
      if !aligned {
        name := None;
      }
    }
  }

  /** A property's length, name offset, value and padding, after its token. */
  method ReadProperty(reader: Reader) returns (p: Option<Property>)
    requires reader.Valid()
    modifies reader
    ensures reader.Valid()
    ensures p.Some? <==> LexProperty(reader.bytes, old(reader.offset)).Tok?
    ensures p.Some? ==>
              LexProperty(reader.bytes, old(reader.offset))
              == Tok(Prop(p.value.nameOffset, p.value.value), reader.offset)
  {
    hide U32At, Padding;
    var length := reader.ReadU32();
    if length.None? {
      return None;
    }
    var nameOffset := reader.ReadU32();
    if nameOffset.None? {
      return None;
    }
    var value := reader.ReadBytes(length.value);
    if value.None? {
      return None;
    }
    var aligned := reader.AlignTo4();
    return if aligned then Some(Property(nameOffset.value, value.value)) else None;
  }

  // ----- The sibling re-scan

  /** The re-scan over items: its depth, and the recorded match as the number of items (no-ops
      aside) in front of it; `at` counts those passed so far. Nothing when it would leave the root
      or meet the end marker. */
  function Scan(items: seq<Item>, parentDepth: nat, name: seq<byte>, depth: nat, at: nat, found: Option<nat>)
    : Option<(nat, Option<nat>)>
    decreases |items|
  {
    if items == [] then Some((depth, found))
    else
      match items[0]
      case Begin(other) =>
        Scan(items[1..], parentDepth, name, depth + 1, at + 1, Entering(parentDepth, name, depth, at, found, other))
      case End => if depth <= 1 then None else Scan(items[1..], parentDepth, name, depth - 1, at + 1, found)
      case Fin => None
      case Prop(_, _) => Scan(items[1..], parentDepth, name, depth, at + 1, found)
      case Nop => Scan(items[1..], parentDepth, name, depth, at, found)
  }

  /** The recorded match after entering a node: a match at the parent's depth replaces it, and a new
      candidate parent discards it. */
  function Entering(parentDepth: nat, name: seq<byte>, depth: nat, at: nat, found: Option<nat>,
                    other: seq<byte>): Option<nat> {
    if depth + 1 == parentDepth then None
    else if depth == parentDepth && other == name then Some(at)
    else found
  }

  lemma {:induction false} ScanAppend(a: seq<Item>, b: seq<Item>, parentDepth: nat, name: seq<byte>,
                                      depth: nat, at: nat, found: Option<nat>)
    ensures Scan(a + b, parentDepth, name, depth, at, found) ==
            match Scan(a, parentDepth, name, depth, at, found)
            case None => None
            case Some((d, f)) => Scan(b, parentDepth, name, d, at + |Strip(a)|, f)
    decreases |a|
  {
    hide Entering;
    if a == [] {
      assert a + b == b;
    } else {
      assert (a + b)[1..] == a[1..] + b;
      match a[0]
      case Begin(other) =>
        ScanAppend(a[1..], b, parentDepth, name, depth + 1, at + 1,
                   Entering(parentDepth, name, depth, at, found, other));
      case End =>
        if depth > 1 {
          ScanAppend(a[1..], b, parentDepth, name, depth - 1, at + 1, found);
        }
      case Fin =>
      case Prop(_, _) => ScanAppend(a[1..], b, parentDepth, name, depth, at + 1, found);
      case Nop => ScanAppend(a[1..], b, parentDepth, name, depth, at, found);
    }
  }

  lemma {:induction false} ScanStrip(items: seq<Item>, parentDepth: nat, name: seq<byte>, depth: nat, at: nat,
                                     found: Option<nat>)
    ensures Scan(items, parentDepth, name, depth, at, found) == Scan(Strip(items), parentDepth, name, depth, at, found)
    decreases |items|
  {
    hide Entering;
    if items != [] {
      if items[0].Nop? {
        ScanStrip(items[1..], parentDepth, name, depth, at, found);
      } else {
        assert ([items[0]] + Strip(items[1..]))[1..] == Strip(items[1..]);
        match items[0]
        case Begin(other) =>
          ScanStrip(items[1..], parentDepth, name, depth + 1, at + 1,
                    Entering(parentDepth, name, depth, at, found, other));
        case End =>
          if depth > 1 {
            ScanStrip(items[1..], parentDepth, name, depth - 1, at + 1, found);
          }
        case Prop(_, _) => ScanStrip(items[1..], parentDepth, name, depth, at + 1, found);
        case Fin =>
        case Nop =>
      }
    }
  }

  lemma {:induction false} ScanProps(props: seq<Property>, parentDepth: nat, name: seq<byte>, depth: nat, at: nat,
                                     found: Option<nat>)
    ensures Scan(PropItems(props), parentDepth, name, depth, at, found) == Some((depth, found))
  {
    if props != [] {
      ScanProps(props[1..], parentDepth, name, depth, at + 1, found);
    }
  }

  predicate Named(children: seq<Node>, name: seq<byte>) {
    exists k :: 0 <= k < |children| && children[k].name == name
  }

  /** Items of a list of siblings, no-ops aside. */
  function Length(children: seq<Node>): nat {
    |Strip(ForestItems(children))|
  }

  /** Exactly the siblings from child `k` on lie between the match and the end at `total`. */
  predicate Marks(children: seq<Node>, name: seq<byte>, k: nat, position: nat, total: nat) {
    k < |children| && children[k].name == name && position + Length(children[k..]) == total
  }

  /** The scan's answer after siblings that end at `total`: the match is at one of that name, or
      there is none and the earlier answer stands. */
  ghost predicate Answers(children: seq<Node>, name: seq<byte>, found: Option<nat>, result: Option<nat>, total: nat) {
    if Named(children, name) then result.Some? && exists k: nat :: Marks(children, name, k, result.value, total)
    else result == found
  }

  lemma {:induction false} NamedStep(children: seq<Node>, name: seq<byte>)
    requires children != []
    ensures Named(children, name) <==> children[0].name == name || Named(children[1..], name)
  {
    if Named(children[1..], name) {
      var k :| 0 <= k < |children[1..]| && children[1..][k].name == name;
      assert children[k + 1].name == name;
    }
    if k :| 0 <= k < |children| && children[k].name == name {
      assert k > 0 ==> children[1..][k - 1].name == name;
    }
  }

  lemma {:induction false} AnswersStep(children: seq<Node>, name: seq<byte>, at: nat, found: Option<nat>,
                                       first: Option<nat>, result: Option<nat>)
    requires children != [] && first == (if children[0].name == name then Some(at) else found)
    requires Answers(children[1..], name, first, result, at + Length(children))
    ensures Answers(children, name, found, result, at + Length(children))
  {
    hide Length;
    NamedStep(children, name);
    var rest, total := children[1..], at + Length(children);
    if Named(rest, name) {
      var k: nat :| Marks(rest, name, k, result.value, total);
      assert rest[k..] == children[k + 1..];
      assert Marks(children, name, k + 1, result.value, total);
    } else if children[0].name == name {
      assert children[0..] == children;
      assert Marks(children, name, 0, result.value, total);
    }
  }

  lemma {:induction false} LengthStep(children: seq<Node>)
    requires children != []
    ensures Length(children) == |Strip(Items(children[0]))| + Length(children[1..])
  {
    hide Items, Strip;
    StripAppend(Items(children[0]), ForestItems(children[1..]));
  }

  /** A closed subtree leaves the depth alone. At the parent's depth it records its name, deeper
      it records nothing; shallower, whatever it records is dropped later. */
  lemma {:induction false} ScanTree(n: Node, parentDepth: nat, name: seq<byte>, depth: nat, at: nat, found: Option<nat>)
    requires depth >= 1
    ensures var r := Scan(Items(n), parentDepth, name, depth, at, found);
            && r.Some? && r.value.0 == depth
            && (depth == parentDepth ==> r.value.1 == (if n.name == name then Some(at) else found))
            && (depth > parentDepth ==> r.value.1 == found)
    decreases n, 1
  {
    var inner := Entering(parentDepth, name, depth, at, found, n.name);
    ItemsAre(n);
    ScanOne(Begin(n.name), parentDepth, name, depth, at, found);
    ScanAppend([Begin(n.name)], ContentItems(n), parentDepth, name, depth, at, found);
    ScanAppend([Begin(n.name)] + ContentItems(n), [End], parentDepth, name, depth, at, found);
    var start := at + |Strip([Begin(n.name)])|;
    ScanContent(n, parentDepth, name, depth + 1, start, inner);
    var within := Scan(ContentItems(n), parentDepth, name, depth + 1, start, inner).value;
    ScanOne(End, parentDepth, name, depth + 1, at + |Strip([Begin(n.name)] + ContentItems(n))|, within.1);
  }

  lemma {:induction false} ScanOne(item: Item, parentDepth: nat, name: seq<byte>, depth: nat, at: nat,
                                   found: Option<nat>)
    requires item.Begin? || (item.End? && depth > 1)
    ensures Scan([item], parentDepth, name, depth, at, found) ==
            if item.End? then Some((depth - 1, found))
            else Some((depth + 1, Entering(parentDepth, name, depth, at, found, item.name)))
  {
    hide Entering;
    assert [item][1..] == [];
  }

  lemma {:induction false} ScanContent(n: Node, parentDepth: nat, name: seq<byte>, depth: nat, at: nat,
                                       found: Option<nat>)
    requires depth >= 1
    ensures var r := Scan(ContentItems(n), parentDepth, name, depth, at, found);
            && r.Some? && r.value.0 == depth
            && (depth == parentDepth ==> Answers(n.children, name, found, r.value.1, at + |Strip(ContentItems(n))|))
            && (depth > parentDepth ==> r.value.1 == found)
    decreases n, 0
  {
    var middle := at + |Strip(PropItems(n.props))|;
    ScanProps(n.props, parentDepth, name, depth, at, found);
    ScanForest(n.children, parentDepth, name, depth, middle, found);
    ScanAppend(PropItems(n.props), ForestItems(n.children), parentDepth, name, depth, at, found);
    StripAppend(PropItems(n.props), ForestItems(n.children));
  }

  lemma {:induction false} ScanForest(children: seq<Node>, parentDepth: nat, name: seq<byte>, depth: nat, at: nat,
                                      found: Option<nat>)
    requires depth >= 1
    ensures var r := Scan(ForestItems(children), parentDepth, name, depth, at, found);
            && r.Some? && r.value.0 == depth
            && (depth == parentDepth ==> Answers(children, name, found, r.value.1, at + Length(children)))
            && (depth > parentDepth ==> r.value.1 == found)
    decreases children, 0
  {
    if children != [] {
      ScanTree(children[0], parentDepth, name, depth, at, found);
      var first := Scan(Items(children[0]), parentDepth, name, depth, at, found).value;
      var next := at + |Strip(Items(children[0]))|;
      ScanForest(children[1..], parentDepth, name, depth, next, first.1);
      ScanAppend(Items(children[0]), ForestItems(children[1..]), parentDepth, name, depth, at, found);
      LengthStep(children);
      if depth == parentDepth {
        var last := Scan(ForestItems(children[1..]), parentDepth, name, depth, next, first.1).value.1;
        AnswersStep(children, name, at, found, first.1, last);
      }
    }
  }

  /** The items after the root's name for a chain of open nodes. */
  function AfterRoot(stack: seq<Node>): seq<Item>
    requires stack != []
  {
    ContentItems(stack[0]) + OpenItems(stack[1..])
  }

  lemma {:induction false} AfterRootInner(stack: seq<Node>)
    requires |stack| > 1
    ensures OpenItems(stack[1..]) == [Begin(stack[1].name)] + AfterRoot(stack[1..])
  {
    hide ContentItems;
    var rest := stack[1..];
    assert [Begin(rest[0].name)] + ContentItems(rest[0]) + OpenItems(rest[1..])
        == [Begin(rest[0].name)] + (ContentItems(rest[0]) + OpenItems(rest[1..]));
  }

  /** Over the chain of open nodes the single depth counter and the reset on entering a candidate
      parent leave exactly the answer for the innermost one. */
  lemma {:induction false} ScanOpen(stack: seq<Node>, name: seq<byte>, depth: nat, at: nat, found: Option<nat>)
    requires stack != [] && depth >= 1
    requires |stack| == 1 ==> found.None?
    ensures var r := Scan(AfterRoot(stack), depth + |stack| - 1, name, depth, at, found);
            && r.Some? && r.value.0 == depth + |stack| - 1
            && Answers(stack[|stack| - 1].children, name, None, r.value.1, at + |Strip(AfterRoot(stack))|)
    decreases |stack|
  {
    hide Answers, ContentItems;
    var parentDepth := depth + |stack| - 1;
    ScanContent(stack[0], parentDepth, name, depth, at, found);
    ScanAppend(ContentItems(stack[0]), OpenItems(stack[1..]), parentDepth, name, depth, at, found);
    StripAppend(ContentItems(stack[0]), OpenItems(stack[1..]));
    if |stack| == 1 {
      NothingOpen(stack[1..]);
      ScanDone([], parentDepth, name, depth, at + |Strip(ContentItems(stack[0]))|,
               Scan(ContentItems(stack[0]), parentDepth, name, depth, at, found).value.1);
    } else {
      var rest := stack[1..];
      var middle := at + |Strip(ContentItems(stack[0]))|;
      var here := Scan(ContentItems(stack[0]), parentDepth, name, depth, at, found).value.1;
      AfterRootInner(stack);
      ScanOne(Begin(rest[0].name), parentDepth, name, depth, middle, here);
      ScanAppend([Begin(rest[0].name)], AfterRoot(rest), parentDepth, name, depth, middle, here);
      StripAppend([Begin(rest[0].name)], AfterRoot(rest));
      ScanOpen(rest, name, depth + 1, middle + |Strip([Begin(rest[0].name)])|,
               Entering(parentDepth, name, depth, middle, here, rest[0].name));
    }
  }

  lemma {:induction false} ScanStep(rest: seq<Item>, parentDepth: nat, name: seq<byte>, depth: nat, at: nat,
                                    found: Option<nat>,
                 target: (nat, Option<nat>))
    requires rest != [] && Scan(rest, parentDepth, name, depth, at, found) == Some(target)
    ensures !rest[0].Fin? && (rest[0].End? ==> depth > 1)
    ensures var next := if rest[0].Nop? then at else at + 1;
            Some(target) == match rest[0]
                            case Begin(other) =>
                              Scan(rest[1..], parentDepth, name, depth + 1, next,
                                   Entering(parentDepth, name, depth, at, found, other))
                            case End => if depth > 1 then Scan(rest[1..], parentDepth, name, depth - 1, next, found)
                                        else None
                            case _ => Scan(rest[1..], parentDepth, name, depth, next, found)
  {
    hide Entering;
  }

  /** The next item of a stretch that has not ended. */
  lemma {:induction false} SegStep(bytes: seq<byte>, from: nat, to: nat, rest: seq<Item>)
    requires Seg(bytes, from, to, rest) && from < to
    ensures rest != [] && LexAt(bytes, from).Tok? && LexAt(bytes, from).item == rest[0]
    ensures Seg(bytes, LexAt(bytes, from).next, to, rest[1..])
  {
  }

  /** The token at the offset opens the child `k` of the open node: what was read from there on is
      exactly that child and its later siblings. */
  ghost predicate OpensChild(bytes: seq<byte>, start: nat, items: seq<Item>, children: seq<Node>, name: seq<byte>,
                             offset: nat, k: nat) {
    && k < |children| && children[k].name == name
    && LexAt(bytes, offset).Tok? && LexAt(bytes, offset).item == Begin(name)
    && exists before: seq<Item> ::
         before <= items && Seg(bytes, start, offset, before)
         && |Strip(before)| + Length(children[k..]) == |Strip(items)|
  }

  ghost predicate OpensSibling(bytes: seq<byte>, start: nat, items: seq<Item>, top: Node, name: seq<byte>,
                               offset: nat) {
    exists k: nat :: OpensChild(bytes, start, items, top.children, name, offset, k)
  }

  lemma {:induction false} StripTwice(items: seq<Item>)
    ensures Strip(Strip(items)) == Strip(items)
  {
    if items != [] {
      StripTwice(items[1..]);
      if !items[0].Nop? {
        assert ([items[0]] + Strip(items[1..]))[1..] == Strip(items[1..]);
      }
    }
  }

  /** `find_prior_sibling_node`: re-reads the accepted prefix after the root's name. It never fails,
      never leaves the root, never meets the end marker and stops exactly at `node_offset`. It
      returns an offset exactly when the innermost open node already has a child of that name, and
      then the offset of such a child. */
  method FindPriorSibling(bytes: seq<byte>, start: nat, nodeOffset: nat, parentDepth: nat, name: seq<byte>,
                          ghost stack: seq<Node>, ghost items: seq<Item>) returns (r: Option<nat>)
    requires start <= nodeOffset <= |bytes| && Seg(bytes, start, nodeOffset, items)
    requires stack != [] && parentDepth == |stack| && Strip(items) == AfterRoot(stack)
    ensures r.Some? <==> HasChild(stack[|stack| - 1], name)
    ensures r.Some? ==> r.value < nodeOffset
                        && OpensSibling(bytes, start, items, stack[|stack| - 1], name, r.value)
  {
    hide AfterRoot, HasChild, Strip, LexAt, LexName, LexProperty, TokenAt, Scan, Seg, Answers, OpensSibling;
    ScanOpen(stack, name, 1, 0, None);
    StripTwice(items);
    ScanStrip(items, parentDepth, name, 1, 0, None);
    ghost var answer := Scan(items, parentDepth, name, 1, 0, None).value.1;
    var reader := new Reader(bytes);
    var skipped := reader.ReadBytes(start);
    var depth: nat := 1;
    r := None;
    ghost var before, rest, found := [], items, None;
    NothingPassed(bytes, start);
    assert [] + items == items;
    while reader.offset < nodeOffset
      invariant reader.Valid() && reader.bytes == bytes && items == before + rest
      invariant Seg(bytes, start, reader.offset, before) && Seg(bytes, reader.offset, nodeOffset, rest)
      invariant Scan(rest, parentDepth, name, depth, |Strip(before)|, found) == Some((parentDepth, answer))
      invariant r.Some? == found.Some?
      invariant r.Some? ==> r.value < nodeOffset && Recorded(bytes, start, items, name, r.value, found.value)
      decreases |bytes| - reader.offset
    {
      hide Recorded;
      SegStep(bytes, reader.offset, nodeOffset, rest);
      ScanStep(rest, parentDepth, name, depth, |Strip(before)|, found, (parentDepth, answer));
      ItemAfterToken(bytes, reader.offset);
      StripSnoc(before, rest[0]);
      SegSnoc(bytes, start, reader.offset, before);
      var tokenOffset := reader.offset;
      var token := ReadToken(reader);
      match token.value {
        case BeginNode =>
          var nodeName := ReadName(reader);
          found := Entering(parentDepth, name, depth, |Strip(before)|, found, nodeName.value);
          if depth == parentDepth && nodeName.value == name {
            Record(bytes, start, items, before, name, tokenOffset);
            r := Some(tokenOffset);
          }
          depth := depth + 1;
          if depth == parentDepth {
            r := None;
          }
        case EndNode =>
          depth := depth - 1;
        case PropertyToken =>
          var skippedProperty := ReadProperty(reader);
        case NopToken =>
        case EndToken =>
          assert false;
      }
      OneItemOn(before, rest);
      before, rest := before + [rest[0]], rest[1..];
    }
    SegBounds(bytes, reader.offset, nodeOffset, rest);
    ScanDone(rest, parentDepth, name, depth, |Strip(before)|, found);
    SiblingFound(bytes, start, items, stack[|stack| - 1], name, r, found);
  }

  lemma {:induction false} NothingPassed(bytes: seq<byte>, start: nat)
    ensures Seg(bytes, start, start, []) && |Strip([])| == 0
  {
  }

  lemma {:induction false} ScanDone(rest: seq<Item>, parentDepth: nat, name: seq<byte>, depth: nat, at: nat,
                                    found: Option<nat>)
    requires rest == []
    ensures Scan(rest, parentDepth, name, depth, at, found) == Some((depth, found))
  {
  }

  /** A node token of that name at the offset, with `count` items in front. */
  ghost predicate Recorded(bytes: seq<byte>, start: nat, items: seq<Item>, name: seq<byte>, offset: nat, count: nat) {
    && LexAt(bytes, offset).Tok? && LexAt(bytes, offset).item == Begin(name)
    && exists before: seq<Item> :: before <= items && Seg(bytes, start, offset, before) && |Strip(before)| == count
  }

  lemma {:induction false} Record(bytes: seq<byte>, start: nat, items: seq<Item>, before: seq<Item>, name: seq<byte>,
                                  offset: nat)
    requires LexAt(bytes, offset).Tok? && LexAt(bytes, offset).item == Begin(name)
    requires before <= items && Seg(bytes, start, offset, before)
    ensures Recorded(bytes, start, items, name, offset, |Strip(before)|)
  {
  }

  lemma {:induction false} SiblingFound(bytes: seq<byte>, start: nat, items: seq<Item>, top: Node, name: seq<byte>,
                                        r: Option<nat>, found: Option<nat>)
    requires Answers(top.children, name, None, found, |Strip(items)|) && r.Some? == found.Some?
    requires r.Some? ==> Recorded(bytes, start, items, name, r.value, found.value)
    ensures r.Some? <==> HasChild(top, name)
    ensures r.Some? ==> OpensSibling(bytes, start, items, top, name, r.value)
  {
    hide LexAt, Seg, Strip, Length;
    assert Named(top.children, name) == HasChild(top, name);
    if r.Some? {
      var k: nat :| Marks(top.children, name, k, found.value, |Strip(items)|);
      assert OpensChild(bytes, start, items, top.children, name, r.value, k);
    }
  }

  // ----- The property re-scan

  lemma {:induction false} FirstProperty(items: seq<Item>, props: seq<Property>)
    requires Strip(items) == PropItems(props) && items != []
    ensures items[0].Nop? || (items[0].Prop? && props != [] && items[0] == Prop(props[0].nameOffset, props[0].value))
    ensures Strip(items[1..]) == PropItems(if items[0].Nop? then props else props[1..])
  {
    if !items[0].Nop? {
      assert Strip(items)[0] == items[0];
      assert Strip(items)[1..] == Strip(items[1..]);
      assert PropItems(props)[1..] == PropItems(props[1..]);
    }
  }

  /** Whether one of the properties has the name. */
  predicate NamedProperty(props: seq<Property>, name: seq<byte>, strings: seq<byte>) {
    exists k :: 0 <= k < |props| && PropertyName(strings, props[k].nameOffset) == Some(name)
  }

  /** The token at the offset is that of property `k` of the open node. */
  ghost predicate ReadsNth(bytes: seq<byte>, start: nat, items: seq<Item>, props: seq<Property>, offset: nat, k: nat) {
    && k < |props| && LexAt(bytes, offset).Tok?
    && LexAt(bytes, offset).item == Prop(props[k].nameOffset, props[k].value)
    && exists before: seq<Item> ::
         before <= items && Seg(bytes, start, offset, before) && Strip(before) == PropItems(props[..k])
  }

  ghost predicate ReadsProperty(bytes: seq<byte>, start: nat, items: seq<Item>, props: seq<Property>, name: seq<byte>,
                                strings: seq<byte>, offset: nat) {
    exists k: nat ::
      ReadsNth(bytes, start, items, props, offset, k) && PropertyName(strings, props[k].nameOffset) == Some(name)
  }

  lemma {:induction false} ReadNth(bytes: seq<byte>, start: nat, items: seq<Item>, props: seq<Property>,
                                   name: seq<byte>,
                                   strings: seq<byte>, offset: nat, k: nat, before: seq<Item>)
    requires k < |props| && LexAt(bytes, offset).Tok?
    requires LexAt(bytes, offset).item == Prop(props[k].nameOffset, props[k].value)
    requires before <= items && Seg(bytes, start, offset, before) && Strip(before) == PropItems(props[..k])
    requires PropertyName(strings, props[k].nameOffset) == Some(name)
    ensures ReadsProperty(bytes, start, items, props, name, strings, offset)
  {
    hide LexAt, Seg, Strip, PropItems, PropertyName;
    assert ReadsNth(bytes, start, items, props, offset, k);
  }

  /** One more property passed. */
  lemma {:induction false} PropsPassed(props: seq<Property>, k: nat)
    requires k < |props|
    ensures PropItems(props[..k + 1]) == PropItems(props[..k]) + [Prop(props[k].nameOffset, props[k].value)]
    ensures props[k..][0] == props[k] && props[k..][1..] == props[k + 1..]
  {
    assert props[..k + 1] == props[..k] + [props[k]];
    PropItemsSnoc(props[..k], props[k]);
  }

  lemma {:induction false} OneItemOn(before: seq<Item>, rest: seq<Item>)
    requires rest != []
    ensures before + rest == before + [rest[0]] + rest[1..]
  {
  }

  /** `find_property`: re-reads the properties accepted so far in the open node. */
  method FindProperty(bytes: seq<byte>, start: nat, end: nat, name: seq<byte>, strings: seq<byte>,
                      ghost props: seq<Property>, ghost items: seq<Item>) returns (r: Option<nat>)
    requires start <= end <= |bytes| && Seg(bytes, start, end, items) && Strip(items) == PropItems(props)
    requires PropsNamed(props, strings)
    ensures r.Some? <==> NamedProperty(props, name, strings)
    ensures r.Some? ==> start <= r.value < end && ReadsProperty(bytes, start, items, props, name, strings, r.value)
  {
    hide PropertyName, LexAt, LexName, LexProperty, TokenAt, NamedProperty, Strip, PropItems, Seg, ReadsProperty;
    hide U32At, Padding;
    var reader := new Reader(bytes);
    var skipped := reader.ReadBytes(start);
    ghost var before, rest, k: nat := [], items, 0;
    NothingRead(bytes, start);
    assert props[0..] == props && props[..0] == [];
    while reader.offset < end
      invariant reader.Valid() && reader.bytes == bytes && items == before + rest && start <= reader.offset
      invariant Seg(bytes, start, reader.offset, before) && Seg(bytes, reader.offset, end, rest)
      invariant k <= |props| && Strip(before) == PropItems(props[..k]) && Strip(rest) == PropItems(props[k..])
      invariant NamedProperty(props[k..], name, strings) == NamedProperty(props, name, strings)
      decreases |bytes| - reader.offset
    {
      SegStep(bytes, reader.offset, end, rest);
      FirstProperty(rest, props[k..]);
      ItemAfterToken(bytes, reader.offset);
      StripSnoc(before, rest[0]);
      SegSnoc(bytes, start, reader.offset, before);
      var tokenOffset := reader.offset;
      var token := ReadToken(reader);
      if token.value != NopToken {
        AllNamed(props, k, strings);
        PropsPassed(props, k);
        NamedLater(props[k..], name, strings);
        var matches := PropertyMatches(reader, name, strings);
        if matches {
          ReadNth(bytes, start, items, props, name, strings, tokenOffset, k, before);
          return Some(tokenOffset);
        }
        k := k + 1;
      }
      OneItemOn(before, rest);
      before, rest := before + [rest[0]], rest[1..];
    }
    SegBounds(bytes, reader.offset, end, rest);
    NoneLeft(rest, props[k..], name, strings);
    return None;
  }

  /** Reads one property and compares its name; one of another name is skipped. */
  method PropertyMatches(reader: Reader, name: seq<byte>, strings: seq<byte>) returns (matches: bool)
    requires reader.Valid() && LexProperty(reader.bytes, reader.offset).Tok?
    requires PropertyName(strings, LexProperty(reader.bytes, reader.offset).item.nameOffset).Some?
    modifies reader
    ensures reader.Valid()
    ensures var lexed := LexProperty(reader.bytes, old(reader.offset));
            && (matches <==> PropertyName(strings, lexed.item.nameOffset) == Some(name))
            && (!matches ==> reader.offset == lexed.next)
  {
    hide PropertyName, LexProperty, U32At, Padding;
    PropertyParts(reader.bytes, reader.offset);
    var length := reader.ReadU32();
    var nameOffset := reader.ReadU32();
    var propertyName := PropertyName(strings, nameOffset.value);
    if propertyName.value == name {
      return true;
    }
    var value := reader.ReadBytes(length.value);
    var aligned := reader.AlignTo4();
    return false;
  }

  /** Where the parts of a readable property lie. */
  lemma {:induction false} PropertyParts(bytes: seq<byte>, at: nat)
    requires at <= |bytes| && LexProperty(bytes, at).Tok?
    ensures at + 8 <= |bytes| && LexProperty(bytes, at).item.Prop?
    ensures LexProperty(bytes, at).item.nameOffset == U32At(bytes, at + 4)
    ensures var end := at + 8 + U32At(bytes, at); LexProperty(bytes, at).next == end + Padding(end) <= |bytes|
  {
    hide U32At, Padding;
  }

  lemma {:induction false} AllNamed(props: seq<Property>, k: nat, strings: seq<byte>)
    requires PropsNamed(props, strings) && k < |props|
    ensures PropertyName(strings, props[k].nameOffset).Some?
  {
    hide PropertyName;
  }

  lemma {:induction false} NothingRead(bytes: seq<byte>, start: nat)
    ensures Seg(bytes, start, start, []) && Strip([]) == [] && PropItems([]) == []
  {
  }

  lemma {:induction false} NamedLater(props: seq<Property>, name: seq<byte>, strings: seq<byte>)
    requires props != []
    ensures NamedProperty(props, name, strings) <==>
            PropertyName(strings, props[0].nameOffset) == Some(name) || NamedProperty(props[1..], name, strings)
  {
    hide PropertyName;
    if NamedProperty(props[1..], name, strings) {
      var k :| 0 <= k < |props[1..]| && PropertyName(strings, props[1..][k].nameOffset) == Some(name);
      assert PropertyName(strings, props[k + 1].nameOffset) == Some(name);
    }
    if k :| 0 <= k < |props| && PropertyName(strings, props[k].nameOffset) == Some(name) {
      assert k > 0 ==> props[1..][k - 1] == props[k];
    }
  }

  lemma {:induction false} NoneLeft(items: seq<Item>, props: seq<Property>, name: seq<byte>, strings: seq<byte>)
    requires items == [] && Strip(items) == PropItems(props)
    ensures !NamedProperty(props, name, strings)
  {
  }

  // ----- The validating pass

  datatype StructureError =
    | Unreadable | ExpectedRootNode | RootNameNotEmpty | InvalidNodeName | DuplicateNodeName
    | PropertyAfterChild | InvalidPropertyName | DuplicatePropertyName | PrematureEnd | ExpectedEnd | TrailingData

  datatype Verdict<+T> = Good(value: T) | Wrong(error: StructureError)

  /** `depth`, `phase` and `properties_start`. */
  datatype Cursor = Cursor(depth: nat, inProperties: bool, propertiesStart: nat)

  /** The items read so far, from three starting points, and the machine state they lead to. */
  datatype Trail = Trail(items: seq<Item>, st: ParseState, rootItems: seq<Item>, propItems: seq<Item>)

  /** `items` were read from the start of the block to `at` and the machine is in state `st`. */
  ghost predicate Progress(bytes: seq<byte>, strings: seq<byte>, at: nat, items: seq<Item>, st: ParseState) {
    at <= |bytes| && Seg(bytes, 0, at, items) && RunItems(Start, items, strings) == Some(st) && StateOk(st, strings)
  }

  lemma {:induction false} Advance(bytes: seq<byte>, strings: seq<byte>, at: nat, items: seq<Item>, st: ParseState)
    requires Progress(bytes, strings, at, items, st) && LexAt(bytes, at).Tok?
    requires StepItem(st, LexAt(bytes, at).item, strings).Some?
    ensures Progress(bytes, strings, LexAt(bytes, at).next, items + [LexAt(bytes, at).item],
                     StepItem(st, LexAt(bytes, at).item, strings).value)
  {
    hide LexAt, Seg, StepItem, RunItems, StateOk;
    var item := LexAt(bytes, at).item;
    SegSnoc(bytes, 0, at, items);
    RunOne(st, item, strings);
    RunAppend(Start, items, [item], strings);
    StepChecks(st, item, strings);
    LexInside(bytes, at);
  }

  lemma {:induction false} LexInside(bytes: seq<byte>, at: nat)
    requires LexAt(bytes, at).Tok?
    ensures at < LexAt(bytes, at).next <= |bytes|
  {
  }

  /** No tree at all is encoded once the next item cannot be read or is not allowed. */
  lemma {:induction false} Stuck(bytes: seq<byte>, strings: seq<byte>, at: nat, items: seq<Item>, st: ParseState)
    requires Progress(bytes, strings, at, items, st) && !st.Ended?
    requires LexAt(bytes, at).Tok? ==> StepItem(st, LexAt(bytes, at).item, strings).None?
    ensures forall t :: !Accepts(bytes, t, strings)
  {
    hide LexAt, StepItem, RunItems, StateOk;
    forall t ensures !Accepts(bytes, t, strings) {
      if Accepts(bytes, t, strings) {
        var all :| Seg(bytes, 0, |bytes|, all) && RunItems(Start, all, strings) == Some(Ended(t));
        SegPrefix(bytes, 0, at, items, all);
        var rest := all[|items|..];
        assert all == items + rest;
        RunAppend(Start, items, rest, strings);
        RunBlocked(st, rest, strings, t);
      }
    }
  }

  lemma {:induction false} RunBlocked(st: ParseState, rest: seq<Item>, strings: seq<byte>, t: Node)
    requires !st.Ended? && (rest != [] ==> StepItem(st, rest[0], strings).None?)
    ensures RunItems(st, rest, strings) != Some(Ended(t))
  {
    hide StepItem;
  }

  /** The whole block was read and the machine has ended. */
  lemma {:induction false} Finished(bytes: seq<byte>, strings: seq<byte>, items: seq<Item>, st: ParseState)
    requires Progress(bytes, strings, |bytes|, items, st) && st.Ended?
    ensures Accepts(bytes, st.root, strings)
  {
  }

  /** Bytes after the end marker are in no encoding. */
  lemma {:induction false} Trailing(bytes: seq<byte>, strings: seq<byte>, at: nat, items: seq<Item>, st: ParseState)
    requires Progress(bytes, strings, at, items, st) && st.Ended? && at < |bytes|
    ensures forall t :: !Accepts(bytes, t, strings)
  {
    hide LexAt, StepItem, StateOk;
    forall t ensures !Accepts(bytes, t, strings) {
      if Accepts(bytes, t, strings) {
        var all :| Seg(bytes, 0, |bytes|, all) && RunItems(Start, all, strings) == Some(Ended(t));
        SegPrefix(bytes, 0, at, items, all);
        var rest := all[|items|..];
        assert all == items + rest;
        RunAppend(Start, items, rest, strings);
        assert rest != [];
        EndedStops(st, rest[0], strings);
      }
    }
  }

  lemma {:induction false} EndedStops(st: ParseState, item: Item, strings: seq<byte>)
    requires st.Ended?
    ensures StepItem(st, item, strings).None?
  {
  }

  /** The loop's bookkeeping: the machine's open nodes match `depth`, the re-scan prefix holds the
      items after the root's name, and while the innermost node has no child yet, its properties
      are exactly what was read since `properties_start`. */
  ghost predicate Tracking(bytes: seq<byte>, strings: seq<byte>, at: nat, rootStart: nat, c: Cursor, g: Trail) {
    && Progress(bytes, strings, at, g.items, g.st)
    && rootStart <= at && Seg(bytes, rootStart, at, g.rootItems)
    && if c.depth == 0 then g.st.Closed?
       else
         && g.st.Open? && |g.st.stack| == c.depth && Strip(g.rootItems) == AfterRoot(g.st.stack)
         && var top := g.st.stack[c.depth - 1];
         && c.inProperties == (top.children == [])
         && (c.inProperties ==>
               && c.propertiesStart <= at && Seg(bytes, c.propertiesStart, at, g.propItems)
               && Strip(g.propItems) == PropItems(top.props))
  }

  lemma {:induction false} AfterRootStep(stack: seq<Node>, item: Item, strings: seq<byte>)
    requires stack != [] && !item.Nop? && StepOpen(stack, item, strings).Some?
    requires StepOpen(stack, item, strings).value.Open?
    ensures var after := StepOpen(stack, item, strings).value.stack;
            after != [] && AfterRoot(after) == AfterRoot(stack) + [item]
  {
    StepOpenConsumes(stack, item, strings);
    var after := StepOpen(stack, item, strings).value.stack;
    OpenAfterRoot(stack);
    OpenAfterRoot(after);
    assert OpenItems(after)[1..] == AfterRoot(after) && (OpenItems(stack) + [item])[1..] == AfterRoot(stack) + [item];
  }

  lemma {:induction false} OpenAfterRoot(stack: seq<Node>)
    requires stack != []
    ensures OpenItems(stack) == [Begin(stack[0].name)] + AfterRoot(stack)
  {
    hide ContentItems;
  }

  lemma {:induction false} StripSnoc(items: seq<Item>, item: Item)
    ensures Strip(items + [item]) == Strip(items) + (if item.Nop? then [] else [item])
  {
    StripAppend(items, [item]);
    assert Strip([item][1..]) == [];
  }

  /** The loop's variables after an accepted item that ended at `next`. */
  function NextCursor(c: Cursor, item: Item, next: nat): Cursor
    requires c.depth > 0
  {
    match item
    case Begin(_) => Cursor(c.depth + 1, true, next)
    case End => if c.depth > 1 then c.(depth := c.depth - 1, inProperties := false) else c.(depth := 0)
    case _ => c
  }

  function NextTrail(g: Trail, item: Item, st: ParseState): Trail {
    Trail(g.items + [item], st, g.rootItems + [item], if item.Begin? then [] else g.propItems + [item])
  }

  lemma {:induction false} Track(bytes: seq<byte>, strings: seq<byte>, at: nat, rootStart: nat, c: Cursor, g: Trail)
    requires Tracking(bytes, strings, at, rootStart, c, g) && c.depth > 0 && LexAt(bytes, at).Tok?
    requires StepItem(g.st, LexAt(bytes, at).item, strings).Some?
    ensures var item, next := LexAt(bytes, at).item, LexAt(bytes, at).next;
            Tracking(bytes, strings, next, rootStart, NextCursor(c, item, next),
                     NextTrail(g, item, StepItem(g.st, item, strings).value))
  {
    hide LexAt, Seg, RunItems, StateOk, Strip, AfterRoot, PropItems, Progress, ValidNodeName, PropertyName;
    var item, next := LexAt(bytes, at).item, LexAt(bytes, at).next;
    Advance(bytes, strings, at, g.items, g.st);
    LexInside(bytes, at);
    SegSnoc(bytes, rootStart, at, g.rootItems);
    StripSnoc(g.rootItems, item);
    var stack := g.st.stack;
    var top := stack[c.depth - 1];
    if !item.Nop? && StepItem(g.st, item, strings).value.Open? {
      AfterRootStep(stack, item, strings);
    }
    if item.Begin? {
      FreshNode(bytes, next);
    } else if c.inProperties && !item.End? {
      SegSnoc(bytes, c.propertiesStart, at, g.propItems);
      StripSnoc(g.propItems, item);
      if item.Prop? {
        PropItemsSnoc(top.props, Property(item.nameOffset, item.value));
      }
    }
  }

  lemma {:induction false} FreshNode(bytes: seq<byte>, at: nat)
    ensures Seg(bytes, at, at, []) && Strip([]) == PropItems([])
  {
  }

  /** `NamedProperty` is the machine's test. */
  lemma {:induction false} NamedIsHas(n: Node, name: seq<byte>, strings: seq<byte>)
    ensures NamedProperty(n.props, name, strings) == HasProperty(n, name, strings)
  {
    hide PropertyName;
  }

  /** The body of the validating loop: one item is read, checked and accounted for, or the block
      is rejected and encodes no well-formed tree. */
  method ValidateItem(reader: Reader, bytes: seq<byte>, strings: seq<byte>, rootStart: nat, c: Cursor, ghost g: Trail)
    returns (r: Verdict<Cursor>, ghost g': Trail)
    requires reader.Valid() && reader.bytes == bytes && c.depth > 0
    requires Tracking(bytes, strings, reader.offset, rootStart, c, g)
    modifies reader
    ensures reader.Valid()
    ensures r.Good? ==>
        Tracking(bytes, strings, reader.offset, rootStart, r.value, g') && reader.offset > old(reader.offset)
    ensures r.Wrong? ==> forall t :: !Accepts(bytes, t, strings)
  {
    hide LexAt, Seg, RunItems, StateOk, Strip, AfterRoot, PropItems, Accepts, ValidNodeName, PropertyName, LexName;
    hide LexProperty, TokenAt;
    hide HasChild, HasProperty, NamedProperty;
    g' := g;
    var at := reader.offset;
    ghost var top := g.st.stack[c.depth - 1];
    ItemAfterToken(bytes, at);
    var token := ReadToken(reader);
    if token.None? {
      Stuck(bytes, strings, at, g.items, g.st);
      return Wrong(Unreadable), g;
    }
    match token.value {
      case BeginNode =>
        var name := ReadName(reader);
        if name.None? {
          Stuck(bytes, strings, at, g.items, g.st);
          return Wrong(Unreadable), g;
        }
        if !ValidNodeName(name.value) {
          Stuck(bytes, strings, at, g.items, g.st);
          return Wrong(InvalidNodeName), g;
        }
        var prior := FindPriorSibling(bytes, rootStart, at, c.depth, name.value, g.st.stack, g.rootItems);
        if prior.Some? {
          Stuck(bytes, strings, at, g.items, g.st);
          return Wrong(DuplicateNodeName), g;
        }
        r := Good(Cursor(c.depth + 1, true, reader.offset));
      case EndNode =>
        r := Good(if c.depth > 1 then c.(depth := c.depth - 1, inProperties := false) else c.(depth := 0));
      case PropertyToken =>
        if !c.inProperties {
          PropertyIsStuck(bytes, strings, at, g.items, g.st);
          return Wrong(PropertyAfterChild), g;
        }
        var property := ReadProperty(reader);
        if property.None? {
          Stuck(bytes, strings, at, g.items, g.st);
          return Wrong(Unreadable), g;
        }
        var name := PropertyName(strings, property.value.nameOffset);
        if name.None? {
          Stuck(bytes, strings, at, g.items, g.st);
          return Wrong(InvalidPropertyName), g;
        }
        NamedIsHas(top, name.value, strings);
        OpenPropsNamed(g.st, c.depth - 1, strings);
        var prior := FindProperty(bytes, c.propertiesStart, at, name.value, strings, top.props, g.propItems);
        if prior.Some? {
          Stuck(bytes, strings, at, g.items, g.st);
          return Wrong(DuplicatePropertyName), g;
        }
        r := Good(c);
      case NopToken =>
        r := Good(c);
      case EndToken =>
        Stuck(bytes, strings, at, g.items, g.st);
        return Wrong(PrematureEnd), g;
    }
    ghost var item := LexAt(bytes, at).item;
    Track(bytes, strings, at, rootStart, c, g);
    g' := NextTrail(g, item, StepItem(g.st, item, strings).value);
  }

  lemma {:induction false} OpenPropsNamed(st: ParseState, k: nat, strings: seq<byte>)
    requires StateOk(st, strings) && st.Open? && k < |st.stack|
    ensures PropsNamed(st.stack[k].props, strings)
  {
    hide PropertyName, ValidNodeName, WellFormed;
    assert ContentOk(st.stack[k], strings);
  }

  /** A property token after a child is never part of an encoding, readable or not. */
  lemma {:induction false} PropertyIsStuck(bytes: seq<byte>, strings: seq<byte>, at: nat, items: seq<Item>,
                                           st: ParseState)
    requires Progress(bytes, strings, at, items, st) && st.Open? && st.stack != []
    requires st.stack[|st.stack| - 1].children != []
    requires TokenAt(bytes, at) == Some(PropertyToken)
    ensures forall t :: !Accepts(bytes, t, strings)
  {
    ItemAfterToken(bytes, at);
    hide LexAt, RunItems, StateOk, Accepts, Seg, TokenAt;
    Stuck(bytes, strings, at, items, st);
  }

  lemma {:induction false} NopKeeps(st: ParseState, strings: seq<byte>)
    requires !st.Ended?
    ensures StepItem(st, Nop, strings) == Some(st)
  {
  }

  /** `read_non_nop_token`, outside the root node. */
  method ReadNonNop(reader: Reader, bytes: seq<byte>, strings: seq<byte>, ghost items: seq<Item>, ghost st: ParseState)
    returns (token: Option<Token>, at: nat, ghost now: seq<Item>)
    requires reader.Valid() && reader.bytes == bytes && !st.Ended?
    requires Progress(bytes, strings, reader.offset, items, st)
    modifies reader
    ensures reader.Valid() && Progress(bytes, strings, at, now, st)
    ensures token == TokenAt(bytes, at)
    ensures token.Some? ==> token.value != NopToken && reader.offset == at + 4
  {
    hide LexAt, StepItem, Progress, TokenAt, LexName, LexProperty;
    now := items;
    NopKeeps(st, strings);
    while true
      invariant reader.Valid() && Progress(bytes, strings, reader.offset, now, st)
      decreases |bytes| - reader.offset
    {
      at := reader.offset;
      ItemAfterToken(bytes, at);
      token := ReadToken(reader);
      if token.None? || token.value != NopToken {
        return;
      }
      Advance(bytes, strings, at, now, st);
      now := now + [Nop];
    }
  }

  lemma {:induction false} RootBegins(bytes: seq<byte>, strings: seq<byte>, at: nat, items: seq<Item>)
    requires Progress(bytes, strings, at, items, Start) && LexAt(bytes, at).Tok? && LexAt(bytes, at).item == Begin([])
    ensures var next := LexAt(bytes, at).next;
            Tracking(bytes, strings, next, next, Cursor(1, true, next),
                     Trail(items + [Begin([])], Open([Node([], [], [])]), [], []))
  {
    Advance(bytes, strings, at, items, Start);
    LexInside(bytes, at);
    var root := Node([], [], []);
    assert [root][1..] == [] && AfterRoot([root]) == [];
  }

  /** The root's name is empty exactly when its first byte is the NUL. */
  lemma {:induction false} RootName(bytes: seq<byte>, at: nat)
    requires at <= |bytes|
    ensures at == |bytes| ==> LexName(bytes, at).Bad?
    ensures at < |bytes| && bytes[at] != 0 && LexName(bytes, at).Tok? ==> LexName(bytes, at).item != Begin([])
    ensures at < |bytes| && bytes[at] == 0 ==>
              LexName(bytes, at) ==
              if at + 1 + Padding(at + 1) <= |bytes| then Tok(Begin([]), at + 1 + Padding(at + 1)) else Bad
  {
    if at < |bytes| && bytes[at] == 0 {
      assert FindNul(bytes, at) == Some(at);
      assert bytes[at..at] == [];
      hide Padding;
    }
  }

  lemma {:induction false} NothingDone(bytes: seq<byte>, strings: seq<byte>)
    ensures Progress(bytes, strings, 0, [], Start)
  {
  }

  /** The root token, its empty name and padding. */
  method ReadRoot(reader: Reader, bytes: seq<byte>, strings: seq<byte>) returns (r: Verdict<Cursor>, ghost g: Trail)
    requires reader.Valid() && reader.bytes == bytes && reader.offset == 0
    modifies reader
    ensures reader.Valid()
    ensures r.Good? ==> Tracking(bytes, strings, reader.offset, reader.offset, r.value, g) && r.value.depth > 0
    ensures r.Wrong? ==> forall t :: !Accepts(bytes, t, strings)
  {
    hide LexAt, Progress, TokenAt, LexName, LexProperty, Accepts, Tracking, Padding, U32At, FindNul;
    NothingDone(bytes, strings);
    g := Trail([], Start, [], []);
    var token, at, items := ReadNonNop(reader, bytes, strings, [], Start);
    ItemAfterToken(bytes, at);
    if token.None? {
      Stuck(bytes, strings, at, items, Start);
      return Wrong(Unreadable), g;
    }
    if token.value != BeginNode {
      Stuck(bytes, strings, at, items, Start);
      return Wrong(ExpectedRootNode), g;
    }
    RootName(bytes, at + 4);
    var first := reader.ReadU8();
    if first.None? {
      Stuck(bytes, strings, at, items, Start);
      return Wrong(Unreadable), g;
    }
    if first.value != 0 {
      Stuck(bytes, strings, at, items, Start);
      return Wrong(RootNameNotEmpty), g;
    }
    var aligned := reader.AlignTo4();
    if !aligned {
      Stuck(bytes, strings, at, items, Start);
      return Wrong(Unreadable), g;
    }
    RootBegins(bytes, strings, at, items);
    r := Good(Cursor(1, true, reader.offset));
    g := Trail(items + [Begin([])], Open([Node([], [], [])]), [], []);
  }

  /** `Structure::new` accepts a block exactly when it encodes, up to no-ops and padding contents,
      a well-formed tree. */
  method StructureNew(bytes: seq<byte>, strings: seq<byte>) returns (r: Verdict<()>, ghost tree: Node)
    ensures r.Good? <==> exists t :: Encodes(bytes, t) && WellFormedRoot(t, strings)
    ensures r.Good? ==> Encodes(bytes, tree) && WellFormedRoot(tree, strings)
  {
    forall t ensures Accepts(bytes, t, strings) <==> Encodes(bytes, t) && WellFormedRoot(t, strings) {
      AcceptsEncodings(bytes, t, strings);
    }
    r, tree := Validate(bytes, strings);
  }

  method Validate(bytes: seq<byte>, strings: seq<byte>) returns (r: Verdict<()>, ghost tree: Node)
    ensures r.Good? ==> Accepts(bytes, tree, strings)
    ensures r.Wrong? ==> forall t :: !Accepts(bytes, t, strings)
  {
    hide LexAt, Seg, RunItems, StateOk, Strip, AfterRoot, PropItems, TokenAt, LexName, LexProperty, Accepts;
    tree := Node([], [], []);
    var reader := new Reader(bytes);
    var start, g := ReadRoot(reader, bytes, strings);
    if start.Wrong? {
      return Wrong(start.error), tree;
    }
    var rootStart := reader.offset;
    var c := start.value;
    while c.depth > 0
      invariant reader.Valid() && reader.bytes == bytes
      invariant Tracking(bytes, strings, reader.offset, rootStart, c, g)
      decreases |bytes| - reader.offset
    {
      var next, g' := ValidateItem(reader, bytes, strings, rootStart, c, g);
      if next.Wrong? {
        return Wrong(next.error), tree;
      }
      c, g := next.value, g';
    }
    var token, at, items := ReadNonNop(reader, bytes, strings, g.items, g.st);
    ItemAfterToken(bytes, at);
    if token.None? {
      Stuck(bytes, strings, at, items, g.st);
      return Wrong(Unreadable), tree;
    }
    if token.value != EndToken {
      Stuck(bytes, strings, at, items, g.st);
      return Wrong(ExpectedEnd), tree;
    }
    Advance(bytes, strings, at, items, g.st);
    if reader.offset != |bytes| {
      Trailing(bytes, strings, at + 4, items + [Fin], Ended(g.st.root));
      return Wrong(TrailingData), tree;
    }
    tree := g.st.root;
    Finished(bytes, strings, items + [Fin], Ended(tree));
    return Good(()), tree;
  }
}
