/** Navigation over a validated structure block: views of nodes as suffixes of the block, and the
    iterators over properties, children and descendants.

    A view's slice may run past its node. Every read below takes the value of an `Option` that is
    shown to be there, so no "validated" read can fail.
 */
module FdtViews {
  import opened Memory
  import opened FdtReader
  import opened FdtItems
  import opened FdtTree
  import opened FdtStructure

  /** A node view: its name and the bytes after its padded name. */
  datatype NodeView = NodeView(name: seq<byte>, content: seq<byte>, strings: seq<byte>)

  datatype PropertyView = PropertyView(name: seq<byte>, value: seq<byte>)

  /** The view shows this node: its slice starts with the node's contents and its end token. */
  ghost predicate Shows(v: NodeView, n: Node) {
    && v.name == n.name && WellFormed(n, v.strings)
    && exists items: seq<Item>, end: nat ::
         end <= |v.content| && Seg(v.content, 0, end, items) && Strip(items) == ContentItems(n) + [End]
  }

  /** All nodes below a list of siblings, parents first. */
  function Preorder(forest: seq<Node>): seq<Node> {
    if forest == [] then [] else [forest[0]] + Preorder(forest[0].children) + Preorder(forest[1..])
  }

  // ----- What lies ahead of a reader

  /** The unread items up to the end of the iterated node; the unread properties of the innermost
      open node; and, innermost first, the unread siblings at every open depth. */
  datatype Ahead = Ahead(rest: seq<Item>, end: nat, props: seq<Property>, forests: seq<seq<Node>>)

  function Tail(forests: seq<seq<Node>>): seq<Item> {
    if forests == [] then [] else ForestItems(forests[0]) + [End] + Tail(forests[1..])
  }

  predicate ForestOk(forest: seq<Node>, strings: seq<byte>) {
    forall k :: 0 <= k < |forest| ==> WellFormed(forest[k], strings)
  }

  predicate ForestsOk(forests: seq<seq<Node>>, strings: seq<byte>) {
    forall k :: 0 <= k < |forests| ==> ForestOk(forests[k], strings)
  }

  predicate Facing(bytes: seq<byte>, strings: seq<byte>, at: nat, w: Ahead) {
    && at % 4 == 0 && at <= |bytes| && w.end <= |bytes| && Seg(bytes, at, w.end, w.rest)
    && w.forests != [] && Strip(w.rest) == PropItems(w.props) + Tail(w.forests)
    && PropsNamed(w.props, strings) && ForestsOk(w.forests, strings)
  }

  /** What lies ahead after the next item. */
  function Past(w: Ahead): Ahead
    requires w.rest != [] && w.forests != []
  {
    var rest := w.rest[1..];
    if w.rest[0].Nop? then w.(rest := rest)
    else if w.props != [] then w.(rest := rest, props := w.props[1..])
    else if w.forests[0] != [] then
      var c := w.forests[0][0];
      Ahead(rest, w.end, c.props, [c.children, w.forests[0][1..]] + w.forests[1..])
    else w.(rest := rest, forests := w.forests[1..])
  }

  /** The first item that is not a no-op. */
  function FirstItem(w: Ahead): Item
    requires w.forests != []
  {
    if w.props != [] then Prop(w.props[0].nameOffset, w.props[0].value)
    else if w.forests[0] != [] then Begin(w.forests[0][0].name)
    else End
  }

  lemma {:induction false} TailCons(first: seq<Node>, rest: seq<seq<Node>>)
    ensures Tail([first] + rest) == ForestItems(first) + [End] + Tail(rest)
  {
    hide ForestItems;
    assert ([first] + rest)[1..] == rest;
  }

  lemma {:induction false} TailStep(forests: seq<seq<Node>>)
    requires forests != []
    ensures Tail(forests) ==
            if forests[0] == [] then [End] + Tail(forests[1..])
            else
              var c := forests[0][0];
              [Begin(c.name)] + (PropItems(c.props) + Tail([c.children, forests[0][1..]] + forests[1..]))
  {
    var first, rest := forests[0], forests[1..];
    assert [first] + rest == forests;
    TailCons(first, rest);
    if first == [] {
      assert ForestItems(first) == [];
      hide Tail;
      assert [] + [End] + Tail(rest) == [End] + Tail(rest);
    } else {
      var c := first[0];
      ItemsAre(c);
      hide Items, Tail;
      assert ForestItems(first) == Items(c) + ForestItems(first[1..]);
      hide ForestItems;
      TailCons(c.children, [first[1..]] + rest);
      TailCons(first[1..], rest);
      assert [c.children] + ([first[1..]] + rest) == [c.children, first[1..]] + rest;
      Reassociate([Begin(c.name)], PropItems(c.props), ForestItems(c.children), [End], ForestItems(first[1..]),
                  Tail(rest));
    }
  }

  lemma {:induction false} Reassociate(a: seq<Item>, b: seq<Item>, c: seq<Item>, d: seq<Item>, e: seq<Item>,
                                       f: seq<Item>)
    ensures a + (b + c) + d + e + d + f == a + (b + (c + d + (e + d + f)))
  {
  }

  lemma {:induction false} SplitFirst(items: seq<Item>, head: Item, tail: seq<Item>)
    requires items != [] && !items[0].Nop? && Strip(items) == [head] + tail
    ensures items[0] == head && Strip(items[1..]) == tail
  {
    assert Strip(items)[0] == items[0] && Strip(items)[1..] == Strip(items[1..]);
    assert ([head] + tail)[0] == head && ([head] + tail)[1..] == tail;
  }

  /** What lies ahead is its first item and what lies ahead after it. */
  lemma {:induction false} AheadItems(w: Ahead)
    requires w.rest != [] && w.forests != [] && !w.rest[0].Nop?
    ensures PropItems(w.props) + Tail(w.forests) == [FirstItem(w)] + (PropItems(Past(w).props) + Tail(Past(w).forests))
  {
    hide Tail;
    if w.props != [] {
      Grouped([FirstItem(w)], PropItems(w.props[1..]), Tail(w.forests));
    } else {
      TailStep(w.forests);
      assert PropItems(w.props) == [];
      assert [] + Tail(w.forests) == Tail(w.forests);
      if w.forests[0] == [] {
        assert [] + Tail(w.forests[1..]) == Tail(w.forests[1..]);
      }
    }
  }

  /** The items of what lies ahead, split at the first. */
  lemma {:induction false} AheadSplits(w: Ahead)
    requires w.rest != [] && w.forests != [] && Strip(w.rest) == PropItems(w.props) + Tail(w.forests)
    ensures w.rest[0].Nop? || w.rest[0] == FirstItem(w)
    ensures Strip(Past(w).rest) == PropItems(Past(w).props) + Tail(Past(w).forests)
  {
    hide Tail, PropItems, FirstItem;
    if w.rest[0].Nop? {
      StripStep(w.rest);
    } else {
      hide Strip;
      AheadItems(w);
      SplitFirst(w.rest, FirstItem(w), PropItems(Past(w).props) + Tail(Past(w).forests));
    }
  }

  /** The end of the node is still ahead. */
  lemma {:induction false} AheadNotEmpty(w: Ahead)
    requires w.forests != [] && Strip(w.rest) == PropItems(w.props) + Tail(w.forests)
    ensures w.rest != []
  {
    assert |Tail(w.forests)| > 0;
  }

  lemma {:induction false} PastOk(w: Ahead, strings: seq<byte>)
    requires w.rest != [] && w.forests != [] && PropsNamed(w.props, strings) && ForestsOk(w.forests, strings)
    ensures PropsNamed(Past(w).props, strings) && ForestsOk(Past(w).forests, strings)
  {
    hide PropertyName;
    if !w.rest[0].Nop? && w.props == [] && w.forests[0] != [] {
      var c := w.forests[0][0];
      assert ForestOk(w.forests[0], strings);
      assert WellFormed(c, strings) && ForestOk(c.children, strings);
      hide WellFormed;
    }
  }

  /** The next item can always be read, and it is the one the tree calls for. */
  lemma {:induction false} Reads(bytes: seq<byte>, strings: seq<byte>, at: nat, w: Ahead)
    requires Facing(bytes, strings, at, w)
    ensures w.rest != [] && LexAt(bytes, at).Tok? && LexAt(bytes, at).item == w.rest[0]
    ensures w.rest[0].Nop? || w.rest[0] == FirstItem(w)
    ensures at < LexAt(bytes, at).next <= |bytes|
    ensures Past(w).forests != [] ==> Facing(bytes, strings, LexAt(bytes, at).next, Past(w))
    ensures w.props != [] ==> PropertyName(strings, w.props[0].nameOffset).Some?
  {
    AheadNotEmpty(w);
    hide LexAt, PropertyName, Strip, Tail, PropItems, ForestsOk;
    AheadSplits(w);
    PastOk(w, strings);
    LexInside(bytes, at);
    var piece := LexedIsPiece(bytes, at);
  }

  // ----- Views of what lies ahead

  /** Stripped items can be cut wherever their stripped form can. */
  lemma {:induction false} CutStripped(items: seq<Item>, a: seq<Item>, b: seq<Item>) returns (cut: nat)
    requires Strip(items) == a + b
    ensures cut <= |items| && Strip(items[..cut]) == a
  {
    if a == [] {
      cut := 0;
    } else if items[0].Nop? {
      cut := CutStripped(items[1..], a, b);
      cut := cut + 1;
      assert items[..cut][1..] == items[1..][..cut - 1];
    } else {
      assert Strip(items)[0] == (a + b)[0];
      assert Strip(items)[1..] == Strip(items[1..]) == a[1..] + b;
      cut := CutStripped(items[1..], a[1..], b);
      cut := cut + 1;
      assert items[..cut][1..] == items[1..][..cut - 1];
    }
  }

  /** The suffix after a node's name is a view of that node: alignment counted from the suffix's
      own start agrees with the enclosing slice. */
  lemma {:induction false} SuffixShows(bytes: seq<byte>, strings: seq<byte>, at: nat, w: Ahead, c: Node)
    requires Facing(bytes, strings, at, w) && WellFormed(c, strings)
    requires w.props == c.props && w.forests[0] == c.children
    ensures Shows(NodeView(c.name, bytes[at..], strings), c)
  {
    hide Strip, PropItems, ForestItems, LexAt, WellFormed, Seg, ForestsOk, PropsNamed;
    assert Tail(w.forests) == ForestItems(c.children) + [End] + Tail(w.forests[1..]);
    var here := ContentItems(c) + [End];
    assert PropItems(c.props) + Tail(w.forests) == here + Tail(w.forests[1..]);
    var cut := CutStripped(w.rest, here, Tail(w.forests[1..]));
    assert w.rest == w.rest[..cut] + w.rest[cut..];
    var mid := SegSplit(bytes, at, w.end, w.rest[..cut], w.rest[cut..]);
    SegBounds(bytes, at, mid, w.rest[..cut]);
    SegShift(bytes, at, 0, mid - at, w.rest[..cut]);
  }

  /** What lies ahead at the start of a view. */
  lemma {:induction false} Opening(v: NodeView, n: Node) returns (w: Ahead)
    requires Shows(v, n)
    ensures Facing(v.content, v.strings, 0, w) && w.props == n.props && w.forests == [n.children]
  {
    hide LexAt, Strip, Seg, PropertyName;
    var items: seq<Item>, end: nat :|
      end <= |v.content| && Seg(v.content, 0, end, items) && Strip(items) == ContentItems(n) + [End];
    w := Ahead(items, end, n.props, [n.children]);
    assert Tail([n.children][1..]) == [];
    hide PropItems, ForestItems;
    assert PropItems(n.props) + Tail([n.children]) == ContentItems(n) + [End];
    assert ForestOk(n.children, v.strings) && PropsNamed(n.props, v.strings);
  }

  // ----- Properties

  /** What the property iterator yields for a property. */
  predicate ShowsProperty(v: PropertyView, p: Property, strings: seq<byte>) {
    PropertyName(strings, p.nameOffset) == Some(v.name) && v.value == p.value
  }

  class Properties {
    const reader: Reader
    const strings: seq<byte>
    var finished: bool
    ghost var ahead: Ahead

    ghost predicate Valid()
      reads this, reader
    {
      reader.Valid() && (!finished ==> Facing(reader.bytes, strings, reader.offset, ahead))
    }

    /** The properties still to come. */
    ghost function Todo(): seq<Property>
      reads this
    {
      if finished then [] else ahead.props
    }

    constructor (v: NodeView, ghost n: Node)
      requires Shows(v, n)
      ensures Valid() && fresh(reader) && strings == v.strings && Todo() == n.props
    {
      reader := new Reader(v.content);
      strings := v.strings;
      finished := false;
      new;
      hide Facing;
      ahead := Opening(v, n);
    }

    method Next() returns (r: Option<PropertyView>)
      requires Valid()
      modifies this, reader
      ensures Valid()
      ensures r.None? <==> old(Todo()) == []
      ensures r.None? ==> Todo() == []
      ensures r.Some? ==> ShowsProperty(r.value, old(Todo())[0], strings) && Todo() == old(Todo())[1..]
    {
      hide Facing, LexAt, TokenAt, LexName, LexProperty, PropertyName;
      if finished {
        return None;
      }
      while true
        invariant reader.Valid() && !finished && Facing(reader.bytes, strings, reader.offset, ahead)
        invariant ahead.props == old(ahead.props)
        decreases |reader.bytes| - reader.offset
      {
        Reads(reader.bytes, strings, reader.offset, ahead);
        ItemAfterToken(reader.bytes, reader.offset);
        FacingOpen(reader.bytes, strings, reader.offset, ahead);
        var token := ReadToken(reader);
        match token.value {
          case PropertyToken =>
            var p := ReadProperty(reader);
            var name := PropertyName(strings, p.value.nameOffset);
            ahead := Past(ahead);
            return Some(PropertyView(name.value, p.value.value));
          case NopToken =>
            ahead := Past(ahead);
          case BeginNode =>
            finished := true;
            return None;
          case EndNode =>
            finished := true;
            return None;
          case EndToken =>
            assert false;
        }
      }
    }
  }

  lemma {:induction false} FacingOpen(bytes: seq<byte>, strings: seq<byte>, at: nat, w: Ahead)
    requires Facing(bytes, strings, at, w)
    ensures w.forests != []
    ensures forall k :: 0 <= k < |w.forests[0]| ==> WellFormed(w.forests[0][k], strings)
  {
    hide WellFormed, LexAt, Strip, Tail, Seg, PropItems, PropertyName;
    assert ForestOk(w.forests[0], strings);
  }

  // ----- Children and descendants

  class Children {
    const reader: Reader
    const strings: seq<byte>
    var depth: nat
    var finished: bool
    ghost var ahead: Ahead

    ghost predicate Valid()
      reads this, reader
    {
      && reader.Valid()
      && (!finished ==> Facing(reader.bytes, strings, reader.offset, ahead) && |ahead.forests| == depth + 1)
    }

    /** The direct children still to come: the unread siblings at the outermost depth. */
    ghost function Todo(): seq<Node>
      reads this
    {
      if finished || ahead.forests == [] then [] else ahead.forests[|ahead.forests| - 1]
    }

    constructor (v: NodeView, ghost n: Node)
      requires Shows(v, n)
      ensures Valid() && fresh(reader) && strings == v.strings && Todo() == n.children
    {
      reader := new Reader(v.content);
      strings := v.strings;
      depth := 0;
      finished := false;
      new;
      hide Facing;
      ahead := Opening(v, n);
    }

    method Next() returns (r: Option<NodeView>)
      requires Valid()
      modifies this, reader
      ensures Valid()
      ensures r.None? <==> old(Todo()) == []
      ensures r.None? ==> Todo() == []
      ensures r.Some? ==> Shows(r.value, old(Todo())[0]) && r.value.strings == strings && Todo() == old(Todo())[1..]
    {
      hide Facing, LexAt, TokenAt, LexName, LexProperty, PropertyName, Shows, WellFormed;
      if finished {
        return None;
      }
      while true
        invariant reader.Valid() && !finished && Valid() && Todo() == old(Todo())
        decreases |reader.bytes| - reader.offset
      {
        Reads(reader.bytes, strings, reader.offset, ahead);
        ItemAfterToken(reader.bytes, reader.offset);
        FacingOpen(reader.bytes, strings, reader.offset, ahead);
        ghost var before := ahead;
        var token := ReadToken(reader);
        match token.value {
          case PropertyToken =>
            var skipped := ReadProperty(reader);
            ahead := Past(ahead);
          case NopToken =>
            ahead := Past(ahead);
          case BeginNode =>
            var name := ReadName(reader);
            var content := reader.bytes[reader.offset..];
            var direct := depth == 0;
            ahead := Past(ahead);
            depth := depth + 1;
            if direct {
              SuffixShows(reader.bytes, strings, reader.offset, ahead, before.forests[0][0]);
              return Some(NodeView(name.value, content, strings));
            }
          case EndNode =>
            if depth == 0 {
              finished := true;
              return None;
            }
            ahead := Past(ahead);
            depth := depth - 1;
          case EndToken =>
            assert false;
        }
      }
    }
  }

  /** The nodes still to come at all depths, innermost first. */
  function Below(forests: seq<seq<Node>>): seq<Node> {
    if forests == [] then [] else Preorder(forests[0]) + Below(forests[1..])
  }

  lemma {:induction false} BelowCons(first: seq<Node>, rest: seq<seq<Node>>)
    ensures Below([first] + rest) == Preorder(first) + Below(rest)
  {
    hide Preorder;
    assert ([first] + rest)[1..] == rest;
  }

  lemma {:induction false} Joined(a: seq<Node>, b: seq<Node>, c: seq<Node>, d: seq<Node>)
    ensures a + (b + c) + d == a + (b + (c + d))
  {
  }

  lemma {:induction false} PreorderStep(forest: seq<Node>)
    ensures Preorder(forest) ==
            if forest == [] then [] else [forest[0]] + (Preorder(forest[0].children) + Preorder(forest[1..]))
  {
  }

  lemma {:induction false} BelowStep(forests: seq<seq<Node>>)
    requires forests != []
    ensures forests[0] == [] ==> Below(forests) == Below(forests[1..])
    ensures forests[0] != [] ==>
              var c := forests[0][0];
              Below(forests) == [c] + Below([c.children, forests[0][1..]] + forests[1..])
  {
    hide Preorder, Below;
    assert [forests[0]] + forests[1..] == forests;
    BelowCons(forests[0], forests[1..]);
    PreorderStep(forests[0]);
    if forests[0] == [] {
      assert [] + Below(forests[1..]) == Below(forests[1..]);
    } else {
      BelowNode(forests[0], forests[1..]);
    }
  }

  lemma {:induction false} BelowNode(first: seq<Node>, rest: seq<seq<Node>>)
    requires first != []
    ensures Preorder(first) + Below(rest) == [first[0]] + Below([first[0].children, first[1..]] + rest)
  {
    hide Preorder, Below;
    var c := first[0];
    PreorderStep(first);
    BelowCons(c.children, [first[1..]] + rest);
    BelowCons(first[1..], rest);
    assert [c.children] + ([first[1..]] + rest) == [c.children, first[1..]] + rest;
    Joined([c], Preorder(c.children), Preorder(first[1..]), Below(rest));
  }

  class Descendants {
    const reader: Reader
    const strings: seq<byte>
    var depth: nat
    var finished: bool
    ghost var ahead: Ahead

    ghost predicate Valid()
      reads this, reader
    {
      && reader.Valid()
      && (!finished ==> Facing(reader.bytes, strings, reader.offset, ahead) && |ahead.forests| == depth + 1)
    }

    ghost function Todo(): seq<Node>
      reads this
    {
      if finished then [] else Below(ahead.forests)
    }

    constructor (v: NodeView, ghost n: Node)
      requires Shows(v, n)
      ensures Valid() && fresh(reader) && strings == v.strings && Todo() == Preorder(n.children)
    {
      reader := new Reader(v.content);
      strings := v.strings;
      depth := 0;
      finished := false;
      new;
      hide Facing, Preorder;
      ahead := Opening(v, n);
      assert Below([n.children][1..]) == [];
      assert Below([n.children]) == Preorder(n.children) + [];
    }

    method Next() returns (r: Option<NodeView>)
      requires Valid()
      modifies this, reader
      ensures Valid()
      ensures r.None? <==> old(Todo()) == []
      ensures r.None? ==> Todo() == []
      ensures r.Some? ==> Shows(r.value, old(Todo())[0]) && r.value.strings == strings && Todo() == old(Todo())[1..]
    {
      hide Facing, LexAt, TokenAt, LexName, LexProperty, PropertyName, Shows, WellFormed, Below;
      if finished {
        return None;
      }
      while true
        invariant reader.Valid() && !finished && Valid() && Todo() == old(Todo())
        decreases |reader.bytes| - reader.offset
      {
        Reads(reader.bytes, strings, reader.offset, ahead);
        ItemAfterToken(reader.bytes, reader.offset);
        FacingOpen(reader.bytes, strings, reader.offset, ahead);
        BelowStep(ahead.forests);
        ghost var before := ahead;
        var token := ReadToken(reader);
        match token.value {
          case PropertyToken =>
            var skipped := ReadProperty(reader);
            ahead := Past(ahead);
          case NopToken =>
            ahead := Past(ahead);
          case BeginNode =>
            var name := ReadName(reader);
            var content := reader.bytes[reader.offset..];
            ahead := Past(ahead);
            depth := depth + 1;
            SuffixShows(reader.bytes, strings, reader.offset, ahead, before.forests[0][0]);
            return Some(NodeView(name.value, content, strings));
          case EndNode =>
            if depth == 0 {
              BelowNothing(ahead.forests[1..]);
              finished := true;
              return None;
            }
            ahead := Past(ahead);
            depth := depth - 1;
          case EndToken =>
            assert false;
        }
      }
    }
  }

  lemma {:induction false} BelowNothing(forests: seq<seq<Node>>)
    requires forests == []
    ensures Below(forests) == []
  {
  }

  // ----- Lookups

  /** `Node::child`: the child of that name, which is unique. */
  method Child(v: NodeView, name: seq<byte>, ghost n: Node) returns (r: Option<NodeView>)
    requires Shows(v, n)
    ensures r.Some? <==> HasChild(n, name)
    ensures r.Some? ==> r.value.strings == v.strings
    ensures r.Some? ==> forall k :: 0 <= k < |n.children| && n.children[k].name == name ==>
        Shows(r.value, n.children[k])
  {
    ShownNames(v, n);
    hide WellFormed, ValidNodeName;
    var children := new Children(v, n);
    ghost var passed: nat := 0;
    while true
      invariant children.Valid() && fresh(children) && fresh(children.reader) && children.strings == v.strings
      invariant passed <= |n.children| && children.Todo() == n.children[passed..]
      invariant forall k :: 0 <= k < passed ==> n.children[k].name != name
      decreases |children.Todo()|
    {
      hide Shows, Children.Valid, Children.Todo;
      r := children.Next();
      if r.None? {
        return;
      }
      ShownName(r.value, n.children[passed]);
      if r.value.name == name {
        return;
      }
      passed := passed + 1;
    }
  }

  lemma {:induction false} ShownName(v: NodeView, n: Node)
    requires Shows(v, n)
    ensures v.name == n.name
  {
  }

  lemma {:induction false} ShownNames(v: NodeView, n: Node)
    requires Shows(v, n)
    ensures forall i, j :: 0 <= i < j < |n.children| ==> n.children[i].name != n.children[j].name
    ensures PropsOk(n.props, v.strings)
  {
    hide PropsOk, ValidNodeName;
  }

  /** `Node::property`: the property of that name, which is unique. */
  method FindPropertyNamed(v: NodeView, name: seq<byte>, ghost n: Node) returns (r: Option<PropertyView>)
    requires Shows(v, n)
    ensures r.Some? <==> HasProperty(n, name, v.strings)
    ensures r.Some? ==>
            forall k :: 0 <= k < |n.props| && PropertyName(v.strings, n.props[k].nameOffset) == Some(name) ==>
                                    ShowsProperty(r.value, n.props[k], v.strings)
  {
    hide Properties.Valid, Properties.Todo, WellFormed, PropertyName, Shows, HasProperty, NamedProperty, PropsOk;
    ShownNames(v, n);
    NamedIsHas(n, name, v.strings);
    var properties := new Properties(v, n);
    ghost var passed: nat := 0;
    while true
      invariant properties.Valid() && fresh(properties) && fresh(properties.reader) && properties.strings == v.strings
      invariant passed <= |n.props| && properties.Todo() == n.props[passed..]
      invariant NamedProperty(n.props[passed..], name, v.strings) == HasProperty(n, name, v.strings)
      decreases |properties.Todo()|
    {
      r := properties.Next();
      if r.None? {
        NoProperty(n.props[passed..], name, v.strings);
        return;
      }
      PropertyHere(n.props, passed, name, v.strings);
      if r.value.name == name {
        return;
      }
      passed := passed + 1;
    }
  }

  lemma {:induction false} NoProperty(props: seq<Property>, name: seq<byte>, strings: seq<byte>)
    requires props == []
    ensures !NamedProperty(props, name, strings)
  {
  }

  /** Either the property at `k` is the only one of that name, or the name comes later if at all. */
  lemma {:induction false} PropertyHere(props: seq<Property>, k: nat, name: seq<byte>, strings: seq<byte>)
    requires PropsOk(props, strings) && k < |props|
    ensures PropertyName(strings, props[k].nameOffset) == Some(name) ==>
              && NamedProperty(props[k..], name, strings)
              && forall j :: 0 <= j < |props| && PropertyName(strings, props[j].nameOffset) == Some(name) ==> j == k
    ensures PropertyName(strings, props[k].nameOffset) != Some(name) ==>
              NamedProperty(props[k..], name, strings) == NamedProperty(props[k + 1..], name, strings)
  {
    hide PropertyName, NamedProperty;
    NamedLater(props[k..], name, strings);
    assert props[k..][1..] == props[k + 1..];
  }

  // ----- The root

  lemma {:induction false} RootAhead(items: seq<Item>, t: Node)
    requires items != [] && Strip(items) == Items(t) + [Fin]
    ensures items[0].Nop? ==> Strip(items[1..]) == Items(t) + [Fin]
    ensures !items[0].Nop? ==> items[0] == Begin(t.name) && Strip(items[1..]) == ContentItems(t) + [End] + [Fin]
  {
    StripStep(items);
    ItemsAre(t);
    hide Items, ContentItems, Strip;
    if !items[0].Nop? {
      assert Strip(items)[0] == items[0] && Strip(items)[1..] == Strip(items[1..]);
      assert ([Begin(t.name)] + ContentItems(t) + [End] + [Fin])[1..] == ContentItems(t) + [End] + [Fin];
    }
  }

  lemma {:induction false} RootShows(bytes: seq<byte>, strings: seq<byte>, at: nat, end: nat, rest: seq<Item>, t: Node)
    requires at % 4 == 0 && at <= |bytes| && end <= |bytes| && Seg(bytes, at, end, rest)
    requires Strip(rest) == ContentItems(t) + [End] + [Fin] && WellFormed(t, strings)
    ensures Shows(NodeView(t.name, bytes[at..], strings), t)
  {
    hide Strip, LexAt, WellFormed, Seg, ContentItems;
    var cut := CutStripped(rest, ContentItems(t) + [End], [Fin]);
    assert rest == rest[..cut] + rest[cut..];
    var mid := SegSplit(bytes, at, end, rest[..cut], rest[cut..]);
    SegBounds(bytes, at, mid, rest[..cut]);
    SegShift(bytes, at, 0, mid - at, rest[..cut]);
  }

  /** `Structure::root` on an accepted block shows the tree it encodes. */
  method Root(bytes: seq<byte>, strings: seq<byte>, ghost t: Node) returns (v: NodeView)
    requires Encodes(bytes, t) && WellFormedRoot(t, strings)
    ensures Shows(v, t) && v.strings == strings
  {
    ghost var rest := EncodedItems(bytes, t);
    hide Strip, LexAt, WellFormed, Seg, ContentItems, Items, TokenAt, LexName, LexProperty, Encodes, Shows, Padding;
    var reader := new Reader(bytes);
    while true
      invariant reader.Valid() && reader.bytes == bytes && reader.offset % 4 == 0
      invariant Seg(bytes, reader.offset, |bytes|, rest) && Strip(rest) == Items(t) + [Fin]
      decreases |bytes| - reader.offset
    {
      RestNotEmpty(bytes, reader.offset, rest, t);
      RootAhead(rest, t);
      ItemAfterToken(bytes, reader.offset);
      ghost var piece := LexedIsPiece(bytes, reader.offset);
      rest := rest[1..];
      var token := ReadToken(reader);
      if token.value != NopToken {
        var name := ReadName(reader);
        RootShows(bytes, strings, reader.offset, |bytes|, rest, t);
        return NodeView(name.value, bytes[reader.offset..], strings);
      }
    }
  }

  lemma {:induction false} EncodedItems(bytes: seq<byte>, t: Node) returns (items: seq<Item>)
    requires Encodes(bytes, t)
    ensures Seg(bytes, 0, |bytes|, items) && Strip(items) == Items(t) + [Fin]
  {
    hide Seg, Encoding, Strip, Items;
    items :| Encoding(bytes, items) && Prints(items, t);
    EncodingIsReading(bytes, items);
  }

  lemma {:induction false} RestNotEmpty(bytes: seq<byte>, at: nat, rest: seq<Item>, t: Node)
    requires Seg(bytes, at, |bytes|, rest) && Strip(rest) == Items(t) + [Fin]
    ensures rest != [] && LexAt(bytes, at).Tok? && LexAt(bytes, at).item == rest[0]
    ensures Seg(bytes, LexAt(bytes, at).next, |bytes|, rest[1..])
    ensures at < LexAt(bytes, at).next <= |bytes|
  {
    hide LexAt;
    assert Strip([]) == [];
    LexInside(bytes, at);
  }
}
