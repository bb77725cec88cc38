/** Devicetrees as trees, the item sequences that print them, and a one-pass machine over items
    that accepts exactly the well-formed ones.
 */
module FdtTree {
  import opened Memory
  import opened FdtReader
  import opened FdtItems

  datatype Property = Property(nameOffset: nat, value: seq<byte>)

  datatype Node = Node(name: seq<byte>, props: seq<Property>, children: seq<Node>)

  // ----- Printing

  function PropItems(props: seq<Property>): seq<Item> {
    if props == [] then [] else [Prop(props[0].nameOffset, props[0].value)] + PropItems(props[1..])
  }

  /** A node's items: its name, its properties, its children in order, its end. */
  function Items(n: Node): seq<Item>
    decreases n, 1
  {
    [Begin(n.name)] + ContentItems(n) + [End]
  }

  function ContentItems(n: Node): seq<Item>
    decreases n, 0
  {
    PropItems(n.props) + ForestItems(n.children)
  }

  function ForestItems(children: seq<Node>): seq<Item>
    decreases children, 0
  {
    if children == [] then [] else Items(children[0]) + ForestItems(children[1..])
  }

  /** Items without the no-ops. */
  function Strip(items: seq<Item>): seq<Item> {
    if items == [] then []
    else if items[0].Nop? then Strip(items[1..])
    else [items[0]] + Strip(items[1..])
  }

  // ----- Well-formed trees

  /** Property names resolve in the strings block. */
  predicate PropsNamed(props: seq<Property>, strings: seq<byte>) {
    forall k :: 0 <= k < |props| ==> PropertyName(strings, props[k].nameOffset).Some?
  }

  /** Property names resolve, and no two are equal. */
  predicate PropsOk(props: seq<Property>, strings: seq<byte>) {
    && PropsNamed(props, strings)
    && (forall i, j :: 0 <= i < j < |props| ==>
          PropertyName(strings, props[i].nameOffset) != PropertyName(strings, props[j].nameOffset))
  }

  /** Sibling names are valid and distinct. */
  predicate NamesOk(children: seq<Node>) {
    && (forall k :: 0 <= k < |children| ==> ValidNodeName(children[k].name))
    && (forall i, j :: 0 <= i < j < |children| ==> children[i].name != children[j].name)
  }

  predicate WellFormed(n: Node, strings: seq<byte>)
    decreases n
  {
    && PropsOk(n.props, strings) && NamesOk(n.children)
    && forall k :: 0 <= k < |n.children| ==> WellFormed(n.children[k], strings)
  }

  /** A complete devicetree: the root has the empty name. */
  predicate WellFormedRoot(n: Node, strings: seq<byte>) {
    n.name == [] && WellFormed(n, strings)
  }

  // ----- The machine

  /** Before the root, inside open nodes (outermost first), after the root, after the end. */
  datatype ParseState = Start | Open(stack: seq<Node>) | Closed(root: Node) | Ended(root: Node)

  predicate HasChild(n: Node, name: seq<byte>) {
    exists k :: 0 <= k < |n.children| && n.children[k].name == name
  }

  predicate HasProperty(n: Node, name: seq<byte>, strings: seq<byte>) {
    exists k :: 0 <= k < |n.props| && PropertyName(strings, n.props[k].nameOffset) == Some(name)
  }

  /** One item; nothing when the item is not allowed here. */
  function StepItem(st: ParseState, item: Item, strings: seq<byte>): Option<ParseState> {
    match st
    case Start =>
      if item.Nop? then Some(st)
      else if item == Begin([]) then Some(Open([Node([], [], [])]))
      else None
    case Open(stack) =>
      if item.Nop? then Some(st) else if stack == [] then None else StepOpen(stack, item, strings)
    case Closed(root) =>
      if item.Nop? then Some(st) else if item.Fin? then Some(Ended(root)) else None
    case Ended(_) => None
  }

  function StepOpen(stack: seq<Node>, item: Item, strings: seq<byte>): Option<ParseState>
    requires stack != []
  {
    var last := |stack| - 1;
    var top := stack[last];
    match item
    case Nop => Some(Open(stack))
    case Fin => None
    case Begin(name) =>
      if !ValidNodeName(name) || HasChild(top, name) then None else Some(Open(stack + [Node(name, [], [])]))
    case Prop(nameOffset, value) =>
      var name := PropertyName(strings, nameOffset);
      if top.children != [] || name.None? || HasProperty(top, name.value, strings) then None
      else Some(Open(stack[last := top.(props := top.props + [Property(nameOffset, value)])]))
    case End =>
      if last == 0 then Some(Closed(top))
      else
        var parent := stack[last - 1];
        Some(Open(stack[..last - 1] + [parent.(children := parent.children + [top])]))
  }

  function RunItems(st: ParseState, items: seq<Item>, strings: seq<byte>): Option<ParseState>
    decreases |items|
  {
    if items == [] then Some(st)
    else
      var next := StepItem(st, items[0], strings);
      if next.None? then None else RunItems(next.value, items[1..], strings)
  }

  // ----- Sequence facts

  lemma {:induction false} StripStep(items: seq<Item>)
    requires items != []
    ensures Strip(items) == (if items[0].Nop? then [] else [items[0]]) + Strip(items[1..])
  {
  }

  lemma {:induction false} StripAppend(a: seq<Item>, b: seq<Item>)
    ensures Strip(a + b) == Strip(a) + Strip(b)
  {
    if a == [] {
      assert a + b == b;
      assert [] + Strip(b) == Strip(b);
    } else {
      hide Strip;
      StripAppend(a[1..], b);
      assert (a + b)[1..] == a[1..] + b && (a + b)[0] == a[0];
      StripStep(a + b);
      StripStep(a);
      Grouped(if a[0].Nop? then [] else [a[0]], Strip(a[1..]), Strip(b));
    }
  }

  lemma {:induction false} RunAppend(st: ParseState, a: seq<Item>, b: seq<Item>, strings: seq<byte>)
    ensures RunItems(st, a + b, strings) ==
            match RunItems(st, a, strings) case None => None case Some(mid) => RunItems(mid, b, strings)
    decreases |a|
  {
    hide StepItem;
    if a == [] {
      assert a + b == b;
    } else {
      assert (a + b)[1..] == a[1..] + b;
      var next := StepItem(st, a[0], strings);
      if next.Some? {
        RunAppend(next.value, a[1..], b, strings);
      }
    }
  }

  lemma {:induction false} PropItemsSnoc(props: seq<Property>, p: Property)
    ensures PropItems(props + [p]) == PropItems(props) + [Prop(p.nameOffset, p.value)]
  {
    if props == [] {
      assert props + [p] == [p];
    } else {
      PropItemsSnoc(props[1..], p);
      assert (props + [p])[1..] == props[1..] + [p];
    }
  }

  lemma {:induction false} ForestItemsAppend(a: seq<Node>, b: seq<Node>)
    ensures ForestItems(a + b) == ForestItems(a) + ForestItems(b)
  {
    if a == [] {
      assert a + b == b;
      assert [] + ForestItems(b) == ForestItems(b);
    } else {
      hide Items;
      ForestItemsAppend(a[1..], b);
      assert (a + b)[1..] == a[1..] + b;
      assert ForestItems(a + b) == Items(a[0]) + ForestItems(a[1..] + b);
      assert ForestItems(a) == Items(a[0]) + ForestItems(a[1..]);
      hide ForestItems;
      Grouped(Items(a[0]), ForestItems(a[1..]), ForestItems(b));
    }
  }

  // ----- What the machine has consumed

  /** The items of a chain of open nodes. */
  function OpenItems(stack: seq<Node>): seq<Item> {
    if stack == [] then [] else [Begin(stack[0].name)] + ContentItems(stack[0]) + OpenItems(stack[1..])
  }

  function Consumed(st: ParseState): seq<Item> {
    match st
    case Start => []
    case Open(stack) => OpenItems(stack)
    case Closed(root) => Items(root)
    case Ended(root) => Items(root) + [Fin]
  }

  lemma {:induction false} OpenItemsStep(stack: seq<Node>)
    requires stack != []
    ensures OpenItems(stack) == [Begin(stack[0].name)] + ContentItems(stack[0]) + OpenItems(stack[1..])
  {
    hide ContentItems;
  }

  lemma {:induction false} OpenItemsAppend(a: seq<Node>, b: seq<Node>)
    ensures OpenItems(a + b) == OpenItems(a) + OpenItems(b)
  {
    if a == [] {
      NothingOpen(a);
      assert a + b == b;
      assert [] + OpenItems(b) == OpenItems(b);
    } else {
      hide OpenItems, ContentItems;
      OpenItemsAppend(a[1..], b);
      assert (a + b)[1..] == a[1..] + b;
      OpenItemsStep(a + b);
      OpenItemsStep(a);
      Grouped([Begin(a[0].name)] + ContentItems(a[0]), OpenItems(a[1..]), OpenItems(b));
    }
  }

  lemma {:induction false} Grouped(a: seq<Item>, b: seq<Item>, c: seq<Item>)
    ensures a + (b + c) == a + b + c
  {
  }

  lemma {:induction false} OpenItemsOne(n: Node)
    ensures OpenItems([n]) == [Begin(n.name)] + ContentItems(n)
  {
    assert OpenItems([n][1..]) == [];
  }

  lemma {:induction false} OpenItemsLast(stack: seq<Node>)
    requires stack != []
    ensures var last := |stack| - 1;
            OpenItems(stack) == OpenItems(stack[..last]) + ([Begin(stack[last].name)] + ContentItems(stack[last]))
  {
    var last := |stack| - 1;
    assert stack == stack[..last] + [stack[last]];
    OpenItemsAppend(stack[..last], [stack[last]]);
    OpenItemsOne(stack[last]);
  }

  /** Each step consumes exactly its item. */
  lemma {:induction false} StepConsumes(st: ParseState, item: Item, strings: seq<byte>)
    requires StepItem(st, item, strings).Some?
    ensures Consumed(StepItem(st, item, strings).value) == Consumed(st) + (if item.Nop? then [] else [item])
  {
    if st.Start? && !item.Nop? {
      OpenItemsOne(Node([], [], []));
    } else if st.Open? && !item.Nop? {
      StepOpenConsumes(st.stack, item, strings);
    }
  }

  lemma {:induction false} StepOpenConsumes(stack: seq<Node>, item: Item, strings: seq<byte>)
    requires stack != [] && !item.Nop? && StepOpen(stack, item, strings).Some?
    ensures Consumed(StepOpen(stack, item, strings).value) == OpenItems(stack) + [item]
  {
    match item
    case Begin(name) =>
      hide OpenItems, ValidNodeName;
      OpenItemsAppend(stack, [Node(name, [], [])]);
      EmptyNodeItems(name);
    case Prop(nameOffset, value) => PropertyConsumes(stack, Property(nameOffset, value));
    case End => EndConsumes(stack);
  }

  lemma {:induction false} PropertyConsumes(stack: seq<Node>, p: Property)
    requires stack != [] && stack[|stack| - 1].children == []
    ensures var last := |stack| - 1;
            var top := stack[last];
            OpenItems(stack[last := top.(props := top.props + [p])]) == OpenItems(stack) + [Prop(p.nameOffset, p.value)]
  {
    var last := |stack| - 1;
    var top := stack[last];
    var after := stack[last := top.(props := top.props + [p])];
    assert ContentItems(after[last]) == ContentItems(top) + [Prop(p.nameOffset, p.value)] by {
      PropItemsSnoc(top.props, p);
      assert ForestItems(top.children) == [];
    }
    hide OpenItems, ContentItems;
    OpenItemsLast(stack);
    OpenItemsLast(after);
    assert after[..last] == stack[..last];
  }

  lemma {:induction false} EndConsumes(stack: seq<Node>)
    requires stack != []
    ensures var last := |stack| - 1;
            if last == 0 then Items(stack[0]) == OpenItems(stack) + [End]
            else
              var parent := stack[last - 1];
              OpenItems(stack[..last - 1] + [parent.(children := parent.children + [stack[last]])])
              == OpenItems(stack) + [End]
  {
    hide OpenItems, ContentItems, Items;
    var last := |stack| - 1;
    if last == 0 {
      OpenItemsLast(stack);
      ItemsAre(stack[0]);
      NothingOpen(stack[..0]);
    } else {
      LastTwo(stack);
      ClosingConsumes(stack[..last - 1], stack[last - 1], stack[last]);
    }
  }

  lemma {:induction false} LastTwo(stack: seq<Node>)
    requires |stack| > 1
    ensures stack[..|stack| - 2] + [stack[|stack| - 2], stack[|stack| - 1]] == stack
  {
  }

  lemma {:induction false} ClosingConsumes(outer: seq<Node>, parent: Node, top: Node)
    ensures OpenItems(outer + [parent.(children := parent.children + [top])])
            == OpenItems(outer + [parent, top]) + [End]
  {
    hide OpenItems, ContentItems, Items;
    var grown := parent.(children := parent.children + [top]);
    OpenItemsAppend(outer, [grown]);
    OpenItemsOne(grown);
    OpenItemsAppend(outer, [parent, top]);
    assert [parent, top] == [parent] + [top];
    OpenItemsAppend([parent], [top]);
    OpenItemsOne(parent);
    OpenItemsOne(top);
    ItemsAre(top);
    ChildAttached(parent, top);
    Regroup(OpenItems(outer), [Begin(parent.name)], ContentItems(parent), [Begin(top.name)] + ContentItems(top), [End]);
  }

  lemma {:induction false} ItemsAre(n: Node)
    ensures Items(n) == [Begin(n.name)] + ContentItems(n) + [End]
  {
  }

  lemma {:induction false} NothingOpen(stack: seq<Node>)
    requires stack == []
    ensures OpenItems(stack) == []
  {
  }

  lemma {:induction false} Regroup(a: seq<Item>, b: seq<Item>, c: seq<Item>, d: seq<Item>, e: seq<Item>)
    ensures a + (b + (c + (d + e))) == a + (b + c) + d + e
  {
  }

  lemma {:induction false} EmptyNodeItems(name: seq<byte>)
    ensures OpenItems([Node(name, [], [])]) == [Begin(name)]
  {
    OpenItemsOne(Node(name, [], []));
  }

  lemma {:induction false} ChildAttached(parent: Node, child: Node)
    ensures ContentItems(parent.(children := parent.children + [child])) == ContentItems(parent) + Items(child)
  {
    ForestItemsAppend(parent.children, [child]);
    assert ForestItems([child]) == Items(child) + ForestItems([child][1..]);
  }

  // ----- What the machine has checked

  /** A node whose contents so far are in order. */
  predicate ContentOk(n: Node, strings: seq<byte>) {
    && PropsOk(n.props, strings) && NamesOk(n.children)
    && forall k :: 0 <= k < |n.children| ==> WellFormed(n.children[k], strings)
  }

  /** A chain of open nodes, each a fresh and validly named child of the one before. */
  predicate StackOk(stack: seq<Node>, strings: seq<byte>) {
    && stack != [] && stack[0].name == []
    && (forall k :: 0 <= k < |stack| ==> ContentOk(stack[k], strings))
    && (forall k :: 0 < k < |stack| ==> ValidNodeName(stack[k].name) && !HasChild(stack[k - 1], stack[k].name))
  }

  predicate StateOk(st: ParseState, strings: seq<byte>) {
    match st
    case Start => true
    case Open(stack) => StackOk(stack, strings)
    case Closed(root) => WellFormedRoot(root, strings)
    case Ended(root) => WellFormedRoot(root, strings)
  }

  lemma {:induction false} BeginChecks(stack: seq<Node>, name: seq<byte>, strings: seq<byte>)
    requires StackOk(stack, strings) && StepOpen(stack, Begin(name), strings).Some?
    ensures StateOk(StepOpen(stack, Begin(name), strings).value, strings)
  {
    hide ValidNodeName;
    assert ContentOk(Node(name, [], []), strings);
    hide ContentOk, HasChild;
  }

  lemma {:induction false} FinStops(stack: seq<Node>, strings: seq<byte>)
    requires stack != []
    ensures StepOpen(stack, Fin, strings).None?
  {
  }

  lemma {:induction false} FreshRootChecks(strings: seq<byte>)
    ensures StackOk([Node([], [], [])], strings)
  {
  }

  lemma {:induction false} StepChecks(st: ParseState, item: Item, strings: seq<byte>)
    requires StateOk(st, strings) && StepItem(st, item, strings).Some?
    ensures StateOk(StepItem(st, item, strings).value, strings)
  {
    hide StackOk, WellFormedRoot, StepOpen;
    if st.Open? && !item.Nop? {
      match item
      case Begin(name) => BeginChecks(st.stack, name, strings);
      case Prop(nameOffset, value) => PropertyChecks(st.stack, nameOffset, value, strings);
      case End => EndChecks(st.stack, strings);
      case Fin => FinStops(st.stack, strings);
      case Nop =>
    } else if st.Start? && !item.Nop? {
      FreshRootChecks(strings);
    }
  }

  lemma {:induction false} PropertyChecks(stack: seq<Node>, nameOffset: nat, value: seq<byte>, strings: seq<byte>)
    requires StackOk(stack, strings) && StepOpen(stack, Prop(nameOffset, value), strings).Some?
    ensures StateOk(StepOpen(stack, Prop(nameOffset, value), strings).value, strings)
  {
    hide ValidNodeName, WellFormed, PropertyName;
    var last := |stack| - 1;
    var top := stack[last];
    var after := StepOpen(stack, Prop(nameOffset, value), strings).value.stack;
    assert PropsOk(after[last].props, strings);
    assert after[last].children == top.children;
  }

  lemma {:induction false} EndChecks(stack: seq<Node>, strings: seq<byte>)
    requires StackOk(stack, strings)
    ensures StateOk(StepOpen(stack, End, strings).value, strings)
  {
    hide ValidNodeName, PropsOk;
    var last := |stack| - 1;
    var top := stack[last];
    assert WellFormed(top, strings);
    if last > 0 {
      hide WellFormed;
      var parent := stack[last - 1];
      var grown := parent.(children := parent.children + [top]);
      assert ContentOk(grown, strings);
    }
  }

  lemma {:induction false} StripNothing(items: seq<Item>)
    requires items == []
    ensures Strip(items) == []
  {
  }

  lemma {:induction false} RunChecks(st: ParseState, items: seq<Item>, strings: seq<byte>)
    requires StateOk(st, strings) && RunItems(st, items, strings).Some?
    ensures var after := RunItems(st, items, strings).value;
            StateOk(after, strings) && Consumed(after) == Consumed(st) + Strip(items)
    decreases |items|
  {
    hide StepItem, StateOk, Consumed, Strip;
    if items == [] {
      assert Strip(items) == [] by {
        StripNothing(items);
      }
      assert Consumed(st) + [] == Consumed(st);
    } else {
      var item, rest := items[0], items[1..];
      var next := StepItem(st, item, strings).value;
      StepChecks(st, item, strings);
      StepConsumes(st, item, strings);
      RunChecks(next, rest, strings);
      StripStep(items);
      Grouped(Consumed(st), if item.Nop? then [] else [item], Strip(rest));
    }
  }

  // ----- The machine accepts every well-formed tree

  lemma {:induction false} RunProps(stack: seq<Node>, top: Node, props: seq<Property>, strings: seq<byte>)
    requires top.children == [] && PropsOk(top.props + props, strings)
    ensures RunItems(Open(stack + [top]), PropItems(props), strings)
            == Some(Open(stack + [top.(props := top.props + props)]))
    decreases |props|
  {
    if props == [] {
      assert top.props + props == top.props;
    } else {
      var p := props[0];
      var grown := top.(props := top.props + [p]);
      assert (top.props + props)[|top.props|] == p;
      var name := PropertyName(strings, p.nameOffset);
      forall k | 0 <= k < |top.props| ensures PropertyName(strings, top.props[k].nameOffset) != name {
        assert (top.props + props)[k] == top.props[k];
      }
      assert !HasProperty(top, name.value, strings);
      assert (stack + [top])[|stack| := grown] == stack + [grown];
      assert StepItem(Open(stack + [top]), Prop(p.nameOffset, p.value), strings) == Some(Open(stack + [grown]));
      assert grown.props + props[1..] == top.props + props;
      hide StepItem, PropsOk, PropertyName;
      RunProps(stack, grown, props[1..], strings);
    }
  }

  /** Every sibling is new and well-formed. */
  predicate Extends(top: Node, children: seq<Node>, strings: seq<byte>) {
    && NamesOk(top.children + children)
    && forall k :: 0 <= k < |children| ==> WellFormed(children[k], strings)
  }

  lemma {:induction false} Grouped2(done: seq<Node>, c: Node, children: seq<Node>)
    requires children != [] && c == children[0]
    ensures done + [c] + children[1..] == done + children
  {
  }

  lemma {:induction false} RunForest(stack: seq<Node>, top: Node, children: seq<Node>, strings: seq<byte>)
    requires Extends(top, children, strings)
    ensures RunItems(Open(stack + [top]), ForestItems(children), strings)
            == Some(Open(stack + [top.(children := top.children + children)]))
    decreases children, 0
  {
    if children == [] {
      assert top.children + children == top.children;
    } else {
      hide StepItem, Extends, Items, WellFormed, ValidNodeName, HasChild;
      var c := children[0];
      var grown := top.(children := top.children + [c]);
      ExtendsFirst(top, children, strings);
      RunNode(stack, top, c, strings);
      assert ForestItems(children) == Items(c) + ForestItems(children[1..]);
      hide RunItems, ForestItems;
      RunAppend(Open(stack + [top]), Items(c), ForestItems(children[1..]), strings);
      RunForest(stack, grown, children[1..], strings);
      Grouped2(top.children, c, children);
    }
  }

  lemma {:induction false} ExtendsFirst(top: Node, children: seq<Node>, strings: seq<byte>)
    requires children != [] && Extends(top, children, strings)
    ensures ValidNodeName(children[0].name) && !HasChild(top, children[0].name) && WellFormed(children[0], strings)
    ensures Extends(top.(children := top.children + [children[0]]), children[1..], strings)
  {
    hide ValidNodeName, WellFormed;
    var all := top.children + children;
    assert all[|top.children|] == children[0];
    forall k | 0 <= k < |top.children| ensures top.children[k].name != children[0].name {
      assert all[k] == top.children[k];
    }
    assert top.children + [children[0]] + children[1..] == all;
  }

  lemma {:induction false} RunNode(stack: seq<Node>, top: Node, n: Node, strings: seq<byte>)
    requires ValidNodeName(n.name) && !HasChild(top, n.name) && WellFormed(n, strings)
    ensures RunItems(Open(stack + [top]), Items(n), strings)
            == Some(Open(stack + [top.(children := top.children + [n])]))
    decreases n, 2
  {
    var outer := stack + [top];
    var begun := Node(n.name, [], []);
    RunOne(Open(outer), Begin(n.name), strings);
    RunContent(outer, n, strings);
    RunOne(Open(outer + [n]), End, strings);
    var after := StepItem(Open(outer + [n]), End, strings);
    assert (outer + [n])[..|outer| - 1] == stack;
    assert after == Some(Open(stack + [top.(children := top.children + [n])]));
    hide StepItem, ContentItems, WellFormed, ValidNodeName;
    RunAppend(Open(outer), [Begin(n.name)], ContentItems(n), strings);
    RunAppend(Open(outer), [Begin(n.name)] + ContentItems(n), [End], strings);
  }

  lemma {:induction false} RunOne(st: ParseState, item: Item, strings: seq<byte>)
    ensures RunItems(st, [item], strings) == StepItem(st, item, strings)
  {
    hide StepItem;
    assert [item][1..] == [];
  }

  lemma {:induction false} RunContent(outer: seq<Node>, n: Node, strings: seq<byte>)
    requires WellFormed(n, strings)
    ensures RunItems(Open(outer + [Node(n.name, [], [])]), ContentItems(n), strings) == Some(Open(outer + [n]))
    decreases n, 1
  {
    var begun := Node(n.name, [], []);
    var filled := Node(n.name, n.props, []);
    assert [] + n.props == n.props && [] + n.children == n.children;
    RunProps(outer, begun, n.props, strings);
    assert Extends(filled, n.children, strings);
    RunForest(outer, filled, n.children, strings);
    RunAppend(Open(outer + [begun]), PropItems(n.props), ForestItems(n.children), strings);
  }

  lemma {:induction false} RunRoot(t: Node, strings: seq<byte>)
    requires WellFormedRoot(t, strings)
    ensures RunItems(Start, Items(t) + [Fin], strings) == Some(Ended(t))
  {
    var begun := Node([], [], []);
    RunOne(Start, Begin([]), strings);
    assert [] + [begun] == [begun] && [] + [t] == [t];
    RunContent([], t, strings);
    RunOne(Open([t]), End, strings);
    assert StepItem(Open([t]), End, strings) == Some(Closed(t));
    RunOne(Closed(t), Fin, strings);
    ItemsAre(t);
    hide StepItem, ContentItems, WellFormed, Items;
    RunAppend(Start, [Begin([])], ContentItems(t), strings);
    RunAppend(Start, [Begin([])] + ContentItems(t), [End], strings);
    RunAppend(Start, Items(t), [Fin], strings);
  }

  /** No-ops make no difference before the end of the block. */
  lemma {:induction false} RunStrip(st: ParseState, items: seq<Item>, strings: seq<byte>)
    requires Fin !in items && !st.Ended?
    ensures RunItems(st, items, strings) == RunItems(st, Strip(items), strings)
    decreases |items|
  {
    if items != [] {
      var next := StepItem(st, items[0], strings);
      if next.Some? {
        RunStrip(next.value, items[1..], strings);
      }
      if !items[0].Nop? {
        assert ([items[0]] + Strip(items[1..]))[1..] == Strip(items[1..]);
      }
    }
  }

  lemma {:induction false} StripKeeps(items: seq<Item>, item: Item)
    requires !item.Nop?
    ensures item in items <==> item in Strip(items)
  {
    if items != [] {
      StripKeeps(items[1..], item);
      assert items == [items[0]] + items[1..];
    }
  }

  lemma {:induction false} PropsHaveNoEnd(props: seq<Property>)
    ensures Fin !in PropItems(props)
  {
    if props != [] {
      PropsHaveNoEnd(props[1..]);
    }
  }

  lemma {:induction false} TreeHasNoEnd(n: Node)
    ensures Fin !in Items(n)
    decreases n, 1
  {
    PropsHaveNoEnd(n.props);
    ForestHasNoEnd(n.children);
  }

  lemma {:induction false} ForestHasNoEnd(children: seq<Node>)
    ensures Fin !in ForestItems(children)
    decreases children, 0
  {
    if children != [] {
      TreeHasNoEnd(children[0]);
      ForestHasNoEnd(children[1..]);
    }
  }

  /** A tree's items with no-ops strewn in, ending in the end marker. */
  predicate Prints(items: seq<Item>, t: Node) {
    items != [] && items[|items| - 1].Fin? && Strip(items) == Items(t) + [Fin]
  }

  /** The machine ends with a tree exactly when the items print that tree and it is well-formed. */
  lemma {:induction false} AcceptsExactly(items: seq<Item>, t: Node, strings: seq<byte>)
    ensures RunItems(Start, items, strings) == Some(Ended(t)) <==> Prints(items, t) && WellFormedRoot(t, strings)
  {
    if RunItems(Start, items, strings) == Some(Ended(t)) {
      RunChecks(Start, items, strings);
      EndedLast(Start, items, t, strings);
      assert [] + Strip(items) == Strip(items);
    }
    if Prints(items, t) && WellFormedRoot(t, strings) {
      PrintedRuns(items, t, strings);
    }
  }

  lemma {:induction false} PrintedRuns(items: seq<Item>, t: Node, strings: seq<byte>)
    requires Prints(items, t) && WellFormedRoot(t, strings)
    ensures RunItems(Start, items, strings) == Some(Ended(t))
  {
    hide Items, StepItem, WellFormedRoot;
    var body := items[..|items| - 1];
    assert items == body + [Fin];
    StripAppend(body, [Fin]);
    assert Strip([Fin]) == [Fin] by {
      assert [Fin][1..] == [];
    }
    assert Strip(body) == Items(t) by {
      assert (Strip(body) + [Fin])[..|Strip(body)|] == Strip(body);
      assert (Items(t) + [Fin])[..|Items(t)|] == Items(t);
    }
    TreeHasNoEnd(t);
    StripKeeps(body, Fin);
    RunStrip(Start, body, strings);
    RunRoot(t, strings);
    RunAppend(Start, Items(t), [Fin], strings);
    RunAppend(Start, body, [Fin], strings);
  }

  lemma {:induction false} EndedLast(st: ParseState, items: seq<Item>, t: Node, strings: seq<byte>)
    requires RunItems(st, items, strings) == Some(Ended(t)) && !st.Ended?
    ensures items != [] && items[|items| - 1].Fin?
    decreases |items|
  {
    var next := StepItem(st, items[0], strings).value;
    if next.Ended? {
      assert items[1..] == [];
    } else {
      EndedLast(next, items[1..], t, strings);
    }
  }

  // ----- Blocks and trees

  /** The block encodes the tree, up to no-ops and padding contents. */
  ghost predicate Encodes(bytes: seq<byte>, t: Node) {
    exists items :: Encoding(bytes, items) && Prints(items, t)
  }

  /** The block is read to the end and the machine ends with the tree. */
  ghost predicate Accepts(bytes: seq<byte>, t: Node, strings: seq<byte>) {
    exists items :: Seg(bytes, 0, |bytes|, items) && RunItems(Start, items, strings) == Some(Ended(t))
  }

  /** One pass over the items accepts exactly the encodings of well-formed trees. */
  lemma {:induction false} AcceptsEncodings(bytes: seq<byte>, t: Node, strings: seq<byte>)
    ensures Accepts(bytes, t, strings) <==> Encodes(bytes, t) && WellFormedRoot(t, strings)
  {
    hide Seg, Encoding, RunItems, Prints, WellFormedRoot;
    if Accepts(bytes, t, strings) {
      var items :| Seg(bytes, 0, |bytes|, items) && RunItems(Start, items, strings) == Some(Ended(t));
      EncodingIsReading(bytes, items);
      AcceptsExactly(items, t, strings);
    }
    if Encodes(bytes, t) && WellFormedRoot(t, strings) {
      var items :| Encoding(bytes, items) && Prints(items, t);
      EncodingIsReading(bytes, items);
      AcceptsExactly(items, t, strings);
    }
  }

  /** A block encodes at most one well-formed tree. */
  lemma {:induction false} EncodedTreeUnique(bytes: seq<byte>, t: Node, u: Node, strings: seq<byte>)
    requires Encodes(bytes, t) && WellFormedRoot(t, strings)
    requires Encodes(bytes, u) && WellFormedRoot(u, strings)
    ensures t == u
  {
    hide Seg, Encoding, RunItems, Prints, WellFormedRoot;
    AcceptsEncodings(bytes, t, strings);
    AcceptsEncodings(bytes, u, strings);
    var xs :| Seg(bytes, 0, |bytes|, xs) && RunItems(Start, xs, strings) == Some(Ended(t));
    var ys :| Seg(bytes, 0, |bytes|, ys) && RunItems(Start, ys, strings) == Some(Ended(u));
    SegUnique(bytes, 0, xs, ys);
  }
}
