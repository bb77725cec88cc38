/** The flattening iterators over the memory and reserved-memory ranges of an accepted tree. */
module FdtRanges {
  import opened Memory
  import opened FdtReader
  import opened FdtTree
  import opened FdtViews
  import opened FdtSemantics

  lemma {:induction false} FlattenedStep(children: seq<Node>, layout: Layout, strings: seq<byte>, memoryOnly: bool)
    ensures children == [] ==> Flattened(children, layout, strings, memoryOnly) == []
    ensures children != [] && memoryOnly && !IsMemory(children[0]) ==>
              Flattened(children, layout, strings, memoryOnly) == Flattened(children[1..], layout, strings, memoryOnly)
    ensures children != [] && (memoryOnly ==> IsMemory(children[0])) ==>
              Flattened(children, layout, strings, memoryOnly)
              == RangesOf(children[0], layout, strings) + Flattened(children[1..], layout, strings, memoryOnly)
  {
    hide RangesOf, IsMemory;
  }

  lemma {:induction false} AllDescribeStep(children: seq<Node>, layout: Layout, strings: seq<byte>, memoryOnly: bool)
    requires AllDescribe(children, layout, strings, memoryOnly) && children != []
    ensures AllDescribe(children[1..], layout, strings, memoryOnly)
    ensures (memoryOnly ==> IsMemory(children[0])) ==>
              var reg := ValueOf(children[0], REG, strings);
              && reg.Some? && Whole(reg.value, layout) && RangesOk(Entries(reg.value, layout))
              && RangesOf(children[0], layout, strings) == Entries(reg.value, layout)
  {
    hide Whole, Entries, ValueOf, RangesOk, IsMemory;
    assert (memoryOnly ==> IsMemory(children[0])) ==> Describes(children[0], layout, strings);
  }

  /** Nothing is left once the current node's entries and the nodes are used up. */
  lemma {:induction false} Joins(first: seq<Range>, rest: seq<Range>)
    ensures first == [] ==> first + rest == rest
    ensures first != [] ==> (first + rest)[0] == first[0] && (first + rest)[1..] == first[1..] + rest
  {
  }

  class MemoryRanges {
    const nodes: Children
    var current: Option<RegRanges>
    const layout: Layout

    ghost predicate Valid()
      reads this, nodes, nodes.reader, if current.Some? then {current.value} else {}
    {
      && nodes.Valid() && AllDescribe(nodes.Todo(), layout, nodes.strings, true)
      && (current.Some? ==> current.value.Valid())
    }

    /** The ranges still to come. */
    ghost function Todo(): seq<Range>
      reads this, nodes, if current.Some? then {current.value} else {}
    {
      (if current.Some? then current.value.Todo() else []) + Flattened(nodes.Todo(), layout, nodes.strings, true)
    }

    constructor (v: NodeView, ghost root: Node)
      requires Shows(v, root) && SemanticsOk(root, v.strings)
      ensures Valid() && fresh(nodes) && fresh(nodes.reader) && current.None?
      ensures Todo() == MemoryOf(root, v.strings)
    {
      hide Shows, ReservedOk, RequiredOk, ChildLayout, AddressingOk;
      MemoryDescribes(root, v.strings);
      var children := new Children(v, root);
      AddressingLayout(root, v.strings);
      var childLayout := ReadLayout(v, root);
      nodes := children;
      current := None;
      layout := childLayout.value;
      new;
      assert [] + Flattened(root.children, layout, v.strings, true)
         == Flattened(root.children, layout, v.strings, true);
    }

    method Next() returns (r: Option<Range>)
      requires Valid()
      modifies this, nodes, nodes.reader, if current.Some? then {current.value} else {}
      ensures Valid() && (current.Some? && current != old(current) ==> fresh(current.value))
      ensures r.None? <==> old(Todo()) == []
      ensures r.None? ==> Todo() == []
      ensures r.Some? ==> r.value == old(Todo())[0] && Todo() == old(Todo())[1..]
    {
      hide Children.Valid, Children.Todo, RegRanges.Valid, RegRanges.Todo, AllDescribe, Flattened, Shows, IsMemory;
      while true
        invariant Valid() && Todo() == old(Todo())
        invariant current.Some? && current != old(current) ==> fresh(current.value)
        decreases |nodes.Todo()|, if current.Some? then 1 else 0
      {
        if current.Some? {
          Joins(current.value.Todo(), Flattened(nodes.Todo(), layout, nodes.strings, true));
          var range := current.value.Next();
          if range.Some? {
            return range;
          }
        }
        current := None;
        Joins([], Flattened(nodes.Todo(), layout, nodes.strings, true));
        var node, n := FindMemory();
        if node.None? {
          return None;
        }
        var reg := ReadValue(node.value, REG, n);
        var ranges := new RegRanges(reg.value, layout);
        current := Some(ranges);
      }
    }

    /** The search for the next memory node. */
    method FindMemory() returns (r: Option<NodeView>, ghost n: Node)
      requires Valid() && current.None?
      modifies nodes, nodes.reader
      ensures Valid()
      ensures |nodes.Todo()| <= old(|nodes.Todo()|)
      ensures r.None? ==> old(Todo()) == [] && Todo() == []
      ensures r.Some? ==>
                && |nodes.Todo()| < old(|nodes.Todo()|)
                && Shows(r.value, n) && r.value.strings == nodes.strings
                && var reg := ValueOf(n, REG, nodes.strings);
                && reg.Some? && Whole(reg.value, layout) && RangesOk(Entries(reg.value, layout))
                && old(Todo()) == Entries(reg.value, layout) + Flattened(nodes.Todo(), layout, nodes.strings, true)
    {
      hide Children.Valid, Children.Todo, AllDescribe, Flattened, Shows, ValueOf, Entries, Whole, RangesOk, RangesOf;
      Joins([], Flattened(nodes.Todo(), layout, nodes.strings, true));
      n := Node([], [], []);
      while true
        invariant nodes.Valid() && AllDescribe(nodes.Todo(), layout, nodes.strings, true)
        invariant |nodes.Todo()| <= old(|nodes.Todo()|)
        invariant Flattened(nodes.Todo(), layout, nodes.strings, true) == old(Todo())
        decreases |nodes.Todo()|
      {
        ghost var left := nodes.Todo();
        FlattenedStep(left, layout, nodes.strings, true);
        r := nodes.Next();
        if r.None? {
          EmptyDescribes(nodes.Todo(), layout, nodes.strings, true);
          return;
        }
        n := left[0];
        ShownName(r.value, n);
        AllDescribeStep(left, layout, nodes.strings, true);
        if Component(r.value.name) == MEMORY {
          return;
        }
      }
    }
  }

  /** What the checks on an accepted tree give the iterator to start from. */
  lemma {:induction false} ReservedStart(root: Node, strings: seq<byte>)
    requires SemanticsOk(root, strings)
    ensures AddressingOk(root, strings)
    ensures ChildNamed(root.children, RESERVED_MEMORY).None? ==> ReservedOf(root, strings) == []
    ensures ChildNamed(root.children, RESERVED_MEMORY).Some? ==>
              var parent := ChildNamed(root.children, RESERVED_MEMORY).value;
              var layout := ChildLayout(parent, strings);
              && layout.Some? && AllDescribe(parent.children, layout.value, strings, false)
              && ReservedOf(root, strings) == Flattened(parent.children, layout.value, strings, false)
  {
    hide MemoryOk, RequiredOk, ChildLayout, ReservedParentOk, AllDescribe, Flattened, AddressingOk;
    var found := ChildNamed(root.children, RESERVED_MEMORY);
    if found.Some? {
      ChildNamedFinds(root.children, RESERVED_MEMORY);
      var k :| 0 <= k < |root.children| && root.children[k] == found.value;
      ChildAddressing(root, k, strings);
      AddressingLayout(found.value, strings);
      ReservedDescribes(found.value, strings);
    }
  }

  class ReservedMemoryRanges {
    const nodes: Option<Children>
    var current: Option<RegRanges>
    const layout: Option<Layout>

    ghost function Footprint(): set<object>
      reads this
    {
      (if nodes.Some? then {nodes.value, nodes.value.reader} else {}) + (if current.Some? then {current.value} else {})
    }

    ghost predicate Valid()
      reads this, Footprint()
    {
      && nodes.Some? == layout.Some?
      && (nodes.Some? ==> nodes.value.Valid()
                          && AllDescribe(nodes.value.Todo(), layout.value, nodes.value.strings, false))
      && (current.Some? ==> current.value.Valid())
    }

    /** The ranges of the nodes not yet reached. */
    ghost function Later(): seq<Range>
      reads if nodes.Some? then {nodes.value} else {}
    {
      if nodes.None? || layout.None? then []
      else Flattened(nodes.value.Todo(), layout.value, nodes.value.strings, false)
    }

    ghost function Todo(): seq<Range>
      reads this, Footprint()
    {
      (if current.Some? then current.value.Todo() else []) + Later()
    }

    constructor (v: NodeView, ghost root: Node)
      requires Shows(v, root) && SemanticsOk(root, v.strings)
      ensures Valid() && fresh(Footprint())
      ensures Todo() == ReservedOf(root, v.strings)
    {
      hide Shows, SemanticsOk, ChildLayout, ChildNamed, AddressingOk, AllDescribe, Flattened, ReservedOf;
      hide Children.Valid, Children.Todo, RegRanges.Valid, RegRanges.Todo;
      ReservedStart(root, v.strings);
      var reserved := FindReserved(v, root);
      current := None;
      if reserved.None? {
        nodes := None;
        layout := None;
      } else {
        ghost var parent := ChildNamed(root.children, RESERVED_MEMORY).value;
        var childLayout := ReadLayout(reserved.value, parent);
        var children := new Children(reserved.value, parent);
        nodes := Some(children);
        layout := childLayout;
      }
      new;
      Joins([], Later());
    }

    method Next() returns (r: Option<Range>)
      requires Valid()
      modifies this, Footprint()
      ensures Valid() && fresh(Footprint() - old(Footprint()))
      ensures r.None? <==> old(Todo()) == []
      ensures r.None? ==> Todo() == []
      ensures r.Some? ==> r.value == old(Todo())[0] && Todo() == old(Todo())[1..]
    {
      hide Children.Valid, Children.Todo, RegRanges.Valid, RegRanges.Todo, AllDescribe, Flattened, Shows, Whole;
      hide RangesOk, Later, Entries, ValueOf;
      while true
        invariant Valid() && Todo() == old(Todo()) && fresh(Footprint() - old(Footprint()))
        decreases if nodes.Some? then |nodes.value.Todo()| else 0, if current.Some? then 1 else 0
      {
        if current.Some? {
          Joins(current.value.Todo(), Later());
          var range := current.value.Next();
          if range.Some? {
            return range;
          }
        }
        current := None;
        Joins([], Later());
        if nodes.None? {
          NothingLater();
          return None;
        }
        var more := StartNode();
        if !more {
          return None;
        }
      }
    }

    /** Starts on the entries of the next child, if there is one. */
    method StartNode() returns (more: bool)
      requires Valid() && current.None? && nodes.Some?
      modifies this`current, nodes.value, nodes.value.reader
      ensures Valid() && fresh(Footprint() - old(Footprint()))
      ensures !more ==> current.None? && old(Later()) == [] && Later() == []
      ensures more ==>
                && current.Some? && |nodes.value.Todo()| < old(|nodes.value.Todo()|)
                && current.value.Todo() + Later() == old(Later())
    {
      hide Children.Valid, Children.Todo, RegRanges.Valid, RegRanges.Todo, AllDescribe, Flattened, Shows, Whole;
      hide RangesOk, Later, Entries, ValueOf;
      var node, n := TakeNode();
      if node.None? {
        return false;
      }
      var reg := ReadValue(node.value, REG, n);
      var ranges := new RegRanges(reg.value, layout.value);
      current := Some(ranges);
      return true;
    }

    lemma {:induction false} NothingLater()
      requires nodes.None?
      ensures Later() == []
    {
    }

    /** The next child of the reserved-memory node. */
    method TakeNode() returns (r: Option<NodeView>, ghost n: Node)
      requires Valid() && current.None? && nodes.Some?
      modifies nodes.value, nodes.value.reader
      ensures Valid()
      ensures r.None? ==> old(Later()) == [] && Later() == []
      ensures r.Some? ==>
                && |nodes.value.Todo()| < old(|nodes.value.Todo()|)
                && Shows(r.value, n) && r.value.strings == nodes.value.strings
                && var reg := ValueOf(n, REG, nodes.value.strings);
                && reg.Some? && Whole(reg.value, layout.value) && RangesOk(Entries(reg.value, layout.value))
                && old(Later()) == Entries(reg.value, layout.value) + Later()
    {
      hide Children.Valid, Children.Todo, AllDescribe, Flattened, Shows, ValueOf, Entries, Whole, RangesOk, RangesOf;
      ghost var left := nodes.value.Todo();
      FlattenedStep(left, layout.value, nodes.value.strings, false);
      n := Node([], [], []);
      r := nodes.value.Next();
      if r.None? {
        EmptyDescribes(nodes.value.Todo(), layout.value, nodes.value.strings, false);
        return;
      }
      AllDescribeStep(left, layout.value, nodes.value.strings, false);
      n := left[0];
    }
  }

  lemma {:induction false} EmptyDescribes(children: seq<Node>, layout: Layout, strings: seq<byte>, memoryOnly: bool)
    requires children == []
    ensures AllDescribe(children, layout, strings, memoryOnly) && Flattened(children, layout, strings, memoryOnly) == []
  {
  }
}
