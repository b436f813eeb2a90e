/** The R-trees of fixture files: nodes that hold items when no levels lie below them, and nodes otherwise. */
module RTree {
  import opened Bytes
  import opened Numbers
  import opened Streams

  /** A float, by its bytes in memory. */
  type Single = s: seq<byte> | |s| == 4 witness [0, 0, 0, 0]

  datatype Vector = Vector(x: Single, y: Single, z: Single)

  datatype BoundingBox = BoundingBox(min: Vector, max: Vector)

  datatype ItemChild = ItemChild(box: BoundingBox, itemIndex: uint32)

  datatype NodeChild = NodeChild(box: BoundingBox, node: Node)

  datatype Node = Node(nodeLevelsBelow: uint32, nodeChildren: seq<NodeChild>, itemChildren: seq<ItemChild>) {
    predicate IsLeafNode() {
      nodeLevelsBelow == 0
    }
  }

  // ---- the bytes of a tree ----

  ghost function VectorLayout(v: Vector, swap: bool): (r: seq<byte>)
    ensures |r| == 12
  {
    Order(v.x, !swap) + Order(v.y, !swap) + Order(v.z, !swap)
  }

  ghost function BoxLayout(b: BoundingBox, swap: bool): (r: seq<byte>)
    ensures |r| == 24
  {
    VectorLayout(b.min, swap) + VectorLayout(b.max, swap)
  }

  ghost function ItemLayout(c: ItemChild, swap: bool): seq<byte> {
    BoxLayout(c.box, swap) + UInt32Layout(c.itemIndex, swap)
  }

  ghost function ItemsLayout(items: seq<ItemChild>, swap: bool): seq<byte> {
    if items == [] then [] else ItemsLayout(items[..|items| - 1], swap) + ItemLayout(items[|items| - 1], swap)
  }

  ghost function ChildLayout(c: NodeChild, swap: bool): seq<byte>
    decreases c
  {
    BoxLayout(c.box, swap) + NodeLayout(c.node, swap)
  }

  ghost function NodesLayout(children: seq<NodeChild>, swap: bool): seq<byte>
    decreases children
  {
    if children == [] then []
    else
      NodesLayout(children[..|children| - 1], swap) + ChildLayout(children[|children| - 1], swap)
  }

  /** Which kind of children is written depends on the level alone. */
  ghost function NodeLayout(n: Node, swap: bool): seq<byte>
    decreases n
  {
    UInt32Layout(n.nodeLevelsBelow, swap) +
    if n.IsLeafNode() then UInt32Layout(|n.itemChildren|, swap) + ItemsLayout(n.itemChildren, swap)
    else UInt32Layout(|n.nodeChildren|, swap) + NodesLayout(n.nodeChildren, swap)
  }

  // ---- writing ----

  method WriteVector(stream: OutputStream, v: Vector)
    requires stream.Valid()
    modifies stream.chain`position, stream.chain`data
    ensures stream.Wrote(old(stream.Cursors()), old(stream.Root().data), VectorLayout(v, stream.swapEndian))
  {
    hide Overwritten, Order;
    stream.RootInChain();
    var swap := !stream.swapEndian;
    stream.WriteFloat(v.x);
    ghost var cursors, data := stream.Cursors(), stream.Root().data;
    stream.WriteFloat(v.y);
    stream.WroteBoth(old(stream.Cursors()), old(stream.Root().data), Order(v.x, swap), cursors, data, Order(v.y, swap));
    cursors, data := stream.Cursors(), stream.Root().data;
    stream.WriteFloat(v.z);
    stream.WroteBoth(old(stream.Cursors()), old(stream.Root().data), Order(v.x, swap) + Order(v.y, swap), cursors,
      data, Order(v.z, swap));
  }

  method WriteBox(stream: OutputStream, b: BoundingBox)
    requires stream.Valid()
    modifies stream.chain`position, stream.chain`data
    ensures stream.Wrote(old(stream.Cursors()), old(stream.Root().data), BoxLayout(b, stream.swapEndian))
  {
    hide Overwritten, VectorLayout;
    stream.RootInChain();
    WriteVector(stream, b.min);
    ghost var cursors, data := stream.Cursors(), stream.Root().data;
    WriteVector(stream, b.max);
    stream.WroteBoth(old(stream.Cursors()), old(stream.Root().data), VectorLayout(b.min, stream.swapEndian),
                     cursors, data, VectorLayout(b.max, stream.swapEndian));
  }

  method WriteItem(stream: OutputStream, c: ItemChild)
    requires stream.Valid()
    modifies stream.chain`position, stream.chain`data
    ensures stream.Wrote(old(stream.Cursors()), old(stream.Root().data), ItemLayout(c, stream.swapEndian))
  {
    hide Overwritten, BoxLayout, UInt32Layout;
    stream.RootInChain();
    WriteBox(stream, c.box);
    ghost var cursors, data := stream.Cursors(), stream.Root().data;
    stream.WriteUInt32(c.itemIndex);
    stream.WroteBoth(old(stream.Cursors()), old(stream.Root().data), BoxLayout(c.box, stream.swapEndian),
                     cursors, data, UInt32Layout(c.itemIndex, stream.swapEndian));
  }

  lemma ItemsLayoutStep(head: seq<byte>, items: seq<ItemChild>, i: nat, swap: bool)
    requires i < |items|
    ensures head + ItemsLayout(items[..i], swap) + ItemLayout(items[i], swap) ==
      head + ItemsLayout(items[..i + 1], swap)
  {
    assert items[..i + 1][..i] == items[..i];
  }

  lemma NodesLayoutStart(head: seq<byte>, swap: bool)
    ensures head + NodesLayout([], swap) == head
  {
  }

  lemma {:induction false} NodesLayoutStep(head: seq<byte>, children: seq<NodeChild>, i: nat, swap: bool)
    requires i < |children|
    ensures head + NodesLayout(children[..i], swap) + ChildLayout(children[i], swap) ==
      head + NodesLayout(children[..i + 1], swap)
  {
    hide ChildLayout;
    assert children[..i + 1][..i] == children[..i];
  }

  /** A sized vector of items. */
  method WriteItems(stream: OutputStream, items: seq<ItemChild>)
    requires stream.Valid()
    modifies stream.chain`position, stream.chain`data
    ensures stream.Wrote(old(stream.Cursors()), old(stream.Root().data),
              UInt32Layout(|items|, stream.swapEndian) + ItemsLayout(items, stream.swapEndian))
  {
    hide Overwritten, ItemLayout, UInt32Layout;
    stream.RootInChain();
    var swap := stream.swapEndian;
    ghost var head := UInt32Layout(|items|, swap);
    stream.WriteUInt32(|items|);
    var i := 0;
    assert head + ItemsLayout([], swap) == head && items[..0] == [];
    while i < |items|
      invariant 0 <= i <= |items|
      invariant stream.Wrote(old(stream.Cursors()), old(stream.Root().data), head + ItemsLayout(items[..i], swap))
    {
      ghost var cursors, data := stream.Cursors(), stream.Root().data;
      WriteItem(stream, items[i]);
      stream.WroteBoth(old(stream.Cursors()), old(stream.Root().data), head + ItemsLayout(items[..i], swap),
                       cursors, data, ItemLayout(items[i], swap));
      ItemsLayoutStep(head, items, i, swap);
      i := i + 1;
    }
    assert items[..|items|] == items;
  }

  method WriteChild(stream: OutputStream, c: NodeChild)
    requires stream.Valid()
    modifies stream.chain`position, stream.chain`data
    ensures stream.Wrote(old(stream.Cursors()), old(stream.Root().data), ChildLayout(c, stream.swapEndian))
    decreases c
  {
    hide Overwritten, BoxLayout, NodeLayout;
    stream.RootInChain();
    WriteBox(stream, c.box);
    ghost var cursors, data := stream.Cursors(), stream.Root().data;
    WriteNode(stream, c.node);
    stream.WroteBoth(old(stream.Cursors()), old(stream.Root().data), BoxLayout(c.box, stream.swapEndian),
                     cursors, data, NodeLayout(c.node, stream.swapEndian));
  }

  /** A sized vector of child nodes. */
  method WriteNodes(stream: OutputStream, children: seq<NodeChild>)
    requires stream.Valid()
    modifies stream.chain`position, stream.chain`data
    ensures stream.Wrote(old(stream.Cursors()), old(stream.Root().data),
              UInt32Layout(|children|, stream.swapEndian) + NodesLayout(children, stream.swapEndian))
    decreases children
  {
    hide Overwritten, ChildLayout, NodesLayout, UInt32Layout;
    stream.RootInChain();
    var swap := stream.swapEndian;
    ghost var head := UInt32Layout(|children|, swap);
    stream.WriteUInt32(|children|);
    var i := 0;
    NodesLayoutStart(head, swap);
    assert children[..0] == [];
    while i < |children|
      invariant 0 <= i <= |children|
      invariant stream.Wrote(old(stream.Cursors()), old(stream.Root().data), head + NodesLayout(children[..i], swap))
    {
      ghost var cursors, data := stream.Cursors(), stream.Root().data;
      WriteChild(stream, children[i]);
      ghost var written := ChildLayout(children[i], swap);
      stream.WroteBoth(old(stream.Cursors()), old(stream.Root().data), head + NodesLayout(children[..i], swap),
                       cursors, data, written);
      NodesLayoutStep(head, children, i, swap);
      i := i + 1;
    }
    assert children[..|children|] == children;
  }

  /** `operator <<` for a node. */
  method WriteNode(stream: OutputStream, n: Node)
    requires stream.Valid()
    modifies stream.chain`position, stream.chain`data
    ensures stream.Wrote(old(stream.Cursors()), old(stream.Root().data), NodeLayout(n, stream.swapEndian))
    decreases n
  {
    hide Overwritten, UInt32Layout, ItemsLayout, NodesLayout;
    stream.RootInChain();
    var swap := stream.swapEndian;
    stream.WriteUInt32(n.nodeLevelsBelow);
    ghost var cursors, data := stream.Cursors(), stream.Root().data;
    ghost var written;
    if n.IsLeafNode() {
      WriteItems(stream, n.itemChildren);
      written := UInt32Layout(|n.itemChildren|, swap) + ItemsLayout(n.itemChildren, swap);
    } else {
      WriteNodes(stream, n.nodeChildren);
      written := UInt32Layout(|n.nodeChildren|, swap) + NodesLayout(n.nodeChildren, swap);
    }
    stream.WroteBoth(old(stream.Cursors()), old(stream.Root().data), UInt32Layout(n.nodeLevelsBelow, swap), cursors,
      data, written);
  }

  // ---- reading ----

  ghost function TakeVector(data: seq<byte>, at: nat, swap: bool): (r: Option<Vector>)
    ensures r.Some? ==> at + 12 <= |data|
  {
    var x, y, z := TakeArithmetic(data, at, 4, !swap), TakeArithmetic(data, at + 4, 4, !swap), TakeArithmetic(data,
      at + 8, 4, !swap);
    if x.Some? && y.Some? && z.Some? then Some(Vector(x.value, y.value, z.value)) else None
  }

  ghost function TakeBox(data: seq<byte>, at: nat, swap: bool): (r: Option<BoundingBox>)
    ensures r.Some? ==> at + 24 <= |data|
  {
    var min, max := TakeVector(data, at, swap), TakeVector(data, at + 12, swap);
    if min.Some? && max.Some? then Some(BoundingBox(min.value, max.value)) else None
  }

  ghost function TakeItem(data: seq<byte>, at: nat, swap: bool): (r: Option<ItemChild>)
    ensures r.Some? ==> at + 28 <= |data|
  {
    var box, index := TakeBox(data, at, swap), TakeUInt32(data, at + 24, swap);
    if box.Some? && index.Some? then Some(ItemChild(box.value, index.value)) else None
  }

  ghost function TakeItems(n: nat, data: seq<byte>, at: nat, swap: bool): (r: Option<seq<ItemChild>>)
    requires at <= |data|
    ensures r.Some? ==> |r.value| == n && at + 28 * n <= |data|
  {
    if n == 0 then Some([])
    else
      match TakeItems(n - 1, data, at, swap)
      case None => None
      case Some(items) =>
        match TakeItem(data, at + 28 * (n - 1), swap)
        case None => None
        case Some(item) => Some(items + [item])
  }

  ghost function TakeChild(data: seq<byte>, at: nat, swap: bool): (r: Option<(NodeChild, nat)>)
    requires at <= |data|
    ensures r.Some? ==> at < r.value.1 <= |data|
    decreases |data| - at, 0
  {
    match TakeBox(data, at, swap)
    case None => None
    case Some(box) =>
      match TakeNode(data, at + 24, swap)
      case None => None
      case Some((node, end)) => Some((NodeChild(box, node), end))
  }

  ghost function TakeNodes(n: nat, data: seq<byte>, at: nat, swap: bool): (r: Option<(seq<NodeChild>, nat)>)
    requires at <= |data|
    ensures r.Some? ==> |r.value.0| == n && at <= r.value.1 <= |data|
    decreases |data| - at, n + 1
  {
    if n == 0 then Some(([], at))
    else
      match TakeNodes(n - 1, data, at, swap)
      case None => None
      case Some((children, next)) =>
        match TakeChild(data, next, swap)
        case None => None
        case Some((child, end)) => Some((children + [child], end))
  }

  /** A node at `at`, and where it ends. */
  ghost function TakeNode(data: seq<byte>, at: nat, swap: bool): (r: Option<(Node, nat)>)
    requires at <= |data|
    ensures r.Some? ==> at < r.value.1 <= |data|
    decreases |data| - at, 0
  {
    match TakeUInt32(data, at, swap)
    case None => None
    case Some(levels) =>
      match TakeUInt32(data, at + 4, swap)
      case None => None
      case Some(count) =>
        if levels == 0 then
          match TakeItems(count, data, at + 8, swap)
          case None => None
          case Some(items) => Some((Node(levels, [], items), at + 8 + 28 * count))
        else
          match TakeNodes(count, data, at + 8, swap)
          case None => None
          case Some((children, end)) => Some((Node(levels, children, []), end))
  }

  method ReadVector(stream: InputStream) returns (r: Option<Vector>)
    requires stream.Valid()
    modifies stream`ptr
    ensures stream.Valid() && r == TakeVector(stream.data, old(stream.ptr), stream.swapEndian)
    ensures r.Some? ==> stream.ptr == old(stream.ptr) + 12
  {
    var x := stream.ReadFloat(4);
    if x == None {
      return None;
    }
    var y := stream.ReadFloat(4);
    if y == None {
      return None;
    }
    var z := stream.ReadFloat(4);
    if z == None {
      return None;
    }
    r := Some(Vector(x.value, y.value, z.value));
  }

  method ReadBox(stream: InputStream) returns (r: Option<BoundingBox>)
    requires stream.Valid()
    modifies stream`ptr
    ensures stream.Valid() && r == TakeBox(stream.data, old(stream.ptr), stream.swapEndian)
    ensures r.Some? ==> stream.ptr == old(stream.ptr) + 24
  {
    var min := ReadVector(stream);
    if min == None {
      return None;
    }
    var max := ReadVector(stream);
    if max == None {
      return None;
    }
    r := Some(BoundingBox(min.value, max.value));
  }

  method ReadItem(stream: InputStream) returns (r: Option<ItemChild>)
    requires stream.Valid()
    modifies stream`ptr
    ensures stream.Valid() && r == TakeItem(stream.data, old(stream.ptr), stream.swapEndian)
    ensures r.Some? ==> stream.ptr == old(stream.ptr) + 28
  {
    var box := ReadBox(stream);
    if box == None {
      return None;
    }
    var itemIndex := stream.ReadUInt32();
    if itemIndex == None {
      return None;
    }
    r := Some(ItemChild(box.value, itemIndex.value));
  }

  method ReadItems(stream: InputStream, count: nat) returns (r: Option<seq<ItemChild>>)
    requires stream.Valid()
    modifies stream`ptr
    ensures stream.Valid() && r == TakeItems(count, stream.data, old(stream.ptr), stream.swapEndian)
    ensures r.Some? ==> stream.ptr == old(stream.ptr) + 28 * count
  {
    hide TakeItems, TakeItem;
    var items := [];
    var i := 0;
    NothingTaken(stream.data, stream.ptr, stream.swapEndian);
    while i < count
      invariant 0 <= i <= count && stream.Valid() && stream.ptr == old(stream.ptr) + 28 * i
      invariant TakeItems(i, stream.data, old(stream.ptr), stream.swapEndian) == Some(items)
    {
      TakeItemsStep(i, stream.data, old(stream.ptr), stream.swapEndian);
      var item := ReadItem(stream);
      if item == None {
        ItemsEnd(i + 1, count, stream.data, old(stream.ptr), stream.swapEndian);
        return None;
      }
      items := items + [item.value];
      i := i + 1;
    }
    r := Some(items);
  }

  lemma NothingTaken(data: seq<byte>, at: nat, swap: bool)
    requires at <= |data|
    ensures TakeItems(0, data, at, swap) == Some([]) && TakeNodes(0, data, at, swap) == Some(([], at))
  {
  }

  lemma TakeItemsStep(n: nat, data: seq<byte>, at: nat, swap: bool)
    requires at <= |data| && TakeItems(n, data, at, swap).Some?
    ensures TakeItems(n + 1, data, at, swap) ==
      match TakeItem(data, at + 28 * n, swap)
      case None => None
      case Some(item) => Some(TakeItems(n, data, at, swap).value + [item])
  {
  }

  lemma TakeNodesStep(n: nat, data: seq<byte>, at: nat, swap: bool)
    requires at <= |data| && TakeNodes(n, data, at, swap).Some?
    ensures TakeNodes(n + 1, data, at, swap) ==
      match TakeChild(data, TakeNodes(n, data, at, swap).value.1, swap)
      case None => None
      case Some((child, end)) => Some((TakeNodes(n, data, at, swap).value.0 + [child], end))
  {
  }

  lemma {:induction false} ItemsEnd(i: nat, n: nat, data: seq<byte>, at: nat, swap: bool)
    requires i <= n && at <= |data| && TakeItems(i, data, at, swap) == None
    ensures TakeItems(n, data, at, swap) == None
    decreases n - i
  {
    if i < n {
      ItemsEnd(i + 1, n, data, at, swap);
    }
  }

  lemma {:induction false} NodesEnd(i: nat, n: nat, data: seq<byte>, at: nat, swap: bool)
    requires i <= n && at <= |data| && TakeNodes(i, data, at, swap) == None
    ensures TakeNodes(n, data, at, swap) == None
    decreases n - i
  {
    if i < n {
      NodesEnd(i + 1, n, data, at, swap);
    }
  }

  method ReadChild(stream: InputStream) returns (r: Option<NodeChild>)
    requires stream.Valid()
    modifies stream`ptr
    ensures stream.Valid() && (r.Some? <==> TakeChild(stream.data, old(stream.ptr), stream.swapEndian).Some?)
    ensures r.Some? ==> TakeChild(stream.data, old(stream.ptr), stream.swapEndian) == Some((r.value, stream.ptr))
    decreases |stream.data| - stream.ptr, 0
  {
    var box := ReadBox(stream);
    if box == None {
      return None;
    }
    var node := ReadNode(stream);
    if node == None {
      return None;
    }
    r := Some(NodeChild(box.value, node.value));
  }

  method ReadNodes(stream: InputStream, count: nat) returns (r: Option<seq<NodeChild>>)
    requires stream.Valid()
    modifies stream`ptr
    ensures stream.Valid() && (r.Some? <==> TakeNodes(count, stream.data, old(stream.ptr), stream.swapEndian).Some?)
    ensures r.Some? ==> TakeNodes(count, stream.data, old(stream.ptr), stream.swapEndian) == Some((r.value, stream.ptr))
    decreases |stream.data| - stream.ptr, 1
  {
    hide TakeNodes, TakeChild;
    var children := [];
    var i := 0;
    NothingTaken(stream.data, stream.ptr, stream.swapEndian);
    while i < count
      invariant 0 <= i <= count && stream.Valid() && old(stream.ptr) <= stream.ptr
      invariant TakeNodes(i, stream.data, old(stream.ptr), stream.swapEndian) == Some((children, stream.ptr))
    {
      TakeNodesStep(i, stream.data, old(stream.ptr), stream.swapEndian);
      var child := ReadChild(stream);
      if child == None {
        NodesEnd(i + 1, count, stream.data, old(stream.ptr), stream.swapEndian);
        return None;
      }
      children := children + [child.value];
      i := i + 1;
    }
    r := Some(children);
  }

  /** `operator >>` for a node. */
  method ReadNode(stream: InputStream) returns (r: Option<Node>)
    requires stream.Valid()
    modifies stream`ptr
    ensures stream.Valid() && (r.Some? <==> TakeNode(stream.data, old(stream.ptr), stream.swapEndian).Some?)
    ensures r.Some? ==> TakeNode(stream.data, old(stream.ptr), stream.swapEndian) == Some((r.value, stream.ptr))
    decreases |stream.data| - stream.ptr, 0
  {
    hide TakeItems, TakeNodes, TakeUInt32;
    var levels := stream.ReadUInt32();
    if levels == None {
      return None;
    }
    var count := stream.ReadUInt32();
    if count == None {
      return None;
    }
    if levels.value == 0 {
      var items := ReadItems(stream, count.value);
      r := if items == None then None else Some(Node(levels.value, [], items.value));
    } else {
      var children := ReadNodes(stream, count.value);
      r := if children == None then None else Some(Node(levels.value, children.value, []));
    }
  }

  // ---- a tree that was written is read back ----

  /** Leaves have items and inner nodes have nodes, all the way down. */
  ghost predicate WellFormed(n: Node) {
    if n.IsLeafNode() then n.nodeChildren == []
    else n.itemChildren == [] && forall c :: c in n.nodeChildren ==> WellFormed(c.node)
  }

  /** No number of children overflows its field. */
  ghost predicate Fits(n: Node) {
    |n.itemChildren| < TWO32 && |n.nodeChildren| < TWO32 && forall c :: c in n.nodeChildren ==> Fits(c.node)
  }

  /** A node without the children that its level hides. */
  ghost function Visible(n: Node): Node
    decreases n
  {
    if n.IsLeafNode() then Node(n.nodeLevelsBelow, [], n.itemChildren)
    else Node(n.nodeLevelsBelow, VisibleChildren(n.nodeChildren), [])
  }

  ghost function VisibleChildren(children: seq<NodeChild>): (r: seq<NodeChild>)
    ensures |r| == |children|
    decreases children
  {
    if children ==
      [] then [] else VisibleChildren(children[..|children| - 1]) + [VisibleChild(children[|children| - 1])]
  }

  ghost function VisibleChild(c: NodeChild): NodeChild
    decreases c
  {
    NodeChild(c.box, Visible(c.node))
  }

  /** What cannot be seen is just what well-formed trees do not have. */
  lemma {:induction false} VisibleIfWellFormed(n: Node)
    ensures Visible(n) == n <==> WellFormed(n)
    decreases n, 0
  {
    VisibleChildrenIf(n.nodeChildren);
  }

  lemma {:induction false} VisibleChildIf(c: NodeChild)
    ensures VisibleChild(c) == c <==> WellFormed(c.node)
    decreases c
  {
    VisibleIfWellFormed(c.node);
  }

  lemma {:induction false} VisibleChildrenIf(children: seq<NodeChild>)
    ensures VisibleChildren(children) == children <==> forall c :: c in children ==> WellFormed(c.node)
    decreases children
  {
    if children != [] {
      var init, last := children[..|children| - 1], children[|children| - 1];
      VisibleChildrenIf(init);
      VisibleChildIf(last);
      assert children == init + [last];
      var r := VisibleChildren(children);
      assert r[..|children| - 1] == VisibleChildren(init);
      assert forall c :: c in children <==> c in init || c == last;
    }
  }

  lemma {:induction false} VectorRoundTrip(before: seq<byte>, v: Vector, after: seq<byte>, swap: bool)
    ensures TakeVector(before + VectorLayout(v, swap) + after, |before|, swap) == Some(v)
  {
    hide TakeArithmetic, Order;
    var a, b, c := Order(v.x, !swap), Order(v.y, !swap), Order(v.z, !swap);
    var data := before + VectorLayout(v, swap) + after;
    assert data == before + a + (b + c + after);
    assert data == (before + a) + b + (c + after);
    assert data == (before + a + b) + c + after;
    ArithmeticRoundTrip(before, v.x, b + c + after, !swap);
    ArithmeticRoundTrip(before + a, v.y, c + after, !swap);
    ArithmeticRoundTrip(before + a + b, v.z, after, !swap);
  }

  lemma {:induction false} BoxRoundTrip(before: seq<byte>, box: BoundingBox, after: seq<byte>, swap: bool)
    ensures TakeBox(before + BoxLayout(box, swap) + after, |before|, swap) == Some(box)
  {
    hide TakeVector, VectorLayout;
    var a, b := VectorLayout(box.min, swap), VectorLayout(box.max, swap);
    assert before + BoxLayout(box, swap) + after == before + a + (b + after) == (before + a) + b + after;
    VectorRoundTrip(before, box.min, b + after, swap);
    VectorRoundTrip(before + a, box.max, after, swap);
  }

  lemma {:induction false} ItemRoundTrip(before: seq<byte>, c: ItemChild, after: seq<byte>, swap: bool)
    ensures TakeItem(before + ItemLayout(c, swap) + after, |before|, swap) == Some(c)
  {
    hide TakeBox, BoxLayout, TakeUInt32, UInt32Layout;
    var a, b := BoxLayout(c.box, swap), UInt32Layout(c.itemIndex, swap);
    assert before + ItemLayout(c, swap) + after == before + a + (b + after) == (before + a) + b + after;
    BoxRoundTrip(before, c.box, b + after, swap);
    UInt32RoundTrip(before + a, c.itemIndex, after, swap);
  }

  lemma {:induction false} ItemsRoundTrip(before: seq<byte>, items: seq<ItemChild>, after: seq<byte>, swap: bool)
    ensures |ItemsLayout(items, swap)| == 28 * |items|
    ensures TakeItems(|items|, before + ItemsLayout(items, swap) + after, |before|, swap) == Some(items)
    decreases items
  {
    hide TakeItem, ItemLayout, TakeItems, ItemsLayout;
    if items == [] {
      NoItems(before, after, swap);
    } else {
      var init, last := items[..|items| - 1], items[|items| - 1];
      var a, b := ItemsLayout(init, swap), ItemLayout(last, swap);
      assert |b| == 28 by { ItemLength(last, swap); }
      ItemsRoundTrip(before, init, b + after, swap);
      ItemRoundTrip(before + a, last, after, swap);
      ItemsOneMore(init, last, swap);
      assert items == init + [last];
      assert before + (a + b) + after == before + a + (b + after) == (before + a) + b + after;
      TakeItemsOneMore(init, last, before + (a + b) + after, |before|, swap);
    }
  }

  lemma {:induction false} ItemsOneMore(init: seq<ItemChild>, last: ItemChild, swap: bool)
    ensures ItemsLayout(init + [last], swap) == ItemsLayout(init, swap) + ItemLayout(last, swap)
  {
    hide ItemLayout;
    assert (init + [last])[..|init|] == init;
  }

  lemma {:induction false} TakeItemsOneMore(init: seq<ItemChild>, last: ItemChild, data: seq<byte>, at: nat, swap: bool)
    requires at + 28 * |init| <= |data|
    requires TakeItems(|init|, data, at, swap) == Some(init) && TakeItem(data, at + 28 * |init|, swap) == Some(last)
    ensures TakeItems(|init| + 1, data, at, swap) == Some(init + [last])
  {
    hide TakeItem;
  }

  lemma NoItems(before: seq<byte>, after: seq<byte>, swap: bool)
    ensures ItemsLayout([], swap) == [] && TakeItems(0, before + [] + after, |before|, swap) == Some([])
  {
  }

  lemma ItemLength(c: ItemChild, swap: bool)
    ensures |ItemLayout(c, swap)| == 28
  {
  }

  lemma {:induction false} ChildRoundTrip(before: seq<byte>, c: NodeChild, after: seq<byte>, swap: bool)
    requires Fits(c.node)
    ensures TakeChild(before + ChildLayout(c, swap) + after, |before|, swap)
         == Some((VisibleChild(c), |before| + |ChildLayout(c, swap)|))
    decreases c, 1
  {
    hide TakeBox, BoxLayout, TakeNode, NodeLayout, Visible, Fits;
    var a, b := BoxLayout(c.box, swap), NodeLayout(c.node, swap);
    assert before + ChildLayout(c, swap) + after == before + a + (b + after) == (before + a) + b + after;
    BoxRoundTrip(before, c.box, b + after, swap);
    NodeRoundTrip(before + a, c.node, after, swap);
  }

  lemma {:induction false} NodesRoundTrip(before: seq<byte>, children: seq<NodeChild>, after: seq<byte>, swap: bool)
    requires forall c :: c in children ==> Fits(c.node)
    ensures TakeNodes(|children|, before + NodesLayout(children, swap) + after, |before|, swap)
         == Some((VisibleChildren(children), |before| + |NodesLayout(children, swap)|))
    decreases children, 0
  {
    hide TakeChild, ChildLayout, VisibleChild, Fits;
    if children != [] {
      var init, last := children[..|children| - 1], children[|children| - 1];
      var a, b := NodesLayout(init, swap), ChildLayout(last, swap);
      assert before + NodesLayout(children, swap) + after == before + a + (b + after) == (before + a) + b + after;
      NodesRoundTrip(before, init, b + after, swap);
      ChildRoundTrip(before + a, last, after, swap);
    }
  }

  /** Reading what was written gives the tree without what its levels hide, and nothing of what follows is
      touched. */
  lemma {:induction false} NodeRoundTrip(before: seq<byte>, n: Node, after: seq<byte>, swap: bool)
    requires Fits(n)
    ensures TakeNode(before + NodeLayout(n, swap) + after, |before|, swap)
         == Some((Visible(n), |before| + |NodeLayout(n, swap)|))
    decreases n, 0
  {
    hide TakeItems, ItemsLayout, TakeNodes, NodesLayout, TakeUInt32, UInt32Layout, VisibleChildren;
    var count := if n.IsLeafNode() then |n.itemChildren| else |n.nodeChildren|;
    var children := if n.IsLeafNode() then ItemsLayout(n.itemChildren, swap) else NodesLayout(n.nodeChildren, swap);
    var a, b := UInt32Layout(n.nodeLevelsBelow, swap), UInt32Layout(count, swap);
    var data := before + NodeLayout(n, swap) + after;
    assert data == before + a + (b + children + after);
    assert data == (before + a) + b + (children + after);
    assert data == (before + a + b) + children + after;
    UInt32RoundTrip(before, n.nodeLevelsBelow, b + children + after, swap);
    UInt32RoundTrip(before + a, count, children + after, swap);
    if n.IsLeafNode() {
      ItemsRoundTrip(before + a + b, n.itemChildren, after, swap);
    } else {
      NodesRoundTrip(before + a + b, n.nodeChildren, after, swap);
    }
  }

  /** A tree survives writing and reading exactly when it is well-formed. */
  lemma {:induction false} TreeRoundTrip(n: Node, after: seq<byte>, swap: bool)
    requires Fits(n)
    ensures TakeNode(NodeLayout(n, swap) + after, 0, swap) == Some((n, |NodeLayout(n, swap)|)) <==> WellFormed(n)
  {
    hide TakeNode, NodeLayout, Visible, WellFormed, Fits;
    NodeRoundTrip([], n, after, swap);
    assert [] + NodeLayout(n, swap) + after == NodeLayout(n, swap) + after;
    VisibleIfWellFormed(n);
  }
}
