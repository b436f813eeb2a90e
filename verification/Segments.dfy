/** Sized segments: a length, patched in afterwards, and a body that is written and read through a stream of
    its own, to any depth. */
module Segments {
  import opened Bytes
  import opened Numbers
  import opened Streams

  datatype ByteswapMode = Keep | Enable | Disable

  /** The byte order of the nested stream. */
  ghost function InnerSwap(mode: ByteswapMode, swap: bool): bool {
    match mode case Keep => swap case Enable => true case Disable => false
  }

  /** What the stream operators write: numbers and floats as their bytes in memory, raw data, strings, and
      segments of such items. */
  datatype Item =
    | NumberItem(bytes: seq<byte>)
    | FloatItem(bytes: seq<byte>)
    | DataItem(bytes: seq<byte>)
    | TextItem(value: seq<byte>)
    | SegmentItem(mode: ByteswapMode, body: seq<Item>)

  ghost function LayoutOf(item: Item, swap: bool): seq<byte>
    decreases item, 0
  {
    match item
    case NumberItem(bytes) => Order(bytes, swap)
    case FloatItem(bytes) => Order(bytes, !swap)
    case DataItem(bytes) => bytes
    case TextItem(value) => StringLayout(value, swap)
    case SegmentItem(mode, body) =>
      var inner := Layout(body, InnerSwap(mode, swap));
      Order(DigitsOf(|inner|, 4), swap) + inner
  }

  /** The bytes of some items, one behind the other; a segment is its length in the outer byte order and then
      its body. */
  ghost function Layout(items: seq<Item>, swap: bool): seq<byte>
    decreases items
  {
    if items == [] then []
    else Layout(items[..|items| - 1], swap) + LayoutOf(items[|items| - 1], swap)
  }

  /** A number alone in the body of a segment: with its bytes in the other order, as they are, or as outside. */
  lemma NumberInBody(bytes: seq<byte>, swap: bool)
    ensures LayoutOf(SegmentItem(Enable, [NumberItem(bytes)]), swap)[4..] == Reverse(bytes)
    ensures LayoutOf(SegmentItem(Disable, [NumberItem(bytes)]), swap)[4..] == bytes
    ensures LayoutOf(SegmentItem(Keep, [NumberItem(bytes)]), swap)[4..] == LayoutOf(NumberItem(bytes), swap)
    ensures LayoutOf(NumberItem(bytes), swap) == if swap then Reverse(bytes) else bytes
  {
    hide Reverse, DigitsOf;
    var body := [NumberItem(bytes)];
    assert body[..0] == [] && Layout([], true) == [] && Layout([], false) == [];
    forall inner: bool
      ensures Layout(body, inner) == Order(bytes, inner)
    {
      assert [] + Order(bytes, inner) == Order(bytes, inner);
    }
  }

  method WriteItem(stream: OutputStream, item: Item)
    requires stream.Valid() && stream.InBounds()
    modifies stream.chain`position, stream.chain`data
    ensures stream.Wrote(old(stream.Cursors()), old(stream.Root().data), LayoutOf(item, stream.swapEndian))
    decreases item, 1
  {
    match item {
      case NumberItem(bytes) => stream.WriteArithmetic(bytes);
      case FloatItem(bytes) => stream.WriteFloat(bytes);
      case DataItem(bytes) => stream.WriteData(bytes);
      case TextItem(value) => stream.WriteString(value);
      case SegmentItem(mode, body) => WriteSegment(stream, mode, body, item);
    }
  }

  /** Goes back to write the length, and returns to where the stream stood. */
  method PatchLength(stream: OutputStream, position: nat, length: nat)
    requires stream.Valid() && stream.Root().position - (stream.position - position) >= 0
    modifies stream.chain`position, stream.chain`data
    ensures stream.Valid() && stream.Moved(old(stream.Cursors()), 0)
    ensures stream.Root().data ==
      Overwritten(old(stream.Root().data), old(stream.Root().position - (stream.position - position)),
                                              Order(DigitsOf(length, 4), stream.swapEndian))
  {
    hide Overwritten, Order, DigitsOf, OutputStream.Valid, OutputStream.Root;
    stream.RootInChain();
    stream.InOwnChain();
    var savedPosition := stream.position;
    stream.SetCurrentPosition(position);
    stream.WriteArithmetic(DigitsOf(length, 4));
    stream.SetCurrentPosition(savedPosition);
  }

  /** The stream for a body, set to the byte order of its mode. */
  method NestedIn(stream: OutputStream, mode: ByteswapMode) returns (nested: OutputStream)
    requires stream.Valid()
    ensures fresh(nested) && nested.Valid() && nested.target == stream && nested.chain == {nested} + stream.chain
    ensures nested.position == 0 && nested.swapEndian == InnerSwap(mode, stream.swapEndian)
    ensures nested.Root() == stream.Root() && nested.Root() in stream.chain
  {
    stream.RootInChain();
    nested := new OutputStream.Nested(stream);
    match mode {
      case Keep => nested.swapEndian := stream.swapEndian;
      case Enable => nested.swapEndian := true;
      case Disable => nested.swapEndian := false;
    }
  }

  /** Reserves room for the length and writes the body behind it, through a nested stream. */
  method WriteBody(stream: OutputStream, mode: ByteswapMode, body: seq<Item>) returns (length: nat)
    requires stream.Valid()
    modifies stream.chain`position, stream.chain`data
    ensures stream.Valid() && length == |Layout(body, InnerSwap(mode, stream.swapEndian))|
    ensures stream.Moved(old(stream.Cursors()), 4 + length)
    ensures stream.Root().data == Overwritten(Grown(old(stream.Root().data), old(stream.Root().position) + 4),
              old(stream.Root().position) + 4, Layout(body, InnerSwap(mode, stream.swapEndian)))
    decreases body, 2
  {
    hide Overwritten, Grown, Layout, OutputStream.Valid, OutputStream.Root;
    stream.RootInChain();
    stream.InOwnChain();
    var _, _ := stream.GetRegionForWrite(4);
    length := WriteNested(stream, mode, body);
  }

  /** Writes a body through a nested stream. */
  method WriteNested(stream: OutputStream, mode: ByteswapMode, body: seq<Item>) returns (length: nat)
    requires stream.Valid() && stream.InBounds()
    modifies stream.chain`position, stream.chain`data
    ensures stream.Valid() && length == |Layout(body, InnerSwap(mode, stream.swapEndian))|
    ensures stream.Moved(old(stream.Cursors()), length)
    ensures stream.Root().data == Overwritten(old(stream.Root().data), old(stream.Root().position),
              Layout(body, InnerSwap(mode, stream.swapEndian)))
    decreases body, 1
  {
    hide Overwritten, Grown, Layout, LayoutOf;
    var nestedStream := NestedIn(stream, mode);
    WriteItems(nestedStream, body);
    length := nestedStream.position;
  }

  /** `operator <<` for a sized segment. */
  method WriteSegment(stream: OutputStream, mode: ByteswapMode, body: seq<Item>, ghost item: Item)
    requires stream.Valid() && item == SegmentItem(mode, body)
    modifies stream.chain`position, stream.chain`data
    ensures stream.Wrote(old(stream.Cursors()), old(stream.Root().data), LayoutOf(item, stream.swapEndian))
    decreases item, 0
  {
    hide Overwritten, Grown, Layout, DigitsOf, Order;
    stream.RootInChain();
    var position := stream.position;
    var length := WriteBody(stream, mode, body);
    PatchLength(stream, position, length);
    PatchedBack(old(stream.Root().data), old(stream.Root().position),
                Order(DigitsOf(length, 4), stream.swapEndian), Layout(body, InnerSwap(mode, stream.swapEndian)));
  }

  method WriteItems(stream: OutputStream, items: seq<Item>)
    requires stream.Valid() && stream.InBounds()
    modifies stream.chain`position, stream.chain`data
    ensures stream.Wrote(old(stream.Cursors()), old(stream.Root().data), Layout(items, stream.swapEndian))
    decreases items, 0
  {
    hide Overwritten, Grown, Layout, LayoutOf;
    stream.RootInChain();
    var i := 0;
    NothingWritten(stream);
    LayoutStep(items, 0, stream.swapEndian);
    while i < |items|
      invariant 0 <= i <= |items| && stream.InBounds()
      invariant stream.Wrote(old(stream.Cursors()), old(stream.Root().data), Layout(items[..i], stream.swapEndian))
    {
      ghost var cursors, data := stream.Cursors(), stream.Root().data;
      WriteItem(stream, items[i]);
      stream.WroteBoth(old(stream.Cursors()), old(stream.Root().data), Layout(items[..i], stream.swapEndian),
                       cursors, data, LayoutOf(items[i], stream.swapEndian));
      LayoutStep(items, i, stream.swapEndian);
      i := i + 1;
    }
    assert items[..|items|] == items;
  }

  lemma LayoutStep(items: seq<Item>, i: nat, swap: bool)
    requires i <= |items|
    ensures Layout(items[..0], swap) == []
    ensures i < |items| ==> Layout(items[..i + 1], swap) == Layout(items[..i], swap) + LayoutOf(items[i], swap)
  {
    if i < |items| {
      assert items[..i + 1][..i] == items[..i];
    }
  }

  lemma NothingWritten(stream: OutputStream)
    requires stream.Valid() && stream.InBounds()
    ensures stream.Wrote(stream.Cursors(), stream.Root().data, [])
  {
    stream.RootInChain();
  }

  // ---- reading ----

  /** What the reader expects. */
  datatype Shape =
    | NumberShape(size: nat)
    | FloatShape(size: nat)
    | DataShape(size: nat)
    | TextShape
    | SegmentShape(mode: ByteswapMode, body: seq<Shape>)

  ghost function TakeItem(shape: Shape, data: seq<byte>, at: nat, swap: bool): (r: Option<(Item, nat)>)
    ensures r.Some? ==> at <= r.value.1 <= |data|
    decreases shape, 0
  {
    match shape
    case NumberShape(size) =>
      (match TakeArithmetic(data, at, size, swap)
       case None => None
       case Some(bytes) => Some((NumberItem(bytes), at + size)))
    case FloatShape(size) =>
      (match TakeArithmetic(data, at, size, !swap)
       case None => None
       case Some(bytes) => Some((FloatItem(bytes), at + size)))
    case DataShape(size) =>
      (match Region(data, at, size)
       case None => None
       case Some(bytes) => Some((DataItem(bytes), at + size)))
    case TextShape =>
      (match TakeString(data, at, swap)
       case None => None
       case Some((value, end)) => Some((TextItem(value), end)))
    case SegmentShape(mode, body) =>
      (match TakeArithmetic(data, at, 4, swap)
       case None => None
       case Some(length) =>
         match Region(data, at + 4, Number(length))
         case None => None
         case Some(region) =>
           // The body is read from its own bytes alone, however much of them it needs.
           match TakeItems(body, region, 0, InnerSwap(mode, swap))
           case None => None
           case Some((items, _)) => Some((SegmentItem(mode, items), at + 4 + Number(length))))
  }

  ghost function TakeItems(shapes: seq<Shape>, data: seq<byte>, at: nat, swap: bool): (r: Option<(seq<Item>, nat)>)
    ensures r.Some? ==> at <= r.value.1 && (shapes != [] ==> r.value.1 <= |data|)
    decreases shapes
  {
    if shapes == [] then Some(([], at))
    else
      match TakeItems(shapes[..|shapes| - 1], data, at, swap)
      case None => None
      case Some((items, next)) =>
        match TakeItem(shapes[|shapes| - 1], data, next, swap)
        case None => None
        case Some((item, end)) => Some((items + [item], end))
  }

  method ReadItem(stream: InputStream, shape: Shape) returns (r: Option<Item>)
    requires stream.Valid()
    modifies stream`ptr
    ensures stream.Valid()
    ensures r.Some? <==> TakeItem(shape, stream.data, old(stream.ptr), stream.swapEndian).Some?
    ensures r.Some? ==> TakeItem(shape, stream.data, old(stream.ptr), stream.swapEndian) == Some((r.value, stream.ptr))
    decreases shape, 1
  {
    hide TakeItems, TakeArithmetic, TakeString, Region;
    match shape {
      case NumberShape(size) =>
        var bytes := stream.ReadArithmetic(size);
        r := if bytes == None then None else Some(NumberItem(bytes.value));
      case FloatShape(size) =>
        var bytes := stream.ReadFloat(size);
        r := if bytes == None then None else Some(FloatItem(bytes.value));
      case DataShape(size) =>
        var bytes := stream.GetRegionForRead(size);
        r := if bytes == None then None else Some(DataItem(bytes.value));
      case TextShape =>
        var value := stream.ReadString();
        r := if value == None then None else Some(TextItem(value.value));
      case SegmentShape(mode, body) =>
        r := ReadSegment(stream, shape);
    }
  }

  /** `operator >>` for a sized segment. */
  method ReadSegment(stream: InputStream, shape: Shape) returns (r: Option<Item>)
    requires stream.Valid() && shape.SegmentShape?
    modifies stream`ptr
    ensures stream.Valid()
    ensures r.Some? <==> TakeItem(shape, stream.data, old(stream.ptr), stream.swapEndian).Some?
    ensures r.Some? ==> TakeItem(shape, stream.data, old(stream.ptr), stream.swapEndian) == Some((r.value, stream.ptr))
    decreases shape, 0
  {
    hide TakeItems, TakeArithmetic, Region, Number;
    var length := stream.ReadArithmetic(4);
    if length == None {
      return None;
    }
    var region := stream.GetRegionForRead(Number(length.value));
    if region == None {
      return None;
    }
    var nestedStream := new InputStream(region.value);
    match shape.mode {
      case Keep => nestedStream.swapEndian := stream.swapEndian;
      case Enable => nestedStream.swapEndian := true;
      case Disable => nestedStream.swapEndian := false;
    }
    var items := ReadItems(nestedStream, shape.body);
    r := if items == None then None else Some(SegmentItem(shape.mode, items.value));
  }

  lemma NoItems(data: seq<byte>, at: nat, swap: bool)
    ensures TakeItems([], data, at, swap) == Some(([], at))
  {
  }

  lemma {:induction false} ItemsStep(shapes: seq<Shape>, n: nat, data: seq<byte>, at: nat, swap: bool)
    requires n < |shapes| && TakeItems(shapes[..n], data, at, swap).Some?
    ensures var (items, next) := TakeItems(shapes[..n], data, at, swap).value;
      TakeItems(shapes[..n + 1], data, at, swap) ==
        match TakeItem(shapes[n], data, next, swap)
        case None => None
        case Some((item, end)) => Some((items + [item], end))
  {
    hide TakeItem;
    assert shapes[..n + 1][..n] == shapes[..n];
  }

  method ReadItems(stream: InputStream, shapes: seq<Shape>) returns (r: Option<seq<Item>>)
    requires stream.Valid()
    modifies stream`ptr
    ensures stream.Valid()
    ensures r.Some? <==> TakeItems(shapes, stream.data, old(stream.ptr), stream.swapEndian).Some?
    ensures r.Some? ==>
      TakeItems(shapes, stream.data, old(stream.ptr), stream.swapEndian) == Some((r.value, stream.ptr))
    decreases shapes
  {
    hide TakeItem, TakeItems;
    var items := [];
    var i := 0;
    NoItems(stream.data, stream.ptr, stream.swapEndian);
    while i < |shapes|
      invariant 0 <= i <= |shapes| && stream.Valid()
      invariant TakeItems(shapes[..i], stream.data, old(stream.ptr), stream.swapEndian) == Some((items, stream.ptr))
    {
      ItemsStep(shapes, i, stream.data, old(stream.ptr), stream.swapEndian);
      var item := ReadItem(stream, shapes[i]);
      if item == None {
        FailsEarly(shapes, i + 1, stream.data, old(stream.ptr), stream.swapEndian);
        return None;
      }
      items := items + [item.value];
      i := i + 1;
    }
    assert shapes[..|shapes|] == shapes;
    r := Some(items);
  }

  lemma {:induction false} FailsEarly(shapes: seq<Shape>, n: nat, data: seq<byte>, at: nat, swap: bool)
    requires n <= |shapes| && TakeItems(shapes[..n], data, at, swap) == None
    ensures TakeItems(shapes, data, at, swap) == None
    decreases |shapes| - n
  {
    if n == |shapes| {
      assert shapes[..n] == shapes;
    } else {
      assert shapes[..n + 1][..n] == shapes[..n];
      FailsEarly(shapes, n + 1, data, at, swap);
    }
  }

  // ---- what is written is read back ----

  ghost function ShapeOf(item: Item): Shape
    decreases item, 0
  {
    match item
    case NumberItem(bytes) => NumberShape(|bytes|)
    case FloatItem(bytes) => FloatShape(|bytes|)
    case DataItem(bytes) => DataShape(|bytes|)
    case TextItem(_) => TextShape
    case SegmentItem(mode, body) => SegmentShape(mode, ShapesOf(body))
  }

  ghost function ShapesOf(items: seq<Item>): (r: seq<Shape>)
    ensures |r| == |items|
    decreases items
  {
    if items == [] then [] else ShapesOf(items[..|items| - 1]) + [ShapeOf(items[|items| - 1])]
  }

  /** No length overflows its field. */
  ghost predicate ItemFits(item: Item, swap: bool)
    decreases item, 0
  {
    match item
    case NumberItem(_) => true
    case FloatItem(_) => true
    case DataItem(_) => true
    case TextItem(value) => |value| < 0x1_0000
    case SegmentItem(mode, body) =>
      |Layout(body, InnerSwap(mode, swap))| < TWO32 && Fits(body, InnerSwap(mode, swap))
  }

  ghost predicate Fits(items: seq<Item>, swap: bool)
    decreases items
  {
    items == [] || (Fits(items[..|items| - 1], swap) && ItemFits(items[|items| - 1], swap))
  }

  lemma {:induction false} ItemRoundTrip(before: seq<byte>, item: Item, after: seq<byte>, swap: bool)
    requires ItemFits(item, swap)
    ensures TakeItem(ShapeOf(item), before + LayoutOf(item, swap) + after, |before|, swap)
         == Some((item, |before| + |LayoutOf(item, swap)|))
    decreases item, 0
  {
    hide TakeArithmetic, TakeString, StringLayout, Order, DigitsOf, Number;
    match item
    case NumberItem(bytes) => ArithmeticRoundTrip(before, bytes, after, swap);
    case FloatItem(bytes) => ArithmeticRoundTrip(before, bytes, after, !swap);
    case DataItem(bytes) => RegionOf(before, bytes, after);
    case TextItem(value) =>
      StringRoundTrip(before, value, after, swap);
      assert |StringLayout(value, swap)| == |value| + 3 by { StringLayoutLength(value, swap); }
      assert value[..|value| % 0x1_0000] == value;
    case SegmentItem(mode, body) => SegmentRoundTrip(before, mode, body, after, swap);
  }

  lemma StringLayoutLength(value: seq<byte>, swap: bool)
    ensures |StringLayout(value, swap)| == |value| + 3
  {
  }

  lemma SegmentRegion(before: seq<byte>, length: seq<byte>, inner: seq<byte>, after: seq<byte>, swap: bool)
    requires |length| == 4
    ensures var data := before + Order(length, swap) + inner + after;
      && TakeArithmetic(data, |before|, 4, swap) == Some(length)
      && Region(data, |before| + 4, |inner|) == Some(inner)
  {
    hide TakeArithmetic, Region, Order;
    var head := Order(length, swap);
    var data := before + head + inner + after;
    assert data == before + head + (inner + after);
    ArithmeticRoundTrip(before, length, inner + after, swap);
    assert data == (before + head) + inner + after;
    RegionOf(before + head, inner, after);
  }

  /** A body is read from the bytes its length counts and no others, and the outer cursor moves past those
      bytes however many of them the body needed. */
  lemma SegmentBounded(before: seq<byte>, mode: ByteswapMode, shapes: seq<Shape>, length: seq<byte>, inner: seq<byte>,
                       after: seq<byte>, swap: bool)
    requires |length| == 4 && Number(length) == |inner|
    ensures TakeItem(SegmentShape(mode, shapes), before + Order(length, swap) + inner + after, |before|, swap)
         == match TakeItems(shapes, inner, 0, InnerSwap(mode, swap))
            case None => None
            case Some((items, _)) => Some((SegmentItem(mode, items), |before| + 4 + |inner|))
  {
    hide TakeArithmetic, Region, Order, Number, TakeItems;
    SegmentRegion(before, length, inner, after, swap);
  }

  lemma {:induction false} SegmentRoundTrip(before: seq<byte>, mode: ByteswapMode, body: seq<Item>, after: seq<byte>,
                                            swap: bool)
    requires ItemFits(SegmentItem(mode, body), swap)
    ensures TakeItem(SegmentShape(mode, ShapesOf(body)), before + LayoutOf(SegmentItem(mode, body), swap) + after,
      |before|, swap)
         == Some((SegmentItem(mode, body), |before| + |LayoutOf(SegmentItem(mode, body), swap)|))
    decreases body, 1
  {
    hide TakeItem, Region, Order, DigitsOf, Number, TakeItems, Layout, Fits, ShapesOf;
    var inner := Layout(body, InnerSwap(mode, swap));
    var length := DigitsOf(|inner|, 4);
    assert before + LayoutOf(SegmentItem(mode, body), swap) + after == before + Order(length, swap) + inner + after;
    NumberOfDigits(|inner|, 4);
    FourBytes();
    SegmentBounded(before, mode, ShapesOf(body), length, inner, after, swap);
    RoundTrip([], body, [], InnerSwap(mode, swap));
    assert [] + inner + [] == inner;
  }

  lemma {:induction false} OneMoreItem(shapes: seq<Shape>, data: seq<byte>, at: nat, swap: bool,
                                       items: seq<Item>, next: nat, item: Item, end: nat)
    requires shapes != [] && TakeItems(shapes[..|shapes| - 1], data, at, swap) == Some((items, next))
    requires TakeItem(shapes[|shapes| - 1], data, next, swap) == Some((item, end))
    ensures TakeItems(shapes, data, at, swap) == Some((items + [item], end))
  {
  }

  lemma {:induction false} ItemBehind(shapes: seq<Shape>, before: seq<byte>, a: seq<byte>, b: seq<byte>,
                                      after: seq<byte>, swap: bool, items: seq<Item>, item: Item)
    requires shapes != []
    requires TakeItems(shapes[..|shapes| - 1], before + a + (b + after), |before|, swap)
          == Some((items, |before| + |a|))
    requires TakeItem(shapes[|shapes| - 1], before + a + b + after, |before + a|, swap)
          == Some((item, |before + a| + |b|))
    ensures TakeItems(shapes, before + (a + b) + after, |before|, swap)
         == Some((items + [item], |before| + |a + b|))
  {
    hide TakeItem, TakeItems;
    var data := before + (a + b) + after;
    assert before + a + (b + after) == data && before + a + b + after == data;
    OneMoreItem(shapes, data, |before|, swap, items, |before + a|, item, |before + a| + |b|);
  }

  lemma {:induction false} FitsStep(items: seq<Item>, swap: bool)
    requires items != [] && Fits(items, swap)
    ensures Fits(items[..|items| - 1], swap) && ItemFits(items[|items| - 1], swap)
  {
  }

  lemma {:induction false} LastItem(items: seq<Item>, swap: bool)
    requires items != []
    ensures var init, last, shapes := items[..|items| - 1], items[|items| - 1], ShapesOf(items);
      && Layout(items, swap) == Layout(init, swap) + LayoutOf(last, swap)
      && |shapes| == |items| && shapes[..|items| - 1] == ShapesOf(init) && shapes[|items| - 1] == ShapeOf(last)
  {
    hide LayoutOf, ShapeOf;
  }

  lemma EmptyRoundTrip(before: seq<byte>, after: seq<byte>, swap: bool)
    ensures TakeItems(ShapesOf([]), before + Layout([], swap) + after, |before|, swap)
         == Some(([], |before| + |Layout([], swap)|))
  {
    NoItems(before + [] + after, |before|, swap);
  }

  /** Items of any nesting depth are read back as they were written. */
  lemma {:induction false} RoundTrip(before: seq<byte>, items: seq<Item>, after: seq<byte>, swap: bool)
    requires Fits(items, swap)
    ensures TakeItems(ShapesOf(items), before + Layout(items, swap) + after, |before|, swap)
         == Some((items, |before| + |Layout(items, swap)|))
    decreases items, 0
  {
    hide LayoutOf, Layout, TakeItem, ItemFits, ShapeOf, ShapesOf, TakeItems, Fits;
    if items == [] {
      EmptyRoundTrip(before, after, swap);
    } else {
      var init, last := items[..|items| - 1], items[|items| - 1];
      FitsStep(items, swap);
      LastItem(items, swap);
      var a, b := Layout(init, swap), LayoutOf(last, swap);
      RoundTrip(before, init, b + after, swap);
      ItemRoundTrip(before + a, last, after, swap);
      ItemBehind(ShapesOf(items), before, a, b, after, swap, init, last);
      assert items == init + [last];
    }
  }
}
