/** The serialization streams: a bounded cursor to read with, and a growing buffer to write to, which may
    write through to another stream. */
module Streams {
  import opened Bytes
  import opened Numbers

  /** The `size` bytes at `at`, when there are as many. */
  ghost function Region(data: seq<byte>, at: nat, size: nat): (r: Option<seq<byte>>)
    ensures r.Some? <==> at + size <= |data|
    ensures r.Some? ==> r.value == data[at..at + size]
  {
    if at + size <= |data| then Some(data[at..at + size]) else None
  }

  class InputStream {
    const data: seq<byte>
    var ptr: nat
    var swapEndian: bool

    constructor (data: seq<byte>)
      ensures this.data == data && ptr == 0 && !swapEndian
    {
      this.data := data;
      ptr, swapEndian := 0, false;
    }

    ghost predicate Valid()
      reads this
    {
      ptr <= |data|
    }

    /** `getRegionForRead`; `None` where it throws. */
    method GetRegionForRead(size: nat) returns (region: Option<seq<byte>>)
      requires Valid()
      modifies this`ptr
      ensures Valid() && region == Region(data, old(ptr), size)
      ensures ptr == if region.Some? then old(ptr) + size else old(ptr)
    {
      if size > |data| - ptr {
        return None;
      }
      region := Some(data[ptr..ptr + size]);
      ptr := ptr + size;
    }

    /** `readArithmetic`: the bytes of a number, in memory order. */
    method ReadArithmetic(size: nat) returns (r: Option<seq<byte>>)
      requires Valid()
      modifies this`ptr
      ensures Valid() && r == TakeArithmetic(data, old(ptr), size, swapEndian)
      ensures ptr == if r.Some? then old(ptr) + size else old(ptr)
    {
      var region := GetRegionForRead(size);
      match region {
        case None => r := None;
        case Some(interim) => r := Some(if swapEndian then Reverse(interim) else interim);
      }
    }

    /** `readFloat`: swapped when numbers are not. */
    method ReadFloat(size: nat) returns (r: Option<seq<byte>>)
      requires Valid()
      modifies this`ptr
      ensures Valid() && r == TakeArithmetic(data, old(ptr), size, !swapEndian)
      ensures ptr == if r.Some? then old(ptr) + size else old(ptr)
    {
      var region := GetRegionForRead(size);
      match region {
        case None => r := None;
        case Some(interim) => r := Some(if !swapEndian then Reverse(interim) else interim);
      }
    }

    /** `operator >>` for an unsigned 32-bit number. */
    method ReadUInt32() returns (r: Option<uint32>)
      requires Valid()
      modifies this`ptr
      ensures Valid() && r == TakeUInt32(data, old(ptr), swapEndian)
      ensures ptr == if r.Some? then old(ptr) + 4 else old(ptr)
    {
      var bytes := ReadArithmetic(4);
      r := if bytes == None then None else Some(FourByteNumber(bytes.value));
    }

    /** A string: two bytes of length, then one byte more than that. */
    method ReadString() returns (r: Option<seq<byte>>)
      requires Valid()
      modifies this`ptr
      ensures Valid()
      ensures r == (var t := TakeString(data, old(ptr), swapEndian); if t.Some? then Some(t.value.0) else None)
      ensures r.Some? ==> ptr == TakeString(data, old(ptr), swapEndian).value.1
    {
      var length := ReadArithmetic(2);
      if length == None {
        return None;
      }
      var n := Number(length.value);
      var region := GetRegionForRead(n + 1);
      if region == None {
        return None;
      }
      r := Some(region.value[..n]);
    }
  }

  /** What a number at `at` is in memory. */
  ghost function TakeArithmetic(data: seq<byte>, at: nat, size: nat, swap: bool): (r: Option<seq<byte>>)
    ensures r.Some? ==> |r.value| == size && at + size <= |data|
  {
    match Region(data, at, size)
    case None => None
    case Some(bytes) => Some(Order(bytes, swap))
  }

  ghost function TakeUInt32(data: seq<byte>, at: nat, swap: bool): (r: Option<uint32>)
    ensures r.Some? ==> at + 4 <= |data|
  {
    match TakeArithmetic(data, at, 4, swap)
    case None => None
    case Some(bytes) => Some(FourByteNumber(bytes))
  }

  function FourByteNumber(bytes: seq<byte>): (n: uint32)
    requires |bytes| == 4
    ensures n == Number(bytes)
  {
    NumberBounded(bytes);
    FourBytes();
    Number(bytes)
  }

  /** A string at `at`, and where it ends. */
  ghost function TakeString(data: seq<byte>, at: nat, swap: bool): (r: Option<(seq<byte>, nat)>)
    ensures r.Some? ==> at < r.value.1 <= |data|
  {
    match TakeArithmetic(data, at, 2, swap)
    case None => None
    case Some(length) =>
      var n := Number(length);
      match Region(data, at + 2, n + 1)
      case None => None
      case Some(bytes) => Some((bytes[..n], at + 2 + n + 1))
  }

  // ---- writing ----

  /** `vector::resize`, to more bytes only. */
  function Grown(data: seq<byte>, size: nat): (r: seq<byte>)
    ensures |r| == if |data| < size then size else |data|
    ensures data <= r
  {
    if |data| < size then data + seq(size - |data|, i => 0) else data
  }

  /** The buffer with `bytes` at `at`, grown as far as needed. */
  ghost function Overwritten(data: seq<byte>, at: nat, bytes: seq<byte>): (r: seq<byte>)
    ensures |r| == if |data| < at + |bytes| then at + |bytes| else |data|
    ensures r[at..at + |bytes|] == bytes
  {
    var g := Grown(data, at + |bytes|);
    g[..at] + bytes + g[at + |bytes|..]
  }

  /** Writing in two steps is writing once. */
  lemma OverwrittenTwice(data: seq<byte>, at: nat, a: seq<byte>, b: seq<byte>)
    ensures Overwritten(Overwritten(data, at, a), at + |a|, b) == Overwritten(data, at, a + b)
  {
    hide Overwritten;
    var r, s := Overwritten(Overwritten(data, at, a), at + |a|, b), Overwritten(data, at, a + b);
    forall i | 0 <= i < |r|
      ensures r[i] == s[i]
    {
      OverwrittenAt(data, at, a + b, i);
      OverwrittenAt(Overwritten(data, at, a), at + |a|, b, i);
      if i < |Overwritten(data, at, a)| {
        OverwrittenAt(data, at, a, i);
      }
    }
  }

  /** One byte of the result: new where it was written, and elsewhere old, or zero where the buffer grew. */
  lemma OverwrittenAt(data: seq<byte>, at: nat, bytes: seq<byte>, i: nat)
    requires i < |Overwritten(data, at, bytes)|
    ensures Overwritten(data, at, bytes)[i] ==
      if at <= i < at + |bytes| then bytes[i - at] else if i < |data| then data[i] else 0
  {
  }

  /** Reserving room, writing behind it and then into it is writing once. */
  lemma PatchedBack(data: seq<byte>, at: nat, head: seq<byte>, body: seq<byte>)
    ensures Overwritten(Overwritten(Grown(data, at + |head|), at + |head|, body), at, head) ==
      Overwritten(data, at, head + body)
  {
    hide Overwritten, Grown;
    var grown := Grown(data, at + |head|);
    var patched := Overwritten(grown, at + |head|, body);
    var r, s := Overwritten(patched, at, head), Overwritten(data, at, head + body);
    forall i | 0 <= i < |r|
      ensures r[i] == s[i]
    {
      OverwrittenAt(patched, at, head, i);
      OverwrittenAt(data, at, head + body, i);
      if i < |patched| {
        OverwrittenAt(grown, at + |head|, body, i);
      }
      if i < |grown| {
        GrownAt(data, at + |head|, i);
      }
    }
  }

  lemma GrownAt(data: seq<byte>, size: nat, i: nat)
    requires i < |Grown(data, size)|
    ensures Grown(data, size)[i] == if i < |data| then data[i] else 0
  {
  }

  class OutputStream {
    const target: OutputStream?
    const offset: nat
    var data: seq<byte>
    var position: nat
    var swapEndian: bool
    /** This stream, the one it writes through to, and so on. */
    ghost const chain: set<OutputStream>

    /** The cursors of a chain stand at the same place of the root's buffer. */
    ghost predicate Valid()
      reads this`position, chain`position
      decreases chain
    {
      && this in chain
      && (target == null ==> chain == {this})
      && (target != null ==>
            && target in target.chain && this !in target.chain && chain == {this} + target.chain && target.Valid()
            && target.position == position + offset)
    }

    /** The stream at the end of the chain, which holds the bytes. */
    ghost function Root(): OutputStream
      decreases chain
    {
      if target == null || !(target.chain < chain) then this else target.Root()
    }

    lemma {:induction false} RootInChain()
      requires Valid()
      ensures Root() in chain && Root().target == null
      decreases chain
    {
      if target != null {
        target.RootInChain();
      }
    }

    lemma InOwnChain()
      requires Valid()
      ensures this in chain
    {
    }

    ghost function Cursors(): map<OutputStream, nat>
      reads this`position, chain`position
    {
      map s | s in chain :: s.position
    }

    constructor ()
      ensures Valid() && fresh(this) && chain == {this} && data == [] && position == 0 && !swapEndian
    {
      target, offset, data, position, swapEndian := null, 0, [], 0, false;
      chain := {this};
    }

    /** A stream that writes through to another, from where that one stands. */
    constructor Nested(other: OutputStream)
      requires other.Valid()
      ensures Valid() && fresh(this) && target == other && chain == {this} + other.chain && position == 0 && !swapEndian
      ensures offset == other.position && Root() == other.Root()
    {
      target, offset, data, position, swapEndian := other, other.position, [], 0, false;
      chain := {this} + other.chain;
    }

    /** Every cursor of the chain is `delta` from where it was. */
    ghost predicate Moved(before: map<OutputStream, nat>, delta: int)
      reads this`position, chain`position
    {
      forall s :: s in chain ==> s in before && s.position == before[s] + delta
    }

    /** `getRegionForWrite`: where the caller may write `size` bytes, and in whose buffer. */
    method GetRegionForWrite(size: nat) returns (root: OutputStream, at: nat)
      requires Valid()
      modifies chain`position, chain`data
      ensures Valid() && Moved(old(Cursors()), size)
      ensures root == Root() && at == old(Root().position)
      ensures root.data == Grown(old(Root().data), at + size)
      decreases chain
    {
      if target != null {
        root, at := target.GetRegionForWrite(size);
      } else {
        root, at := this, position;
        if |data| < position + size {
          data := Grown(data, position + size);
        }
      }
      position := position + size;
    }

    /** Seeks this stream and, with it, what it writes through to. */
    method SetCurrentPosition(newPosition: nat)
      requires Valid()
      modifies chain`position
      ensures Valid() && Moved(old(Cursors()), newPosition - old(position))
      ensures position == newPosition
      decreases chain
    {
      position := newPosition;
      if target != null {
        target.SetCurrentPosition(position + offset);
      }
    }

    ghost predicate InBounds()
      reads Root()`position, Root()`data
    {
      Root().position <= |Root().data|
    }

    /** What a write does: `bytes` stand where the cursor stood, and the cursor is behind them. */
    ghost predicate Wrote(cursors: map<OutputStream, nat>, data: seq<byte>, bytes: seq<byte>)
      reads this`position, chain`position, Root()`data
    {
      && Valid() && Moved(cursors, |bytes|) && Root() in cursors
      && Root().data == Overwritten(data, cursors[Root()], bytes)
    }

    /** `writeData`. */
    method WriteData(bytes: seq<byte>)
      requires Valid()
      modifies chain`position, chain`data
      ensures Wrote(old(Cursors()), old(Root().data), bytes)
    {
      RootInChain();
      var root, at := GetRegionForWrite(|bytes|);
      root.data := root.data[..at] + bytes + root.data[at + |bytes|..];
    }

    /** One write after another is one write. */
    lemma WroteBoth(before: map<OutputStream, nat>, dataBefore: seq<byte>, a: seq<byte>,
                    between: map<OutputStream, nat>, dataBetween: seq<byte>, b: seq<byte>)
      requires Wrote(between, dataBetween, b) && Root() in chain && Root() in before
      requires forall s :: s in chain ==> s in before && s in between && between[s] == before[s] + |a|
      requires dataBetween == Overwritten(dataBefore, before[Root()], a)
      ensures Wrote(before, dataBefore, a + b)
    {
      hide Overwritten;
      OverwrittenTwice(dataBefore, before[Root()], a, b);
    }

    /** `writeArithmetic`, for the bytes of a number in memory order. */
    method WriteArithmetic(bytes: seq<byte>)
      requires Valid()
      modifies chain`position, chain`data
      ensures Wrote(old(Cursors()), old(Root().data), Order(bytes, swapEndian))
    {
      if swapEndian {
        WriteData(Reverse(bytes));
      } else {
        WriteData(bytes);
      }
    }

    /** `writeFloat`: swapped when numbers are not. */
    method WriteFloat(bytes: seq<byte>)
      requires Valid()
      modifies chain`position, chain`data
      ensures Wrote(old(Cursors()), old(Root().data), Order(bytes, !swapEndian))
    {
      if !swapEndian {
        WriteData(Reverse(bytes));
      } else {
        WriteData(bytes);
      }
    }

    /** `operator <<` for an unsigned 32-bit number; a larger length is cut to it. */
    method WriteUInt32(value: nat)
      requires Valid()
      modifies chain`position, chain`data
      ensures Wrote(old(Cursors()), old(Root().data), UInt32Layout(value, swapEndian))
    {
      WriteArithmetic(DigitsOf(value, 4));
    }

    /** A string: its length, cut to two bytes, its characters and a NUL. */
    method WriteString(value: seq<byte>)
      requires Valid()
      modifies chain`position, chain`data
      ensures Wrote(old(Cursors()), old(Root().data), StringLayout(value, swapEndian))
    {
      RootInChain();
      WriteArithmetic(DigitsOf(|value|, 2));
      ghost var between, dataBetween := Cursors(), Root().data;
      WriteData(value + [0]);
      WroteBoth(old(Cursors()), old(Root().data), Order(DigitsOf(|value|, 2), swapEndian), between, dataBetween,
        value + [0]);
    }
  }

  ghost function UInt32Layout(value: nat, swap: bool): (r: seq<byte>)
    ensures |r| == 4
  {
    Order(DigitsOf(value, 4), swap)
  }

  ghost function StringLayout(value: seq<byte>, swap: bool): seq<byte> {
    Order(DigitsOf(|value|, 2), swap) + (value + [0])
  }

  /** A region in the middle of a buffer. */
  lemma RegionOf(before: seq<byte>, bytes: seq<byte>, after: seq<byte>)
    ensures Region(before + bytes + after, |before|, |bytes|) == Some(bytes)
  {
    assert (before + bytes + after)[|before|..|before| + |bytes|] == bytes;
  }

  /** A number that was written is read back. */
  lemma ArithmeticRoundTrip(before: seq<byte>, bytes: seq<byte>, after: seq<byte>, swap: bool)
    ensures TakeArithmetic(before + Order(bytes, swap) + after, |before|, |bytes|, swap) == Some(bytes)
  {
    RegionOf(before, Order(bytes, swap), after);
    OrderTwice(bytes, swap);
  }

  lemma {:induction false} UInt32RoundTrip(before: seq<byte>, value: nat, after: seq<byte>, swap: bool)
    ensures TakeUInt32(before + UInt32Layout(value, swap) + after, |before|, swap) == Some(value % TWO32)
  {
    hide Order, DigitsOf, TakeArithmetic;
    ArithmeticRoundTrip(before, DigitsOf(value, 4), after, swap);
    NumberOfDigits(value, 4);
    FourBytes();
  }

  lemma FourBytes()
    ensures Power256(4) == TWO32
  {
    assert Power256(2) == 0x1_0000;
  }

  lemma TakeStringParts(before: seq<byte>, length: seq<byte>, rest: seq<byte>, n: nat, swap: bool)
    requires |length| == 2 && Number(length) == n && n < |rest|
    ensures TakeString(before + Order(length, swap) + rest, |before|, swap) == Some((rest[..n], |before| + 3 + n))
  {
    hide Number, Reverse;
    var head := Order(length, swap);
    ArithmeticRoundTrip(before, length, rest, swap);
    assert (before + head + rest)[|before| + 2..|before| + 2 + n + 1] == rest[..n + 1];
    assert rest[..n + 1][..n] == rest[..n];
  }

  /** A string that was written is read back exactly when its length fits in two bytes. */
  lemma {:induction false} StringRoundTrip(before: seq<byte>, value: seq<byte>, after: seq<byte>, swap: bool)
    ensures TakeString(before + StringLayout(value, swap) + after, |before|, swap)
         == Some((value[..|value| % 0x1_0000], |before| + 3 + |value| % 0x1_0000))
    ensures TakeString(before + StringLayout(value, swap) + after, |before|, swap).value.0 == value <==>
      |value| < 0x1_0000
  {
    hide DigitsOf, Number, Order, TakeString;
    var length, rest := DigitsOf(|value|, 2), value + [0] + after;
    assert before + StringLayout(value, swap) + after == before + Order(length, swap) + rest;
    NumberOfDigits(|value|, 2);
    assert Power256(2) == 0x1_0000;
    TakeStringParts(before, length, rest, |value| % 0x1_0000, swap);
    assert rest[..|value| % 0x1_0000] == value[..|value| % 0x1_0000];
  }
}
