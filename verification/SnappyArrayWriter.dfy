/** The writer into a flat array, and the validator that drops what it is given. */
module SnappyArrayWriter {
  import opened Bytes
  import opened Memory
  import opened SnappyFormat
  import opened SnappyCopy

  const SIZE_MAX: nat := 0xFFFF_FFFF_FFFF_FFFF

  /** `offset - 1u` on a 64-bit size: zero wraps around to the largest value. */
  function MinusOne(offset: nat): nat {
    if offset == 0 then SIZE_MAX else offset - 1
  }

  /** When a copy is possible at all. */
  ghost predicate CanCopy(produced: nat, offset: nat, len: nat, limit: nat) {
    0 < offset <= produced && produced + len <= limit
  }

  class ArrayWriter {
    const buf: array<byte>
    const base: nat
    var op: nat
    var opLimit: nat

    constructor (buf: array<byte>, base: nat)
      requires base <= buf.Length
      ensures Valid() && this.buf == buf && this.base == base && op == base && Limit() == 0
    {
      this.buf, this.base, op, opLimit := buf, base, base, base;
    }

    ghost predicate Valid()
      reads this
    {
      base <= op <= opLimit <= buf.Length && opLimit - base < TWO32
    }

    /** What has been produced. */
    ghost function Out(): seq<byte>
      requires Valid()
      reads this, buf
    {
      buf[base..op]
    }

    ghost function Limit(): nat
      requires Valid()
      reads this
    {
      opLimit - base
    }

    method SetExpectedLength(len: uint32)
      requires Valid() && op == base && base + len <= buf.Length
      modifies this`opLimit
      ensures Valid() && Out() == [] && Limit() == len
    {
      opLimit := op + len;
    }

    method CheckLength() returns (ok: bool)
      requires Valid()
      ensures ok <==> |Out()| == Limit()
    {
      ok := op == opLimit;
    }

    function Produced(): nat
      requires op >= base
      reads this
    {
      op - base
    }

    method Append(bytes: seq<byte>) returns (ok: bool)
      requires Valid()
      modifies this`op, buf
      ensures ok <==> |old(Out())| + |bytes| <= old(Limit())
      ensures ok ==> Valid() && Limit() == old(Limit()) && Out() == old(Out()) + bytes
      ensures OnlyWrites(buf, base, opLimit)
    {
      var spaceLeft := opLimit - op;
      if spaceLeft < |bytes| {
        return false;
      }
      Memcpy(buf, op, bytes);
      assert buf[base..op + |bytes|] == buf[base..op] + buf[op..op + |bytes|];
      op := op + |bytes|;
      return true;
    }

    /** May decline.  `bytes` is what can be read, of which the first `len` are to be appended. */
    method TryFastAppend(bytes: seq<byte>, len: nat) returns (ok: bool)
      requires Valid()
      modifies this`op, buf
      ensures Valid() && Limit() == old(Limit())
      ensures ok ==> len <= 16 && |bytes| >= 16 + MAXIMUM_TAG_LENGTH && Out() == old(Out()) + bytes[..len]
      ensures ok ==> |Out()| <= Limit()
      ensures !ok ==> Out() == old(Out())
      ensures OnlyWrites(buf, base, opLimit)
    {
      var spaceLeft := opLimit - op;
      if len <= 16 && |bytes| >= 16 + MAXIMUM_TAG_LENGTH && spaceLeft >= 16 {
        Memcpy(buf, op, bytes[..16]);
        assert buf[op..op + 16][..len] == bytes[..len];
        assert buf[base..op + len] == buf[base..op] + buf[op..op + len];
        op := op + len;
        return true;
      }
      return false;
    }

    method AppendFromSelf(offset: nat, len: nat) returns (ok: bool)
      requires Valid()
      modifies this`op, buf
      ensures ok <==> CanCopy(|old(Out())|, offset, len, old(Limit()))
      ensures ok ==> Valid() && Limit() == old(Limit()) && Out() == CopyFrom(old(Out()), offset, len)
      ensures OnlyWrites(buf, base, opLimit)
    {
      hide Repeats, CopyFrom;
      var opEnd := op + len;
      if Produced() <= MinusOne(offset) || opEnd > opLimit {
        return false;
      }
      ghost var before := Out();
      IncrementalCopy(buf, op - offset, op, opEnd, opLimit);
      assert buf[..][base..op] == before;
      RepeatsIsCopy(buf[..], base, offset, op, opEnd);
      op := opEnd;
      assert Out() == buf[..][base..opEnd];
      return true;
    }
  }

  /** Counts what would be produced; `out` is ghost, the program keeps only the count. */
  class Validator {
    var expected: nat
    var produced: nat
    ghost var out: seq<byte>

    constructor ()
      ensures Valid() && out == [] && expected == 0
    {
      expected, produced, out := 0, 0, [];
    }

    ghost predicate Valid()
      reads this
    {
      produced == |out| <= expected < TWO32
    }

    method SetExpectedLength(len: uint32)
      requires Valid() && out == []
      modifies this`expected
      ensures Valid() && expected == len
    {
      expected := len;
    }

    method CheckLength() returns (ok: bool)
      requires Valid()
      ensures ok <==> |out| == expected
    {
      ok := expected == produced;
    }

    method Append(bytes: seq<byte>) returns (ok: bool)
      requires Valid()
      modifies this`produced, this`out
      ensures ok <==> |old(out)| + |bytes| <= expected
      ensures ok ==> Valid() && out == old(out) + bytes
    {
      produced := produced + |bytes|;
      out := out + bytes;
      ok := produced <= expected;
    }

    method TryFastAppend(bytes: seq<byte>, len: nat) returns (ok: bool)
      ensures !ok
    {
      ok := false;
    }

    method AppendFromSelf(offset: nat, len: nat) returns (ok: bool)
      requires Valid()
      modifies this`produced, this`out
      ensures ok <==> CanCopy(|old(out)|, offset, len, expected)
      ensures ok ==> Valid() && out == CopyFrom(old(out), offset, len)
    {
      if produced <= MinusOne(offset) {
        return false;
      }
      produced := produced + len;
      out := CopyFrom(out, offset, len);
      ok := produced <= expected;
    }
  }
}
