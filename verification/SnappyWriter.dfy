/** The four writers behind one contract: what the decompressor may rely on, whichever it is given. */
module SnappyWriter {
  import opened Bytes
  import opened SnappyFormat
  import opened SnappyArrayWriter
  import opened SnappyIOVecWriter
  import opened SnappyScatteredWriter
  import Buffers

  datatype Writer =
    | Flat(flat: ArrayWriter)
    | IOVec(iovec: IOVecWriter)
    | Scattered(scattered: ScatteredWriter)
    | Validating(validator: Validator)
  {
    ghost function Repr(): set<object>
      reads if Scattered? then {scattered} else {}
    {
      match this
      case Flat(w) => {w, w.buf}
      case IOVec(w) => {w} + set i | 0 <= i < |w.iov| :: w.iov[i] as object
      case Scattered(w) => w.Repr()
      case Validating(w) => {w}
    }

    ghost predicate Valid()
      reads Repr()
    {
      match this
      case Flat(w) => w.Valid()
      case IOVec(w) => w.Valid()
      case Scattered(w) => w.Valid()
      case Validating(w) => w.Valid()
    }

    /** Everything produced so far. */
    ghost function Out(): seq<byte>
      requires Valid()
      reads Repr()
    {
      match this
      case Flat(w) => w.Out()
      case IOVec(w) => w.out
      case Scattered(w) => w.out
      case Validating(w) => w.out
    }

    /** The length the stream's preamble announced. */
    ghost function Limit(): nat
      requires Valid()
      reads Repr()
    {
      match this
      case Flat(w) => w.Limit()
      case IOVec(w) => w.outputLimit
      case Scattered(w) => w.expected
      case Validating(w) => w.expected
    }

    /** Appending succeeds exactly while the announced length allows it. */
    method Append(bytes: seq<byte>) returns (ok: bool)
      requires Valid()
      modifies Repr()
      ensures ok <==> |old(Out())| + |bytes| <= old(Limit())
      ensures ok ==> Valid() && Limit() == old(Limit()) && Out() == old(Out()) + bytes
      ensures fresh(Repr() - old(Repr()))
    {
      match this
      case Flat(w) => ok := w.Append(bytes);
      case IOVec(w) => ok := w.Append(bytes);
      case Scattered(w) => ok := w.Append(bytes);
      case Validating(w) => ok := w.Append(bytes);
    }

    /** May decline; never takes a literal that leaves less than a tag's bytes readable behind it. */
    method TryFastAppend(bytes: seq<byte>, len: nat) returns (ok: bool)
      requires Valid()
      modifies Repr()
      ensures Valid() && Limit() == old(Limit())
      ensures ok ==> len <= 16 && |bytes| >= 16 + MAXIMUM_TAG_LENGTH && Out() == old(Out()) + bytes[..len]
      ensures ok ==> |Out()| <= Limit()
      ensures !ok ==> Out() == old(Out())
      ensures fresh(Repr() - old(Repr()))
    {
      match this
      case Flat(w) => ok := w.TryFastAppend(bytes, len);
      case IOVec(w) => ok := w.TryFastAppend(bytes, len);
      case Scattered(w) => ok := w.TryFastAppend(bytes, len);
      case Validating(w) => ok := w.TryFastAppend(bytes, len);
    }

    /** A self-copy succeeds exactly when its source lies in the output and its length fits. */
    method AppendFromSelf(offset: nat, len: nat) returns (ok: bool)
      requires Valid()
      modifies Repr()
      ensures ok <==> CanCopy(|old(Out())|, offset, len, old(Limit()))
      ensures ok ==> Valid() && Limit() == old(Limit()) && Out() == CopyFrom(old(Out()), offset, len)
      ensures fresh(Repr() - old(Repr()))
    {
      match this
      case Flat(w) => ok := w.AppendFromSelf(offset, len);
      case IOVec(w) => ok := w.AppendFromSelf(offset, len);
      case Scattered(w) => ok := w.AppendFromSelf(offset, len);
      case Validating(w) => ok := w.AppendFromSelf(offset, len);
    }

    /** Nothing produced yet, and room for `len` bytes where the writer needs it to be there. */
    ghost predicate Ready(len: nat)
      reads Repr()
    {
      match this
      case Flat(w) => w.Valid() && w.op == w.base && w.base + len <= w.buf.Length
      case IOVec(w) => w.Consistent() && w.out == [] && len <= Buffers.Start(w.iov, |w.iov|)
      case Scattered(w) => w.Valid() && w.blocks == []
      case Validating(w) => w.Valid() && w.out == []
    }

    method SetExpectedLength(len: uint32)
      requires Ready(len)
      modifies Repr()
      ensures Valid() && Out() == [] && Limit() == len && Repr() == old(Repr())
    {
      match this
      case Flat(w) => w.SetExpectedLength(len);
      case IOVec(w) => w.SetExpectedLength(len);
      case Scattered(w) => w.SetExpectedLength(len);
      case Validating(w) => w.SetExpectedLength(len);
    }

    method CheckLength() returns (ok: bool)
      requires Valid()
      ensures ok <==> |Out()| == Limit()
    {
      match this
      case Flat(w) => ok := w.CheckLength();
      case IOVec(w) => ok := w.CheckLength();
      case Scattered(w) => ok := w.CheckLength();
      case Validating(w) => ok := w.CheckLength();
    }
  }
}
