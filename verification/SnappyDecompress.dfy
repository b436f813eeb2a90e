/** `SnappyDecompressor`: tags taken from a source in arbitrary pieces, proved equal to the reference
    decoder of the whole input. */
module SnappyDecompress {
  import opened Bytes
  import opened Memory
  import opened SnappyFormat
  import opened SnappyTags
  import opened SnappySource
  import opened SnappyArrayWriter
  import opened SnappyWriter

  /** What is read of the input `s` when its first `n` bytes are shown as one region: only `n` modulo 2^32
      of them are counted as shown.  Fewer than five are moved aside at once, which does no harm; otherwise
      the region is read to its end, and then everything behind the counted bytes is read again. */
  ghost function Reread(s: seq<byte>, n: nat): (r: seq<byte>)
    requires n <= |s|
  {
    if n % TWO32 < MAXIMUM_TAG_LENGTH then s else s[..n] + s[n % TWO32..]
  }

  lemma ReadOnce(s: seq<byte>, n: nat)
    requires n <= |s| && n < TWO32
    ensures Reread(s, n) == s
  {
  }

  lemma CountedShort(region: seq<byte>, all: seq<byte>)
    requires region <= all
    ensures region == all[..|region|] && region[0..|region|] == region
    ensures region + all[|region| % TWO32..] == all <==> |region| < TWO32
  {
    assert region + all[|region|..] == all;
    if |region| >= TWO32 {
      assert |region + all[|region| % TWO32..]| > |all|;
    }
  }

  /** The first `done` bytes of `all` have been appended to `out`, and `rest` is left. */
  ghost predicate Copied(all: seq<byte>, out: seq<byte>, done: nat, rest: seq<byte>, now: seq<byte>) {
    done <= |all| && rest == all[done..] && now == out + all[..done]
  }

  lemma CopiedMore(all: seq<byte>, out: seq<byte>, done: nat, rest: seq<byte>, now: seq<byte>, k: nat)
    requires Copied(all, out, done, rest, now)
    ensures |all| == done + |rest| && |now| == |out| + done
    ensures k <= |rest| ==> Copied(all, out, done + k, rest[k..], now + rest[..k])
  {
    if k <= |rest| {
      assert all[..done] + all[done..][..k] == all[..done + k] && all[done..][k..] == all[done + k..];
    }
  }

  lemma AllCopied(all: seq<byte>, out: seq<byte>, n: nat, rest: seq<byte>, now: seq<byte>)
    requires Copied(all, out, n, rest, now)
    ensures n <= |all| && rest == all[n..] && now == out + all[..n]
  {
  }

  lemma FewInWord(n: nat)
    requires n < MAXIMUM_TAG_LENGTH
    ensures n % TWO32 == n
  {
  }

  lemma HeaderCut(s: seq<byte>)
    requires s != [] && |s| < HeaderSize(s[0])
    ensures forall w :: ParseHeader(s, w) == None
  {
  }

  /** The run has come further: less is unseen, or as much and no more is buffered. */
  ghost predicate NoLater(unseen: int, buffered: int, unseenBefore: int, bufferedBefore: int) {
    unseen < unseenBefore || (unseen == unseenBefore && buffered <= bufferedBefore)
  }

  class Decompressor {
    const reader: Source
    const scratch: array<byte>
    /** The region that `ip` and `ipLimit` index: one the source showed, or a copy of `scratch`. */
    var buf: seq<byte>
    var ip: nat
    var ipLimit: nat
    var peeked: uint32
    var eof: bool
    /** The loop that completes a tag has met a region whose length is 0 in 32 bits.  It takes nothing from
        it and does not end; the model stops there. */
    var endless: bool

    constructor (reader: Source)
      requires reader.Valid()
      ensures Valid() && this.reader == reader && !eof && !endless && ip == ipLimit
      ensures Pending() == reader.Left() && fresh(scratch)
    {
      this.reader := reader;
      scratch := new byte[MAXIMUM_TAG_LENGTH](_ => 0);
      buf, ip, ipLimit, peeked, eof, endless := [], 0, 0, 0, false, false;
    }

    /** The cursor lies in the buffer, and what is counted as peeked is there to be skipped. */
    ghost predicate Valid()
      reads this, reader
    {
      && reader.Valid() && scratch.Length == MAXIMUM_TAG_LENGTH
      && ip <= ipLimit <= |buf| && peeked <= reader.Available()
    }

    /** The input still to be read: what is buffered and what the source shows once the peeked bytes are
        skipped. */
    ghost function Pending(): seq<byte>
      requires Valid()
      reads this, reader
    {
      buf[ip..ipLimit] + reader.Left()[peeked..]
    }

    /** Bytes the source has left behind the peeked ones. */
    ghost function Unseen(): nat
      requires Valid()
      reads this, reader
    {
      reader.Available() - peeked
    }

    /** Length of the region that has to be fetched before the next tag can be read; 0 if none has to. */
    ghost function NextLength(): (n: nat)
      requires Valid()
      reads this, reader
      ensures n <= |Pending()|
    {
      if ip < ipLimit then 0 else reader.RegionLength(reader.peeks, |Pending()|)
    }

    /** The input that is read from the next tag on, up to the next region. */
    ghost function Ahead(): seq<byte>
      requires Valid()
      reads this, reader
    {
      Reread(Pending(), NextLength())
    }

    /** The next tag and its trailer are buffered, and five bytes can be read at `ip`. */
    ghost predicate TagReady()
      requires Valid()
      reads this, reader
    {
      ip + MAXIMUM_TAG_LENGTH <= |buf| && ip < ipLimit && ipLimit - ip >= HeaderSize(buf[ip])
    }

    /** Skips what was peeked and peeks again; false at the end of the source.  Nothing is lost or repeated
        if and only if the region has fewer than 2^32 bytes. */
    method NextRegion() returns (more: bool)
      requires Valid() && ip == ipLimit
      modifies this, reader
      ensures Valid() && reader.Valid() && eof == old(eof) && endless == old(endless)
      ensures more <==> old(Pending()) != []
      ensures ip == 0 && ipLimit == |buf| && (more <==> buf != [])
      ensures |buf| == old(NextLength()) && buf == old(Pending())[..|buf|] && peeked == |buf| % TWO32
      ensures reader.overlong == old(reader.overlong) + Long(|buf|)
      ensures Pending() == buf + old(Pending())[|buf| % TWO32..]
      ensures Pending() == old(Pending()) <==> |buf| < TWO32
      ensures Unseen() == old(Unseen()) - |buf| % TWO32
    {
      hide Source.Counted, Source.RegionLength;
      ghost var all := Pending();
      assert buf[ip..ipLimit] == [];
      reader.Skip(peeked);
      assert reader.Left() == all;
      var region := reader.Peek();
      CountedShort(region, all);
      peeked := |region| % TWO32;
      buf, ip, ipLimit := region, 0, |region|;
      more := |region| != 0;
    }

    /** Makes the next tag with its trailer available in one piece. */
    method RefillTag() returns (ok: bool)
      requires Valid() && !eof && !endless && ipLimit - ip < MAXIMUM_TAG_LENGTH
      modifies this, reader, scratch
      ensures ok ==> Valid() && !eof && !endless && Pending() == old(Ahead()) && TagReady()
      ensures ok ==> NoLater(Unseen(), ipLimit - ip, old(Unseen()), old(ipLimit - ip))
      ensures !ok ==> eof == (old(Pending()) == [])
      ensures !ok && !eof && !endless ==> old(Ahead()) != [] && forall w :: ParseHeader(old(Ahead()), w) == None
      ensures reader.Valid()
      ensures reader.overlong >= old(reader.overlong + Long(NextLength())) + (if endless then 1 else 0)
    {
      hide HeaderSize, CharTable, ParseHeader, Kept, Source.Counted;
      if ip == ipLimit {
        ghost var all := Pending();
        var more := NextRegion();
        eof := !more;
        if eof {
          return false;
        }
        Fetched(all);
      } else {
        FirstPending();
        FewAreKept();
      }
      ok := CompleteTag();
    }

    /** What completing the tag keeps of the input: a truncated count of the buffered bytes below five
        sends the rest of them back to the source. */
    ghost function Kept(): seq<byte>
      requires Valid()
      reads this, reader
    {
      var nbuf := (ipLimit - ip) % TWO32;
      if nbuf < MAXIMUM_TAG_LENGTH then buf[ip..ip + nbuf] + reader.Left()[peeked..] else Pending()
    }

    lemma Fetched(all: seq<byte>)
      requires Valid() && ip == 0 < ipLimit == |buf| <= |all| && buf == all[..|buf|] && peeked == |buf| % TWO32
      requires Pending() == buf + all[|buf| % TWO32..]
      ensures Kept() == Reread(all, |buf|) && Kept() != [] && Kept()[0] == buf[ip]
    {
      hide Source.Counted;
      var p := |buf| % TWO32;
      assert buf[ip..ipLimit] == buf;
      assert reader.Left()[peeked..] == Pending()[|buf|..] == all[p..];
      if p < MAXIMUM_TAG_LENGTH {
        assert buf[..p] == all[..p];
        assert all[..p] + all[p..] == all;
      }
    }

    /** The same with the tag itself already buffered. */
    method CompleteTag() returns (ok: bool)
      requires Valid() && !eof && !endless && ip < ipLimit
      requires Kept() != [] && Kept()[0] == buf[ip]
      modifies this, reader, scratch
      ensures !eof && (ok ==> Valid() && !endless && Pending() == old(Kept()) && TagReady())
      ensures ok ==> Unseen() <= old(Unseen()) && (Unseen() == old(Unseen()) ==> ipLimit - ip <= old(ipLimit - ip))
      ensures ok && (old(ipLimit - ip)) % TWO32 == 0 ==> Unseen() < old(Unseen())
      ensures !ok && !endless ==> forall w :: ParseHeader(old(Kept()), w) == None
      ensures reader.Valid() && reader.overlong >= old(reader.overlong) + (if endless then 1 else 0)
    {
      hide HeaderSize, CharTable, ParseHeader, Kept, Pending, Source.Counted;
      var entry := CharTable(buf[ip]);
      TableMatchesFormat(buf[ip]);
      var needed := EntryTrailer(entry) + 1;
      var nbuf := (ipLimit - ip) % TWO32;
      if nbuf < needed {
        ok := Stitch(nbuf, needed);
        if !ok && !endless {
          HeaderCut(old(Kept()));
        }
      } else if nbuf < MAXIMUM_TAG_LENGTH {
        MoveToScratch(nbuf);
        return true;
      } else {
        ManyAreKept();
        return true;
      }
    }

    lemma ManyAreKept()
      requires Valid() && (ipLimit - ip) % TWO32 >= MAXIMUM_TAG_LENGTH
      ensures Kept() == Pending()
    {
    }

    lemma FirstPending()
      requires Valid() && ip < ipLimit
      ensures Pending() != [] && Pending()[0] == buf[ip]
    {
      hide Source.Counted;
    }

    lemma FewAreKept()
      requires Valid() && ip < ipLimit && ipLimit - ip < MAXIMUM_TAG_LENGTH
      ensures Kept() == Pending()
    {
      hide Source.Counted, Pending;
      FewInWord(ipLimit - ip);
      assert Pending() == buf[ip..ipLimit] + reader.Left()[peeked..] by { PendingIs(); }
    }

    lemma PendingIs()
      requires Valid()
      ensures Pending() == buf[ip..ipLimit] + reader.Left()[peeked..]
    {
    }

    /** Moves `nbuf` buffered bytes, fewer than five, to the scratch buffer, so that five can be read. */
    method MoveToScratch(nbuf: nat)
      requires Valid() && nbuf < MAXIMUM_TAG_LENGTH && ip + nbuf <= ipLimit && nbuf == (ipLimit - ip) % TWO32
      modifies this, reader, scratch
      ensures Valid() && eof == old(eof) && endless == old(endless) && Pending() == old(Kept())
      ensures ip == 0 && peeked == 0 && |buf| == MAXIMUM_TAG_LENGTH && ipLimit == nbuf
      ensures nbuf > 0 ==> buf[0] == old(buf[ip])
      ensures Unseen() == old(Unseen()) && reader.overlong == old(reader.overlong)
      ensures scratch[..] == buf && scratch[..nbuf] + reader.Left() == old(Kept())
    {
      hide Source.Counted, Source.RegionLength, Pending, Kept;
      ghost var front := buf[ip..ip + nbuf];
      CountedFew(nbuf);
      Memcpy(scratch, 0, buf[ip..ip + nbuf]);
      reader.Skip(peeked);
      peeked := 0;
      buf, ip, ipLimit := scratch[..], 0, nbuf;
      assert scratch[..nbuf] == front;
      StitchedIsPending();
    }

    lemma CountedFew(nbuf: nat)
      requires Valid() && nbuf == (ipLimit - ip) % TWO32 < MAXIMUM_TAG_LENGTH && ip + nbuf <= ipLimit
      ensures Kept() == buf[ip..ip + nbuf] + reader.Left()[peeked..]
    {
    }

    /** Collects the `needed` bytes of a tag from the end of one region and as many more as it takes. */
    method Stitch(have: nat, needed: nat) returns (ok: bool)
      requires Valid() && !eof && !endless
      requires ip < ipLimit && have == (ipLimit - ip) % TWO32 && ip + have <= ipLimit
      requires have < needed == HeaderSize(buf[ip]) && Kept() != [] && Kept()[0] == buf[ip]
      modifies this, reader, scratch
      ensures ok ==> Valid() && !endless && Pending() == old(Kept()) && TagReady() && Unseen() < old(Unseen())
      ensures !eof && (!ok && !endless ==> |old(Kept())| < needed)
      ensures reader.Valid() && reader.overlong >= old(reader.overlong) + (if endless then 1 else 0)
    {
      hide HeaderSize, Source.Valid, Kept, Pending;
      ghost var all := Kept();
      MoveToScratch(have);
      ok := FillScratch(have, needed);
      if ok {
        buf, ip, ipLimit := scratch[..], 0, needed;
        StitchedIsPending();
        assert all[0] == scratch[..needed][0];
      }
    }

    lemma StitchedIsPending()
      requires Valid() && peeked == 0 && ip == 0 && ipLimit <= scratch.Length && buf == scratch[..]
      ensures Pending() == scratch[..ipLimit] + reader.Left()
    {
      assert reader.Left()[0..] == reader.Left() && buf[0..ipLimit] == scratch[..ipLimit];
    }

    /** The loop: each turn takes what is missing from one region. */
    method FillScratch(have: nat, needed: nat) returns (ok: bool)
      requires reader.Valid() && peeked == 0 && !eof && !endless
      requires have < needed <= scratch.Length == MAXIMUM_TAG_LENGTH
      modifies this`endless, reader, scratch
      ensures reader.Valid()
      ensures ok ==> !endless && scratch[..needed] + reader.Left() == old(scratch[..have] + reader.Left())
      ensures !ok && !endless ==> have + |old(reader.Left())| < needed
      ensures old(reader.Left()) != [] && old(reader.RegionLength(reader.peeks, reader.Available())) % TWO32 == 0 ==>
        endless
      ensures reader.overlong >= old(reader.overlong) + (if endless then 1 else 0)
    {
      hide Source.Counted, Source.RegionLength;
      ghost var first := reader.RegionLength(reader.peeks, reader.Available());
      ghost var all := scratch[..have] + reader.Left();
      var nbuf := have;
      while nbuf < needed
        invariant reader.Valid() && !endless && have <= nbuf <= needed && scratch[..nbuf] + reader.Left() == all
        invariant reader.overlong >= old(reader.overlong)
        invariant first > 0 && first % TWO32 == 0 ==>
          nbuf == have && reader.peeks == old(reader.peeks) && reader.pos == old(reader.pos)
      {
        var region := reader.Peek();
        if |region| == 0 {
          return false;
        }
        var toAdd := if needed - nbuf < |region| % TWO32 then needed - nbuf else |region| % TWO32;
        if toAdd == 0 {
          endless := true;
          return false;
        }
        ExtendScratch(nbuf, region, toAdd);
        nbuf := nbuf + toAdd;
      }
      return true;
    }

    /** Copies the first `n` bytes of the region behind the `at` bytes in the scratch buffer. */
    method ExtendScratch(at: nat, region: seq<byte>, n: nat)
      requires reader.Valid() && region <= reader.Left() && n <= |region| && at + n <= scratch.Length
      modifies reader`pos, scratch
      ensures reader.Valid() && scratch[..at + n] + reader.Left() == old(scratch[..at] + reader.Left())
    {
      Memcpy(scratch, at, region[..n]);
      reader.Skip(n);
      assert scratch[..at + n] == old(scratch[..at]) + region[..n];
      assert old(reader.Left()) == region[..n] + reader.Left();
    }

    /** The decompressor's own state is not the writer's. */
    ghost predicate Apart(writer: Writer)
      reads writer.Repr()
    {
      {this, reader, scratch} !! writer.Repr()
    }

    /** Gives the writer the next `k` buffered bytes. */
    method AppendBuffered(writer: Writer, k: nat) returns (ok: bool)
      requires Valid() && writer.Valid() && Apart(writer) && ip + k <= ipLimit
      modifies this`ip, writer.Repr()
      ensures reader.Valid() && fresh(writer.Repr() - old(writer.Repr()))
      ensures ok <==> |old(writer.Out())| + k <= old(writer.Limit())
      ensures ok ==> Valid() && writer.Valid() && Apart(writer) && writer.Limit() == old(writer.Limit())
      ensures ok ==> ip == old(ip) + k && ipLimit == old(ipLimit) && k <= |old(Pending())|
      ensures ok ==> Pending() == old(Pending())[k..] && Unseen() == old(Unseen())
      ensures ok ==> writer.Out() == old(writer.Out()) + old(Pending())[..k]
    {
      hide Writer.Valid, Writer.Out, Writer.Limit, Writer.Repr;
      ghost var front, rest := buf[ip..ip + k], buf[ip + k..ipLimit] + reader.Left()[peeked..];
      assert buf[ip..ipLimit] == front + buf[ip + k..ipLimit];
      assert Pending() == front + rest;
      ok := writer.Append(buf[ip..ip + k]);
      if ok {
        ip := ip + k;
      }
    }

    /** Gives the writer the rest of the region and goes on to the next one. */
    method AppendRegion(writer: Writer, avail: nat) returns (ok: bool)
      requires Valid() && !eof && !endless && writer.Valid() && Apart(writer) && avail == ipLimit - ip
      modifies this, reader, writer.Repr()
      ensures !eof && !endless && fresh(writer.Repr() - old(writer.Repr())) && avail <= |old(Pending())|
      ensures ok <==> avail < |old(Pending())| && |old(writer.Out())| + avail <= old(writer.Limit())
      ensures ok ==> Valid() && writer.Valid() && Apart(writer) && writer.Limit() == old(writer.Limit())
      ensures ok ==> ip < ipLimit && Unseen() <= old(Unseen())
      ensures reader.Valid() && reader.overlong >= old(reader.overlong)
      ensures ok && reader.overlong == old(reader.overlong) ==> Pending() == old(Pending())[avail..]
      ensures ok ==> writer.Out() == old(writer.Out()) + old(Pending())[..avail]
    {
      hide Pending, Unseen, Valid, Writer.Valid, Writer.Out, Writer.Limit, Source.Valid;
      BufferedIsPending();
      ok := AppendBuffered(writer, avail);
      if ok {
        ok := NextRegion();
      }
    }

    /** Appends a literal of `n` bytes, region by region; false when the writer refuses or the input ends. */
    method CopyLiteral(writer: Writer, n: nat) returns (ok: bool)
      requires Valid() && !eof && !endless && writer.Valid() && Apart(writer)
      modifies this, reader, writer.Repr()
      ensures !eof && !endless && fresh(writer.Repr() - old(writer.Repr()))
      ensures reader.Valid() && reader.overlong >= old(reader.overlong)
      ensures ok ==> Valid() && writer.Valid() && Apart(writer) && writer.Limit() == old(writer.Limit())
      ensures ok ==> |writer.Out()| == |old(writer.Out())| + n <= writer.Limit() && Unseen() <= old(Unseen())
      ensures ok && n == 0 ==> ipLimit - ip == old(ipLimit - ip)
      ensures reader.overlong == old(reader.overlong) ==>
        && (ok <==> n <= |old(Pending())| && |old(writer.Out())| + n <= old(writer.Limit()))
        && (ok ==> Pending() == old(Pending())[n..] && writer.Out() == old(writer.Out()) + old(Pending())[..n])
    {
      hide Pending, Unseen, Valid, Writer.Valid, Writer.Out, Writer.Limit, Source.Valid, Copied;
      ghost var all, done, out := Pending(), 0, writer.Out();
      BufferedIsPending();
      NothingCopied(writer);
      var left := n;
      while ipLimit - ip < left
        invariant Valid() && !eof && !endless && writer.Valid() && Apart(writer)
        invariant fresh(writer.Repr() - old(writer.Repr())) && reader.Valid() && reader.overlong >= old(reader.overlong)
        invariant 0 <= done && done + left == n && 0 <= left && ip <= ipLimit && Unseen() <= old(Unseen())
        invariant n == 0 ==> ipLimit - ip == old(ipLimit - ip)
        invariant writer.Limit() == old(writer.Limit()) && |writer.Out()| == |out| + done
        invariant reader.overlong == old(reader.overlong) ==> Copied(all, out, done, Pending(), writer.Out())
        decreases left, if ip == ipLimit then 1 else 0
      {
        BufferedIsPending();
        var avail := ipLimit - ip;
        ghost var rest, now := Pending(), writer.Out();
        ok := AppendRegion(writer, avail);
        if reader.overlong == old(reader.overlong) {
          CopiedMore(all, out, done, rest, now, avail);
        }
        if !ok {
          return false;
        }
        left, done := left - avail, done + avail;
      }
      BufferedIsPending();
      ghost var rest, now := Pending(), writer.Out();
      ok := AppendBuffered(writer, left);
      if reader.overlong == old(reader.overlong) {
        CopiedMore(all, out, done, rest, now, left);
        AllCopied(all, out, n, rest[left..], now + rest[..left]);
      }
    }

    lemma NothingCopied(writer: Writer)
      requires Valid() && writer.Valid()
      ensures Copied(Pending(), writer.Out(), 0, Pending(), writer.Out())
    {
    }

    lemma BufferedIsPending()
      requires Valid()
      ensures 0 <= ipLimit - ip <= |Pending()| && reader.Valid()
    {
    }

    /** Reading a tag and its trailer off the buffer, by table and masked load, is parsing the header of
        the pending input. */
    lemma HeaderInBuffer()
      requires Valid() && TagReady()
      ensures Pending() != [] && ParseHeader(Pending(), Bits32) == Some(BufferedHeader(buf, ip))
      ensures ip + BufferedHeader(buf, ip).size <= ipLimit
    {
      hide ParseHeader, BufferedHeader, HeaderSize;
      var size := HeaderSize(buf[ip]);
      FirstPending();
      BufferedFront();
      assert buf[ip..ipLimit][..size] == buf[ip..ip + size] == Pending()[..size];
      HeaderOfFront(buf, ip, size);
      HeaderOfPrefix(buf[ip..ip + size], Pending()[size..], Bits32);
      assert Pending() == buf[ip..ip + size] + Pending()[size..];
    }

    /** One element.  `fast` says that no refill is due. */
    method ProcessTag(writer: Writer) returns (ok: bool, fast: bool)
      requires Valid() && !eof && !endless && TagReady() && writer.Valid() && Apart(writer)
      modifies this, reader, writer.Repr()
      ensures !eof && !endless && fresh(writer.Repr() - old(writer.Repr()))
      ensures ok ==> Valid() && writer.Valid() && Apart(writer) && writer.Limit() == old(writer.Limit())
      ensures ok ==> |old(writer.Out())| <= |writer.Out()| && Unseen() <= old(Unseen())
      ensures ok && |writer.Out()| > |old(writer.Out())| ==> |writer.Out()| <= writer.Limit()
      ensures ok && |writer.Out()| == |old(writer.Out())| ==> ipLimit - ip < old(ipLimit - ip)
      ensures fast ==> ipLimit - ip >= MAXIMUM_TAG_LENGTH
      ensures reader.Valid() && reader.overlong >= old(reader.overlong)
      ensures reader.overlong == old(reader.overlong) ==>
        && (ok ==> Decode(old(Pending()), old(writer.Out()), Bits32) == Decode(Pending(), writer.Out(), Bits32))
        && (!ok ==> Rejects(old(Pending()), old(writer.Out()), old(writer.Limit())))
    {
      hide ParseHeader, BufferedHeader, Decode, Unseen, Source.Valid, Pending, Valid, Writer.Valid, Writer.Out;
      hide Writer.Limit, Rejects;
      HeaderInBuffer();
      FirstPending();
      ghost var all := Pending();
      var c := buf[ip];
      Consume(1);
      if c % 4 == 0 {
        ok, fast := ProcessLiteral(writer, c, all);
      } else {
        ok := ProcessCopy(writer, c, all);
        fast := false;
      }
    }

    /** The element behind a literal tag. */
    method ProcessLiteral(writer: Writer, c: byte, ghost all: seq<byte>) returns (ok: bool, fast: bool)
      requires Valid() && !eof && !endless && writer.Valid() && Apart(writer) && c % 4 == 0
      requires BehindTag(c, all)
      modifies this, reader, writer.Repr()
      ensures !eof && !endless && fresh(writer.Repr() - old(writer.Repr()))
      ensures ok ==> Valid() && writer.Valid() && Apart(writer) && writer.Limit() == old(writer.Limit())
      ensures ok ==> |old(writer.Out())| <= |writer.Out()| && Unseen() <= old(Unseen())
      ensures ok && |writer.Out()| > |old(writer.Out())| ==> |writer.Out()| <= writer.Limit()
      ensures ok && |writer.Out()| == |old(writer.Out())| ==> ipLimit - ip <= old(ipLimit - ip)
      ensures fast ==> ipLimit - ip >= MAXIMUM_TAG_LENGTH
      ensures reader.Valid() && reader.overlong >= old(reader.overlong)
      ensures reader.overlong == old(reader.overlong) ==>
        && (ok ==> Decode(all, old(writer.Out()), Bits32) == Decode(Pending(), writer.Out(), Bits32))
        && (!ok ==> Rejects(all, old(writer.Out()), old(writer.Limit())))
    {
      hide ParseHeader, Decode, Pending, Valid, Le, Load32, Writer.Valid, Writer.Out, Writer.Limit, Rejects;
      hide BehindTag;
      LiteralBehindTag(c, all);
      var literalLength := c / 4 + 1;
      BufferedFront();
      ghost var out, limit := writer.Out(), writer.Limit();
      ok := writer.TryFastAppend(buf[ip..ipLimit], literalLength);
      if ok {
        assert buf[ip..ipLimit][..literalLength] == Pending()[..literalLength];
        Consume(literalLength);
        LiteralVerdict(all, out, 1, literalLength, limit);
        return true, true;
      }
      ok := ProcessSlowLiteral(writer, literalLength, all);
      fast := false;
    }

    /** The literal once the fast path declined: a long one has its length in the trailer. */
    method ProcessSlowLiteral(writer: Writer, shortLength: nat, ghost all: seq<byte>) returns (ok: bool)
      requires Valid() && !eof && !endless && writer.Valid() && Apart(writer)
      requires LiteralAhead(shortLength, all)
      modifies this, reader, writer.Repr()
      ensures !eof && !endless && fresh(writer.Repr() - old(writer.Repr()))
      ensures ok ==> Valid() && writer.Valid() && Apart(writer) && writer.Limit() == old(writer.Limit())
      ensures ok ==> |old(writer.Out())| <= |writer.Out()| && Unseen() <= old(Unseen())
      ensures ok && |writer.Out()| > |old(writer.Out())| ==> |writer.Out()| <= writer.Limit()
      ensures ok && |writer.Out()| == |old(writer.Out())| ==> ipLimit - ip <= old(ipLimit - ip)
      ensures reader.Valid() && reader.overlong >= old(reader.overlong)
      ensures reader.overlong == old(reader.overlong) ==>
        && (ok ==> Decode(all, old(writer.Out()), Bits32) == Decode(Pending(), writer.Out(), Bits32))
        && (!ok ==> Rejects(all, old(writer.Out()), old(writer.Limit())))
    {
      hide ParseHeader, Decode, Pending, Valid, Le, Load32, Writer.Valid, Writer.Out, Writer.Limit, Rejects;
      ghost var out, limit, size := writer.Out(), writer.Limit(), 1;
      var literalLength := shortLength;
      if literalLength >= 61 {
        var literalLengthLength := literalLength - 60;
        literalLength := (Load32(buf, ip) % Pow256(literalLengthLength) + 1) % TWO32;
        Consume(literalLengthLength);
        size := 1 + literalLengthLength;
        assert all[1..][literalLengthLength..] == all[size..];
      }
      LiteralVerdict(all, out, size, literalLength, limit);
      ok := CopyLiteral(writer, literalLength);
    }

    /** Behind the tag of a literal: its length is `n`, or stands in the `n - 60` bytes ahead. */
    ghost predicate LiteralAhead(n: nat, all: seq<byte>)
      requires Valid()
      reads this, reader
    {
      && 0 < n <= 64 && all != [] && Pending() == all[1..]
      && (n < 61 ==> ParseHeader(all, Bits32) == Some(Header(1, Literal(n))))
      && (n >= 61 ==>
        && ip + 4 <= |buf| && ip + (n - 60) <= ipLimit
        && ParseHeader(all, Bits32) == Some(Header(n - 59, Literal((Load32(buf, ip) % Pow256(n - 60) + 1) % TWO32))))
    }

    lemma LiteralBehindTag(c: byte, all: seq<byte>)
      requires Valid() && c % 4 == 0 && BehindTag(c, all)
      ensures LiteralAhead(c / 4 + 1, all)
    {
    }

    /** The element behind a copy tag. */
    method ProcessCopy(writer: Writer, c: byte, ghost all: seq<byte>) returns (ok: bool)
      requires Valid() && !eof && writer.Valid() && Apart(writer) && c % 4 != 0 && BehindTag(c, all)
      modifies this`ip, writer.Repr()
      ensures fresh(writer.Repr() - old(writer.Repr()))
      ensures ok ==> Valid() && writer.Valid() && Apart(writer) && writer.Limit() == old(writer.Limit())
      ensures ok ==> |old(writer.Out())| <= |writer.Out()| && Unseen() == old(Unseen())
      ensures ok && |writer.Out()| > |old(writer.Out())| ==> |writer.Out()| <= writer.Limit()
      ensures ok ==> ipLimit - ip <= old(ipLimit - ip)
      ensures ok ==> Decode(all, old(writer.Out()), Bits32) == Decode(Pending(), writer.Out(), Bits32)
      ensures !ok ==> Rejects(all, old(writer.Out()), old(writer.Limit()))
    {
      hide ParseHeader, Decode, CopyFrom, Pending, Valid, CharTable, Le, Load32;
      hide Writer.Valid, Writer.Out, Writer.Limit, Rejects;
      TableMatchesFormat(c);
      ghost var out, limit := writer.Out(), writer.Limit();
      var entry := CharTable(c);
      var trailer := Load32(buf, ip) % Pow256(EntryTrailer(entry));
      var length := EntryLength(entry);
      Consume(EntryTrailer(entry));
      var copyOffset := EntryOffset(entry);
      assert all[1..][EntryTrailer(entry)..] == all[1 + EntryTrailer(entry)..];
      CopyVerdict(all, out, 1 + EntryTrailer(entry), copyOffset + trailer, length, limit);
      ok := writer.AppendFromSelf(copyOffset + trailer, length);
    }

    /** The tag `c` of the input `all` has been read, and nothing behind it. */
    ghost predicate BehindTag(c: byte, all: seq<byte>)
      requires Valid()
      reads this, reader
    {
      && ip > 0 && ip + 4 <= |buf| && buf[ip - 1] == c
      && all != [] && Pending() == all[1..]
      && ParseHeader(all, Bits32) == Some(BufferedHeader(buf, ip - 1))
      && ip + BufferedHeader(buf, ip - 1).size <= ipLimit + 1
    }

    /** Moves over `n` buffered bytes. */
    method Consume(n: nat)
      requires Valid() && ip + n <= ipLimit
      modifies this`ip
      ensures Valid() && ip == old(ip) + n && n <= |old(Pending())| && Pending() == old(Pending())[n..]
      ensures Unseen() == old(Unseen())
    {
      assert buf[ip..ipLimit] == buf[ip..ip + n] + buf[ip + n..ipLimit];
      ip := ip + n;
    }

    lemma BufferedFront()
      requires Valid()
      ensures ip <= ipLimit <= |buf| && ipLimit - ip <= |Pending()| && buf[ip..ipLimit] == Pending()[..ipLimit - ip]
    {
    }

    /** Refills when fewer bytes are buffered than a tag can take. */
    method MaybeRefill() returns (ok: bool)
      requires Valid() && !eof && !endless
      modifies this, reader, scratch
      ensures ok ==> Valid() && !eof && !endless && Pending() == old(Ahead()) && TagReady()
      ensures ok ==> NoLater(Unseen(), ipLimit - ip, old(Unseen()), old(ipLimit - ip))
      ensures !ok ==> eof == (old(Pending()) == [])
      ensures !ok && !eof && !endless ==> old(Ahead()) != [] && forall w :: ParseHeader(old(Ahead()), w) == None
      ensures reader.Valid()
      ensures reader.overlong >= old(reader.overlong + Long(NextLength())) + (if endless then 1 else 0)
    {
      if ipLimit - ip < MAXIMUM_TAG_LENGTH {
        ok := RefillTag();
      } else {
        ok := true;
      }
    }

    /** All elements to the end of the input.  Afterwards `eof` tells whether the input was used up
        without an error, and then the writer holds what the reference decoder produces.  The input is what
        the source holds, unless regions of 2^32 bytes or more were shown: with none but the first of that
        length it is what `Ahead` says of it.  The loop ends whatever the source shows. */
    method DecompressAllTags(writer: Writer)
      requires Valid() && !eof && !endless && writer.Valid() && Apart(writer)
      modifies this, reader, scratch, writer.Repr()
      ensures fresh(writer.Repr() - old(writer.Repr()))
      ensures eof ==> writer.Valid() && writer.Limit() == old(writer.Limit())
      ensures reader.Valid() && reader.overlong >= old(reader.overlong + Long(NextLength()))
      ensures reader.overlong == old(reader.overlong + Long(NextLength())) ==>
        && !endless
        && (eof ==> Decode(old(Ahead()), old(writer.Out()), Bits32) == Some(writer.Out()))
        && (!eof ==> Rejects(old(Ahead()), old(writer.Out()), old(writer.Limit())))
    {
      hide ParseHeader, HeaderSize, Decode, Pending, Ahead, NextLength, Unseen, Valid, Source.Valid;
      hide Writer.Valid, Writer.Out, Writer.Limit, Rejects, TagReady;
      ghost var s, out, limit := Ahead(), writer.Out(), writer.Limit();
      ghost var base := reader.overlong + Long(NextLength());
      AheadIsPending();
      var more := MaybeRefill();
      if !more && reader.overlong == base {
        EndOfTags(s, out, eof, limit);
      }
      while more
        invariant fresh(writer.Repr() - old(writer.Repr())) && Apart(writer)
        invariant (more || eof) ==> writer.Valid() && writer.Limit() == limit
        invariant more ==> Valid() && !eof && !endless && TagReady() && ip <= ipLimit
        invariant reader.Valid() && reader.overlong >= base + (if endless then 1 else 0)
        invariant reader.overlong == base && more ==> Decode(s, out, Bits32) == Decode(Pending(), writer.Out(), Bits32)
        invariant reader.overlong == base && !more && eof ==> Decode(s, out, Bits32) == Some(writer.Out())
        invariant reader.overlong == base && !more && !eof ==> Rejects(s, out, limit)
        decreases more, if more then Unseen() else 0, if more then limit - |writer.Out()| else 0,
                  if more then ipLimit - ip else 0
      {
        ghost var s', out' := Pending(), writer.Out();
        more := OneTag(writer);
        if reader.overlong == base {
          RejectsAlike(s, out, s', out', limit);
        }
      }
    }

    /** One turn of the loop: an element, and the next tag made available. */
    method OneTag(writer: Writer) returns (more: bool)
      requires Valid() && !eof && !endless && TagReady() && writer.Valid() && Apart(writer)
      modifies this, reader, scratch, writer.Repr()
      ensures fresh(writer.Repr() - old(writer.Repr())) && Apart(writer)
      ensures (more || eof) ==> writer.Valid() && writer.Limit() == old(writer.Limit())
      ensures more ==> Valid() && !eof && !endless && TagReady() && ip <= ipLimit
      ensures more ==> Unseen() <= old(Unseen()) && |writer.Out()| >= |old(writer.Out())|
      ensures more && Unseen() == old(Unseen()) ==>
        (if |writer.Out()| == |old(writer.Out())| then ipLimit - ip < old(ipLimit - ip)
         else |writer.Out()| <= writer.Limit())
      ensures reader.Valid() && reader.overlong >= old(reader.overlong) + (if endless then 1 else 0)
      ensures reader.overlong == old(reader.overlong) && more ==>
        Decode(old(Pending()), old(writer.Out()), Bits32) == Decode(Pending(), writer.Out(), Bits32)
      ensures reader.overlong == old(reader.overlong) && !more && eof ==>
        Decode(old(Pending()), old(writer.Out()), Bits32) == Some(writer.Out())
      ensures reader.overlong == old(reader.overlong) && !more && !eof ==>
        Rejects(old(Pending()), old(writer.Out()), old(writer.Limit()))
    {
      hide ParseHeader, HeaderSize, Decode, Pending, Ahead, NextLength, Unseen, Valid, Source.Valid;
      hide Writer.Valid, Writer.Out, Writer.Limit, Rejects, TagReady;
      ghost var s, out, limit := Pending(), writer.Out(), writer.Limit();
      var fast;
      more, fast := ProcessTag(writer);
      if more && !fast {
        ghost var rest, now := Pending(), writer.Out();
        AheadIsPending();
        more := MaybeRefill();
        if !more && reader.overlong == old(reader.overlong) {
          EndOfTags(rest, now, eof, limit);
          RejectsAlike(s, out, rest, now, limit);
        }
      } else if more {
        FastIsReady();
      }
    }

    lemma AheadIsPending()
      requires Valid()
      ensures NextLength() < TWO32 ==> Ahead() == Pending()
      ensures Ahead() == [] <==> Pending() == []
    {
    }

    lemma FastIsReady()
      requires Valid() && ipLimit - ip >= MAXIMUM_TAG_LENGTH
      ensures TagReady()
    {
    }
  }

  /** No continuation of this output by this input fits the limit. */
  ghost predicate Rejects(s: seq<byte>, out: seq<byte>, limit: nat) {
    var r := Decode(s, out, Bits32); r == None || |r.value| > limit
  }

  /** The header that stands at `p`, as the decompressor reads it: five bytes are readable there. */
  ghost function BufferedHeader(buf: seq<byte>, p: nat): (h: Header)
    requires p + MAXIMUM_TAG_LENGTH <= |buf|
  {
    var c := buf[p];
    if c % 4 == 0 then
      if c / 4 + 1 < 61 then Header(1, Literal(c / 4 + 1))
      else Header(c / 4 - 58, Literal((Load32(buf, p + 1) % Pow256(c / 4 - 59) + 1) % TWO32))
    else
      TableMatchesFormat(c);
      var entry := CharTable(c);
      Header(1 + EntryTrailer(entry),
             Copy(EntryOffset(entry) + Load32(buf, p + 1) % Pow256(EntryTrailer(entry)), EntryLength(entry)))
  }

  lemma HeaderOfFront(buf: seq<byte>, p: nat, size: nat)
    requires p + MAXIMUM_TAG_LENGTH <= |buf| && size == HeaderSize(buf[p])
    ensures ParseHeader(buf[p..p + size], Bits32) == Some(BufferedHeader(buf, p)) && BufferedHeader(buf, p).size == size
  {
    hide CharTable, Le, Load32;
    TableMatchesFormat(buf[p]);
    MaskedLoad(buf, p + 1, size - 1);
    LeOfSlice(buf, p, size);
    var enc := buf[p..p + size];
    assert enc[0] == buf[p];
    if enc[0] % 4 == 1 {
      assert Le(enc, 1, 1) == enc[1] by { LeOne(enc, 1); }
    }
  }

  lemma LeOne(s: seq<byte>, p: nat)
    requires p < |s|
    ensures Le(s, p, 1) == s[p]
  {
  }

  lemma LeOfSlice(s: seq<byte>, p: nat, size: nat)
    requires 1 <= size <= 5 && p + size <= |s|
    ensures Le(s[p..p + size], 1, size - 1) == Le(s, p + 1, size - 1)
  {
  }

  lemma LiteralStep(s: seq<byte>, out: seq<byte>, size: nat, len: nat)
    requires s != [] && ParseHeader(s, Bits32) == Some(Header(size, Literal(len))) && |s| >= size + len
    ensures Decode(s, out, Bits32) == Decode(s[size..][len..], out + s[size..][..len], Bits32)
  {
    hide ParseHeader;
    assert s[size..][len..] == s[size + len..] && s[size..][..len] == s[size..size + len];
  }

  /** What becomes of a literal, decided by the input and the limit alone. */
  lemma LiteralVerdict(s: seq<byte>, out: seq<byte>, size: nat, len: nat, limit: nat)
    requires s != [] && ParseHeader(s, Bits32) == Some(Header(size, Literal(len))) && size <= |s|
    ensures |s[size..]| >= len ==> Decode(s, out, Bits32) == Decode(s[size..][len..], out + s[size..][..len], Bits32)
    ensures |s[size..]| < len || |out| + len > limit ==> Rejects(s, out, limit)
  {
    hide ParseHeader;
    if |s| >= size + len {
      LiteralStep(s, out, size, len);
      DecodeExtends(s[size..][len..], out + s[size..][..len], Bits32);
    }
  }

  /** What becomes of a copy. */
  lemma CopyVerdict(s: seq<byte>, out: seq<byte>, size: nat, offset: nat, len: nat, limit: nat)
    requires s != [] && ParseHeader(s, Bits32) == Some(Header(size, Copy(offset, len))) && size <= |s|
    ensures 0 < offset <= |out| ==> Decode(s, out, Bits32) == Decode(s[size..], CopyFrom(out, offset, len), Bits32)
    ensures !CanCopy(|out|, offset, len, limit) ==> Rejects(s, out, limit)
  {
    hide ParseHeader, CopyFrom;
    if 0 < offset <= |out| {
      DecodeExtends(s[size..], CopyFrom(out, offset, len), Bits32);
    }
  }

  lemma RejectsAlike(s: seq<byte>, out: seq<byte>, s': seq<byte>, out': seq<byte>, limit: nat)
    requires Decode(s, out, Bits32) == Decode(s', out', Bits32)
    ensures Rejects(s, out, limit) == Rejects(s', out', limit)
  {
  }

  /** No further tag: the input is either used up or cut short inside a header. */
  lemma EndOfTags(s: seq<byte>, out: seq<byte>, eof: bool, limit: nat)
    requires eof == (s == []) && (!eof ==> ParseHeader(s, Bits32) == None)
    ensures eof ==> Decode(s, out, Bits32) == Some(out)
    ensures !eof ==> Rejects(s, out, limit)
  {
    hide ParseHeader;
  }
}
