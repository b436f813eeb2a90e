/** The writer into a list of buffers. */
module SnappyIOVecWriter {
  import opened Bytes
  import opened Buffers
  import opened Memory
  import opened SnappyFormat
  import opened SnappyCopy
  import opened SnappyArrayWriter

  class IOVecWriter {
    const iov: seq<array<byte>>
    var curr: nat
    var currWritten: nat
    var totalWritten: nat
    var outputLimit: nat
    ghost var out: seq<byte>

    constructor (iov: seq<array<byte>>)
      requires |iov| >= 1 && Distinct(iov)
      ensures Consistent() && this.iov == iov && out == []
    {
      this.iov, curr, currWritten, totalWritten, outputLimit, out := iov, 0, 0, 0, SIZE_MAX, [];
    }

    /** The cursor fields agree, and the buffers hold `out` up to the cursor. */
    ghost predicate Consistent()
      reads this, iov
    {
      && |iov| >= 1 && Distinct(iov)
      && curr < |iov| && currWritten <= iov[curr].Length
      && totalWritten == |out| == Start(iov, curr) + currWritten
      && Holds(curr, currWritten, out)
    }

    ghost predicate Holds(i: nat, written: nat, s: seq<byte>)
      requires i < |iov| && written <= iov[i].Length
      reads iov
    {
      s == Concatenated(iov, i) + iov[i][..written]
    }

    /** The total size of the buffers suffices for the expected length. */
    ghost predicate Valid()
      reads this, iov
    {
      Consistent() && |out| <= outputLimit < TWO32 && outputLimit <= Start(iov, |iov|)
    }

    method SetExpectedLength(len: uint32)
      requires Consistent() && out == [] && len <= Start(iov, |iov|)
      modifies this`outputLimit
      ensures Valid() && outputLimit == len
    {
      outputLimit := len;
    }

    method CheckLength() returns (ok: bool)
      requires Valid()
      ensures ok <==> |out| == outputLimit
    {
      ok := totalWritten == outputLimit;
    }

    /** Moves the cursor over `n` bytes already in place. */
    method Advance(n: nat)
      requires Valid() && currWritten + n <= iov[curr].Length && |out| + n <= outputLimit
      modifies this
      ensures Valid() && outputLimit == old(outputLimit) && curr == old(curr)
      ensures currWritten == old(currWritten) + n
      ensures out == old(out) + iov[curr][old(currWritten)..currWritten]
    {
      hide Start, Concatenated;
      ghost var before, a := Concatenated(iov, curr), iov[curr][..];
      assert a[..currWritten + n] == a[..currWritten] + a[currWritten..currWritten + n];
      assert before + a[..currWritten + n] == out + a[currWritten..currWritten + n];
      out := out + iov[curr][currWritten..currWritten + n];
      currWritten := currWritten + n;
      totalWritten := totalWritten + n;
    }

    /** On to the next buffer, once the current one is full. */
    method NextBuffer()
      requires Valid() && currWritten == iov[curr].Length && |out| < outputLimit
      modifies this
      ensures Valid() && outputLimit == old(outputLimit) && out == old(out)
      ensures curr == old(curr) + 1 && currWritten == 0
    {
      assert iov[curr][..currWritten] == iov[curr][..];
      assert curr + 1 < |iov| by {
        if curr + 1 == |iov| {
          assert Start(iov, curr + 1) == |out|;
          assert false;
        }
      }
      curr := curr + 1;
      currWritten := 0;
      assert iov[curr][..0] == [];
    }

    /** Bytes behind the cursor do not matter. */
    twostate lemma WriteBehindCursor(new a: array<byte>, from: nat)
      requires unchanged(this) && old(Consistent()) && a == iov[curr] && currWritten <= from
      requires forall i | 0 <= i < |iov| :: iov[i] != a ==> unchanged(iov[i])
      requires forall i | 0 <= i < from && i < a.Length :: a[i] == old(a[i])
      ensures Consistent()
    {
      EarlierUnchanged(curr);
      assert a[..currWritten] == old(a[..currWritten]);
    }

    twostate lemma EarlierUnchanged(i: nat)
      requires i <= |iov| && forall j | 0 <= j < i :: unchanged(iov[j])
      ensures Concatenated(iov, i) == old(Concatenated(iov, i))
    {
      if i > 0 {
        EarlierUnchanged(i - 1);
        assert iov[i - 1][..] == old(iov[i - 1][..]);
      }
    }

    /** Stores `bytes` at the cursor and moves over the first `n` of them. */
    method WriteCurrent(bytes: seq<byte>, n: nat)
      requires Valid() && n <= |bytes| && currWritten + |bytes| <= iov[curr].Length && |out| + n <= outputLimit
      modifies this, iov
      ensures Valid() && outputLimit == old(outputLimit) && out == old(out) + bytes[..n]
      ensures curr == old(curr) && currWritten == old(currWritten) + n
    {
      var a, at := iov[curr], currWritten;
      hide Start, Concatenated, Holds;
      Memcpy(a, at, bytes);
      WriteBehindCursor(a, at);
      assert a[at..at + |bytes|][..n] == a[at..at + n];
      Advance(n);
    }

    method Append(bytes: seq<byte>) returns (ok: bool)
      requires Valid()
      modifies this, iov
      ensures ok <==> |old(out)| + |bytes| <= old(outputLimit)
      ensures ok ==> Valid() && outputLimit == old(outputLimit) && out == old(out) + bytes && curr >= old(curr)
      ensures ok && bytes == [] ==> curr == old(curr) && currWritten == old(currWritten)
    {
      hide Start, Concatenated, Holds;
      if totalWritten + |bytes| > outputLimit {
        return false;
      }
      var done := 0;
      while done < |bytes|
        invariant Valid() && outputLimit == old(outputLimit)
        invariant 0 <= done <= |bytes| && out == old(out) + bytes[..done] && curr >= old(curr)
        invariant bytes == [] ==> curr == old(curr) && currWritten == old(currWritten)
        decreases |bytes| - done, |iov| - curr
      {
        if currWritten >= iov[curr].Length {
          if curr + 1 >= |iov| {
            LastBufferFull();
            assert false;
          }
          NextBuffer();
        }
        var room := iov[curr].Length - currWritten;
        var toWrite := if |bytes| - done < room then |bytes| - done else room;
        assert bytes[..done + toWrite] == bytes[..done] + bytes[done..done + toWrite];
        WriteCurrent(bytes[done..done + toWrite], toWrite);
        done := done + toWrite;
      }
      return true;
    }

    /** The buffers cannot run out before the expected length is reached. */
    lemma LastBufferFull()
      requires Valid() && currWritten == iov[curr].Length && curr + 1 == |iov|
      ensures |out| == outputLimit
    {
      assert Start(iov, curr + 1) == |out|;
    }

    method TryFastAppend(bytes: seq<byte>, len: nat) returns (ok: bool)
      requires Valid()
      modifies this, iov
      ensures Valid() && outputLimit == old(outputLimit)
      ensures ok ==> len <= 16 && |bytes| >= 16 + MAXIMUM_TAG_LENGTH && out == old(out) + bytes[..len]
      ensures ok ==> |out| <= outputLimit
      ensures !ok ==> out == old(out)
    {
      hide Start, Concatenated, Holds;
      var spaceLeft := outputLimit - totalWritten;
      if len <= 16 && |bytes| >= 16 + MAXIMUM_TAG_LENGTH && spaceLeft >= 16 && iov[curr].Length - currWritten >= 16 {
        assert bytes[..16][..len] == bytes[..len];
        WriteCurrent(bytes[..16], len);
        return true;
      }
      return false;
    }

    /** What a buffer holds before the cursor is the corresponding part of the output. */
    lemma InOutput(i: nat, offset: nat, n: nat)
      requires Consistent() && i <= curr && offset + n <= (if i < curr then iov[i].Length else currWritten)
      ensures Start(iov, i) + offset + n <= |out|
      ensures iov[i][offset..offset + n] == out[Start(iov, i) + offset..Start(iov, i) + offset + n]
    {
      if i < curr {
        PartOfConcatenated(iov, i, curr, offset, n);
      } else {
        assert iov[curr][..currWritten][offset..offset + n] == iov[curr][offset..offset + n];
      }
    }

    /** Finds the buffer and the position in it that lie `distance` before the cursor. */
    method Locate(distance: nat) returns (i: nat, at: nat)
      requires Consistent() && 0 < distance <= |out|
      ensures i <= curr && at <= iov[i].Length && (i == curr ==> at < currWritten)
      ensures Start(iov, i) + at == |out| - distance
    {
      var offset: nat := distance;
      i, at := curr, currWritten;
      while offset > 0
        invariant i <= curr && at <= (if i < curr then iov[i].Length else currWritten)
        invariant Start(iov, i) + at - offset == |out| - distance
        invariant i == curr ==> offset > 0 || at < currWritten
        decreases offset, i
      {
        if at >= offset {
          at := at - offset;
          break;
        }
        offset := offset - at;
        i := i - 1;
        at := iov[i].Length;
      }
    }

    method AppendFromSelf(offset: nat, len: nat) returns (ok: bool)
      requires Valid()
      modifies this, iov
      ensures ok <==> CanCopy(|old(out)|, offset, len, old(outputLimit))
      ensures ok ==> Valid() && outputLimit == old(outputLimit) && out == CopyFrom(old(out), offset, len)
    {
      hide Start, Concatenated, Holds, CopyFrom, Distinct;
      if offset > totalWritten || offset == 0 {
        return false;
      }
      var spaceLeft := outputLimit - totalWritten;
      if len > spaceLeft {
        return false;
      }
      var fromIndex: nat, fromOffset: nat := Locate(offset);
      var left: nat := len;
      CopyNothing(out, offset);
      while left > 0
        invariant Valid() && outputLimit == old(outputLimit) && left <= len && |out| + left <= outputLimit
        invariant out == CopyFrom(old(out), offset, len - left) && offset <= |out|
        invariant left > 0 ==> LiesBehind(fromIndex, fromOffset, offset)
        decreases left, |iov| - curr, curr - fromIndex
      {
        ghost var before, done := out, len - left;
        fromIndex, fromOffset, left := CopyOnce(fromIndex, fromOffset, left, offset);
        CopyFromSplit(old(out), offset, done, len - left - done);
      }
      return true;
    }

    /** Position `at` of buffer `i` lies `offset` bytes before the cursor. */
    ghost predicate LiesBehind(i: nat, at: nat, offset: nat)
      reads this, iov
    {
      && i <= curr < |iov| && at <= iov[i].Length && (i == curr ==> at < currWritten)
      && Start(iov, i) + at == |out| - offset
    }

    /** One turn: as much as the source's buffer holds, or the current one has room for. */
    method CopyOnce(i: nat, at: nat, left: nat, ghost offset: nat) returns (i': nat, at': nat, left': nat)
      requires Valid() && left > 0 && |out| + left <= outputLimit && 0 < offset <= |out| && LiesBehind(i, at, offset)
      modifies this, iov
      ensures Valid() && outputLimit == old(outputLimit) && left' <= left
      ensures out == CopyFrom(old(out), offset, left - left')
      ensures left' > 0 ==> LiesBehind(i', at', offset)
      ensures left' == left ==> curr > old(curr) || (curr == old(curr) && i' > i)
    {
      hide Start, Concatenated, Holds, CopyFrom, Distinct;
      CopyNothing(out, offset);
      if i != curr {
        var room := iov[i].Length - at;
        var toCopy := if room < left then room else left;
        CopyEarlier(i, at, toCopy, offset);
        StartStep(i);
        i', at', left' := i + 1, 0, left - toCopy;
        if left' > 0 {
          BehindCursor(i', offset);
        }
      } else {
        var room := iov[curr].Length - currWritten;
        var toCopy := if room < left then room else left;
        i', at', left' := i, at, left;
        if toCopy == 0 {
          NextBuffer();
        } else {
          CopyWithin(at, toCopy, offset);
          at', left' := at + toCopy, left - toCopy;
        }
      }
    }

    /** The start of a buffer that lies before the cursor is, in the current buffer, before what is written. */
    lemma BehindCursor(i: nat, offset: nat)
      requires Valid() && i <= curr && 0 < offset <= |out| && Start(iov, i) == |out| - offset
      ensures i == curr ==> currWritten > 0
    {
      hide Concatenated, Holds, Distinct, Start;
    }

    lemma CopyNothing(s: seq<byte>, offset: nat)
      requires 0 < offset <= |s|
      ensures CopyFrom(s, offset, 0) == s
    {
    }

    lemma StartStep(i: nat)
      requires i < |iov|
      ensures Start(iov, i + 1) == Start(iov, i) + iov[i].Length
    {
    }

    /** The copy from an earlier buffer; the verdict of `Append` is not looked at, and need not be. */
    method CopyEarlier(i: nat, at: nat, n: nat, ghost offset: nat)
      requires Valid() && i < curr && at + n <= iov[i].Length && |out| + n <= outputLimit
      requires 0 < offset <= |out| && Start(iov, i) + at == |out| - offset
      modifies this, iov
      ensures Valid() && outputLimit == old(outputLimit) && curr >= old(curr)
      ensures n == 0 ==> curr == old(curr)
      ensures out == CopyFrom(old(out), offset, n)
    {
      hide Start, Concatenated, Holds, CopyFrom;
      InOutput(i, at, n);
      var appended := Append(iov[i][at..at + n]);
      CopyPiece(old(out), offset, n);
    }

    /** A stretch that ends before the output does, appended, is a copy. */
    lemma CopyPiece(s: seq<byte>, offset: nat, n: nat)
      requires 0 < offset <= |s| && n <= offset
      ensures s + s[|s| - offset..|s| - offset + n] == CopyFrom(s, offset, n)
    {
      hide CopyFrom;
      CopyFromUnique(s, offset, n, s + s[|s| - offset..|s| - offset + n]);
    }

    /** The overlapping copy inside the current buffer. */
    method CopyWithin(fromOffset: nat, n: nat, ghost offset: nat)
      requires Valid() && fromOffset < currWritten && currWritten + n <= iov[curr].Length && |out| + n <= outputLimit
      requires offset == currWritten - fromOffset
      modifies this, iov
      ensures Valid() && outputLimit == old(outputLimit) && curr == old(curr)
      ensures currWritten == old(currWritten) + n
      ensures offset <= |old(out)| && out == CopyFrom(old(out), offset, n)
    {
      hide Start, Concatenated, Holds, CopyFrom;
      var a, at := iov[curr], currWritten;
      WithinOutput();
      IncrementalCopySlow(a, fromOffset, at, at + n);
      WriteBehindCursor(a, at);
      assert a[..][..at] == a[..at] == old(a[..at]);
      assert forall i | at <= i < at + n :: a[..][i] == a[..][fromOffset + (i - at)];
      Advance(n);
      assert a[..][at..at + n] == a[at..at + n];
      SelfCopy(old(out), a[..], at, offset, n, out);
    }

    lemma WithinOutput()
      requires Consistent()
      ensures currWritten <= |out| && out[|out| - currWritten..] == iov[curr][..currWritten]
    {
    }

    lemma SelfCopy(s: seq<byte>, a: seq<byte>, at: nat, offset: nat, n: nat, r: seq<byte>)
      requires 0 < offset <= at <= |s| && at + n <= |a| && s[|s| - at..] == a[..at]
      requires forall i | at <= i < at + n :: a[i] == a[at - offset + (i - at)]
      requires r == s + a[at..at + n]
      ensures r == CopyFrom(s, offset, n)
    {
      hide CopyFrom;
      var base := |s| - at;
      assert r[base..] == a[..at + n];
      forall i | |s| <= i < |r|
        ensures r[i] == r[i - offset]
      {
        assert r[i] == r[base..][i - base] == a[i - base] == a[i - base - offset] == r[base..][i - base - offset];
      }
      CopyFromUnique(s, offset, n, r);
    }

    /** The output is the front of all buffers taken together. */
    lemma OutputIsConcatenation()
      requires Consistent()
      ensures |out| <= Start(iov, |iov|) && Concatenated(iov, |iov|)[..|out|] == out
    {
      FrontOfConcatenated(|iov|);
    }

    lemma {:induction false} FrontOfConcatenated(k: nat)
      requires Consistent() && curr < k <= |iov|
      ensures |out| <= Start(iov, k) && Concatenated(iov, k)[..|out|] == out
      decreases k
    {
      if curr + 1 < k {
        FrontOfConcatenated(k - 1);
      } else {
        var c := Concatenated(iov, curr);
        assert (c + iov[curr][..])[..|c| + currWritten] == c + iov[curr][..][..currWritten];
      }
    }
  }
}
