/**
 The writer that fills a list of caller-owned buffers, any of which may have
 length zero.
 */
module SnappyIOVec {
  import opened Bytes
  import opened SnappyFormat
  import opened SnappyCopy
  import opened SnappyWriters
  import Seqs

  /** Bytes in the first k buffers. */
  ghost function Off(iov: seq<array<byte>>, k: nat): nat
    requires k <= |iov|
  {
    if k == 0 then 0 else Off(iov, k - 1) + iov[k - 1].Length
  }

  lemma {:induction false} OffMonotone(iov: seq<array<byte>>, j: nat, k: nat)
    requires j <= k <= |iov|
    ensures Off(iov, j) <= Off(iov, k)
    decreases k
  {
    if j < k { OffMonotone(iov, j, k - 1); }
  }

  class IOVecWriter {
    const iov: seq<array<byte>>
    var index: nat
    var written: nat
    var total: nat
    var limit: nat
    ghost var contents: seq<byte>

    ghost predicate Shape()
      reads this
    {
      && (forall i, j :: 0 <= i < j < |iov| ==> iov[i] != iov[j])
      && index < |iov| && written <= iov[index].Length
      && total == Off(iov, index) + written == |contents|
      && total <= limit
    }

    ghost predicate Valid()
      reads this, iov
    {
      Shape() && forall k :: 0 <= k <= index ==> Stored(k)
    }

    /** The written part of buffer k is its part of the output. */
    ghost predicate Stored(k: nat)
      requires Shape() && k <= index
      reads this, iov
    {
      && Off(iov, k) + Part(k) <= |contents|
      && iov[k][..Part(k)] == contents[Off(iov, k)..Off(iov, k) + Part(k)]
    }

    ghost function Part(k: nat): (n: nat)
      requires Shape() && k <= index
      ensures n <= iov[k].Length
      reads this
    {
      if k < index then iov[k].Length else written
    }

    ghost function Capacity(): nat { Off(iov, |iov|) }

    lemma TotalFits()
      requires Shape()
      ensures total <= Capacity()
      ensures index + 1 == |iov| && written == iov[index].Length ==> total == Capacity()
    {
      OffMonotone(iov, index + 1, |iov|);
    }

    lemma SomeBuffer()
      requires Valid()
      ensures iov != [] && |contents| <= Capacity()
    {
      TotalFits();
    }

    constructor (buffers: seq<array<byte>>)
      requires buffers != [] && forall i, j :: 0 <= i < j < |buffers| ==> buffers[i] != buffers[j]
      ensures iov == buffers && Valid() && contents == []
    {
      iov, index, written, total, limit, contents := buffers, 0, 0, 0, TWO64 - 1, [];
    }

    method SetExpectedLength(len: nat)
      requires Valid() && contents == []
      modifies this
      ensures Valid() && contents == [] && limit == len
    {
      limit := len;
      forall k | 0 <= k <= index
        ensures Stored(k)
      {
        assert old(Stored(k));
      }
    }

    method CheckLength() returns (ok: bool)
      requires Valid()
      ensures ok == (|contents| == limit)
    {
      ok := total == limit;
    }

    /** memcpy into the current buffer, then past it. */
    method Put(data: seq<byte>)
      requires Valid() && written + |data| <= iov[index].Length && total + |data| <= limit
      modifies this`written, this`total, this`contents, iov[index]
      ensures Valid() && written == old(written) + |data|
      ensures contents == old(contents) + data
    {
      CopyIn(iov[index], written, data);
      assert iov[index][..written] == old(iov[index][..written]);
      KeepsStored();
      Advance(data);
    }

    /** Moves past bytes just written to the current buffer. */
    method Advance(data: seq<byte>)
      requires Valid() && written + |data| <= iov[index].Length && total + |data| <= limit
      requires iov[index][written..written + |data|] == data
      modifies this`written, this`total, this`contents
      ensures Valid() && written == old(written) + |data|
      ensures contents == old(contents) + data
    {
      written, total, contents := written + |data|, total + |data|, contents + data;
      forall k | 0 <= k <= index
        ensures Stored(k)
      {
        assert old(Stored(k));
        if k == index {
          Grown(iov[k][..], old(contents), Off(iov, k), old(written), data);
        } else {
          OffMonotone(iov, k + 1, index);
        }
      }
    }

    method NextBuffer()
      requires Valid() && index + 1 < |iov| && written == iov[index].Length
      modifies this`written, this`index
      ensures Valid() && index == old(index) + 1 && written == 0
    {
      written := 0;
      index := index + 1;
      forall k | 0 <= k <= index
        ensures Stored(k)
      {
        if k < index { assert old(Stored(k)); }
      }
    }

    method Append(data: seq<byte>) returns (ok: bool)
      requires Valid()
      modifies this, iov
      ensures Valid() && limit == old(limit)
      ensures ok == (|old(contents)| + |data| <= limit && |old(contents)| + |data| <= Capacity())
      ensures ok ==> contents == old(contents) + data
      ensures |old(contents)| + |data| > limit ==> contents == old(contents)
      ensures !ok && |old(contents)| + |data| <= limit ==> |contents| == Capacity()
      ensures index >= old(index) && old(contents) <= contents <= old(contents) + data
    {
      if total + |data| > limit { return false; }
      var ip := data;
      while |ip| > 0
        invariant Valid() && limit == old(limit) && index >= old(index)
        invariant contents + ip == old(contents) + data && old(contents) <= contents
        decreases |ip|, |iov| - index
      {
        TotalFits();
        if written >= iov[index].Length {
          if index + 1 >= |iov| {
            assert contents == (old(contents) + data)[..|contents|];
            return false;
          }
          NextBuffer();
        }
        var room := iov[index].Length - written;
        var toWrite := if |ip| < room then |ip| else room;
        ghost var was := contents;
        Put(ip[..toWrite]);
        Seqs.Assoc(was, ip[..toWrite], ip[toWrite..]);
        Seqs.SplitAt(ip, toWrite);
        ip := ip[toWrite..];
      }
      TotalFits();
      return true;
    }

    method TryFastAppend(avail: seq<byte>, len: nat) returns (ok: bool)
      requires Valid()
      modifies this, iov
      ensures Valid() && limit == old(limit)
      ensures ok ==> len <= 16 && 16 + MAX_TAG_LENGTH <= |avail|
      ensures contents == old(contents) + if ok then avail[..len] else []
    {
      var spaceLeft := limit - total;
      if len <= 16 && |avail| >= 16 + MAX_TAG_LENGTH && spaceLeft >= 16 && iov[index].Length - written >= 16 {
        CopyIn(iov[index], written, avail[..16]);
        assert iov[index][..written] == old(iov[index][..written]);
        KeepsStored();
        assert iov[index][written..written + len] == avail[..len];
        Advance(avail[..len]);
        return true;
      }
      return false;
    }

    /** The buffer and place in it of the byte `offset` before the end of the output. */
    method Locate(offset: nat) returns (from: nat, place: nat)
      requires Valid() && 0 < offset <= total
      ensures from <= index && place <= Part(from) && Off(iov, from) + place == total - offset
    {
      var left := offset;
      from, place := index, written;
      while place < left
        invariant from <= index && place == Part(from)
        invariant 0 < left && Off(iov, from) + place - left == total - offset
        decreases from
      {
        left := left - place;
        from := from - 1;
        place := iov[from].Length;
      }
      place := place - left;
    }

    /** How many of n more bytes fit after `length`. */
    ghost function Fitting(length: nat, n: nat): (k: nat)
      requires length <= Capacity()
      ensures k <= n
    {
      if length + n <= Capacity() then n else Capacity() - length
    }

    /** What is known between two steps of a copy of `len` bytes begun at `out`: what fits
        is copied, the rest is dropped, and the source moves on over both. */
    ghost predicate Copying(out: seq<byte>, offset: nat, len: nat, left: nat, from: nat, place: nat)
      requires Valid()
      reads this, iov
    {
      && 0 < offset <= |out| <= Capacity() && left <= len && from <= index && |out| + len <= limit
      && place <= iov[from].Length && Off(iov, from) + place == |out| - offset + (len - left)
      && contents == Extend(out, offset, Fitting(|out|, len - left))
      && (from + 1 == |iov| && left == 0 ==> |out| + len <= Capacity())
    }

    /** The bytes of an earlier buffer are the next ones of the copy. */
    lemma SliceOfOutput(from: nat, place: nat, n: nat, out: seq<byte>, offset: nat, done: nat)
      requires Valid() && from < index && place + n <= iov[from].Length && 0 < offset <= |out|
      requires contents == Extend(out, offset, done) && |out| + done <= Capacity()
      requires Off(iov, from) + place == |contents| - offset
      ensures var k := Fitting(|contents|, n);
              Extend(out, offset, done + k) == contents + iov[from][place..place + n][..k]
    {
      hide Extend;
      TotalFits();
      assert Stored(from);
      OffMonotone(iov, from + 1, index);
      var k := Fitting(|contents|, n);
      ContinueBySlice(out, offset, done, k, contents);
      StoredSlice(iov[from][..Part(from)], contents, Off(iov, from), place, n);
      assert iov[from][place..place + n] == iov[from][..Part(from)][place..place + n];
    }

    /** Copies from an earlier buffer. */
    method StepAcross(from: nat, place: nat, n: nat, ghost out: seq<byte>, ghost offset: nat, ghost len: nat, ghost left: nat)
      requires Valid() && Copying(out, offset, len, left, from, place) && from < index
      requires n <= left && n <= iov[from].Length - place
      modifies this, iov
      ensures Valid() && limit == old(limit) && from < index && old(index) <= index
      ensures Copying(out, offset, len, left - n, from, place + n)
    {
      hide Extend;
      TotalFits();
      ghost var was, done := contents, len - left;
      var data := iov[from][place..place + n];
      if |out| + done <= Capacity() { SliceOfOutput(from, place, n, out, offset, done); }
      var _ := Append(data);
      TotalFits();
      AfterAppend(was, data, contents, |was|, Capacity());
    }

    /** Writing past `written` in the current buffer leaves the output stored. */
    twostate lemma KeepsStored()
      requires old(Valid()) && unchanged(this)
      requires forall k :: 0 <= k < index ==> unchanged(iov[k])
      requires iov[index][..written] == old(iov[index][..written])
      ensures Valid()
    {
      forall k | 0 <= k <= index
        ensures Stored(k)
      {
        assert old(Stored(k));
      }
    }

    /** Copies inside the current buffer. */
    method CopyWithin(place: nat, n: nat)
      requires Valid() && place < written && written + n <= iov[index].Length && total + n <= limit
      modifies this, iov
      ensures Valid() && limit == old(limit) && index == old(index)
      ensures contents == Extend(old(contents), old(written) - place, n)
    {
      hide Extend;
      assert Stored(index);
      var buffer := iov[index];
      ghost var before := buffer[..written];
      IncrementalCopySlow(buffer, place, written, written + n);
      ghost var after := buffer[..written + n];
      ExtendPrefix(before, written - place, n);
      assert buffer[..written] == after[..written];
      KeepsStored();
      BlockTail(contents, before, after, written - place, n);
      assert buffer[written..written + n] == after[written..];
      Advance(buffer[written..written + n]);
    }

    method StepWithin(place: nat, n: nat, ghost out: seq<byte>, ghost offset: nat, ghost len: nat, ghost left: nat)
      requires Valid() && Copying(out, offset, len, left, index, place)
      requires 0 < n <= left && n <= iov[index].Length - written
      modifies this, iov
      ensures Valid() && limit == old(limit) && index == old(index)
      ensures Copying(out, offset, len, left - n, index, place + n)
    {
      hide Extend;
      OffMonotone(iov, index + 1, |iov|);
      CopyWithin(place, n);
      ExtendSplit(out, offset, len - left, n);
    }

    method StepEarlier(from0: nat, place0: nat, left0: nat, ghost out: seq<byte>, ghost offset: nat, ghost len: nat)
      returns (from: nat, place: nat, left: nat)
      requires Valid() && 0 < left0 && Copying(out, offset, len, left0, from0, place0) && from0 < index
      modifies this, iov
      ensures Valid() && limit == old(limit) && index >= old(index)
      ensures Copying(out, offset, len, left, from, place)
      ensures left < left0 || (left == left0 && from == from0 + 1)
    {
      from, place, left := from0, place0, left0;
      var room := iov[from].Length - place;
      var n := if room < left then room else left;
      StepAcross(from, place, n, out, offset, len, left);
      left, place := left - n, place + n;
      if left > 0 {
        from, place := from + 1, 0;
      }
    }

    /** One turn of the copy loop; `ok` is false when the last buffer is full. */
    method Step(from0: nat, place0: nat, left0: nat, ghost out: seq<byte>, ghost offset: nat, ghost len: nat)
      returns (ok: bool, from: nat, place: nat, left: nat)
      requires Valid() && 0 < left0 && Copying(out, offset, len, left0, from0, place0)
      modifies this, iov
      ensures Valid() && limit == old(limit)
      ensures Copying(out, offset, len, left, from, place)
      ensures !ok ==> 0 < left && from + 1 == |iov| && |contents| == Capacity()
      ensures ok ==> left < left0 || (left == left0 && |iov| - index + |iov| - from < |iov| - old(index) + |iov| - from0)
    {
      from, place, left := from0, place0, left0;
      if from != index {
        from, place, left := StepEarlier(from, place, left, out, offset, len);
        return true, from, place, left;
      }
      var room := iov[index].Length - written;
      var n := if room < left then room else left;
      if n > 0 {
        StepWithin(place, n, out, offset, len, left);
        return true, from, place + n, left - n;
      }
      TotalFits();
      if index + 1 >= |iov| { return false, from, place, left; }
      NextBuffer();
      return true, from, place, left;
    }

    /** The copy can be begun. */
    ghost predicate InRange(out: seq<byte>, offset: nat, len: nat)
      reads this
    {
      0 < offset <= |out| && |out| + len <= limit
    }

    /** Where the copied bytes end, if the source does not reach into the last buffer: an
        append that fails there is not noticed. */
    ghost predicate Unnoticed(out: seq<byte>, offset: nat, len: nat)
      requires iov != [] && offset <= |out|
    {
      |out| - offset + len <= Off(iov, |iov| - 1)
    }

    method AppendFromSelf(offset: nat, len: nat) returns (ok: bool)
      requires Valid()
      modifies this, iov
      ensures Valid() && limit == old(limit) && |old(contents)| <= Capacity()
      ensures !InRange(old(contents), offset, len) ==> !ok && contents == old(contents)
      ensures InRange(old(contents), offset, len) ==>
        && (ok <==> |old(contents)| + len <= Capacity() || Unnoticed(old(contents), offset, len))
        && contents == Extend(old(contents), offset, Fitting(|old(contents)|, len))
    {
      TotalFits();
      if offset > total || offset == 0 { return false; }
      var spaceLeft := limit - total;
      if len > spaceLeft { return false; }
      var from: nat, place: nat := Locate(offset);
      var left: nat := len;
      ghost var out := contents;
      assert contents == Extend(contents, offset, 0);
      hide Extend;
      ok := true;
      while left > 0
        invariant Valid() && limit == old(limit)
        invariant Copying(out, offset, len, left, from, place)
        decreases left, |iov| - index + |iov| - from
      {
        ok, from, place, left := Step(from, place, left, out, offset, len);
        if !ok { return false; }
      }
      EndOfCopy(from, place);
      return true;
    }

    lemma EndOfCopy(from: nat, place: nat)
      requires from < |iov| && place <= iov[from].Length
      ensures from + 1 < |iov| ==> Off(iov, from) + place <= Off(iov, |iov| - 1)
    {
      if from + 1 < |iov| { OffMonotone(iov, from + 1, |iov| - 1); }
    }
  }

  /** What an append adds, when only some of it fits. */
  lemma AfterAppend(was: seq<byte>, data: seq<byte>, now: seq<byte>, length: nat, capacity: nat)
    requires length == |was| <= capacity
    requires if length + |data| <= capacity then now == was + data else |now| == capacity && now <= was + data
    ensures now == was + data[..if length + |data| <= capacity then |data| else capacity - length]
  {
  }

  /** A buffer and the output grow by the same bytes. */
  lemma Grown(buffer: seq<byte>, out: seq<byte>, off: nat, w: nat, data: seq<byte>)
    requires w + |data| <= |buffer| && buffer[w..w + |data|] == data
    requires off + w == |out| && buffer[..w] == out[off..]
    ensures buffer[..w + |data|] == (out + data)[off..]
  {
    assert buffer[..w + |data|] == buffer[..w] + buffer[w..w + |data|];
    Seqs.DropPrefix(out, data, off);
  }

  lemma ContinueBySlice(out: seq<byte>, offset: nat, done: nat, n: nat, was: seq<byte>)
    requires 0 < offset <= |out| && n <= offset && was == Extend(out, offset, done)
    ensures Extend(out, offset, done + n) == was + was[|was| - offset..][..n]
  {
    ExtendSplit(out, offset, done, n);
    ExtendBySlice(was, offset, n);
  }

  lemma StoredSlice(buffer: seq<byte>, contents: seq<byte>, off: nat, place: nat, n: nat)
    requires off + |buffer| <= |contents| && buffer == contents[off..off + |buffer|]
    requires place + n <= |buffer|
    ensures buffer[place..place + n] == contents[off + place..][..n]
  {
    var a, b := buffer[place..place + n], contents[off + place..][..n];
    forall i | 0 <= i < n
      ensures a[i] == b[i]
    {
      assert a[i] == buffer[place + i] == contents[off + (place + i)];
    }
  }
}
