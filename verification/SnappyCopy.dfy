/**
 Copies from earlier output: the byte-at-a-time form and the form that doubles
 short patterns and over-copies in blocks of eight.  Both append the same bytes.
 */
module SnappyCopy {
  import opened Bytes
  import opened SnappyFormat

  /** Eight bytes through a temporary, so overlapping regions read the old bytes. */
  method UnalignedCopy64(buf: array<byte>, src: nat, dst: nat)
    requires src + 8 <= buf.Length && dst + 8 <= buf.Length
    modifies buf
    ensures forall i :: dst <= i < dst + 8 ==> buf[i] == old(buf[src + i - dst])
    ensures forall i :: 0 <= i < buf.Length && !(dst <= i < dst + 8) ==> buf[i] == old(buf[i])
  {
    forall k | 0 <= k < 8 {
      buf[dst + k] := buf[src + k];
    }
  }

  method IncrementalCopySlow(buf: array<byte>, src: nat, op: nat, opLimit: nat)
    requires src < op <= opLimit <= buf.Length
    modifies buf
    ensures buf[..opLimit] == Extend(old(buf[..op]), op - src, opLimit - op)
    ensures buf[opLimit..] == old(buf[opLimit..])
  {
    var s, o := src, op;
    while o < opLimit
      invariant op <= o <= opLimit && o - s == op - src
      invariant forall i :: 0 <= i < op ==> buf[i] == old(buf[i])
      invariant forall i :: op <= i < o ==> buf[i] == buf[i - (op - src)]
      invariant forall i :: o <= i < buf.Length ==> buf[i] == old(buf[i])
    {
      buf[o] := buf[s];
      s, o := s + 1, o + 1;
    }
    ghost var r, d := buf[..opLimit], op - src;
    assert forall i :: op <= i < opLimit ==> r[i] == buf[i];
    assert forall i :: op <= i < opLimit ==> RepeatAt(r, d, i);
    ExtendUnique(old(buf[..op]), d, opLimit - op, r);
  }

  /** From src + d on, every byte repeats the byte d places back. */
  ghost predicate Period(ideal: seq<byte>, src: nat, d: nat) {
    0 < d && RepeatsFrom(ideal, src + d, d)
  }

  lemma PeriodDoubles(ideal: seq<byte>, src: nat, d: nat)
    requires Period(ideal, src, d)
    ensures Period(ideal, src, 2 * d)
  {
    forall i | src + 2 * d <= i < |ideal|
      ensures RepeatAt(ideal, 2 * d, i)
    {
      assert RepeatAt(ideal, d, i) && RepeatAt(ideal, d, i - d);
    }
  }

  /** The buffer agrees with the ideal output below op and is as at the start from lim on. */
  ghost predicate Agrees(buf: array<byte>, ideal: seq<byte>, op: nat, lim: nat, start: seq<byte>)
    reads buf
  {
    && buf.Length == |start| && op <= |ideal| && op <= buf.Length && lim <= buf.Length
    && (forall i :: 0 <= i < op ==> buf[i] == ideal[i])
    && (forall i :: lim <= i < buf.Length ==> buf[i] == start[i])
  }

  /** One block copied from one period back keeps the agreement for `w` more bytes. */
  method CopyBlock(buf: array<byte>, src: nat, op: nat, lim: nat, w: nat,
                   ghost ideal: seq<byte>, ghost base: nat, ghost start: seq<byte>)
    requires base <= src < op && op + 8 <= lim <= buf.Length && op + w <= |ideal|
    requires w <= 8 && w <= op - src
    requires Agrees(buf, ideal, op, lim, start) && Period(ideal, base, op - src)
    modifies buf
    ensures Agrees(buf, ideal, op + w, lim, start)
  {
    UnalignedCopy64(buf, src, op);
    forall i | op <= i < op + w
      ensures buf[i] == ideal[i]
    {
      assert buf[i] == old(buf[src + i - op]);
      assert RepeatAt(ideal, op - src, i);
    }
  }

  /** Grows a pattern shorter than eight bytes by doubling it. */
  method ExpandPattern(buf: array<byte>, src: nat, op0: nat, bufLimit: nat, ghost ideal: seq<byte>, ghost start: seq<byte>)
    returns (op: nat)
    requires src < op0 && op0 - src < 8 && op0 + 14 <= bufLimit <= buf.Length && op0 + 14 <= |ideal|
    requires Agrees(buf, ideal, op0, bufLimit, start) && Period(ideal, src, op0 - src)
    modifies buf
    ensures op0 <= op <= op0 + 14 && op - src >= 8
    ensures Agrees(buf, ideal, op, bufLimit, start) && Period(ideal, src, op - src)
  {
    var patternSize := op0 - src;
    op := op0;
    while patternSize < 8
      invariant op0 <= op && op - src == patternSize
      invariant patternSize < 8 ==> op <= op0 + 6
      invariant patternSize <= 14
      invariant Agrees(buf, ideal, op, bufLimit, start) && Period(ideal, src, patternSize)
      decreases 16 - patternSize
    {
      CopyBlock(buf, src, op, bufLimit, patternSize, ideal, src, start);
      PeriodDoubles(ideal, src, patternSize);
      op := op + patternSize;
      patternSize := patternSize * 2;
    }
  }

  method CopyPair(buf: array<byte>, src: nat, op: nat, lim: nat,
                  ghost ideal: seq<byte>, ghost base: nat, ghost start: seq<byte>)
    requires base <= src && src + 8 <= op && op + 16 <= lim <= buf.Length && op + 16 <= |ideal|
    requires Agrees(buf, ideal, op, lim, start) && Period(ideal, base, op - src)
    modifies buf
    ensures Agrees(buf, ideal, op + 16, lim, start)
  {
    CopyBlock(buf, src, op, lim, 8, ideal, base, start);
    CopyBlock(buf, src + 8, op + 8, lim, 8, ideal, base, start);
  }

  /** All whole pairs of blocks while op < opLimit; at least one. */
  method CopyWithSlop(buf: array<byte>, src0: nat, op1: nat, opLimit: nat, bufLimit: nat,
                      ghost ideal: seq<byte>, ghost start: seq<byte>) returns (op: nat)
    requires src0 + 8 <= op1 <= opLimit && opLimit + 16 <= bufLimit <= buf.Length && bufLimit <= |ideal|
    requires Agrees(buf, ideal, op1, bufLimit, start) && Period(ideal, src0, op1 - src0)
    modifies buf
    ensures opLimit <= op <= bufLimit && Agrees(buf, ideal, op, bufLimit, start)
  {
    var dist := op1 - src0;
    CopyPair(buf, src0, op1, bufLimit, ideal, src0, start);
    op := op1 + 16;
    while op < opLimit
      invariant op1 <= op <= opLimit + 16
      invariant Agrees(buf, ideal, op, bufLimit, start)
    {
      CopyPair(buf, op - dist, op, bufLimit, ideal, src0, start);
      op := op + 16;
    }
  }

  /** Whole pairs of blocks as far as the buffer allows, then one block if it fits. */
  method CopyWithoutSlop(buf: array<byte>, src0: nat, op1: nat, opLimit: nat, bufLimit: nat,
                         ghost ideal: seq<byte>, ghost start: seq<byte>) returns (src: nat, op: nat)
    requires src0 + 8 <= op1 <= opLimit <= bufLimit <= buf.Length && bufLimit <= |ideal|
    requires Agrees(buf, ideal, op1, bufLimit, start) && Period(ideal, src0, op1 - src0)
    modifies buf
    ensures op1 <= op <= bufLimit && src0 <= src && op - src == op1 - src0
    ensures Agrees(buf, ideal, op, bufLimit, start)
  {
    src, op := src0, op1;
    while op < bufLimit - 16
      invariant op1 <= op <= bufLimit && src0 <= src && op - src == op1 - src0
      invariant Agrees(buf, ideal, op, bufLimit, start)
    {
      CopyPair(buf, src, op, bufLimit, ideal, src0, start);
      src, op := src + 16, op + 16;
    }
    if op < opLimit && op <= bufLimit - 8 {
      CopyBlock(buf, src, op, bufLimit, 8, ideal, src0, start);
      src, op := src + 8, op + 8;
    }
  }

  /** Ends with single bytes from one period back. */
  method FinishSlow(buf: array<byte>, src: nat, op: nat, opLimit: nat, bufLimit: nat,
                    ghost ideal: seq<byte>, ghost base: nat, ghost start: seq<byte>)
    requires base <= src < op <= opLimit <= bufLimit <= buf.Length && bufLimit <= |ideal|
    requires Agrees(buf, ideal, op, bufLimit, start) && Period(ideal, base, op - src)
    modifies buf
    ensures Agrees(buf, ideal, opLimit, bufLimit, start)
  {
    ghost var prefix := buf[..op];
    IncrementalCopySlow(buf, src, op, opLimit);
    assert prefix == ideal[..op];
    PrefixRepeats(ideal, op, op - src, opLimit);
    ExtendUnique(prefix, op - src, opLimit - op, ideal[..opLimit]);
    assert forall i :: 0 <= i < opLimit ==> buf[i] == buf[..opLimit][i];
    assert forall i :: opLimit <= i < buf.Length ==> buf[i] == buf[opLimit..][i - opLimit] == old(buf[opLimit..])[i - opLimit];
  }

  /** The stage after the pattern has at least eight bytes. */
  method BlockCopies(buf: array<byte>, src0: nat, op1: nat, opLimit: nat, bufLimit: nat,
                     ghost ideal: seq<byte>, ghost start: seq<byte>)
    requires src0 + 8 <= op1 <= opLimit <= bufLimit <= buf.Length && bufLimit <= |ideal|
    requires Agrees(buf, ideal, op1, bufLimit, start) && Period(ideal, src0, op1 - src0)
    modifies buf
    ensures Agrees(buf, ideal, opLimit, bufLimit, start)
  {
    if opLimit <= bufLimit - 16 {
      var op := CopyWithSlop(buf, src0, op1, opLimit, bufLimit, ideal, start);
    } else {
      var src, op := CopyWithoutSlop(buf, src0, op1, opLimit, bufLimit, ideal, start);
      if op < opLimit {
        FinishSlow(buf, src, op, opLimit, bufLimit, ideal, src0, start);
      }
    }
  }

  /** The branches of the fast copy, against the ideal output. */
  method CopyBranches(buf: array<byte>, src0: nat, op0: nat, opLimit: nat, bufLimit: nat,
                      ghost ideal: seq<byte>, ghost start: seq<byte>)
    requires src0 < op0 <= opLimit <= bufLimit <= buf.Length && bufLimit <= |ideal|
    requires Agrees(buf, ideal, op0, bufLimit, start) && Period(ideal, src0, op0 - src0)
    modifies buf
    ensures Agrees(buf, ideal, opLimit, bufLimit, start)
  {
    var op := op0;
    if op0 - src0 < 8 {
      if op0 <= bufLimit - 14 {
        op := ExpandPattern(buf, src0, op0, bufLimit, ideal, start);
        if op >= opLimit { return; }
      } else {
        FinishSlow(buf, src0, op0, opLimit, bufLimit, ideal, src0, start);
        return;
      }
    }
    BlockCopies(buf, src0, op, opLimit, bufLimit, ideal, start);
  }

  /** The fast copy: the bytes up to opLimit are those of IncrementalCopySlow, and
      nothing below op or from bufLimit on changes. */
  method IncrementalCopy(buf: array<byte>, src: nat, op: nat, opLimit: nat, bufLimit: nat) returns (r: nat)
    requires src < op <= opLimit <= bufLimit <= buf.Length
    modifies buf
    ensures r == opLimit
    ensures buf[..opLimit] == Extend(old(buf[..op]), op - src, opLimit - op)
    ensures buf[bufLimit..] == old(buf[bufLimit..])
  {
    ghost var start := buf[..];
    ghost var prefix := buf[..op];
    ghost var ideal := Extend(prefix, op - src, bufLimit - op);
    IdealPrefix(prefix, op - src, bufLimit - op, opLimit - op);
    ExtendRepeats(prefix, op - src, bufLimit - op);
    assert forall i :: 0 <= i < op ==> buf[i] == prefix[i] == ideal[i];
    CopyBranches(buf, src, op, opLimit, bufLimit, ideal, start);
    assert buf[..opLimit] == ideal[..opLimit];
    assert buf[bufLimit..] == start[bufLimit..];
    return opLimit;
  }

  lemma PrefixRepeats(r: seq<byte>, lo: nat, offset: nat, hi: nat)
    requires RepeatsFrom(r, lo, offset) && hi <= |r| && 0 < offset <= lo
    ensures RepeatsFrom(r[..hi], lo, offset)
  {
    forall i | lo <= i < hi
      ensures RepeatAt(r[..hi], offset, i)
    {
      assert RepeatAt(r, offset, i);
    }
  }

  lemma IdealPrefix(out: seq<byte>, offset: nat, n: nat, k: nat)
    requires 0 < offset <= |out| && k <= n
    ensures Extend(out, offset, n)[..|out| + k] == Extend(out, offset, k)
  {
    var r := Extend(out, offset, n);
    ExtendRepeats(out, offset, n);
    PrefixRepeats(r, |out|, offset, |out| + k);
    ExtendUnique(out, offset, k, r[..|out| + k]);
  }
}
