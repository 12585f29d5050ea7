/** The emitters of the compressor, writing in place into the output buffer. */
module SnappyEmitters {
  import opened Basics
  import opened Bytes
  import opened SnappyFormat
  import opened SnappyEmit
  import opened SnappyWriters
  import Seqs

  /** Only places from `lo` up to `hi` may have changed. */
  twostate predicate OnlyChanged(op: array<byte>, lo: nat, hi: nat)
    reads op
  {
    forall i :: 0 <= i < op.Length && !(lo <= i < hi) ==> op[i] == old(op[i])
  }

  /** The bytes of a length, least significant first. */
  method EmitLength(op: array<byte>, at: nat, n0: nat) returns (end: nat)
    requires at + |LengthBytes(n0)| <= op.Length
    modifies op
    ensures end == at + |LengthBytes(n0)| && op[at..end] == LengthBytes(n0)
    ensures OnlyChanged(op, at, end)
  {
    var n: nat := n0;
    end := at;
    while n > 0
      invariant at <= end && end + |LengthBytes(n)| == at + |LengthBytes(n0)|
      invariant op[at..end] + LengthBytes(n) == LengthBytes(n0)
      invariant OnlyChanged(op, at, end)
      decreases n
    {
      ghost var sofar := op[at..end];
      op[end] := (n % 256) as byte;
      assert op[at..end + 1] == sofar + [(n % 256) as byte];
      Seqs.Assoc(sofar, [(n % 256) as byte], LengthBytes(n / 256));
      end := end + 1;
      n := n / 256;
    }
    assert op[at..end] + [] == op[at..end];
  }

  /** The header of a literal; a long length follows its tag byte. */
  method EmitLiteralHead(op: array<byte>, at: nat, len: nat) returns (end: nat)
    requires 0 < len < TWO32 && at + |LiteralHead(len)| <= op.Length
    modifies op
    ensures end == at + |LiteralHead(len)| && op[at..end] == LiteralHead(len)
    ensures OnlyChanged(op, at, end)
  {
    var n: nat := len - 1;
    if n < 60 {
      op[at] := (4 * n) as byte;
      end := at + 1;
    } else {
      BytesOfLength(n);
      end := EmitLength(op, at + 1, n);
      var count := end - (at + 1);
      ghost var tail := op[at + 1..end];
      op[at] := (4 * (59 + count)) as byte;
      assert op[at + 1..end] == tail;
      assert op[at..end] == [op[at]] + op[at + 1..end];
    }
  }

  method EmitShortLiteral(op: array<byte>, at: nat, chunk: seq<byte>, len: nat) returns (end: nat)
    requires 0 < len <= 16 == |chunk| && at + 17 <= op.Length
    modifies op
    ensures end == at + |LiteralHead(len)| + len && op[at..end] == LiteralBytes(chunk[..len])
    ensures OnlyChanged(op, at, at + 17)
  {
    op[at] := (4 * (len - 1)) as byte;
    CopyIn(op, at + 1, chunk);
    end := at + 1 + len;
    assert op[at + 1..end] == chunk[..len];
    assert op[at..end] == [op[at]] + op[at + 1..end];
  }

  /** Writes input[from..from+len] as a literal.  On the fast path sixteen bytes are
      copied however short the literal is. */
  method EmitLiteral(op: array<byte>, at: nat, input: seq<byte>, from: nat, len: nat, allowFastPath: bool) returns (end: nat)
    requires 0 < len < TWO32 && from + len <= |input|
    requires at + |LiteralHead(len)| + len <= op.Length
    requires allowFastPath && len <= 16 ==> from + 16 <= |input| && at + 17 <= op.Length
    modifies op
    ensures end == at + |LiteralHead(len)| + len
    ensures op[at..end] == LiteralBytes(input[from..from + len])
    ensures OnlyChanged(op, at, if allowFastPath && len <= 16 then at + 17 else end)
  {
    hide LiteralHead;
    if allowFastPath && len <= 16 {
      Seqs.SliceTake(input, from, 16, len);
      end := EmitShortLiteral(op, at, input[from..from + 16], len);
      return;
    }
    end := EmitLiteralHead(op, at, len);
    ghost var head := op[at..end];
    CopyIn(op, end, input[from..from + len]);
    assert op[at..end] == head;
    assert op[at..end + len] == op[at..end] + op[end..end + len];
    assert op[end..end + len] == input[from..from + len];
    end := end + len;
  }

  /** One copy element; the long form stores four bytes though only three count. */
  method EmitCopyAtMost64(op: array<byte>, at: nat, offset: nat, len: nat, lenLessThan12: bool) returns (end: nat)
    requires 4 <= len <= 64 && offset < 65536 && lenLessThan12 == (len < 12)
    requires at + 4 <= op.Length
    modifies op
    ensures end == at + |CopyBytes64(offset, len)| && op[at..end] == CopyBytes64(offset, len)
    ensures end == at + if len < 12 && offset < 2048 then 2 else 3
    ensures OnlyChanged(op, at, at + 4)
  {
    if lenLessThan12 && offset < 2048 {
      OffsetBits(offset);
      var c := 1 + 4 * (len - 4) + offset / 8 / 32 % 8 * 32;
      op[at], op[at + 1] := c as byte, (offset % 256) as byte;
      end := at + 2;
    } else {
      StoreWord(op, at, 2 + 4 * (len - 1), offset);
      end := at + 3;
    }
  }

  lemma OffsetBits(offset: nat)
    requires offset < 2048
    ensures offset / 8 / 32 % 8 * 32 == 32 * (offset / 256) < 256
  {
  }

  /** Four bytes in one store, the last of them zero. */
  method StoreWord(op: array<byte>, at: nat, c: nat, offset: nat)
    requires at + 4 <= op.Length && c < 256 && offset < 65536
    modifies op
    ensures op[at] as nat == c && op[at + 1] as nat == offset % 256 && op[at + 2] as nat == offset / 256
    ensures OnlyChanged(op, at, at + 4)
  {
    var u := c + 256 * offset;
    StoredWord(c, offset);
    op[at], op[at + 1], op[at + 2], op[at + 3] :=
      (u % 256) as byte, (u / 256 % 256) as byte, (u / 65536 % 256) as byte, (u / 16777216 % 256) as byte;
  }

  lemma StoredWord(c: nat, offset: nat)
    requires c < 256 && offset < 65536
    ensures var u := c + 256 * offset; u % 256 == c && u / 256 % 256 == offset % 256 && u / 65536 % 256 == offset / 256
  {
  }

  method EmitCopy(op: array<byte>, at: nat, offset: nat, len0: nat, lenLessThan12: bool) returns (end: nat)
    requires 4 <= len0 && offset < 65536 && lenLessThan12 == (len0 < 12)
    requires at + |CopyBytes(offset, len0)| + 2 <= op.Length
    modifies op
    ensures end == at + |CopyBytes(offset, len0)| && op[at..end] == CopyBytes(offset, len0)
    ensures OnlyChanged(op, at, end + 2)
  {
    if lenLessThan12 {
      end := EmitCopyAtMost64(op, at, offset, len0, true);
      return;
    }
    var len: nat := len0;
    end := at;
    while len >= 68
      invariant 4 <= len <= len0 && at <= end
      invariant end + |CopyBytes(offset, len)| == at + |CopyBytes(offset, len0)|
      invariant op[at..end] + CopyBytes(offset, len) == CopyBytes(offset, len0)
      invariant OnlyChanged(op, at, end + 2)
    {
      end := EmitPiece(op, at, end, offset, 64, CopyBytes(offset, len - 64));
      len := len - 64;
    }
    if len > 64 {
      end := EmitPiece(op, at, end, offset, 60, CopyBytes64(offset, len - 60));
      len := len - 60;
    }
    end := EmitPiece(op, at, end, offset, len, []);
    assert op[at..end] + [] == op[at..end];
  }

  /** Appends one element to what has been written since `at`. */
  method EmitPiece(op: array<byte>, at: nat, cur: nat, offset: nat, len: nat, ghost rest: seq<byte>) returns (end: nat)
    requires 4 <= len <= 64 && offset < 65536 && at <= cur && cur + 4 <= op.Length
    modifies op
    ensures end == cur + |CopyBytes64(offset, len)| && OnlyChanged(op, cur, cur + 4)
    ensures op[at..end] + rest == old(op[at..cur]) + (CopyBytes64(offset, len) + rest)
  {
    ghost var sofar := op[at..cur];
    end := EmitCopyAtMost64(op, cur, offset, len, len < 12);
    assert op[at..cur] == sofar;
    assert op[at..end] == op[at..cur] + op[cur..end];
    Seqs.Assoc(sofar, CopyBytes64(offset, len), rest);
  }
}
