/**
 Writing literals and copies in the Snappy format: what each emitter writes, that
 it decodes to what was meant, and how many bytes it takes.
 */
module SnappyEmit {
  import opened Basics
  import opened Bytes
  import opened SnappyFormat
  import Seqs

  //// What is written

  /** The bytes of n, least significant first, without leading zeros. */
  function LengthBytes(n: nat): seq<byte> {
    if n == 0 then [] else [(n % 256) as byte] + LengthBytes(n / 256)
  }

  function LiteralHead(len: nat): (s: seq<byte>)
    requires 0 < len < TWO32
  {
    var n := len - 1;
    if n < 60 then [(4 * n) as byte]
    else
      BytesOfLength(n);
      [(4 * (59 + |LengthBytes(n)|)) as byte] + LengthBytes(n)
  }

  function LiteralBytes(x: seq<byte>): seq<byte>
    requires 0 < |x| < TWO32
  {
    LiteralHead(|x|) + x
  }

  /** One copy element. */
  function CopyBytes64(offset: nat, len: nat): seq<byte>
    requires 4 <= len <= 64 && offset < 65536
  {
    if len < 12 && offset < 2048 then
      [(1 + 4 * (len - 4) + 32 * (offset / 256)) as byte, (offset % 256) as byte]
    else
      [(2 + 4 * (len - 1)) as byte, (offset % 256) as byte, (offset / 256) as byte]
  }

  /** A copy of any length, cut so that no piece is shorter than four bytes. */
  function CopyBytes(offset: nat, len: nat): seq<byte>
    requires 4 <= len && offset < 65536
  {
    if len >= 68 then CopyBytes64(offset, 64) + CopyBytes(offset, len - 64)
    else if len > 64 then CopyBytes64(offset, 60) + CopyBytes64(offset, len - 60)
    else CopyBytes64(offset, len)
  }

  //// What it decodes to

  lemma BytesOfLength(n: nat)
    ensures |LengthBytes(n)| <= 4 <==> n < TWO32
    ensures n < 65536 ==> |LengthBytes(n)| <= 2
    ensures n < 256 ==> |LengthBytes(n)| <= 1
  {
    if n > 0 {
      var a := n / 256;
      assert |LengthBytes(n)| == 1 + |LengthBytes(a)|;
      if a > 0 {
        var b := a / 256;
        assert |LengthBytes(a)| == 1 + |LengthBytes(b)|;
        if b > 0 {
          var c := b / 256;
          assert |LengthBytes(b)| == 1 + |LengthBytes(c)|;
          if c > 0 {
            assert |LengthBytes(c)| == 1 + |LengthBytes(c / 256)|;
            assert c / 256 > 0 ==> |LengthBytes(c / 256)| >= 1;
          }
        }
      }
    }
  }

  lemma {:induction false} LoadBytesOf(n: nat)
    ensures LoadLE(LengthBytes(n)) == n
  {
    if n > 0 {
      LoadBytesOf(n / 256);
      assert LengthBytes(n)[1..] == LengthBytes(n / 256);
    }
  }

  /** The header of a literal announces its length. */
  lemma LiteralHeadDecodes(len: nat, x: seq<byte>)
    requires 0 < len < TWO32
    ensures Header(LiteralHead(len) + x) == Some((Literal(len), |LiteralHead(len)|))
  {
    var n, s := len - 1, LiteralHead(len);
    if n >= 60 {
      BytesOfLength(n);
      LoadBytesOf(n);
      assert s[1..] == LengthBytes(n);
      assert LengthBytes(n) != [];
      assert ExtraBytes(s[0]) == |LengthBytes(n)|;
      assert s[1..1 + |LengthBytes(n)|] == LengthBytes(n);
    } else {
      assert s[1..1] == [];
    }
    HeaderPrefix(s, x);
  }

  lemma LiteralDecodes(x: seq<byte>, out: seq<byte>)
    requires 0 < |x| < TWO32
    ensures DecodeTags(LiteralBytes(x), out) == Some(out + x)
  {
    LiteralHeadDecodes(|x|, x);
    var h, s := |LiteralHead(|x|)|, LiteralBytes(x);
    Seqs.DropLeft(LiteralHead(|x|), x);
    assert s[h..h + |x|] == s[h..];
    assert DecodeTags(s[h + |x|..], out + x) == Some(out + x);
  }

  lemma Copy64Decodes(offset: nat, len: nat, out: seq<byte>)
    requires 4 <= len <= 64 && 0 < offset < 65536 && offset <= |out|
    ensures DecodeTags(CopyBytes64(offset, len), out) == Some(Extend(out, offset, len))
  {
    var s := CopyBytes64(offset, len);
    Copy64Header(offset, len);
    assert DecodeTags(s[|s|..], Extend(out, offset, len)) == Some(Extend(out, offset, len));
  }

  lemma Copy64Header(offset: nat, len: nat)
    requires 4 <= len <= 64 && offset < 65536
    ensures Header(CopyBytes64(offset, len)) == Some((Copy(offset, len), |CopyBytes64(offset, len)|))
  {
    if len < 12 && offset < 2048 {
      ShortCopyHeader(offset, len);
    } else {
      LongCopyHeader(offset, len);
    }
  }

  lemma ShortCopyHeader(offset: nat, len: nat)
    requires 4 <= len < 12 && offset < 2048
    ensures Header([(1 + 4 * (len - 4) + 32 * (offset / 256)) as byte, (offset % 256) as byte]) == Some((Copy(offset, len), 2))
  {
    var c := 1 + 4 * (len - 4) + 32 * (offset / 256);
    var s := [c as byte, (offset % 256) as byte];
    assert c % 4 == 1 && c / 4 % 8 == len - 4 && c / 32 == offset / 256;
    assert s[1..2] == [s[1]];
    assert LoadLE([s[1]]) == s[1] as nat + 256 * LoadLE([]);
  }

  lemma LongCopyHeader(offset: nat, len: nat)
    requires 4 <= len <= 64 && offset < 65536
    ensures Header([(2 + 4 * (len - 1)) as byte, (offset % 256) as byte, (offset / 256) as byte]) == Some((Copy(offset, len), 3))
  {
    var c := 2 + 4 * (len - 1);
    var s := [c as byte, (offset % 256) as byte, (offset / 256) as byte];
    assert c % 4 == 2 && c / 4 == len - 1;
    assert s[1..3] == [s[1], s[2]];
    assert [s[1], s[2]][1..] == [s[2]];
    assert [s[2]][1..] == [];
    assert LoadLE([s[2]]) == s[2] as nat + 256 * LoadLE([]);
  }

  lemma {:induction false} CopyDecodes(offset: nat, len: nat, out: seq<byte>)
    requires 4 <= len && 0 < offset < 65536 && offset <= |out|
    ensures DecodeTags(CopyBytes(offset, len), out) == Some(Extend(out, offset, len))
    decreases len
  {
    hide DecodeTags, Extend, CopyBytes64;
    if len >= 68 {
      CopyDecodes(offset, len - 64, Extend(out, offset, 64));
      FirstPiece(offset, 64, CopyBytes(offset, len - 64), len - 64, out);
    } else if len > 64 {
      Copy64Decodes(offset, len - 60, Extend(out, offset, 60));
      FirstPiece(offset, 60, CopyBytes64(offset, len - 60), len - 60, out);
    } else {
      Copy64Decodes(offset, len, out);
    }
  }

  lemma FirstPiece(offset: nat, j: nat, b: seq<byte>, k: nat, out: seq<byte>)
    requires 4 <= j <= 64 && 0 < offset < 65536 && offset <= |out|
    requires DecodeTags(b, Extend(out, offset, j)) == Some(Extend(Extend(out, offset, j), offset, k))
    ensures DecodeTags(CopyBytes64(offset, j) + b, out) == Some(Extend(out, offset, j + k))
  {
    hide DecodeTags, Extend, CopyBytes64;
    Copy64Decodes(offset, j, out);
    TwoCopies(CopyBytes64(offset, j), b, offset, j, k, out);
  }

  /** Two copies at the same offset, one after the other, are one longer copy. */
  lemma TwoCopies(a: seq<byte>, b: seq<byte>, offset: nat, j: nat, k: nat, out: seq<byte>)
    requires 0 < offset <= |out| && DecodeTags(a, out) == Some(Extend(out, offset, j))
    requires DecodeTags(b, Extend(out, offset, j)) == Some(Extend(Extend(out, offset, j), offset, k))
    ensures DecodeTags(a + b, out) == Some(Extend(out, offset, j + k))
  {
    hide DecodeTags, Extend;
    DecodeConcat(a, b, out);
    ExtendSplit(out, offset, j, k);
  }

  //// How long it is

  /** A literal in a block costs one byte, and one more per 60 bytes at most. */
  lemma LiteralCost(len: nat)
    requires 0 < len <= BLOCK_SIZE
    ensures 1 <= |LiteralHead(len)| <= 3
    ensures 60 * (|LiteralHead(len)| - 1) <= len
  {
    BytesOfLength(len - 1);
  }

  /** A long copy takes three bytes for every 64, and three more. */
  lemma {:induction false} CopyRate(offset: nat, len: nat)
    requires 4 <= len && offset < 65536
    ensures |CopyBytes(offset, len)| <= 3 * (len / 64 + 1)
  {
    if len >= 68 { CopyRate(offset, len - 64); }
  }

  /** A copy saves at least one byte. */
  lemma {:induction false} CopyCost(offset: nat, len: nat)
    requires 4 <= len && offset < 65536
    ensures 2 <= |CopyBytes(offset, len)| < len
  {
    if len >= 68 { CopyCost(offset, len - 64); }
  }
}
