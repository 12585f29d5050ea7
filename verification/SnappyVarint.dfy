/** The 32-bit varint code: the writer, the flat parser and their round trip. */
module SnappyVarint {
  import opened Basics
  import opened Bytes
  import opened SnappyFormat
  import Seqs

  //// Parse32WithLimit, one byte at a time; None where the source returns NULL

  function Fifth(s: seq<byte>, r: nat): Option<(nat, nat)> {
    if |s| <= 4 then None
    else if s[4] < 16 then Some(((r + s[4] as nat % 128 * 0x1000_0000) % TWO32, 5))
    else None
  }

  function Fourth(s: seq<byte>, r: nat): Option<(nat, nat)> {
    if |s| <= 3 then None
    else
      var r' := r + s[3] as nat % 128 * 0x20_0000;
      if s[3] < 128 then Some((r', 4)) else Fifth(s, r')
  }

  function Third(s: seq<byte>, r: nat): Option<(nat, nat)> {
    if |s| <= 2 then None
    else
      var r' := r + s[2] as nat % 128 * 0x4000;
      if s[2] < 128 then Some((r', 3)) else Fourth(s, r')
  }

  function Second(s: seq<byte>, r: nat): Option<(nat, nat)> {
    if |s| <= 1 then None
    else
      var r' := r + s[1] as nat % 128 * 0x80;
      if s[1] < 128 then Some((r', 2)) else Third(s, r')
  }

  function Parse32WithLimit(s: seq<byte>): Option<(nat, nat)> {
    if |s| <= 0 then None
    else
      var r := s[0] as nat % 128;
      if s[0] < 128 then Some((r, 1)) else Second(s, r)
  }

  lemma FifthIs(s: seq<byte>, r: nat)
    requires r < 0x1000_0000
    ensures Fifth(s, r) == InRange(VarintFrom(s, 4, r, 0x1000_0000))
  {
    assert |s| > 4 && s[4] >= 128 ==> VarintFrom(s, 5, r + 0x1000_0000 * (s[4] as nat - 128), 0x1000_0000 * 128) == None;
  }

  lemma FourthIs(s: seq<byte>, r: nat)
    requires r < 0x20_0000
    ensures Fourth(s, r) == InRange(VarintFrom(s, 3, r, 0x20_0000))
  {
    if |s| > 3 && s[3] >= 128 { FifthIs(s, r + 0x20_0000 * (s[3] as nat - 128)); }
  }

  lemma ThirdIs(s: seq<byte>, r: nat)
    requires r < 0x4000
    ensures Third(s, r) == InRange(VarintFrom(s, 2, r, 0x4000))
  {
    if |s| > 2 && s[2] >= 128 { FourthIs(s, r + 0x4000 * (s[2] as nat - 128)); }
  }

  lemma SecondIs(s: seq<byte>, r: nat)
    requires r < 0x80
    ensures Second(s, r) == InRange(VarintFrom(s, 1, r, 0x80))
  {
    if |s| > 1 && s[1] >= 128 { ThirdIs(s, r + 0x80 * (s[1] as nat - 128)); }
  }

  /** The unrolled parser is the base-128 definition with the 32-bit range check. */
  lemma Parse32IsVarint32(s: seq<byte>)
    ensures Parse32WithLimit(s) == Varint32(s)
  {
    if |s| > 0 && s[0] >= 128 { SecondIs(s, s[0] as nat - 128); }
  }

  /** Writes `v` at `at` and returns the place just past it. */
  method Encode32(buf: array<byte>, at: nat, v: nat) returns (end: nat)
    requires v < TWO32 && at + 5 <= buf.Length
    modifies buf
    ensures at < end <= at + 5
    ensures buf[at..end] == VarintBytes(v)
    ensures forall i :: 0 <= i < buf.Length && !(at <= i < at + 5) ==> buf[i] == old(buf[i])
  {
    if v < 0x80 {
      buf[at] := v as byte;
      end := at + 1;
    } else if v < 0x4000 {
      buf[at] := (v % 128 + 128) as byte;
      buf[at + 1] := (v / 128) as byte;
      end := at + 2;
    } else if v < 0x20_0000 {
      buf[at] := (v % 128 + 128) as byte;
      buf[at + 1] := (v / 128 % 128 + 128) as byte;
      buf[at + 2] := (v / 0x4000) as byte;
      end := at + 3;
    } else if v < 0x1000_0000 {
      buf[at] := (v % 128 + 128) as byte;
      buf[at + 1] := (v / 128 % 128 + 128) as byte;
      buf[at + 2] := (v / 0x4000 % 128 + 128) as byte;
      buf[at + 3] := (v / 0x20_0000) as byte;
      end := at + 4;
    } else {
      buf[at] := (v % 128 + 128) as byte;
      buf[at + 1] := (v / 128 % 128 + 128) as byte;
      buf[at + 2] := (v / 0x4000 % 128 + 128) as byte;
      buf[at + 3] := (v / 0x20_0000 % 128 + 128) as byte;
      buf[at + 4] := (v / 0x1000_0000) as byte;
      end := at + 5;
    }
    VarintUnrolled(v);
  }

  /** The five shapes an encoding can have. */
  lemma VarintUnrolled(v: nat)
    requires v < TWO32
    ensures v < 0x80 ==> VarintBytes(v) == [v as byte]
    ensures 0x80 <= v < 0x4000 ==> VarintBytes(v) == [(v % 128 + 128) as byte, (v / 128) as byte]
    ensures 0x4000 <= v < 0x20_0000 ==>
              VarintBytes(v) == [(v % 128 + 128) as byte, (v / 128 % 128 + 128) as byte, (v / 0x4000) as byte]
    ensures 0x20_0000 <= v < 0x1000_0000 ==>
              VarintBytes(v) == [(v % 128 + 128) as byte, (v / 128 % 128 + 128) as byte, (v / 0x4000 % 128 + 128) as byte,
                                 (v / 0x20_0000) as byte]
    ensures 0x1000_0000 <= v ==>
              VarintBytes(v) == [(v % 128 + 128) as byte, (v / 128 % 128 + 128) as byte, (v / 0x4000 % 128 + 128) as byte,
                                 (v / 0x20_0000 % 128 + 128) as byte, (v / 0x1000_0000) as byte]
  {
    var a := v / 128;
    var b := a / 128;
    var c := b / 128;
    assert b == v / 0x4000 && c == v / 0x20_0000 && c / 128 == v / 0x1000_0000;
    if v >= 0x80 {
      assert VarintBytes(v) == [(v % 128 + 128) as byte] + VarintBytes(a);
      if a >= 0x80 {
        assert VarintBytes(a) == [(a % 128 + 128) as byte] + VarintBytes(b);
        if b >= 0x80 {
          assert VarintBytes(b) == [(b % 128 + 128) as byte] + VarintBytes(c);
        }
      }
    }
  }

  /** 128 to the power n. */
  function Pow128(n: nat): nat { if n == 0 then 1 else 128 * Pow128(n - 1) }

  /** Parsing at an encoding gives the value back and stops at its end, whatever follows. */
  lemma {:induction false} VarintFromRoundTrip(v: nat, s: seq<byte>, k: nat, r: nat, p: nat)
    requires k < 5 && k <= |s| && v < Pow128(5 - k)
    requires VarintBytes(v) <= s[k..]
    ensures VarintFrom(s, k, r, p) == Some((r + p * v, k + |VarintBytes(v)|))
    decreases 5 - k
  {
    assert s[k] == s[k..][0] == VarintBytes(v)[0];
    if v >= 128 {
      TailOfEncoding(v, s, k);
      DigitSplit(p, v);
      VarintFromRoundTrip(v / 128, s, k + 1, r + p * (v % 128), p * 128);
    }
  }

  lemma TailOfEncoding(v: nat, s: seq<byte>, k: nat)
    requires v >= 128 && k <= |s| && VarintBytes(v) <= s[k..]
    ensures VarintBytes(v / 128) <= s[k + 1..]
    ensures |VarintBytes(v)| == 1 + |VarintBytes(v / 128)|
  {
    assert s[k + 1..] == s[k..][1..];
    assert VarintBytes(v)[1..] == VarintBytes(v / 128);
  }

  lemma DigitSplit(p: nat, v: nat)
    ensures p * (v % 128) + p * 128 * (v / 128) == p * v
  {
    assert v == v % 128 + 128 * (v / 128);
    assert p * 128 * (v / 128) == p * (128 * (v / 128));
    assert p * (v % 128 + 128 * (v / 128)) == p * (v % 128) + p * (128 * (v / 128));
  }

  lemma Varint32RoundTrip(v: nat, tail: seq<byte>)
    requires v < TWO32
    ensures Varint32(VarintBytes(v) + tail) == Some((v, |VarintBytes(v)|))
  {
    assert Pow128(5) == 128 * Pow128(4) && Pow128(4) == 128 * Pow128(3) && Pow128(3) == 128 * Pow128(2);
    var s := VarintBytes(v) + tail;
    assert s[0..] == s;
    VarintFromRoundTrip(v, s, 0, 0, 1);
  }
}
