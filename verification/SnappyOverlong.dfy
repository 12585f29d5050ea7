/** An input shorter than 2^32 bytes whose compressed form makes decompression from a flat
    array endless: counters in which no four bytes repeat, so that no fragment gets shorter. */
module SnappyOverlong {
  import opened Arith
  import opened Basics
  import opened Bytes
  import opened SnappyFormat
  import opened SnappyCompress
  import opened SnappyRoundTrip

  /** Big-endian counters of two bytes, from 0 to 32767 in each fragment. */
  function CounterByte(i: nat): byte {
    var c := i % BLOCK_SIZE / 2;
    if i % 2 == 0 then (c / 256) as byte else (c % 256) as byte
  }

  lemma EvenByte(a: nat)
    requires a < 32768
    ensures CounterByte(2 * a) as nat == a / 256 && CounterByte(2 * a + 1) as nat == a % 256
  {
  }

  /** The four bytes at i. */
  function Four(i: nat): seq<byte> { [CounterByte(i), CounterByte(i + 1), CounterByte(i + 2), CounterByte(i + 3)] }

  lemma BothEven(a: nat, b: nat)
    requires a < b < 32768
    ensures Four(2 * a) != Four(2 * b)
  {
    EvenByte(a);
    EvenByte(b);
    hide CounterByte;
    assert Four(2 * a)[0] as nat == a / 256 && Four(2 * a)[1] as nat == a % 256;
    assert Four(2 * b)[0] as nat == b / 256 && Four(2 * b)[1] as nat == b % 256;
  }

  lemma BothOdd(a: nat, b: nat)
    requires a < b < 32767
    ensures Four(2 * a + 1) != Four(2 * b + 1)
  {
    EvenByte(a + 1);
    EvenByte(b + 1);
    hide CounterByte;
    assert Four(2 * a + 1)[1] as nat == (a + 1) / 256 && Four(2 * a + 1)[2] as nat == (a + 1) % 256;
    assert Four(2 * b + 1)[1] as nat == (b + 1) / 256 && Four(2 * b + 1)[2] as nat == (b + 1) % 256;
  }

  /** The last bytes of two counters grow by one, so the first byte of a is 254, but no
      counter is that large. */
  lemma EvenOdd(a: nat, b: nat)
    requires a < 32767 && b < 32766
    ensures Four(2 * a) != Four(2 * b + 1)
  {
    EvenByte(a);
    EvenByte(a + 1);
    EvenByte(b);
    EvenByte(b + 1);
    EvenByte(b + 2);
    hide CounterByte;
    var s, t := Four(2 * a), Four(2 * b + 1);
    assert s[0] as nat == a / 256 && s[1] as nat == a % 256 && s[3] as nat == (a + 1) % 256;
    assert t[0] as nat == b % 256 && t[1] as nat == (b + 1) / 256 && t[3] as nat == (b + 2) / 256;
    Clash(a, b);
  }

  lemma Next(x: nat)
    ensures if x % 256 == 255 then (x + 1) / 256 == x / 256 + 1 && (x + 1) % 256 == 0
            else (x + 1) / 256 == x / 256 && (x + 1) % 256 == x % 256 + 1
  {
  }

  lemma Clash(a: nat, b: nat)
    requires a < 32767 && b < 32766
    ensures !(a / 256 == b % 256 && a % 256 == (b + 1) / 256 && (a + 1) % 256 == (b + 2) / 256)
  {
    Next(a);
    Next(b);
    Next(b + 1);
    assert a / 256 < 128 && (b + 1) / 256 < 128;
  }

  lemma FoursDiffer(i: nat, j: nat)
    requires i < j && j + 4 <= BLOCK_SIZE
    ensures Four(i) != Four(j)
  {
    hide Four;
    var a, b := i / 2, j / 2;
    assert i == 2 * a || i == 2 * a + 1;
    assert j == 2 * b || j == 2 * b + 1;
    if i % 2 == 0 {
      if j % 2 == 0 { BothEven(a, b); } else { EvenOdd(a, b); }
    } else {
      if j % 2 == 0 { EvenOdd(b, a); } else { BothOdd(a, b); }
    }
  }

  lemma CountersNoRepeats(s: seq<byte>)
    requires |s| <= BLOCK_SIZE && forall i :: 0 <= i < |s| ==> s[i] == CounterByte(i)
    ensures NoRepeats(s)
  {
    forall i: nat, j: nat | i < j && j + 4 <= |s| ensures !SameFour(s, i, j) {
      FoursDiffer(i, j);
      hide CounterByte;
      assert s[i..i + 4] == Four(i) && s[j..j + 4] == Four(j);
    }
  }

  lemma CountersNoMatches(data: seq<byte>)
    requires forall i :: 0 <= i < |data| ==> data[i] == CounterByte(i)
    ensures NoMatches(data)
  {
    forall k: nat | BLOCK_SIZE * k < |data| ensures NoRepeats(Fragment(data, k)) {
      var s := Fragment(data, k);
      forall i | 0 <= i < |s| ensures s[i] == CounterByte(i) { Repeats(k, i); }
      CountersNoRepeats(s);
    }
  }

  lemma Repeats(k: nat, i: nat)
    ensures CounterByte(BLOCK_SIZE * k + i) == CounterByte(i)
  {
    AddMultiple(i, k, BLOCK_SIZE);
    AddMultiple(i, 32768 * k, 2);
  }

  /** 2^32 - 1 bytes of counters take more than 2^32 bytes of tags. */
  method Overlong(roomy: bool) returns (data: seq<byte>, compressed: seq<byte>, endless: bool)
    ensures |data| == TWO32 - 1 && Decompressed(compressed) == Some(data) && TagBytes(compressed) >= TWO32
    ensures endless
  {
    hide CounterByte, NoMatches, Decompressed, TagBytes;
    data := seq(TWO32 - 1, i requires 0 <= i => CounterByte(i));
    CountersNoMatches(data);
    var ok, back;
    compressed, ok, endless, back := RoundTrip(data, true, roomy);
  }
}
