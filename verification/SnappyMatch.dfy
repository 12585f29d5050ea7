/**
 Finding how far two places in the input agree, a word at a time, with the first
 differing byte read off the lowest set bit of an exclusive or.
 */
module SnappyMatch {
  import opened Arith
  import opened BitOps
  import opened Bytes

  //// The portable bit scans

  /** Bits::FindLSBSetNonZero: shifts the bits out by 16, 8, 4, 2 and 1 places. */
  method FindLsb32(n0: nat) returns (rc: nat)
    requires 0 < n0 < WORD
    ensures rc == LowestBit(n0) < 32
  {
    hide LowestBit, Shl;
    var n: nat, r: int, shift: nat := n0, 31, 16;
    ShlLowest(n0, 0);
    ShlOne(n0);
    for i := 5 downto 0
      invariant 0 < n < WORD && shift == Places(i)
      invariant LowestBit(n) == LowestBit(n0) + (31 - r)
      invariant 32 - (if i == 0 then 1 else 2 * shift) <= LowestBit(n) < 32
    {
      var x := Shl(n, shift);
      ShlLowest(n, shift);
      if x != 0 {
        n := x;
        r := r - shift;
      }
      ShlOne(n);
      shift := shift / 2;
    }
    rc := r;
  }

  /** The shift of the turn before last. */
  function Places(i: nat): nat
    requires i <= 5
  {
    if i == 5 then 16 else if i == 4 then 8 else if i == 3 then 4 else if i == 2 then 2 else if i == 1 then 1 else 0
  }

  /** Bits::FindLSBSetNonZero64 */
  method FindLsb64(n: nat) returns (rc: nat)
    requires 0 < n < WORD * WORD
    ensures rc == LowestBit(n) < 64
  {
    hide LowestBit, Pow2;
    WordPower();
    var bottom := n % WORD;
    if bottom == 0 {
      LowestShifted(n / WORD, 32);
      rc := FindLsb32(n / WORD);
      rc := 32 + rc;
    } else {
      LowestOfParts(bottom, n / WORD, 32);
      rc := FindLsb32(bottom);
    }
  }

  //// From bits to bytes

  /** First index where the strings differ, or their common length. */
  function FirstDifference(a: seq<byte>, b: seq<byte>): (d: nat)
    requires |a| == |b|
    ensures d <= |a| && (d < |a| ==> a[d] != b[d])
    ensures forall i :: 0 <= i < d ==> a[i] == b[i]
    ensures d == |a| <==> a == b
  {
    if a == [] then 0 else if a[0] != b[0] then 0 else
    assert a == [a[0]] + a[1..] && b == [b[0]] + b[1..];
    1 + FirstDifference(a[1..], b[1..])
  }

  /** Dropping three bits of the bit index gives the index of the differing byte. */
  lemma {:induction false} BitToByte(a: seq<byte>, b: seq<byte>)
    requires |a| == |b| && a != b
    ensures Xor(LoadLE(a), LoadLE(b)) > 0 && LowestBit(Xor(LoadLE(a), LoadLE(b))) / 8 == FirstDifference(a, b)
    decreases |a|
  {
    hide LoadLE, Xor, LowestBit, FirstDifference;
    FirstByte(a, b);
    if a[0] == b[0] { BitToByte(a[1..], b[1..]); }
    LowByte(a[0] as nat, LoadLE(a[1..]), b[0] as nat, LoadLE(b[1..]));
  }

  lemma FirstByte(a: seq<byte>, b: seq<byte>)
    requires |a| == |b| > 0
    ensures LoadLE(a) == a[0] as nat + 256 * LoadLE(a[1..]) && LoadLE(b) == b[0] as nat + 256 * LoadLE(b[1..])
    ensures FirstDifference(a, b) == if a[0] != b[0] then 0 else 1 + FirstDifference(a[1..], b[1..])
    ensures a[0] == b[0] && a[1..] == b[1..] ==> a == b
  {
    assert a == [a[0]] + a[1..] && b == [b[0]] + b[1..];
  }

  /** The lowest differing bit lies in the low byte, or eight places up in the rest. */
  lemma LowByte(c: nat, x: nat, d: nat, y: nat)
    requires c < 256 && d < 256
    ensures var z := Xor(c + 256 * x, d + 256 * y);
            && (c != d ==> z > 0 && LowestBit(z) < 8)
            && (c == d && Xor(x, y) > 0 ==> z > 0 && LowestBit(z) == 8 + LowestBit(Xor(x, y)))
  {
    hide Pow2, Xor, LowestBit;
    BytePower();
    XorParts(c, x, d, y, 8);
    XorZero(c, d);
    XorBelow(c, d, 8);
    if c != d {
      LowestOfParts(Xor(c, d), Xor(x, y), 8);
      LowestBelow(Xor(c, d), 8);
    } else if Xor(x, y) > 0 {
      LowestShifted(Xor(x, y), 8);
    }
  }

  lemma BytePower()
    ensures Pow2(8) == 256
  {
    Pow2Small();
  }

  //// Matches

  /** n bytes agree. */
  ghost predicate Agree(input: seq<byte>, s1: nat, s2: nat, n: nat)
    requires s1 < s2 && s2 + n <= |input|
  {
    input[s1..s1 + n] == input[s2..s2 + n]
  }

  /** n is the length of the longest match of the two places before the limit. */
  ghost predicate IsMatchLength(input: seq<byte>, s1: nat, s2: nat, limit: nat, n: nat) {
    && s1 < s2 && s2 + n <= limit <= |input|
    && Agree(input, s1, s2, n)
    && (s2 + n < limit ==> input[s1 + n] != input[s2 + n])
  }

  lemma Longer(s: seq<byte>, at: nat, n: nat, w: nat, d: nat)
    requires at + n + w <= |s| && d <= w
    ensures s[at..at + (n + d)] == s[at..at + n] + s[at + n..at + n + w][..d]
  {
  }

  /** What comparing one word adds to a match of n bytes. */
  lemma WordMatch(input: seq<byte>, s1: nat, s2: nat, n: nat, w: nat)
    requires s1 < s2 && s2 + n + w <= |input| && Agree(input, s1, s2, n)
    ensures var d := FirstDifference(input[s1 + n..s1 + n + w], input[s2 + n..s2 + n + w]);
            && Agree(input, s1, s2, n + d)
            && (d < w ==> input[s1 + (n + d)] != input[s2 + (n + d)])
  {
    hide FirstDifference;
    var a, b := input[s1 + n..s1 + n + w], input[s2 + n..s2 + n + w];
    var d := FirstDifference(a, b);
    assert a[..d] == b[..d];
    Longer(input, s1, n, w, d);
    Longer(input, s2, n, w, d);
    if d < w { assert a[d] == input[s1 + (n + d)] && b[d] == input[s2 + (n + d)]; }
  }

  lemma WordsDiffer(a: seq<byte>, b: seq<byte>)
    requires |a| == |b| && (|a| == 4 || |a| == 8)
    ensures LoadLE(a) == LoadLE(b) <==> a == b
    ensures Xor(LoadLE(a), LoadLE(b)) < if |a| == 4 then WORD else WORD * WORD
  {
    var n := 8 * |a|;
    if LoadLE(a) == LoadLE(b) { LoadInjective(a, b); }
    LoadBelow(a);
    LoadBelow(b);
    hide LoadLE, Xor;
    XorBelow(LoadLE(a), LoadLE(b), n);
    assert Pow2(32) == WORD by { WordPower(); }
    assert Pow2(64) == WORD * WORD by { WordPower(); Pow2Add(32, 32); }
  }

  /** Compares one word of four or eight bytes and, if it differs, finds where. */
  method CompareWord(input: seq<byte>, s1: nat, s2: nat, n: nat, w: nat) returns (d: nat)
    requires s1 < s2 && s2 + n + w <= |input| && Agree(input, s1, s2, n) && (w == 4 || w == 8)
    ensures d <= w && Agree(input, s1, s2, n + d)
    ensures d < w ==> input[s1 + (n + d)] != input[s2 + (n + d)]
  {
    hide FirstDifference, LoadLE, Xor, LowestBit;
    var a, b := input[s1 + n..s1 + n + w], input[s2 + n..s2 + n + w];
    WordMatch(input, s1, s2, n, w);
    WordsDiffer(a, b);
    hide Agree;
    if LoadLE(a) == LoadLE(b) { return w; }
    BitToByte(a, b);
    var bits;
    if w == 8 {
      bits := FindLsb64(Xor(LoadLE(a), LoadLE(b)));
    } else {
      bits := FindLsb32(Xor(LoadLE(a), LoadLE(b)));
    }
    return bits / 8;
  }

  lemma OneMore(input: seq<byte>, s1: nat, s2: nat, n: nat)
    requires s1 < s2 && s2 + n < |input| && Agree(input, s1, s2, n) && input[s1 + n] == input[s2 + n]
    ensures Agree(input, s1, s2, n + 1)
  {
    Longer(input, s1, n, 1, 1);
    Longer(input, s2, n, 1, 1);
  }

  /** The last bytes, one at a time. */
  method MatchTail(input: seq<byte>, s1: nat, s2: nat, limit: nat, n: nat) returns (matched: nat)
    requires s1 < s2 && s2 + n <= limit <= |input| && Agree(input, s1, s2, n)
    ensures IsMatchLength(input, s1, s2, limit, matched) && matched >= n
  {
    hide Agree;
    matched := n;
    while s2 + matched < limit && input[s1 + matched] == input[s2 + matched]
      invariant n <= matched && s2 + matched <= limit && Agree(input, s1, s2, matched)
    {
      OneMore(input, s1, s2, matched);
      matched := matched + 1;
    }
  }

  /** The version for 64-bit little-endian machines. */
  method FindMatchLength64(input: seq<byte>, s1: nat, s2: nat, limit: nat) returns (matched: nat, less: bool)
    requires s1 < s2 <= limit <= |input|
    ensures IsMatchLength(input, s1, s2, limit, matched)
    ensures less == (matched < 8)
  {
    assert Agree(input, s1, s2, 0);
    hide Agree;
    matched := 0;
    if s2 + 8 <= limit {
      var d := CompareWord(input, s1, s2, 0, 8);
      if d < 8 { return d, true; }
      matched := 8;
    }
    while s2 + matched + 8 <= limit
      invariant s2 + matched <= limit && Agree(input, s1, s2, matched)
      invariant matched >= 8 || s2 + matched + 8 > limit
    {
      var d := CompareWord(input, s1, s2, matched, 8);
      if d < 8 { return matched + d, false; }
      matched := matched + 8;
    }
    matched := MatchTail(input, s1, s2, limit, matched);
    return matched, matched < 8;
  }

  /** The generic version, with 32-bit words. */
  method FindMatchLength32(input: seq<byte>, s1: nat, s2: nat, limit: nat) returns (matched: nat, less: bool)
    requires s1 < s2 <= limit <= |input|
    ensures IsMatchLength(input, s1, s2, limit, matched)
    ensures less == (matched < 8)
  {
    assert Agree(input, s1, s2, 0);
    hide Agree;
    matched := 0;
    var d: nat := 4;
    while s2 + matched + 4 <= limit && d == 4
      invariant s2 + matched <= limit && Agree(input, s1, s2, matched)
      invariant d <= 4 && (d < 4 ==> s2 + matched < limit && input[s1 + matched] != input[s2 + matched])
      decreases limit - matched, d
    {
      d := CompareWord(input, s1, s2, matched, 4);
      matched := matched + d;
    }
    if d == 4 { matched := MatchTail(input, s1, s2, limit, matched); }
    return matched, matched < 8;
  }
}
