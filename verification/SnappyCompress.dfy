/**
 The compressor.  Whatever candidates the hash table offers, the emitted tags
 decode to the input, and no write leaves the space reserved for a fragment.
 */
module SnappyCompress {
  import opened Basics
  import opened Bytes
  import opened SnappyFormat
  import opened SnappyEmit
  import opened SnappyEmitters
  import opened SnappyMatch
  import opened Arith
  import Seqs

  newtype uint16 = x: int | 0 <= x < 65536

  const INPUT_MARGIN: nat := 15
  const HASH_MUL: nat := 0x1e35a7bd

  function MaxCompressedLength(n: nat): nat { 32 + n + n / 6 }

  /** How far the compressor writes for a fragment of n bytes, over-writes included. */
  function Reach(n: nat): (r: nat)
    ensures r <= MaxCompressedLength(n)
  {
    n + n / 60 + 4
  }

  /** No four bytes occur twice. */
  ghost predicate NoRepeats(input: seq<byte>) {
    forall i, j :: 0 <= i < j && j + 4 <= |input| ==> !SameFour(input, i, j)
  }

  ghost predicate SameFour(input: seq<byte>, i: nat, j: nat)
    requires i + 4 <= |input| && j + 4 <= |input|
  {
    input[i..i + 4] == input[j..j + 4]
  }

  /** UNALIGNED_LOAD32 at place i. */
  function Load32(input: seq<byte>, i: nat): nat
    requires i + 4 <= |input|
  {
    LoadLE(input[i..i + 4])
  }

  /** Multiplies in 32 bits and keeps the top bits; `scale` is 1 << shift. */
  function HashBytes(bytes: nat, scale: nat): nat
    requires 0 < scale
  {
    bytes * HASH_MUL % TWO32 / scale
  }

  lemma HashInTable(bytes: nat, scale: nat, tableSize: nat)
    requires 0 < scale && scale * tableSize == TWO32
    ensures HashBytes(bytes, scale) < tableSize
  {
    DivBelow(bytes * HASH_MUL % TWO32, scale, tableSize);
  }

  /** Every entry is a place before p. */
  ghost predicate TableBelow(table: array<uint16>, p: nat)
    reads table
  {
    forall h :: 0 <= h < table.Length ==> table[h] as nat < p
  }

  /** The tags written so far since `start` decode, after `pre`, to the input up to
      nextEmit; they exceed it by at most one byte in sixty and `slack` sixtieths. */
  ghost predicate Emitted(op: array<byte>, start: nat, cur: nat, pre: seq<byte>, input: seq<byte>, nextEmit: nat, slack: nat)
    reads op
  {
    && start <= cur <= op.Length && nextEmit <= |input|
    && DecodeTags(op[start..cur], pre) == Some(pre + input[..nextEmit])
    && 60 * (cur - start - nextEmit) <= nextEmit + slack
  }

  //// The search

  /** 32 times the distance from the j-th place a search looks at to the next, or up to 31 more. */
  ghost function Skip(j: nat): (s: nat)
    ensures s >= 32
  {
    if j == 0 then 32 else Skip(j - 1) + Skip(j - 1) / 32
  }

  /** The j-th place that a search from ip looks at. */
  ghost function Probe(ip: nat, j: nat): nat {
    if j == 0 then ip else Probe(ip, j - 1) + Skip(j - 1) / 32
  }

  /** No place is skipped among the first 32. */
  lemma {:induction false} ProbesAtFirst(ip: nat, j: nat)
    requires j <= 32
    ensures Probe(ip, j) == ip + j && Skip(j) == 32 + j
  {
    if j > 0 { ProbesAtFirst(ip, j - 1); }
  }

  /** The j-th place is far enough from the end. */
  ghost predicate Looked(input: seq<byte>, ip: nat, j: nat) {
    Probe(ip, j + 1) + INPUT_MARGIN <= |input|
  }

  /** What the j-th look finds in bucket h: the last place looked at with that hash, or else
      what the table held. */
  ghost function Bucket(input: seq<byte>, scale: nat, table: seq<uint16>, ip: nat, j: nat, h: nat): nat
    requires 0 < scale && h < |table|
  {
    if j == 0 then table[h] as nat
    else
      var p := Probe(ip, j - 1);
      if p + 4 <= |input| && HashBytes(Load32(input, p), scale) == h then p else Bucket(input, scale, table, ip, j - 1, h)
  }

  /** c is what the j-th look finds, and the next four bytes there are the same. */
  ghost predicate Hit(input: seq<byte>, scale: nat, table: seq<uint16>, ip: nat, j: nat, c: nat)
    requires 0 < scale
  {
    var p := Probe(ip, j);
    && p + 4 <= |input| && HashBytes(Load32(input, p), scale) < |table|
    && c == Bucket(input, scale, table, ip, j, HashBytes(Load32(input, p), scale))
    && c + 4 <= |input| && SameFour(input, c, p)
  }

  /** No look before the j-th is a hit. */
  ghost predicate NoHit(input: seq<byte>, scale: nat, table: seq<uint16>, ip: nat, j: nat)
    requires 0 < scale
  {
    forall i: nat, c: nat :: i < j ==> !Hit(input, scale, table, ip, i, c)
  }

  /** Looks for a place with the same next four bytes as a place the table knows,
      skipping ahead faster the longer nothing is found: returns the first hit. */
  method FindCandidate(input: seq<byte>, table: array<uint16>, scale: nat, ip0: nat, hash0: nat)
    returns (found: bool, ip: nat, candidate: nat, ghost looks: nat)
    requires INPUT_MARGIN <= |input| <= BLOCK_SIZE && 0 < ip0 && ip0 + 4 <= |input|
    requires 0 < scale && scale * table.Length == TWO32 && hash0 == HashBytes(Load32(input, ip0), scale)
    requires TableBelow(table, ip0)
    modifies table
    ensures found ==> ip0 <= ip < |input| - INPUT_MARGIN && candidate < ip
    ensures found ==> TableBelow(table, ip + 1)
    ensures found ==> input[candidate..candidate + 4] == input[ip..ip + 4]
    ensures NoHit(input, scale, old(table[..]), ip0, looks) && ip == Probe(ip0, looks)
    ensures found <==> Looked(input, ip0, looks)
    ensures found ==> Hit(input, scale, old(table[..]), ip0, looks, candidate)
  {
    hide Load32, HashBytes, Bucket, Hit, NoHit, Tracked, Skip, Probe;
    var ipLimit := |input| - INPUT_MARGIN;
    var skip: nat := 32;
    var nextIp, nextHash := ip0, hash0;
    ip, candidate, looks := ip0, 0, 0;
    ghost var was := table[..];
    NoLooks(input, table, scale, ip0);
    while true
      invariant ip0 <= nextIp && nextIp + 4 <= |input| && nextIp == Probe(ip0, looks) && skip == Skip(looks)
      invariant nextHash == HashBytes(Load32(input, nextIp), scale)
      invariant TableBelow(table, nextIp) && NoHit(input, scale, was, ip0, looks)
      invariant Tracked(table, input, scale, was, ip0, looks)
      decreases |input| - nextIp
    {
      ip := nextIp;
      var hash := nextHash;
      NextProbe(ip0, looks);
      var between := skip / 32;
      skip := skip + between;
      nextIp := ip + between;
      if nextIp > ipLimit { return false, ip, candidate, looks; }
      nextHash := HashBytes(Load32(input, nextIp), scale);
      candidate := Look(input, table, scale, ip, hash, was, ip0, looks);
      if Load32(input, ip) == Load32(input, candidate) {
        return true, ip, candidate, looks;
      }
      looks := looks + 1;
    }
  }

  /** The table is what `looks` looks from ip0 made of `was`. */
  ghost predicate Tracked(table: array<uint16>, input: seq<byte>, scale: nat, was: seq<uint16>, ip0: nat, looks: nat)
    requires 0 < scale
    reads table
  {
    table.Length == |was| && forall h :: 0 <= h < |was| ==> table[h] as nat == Bucket(input, scale, was, ip0, looks, h)
  }

  lemma NoLooks(input: seq<byte>, table: array<uint16>, scale: nat, ip0: nat)
    requires 0 < scale
    ensures Tracked(table, input, scale, table[..], ip0, 0) && NoHit(input, scale, table[..], ip0, 0)
    ensures Probe(ip0, 0) == ip0 && Skip(0) == 32
  {
  }

  lemma NextProbe(ip: nat, j: nat)
    ensures Skip(j) >= 32 && Skip(j + 1) == Skip(j) + Skip(j) / 32 && Probe(ip, j + 1) == Probe(ip, j) + Skip(j) / 32
  {
  }

  /** Takes what the bucket holds and leaves the place there. */
  method Look(input: seq<byte>, table: array<uint16>, scale: nat, ip: nat, hash: nat,
              ghost was: seq<uint16>, ghost ip0: nat, ghost looks: nat)
    returns (candidate: nat)
    requires ip + 4 <= |input| <= BLOCK_SIZE && 0 < scale && scale * table.Length == TWO32
    requires hash == HashBytes(Load32(input, ip), scale) && ip == Probe(ip0, looks)
    requires TableBelow(table, ip) && Tracked(table, input, scale, was, ip0, looks) && NoHit(input, scale, was, ip0, looks)
    modifies table
    ensures candidate < ip && TableBelow(table, ip + 1) && Tracked(table, input, scale, was, ip0, looks + 1)
    ensures Hit(input, scale, was, ip0, looks, candidate) <==> Load32(input, ip) == Load32(input, candidate)
    ensures SameFour(input, candidate, ip) <==> Load32(input, ip) == Load32(input, candidate)
    ensures Load32(input, ip) != Load32(input, candidate) ==> NoHit(input, scale, was, ip0, looks + 1)
  {
    hide Load32, HashBytes, Skip, Probe;
    HashInTable(Load32(input, ip), scale, table.Length);
    candidate := table[hash] as nat;
    table[hash] := (ip % 65536) as uint16;
    SameLoads(input, candidate, ip);
  }

  lemma SameLoads(input: seq<byte>, i: nat, j: nat)
    requires i + 4 <= |input| && j + 4 <= |input|
    ensures Load32(input, j) == Load32(input, i) <==> SameFour(input, i, j)
  {
    if Load32(input, j) == Load32(input, i) { LoadInjective(input[j..j + 4], input[i..i + 4]); }
  }

  lemma AppendLiteral(t: seq<byte>, pre: seq<byte>, input: seq<byte>, a: nat, b: nat)
    requires a < b <= |input| <= BLOCK_SIZE && DecodeTags(t, pre) == Some(pre + input[..a])
    ensures DecodeTags(t + LiteralBytes(input[a..b]), pre) == Some(pre + input[..b])
  {
    hide DecodeTags, LiteralBytes;
    DecodeConcat(t, LiteralBytes(input[a..b]), pre);
    LiteralDecodes(input[a..b], pre + input[..a]);
    Seqs.Assoc(pre, input[..a], input[a..b]);
    assert input[..a] + input[a..b] == input[..b];
  }

  /** A copy of bytes that match is the next part of the input. */
  lemma ExtendMatch(pre: seq<byte>, input: seq<byte>, candidate: nat, ip: nat, n: nat)
    requires candidate < ip && ip + n <= |input| && input[candidate..candidate + n] == input[ip..ip + n]
    ensures Extend(pre + input[..ip], ip - candidate, n) == pre + input[..ip + n]
  {
    var r := pre + input[..ip + n];
    var off := ip - candidate;
    forall i | |pre| + ip <= i < |r|
      ensures RepeatAt(r, off, i)
    {
      var k := i - |pre| - ip;
      assert input[ip..ip + n][k] == input[candidate..candidate + n][k];
    }
    assert r[..|pre| + ip] == pre + input[..ip];
    ExtendUnique(pre + input[..ip], off, n, r);
  }

  lemma AppendCopy(t: seq<byte>, pre: seq<byte>, input: seq<byte>, candidate: nat, ip: nat, n: nat)
    requires candidate < ip && ip + n <= |input| <= BLOCK_SIZE && 4 <= n
    requires input[candidate..candidate + n] == input[ip..ip + n]
    requires DecodeTags(t, pre) == Some(pre + input[..ip])
    ensures DecodeTags(t + CopyBytes(ip - candidate, n), pre) == Some(pre + input[..ip + n])
  {
    hide DecodeTags, CopyBytes, Extend;
    DecodeConcat(t, CopyBytes(ip - candidate, n), pre);
    CopyDecodes(ip - candidate, n, pre + input[..ip]);
    ExtendMatch(pre, input, candidate, ip, n);
  }

  /** Emits input[nextEmit..ip] as a literal. */
  method EmitRun(op: array<byte>, start: nat, cur: nat, input: seq<byte>, nextEmit: nat, ip: nat, fast: bool, ghost pre: seq<byte>)
    returns (end: nat)
    requires nextEmit < ip <= |input| <= BLOCK_SIZE && start + Reach(|input|) <= op.Length
    requires Emitted(op, start, cur, pre, input, nextEmit, 0) && (fast ==> nextEmit + 16 <= |input|)
    modifies op
    ensures Emitted(op, start, end, pre, input, ip, 60) && OnlyChanged(op, start, start + Reach(|input|))
    ensures end == cur + |LiteralHead(ip - nextEmit)| + (ip - nextEmit) > cur + (ip - nextEmit)
  {
    hide DecodeTags, LiteralBytes, LiteralHead;
    LiteralCost(ip - nextEmit);
    ghost var t := op[start..cur];
    end := EmitLiteral(op, cur, input, nextEmit, ip - nextEmit, fast);
    AppendLiteral(t, pre, input, nextEmit, ip);
    assert op[start..cur] == t;
    Joined(op, start, cur, end);
  }

  lemma Joined(op: array<byte>, a: nat, b: nat, c: nat)
    requires a <= b <= c <= op.Length
    ensures op[a..c] == op[a..b] + op[b..c]
  {
  }

  /** Emits the longest copy for a four-byte match. */
  method EmitMatch(op: array<byte>, start: nat, cur: nat, input: seq<byte>, candidate: nat, ip: nat, ghost pre: seq<byte>)
    returns (end: nat, next: nat)
    requires candidate < ip && ip + 4 <= |input| <= BLOCK_SIZE && start + Reach(|input|) <= op.Length
    requires input[candidate..candidate + 4] == input[ip..ip + 4]
    requires Emitted(op, start, cur, pre, input, ip, 60)
    modifies op
    ensures ip + 4 <= next <= |input| && (next < |input| ==> input[next] != input[candidate + (next - ip)])
    ensures end == cur + |CopyBytes(ip - candidate, next - ip)|
    ensures Emitted(op, start, end, pre, input, next, 0) && OnlyChanged(op, start, start + Reach(|input|))
  {
    hide DecodeTags, CopyBytes;
    var n, less := FindMatchLength64(input, candidate + 4, ip + 4, |input|);
    var matched := 4 + n;
    next := ip + matched;
    JoinMatch(input, candidate, ip, n);
    CopyCost(ip - candidate, matched);
    ghost var t := op[start..cur];
    end := EmitCopy(op, cur, ip - candidate, matched, less);
    AppendCopy(t, pre, input, candidate, ip, matched);
    assert op[start..cur] == t;
    Joined(op, start, cur, end);
  }

  lemma JoinMatch(input: seq<byte>, candidate: nat, ip: nat, n: nat)
    requires candidate < ip && ip + 4 + n <= |input|
    requires input[candidate..candidate + 4] == input[ip..ip + 4]
    requires input[candidate + 4..candidate + 4 + n] == input[ip + 4..ip + 4 + n]
    ensures input[candidate..candidate + (4 + n)] == input[ip..ip + (4 + n)]
  {
    assert input[candidate..candidate + (4 + n)] == input[candidate..candidate + 4] + input[candidate + 4..candidate + 4 + n];
    assert input[ip..ip + (4 + n)] == input[ip..ip + 4] + input[ip + 4..ip + 4 + n];
  }

  /** Stores place p in the bucket of the four bytes at place i. */
  method Remember(input: seq<byte>, table: array<uint16>, scale: nat, i: nat) returns (was: nat)
    requires i + 4 <= |input| && i < 65536 && 0 < scale && scale * table.Length == TWO32
    requires TableBelow(table, i + 1)
    modifies table
    ensures was <= i && TableBelow(table, i + 1)
    ensures old(TableBelow(table, i)) ==> was < i
    ensures var h := HashBytes(Load32(input, i), scale);
            h < table.Length && was == old(table[h]) as nat && table[..] == old(table[..])[h := i as uint16]
  {
    hide Load32, HashBytes;
    var hash := HashBytes(Load32(input, i), scale);
    HashInTable(Load32(input, i), scale, table.Length);
    was := table[hash] as nat;
    table[hash] := (i % 65536) as uint16;
  }

  /** Emits copies as long as the place after one matches a remembered place; `more`
      is false near the end of the input. */
  method EmitMatches(op: array<byte>, start: nat, cur0: nat, input: seq<byte>, table: array<uint16>, scale: nat,
                     candidate0: nat, ip0: nat, ghost pre: seq<byte>)
    returns (more: bool, cur: nat, ip: nat)
    requires candidate0 < ip0 && ip0 + 4 <= |input| <= BLOCK_SIZE && start + Reach(|input|) <= op.Length
    requires INPUT_MARGIN <= |input| && 0 < scale && scale * table.Length == TWO32 && TableBelow(table, ip0 + 1)
    requires input[candidate0..candidate0 + 4] == input[ip0..ip0 + 4]
    requires Emitted(op, start, cur0, pre, input, ip0, 60)
    modifies op, table
    ensures ip0 < ip <= |input| && Emitted(op, start, cur, pre, input, ip, 0)
    ensures OnlyChanged(op, start, start + Reach(|input|))
    ensures more ==> ip < |input| - INPUT_MARGIN && TableBelow(table, ip + 1)
    ensures AllSame(input) ==> !more && ip == |input| && cur == cur0 + |CopyBytes(ip0 - candidate0, |input| - ip0)|
  {
    hide DecodeTags, CopyBytes;
    var candidate: nat := candidate0;
    ip, cur := ip0, cur0;
    while true
      invariant AllSame(input) ==> ip == ip0 && cur == cur0 && candidate == candidate0
      invariant ip0 <= ip && candidate < ip && ip + 4 <= |input| && TableBelow(table, ip + 1)
      invariant input[candidate..candidate + 4] == input[ip..ip + 4]
      invariant Emitted(op, start, cur, pre, input, ip, 60)
      invariant OnlyChanged(op, start, start + Reach(|input|))
      decreases |input| - ip
    {
      cur, ip := EmitMatch(op, start, cur, input, candidate, ip, pre);
      if ip >= |input| - INPUT_MARGIN { return false, cur, ip; }
      var _ := Remember(input, table, scale, ip - 1);
      candidate := Remember(input, table, scale, ip);
      if Load32(input, ip) != Load32(input, candidate) { return true, cur, ip; }
      LoadInjective(input[ip..ip + 4], input[candidate..candidate + 4]);
    }
  }

  /** Equal bytes, and enough of them for a search. */
  ghost predicate Alike(input: seq<byte>) { |input| >= 17 && AllSame(input) }

  ghost predicate AllSame(input: seq<byte>) { forall i :: 0 <= i < |input| ==> input[i] == input[0] }

  /** Among equal bytes the first look is a hit. */
  lemma AlikeHit(input: seq<byte>, scale: nat, table: seq<uint16>, looks: nat)
    requires Alike(input) && 0 < scale && scale * |table| == TWO32 && forall h :: 0 <= h < |table| ==> table[h] == 0
    requires NoHit(input, scale, table, 1, looks)
    ensures looks == 0 && Looked(input, 1, 0)
    ensures forall c: nat :: Hit(input, scale, table, 1, 0, c) ==> c == 0
  {
    HashInTable(Load32(input, 1), scale, |table|);
    hide Load32, HashBytes;
    ProbesAtFirst(1, 1);
    assert SameFour(input, 0, 1);
    assert Hit(input, scale, table, 1, 0, 0);
  }

  /** One turn of the main loop: a search, the literal before what it finds, and copies. */
  method Turn(op: array<byte>, start: nat, cur: nat, input: seq<byte>, table: array<uint16>, scale: nat,
              nextEmit: nat, ip: nat, ghost pre: seq<byte>)
    returns (more: bool, end: nat, emit: nat)
    requires INPUT_MARGIN <= |input| <= BLOCK_SIZE && start + Reach(|input|) <= op.Length
    requires 0 < scale && scale * table.Length == TWO32
    requires nextEmit + 1 == ip && ip + 4 <= |input| && TableBelow(table, ip)
    requires Emitted(op, start, cur, pre, input, nextEmit, 0)
    modifies op, table
    ensures nextEmit <= emit <= |input| && Emitted(op, start, end, pre, input, emit, 0)
    ensures OnlyChanged(op, start, start + Reach(|input|))
    ensures NoRepeats(input) ==> !more && emit == nextEmit && end == cur
    ensures more ==> nextEmit < emit < |input| - INPUT_MARGIN && TableBelow(table, emit + 1)
    ensures Alike(input) && nextEmit == 0 && cur == start && (forall h :: 0 <= h < table.Length ==> old(table[h]) == 0) ==>
      !more && emit == |input| && end == start + 2 + |CopyBytes(1, |input| - 1)|
  {
    hide DecodeTags, CopyBytes, LiteralHead, Hit;
    var found, place, candidate, looks := FindCandidate(input, table, scale, ip, HashBytes(Load32(input, ip), scale));
    if Alike(input) && nextEmit == 0 && forall h :: 0 <= h < table.Length ==> old(table[h]) == 0 {
      AlikeHit(input, scale, old(table[..]), looks);
    }
    if !found { return false, cur, nextEmit; }
    assert SameFour(input, candidate, place);
    HeadOfOne();
    end := EmitRun(op, start, cur, input, nextEmit, place, true, pre);
    more, end, emit := EmitMatches(op, start, end, input, table, scale, candidate, place, pre);
  }

  lemma HeadOfOne()
    ensures |LiteralHead(1)| == 1
  {
  }

  /** The main loop of CompressFragment, for a table indexed by the top bits that
      division by `scale` leaves. */
  method CompressScaled(input: seq<byte>, op: array<byte>, start: nat, table: array<uint16>, scale: nat, ghost pre: seq<byte>)
    returns (end: nat)
    requires |input| <= BLOCK_SIZE && start + Reach(|input|) <= op.Length
    requires 0 < scale && scale * table.Length == TWO32
    requires forall h :: 0 <= h < table.Length ==> table[h] == 0
    modifies op, table
    ensures start <= end <= start + |input| + |input| / 60 + 1
    ensures NoRepeats(input) && input != [] ==> end > start + |input|
    ensures Alike(input) ==> end <= start + 2 + 3 * (|input| / 64 + 1)
    ensures DecodeTags(op[start..end], pre) == Some(pre + input)
    ensures OnlyChanged(op, start, start + Reach(|input|))
  {
    hide DecodeTags, CopyBytes, LiteralHead, NoRepeats, AllSame;
    end := start;
    var nextEmit: nat := 0;
    NothingEmitted(op, start, pre, input);
    if Alike(input) { CopyRate(1, |input| - 1); }
    if |input| >= INPUT_MARGIN {
      var ip: nat := 1;
      var more := true;
      while more
        invariant nextEmit <= |input| && Emitted(op, start, end, pre, input, nextEmit, 0)
        invariant OnlyChanged(op, start, start + Reach(|input|))
        invariant NoRepeats(input) ==> nextEmit == 0 && end == start
        invariant more ==> nextEmit + 1 == ip && ip + 4 <= |input| && TableBelow(table, ip)
        invariant more && nextEmit == 0 ==> end == start && forall h :: 0 <= h < table.Length ==> table[h] == 0
        invariant Alike(input) ==> if more then nextEmit == 0 else nextEmit == |input| && end == start + 2 + |CopyBytes(1, |input| - 1)|
        decreases more, |input| - nextEmit
      {
        more, end, nextEmit := Turn(op, start, end, input, table, scale, nextEmit, ip, pre);
        ip := nextEmit + 1;
      }
    }
    if nextEmit < |input| {
      end := EmitRun(op, start, end, input, nextEmit, |input|, false, pre);
    }
    assert input[..|input|] == input;
  }

  lemma NothingEmitted(op: array<byte>, start: nat, pre: seq<byte>, input: seq<byte>)
    requires start <= op.Length
    ensures Emitted(op, start, start, pre, input, 0, 0)
  {
    assert op[start..start] == [] && pre + input[..0] == pre;
  }

  //// The hash table

  /** floor(log2(n)), by halving the number of bits looked at. */
  method Log2Floor(n: nat) returns (log: int)
    requires n < TWO32
    ensures n == 0 ==> log == -1
    ensures n > 0 ==> 0 <= log < 32 && Pow2(log) <= n < 2 * Pow2(log)
  {
    if n == 0 { return -1; }
    var r: nat, value: nat, shift: nat, i: int := 0, n, 16, 4;
    ghost var bits: nat := 32;
    Pow2Small();
    assert Pow2(4) == 16 && Pow2(1) == 2;
    ghost var whole := Shr(n, 0);
    assert whole == n;
    hide Pow2, Shr;
    while i >= 0
      invariant -1 <= i <= 4 && (i >= 0 ==> shift == Pow2(i) && bits == 2 * shift) && (i < 0 ==> bits == 1)
      invariant r + bits <= 32 && 0 < value < Pow2(bits) && value == Shr(n, r)
    {
      Halve(n, r, shift, value);
      var x := Shr(value, shift);
      if x != 0 {
        value := x;
        r := r + shift;
      }
      bits := shift;
      HalfShift(i);
      shift, i := shift / 2, i - 1;
    }
    TopBit(n, r);
    return r;
  }

  lemma TopBit(n: nat, r: nat)
    requires Shr(n, r) == 1
    ensures Pow2(r) <= n < 2 * Pow2(r)
  {
    Pow2Positive(r);
    assert n == n / Pow2(r) * Pow2(r) + n % Pow2(r);
  }

  lemma HalfShift(i: nat)
    ensures i > 0 ==> Pow2(i) / 2 == Pow2(i - 1) && Pow2(i) == 2 * Pow2(i - 1)
    ensures i == 0 ==> Pow2(i) == 1
  {
  }

  lemma Halve(n: nat, r: nat, shift: nat, value: nat)
    requires value == Shr(n, r) && value < Pow2(2 * shift)
    ensures Shr(value, shift) == Shr(n, r + shift) < Pow2(shift)
    ensures Shr(value, shift) == 0 ==> value < Pow2(shift)
  {
    hide Pow2, Shr;
    ShrShr(n, r, shift);
    assert shift + shift == 2 * shift;
    ShrBelow(value, shift, shift);
    ShrZero(value, shift);
  }

  /** A zeroed table of 256 to 16384 buckets, the least power of two that is not below
      the input size, or the largest allowed. */
  method GetHashTable(inputSize: nat) returns (table: array<uint16>, ghost k: nat)
    ensures fresh(table) && 8 <= k <= 14 && table.Length == Pow2(k)
    ensures k < 14 ==> inputSize <= table.Length
    ensures k > 8 ==> table.Length < 2 * inputSize
    ensures forall h :: 0 <= h < table.Length ==> table[h] == 0
  {
    var size: nat := 256;
    k := 8;
    Pow2Small();
    assert Pow2(14) == 16384 by { Pow2Add(8, 6); }
    while size < 16384 && size < inputSize
      invariant 8 <= k <= 14 && size == Pow2(k) && (k > 8 ==> size < 2 * inputSize)
      decreases 14 - k
    {
      size, k := size * 2, k + 1;
    }
    table := new uint16[size](_ => 0);
  }

  /** Compresses one fragment into op, from `start` on. */
  method CompressFragment(input: seq<byte>, op: array<byte>, start: nat, table: array<uint16>, ghost k: nat, ghost pre: seq<byte>)
    returns (end: nat)
    requires |input| <= BLOCK_SIZE && start + Reach(|input|) <= op.Length
    requires k < 32 && table.Length == Pow2(k)
    requires forall h :: 0 <= h < table.Length ==> table[h] == 0
    modifies op, table
    ensures start <= end <= start + |input| + |input| / 60 + 1
    ensures NoRepeats(input) && input != [] ==> end > start + |input|
    ensures Alike(input) ==> end <= start + 2 + 3 * (|input| / 64 + 1)
    ensures DecodeTags(op[start..end], pre) == Some(pre + input)
    ensures OnlyChanged(op, start, start + Reach(|input|))
  {
    Pow2Small();
    TableScale(k);
    hide Pow2;
    var log := Log2Floor(table.Length);
    LogUnique(k, log);
    var shift := 32 - log;
    end := CompressScaled(input, op, start, table, Pow2(shift), pre);
  }

  lemma TableScale(k: nat)
    requires k < 32
    ensures 0 < Pow2(k) < Pow2(32) && 0 < Pow2(32 - k) && Pow2(32 - k) * Pow2(k) == Pow2(32)
  {
    Pow2Positive(k);
    Pow2Positive(32 - k);
    Pow2Add(32 - k, k);
    Pow2Monotone(k + 1, 32);
  }

  lemma LogUnique(k: nat, log: nat)
    requires 0 < Pow2(log) <= Pow2(k) < 2 * Pow2(log)
    ensures log == k
  {
    if log < k { Pow2Monotone(log + 1, k); } else if k < log { Pow2Monotone(k, log - 1); }
  }
}
