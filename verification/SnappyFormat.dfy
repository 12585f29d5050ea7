/**
 The Snappy byte format: varints, element headers and the meaning of a tag
 stream.  Everything here is a reference definition; the compressor, the
 decompressor and the writers are proved against it.

 Shifts and masks of the source are written as division, remainder and
 multiplication by the matching power of two.
 */
module SnappyFormat {
  import opened Basics
  import opened Bytes
  import Seqs

  const BLOCK_SIZE: nat := 65536
  const MAX_TAG_LENGTH: nat := 5

  //// Varints

  function VarintBytes(v: nat): (s: seq<byte>)
    decreases v
  {
    if v < 128 then [v as byte] else [(v % 128 + 128) as byte] + VarintBytes(v / 128)
  }

  /** The base-128 number of at most five digits that continues at s[k], where the
      k digits before it are worth `r` and the next digit counts `p` times; with
      the index just past it. */
  function VarintFrom(s: seq<byte>, k: nat, r: nat, p: nat): Option<(nat, nat)>
    requires k <= 5
    decreases 5 - k
  {
    if k == 5 || |s| <= k then None
    else if s[k] < 128 then Some((r + p * s[k] as nat, k + 1))
    else VarintFrom(s, k + 1, r + p * (s[k] as nat - 128), p * 128)
  }

  function InRange(o: Option<(nat, nat)>): Option<(nat, nat)> {
    if o.Some? && o.value.0 < TWO32 then o else None
  }

  /** A varint of at most five bytes whose value fits 32 bits. */
  function Varint32(s: seq<byte>): Option<(nat, nat)> {
    InRange(VarintFrom(s, 0, 0, 1))
  }

  lemma {:induction false} VarintFromLength(s: seq<byte>, k: nat, r: nat, p: nat)
    requires k <= 5
    ensures var o := VarintFrom(s, k, r, p); o.Some? ==> k < o.value.1 <= |s|
    decreases 5 - k
  {
    if k < 5 && k < |s| && s[k] >= 128 {
      VarintFromLength(s, k + 1, r + p * (s[k] as nat - 128), p * 128);
    }
  }

  //// Elements

  datatype Element = Literal(len: nat) | Copy(offset: nat, len: nat)

  /** Bytes that follow the tag byte `c`, before any literal data. */
  function ExtraBytes(c: byte): (k: nat)
    ensures k <= 4
  {
    var t := c as nat;
    if t % 4 == 0 then (if t / 4 < 60 then 0 else t / 4 - 59)
    else if t % 4 == 1 then 1
    else if t % 4 == 2 then 2
    else 4
  }

  /** The element described by tag byte `c` and its extra bytes.  The length of a
      long literal is computed in 32 bits, so it can wrap to zero. */
  function ElementOf(c: byte, extra: seq<byte>): Element
    requires |extra| == ExtraBytes(c)
  {
    var t := c as nat;
    if t % 4 == 0 then
      (if t / 4 < 60 then Literal(t / 4 + 1) else Literal((LoadLE(extra) + 1) % TWO32))
    else if t % 4 == 1 then Copy(t / 32 * 256 + LoadLE(extra), t / 4 % 8 + 4)
    else Copy(LoadLE(extra), t / 4 + 1)
  }

  /** The element at the front of `s` and the length of its header. */
  function Header(s: seq<byte>): Option<(Element, nat)>
    requires s != []
  {
    var k := ExtraBytes(s[0]);
    if |s| < 1 + k then None else Some((ElementOf(s[0], s[1..1 + k]), 1 + k))
  }

  /** `out` extended by `n` bytes, each a repeat of the byte `offset` places back. */
  function Extend(out: seq<byte>, offset: nat, n: nat): (r: seq<byte>)
    requires 0 < offset <= |out|
    ensures |r| == |out| + n
    decreases n
  {
    if n == 0 then out
    else
      var r := Extend(out, offset, n - 1);
      r + [r[|r| - offset]]
  }

  /** What a tag stream `s` appends to `out`; None if it is malformed. */
  function DecodeTags(s: seq<byte>, out: seq<byte>): Option<seq<byte>>
    decreases |s|
  {
    if s == [] then Some(out)
    else if Header(s).None? then None
    else
      var (e, h) := Header(s).value;
      if e.Literal? then
        if |s| < h + e.len then None else DecodeTags(s[h + e.len..], out + s[h..h + e.len])
      else
        if e.offset == 0 || |out| < e.offset then None else DecodeTags(s[h..], Extend(out, e.offset, e.len))
  }

  /** How many bytes follow the length. */
  function TagBytes(s: seq<byte>): int { if Varint32(s).Some? then |s| - Varint32(s).value.1 else 0 }

  /** The data a whole compressed string stands for. */
  function Decompressed(s: seq<byte>): Option<seq<byte>> {
    match Varint32(s)
    case None => None
    case Some((len, n)) =>
      VarintFromLength(s, 0, 0, 1);
      match DecodeTags(s[n..], [])
      case None => None
      case Some(out) => if |out| == len then Some(out) else None
  }

  //// Facts about the format

  /** Byte i of r repeats the byte `offset` places before it. */
  ghost predicate RepeatAt(r: seq<byte>, offset: nat, i: int)
  {
    0 <= i - offset && i < |r| && r[i] == r[i - offset]
  }

  ghost predicate RepeatsFrom(r: seq<byte>, lo: nat, offset: nat) {
    forall i :: lo <= i < |r| ==> RepeatAt(r, offset, i)
  }

  /** The recurrence that Extend satisfies. */
  lemma {:induction false} ExtendRepeats(out: seq<byte>, offset: nat, n: nat)
    requires 0 < offset <= |out|
    ensures RepeatsFrom(Extend(out, offset, n), |out|, offset)
    ensures Extend(out, offset, n)[..|out|] == out
  {
    if n > 0 {
      ExtendRepeats(out, offset, n - 1);
      var p, r := Extend(out, offset, n - 1), Extend(out, offset, n);
      forall i | |out| <= i < |r|
        ensures RepeatAt(r, offset, i)
      {
        if i < |p| { assert RepeatAt(p, offset, i); }
      }
    }
  }

  lemma ExtendPrefix(out: seq<byte>, offset: nat, n: nat)
    requires 0 < offset <= |out|
    ensures Extend(out, offset, n)[..|out|] == out
  {
    ExtendRepeats(out, offset, n);
  }

  /** Extend is determined by its recurrence. */
  lemma {:induction false} ExtendUnique(out: seq<byte>, offset: nat, n: nat, r: seq<byte>)
    requires 0 < offset <= |out|
    requires |r| == |out| + n && r[..|out|] == out
    requires RepeatsFrom(r, |out|, offset)
    ensures r == Extend(out, offset, n)
  {
    if n > 0 {
      var p := r[..|r| - 1];
      forall i | |out| <= i < |p|
        ensures RepeatAt(p, offset, i)
      {
        assert RepeatAt(r, offset, i);
      }
      ExtendUnique(out, offset, n - 1, p);
      assert RepeatAt(r, offset, |r| - 1);
      assert r == p + [r[|r| - 1]];
    } else {
      assert r == out;
    }
  }

  lemma ExtendSplit(out: seq<byte>, offset: nat, a: nat, b: nat)
    requires 0 < offset <= |out|
    ensures Extend(Extend(out, offset, a), offset, b) == Extend(out, offset, a + b)
  {
    var m := Extend(out, offset, a);
    var r := Extend(m, offset, b);
    ExtendRepeats(out, offset, a);
    ExtendRepeats(m, offset, b);
    forall i | |out| <= i < |r|
      ensures RepeatAt(r, offset, i)
    {
      if i < |m| { assert RepeatAt(m, offset, i); }
    }
    ExtendUnique(out, offset, a + b, r);
  }

  lemma {:induction false} DecodeGrows(s: seq<byte>, out: seq<byte>)
    ensures var d := DecodeTags(s, out); d.Some? ==> out <= d.value
    decreases |s|
  {
    if s != [] && Header(s).Some? {
      var (e, h) := Header(s).value;
      if e.Literal? {
        if |s| >= h + e.len { DecodeGrows(s[h + e.len..], out + s[h..h + e.len]); }
      } else if 0 < e.offset <= |out| {
        ExtendPrefix(out, e.offset, e.len);
        DecodeGrows(s[h..], Extend(out, e.offset, e.len));
      }
    }
  }

  lemma HeaderPrefix(t: seq<byte>, s: seq<byte>)
    requires t != [] && Header(t).Some?
    ensures Header(t + s) == Header(t)
  {
    var k := ExtraBytes(t[0]);
    assert (t + s)[1..1 + k] == t[1..1 + k];
  }

  /** One step of decoding when the header is known. */
  lemma DecodeStep(s: seq<byte>, out: seq<byte>, e: Element, h: nat, n: nat)
    requires s != [] && Header(s) == Some((e, h))
    requires n == (if e.Literal? then h + e.len else h) && n <= |s|
    requires e.Copy? ==> 0 < e.offset <= |out|
    ensures h <= |s|
    ensures DecodeTags(s, out) ==
            DecodeTags(s[n..], if e.Literal? then out + s[h..n] else Extend(out, e.offset, e.len))
  {
    hide ElementOf, ExtraBytes, Extend;
  }

  /** Decoding a concatenation is decoding its parts in turn. */
  lemma {:induction false} DecodeConcat(t: seq<byte>, s: seq<byte>, out: seq<byte>)
    requires DecodeTags(t, out).Some?
    ensures DecodeTags(t + s, out) == DecodeTags(s, DecodeTags(t, out).value)
    decreases |t|
  {
    if t == [] {
      assert t + s == s;
    } else {
      HeaderPrefix(t, s);
      var (e, h) := Header(t).value;
      var n := if e.Literal? then h + e.len else h;
      DecodeStep(t, out, e, h, n);
      DecodeStep(t + s, out, e, h, n);
      hide DecodeTags, Header, Extend;
      Seqs.DropPrefix(t, s, n);
      assert (t + s)[h..n] == t[h..n];
      DecodeConcat(t[n..], s, if e.Literal? then out + t[h..n] else Extend(out, e.offset, e.len));
    }
  }
}
