/** SnappyDecompressor: the header, the tag loop and the stitching of split tags. */
module SnappyDecompressor {
  import opened Basics
  import opened Bytes
  import opened SnappyFormat
  import opened SnappyWriters
  import opened SnappyDecompress
  import Seqs

  class Decompressor {
    const reader: Source
    /** The buffered bytes from ip_ to ip_limit_, in the reader's region or in scratch_. */
    var window: seq<byte>
    /** The length of the window's region, in 32 bits: what is still to be skipped. */
    var peeked: nat
    var eof: bool
    /** The stitching loop came to a turn that changes nothing: the call never returns. */
    var endless: bool
    /** The input not yet consumed: the window and what comes after it. */
    ghost var input: seq<byte>
    ghost var tail: seq<byte>
    /** The tags lie in a flat array and are 2^32 bytes or more. */
    ghost const big: bool

    ghost predicate Valid()
      reads this, reader
    {
      && peeked <= |reader.rest| && input == window + tail
      && if big then Wraps() else reader.Small() && |window| < TWO32 && tail == reader.rest[peeked..]
    }

    /** What is still to be skipped is short of what is left by a multiple of 2^32, once
        the first region is exposed; so the end of the input is never seen, and a byte may be
        read again once the input is used up. */
    ghost predicate Wraps()
      reads this, reader
      requires peeked <= |reader.rest|
    {
      && reader.whole && |reader.rest| - peeked >= TWO32
      && (tail == [] || (peeked == 0 && tail == reader.rest))
      && (Aligned() || (peeked == 0 && window == [] && tail == reader.rest))
    }

    ghost predicate Aligned()
      reads this, reader
    {
      peeked <= |reader.rest| && Low32(|reader.rest| - peeked) == 0
    }

    /** Nothing is buffered yet. */
    ghost predicate AtStart()
      reads this, reader
    {
      window == [] && peeked == 0 && input == tail == reader.rest && !eof && !endless
    }

    /** All of the next tag is in the window. */
    ghost predicate TagReady()
      reads this
    {
      window != [] && 1 + ExtraBytes(window[0]) <= |window|
    }

    constructor (r: Source)
      ensures reader == r && AtStart()
      ensures big == (r.whole && TagBytes(r.rest) >= TWO32)
    {
      reader, window, peeked, eof, endless, input, tail := r, [], 0, false, false, r.rest, r.rest;
      big := r.whole && TagBytes(r.rest) >= TWO32;
    }

    /** Takes one byte before anything is buffered. */
    method ReadByte() returns (more: bool, c: byte)
      requires AtStart()
      modifies this`input, this`tail, reader
      ensures AtStart() && more == (old(input) != [])
      ensures more ==> c == old(input)[0] && input == old(input)[1..]
    {
      var region := reader.Peek();
      if region == [] { return false, 0; }
      reader.Skip(1);
      input, tail := reader.rest, reader.rest;
      return true, region[0];
    }

    method ReadUncompressedLength() returns (ok: bool, result: nat)
      requires AtStart()
      modifies this`input, this`tail, reader
      ensures AtStart()
      ensures ok == Varint32(old(input)).Some?
      ensures ok ==> Varint32(old(input)).value.0 == result < TWO32
      ensures ok ==> Varint32(old(input)).value.1 <= |old(input)|
      ensures ok ==> input == old(input)[Varint32(old(input)).value.1..]
    {
      ghost var s := input;
      VarintFromLength(s, 0, 0, 1);
      assert Place(0) == 1;
      hide VarintFrom, Place, Shl32, Shr32;
      result := 0;
      var k: nat := 0;  // the shift is 7 * k
      while true
        invariant AtStart() && k <= 5 && k <= |s| && input == s[k..]
        invariant VarintFrom(s, 0, 0, 1) == VarintFrom(s, k, result, Place(k))
        invariant k < 5 ==> result < Place(k)
        decreases 5 - k
      {
        if 7 * k >= 32 { return false, result; }
        var more, c := ReadByte();
        if !more { return false, result; }
        var val := c as nat % 128;
        var shifted := Shl32(val, k);
        LengthDigit(s, k, result);
        if Shr32(shifted, k) != val { return false, result; }
        result := result + shifted;
        if c < 128 { return true, result; }
        k := k + 1;
      }
    }

    /** The region exposed last is all that is left, and nothing of it is used. */
    ghost predicate Exposed()
      reads this, reader
    {
      window == reader.rest && tail == [] && peeked == Low32(|window|)
    }

    /** Drops the window and exposes the next region of the reader. */
    method NextRegion()
      requires Valid()
      modifies this`window, this`peeked, this`input, this`tail, reader
      ensures Valid()
      ensures !big || old(tail) != [] ==> input == old(tail)
      ensures !big ==> (window == [] <==> input == [])
      ensures big ==> Aligned() && Exposed() && |window| >= TWO32 && (old(Aligned()) ==> Low32(|window|) == 0)
    {
      hide Low32;
      reader.Skip(peeked);
      window := reader.Peek();
      peeked := Low32(|window|);
      LowPart(|window|);
      input, tail := reader.rest, if big then [] else reader.rest[peeked..];
      Seqs.SplitAt(input, |window|);
    }

    /** Moves ip_ forward. */
    method Consume(n: nat)
      requires Valid() && n <= |window|
      modifies this`window, this`input
      ensures Valid() && window == old(window)[n..] && input == old(input)[n..]
    {
      Seqs.DropPrefix(window, tail, n);
      input := input[n..];
      window := window[n..];
    }

    /** What a refill does to the state, and why it may fail. */
    twostate predicate Refilled(ok: bool)
      reads this, reader
    {
      && Valid() && (ok ==> !eof && !endless && TagReady() && input == old(input))
      && (endless <==> big && !ok) && (big ==> !eof)
      && (!big && !ok ==> if eof then old(input) == [] else old(input) != [] && Header(old(input)) == None)
      && (big && ok && old(Aligned()) ==> |window| <= |old(window)|)
    }

    /** Fetches bytes until the whole next tag is buffered. */
    method RefillTag() returns (ok: bool)
      requires Valid() && !eof && !endless && |window| < TWO32
      modifies this, reader
      ensures Refilled(ok)
    {
      hide Low32, ExtraBytes, ElementOf;
      if window == [] {
        NextRegion();
        eof := window == [];
        if eof { return false; }
      }
      assert input[0] == window[0];
      var extra := ExtraOf(window[0]);
      var needed := extra + 1;
      var nbuf := Low32(|window|);
      LowPart(|window|);
      if nbuf < needed {
        ok := Stitch(needed);
      } else {
        if nbuf < MAX_TAG_LENGTH { MoveToScratch(); }
        return true;
      }
    }

    /** Keeps what is buffered and skips its region. */
    method MoveToScratch()
      requires Valid() && window != [] && (|window| < TWO32 || Exposed())
      modifies this`window, this`peeked, this`tail, reader
      ensures Valid() && window == old(window)[..Low32(|old(window)|)] && peeked == 0
      ensures big ==> Aligned()
    {
      hide Low32;
      LowPart(|window|);
      var nbuf := Low32(|window|);
      if |window| >= TWO32 { tail := window[nbuf..]; }
      Seqs.SplitAt(window, nbuf);
      window := window[..nbuf];
      reader.Skip(peeked);
      peeked := 0;
    }

    /** One turn of the stitching loop.  A turn that adds nothing leaves everything as it
        was, so the loop then takes it for ever. */
    method Turn(needed: nat) returns (ended: bool, added: nat)
      requires Valid() && peeked == 0 && |window| < needed < TWO32 && (big ==> Aligned())
      modifies this`window, this`tail, reader
      ensures Valid() && |window| <= needed && ended == (old(reader.rest) == [])
      ensures added == |window| - |old(window)| && old(window) <= window
      ensures added == 0 ==> window == old(window) && tail == old(tail) && reader.rest == old(reader.rest)
      ensures big ==> !ended && added == 0
      ensures !big ==> (added == 0 <==> ended)
    {
      hide Low32;
      var src := reader.Peek();
      if src == [] { return true, 0; }
      var length := Low32(|src|);
      LowPart(|src|);
      added := if length < needed - |window| then length else needed - |window|;
      ghost var rest := reader.rest;
      Seqs.SplitAt(rest, added);
      Seqs.Assoc(window, rest[..added], rest[added..]);
      assert src[..added] == rest[..added];
      window := window + src[..added];
      reader.Skip(added);
      if !big { tail := rest[added..]; }
      return false, added;
    }

    /** Copies the pieces of a split tag together. */
    method Stitch(needed: nat) returns (ok: bool)
      requires Valid() && !eof && !endless && window != [] && needed == 1 + ExtraBytes(window[0]) < TWO32
      requires Low32(|window|) < needed && (|window| < TWO32 || Exposed())
      modifies this, reader
      ensures Valid() && !eof && (endless <==> big)
      ensures ok ==> TagReady() && input == old(input)
      ensures !big && !ok ==> |old(input)| < needed
      ensures big ==> !ok
    {
      hide Low32, ExtraBytes;
      LowPart(|window|);
      MoveToScratch();
      while |window| < needed
        invariant Valid() && !eof && !endless && peeked == 0 && |window| <= needed && input == old(input)
        invariant !big ==> window != [] && window[0] == old(window)[0]
        invariant big ==> Aligned() && |window| < needed
        decreases needed - |window|
      {
        var ended, added := Turn(needed);
        if ended { return false; }
        if added == 0 {
          endless := true;
          return false;
        }
      }
      return true;
    }

    method MaybeRefill() returns (ok: bool)
      requires Valid() && !eof && !endless
      modifies this, reader
      ensures Refilled(ok)
    {
      if |window| < MAX_TAG_LENGTH {
        ok := RefillTag();
      } else {
        ok := true;
      }
    }

    //// The tag loop

    /** The loop can go on: a tag is ready, and if the writer can hold the expected
        length then the rest of the input completes what it holds to `result`.  From a flat
        array of 2^32 bytes or more this is so as long as a result is due. */
    ghost predicate Going(out: Output, result: Option<seq<byte>>)
      reads this, reader, out, out.repr
    {
      && Valid() && out.Valid() && this !in out.repr && reader !in out.repr
      && !eof && !endless && TagReady()
      && (Meant(out, result) ==> DecodeTags(input, out.contents) == result)
    }

    ghost predicate Meant(out: Output, result: Option<seq<byte>>)
      reads out
    {
      out.fits && (big ==> !Refused(result, out.expected))
    }

    /** As Going, in the middle of a literal of which `n` bytes are still due. */
    ghost predicate InLiteral(out: Output, n: nat, result: Option<seq<byte>>)
      reads this, reader, out, out.repr
    {
      && Valid() && out.Valid() && this !in out.repr && reader !in out.repr
      && !eof && !endless && (big ==> Aligned())
      && (Meant(out, result) ==> LiteralThen(input, n, out.contents) == result)
    }

    /** Why the loop stopped: at the end of a well-formed stream, never, or at a fault. */
    ghost predicate Stopped(out: Output, result: Option<seq<byte>>)
      reads this, out, out.repr
    {
      && (if eof then !big && !endless && out.Valid() && (out.fits ==> result == Some(out.contents))
          else if endless then big
          else out.fits ==> Refused(result, out.expected))
      && out.Kept() && (!big && out.fits && result.Some? ==> out.contents <= result.value)
    }

    /** Writes the whole window as part of a literal and moves to the next region. */
    method TakePiece(out: Output, n: nat, ghost result: Option<seq<byte>>) returns (ok: bool, left: nat)
      requires InLiteral(out, n, result) && |window| < n
      modifies this, reader, out.repr
      ensures fresh(out.repr - old(out.repr)) && out.expected == old(out.expected) && out.fits == old(out.fits)
      ensures ok ==> InLiteral(out, left, result) && window != [] && left == n - |old(window)|
      ensures ok ==> |out.contents| == |old(out.contents)| + |old(window)| && (!big ==> |input| <= |old(input)|)
      ensures !ok ==> Stopped(out, result)
    {
      hide DecodeTags, LiteralThen;
      ghost var was := out.contents;
      assert window == input[..|window|] && tail == input[|window|..];
      LiteralPieces(input, |window|, n, was);
      ok := out.Append(window);
      if !ok {
        LiteralTooLong(input, n, was, |window|, out.expected);
        return false, n;
      }
      left := n - |window|;
      LiteralEnds(tail, left, out.contents);
      NextRegion();
      ok := window != [];
      out.Keeps();
    }

    /** The last piece of a literal lies in the window. */
    method FinishLiteral(out: Output, n: nat, ghost result: Option<seq<byte>>) returns (more: bool)
      requires InLiteral(out, n, result) && n <= |window|
      modifies this, reader, out.repr
      ensures fresh(out.repr - old(out.repr)) && out.expected == old(out.expected) && out.fits == old(out.fits)
      ensures more ==> Going(out, result) && (!big ==> |input| <= |old(input)|)
      ensures more && big ==> |out.contents| == |old(out.contents)| + n && |window| <= |old(window)|
      ensures !more ==> Stopped(out, result)
    {
      ghost var was := out.contents;
      assert window[..n] == input[..n];
      var ok := out.Append(window[..n]);
      if !ok {
        LiteralTooLong(input, n, was, n, out.expected);
        return false;
      }
      hide DecodeTags;
      Consume(n);
      more := RefillOrStop(out, result);
    }

    /** Refills; without a next tag the loop stops. */
    method RefillOrStop(out: Output, ghost result: Option<seq<byte>>) returns (more: bool)
      requires Valid() && out.Valid() && this !in out.repr && reader !in out.repr && !eof && !endless
      requires Meant(out, result) ==> DecodeTags(input, out.contents) == result
      modifies this, reader
      ensures more ==> Going(out, result) && input == old(input) && (big && old(Aligned()) ==> |window| <= |old(window)|)
      ensures !more ==> Stopped(out, result)
    {
      hide DecodeTags;
      AtEnd(input, out.contents);
      more := MaybeRefill();
      out.Keeps();
    }

    /** Writes the next `n` bytes, across as many regions as they span, and refills. */
    method TakeLiteral(out: Output, n0: nat, ghost result: Option<seq<byte>>) returns (more: bool)
      requires InLiteral(out, n0, result)
      modifies this, reader, out.repr
      ensures fresh(out.repr - old(out.repr)) && out.expected == old(out.expected) && out.fits == old(out.fits)
      ensures more ==> Going(out, result) && (!big ==> |input| <= |old(input)|)
      ensures more && big ==> |out.contents| == |old(out.contents)| + n0
      ensures more && big && n0 <= |old(window)| ==> |window| <= |old(window)|
      ensures !more ==> Stopped(out, result)
    {
      var n: nat := n0;
      while |window| < n
        invariant InLiteral(out, n, result) && (!big ==> |input| <= |old(input)|)
        invariant |out.contents| + n == |old(out.contents)| + n0
        invariant n0 <= |old(window)| ==> window == old(window) && n == n0
        invariant fresh(out.repr - old(out.repr)) && out.expected == old(out.expected) && out.fits == old(out.fits)
        decreases n, if window == [] then 1 else 0
      {
        var ok;
        ok, n := TakePiece(out, n, result);
        if !ok { return false; }
      }
      more := FinishLiteral(out, n, result);
    }

    /** The fast path for a short literal with bytes to spare behind it. */
    method FastLiteral(out: Output, ghost result: Option<seq<byte>>) returns (fast: bool)
      requires Going(out, result) && window[0] as nat % 4 == 0
      modifies this, reader, out.repr
      ensures fresh(out.repr - old(out.repr)) && out.expected == old(out.expected) && out.fits == old(out.fits)
      ensures Going(out, result)
      ensures if fast then (!big ==> |input| < |old(input)|) && |out.contents| > |old(out.contents)|
              else window == old(window) && input == old(input) && out.contents == old(out.contents)
    {
      var literalLength: nat := window[0] as nat / 4 + 1;
      ghost var was := out.contents;
      fast := out.TryFastAppend(window[1..], literalLength);
      if fast {
        ShortLiteral(window, input, literalLength, was);
        Consume(1 + literalLength);
      }
    }

    /** Decodes the length of a literal and moves past its header. */
    method LiteralLength(ghost was: seq<byte>) returns (n: nat)
      requires Valid() && TagReady() && window[0] as nat % 4 == 0
      modifies this`window, this`input
      ensures Valid() && |window| < |old(window)| && (big ==> Aligned())
      ensures |input| < |old(input)| && DecodeTags(old(input), was) == LiteralThen(input, n, was)
    {
      hide DecodeTags, LiteralThen, LoadLE, Header;
      n := window[0] as nat / 4 + 1;
      var extra: nat := 0;
      if n >= 61 {
        extra := n - 60;
        n := (LoadLE(window[1..1 + extra]) + 1) % TWO32;
      }
      WindowLiteral(window, input, n, extra, was);
      Consume(1 + extra);
    }

    /** For 2^32 bytes or more: output is never lost, and without more of it input is used up. */
    ghost predicate Progress(length: nat, before: nat, out: Output)
      reads this, out
    {
      |out.contents| >= length && (|out.contents| == length ==> |window| < before)
    }

    method LiteralTag(out: Output, ghost result: Option<seq<byte>>) returns (more: bool)
      requires Going(out, result) && window[0] as nat % 4 == 0
      modifies this, reader, out.repr
      ensures fresh(out.repr - old(out.repr)) && out.expected == old(out.expected) && out.fits == old(out.fits)
      ensures more ==> Going(out, result)
      ensures more ==> if big then Progress(|old(out.contents)|, |old(window)|, out) else |input| < |old(input)|
      ensures !more ==> Stopped(out, result)
    {
      var fast := FastLiteral(out, result);
      if fast { return true; }
      var n := LiteralLength(out.contents);
      more := TakeLiteral(out, n, result);
    }

    /** Decodes a copy and moves past it. */
    method CopyParts(ghost was: seq<byte>, ghost expected: nat) returns (offset: nat, length: nat)
      requires Valid() && TagReady() && window[0] as nat % 4 != 0
      modifies this`window, this`input
      ensures Valid() && |window| < |old(window)| && offset < TWO64 && (big ==> Aligned())
      ensures |input| < |old(input)|
      ensures DecodeTags(old(input), was) ==
        if offset == 0 || |was| < offset then None else DecodeTags(input, Extend(was, offset, length))
      ensures |was| + length > expected ==> Refused(DecodeTags(old(input), was), expected)
    {
      WindowHeader(window, input);
      var extra, high, len := CopyFields(window[0]);
      var trailer := LoadLE(window[1..1 + extra]);
      LoadBound(window[1..1 + extra]);
      offset, length := high + trailer, len;
      CopyHeader(input, was, offset, length, expected);
      Consume(1 + extra);
    }

    method CopyTag(out: Output, ghost result: Option<seq<byte>>) returns (more: bool)
      requires Going(out, result) && window[0] as nat % 4 != 0
      modifies this, reader, out.repr
      ensures fresh(out.repr - old(out.repr)) && out.expected == old(out.expected) && out.fits == old(out.fits)
      ensures more ==> Going(out, result)
      ensures more ==> if big then Progress(|old(out.contents)|, |old(window)|, out) else |input| < |old(input)|
      ensures !more ==> Stopped(out, result)
    {
      DecodeGrows(input, out.contents);
      hide DecodeTags;
      var offset, length := CopyParts(out.contents, out.expected);
      var ok := out.AppendFromSelf(offset, length);
      if !ok { return false; }
      more := RefillOrStop(out, result);
    }

    method DecompressAllTags(out: Output, ghost result: Option<seq<byte>>)
      requires AtStart() && big == !reader.Small() && out.Valid() && this !in out.repr && reader !in out.repr
      requires DecodeTags(input, out.contents) == result
      modifies this, reader, out.repr
      ensures out.expected == old(out.expected) && out.fits == old(out.fits)
      ensures Stopped(out, result)
    {
      hide DecodeTags, ExtraBytes, Header, Refused;
      assert [] + reader.rest[0..] == reader.rest;
      var more := RefillOrStop(out, result);
      if !more { return; }
      while true
        invariant Going(out, result)
        invariant fresh(out.repr - old(out.repr)) && out.expected == old(out.expected) && out.fits == old(out.fits)
        decreases if big then out.expected - |out.contents| else 0, if big then |window| else |input|
      {
        out.Within();
        if window[0] as nat % 4 == 0 {
          more := LiteralTag(out, result);
        } else {
          more := CopyTag(out, result);
        }
        if !more { return; }
      }
    }
  }

  /** A length as it is kept in 32 bits. */
  function Low32(n: nat): nat { n % TWO32 }

  lemma LowPart(n: nat)
    ensures Low32(n) <= n && Low32(n - Low32(n)) == 0
    ensures n < TWO32 ==> Low32(n) == n
    ensures n >= TWO32 ==> n - Low32(n) >= TWO32
  {
  }

  //// Facts about one tag

  /** The window is the front of the input, so a tag ready in it is the next tag. */
  lemma WindowHeader(window: seq<byte>, input: seq<byte>)
    requires window <= input && window != [] && 1 + ExtraBytes(window[0]) <= |window|
    ensures input[0] == window[0] && input[1..1 + ExtraBytes(input[0])] == window[1..1 + ExtraBytes(window[0])]
    ensures Header(input) == Some((ElementOf(window[0], window[1..1 + ExtraBytes(window[0])]), 1 + ExtraBytes(window[0])))
  {
  }

  lemma LiteralElement(s: seq<byte>)
    requires s != [] && Header(s).Some? && s[0] as nat % 4 == 0
    ensures Header(s).value.0.Literal?
  {
  }

  /** One literal of a tag stream. */
  lemma DecodeLiteral(s: seq<byte>, out: seq<byte>, n: nat, h: nat)
    requires s != [] && Header(s) == Some((Literal(n), h))
    ensures DecodeTags(s, out) == if |s| < h + n then None else DecodeTags(s[h + n..], out + s[h..h + n])
  {
    hide ElementOf, ExtraBytes, Extend, LoadLE;
  }

  /** The meaning of a literal tag. */
  lemma LiteralHeader(s: seq<byte>, out: seq<byte>)
    requires s != [] && Header(s).Some? && s[0] as nat % 4 == 0
    ensures var (e, h) := Header(s).value; e.Literal? && DecodeTags(s, out) == LiteralThen(s[h..], e.len, out)
  {
    LiteralElement(s);
    hide ElementOf, ExtraBytes, DecodeTags;
    var (e, h) := Header(s).value;
    DecodeLiteral(s, out, e.len, h);
    if |s| >= h + e.len {
      assert s[h..][e.len..] == s[h + e.len..] && s[h..][..e.len] == s[h..h + e.len];
    }
  }

  lemma WindowLiteral(window: seq<byte>, input: seq<byte>, n: nat, extra: nat, out: seq<byte>)
    requires window <= input && window != [] && window[0] as nat % 4 == 0 && 1 + ExtraBytes(window[0]) <= |window|
    requires var t := window[0] as nat / 4;
             if t < 60 then extra == 0 && n == t + 1 else extra == t - 59 && n == (LoadLE(window[1..1 + extra]) + 1) % TWO32
    ensures DecodeTags(input, out) == LiteralThen(input[1 + extra..], n, out)
  {
    hide DecodeTags, LiteralThen;
    assert extra == ExtraBytes(window[0]);
    WindowHeader(window, input);
    LiteralHeader(input, out);
  }

  lemma ShortLiteral(window: seq<byte>, input: seq<byte>, n: nat, out: seq<byte>)
    requires window <= input && window != [] && window[0] as nat % 4 == 0
    requires n == window[0] as nat / 4 + 1 <= 16 && 1 + n <= |window|
    ensures DecodeTags(input, out) == DecodeTags(input[1 + n..], out + window[1..][..n])
  {
    hide DecodeTags, Header;
    ShortHeader(window, input, n);
    DecodeLiteral(input, out, n, 1);
    assert input[1..1 + n] == window[1..][..n];
  }

  lemma ShortHeader(window: seq<byte>, input: seq<byte>, n: nat)
    requires window <= input && window != [] && window[0] as nat % 4 == 0 && n == window[0] as nat / 4 + 1 <= 16
    ensures Header(input) == Some((Literal(n), 1))
  {
    assert input[0] == window[0] && ExtraBytes(input[0]) == 0;
  }

  /** The meaning of a copy tag. */
  lemma CopyHeader(s: seq<byte>, out: seq<byte>, offset: nat, n: nat, expected: nat)
    requires s != [] && Header(s).Some? && Header(s).value.0 == Copy(offset, n)
    ensures DecodeTags(s, out) ==
            if offset == 0 || |out| < offset then None else DecodeTags(s[Header(s).value.1..], Extend(out, offset, n))
    ensures |out| + n > expected ==> Refused(DecodeTags(s, out), expected)
  {
    if 0 < offset <= |out| { DecodeGrows(s[Header(s).value.1..], Extend(out, offset, n)); }
  }

  lemma LoadBound(x: seq<byte>)
    requires |x| <= 4
    ensures LoadLE(x) < TWO32
  {
    if |x| > 0 { LoadBound3(x[1..]); }
  }

  lemma LoadBound3(x: seq<byte>)
    requires |x| <= 3
    ensures LoadLE(x) < 0x100_0000
  {
    if |x| > 0 {
      var y := x[1..];
      if |y| > 0 {
        var z := y[1..];
        assert |z| > 0 ==> LoadLE(z) == z[0] as nat + 256 * LoadLE(z[1..]);
      }
    }
  }

  /** A literal may be taken in two pieces. */
  lemma LiteralPieces(s: seq<byte>, k: nat, n: nat, out: seq<byte>)
    requires k <= n && k <= |s|
    ensures LiteralThen(s, n, out) == LiteralThen(s[k..], n - k, out + s[..k])
  {
    if |s| >= n {
      assert s[k..][n - k..] == s[n..];
      Seqs.SplitAt(s[..n], k);
      assert s[..n][..k] == s[..k] && s[..n][k..] == s[k..][..n - k];
      Seqs.Assoc(out, s[..k], s[k..][..n - k]);
    }
  }

  lemma LiteralEnds(s: seq<byte>, n: nat, out: seq<byte>)
    requires n > 0
    ensures s == [] ==> LiteralThen(s, n, out) == None
    ensures LiteralThen(s, n, out).Some? ==> s != []
  {
  }

  /** The input ends, or no whole tag is left of it. */
  lemma AtEnd(s: seq<byte>, out: seq<byte>)
    ensures s == [] ==> DecodeTags(s, out) == Some(out)
    ensures s != [] && Header(s) == None ==> DecodeTags(s, out) == None
  {
  }

  /** Refusing to write past the expected length refuses the stream, and what is written of
      a literal is part of the result. */
  lemma LiteralTooLong(s: seq<byte>, n: nat, out: seq<byte>, piece: nat, expected: nat)
    requires piece <= n && piece <= |s|
    ensures |out| + piece > expected ==> Refused(LiteralThen(s, n, out), expected)
    ensures LiteralThen(s, n, out).Some? ==> out + s[..piece] <= LiteralThen(s, n, out).value
  {
    if |s| >= n { DecodeGrows(s[n..], out + s[..n]); }
  }

  //// The header

  /** 1 << 7 * k. */
  function Place(k: nat): (p: nat)
    ensures 0 < p
  {
    if k == 0 then 1 else if k == 1 then 0x80 else if k == 2 then 0x4000 else if k == 3 then 0x20_0000
    else if k == 4 then 0x1000_0000 else 0x8_0000_0000
  }

  /** x << 7 * k in 32 bits. */
  function Shl32(x: nat, k: nat): nat { x * Place(k) % TWO32 }

  /** x >> 7 * k. */
  function Shr32(x: nat, k: nat): nat { x / Place(k) }

  /** Shifting a digit up and down again loses it only in the fifth byte, when it is
      sixteen or more. */
  lemma ShiftedBack(k: nat, val: nat)
    requires k < 5 && val < 128
    ensures Shr32(Shl32(val, k), k) == val <==> k < 4 || val < 16
    ensures k < 4 || val < 16 ==> Shl32(val, k) == val * Place(k)
  {
    if k == 0 { } else if k == 1 { } else if k == 2 { } else if k == 3 { } else { TopShift(val); }
  }

  lemma TopShift(val: nat)
    requires val < 128
    ensures val * 0x1000_0000 % TWO32 / 0x1000_0000 == val % 16
  {
    var q, r := val / 16, val % 16;
    assert val * 0x1000_0000 == q * TWO32 + r * 0x1000_0000;
  }

  lemma PlaceStep(k: nat, r: nat, d: nat)
    requires k < 5 && r < Place(k) && d < 128
    ensures Place(k + 1) == Place(k) * 128 && r + d * Place(k) < Place(k + 1)
    ensures k < 4 || d < 16 ==> r + d * Place(k) < TWO32
    ensures k == 4 && d >= 16 ==> r + d * Place(k) >= TWO32
  {
  }

  /** One byte of the length: the 32-bit check refuses exactly what is out of range. */
  lemma LengthDigit(s: seq<byte>, k: nat, r: nat)
    requires k < 5 && k < |s| && r < Place(k)
    ensures var val := s[k] as nat % 128; var x := Shl32(val, k);
            if Shr32(x, k) != val then InRange(VarintFrom(s, k, r, Place(k))) == None
            else if s[k] < 128 then VarintFrom(s, k, r, Place(k)) == Some((r + x, k + 1)) && r + x < TWO32
            else VarintFrom(s, k, r, Place(k)) == VarintFrom(s, k + 1, r + x, Place(k + 1)) && (k < 4 ==> r + x < Place(k + 1))
  {
    var val := s[k] as nat % 128;
    ShiftedBack(k, val);
    PlaceStep(k, r, val);
    assert k == 4 ==> VarintFrom(s, 5, r + Place(k) * val, Place(k) * 128) == None;
    hide Place, Shl32, Shr32;
    assert Place(k) * val == val * Place(k);
    assert s[k] >= 128 ==> val == s[k] as nat - 128;
    assert s[k] < 128 ==> val == s[k] as nat;
  }
}
