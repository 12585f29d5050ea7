/**
 The entry points of decompression.  All of them accept exactly the strings that
 Decompressed gives a meaning to, and deliver that meaning, however the source
 splits its bytes and whichever writer receives the output, unless the tags are 2^32
 bytes or more in one flat array: then a string with a meaning makes the call endless.
 */
module SnappyUncompress {
  import opened Basics
  import opened Bytes
  import opened SnappyFormat
  import opened SnappyWriters
  import opened SnappyIOVec
  import opened SnappyDecompress
  import opened SnappyDecompressor

  /** How a call ends: it accepts a string with a meaning that can be read, it never returns
      on one that cannot, and it refuses the others (or may never return on those that
      cannot be read). */
  ghost predicate Outcome(ok: bool, endless: bool, meaning: bool, readable: bool) {
    && (ok <==> meaning && readable)
    && (endless ==> !readable)
    && (meaning && !readable ==> endless)
  }

  /** What the writer is left with: no more than was stated, and a beginning of what the tags
      mean, all of it in the end. */
  ghost predicate Part(produced: seq<byte>, ok: bool, big: bool, len: nat, result: Option<seq<byte>>) {
    && |produced| <= len
    && (!big && result.Some? ==> produced <= result.value)
    && (ok ==> Some(produced) == result)
  }

  method InternalUncompressAllTags(d: Decompressor, w: Writer, len: nat) returns (ok: bool, endless: bool)
    requires d.AtStart() && d.big == !d.reader.Small() && d !in w.Repr() && d.reader !in w.Repr() && w.Fresh(len)
    modifies d, d.reader, w.Repr()
    ensures Outcome(ok, endless, !Refused(DecodeTags(old(d.input), []), len) && w.Fits(len), !d.big)
    ensures ok ==> w.Valid() && Some(w.Contents()) == DecodeTags(old(d.input), [])
    ensures w.Delivers() ==> w.Deliverable() && Part(w.Produced(), ok, d.big, len, DecodeTags(old(d.input), []))
  {
    hide DecodeTags;
    ghost var result := DecodeTags(d.input, []);
    w.SetExpectedLength(len);
    var out := new Output(w);
    d.DecompressAllTags(out, result);
    ok, endless := false, d.endless;
    if d.eof {
      ok := out.CheckLength();
    }
  }

  /** The string can be decompressed from where it lies: its tags are fewer than 2^32 bytes,
      or they do not lie in one flat array. */
  ghost predicate Readable(s: seq<byte>, flat: bool) { flat ==> TagBytes(s) < TWO32 }

  method InternalUncompress(reader: Source, w: Writer) returns (ok: bool, endless: bool)
    requires w.Fresh(0) && reader !in w.Repr()
    requires Varint32(reader.rest).Some? ==> w.Fresh(Varint32(reader.rest).value.0)
    modifies reader, w.Repr()
    ensures Outcome(ok, endless,
                    Decompressed(old(reader.rest)).Some? && w.Fits(|Decompressed(old(reader.rest)).value|),
                    Readable(old(reader.rest), reader.whole))
    ensures ok ==> w.Valid() && w.Contents() == Decompressed(old(reader.rest)).value
  {
    hide DecodeTags;
    var decompressor := new Decompressor(reader);
    var good, len := decompressor.ReadUncompressedLength();
    if !good { return false, false; }
    ok, endless := InternalUncompressAllTags(decompressor, w, len);
  }

  /** Into a flat buffer of at least the length stated in the header. */
  method RawUncompress(reader: Source, dst: array<byte>) returns (ok: bool, endless: bool)
    requires Varint32(reader.rest).Some? ==> Varint32(reader.rest).value.0 <= dst.Length
    modifies reader, dst
    ensures Outcome(ok, endless, Decompressed(old(reader.rest)).Some?, Readable(old(reader.rest), reader.whole))
    ensures ok ==> var d := Decompressed(old(reader.rest)).value; |d| <= dst.Length && dst[..|d|] == d
  {
    var w := new ArrayWriter(dst);
    ok, endless := InternalUncompress(reader, Flat(w));
  }

  /** Without output. */
  method IsValidCompressed(reader: Source) returns (ok: bool, endless: bool)
    modifies reader
    ensures Outcome(ok, endless, Decompressed(old(reader.rest)).Some?, Readable(old(reader.rest), reader.whole))
  {
    var w := new Validator();
    ok, endless := InternalUncompress(reader, Check(w));
  }

  /** Into a list of buffers; it must hold the whole output. */
  method RawUncompressToIOVec(reader: Source, iov: seq<array<byte>>) returns (ok: bool, endless: bool, w: IOVecWriter)
    requires iov != [] && forall i, j :: 0 <= i < j < |iov| ==> iov[i] != iov[j]
    modifies reader, iov
    ensures Outcome(ok, endless,
                    Decompressed(old(reader.rest)).Some? && |Decompressed(old(reader.rest)).value| <= Off(iov, |iov|),
                    Readable(old(reader.rest), reader.whole))
    ensures ok ==> w.iov == iov && w.Valid() && w.contents == Decompressed(old(reader.rest)).value
  {
    w := new IOVecWriter(iov);
    ok, endless := InternalUncompress(reader, Vec(w));
  }

  //// Into a sink

  /** A sink collects the bytes appended to it.  One over a byte array has room for whatever
      is asked for; any other offers only the caller's scratch byte. */
  class Sink {
    var bytes: seq<byte>
    const roomy: bool

    constructor (r: bool)
      ensures bytes == [] && roomy == r
    {
      bytes, roomy := [], r;
    }

    method Append(data: seq<byte>)
      modifies this
      ensures bytes == old(bytes) + data
    {
      bytes := bytes + data;
    }

    method GetAppendBufferVariable(desired: nat, scratch: array<byte>) returns (buf: array<byte>)
      requires scratch.Length == 1
      ensures if roomy then fresh(buf) && buf.Length == desired else buf == scratch
    {
      if roomy { buf := new byte[desired]; } else { buf := scratch; }
    }
  }

  /** The meaning of the tags after a good header, whatever the header states. */
  ghost function TagsOf(s: seq<byte>): Option<seq<byte>>
    requires Varint32(s).Some? && Varint32(s).value.1 <= |s|
  {
    DecodeTags(s[Varint32(s).value.1..], [])
  }

  /** What a call adds to the sink: nothing without a good header; no more than the header
      states; and of tags that have a meaning, a beginning of it. */
  ghost predicate Added(s: seq<byte>, flat: bool, added: seq<byte>) {
    && (Varint32(s) == None ==> added == [])
    && (Varint32(s).Some? ==>
          && Varint32(s).value.1 <= |s| && |added| <= Varint32(s).value.0
          && (Readable(s, flat) && TagsOf(s).Some? ==> added <= TagsOf(s).value))
  }

  method IntoBuffer(d: Decompressor, sink: Sink, buf: array<byte>, len: nat) returns (ok: bool, endless: bool)
    requires d.AtStart() && d.big == !d.reader.Small() && len <= buf.Length && len < TWO32
    modifies d, d.reader, sink, buf
    ensures Outcome(ok, endless, !Refused(DecodeTags(old(d.input), []), len), !d.big)
    ensures old(sink.bytes) <= sink.bytes
    ensures Part(sink.bytes[|old(sink.bytes)|..], ok, d.big, len, DecodeTags(old(d.input), []))
  {
    hide DecodeTags, Refused;
    var w := new ArrayWriter(buf);
    ok, endless := InternalUncompressAllTags(d, Flat(w), len);
    if !endless { sink.Append(buf[..w.op]); }
  }

  method IntoBlocks(d: Decompressor, sink: Sink, len: nat) returns (ok: bool, endless: bool)
    requires d.AtStart() && d.big == !d.reader.Small() && len < TWO32
    modifies d, d.reader, sink
    ensures Outcome(ok, endless, !Refused(DecodeTags(old(d.input), []), len), !d.big)
    ensures old(sink.bytes) <= sink.bytes
    ensures Part(sink.bytes[|old(sink.bytes)|..], ok, d.big, len, DecodeTags(old(d.input), []))
  {
    hide DecodeTags, Refused;
    var w := new ScatteredWriter();
    ok, endless := InternalUncompressAllTags(d, Scattered(w), len);
    if !endless {
      var produced := w.Flush();
      sink.Append(produced);
    }
  }

  /** Straight into the sink's buffer if that is large enough, or else into blocks that are
      handed over at the end; what was produced is handed over also when the call fails. */
  method Uncompress(reader: Source, sink: Sink) returns (ok: bool, endless: bool)
    modifies reader, sink
    ensures Outcome(ok, endless, Decompressed(old(reader.rest)).Some?, Readable(old(reader.rest), reader.whole))
    ensures ok ==> sink.bytes == old(sink.bytes) + Decompressed(old(reader.rest)).value
    ensures old(sink.bytes) <= sink.bytes
    ensures Added(old(reader.rest), reader.whole, sink.bytes[|old(sink.bytes)|..])
  {
    hide DecodeTags;
    var decompressor := new Decompressor(reader);
    var good, len := decompressor.ReadUncompressedLength();
    if !good { return false, false; }
    var c := new byte[1];
    var buf := sink.GetAppendBufferVariable(len, c);
    if buf.Length >= len {
      ok, endless := IntoBuffer(decompressor, sink, buf, len);
    } else {
      ok, endless := IntoBlocks(decompressor, sink, len);
    }
  }
}
