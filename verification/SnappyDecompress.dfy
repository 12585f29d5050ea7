/**
 The decompressor: it reads from a source that may hand out its bytes in pieces
 of any size, stitches tags that straddle pieces, and drives one of the four
 writers.  Its result is proved to depend on the bytes alone.
 */
module SnappyDecompress {
  import opened Basics
  import opened Bytes
  import opened SnappyFormat
  import opened SnappyTable
  import opened SnappyWriters
  import opened SnappyIOVec
  import Seqs

  //// The byte source

  /** A source of bytes.  A flat array exposes all that is left of it; any other source
      exposes as little or as much as it likes, but at least one byte and fewer than 2^32. */
  class Source {
    var rest: seq<byte>
    const whole: bool

    constructor (data: seq<byte>, flat: bool)
      ensures rest == data && whole == flat
    {
      rest, whole := data, flat;
    }

    /** No region can reach 2^32 bytes. */
    ghost predicate Small() reads this { whole ==> |rest| < TWO32 }

    method Peek() returns (region: seq<byte>)
      ensures region <= rest && (region == [] <==> rest == [])
      ensures if whole then region == rest else |region| < TWO32
    {
      if rest == [] || whole { return rest; }
      var n: nat :| 0 < n <= |rest| && n < TWO32;
      return rest[..n];
    }

    method Skip(n: nat)
      requires n <= |rest|
      modifies this
      ensures rest == old(rest)[n..]
    {
      rest := rest[n..];
    }
  }

  //// The writers behind one interface

  ghost function Elements(s: seq<object>): set<object> { set o | o in s }

  datatype Writer = Flat(flat: ArrayWriter) | Vec(vec: IOVecWriter) | Scattered(scattered: ScatteredWriter) | Check(check: Validator) {

    ghost function Repr(): set<object>
      reads if Scattered? then {scattered} else {}
    {
      match this
      case Flat(w) => {w, w.buf}
      case Vec(w) => {w} + Elements(w.iov)
      case Scattered(w) => {w} + Elements(w.blocks)
      case Check(w) => {w}
    }

    ghost predicate Valid()
      reads Repr()
    {
      match this
      case Flat(w) => w.Valid()
      case Vec(w) => w.Valid()
      case Scattered(w) => w.Valid()
      case Check(w) => w.Valid()
    }

    /** The bytes written so far, in order. */
    ghost function Contents(): seq<byte>
      requires Valid()
      reads Repr()
    {
      match this
      case Flat(w) => w.Contents()
      case Vec(w) => w.contents
      case Scattered(w) => w.contents
      case Check(w) => w.contents
    }

    ghost function Expected(): nat
      reads Repr()
    {
      match this
      case Flat(w) => w.opLimit
      case Vec(w) => w.limit
      case Scattered(w) => w.expected
      case Check(w) => w.expected
    }

    /** Whether `n` bytes fit; only a list of buffers can be too small. */
    ghost predicate Fits(n: nat) {
      Vec? ==> n <= vec.Capacity()
    }

    /** What it holds is handed to a sink at the end, also after a refusal. */
    ghost predicate Delivers() { Flat? || Scattered? }

    ghost predicate Deliverable()
      reads Repr()
    {
      match this
      case Flat(w) => w.Valid()
      case Scattered(w) => w.Flushable()
      case _ => false
    }

    ghost function Produced(): (p: seq<byte>)
      requires Deliverable()
      reads Repr()
      ensures |p| <= Expected()
    {
      if Flat? then flat.Contents() else scattered.contents
    }

    /** A copy is carried out, or is cut off by a full list of buffers without notice. */
    ghost predicate Copies(out: seq<byte>, offset: nat, len: nat, expected: nat) {
      && 0 < offset <= |out| && |out| + len <= expected
      && (Fits(|out| + len) || (Vec? && vec.iov != [] && vec.Unnoticed(out, offset, len)))
    }

    /** How much of a copy is carried out. */
    ghost function Carried(length: nat, len: nat): nat {
      if Fits(length + len) || !Fits(length) then len else vec.Capacity() - length
    }

    method Append(data: seq<byte>) returns (ok: bool)
      requires Valid()
      modifies Repr()
      ensures fresh(Repr() - old(Repr())) && Expected() == old(Expected())
      ensures ok == (|old(Contents())| + |data| <= Expected() && Fits(|old(Contents())| + |data|))
      ensures ok ==> Valid() && Contents() == old(Contents()) + data
      ensures !ok && Delivers() ==> Deliverable() && old(Contents()) <= Produced() <= old(Contents()) + data
    {
      match this
      case Flat(w) => ok := w.Append(data);
      case Vec(w) => ok := w.Append(data);
      case Scattered(w) => ok := w.Append(data);
      case Check(w) => ok := w.Append(data);
    }

    method TryFastAppend(avail: seq<byte>, len: nat) returns (ok: bool)
      requires Valid()
      modifies Repr()
      ensures fresh(Repr() - old(Repr())) && Expected() == old(Expected())
      ensures ok ==> len <= 16 && 16 + MAX_TAG_LENGTH <= |avail|
      ensures Valid() && Contents() == old(Contents()) + if ok then avail[..len] else []
    {
      match this
      case Flat(w) => ok := w.TryFastAppend(avail, len);
      case Vec(w) => ok := w.TryFastAppend(avail, len);
      case Scattered(w) => ok := w.TryFastAppend(avail, len);
      case Check(w) => ok := false;
    }

    method VecAppendFromSelf(offset: nat, len: nat) returns (ok: bool)
      requires Vec? && Valid()
      modifies Repr()
      ensures Repr() == old(Repr()) && Expected() == old(Expected())
      ensures ok == Copies(old(Contents()), offset, len, Expected())
      ensures ok ==> Valid() && Contents() == Extend(old(Contents()), offset, Carried(|old(Contents())|, len))
    {
      hide Extend, IOVecWriter.Valid, IOVecWriter.Capacity;
      vec.SomeBuffer();
      ok := vec.AppendFromSelf(offset, len);
    }

    method AppendFromSelf(offset: nat, len: nat) returns (ok: bool)
      requires Valid() && offset < TWO64
      modifies Repr()
      ensures fresh(Repr() - old(Repr())) && Expected() == old(Expected())
      ensures ok == Copies(old(Contents()), offset, len, Expected())
      ensures ok ==> Valid() && Contents() == Extend(old(Contents()), offset, Carried(|old(Contents())|, len))
      ensures !ok && Delivers() ==> Deliverable() && Produced() == old(Contents())
    {
      hide Extend, IOVecWriter.Valid, IOVecWriter.Capacity, ScatteredWriter.Valid, ScatteredWriter.Flushable;
      match this
      case Flat(w) => ok := w.AppendFromSelf(offset, len);
      case Vec(_) => ok := VecAppendFromSelf(offset, len);
      case Scattered(w) => ok := w.AppendFromSelf(offset, len);
      case Check(w) => ok := w.AppendFromSelf(offset, len);
    }

    /** Nothing is written yet and the caller's buffer holds `len` bytes. */
    ghost predicate Fresh(len: nat)
      reads Repr()
    {
      && Valid() && Contents() == [] && len < TWO32
      && (Flat? ==> len <= flat.buf.Length)
      && (Scattered? ==> scattered.blocks == [])
    }

    method SetExpectedLength(len: nat)
      requires Fresh(len)
      modifies Repr()
      ensures Valid() && Contents() == [] && Expected() == len && Repr() == old(Repr())
    {
      match this
      case Flat(w) => w.SetExpectedLength(len);
      case Vec(w) => w.SetExpectedLength(len);
      case Scattered(w) => w.SetExpectedLength(len);
      case Check(w) => w.SetExpectedLength(len);
    }

    lemma FitsLess(m: nat, n: nat)
      requires m <= n && Fits(n)
      ensures Fits(m)
    {
    }

    lemma Within()
      requires Valid()
      ensures |Contents()| <= Expected()
    {
    }

    method CheckLength() returns (ok: bool)
      requires Valid()
      ensures ok == (|Contents()| == Expected())
      ensures |Contents()| <= Expected() && Fits(|Contents()|)
    {
      match this
      case Flat(w) => ok := w.CheckLength();
      case Vec(w) => ok := w.CheckLength(); w.TotalFits();
      case Scattered(w) => ok := w.CheckLength();
      case Check(w) => ok := w.CheckLength();
    }
  }

  /** A writer together with what it has written and whether it can hold the
      expected length. */
  class Output {
    const w: Writer
    ghost var contents: seq<byte>
    ghost var expected: nat
    ghost var fits: bool
    ghost var repr: set<object>

    /** After a refusal: what is handed to the sink. */
    ghost predicate Kept()
      reads this, repr
    {
      && (w.Scattered? ==> w.scattered in repr) && w.Repr() <= repr
      && (w.Delivers() ==> w.Deliverable() && contents == w.Produced() && expected == w.Expected())
    }

    ghost predicate Valid()
      reads this, repr
    {
      && this in repr && (w.Scattered? ==> w.scattered in repr)
      && w.Repr() <= repr && this !in w.Repr() && w.Valid()
      && contents == w.Contents() && expected == w.Expected() && fits == w.Fits(expected)
    }

    constructor (target: Writer)
      requires target.Valid()
      ensures w == target && Valid() && contents == target.Contents() && expected == target.Expected()
      ensures fits == target.Fits(expected) && repr == {this} + target.Repr()
    {
      w := target;
      contents, expected, fits := target.Contents(), target.Expected(), target.Fits(target.Expected());
      repr := {this} + target.Repr();
    }

    method Append(data: seq<byte>) returns (ok: bool)
      requires Valid()
      modifies repr
      ensures fresh(repr - old(repr)) && expected == old(expected) && fits == old(fits)
      ensures fits ==> ok == (|old(contents)| + |data| <= expected)
      ensures ok ==> Valid() && contents == old(contents) + data
      ensures !ok ==> Kept() && old(contents) <= contents <= old(contents) + data
    {
      hide Writer.Valid, Writer.Contents, Writer.Expected, Writer.Fits, Writer.Deliverable, Writer.Produced;
      if fits && |contents| + |data| <= expected { w.FitsLess(|contents| + |data|, expected); }
      ok := w.Append(data);
      repr := repr + w.Repr();
      if ok { contents := contents + data; } else if w.Delivers() { contents := w.Produced(); }
    }

    method TryFastAppend(avail: seq<byte>, len: nat) returns (ok: bool)
      requires Valid()
      modifies repr
      ensures fresh(repr - old(repr)) && expected == old(expected) && fits == old(fits)
      ensures ok ==> len <= 16 && 16 + MAX_TAG_LENGTH <= |avail|
      ensures Valid() && contents == if ok then old(contents) + avail[..len] else old(contents)
    {
      hide Writer.Valid, Writer.Contents, Writer.Expected, Writer.Fits;
      ok := w.TryFastAppend(avail, len);
      repr := repr + w.Repr();
      if ok { contents := contents + avail[..len]; } else { assert contents + [] == contents; }
    }

    method AppendFromSelf(offset: nat, len: nat) returns (ok: bool)
      requires Valid() && offset < TWO64
      modifies repr
      ensures fresh(repr - old(repr)) && expected == old(expected) && fits == old(fits)
      ensures fits ==> ok == (0 < offset <= |old(contents)| && |old(contents)| + len <= expected)
      ensures ok ==> Valid() && |contents| >= |old(contents)|
      ensures ok && fits ==> contents == Extend(old(contents), offset, len)
      ensures !ok ==> Kept() && contents == old(contents)
    {
      hide Writer.Valid, Writer.Contents, Writer.Expected, Writer.Fits, Writer.Deliverable, Writer.Produced;
      if fits && |contents| + len <= expected { w.FitsLess(|contents| + len, expected); }
      ok := w.AppendFromSelf(offset, len);
      repr := repr + w.Repr();
      if ok { contents := w.Contents(); }
    }

    lemma Keeps()
      requires Valid()
      ensures Kept()
    {
      if w.Scattered? { w.scattered.Keeps(); }
    }

    lemma Within()
      requires Valid()
      ensures |contents| <= expected
    {
      w.Within();
    }

    method CheckLength() returns (ok: bool)
      requires Valid()
      ensures fits ==> ok == (|contents| == expected)
      ensures !fits ==> !ok
    {
      ok := w.CheckLength();
    }
  }

  //// Fields of table entries

  method ExtraOf(c: byte) returns (k: nat)
    ensures k == ExtraBytes(c)
  {
    var entry := CharTable(c);
    EntryFields(c);
    k := entry / 2048;
  }

  /** What the table says of a copy tag. */
  method CopyFields(c: byte) returns (extra: nat, high: nat, length: nat)
    requires c as int % 4 != 0
    ensures extra == ExtraBytes(c) && high <= 0x700
    ensures forall x: seq<byte> :: |x| == extra ==> ElementOf(c, x) == Copy(high + LoadLE(x), length)
  {
    var entry := CharTable(c);
    EntryFields(c);
    extra, high, length := entry / 2048, entry / 256 % 8 * 256, entry % 256;
  }

  /** The outcome is one the caller of the decompressor must refuse. */
  predicate Refused(result: Option<seq<byte>>, expected: nat) {
    result.None? || |result.value| != expected
  }

  /** What the rest of the stream gives once `n` more bytes of a literal are due. */
  function LiteralThen(rest: seq<byte>, n: nat, out: seq<byte>): Option<seq<byte>> {
    if |rest| < n then None else DecodeTags(rest[n..], out + rest[..n])
  }
}
