/**
 * The decoder side of the extractor, seen only through its interface: a
 * sample buffer it lends out (a byte buffer plus an RTP timestamp and a
 * sample size) and the hand-back of a finished sample. The decoder itself
 * is abstract: which acquisitions succeed is an input sequence, and every
 * sample handed back is recorded in a log.
 */
module Decoding {
  import opened Wrappers
  import opened Packets

  /**
   * A growable byte buffer in the manner of java.nio.ByteBuffer. `backing`
   * holds every byte ever stored, including stale bytes left by an earlier
   * user; writes go to `position`; `limit` ends the readable window.
   */
  datatype ByteBuffer = ByteBuffer(backing: seq<byte>, position: nat, limit: nat)

  predicate WellFormed(b: ByteBuffer) {
    b.position <= b.limit <= |b.backing|
  }

  /** The bytes written since the last clear. */
  function Written(b: ByteBuffer): seq<byte>
    requires b.position <= |b.backing|
  {
    b.backing[..b.position]
  }

  /** The window a reader sees. */
  function Readable(b: ByteBuffer): seq<byte>
    requires WellFormed(b)
  {
    b.backing[b.position..b.limit]
  }

  /** Rewinds for writing; the old bytes stay in the backing store. */
  function Clear(b: ByteBuffer): (r: ByteBuffer)
    ensures WellFormed(r) && r.position == 0 && Written(r) == []
    ensures r.backing == b.backing
  {
    ByteBuffer(b.backing, 0, |b.backing|)
  }

  /** Writes `xs` at the position, overwriting what was there. */
  function Put(b: ByteBuffer, xs: seq<byte>): (r: ByteBuffer)
    requires WellFormed(b)
    ensures WellFormed(r)
    ensures Written(r) == Written(b) + xs
    ensures r.position == b.position + |xs|
  {
    var end := b.position + |xs|;
    var tail := if end < |b.backing| then b.backing[end..] else [];
    ByteBuffer(b.backing[..b.position] + xs + tail, end, if b.limit < end then end else b.limit)
  }

  /** Switches to reading: the window becomes exactly what was written. */
  function Flip(b: ByteBuffer): (r: ByteBuffer)
    requires WellFormed(b)
    ensures WellFormed(r) && r.position == 0
    ensures Readable(r) == Written(b)
  {
    ByteBuffer(b.backing, 0, b.position)
  }

  /** A sample buffer lent by the decoder. */
  datatype Sample = Sample(buffer: ByteBuffer, rtpTimestamp: int, sampleSize: int)

  /** What the decoder receives: the readable bytes, timestamp and size of a sample. */
  datatype Emitted = Emitted(bytes: seq<byte>, rtpTimestamp: int, sampleSize: int)

  class Decoder {
    /** Answers to successive buffer requests; None (or none left) means refusal. */
    var offers: seq<Option<Sample>>
    /** Every sample handed back for decoding, in order. */
    var decoded: seq<Emitted>

    constructor (offers: seq<Option<Sample>>)
      ensures this.offers == offers && decoded == []
    {
      this.offers := offers;
      decoded := [];
    }

    method GetSampleBuffer() returns (s: Option<Sample>)
      modifies this
      ensures s == (if old(offers) == [] then None else old(offers)[0])
      ensures offers == (if old(offers) == [] then [] else old(offers)[1..])
      ensures decoded == old(decoded)
    {
      if offers == [] {
        s := None;
      } else {
        s := offers[0];
        offers := offers[1..];
      }
    }

    method DecodeFrame(s: Sample)
      requires WellFormed(s.buffer)
      modifies this
      ensures decoded == old(decoded) + [Emitted(Readable(s.buffer), s.rtpTimestamp, s.sampleSize)]
      ensures offers == old(offers)
    {
      decoded := decoded + [Emitted(Readable(s.buffer), s.rtpTimestamp, s.sampleSize)];
    }
  }
}
