/**
 * An RTP packet after NAL classification (RFC 6184): the fields the
 * classifier derives from the first payload octets, taken here as given.
 */
module Packets {

  /** An octet, as an unsigned value. */
  type byte = x: int | 0 <= x < 0x100

  /** RTP sequence numbers are 16-bit unsigned values. */
  type uint16 = x: int | 0 <= x < 0x1_0000

  /** Single NAL unit (section 5.6), FU-A fragment (5.8), STAP-A aggregate (5.7.1). */
  datatype NalType = Full | NotFull | Stapa

  datatype Packet = Packet(
    nalType: NalType,
    isStart: bool,     // FU header S bit (fragments only)
    isEnd: bool,       // FU header E bit (fragments only)
    fuNalType: bv8,     // FU header type field: the fragmented unit's NAL type
    nalFBits: bv8,       // FU indicator F bit, in place
    nalNriBits: bv8,   // FU indicator NRI bits, in place
    seqNum: uint16,
    timestamp: int,    // raw RTP timestamp
    data: seq<byte>)    // the whole RTP payload
}
