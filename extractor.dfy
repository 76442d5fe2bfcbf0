/**
 * The frame builder of the H.264 RTP depacketizer (RFC 6184): it turns
 * classified RTP packets into decoder-ready samples, one NAL unit per
 * sample, holding at most one sample buffer of the decoder at a time.
 */
module Extractor {
  import opened Wrappers
  import opened Packets
  import opened Decoding

  /** The Annex B start code written before each NAL unit in byte-stream mode. */
  const StartCodePrefix: seq<byte> := [0x00, 0x00, 0x00, 0x01]

  function Prefix(useByteStreamFormat: bool): seq<byte> {
    if useByteStreamFormat then StartCodePrefix else []
  }

  /**
   * The NAL header octet of a fragmented unit, rebuilt by OR-ing the F and
   * NRI bits of the FU indicator with the type field of the FU header. When
   * each input holds only its own bits (section 1.3 of RFC 6184: F is bit 7,
   * NRI bits 6-5, type bits 4-0), every field reads back from the octet.
   */
  function NalHeaderOctet(fuNalType: bv8, nalFBits: bv8, nalNriBits: bv8): (r: bv8)
    ensures fuNalType & 0xE0 == 0 && nalFBits & 0x7F == 0 && nalNriBits & 0x9F == 0 ==>
      r & 0x1F == fuNalType && r & 0x80 == nalFBits && r & 0x60 == nalNriBits
  {
    fuNalType | nalFBits | nalNriBits
  }

  /** The octet as an unsigned byte value. */
  function Octet(b: bv8): (r: byte)
    ensures r as bv8 == b
  {
    b as int
  }

  lemma NalHeaderExample()
    ensures NalHeaderOctet(7, 0, 0x60) == 0x67
  {
  }

  // ---------------------------------------------------------------------
  // STAP-A payload layout: one header octet, then (16-bit size, unit)*

  /** A big-endian signed 16-bit read, as a Java short. */
  function ReadShort(hi: byte, lo: byte): (v: int)
    ensures -0x8000 <= v < 0x8000
    ensures v < 0 <==> 0x80 <= hi
    ensures 0 <= v ==> v / 0x100 == hi && v % 0x100 == lo
  {
    var u := hi * 0x100 + lo;
    if u < 0x8000 then u else u - 0x1_0000
  }

  /** The 16-bit size field a sender writes for a unit of `n` bytes. */
  function SizeField(n: nat): (r: seq<byte>)
    ensures |r| == 2
    ensures n < 0x8000 ==> ReadShort(r[0], r[1]) == n
  {
    [n / 0x100 % 0x100, n % 0x100]
  }

  /** Why an exception leaves `sendPacket`. */
  datatype Cause =
    | TruncatedFuHeader  // a fragment payload shorter than its two FU octets
    | TruncatedSize      // one byte left where a size field is due
    | NegativeSize       // a size field with its top bit set
    | TruncatedUnit      // fewer bytes left than the size announces

  datatype Outcome = Returned | Threw(cause: Cause)

  /** The units read from an aggregate before it ended or failed. */
  datatype Units = Units(units: seq<seq<byte>>, failure: Option<Cause>)

  /** The result of reading one size field and the unit it announces. */
  datatype UnitRead = Failed(cause: Cause) | Split(unit: seq<byte>, rest: seq<byte>)

  /**
   * One `readShort` followed by a `readBytes` of that many bytes, at the front
   * of a payload with bytes left: a successful read consumes exactly the
   * unit's own size field and the unit.
   */
  function ReadUnit(s: seq<byte>): (r: UnitRead)
    requires s != []
    ensures r.Split? ==> |r.unit| < 0x8000 && s == SizeField(|r.unit|) + r.unit + r.rest
    ensures r.Split? <==> 2 <= |s| && 0 <= ReadShort(s[0], s[1]) <= |s| - 2
    ensures r.Failed? ==> (r.cause == TruncatedSize <==> |s| < 2)
    ensures r.Failed? && 2 <= |s| ==> (r.cause == NegativeSize <==> 0x80 <= s[0])
    ensures r.Failed? ==> r.cause != TruncatedFuHeader
  {
    if |s| < 2 then Failed(TruncatedSize)
    else
      var size := ReadShort(s[0], s[1]);
      if size < 0 then Failed(NegativeSize)
      else if |s| - 2 < size then Failed(TruncatedUnit)
      else
        assert SizeField(size) == [s[0], s[1]];
        assert s == [s[0], s[1]] + s[2..2 + size] + s[2 + size..];
        Split(s[2..2 + size], s[2 + size..])
  }

  /** Reads (size, unit) pairs until the payload is used up or a read fails. */
  function ParseUnits(s: seq<byte>): (r: Units)
    ensures Encodable(r.units)
    decreases |s|
  {
    if s == [] then Units([], None)
    else
      match ReadUnit(s)
      case Failed(cause) => Units([], Some(cause))
      case Split(unit, rest) =>
        var next := ParseUnits(rest);
        Units([unit] + next.units, next.failure)
  }

  /** The aggregate payload after its one-octet STAP-A header. */
  function StapaBody(data: seq<byte>): (r: seq<byte>)
    ensures data == [] ==> r == []
    ensures data != [] ==> data == [data[0]] + r
  {
    if data == [] then [] else data[1..]
  }

  predicate Encodable(units: seq<seq<byte>>) {
    forall u :: u in units ==> |u| < 0x8000
  }

  /** The layout a sender produces for `units`. */
  function EncodeUnits(units: seq<seq<byte>>): seq<byte> {
    if units == [] then [] else SizeField(|units[0]|) + units[0] + EncodeUnits(units[1..])
  }

  lemma {:induction false} EncodeThenParse(units: seq<seq<byte>>)
    requires Encodable(units)
    ensures ParseUnits(EncodeUnits(units)) == Units(units, None)
  {
    if units != [] {
      var u, rest := units[0], EncodeUnits(units[1..]);
      ReadEncoded(u, rest);
      EncodeThenParse(units[1..]);
    }
  }

  /** A size field followed by that many bytes reads back as one unit. */
  lemma ReadEncoded(unit: seq<byte>, rest: seq<byte>)
    requires |unit| < 0x8000
    ensures ReadUnit(SizeField(|unit|) + unit + rest) == Split(unit, rest)
  {
    var s := SizeField(|unit|) + unit + rest;
    assert ReadShort(s[0], s[1]) == |unit|;
    assert s[2..2 + |unit|] == unit && s[2 + |unit|..] == rest;
  }

  lemma {:induction false} ParseThenEncode(s: seq<byte>)
    requires ParseUnits(s).failure == None
    ensures EncodeUnits(ParseUnits(s).units) == s
  {
    if s != [] {
      var read := ReadUnit(s);
      var units := ParseUnits(s).units;
      ParseThenEncode(read.rest);
      assert units[0] == read.unit && units[1..] == ParseUnits(read.rest).units;
    }
  }

  /** A well-formed STAP-A packet yields exactly the units it was built from. */
  lemma StapaPayloadRoundTrip(header: byte, units: seq<seq<byte>>)
    requires Encodable(units)
    ensures ParseUnits(StapaBody([header] + EncodeUnits(units))) == Units(units, None)
  {
    assert StapaBody([header] + EncodeUnits(units)) == EncodeUnits(units);
    EncodeThenParse(units);
  }

  // ---------------------------------------------------------------------
  // Buffer acquisition and the frames handed to the decoder

  /** Whether starting a frame ends with a buffer in hand. */
  function Acquires(held: bool, offers: seq<Option<Sample>>): bool {
    held || (offers != [] && offers[0].Some?)
  }

  /** The decoder's remaining answers after starting a frame. */
  function OffersAfter(held: bool, offers: seq<Option<Sample>>): seq<Option<Sample>> {
    if held || offers == [] then offers else offers[1..]
  }

  /** The bytes of the frame in progress, if any. */
  function Pending(frame: Option<Sample>): seq<byte> {
    if frame.Some? && frame.value.buffer.position <= |frame.value.buffer.backing|
    then Written(frame.value.buffer) else []
  }

  /** A sample as the decoder receives it: its size is its length. */
  function FrameOf(bytes: seq<byte>, rtpTimestamp: int): Emitted {
    Emitted(bytes, rtpTimestamp, |bytes|)
  }

  /**
   * The part of the extractor's and decoder's state that sending units
   * affects: the frames handed to the decoder so far, the decoder's remaining
   * answers, whether a buffer is held, and the error flag.
   */
  datatype Run = Run(frames: seq<Emitted>, offers: seq<Option<Sample>>, held: bool, hasError: bool)

  /**
   * Starting a frame, writing the prefix and one whole unit, and sending it:
   * a frame is handed off exactly when a buffer was in hand or granted, and
   * no buffer is held afterwards.
   */
  function SendStep(s: Run, unit: seq<byte>, rtpTimestamp: int, useByteStreamFormat: bool): (r: Run)
    ensures r.frames == s.frames + (if r.hasError then [] else [FrameOf(Prefix(useByteStreamFormat) + unit, rtpTimestamp)])
    ensures r.hasError <==> !s.held && (s.offers == [] || s.offers[0].None?)
    ensures !r.held
    ensures r.offers == if s.held then s.offers else s.offers[if s.offers == [] then 0 else 1..]
  {
    var ok := Acquires(s.held, s.offers);
    Run(s.frames + (if ok then [FrameOf(Prefix(useByteStreamFormat) + unit, rtpTimestamp)] else []),
        OffersAfter(s.held, s.offers), false, !ok)
  }

  /** The state after sending each unit of an aggregate in turn from `start`. */
  function StapaRun(units: seq<seq<byte>>, start: Run, rtpTimestamp: int, useByteStreamFormat: bool): (r: Run)
    ensures r.held == (start.held && units == [])
    ensures |start.frames| <= |r.frames| <= |start.frames| + |units|
    decreases |units|
  {
    if units == [] then start
    else SendStep(StapaRun(units[..|units| - 1], start, rtpTimestamp, useByteStreamFormat),
                  units[|units| - 1], rtpTimestamp, useByteStreamFormat)
  }

  /** Sending one more unit extends the run by that unit's step. */
  lemma StapaRunSnoc(units: seq<seq<byte>>, unit: seq<byte>, start: Run, rtpTimestamp: int, useByteStreamFormat: bool)
    ensures StapaRun(units + [unit], start, rtpTimestamp, useByteStreamFormat) ==
            SendStep(StapaRun(units, start, rtpTimestamp, useByteStreamFormat), unit, rtpTimestamp, useByteStreamFormat)
  {
    assert (units + [unit])[..|units|] == units;
  }

  /**
   * The decoder answers that sending `n` units uses when every request is
   * granted: a buffer already held serves the first unit.
   */
  function Grants(held: bool, n: nat): nat {
    if held && n > 0 then n - 1 else n
  }

  /** The frames an aggregate hands off when every unit gets a buffer. */
  function FramesOf(units: seq<seq<byte>>, rtpTimestamp: int, useByteStreamFormat: bool): (r: seq<Emitted>)
    ensures |r| == |units|
    ensures forall k :: 0 <= k < |units| ==> r[k] == FrameOf(Prefix(useByteStreamFormat) + units[k], rtpTimestamp)
  {
    if units == [] then []
    else FramesOf(units[..|units| - 1], rtpTimestamp, useByteStreamFormat)
         + [FrameOf(Prefix(useByteStreamFormat) + units[|units| - 1], rtpTimestamp)]
  }

  /**
   * When every buffer request succeeds, an aggregate of n units hands off n
   * frames after those already sent, the i-th being exactly the prefix and
   * the i-th unit, all with the packet's timestamp; the held buffer serves
   * the first unit and each later unit takes one answer.
   */
  lemma {:induction false} StapaRunGranted(units: seq<seq<byte>>, start: Run, rtpTimestamp: int, useByteStreamFormat: bool)
    requires Grants(start.held, |units|) <= |start.offers|
    requires forall k :: 0 <= k < Grants(start.held, |units|) ==> start.offers[k].Some?
    ensures var run := StapaRun(units, start, rtpTimestamp, useByteStreamFormat);
      && run.frames == start.frames + FramesOf(units, rtpTimestamp, useByteStreamFormat)
      && run.held == (start.held && units == [])
      && run.offers == start.offers[Grants(start.held, |units|)..]
  {
    GrantedOffers(units, start, rtpTimestamp, useByteStreamFormat);
    if units != [] {
      var n := |units|;
      var init := units[..n - 1];
      StapaRunGranted(init, start, rtpTimestamp, useByteStreamFormat);
      var prev := StapaRun(init, start, rtpTimestamp, useByteStreamFormat);
      GrantedNext(init, start, rtpTimestamp, useByteStreamFormat);
      GrantedStep(prev, units[n - 1], rtpTimestamp, useByteStreamFormat);
      var last := [FrameOf(Prefix(useByteStreamFormat) + units[n - 1], rtpTimestamp)];
      assert FramesOf(units, rtpTimestamp, useByteStreamFormat) == FramesOf(init, rtpTimestamp, useByteStreamFormat) + last;
      AppendAssoc(start.frames, FramesOf(init, rtpTimestamp, useByteStreamFormat), last);
    }
  }

  /** When every request succeeds, the buffer held serves the first unit and each later unit takes one answer. */
  lemma {:induction false} GrantedOffers(units: seq<seq<byte>>, start: Run, rtpTimestamp: int, useByteStreamFormat: bool)
    requires Grants(start.held, |units|) <= |start.offers|
    requires forall k :: 0 <= k < Grants(start.held, |units|) ==> start.offers[k].Some?
    ensures var run := StapaRun(units, start, rtpTimestamp, useByteStreamFormat);
      && run.held == (start.held && units == [])
      && run.offers == start.offers[Grants(start.held, |units|)..]
  {
    if units != [] {
      var n := |units|;
      var init := units[..n - 1];
      GrantedOffers(init, start, rtpTimestamp, useByteStreamFormat);
      var prev := StapaRun(init, start, rtpTimestamp, useByteStreamFormat);
      assert !prev.held ==> prev.offers[0] == start.offers[Grants(start.held, n - 1)];
      GrantedStep(prev, units[n - 1], rtpTimestamp, useByteStreamFormat);
    }
  }

  /** With one more granted answer ahead, the next unit of the run gets a buffer. */
  lemma GrantedNext(units: seq<seq<byte>>, start: Run, rtpTimestamp: int, useByteStreamFormat: bool)
    requires Grants(start.held, |units| + 1) <= |start.offers|
    requires forall k :: 0 <= k < Grants(start.held, |units| + 1) ==> start.offers[k].Some?
    ensures var run := StapaRun(units, start, rtpTimestamp, useByteStreamFormat);
      Acquires(run.held, run.offers)
  {
    GrantedOffers(units, start, rtpTimestamp, useByteStreamFormat);
    var run := StapaRun(units, start, rtpTimestamp, useByteStreamFormat);
    assert !run.held ==> run.offers[0] == start.offers[Grants(start.held, |units|)];
  }

  lemma AppendAssoc<T>(a: seq<T>, b: seq<T>, c: seq<T>)
    ensures a + (b + c) == (a + b) + c
  {
  }

  /**
   * A well-formed STAP-A packet whose every unit gets a buffer hands off one
   * frame per unit, in order, each the prefix and exactly that unit.
   */
  lemma StapaPacketGranted(header: byte, units: seq<seq<byte>>, start: Run, rtpTimestamp: int, useByteStreamFormat: bool)
    requires Encodable(units)
    requires Grants(start.held, |units|) <= |start.offers|
    requires forall k :: 0 <= k < Grants(start.held, |units|) ==> start.offers[k].Some?
    ensures var parsed := ParseUnits(StapaBody([header] + EncodeUnits(units)));
      && parsed.failure == None
      && StapaRun(parsed.units, start, rtpTimestamp, useByteStreamFormat).frames ==
         start.frames + FramesOf(units, rtpTimestamp, useByteStreamFormat)
  {
    StapaPayloadRoundTrip(header, units);
    StapaRunGranted(units, start, rtpTimestamp, useByteStreamFormat);
  }

  /** One step with a buffer in hand or granted appends its frame and uses at most one answer. */
  lemma GrantedStep(s: Run, unit: seq<byte>, rtpTimestamp: int, useByteStreamFormat: bool)
    requires Acquires(s.held, s.offers)
    ensures var r := SendStep(s, unit, rtpTimestamp, useByteStreamFormat);
      && r.frames == s.frames + [FrameOf(Prefix(useByteStreamFormat) + unit, rtpTimestamp)]
      && !r.held
      && r.offers == (if s.held then s.offers else s.offers[1..])
  {
  }

  /**
   * Whatever the decoder answers, an aggregate only appends to the frames
   * already sent, at most one frame per unit, and every frame it appends is
   * the prefix and one whole unit: no bytes carry over between units.
   */
  lemma {:induction false} StapaRunFramesAreUnits(units: seq<seq<byte>>, start: Run, rtpTimestamp: int, useByteStreamFormat: bool)
    ensures var run := StapaRun(units, start, rtpTimestamp, useByteStreamFormat);
      var m := |start.frames|;
      && m <= |run.frames| <= m + |units|
      && run.frames[..m] == start.frames
      && forall j :: m <= j < |run.frames| ==>
           exists u :: u in units && run.frames[j] == FrameOf(Prefix(useByteStreamFormat) + u, rtpTimestamp)
  {
    if units != [] {
      var n, m := |units|, |start.frames|;
      var init := units[..n - 1];
      var run := StapaRun(units, start, rtpTimestamp, useByteStreamFormat);
      var prev := StapaRun(init, start, rtpTimestamp, useByteStreamFormat);
      var last := FrameOf(Prefix(useByteStreamFormat) + units[n - 1], rtpTimestamp);
      StapaRunFramesAreUnits(init, start, rtpTimestamp, useByteStreamFormat);
      assert run.frames == prev.frames || run.frames == prev.frames + [last] by {
        assert run == SendStep(prev, units[n - 1], rtpTimestamp, useByteStreamFormat);
      }
      assert run.frames[..m] == start.frames by {
        assert run.frames[..m] == prev.frames[..m];
      }
      forall j | m <= j < |run.frames|
        ensures exists u :: u in units && run.frames[j] == FrameOf(Prefix(useByteStreamFormat) + u, rtpTimestamp)
      {
        if j < |prev.frames| {
          var u :| u in init && prev.frames[j] == FrameOf(Prefix(useByteStreamFormat) + u, rtpTimestamp);
          assert u in units;
        } else {
          assert units[n - 1] in units;
        }
      }
    }
  }

  // ---------------------------------------------------------------------

  class RtpMediaExtractor {
    /** Whether each NAL unit is preceded by the Annex B start code. */
    var useByteStreamFormat: bool
    var currentFrameHasError: bool
    /** The decoder's sample buffer held for the frame in progress. */
    var currentFrame: Option<Sample>
    const decoder: Decoder

    ghost predicate Valid()
      reads this
    {
      currentFrame.Some? ==> WellFormed(currentFrame.value.buffer)
    }

    constructor (decoder: Decoder)
      ensures Valid() && this.decoder == decoder
      ensures useByteStreamFormat && !currentFrameHasError && currentFrame == None
    {
      this.decoder := decoder;
      useByteStreamFormat := true;
      currentFrameHasError := false;
      currentFrame := None;
    }

    /** The state that sending units affects, as a value. */
    function Snapshot(): Run
      reads this, decoder
    {
      Run(decoder.decoded, decoder.offers, currentFrame.Some?, currentFrameHasError)
    }

    /**
     * The effect of starting a frame, writing the prefix and one whole NAL
     * unit, and sending it: one frame if a buffer was in hand, none otherwise.
     */
    twostate predicate SentUnit(unit: seq<byte>, rtpTimestamp: int)
      reads this, decoder
    {
      && Snapshot() == SendStep(old(Snapshot()), unit, rtpTimestamp, old(useByteStreamFormat))
      && currentFrame == None
      && useByteStreamFormat == old(useByteStreamFormat)
    }

    /** The effect of an FU-A fragment that ended normally or threw `r`. */
    twostate predicate SentFragment(p: Packet, r: Outcome)
      reads this, decoder
    {
      var held := old(currentFrame).Some?;
      var offers := old(decoder.offers);
      var bs := old(useByteStreamFormat);
      var inProgress := if p.isStart then Acquires(held, offers) else held;
      var before := if p.isStart then Prefix(bs) + [Octet(NalHeaderOctet(p.fuNalType, p.nalFBits, p.nalNriBits))]
                    else Pending(old(currentFrame));
      var ts := if p.isStart then p.timestamp else if held then old(currentFrame).value.rtpTimestamp else 0;
      && useByteStreamFormat == bs
      && decoder.offers == (if p.isStart then OffersAfter(held, offers) else offers)
      && currentFrameHasError == (if p.isStart then !Acquires(held, offers) else old(currentFrameHasError))
      && (!inProgress ==>
            r == Returned && currentFrame == None && decoder.decoded == old(decoder.decoded))
      && (inProgress && |p.data| < 2 ==>
            && r == Threw(TruncatedFuHeader)
            && currentFrame.Some? && Pending(currentFrame) == before
            && currentFrame.value.rtpTimestamp == ts
            && decoder.decoded == old(decoder.decoded))
      && (inProgress && 2 <= |p.data| && p.isEnd ==>
            && r == Returned && currentFrame == None
            && decoder.decoded == old(decoder.decoded) + [FrameOf(before + p.data[2..], ts)])
      && (inProgress && 2 <= |p.data| && !p.isEnd ==>
            && r == Returned
            && currentFrame.Some? && Pending(currentFrame) == before + p.data[2..]
            && currentFrame.value.rtpTimestamp == ts
            && decoder.decoded == old(decoder.decoded))
    }

    /** The effect of a STAP-A packet that ended normally or threw `r`. */
    twostate predicate SentAggregate(p: Packet, r: Outcome)
      reads this, decoder
    {
      var parsed := ParseUnits(StapaBody(p.data));
      && r == (if parsed.failure == None then Returned else Threw(parsed.failure.value))
      && useByteStreamFormat == old(useByteStreamFormat)
      && Snapshot() == StapaRun(parsed.units, old(Snapshot()), p.timestamp, old(useByteStreamFormat))
      && currentFrame == (if parsed.units == [] then old(currentFrame) else None)
    }

    /**
     * Readies a buffer for a new frame: reuses (and clears) a buffer still
     * held, otherwise asks the decoder for one; a refusal sets the error flag
     * and leaves no buffer.
     */
    method StartFrame(rtpTimestamp: int)
      requires Valid()
      modifies this
      modifies decoder
      ensures Valid()
      ensures currentFrameHasError == !Acquires(old(currentFrame).Some?, old(decoder.offers))
      ensures currentFrame.Some? == !currentFrameHasError
      ensures currentFrame.Some? ==> Pending(currentFrame) == [] && currentFrame.value.rtpTimestamp == rtpTimestamp
      ensures old(currentFrame).Some? ==>
        currentFrame == Some(old(currentFrame).value.(buffer := Clear(old(currentFrame).value.buffer),
                                                      rtpTimestamp := rtpTimestamp))
      ensures old(currentFrame).None? && old(decoder.offers) != [] && old(decoder.offers)[0].Some? ==>
        currentFrame == Some(old(decoder.offers)[0].value.(buffer := Clear(old(decoder.offers)[0].value.buffer),
                                                            rtpTimestamp := rtpTimestamp))
      ensures decoder.offers == OffersAfter(old(currentFrame).Some?, old(decoder.offers))
      ensures decoder.decoded == old(decoder.decoded)
      ensures useByteStreamFormat == old(useByteStreamFormat)
    {
      currentFrameHasError := false;
      if currentFrame.Some? {
        currentFrame := Some(currentFrame.value.(buffer := Clear(currentFrame.value.buffer)));
      } else {
        var s := decoder.GetSampleBuffer();
        if s.Some? {
          currentFrame := Some(s.value.(buffer := Clear(s.value.buffer)));
        } else {
          currentFrameHasError := true;
        }
      }
      if !currentFrameHasError {
        currentFrame := Some(currentFrame.value.(rtpTimestamp := rtpTimestamp));
      }
    }

    /** Appends bytes to the frame in progress. */
    method Write(xs: seq<byte>)
      requires Valid() && currentFrame.Some?
      modifies this
      ensures Valid() && currentFrame.Some?
      ensures Pending(currentFrame) == Pending(old(currentFrame)) + xs
      ensures currentFrame.value.rtpTimestamp == old(currentFrame).value.rtpTimestamp
      ensures currentFrameHasError == old(currentFrameHasError)
      ensures useByteStreamFormat == old(useByteStreamFormat)
    {
      currentFrame := Some(currentFrame.value.(buffer := Put(currentFrame.value.buffer, xs)));
    }

    /**
     * Hands the frame in progress to the decoder, sized by its write
     * position, and gives up the buffer whatever the decoder does with it.
     */
    method SendFrame()
      requires Valid() && currentFrame.Some?
      modifies this
      modifies decoder
      ensures Valid() && currentFrame == None
      ensures decoder.decoded == old(decoder.decoded) +
        [FrameOf(Pending(old(currentFrame)), old(currentFrame).value.rtpTimestamp)]
      ensures decoder.offers == old(decoder.offers)
      ensures currentFrameHasError == old(currentFrameHasError)
      ensures useByteStreamFormat == old(useByteStreamFormat)
    {
      var s := currentFrame.value;
      s := s.(sampleSize := s.buffer.position);
      s := s.(buffer := Flip(s.buffer));
      decoder.DecodeFrame(s);
      currentFrame := None;
    }

    /**
     * Starts, fills and sends a frame holding one whole NAL unit: the body
     * of startAndSendFrame, and of each round of the STAP-A loop.
     */
    method StartAndSendUnit(unit: seq<byte>, rtpTimestamp: int)
      requires Valid()
      modifies this
      modifies decoder
      ensures Valid() && SentUnit(unit, rtpTimestamp)
    {
      StartFrame(rtpTimestamp);
      if currentFrame.Some? {
        if useByteStreamFormat {
          Write(StartCodePrefix);
        }
        Write(unit);
        assert Pending(currentFrame) == Prefix(useByteStreamFormat) + unit;
        SendFrame();
      }
    }

    method StartAndSendFrame(p: Packet)
      requires Valid()
      modifies this
      modifies decoder
      ensures Valid() && SentUnit(p.data, p.timestamp)
    {
      StartAndSendUnit(p.data, p.timestamp);
    }

    method StartAndSendFragmentedFrame(p: Packet) returns (r: Outcome)
      requires Valid()
      modifies this
      modifies decoder
      ensures Valid() && SentFragment(p, r)
    {
      ghost var held, offers, bs := currentFrame.Some?, decoder.offers, useByteStreamFormat;
      ghost var inProgress := if p.isStart then Acquires(held, offers) else held;
      ghost var before := if p.isStart then Prefix(bs) + [Octet(NalHeaderOctet(p.fuNalType, p.nalFBits, p.nalNriBits))]
                          else Pending(currentFrame);
      ghost var ts := if p.isStart then p.timestamp else if held then currentFrame.value.rtpTimestamp else 0;
      if p.isStart {
        StartFrame(p.timestamp);
        if currentFrame.Some? {
          if useByteStreamFormat {
            Write(StartCodePrefix);
          }
          Write([Octet(NalHeaderOctet(p.fuNalType, p.nalFBits, p.nalNriBits))]);
        }
      }
      assert currentFrame.Some? == inProgress;
      assert inProgress ==> Pending(currentFrame) == before && currentFrame.value.rtpTimestamp == ts;
      assert decoder.decoded == old(decoder.decoded);
      r := Returned;
      if currentFrame.Some? {
        if |p.data| < 2 {
          r := Threw(TruncatedFuHeader);
          return;
        }
        Write(p.data[2..]);
        if p.isEnd {
          SendFrame();
        }
      }
    }

    method StartStapaFrame(p: Packet) returns (r: Outcome)
      requires Valid()
      modifies this
      modifies decoder
      ensures Valid() && SentAggregate(p, r)
    {
      var data := p.data;
      ghost var start, bs := Snapshot(), useByteStreamFormat;
      ghost var parsed := ParseUnits(StapaBody(data));
      // the units sent so far
      ghost var done: seq<seq<byte>> := [];
      // the header octet is skipped (an empty payload has none to skip);
      // `rest` is what is left to read
      var rest := StapaBody(data);
      ghost var tail := parsed;
      r := Returned;
      while rest != []
        invariant Valid()
        invariant useByteStreamFormat == bs
        invariant tail == ParseUnits(rest)
        invariant parsed == Units(done + tail.units, tail.failure)
        invariant Snapshot() == StapaRun(done, start, p.timestamp, bs)
        invariant currentFrame == (if done == [] then old(currentFrame) else None)
        decreases |rest|
      {
        var read := ReadUnit(rest);
        if read.Failed? {
          r := Threw(read.cause);
          break;
        }
        var unit := read.unit;
        rest := read.rest;
        ghost var next := ParseUnits(rest);
        AppendAssoc(done, [unit], next.units);
        tail := next;
        StapaRunSnoc(done, unit, start, p.timestamp, bs);
        done := done + [unit];

        StartAndSendUnit(unit, p.timestamp);
      }
      // either way the parse ended after the units in `done`
      assert parsed.units == done + [] == done;
    }

    /** The entry point: dispatches on the packet's NAL framing. */
    method SendPacket(p: Packet) returns (r: Outcome)
      requires Valid()
      modifies this
      modifies decoder
      ensures Valid()
      ensures p.nalType == Full ==> r == Returned && SentUnit(p.data, p.timestamp)
      ensures p.nalType == NotFull ==> SentFragment(p, r)
      ensures p.nalType == Stapa ==> SentAggregate(p, r)
    {
      match p.nalType
      case Full =>
        StartAndSendFrame(p);
        r := Returned;
      case NotFull =>
        r := StartAndSendFragmentedFrame(p);
      case Stapa =>
        r := StartStapaFrame(p);
    }

    method IsUseByteStreamFormat() returns (b: bool)
      ensures b == useByteStreamFormat
    {
      b := useByteStreamFormat;
    }

    method SetUseByteStreamFormat(b: bool)
      requires Valid()
      modifies this
      ensures Valid() && useByteStreamFormat == b
      ensures currentFrame == old(currentFrame) && currentFrameHasError == old(currentFrameHasError)
    {
      useByteStreamFormat := b;
    }
  }
}
