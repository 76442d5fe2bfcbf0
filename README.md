# H.264 RTP depacketizer: a Dafny model

This project models the depacketizer core of an Android RTP video player, as
defined by RFC 6184. The core has two parts:

- **`RtpMediaExtractor`** turns classified RTP packets into samples ready for
  the decoder. It handles three kinds of packet:
  - single NAL unit packets (section 5.6 of RFC 6184);
  - FU-A fragments (section 5.8);
  - STAP-A aggregates (section 5.7.1).

  It holds at most one sample buffer borrowed from the decoder (`currentFrame`).
  It writes the optional Annex B start code `00 00 00 01` before every NAL
  unit. For a fragmented unit, it rebuilds the NAL header octet from the FU
  indicator and the FU header.
- **`Frame`** collects the packets of one RTP timestamp, keyed by sequence
  number. It decides whether those packets make up a whole frame.

Modules:

- `Packets` (packets.dfy): a classified packet. The classifier itself is not
  part of this model; its outputs are the fields of the datatype.
- `Decoding` (decoding.dfy): the decoder as the extractor sees it.
  - The byte buffer is a value with `clear`, `put` and `flip`, in the manner
    of `java.nio.ByteBuffer`. The backing store keeps stale bytes from earlier
    use.
  - A `Decoder` object has a sequence `offers` of answers to buffer requests,
    where a refusal is `None`. It keeps a log `decoded` of every sample handed
    back.
- `Extractor` (extractor.dfy): the `RtpMediaExtractor` class, with imperative
  methods over its fields and over the decoder.
  - Each packet kind's effect is stated as a twostate predicate over the
    class's state. These predicates are `SentUnit`, `SentFragment` and
    `SentAggregate`.
  - Those predicates are in turn tied to value-level specification functions:
    `SendStep` for one unit and `StapaRun` for an aggregate.
  - The STAP-A payload layout is modelled as functions, with lemmas for the
    parse/encode round trip.
- `FrameTracker` (frame.dfy): the `Frame` class over a `map<int, Packet>`.
  - Ascending key order, as the skip-list map iterates it, is the sequence
    `Ordered(m)`.
  - The completion scan of `isCompleted` is the recursive function `Scan`.
    The method `IsCompleted` runs the source's loop and is proved equal to
    `Scan`.

Where the code and its design notes disagree, the model follows the code:

- `isCompleted` remembers the **most recent** start fragment, not the first.
- A single NAL unit or STAP-A packet completes the frame only if it comes
  before the first end fragment in sequence-number order. After that end
  fragment, the scan has already returned. This is not "independent of
  ordering".
- A malformed STAP-A payload or a fragment shorter than its two FU octets is
  not dropped quietly. The Java code throws out of `sendPacket`. The model
  returns `Threw(cause)`, and the frames handed off before the throw remain
  handed off.

## Model

All `rtp/` paths are under `rtpmediaplayer_lib/src/main/java/com/c77/rtpmediaplayer/lib/`.

| member | source | states |
|---|---|---|
| Extractor.NalHeaderOctet | rtpmediaplayer_lib/src/main/java/com/c77/rtpmediaplayer/lib/rtp/RtpMediaExtractor.java:120-121 | When the type, F and NRI inputs each hold only their own bits (bits 4-0, 7 and 6-5), each field can be read back from the rebuilt octet. |
| Extractor.NalHeaderExample | rtpmediaplayer_lib/src/main/java/com/c77/rtpmediaplayer/lib/rtp/RtpMediaExtractor.java:120 | Type 7, F 0 and NRI 0x60 give the SPS header octet 0x67. |
| Extractor.Octet | rtpmediaplayer_lib/src/main/java/com/c77/rtpmediaplayer/lib/rtp/RtpMediaExtractor.java:120-121 | The `(byte)` cast keeps the octet's bits unchanged. |
| Extractor.ReadShort | rtpmediaplayer_lib/src/main/java/com/c77/rtpmediaplayer/lib/rtp/RtpMediaExtractor.java:58 | `readShort` is a signed big-endian 16-bit read: the value is in [-32768, 32768). It is negative exactly when the high octet's top bit is set. Otherwise it is the high octet times 256 plus the low octet. |
| Extractor.SizeField | rtpmediaplayer_lib/src/main/java/com/c77/rtpmediaplayer/lib/rtp/RtpMediaExtractor.java:58 | A sender's two-octet size field for n < 32768 reads back as n. |
| Extractor.ReadUnit | rtpmediaplayer_lib/src/main/java/com/c77/rtpmediaplayer/lib/rtp/RtpMediaExtractor.java:56-62 | A successful read of one size field and its unit consumes exactly that field and that unit, and the unit is shorter than 32768 bytes. The read succeeds exactly when two bytes are there and the signed size is between 0 and the bytes left. A failure is `TruncatedSize` exactly when fewer than two bytes remain, otherwise `NegativeSize` exactly when the size's top bit is set, otherwise `TruncatedUnit`. |
| Extractor.ParseUnits | rtpmediaplayer_lib/src/main/java/com/c77/rtpmediaplayer/lib/rtp/RtpMediaExtractor.java:56-62 | Every unit read from an aggregate is shorter than 32768 bytes, so it is one a sender can encode. |
| Extractor.EncodeThenParse | rtpmediaplayer_lib/src/main/java/com/c77/rtpmediaplayer/lib/rtp/RtpMediaExtractor.java:56-62 | Parsing the encoding of any encodable list of units gives back exactly those units, with no failure. |
| Extractor.ReadEncoded | rtpmediaplayer_lib/src/main/java/com/c77/rtpmediaplayer/lib/rtp/RtpMediaExtractor.java:58-62 | A size field followed by that many bytes reads back as exactly that unit, leaving the rest. |
| Extractor.ParseThenEncode | rtpmediaplayer_lib/src/main/java/com/c77/rtpmediaplayer/lib/rtp/RtpMediaExtractor.java:56-62 | A payload that parses without failure is exactly the encoding of the units read from it. |
| Extractor.StapaPayloadRoundTrip | rtpmediaplayer_lib/src/main/java/com/c77/rtpmediaplayer/lib/rtp/RtpMediaExtractor.java:48-62 | Whatever the header octet, a well-formed STAP-A payload yields exactly the units it was built from. |
| Extractor.StapaBody | rtpmediaplayer_lib/src/main/java/com/c77/rtpmediaplayer/lib/rtp/RtpMediaExtractor.java:48-54 | The one-octet STAP-A header is skipped. An empty payload yields nothing to read, because the failed `readByte` is caught. |
| Extractor.SendStep | rtpmediaplayer_lib/src/main/java/com/c77/rtpmediaplayer/lib/rtp/RtpMediaExtractor.java:65-77 | Sending one unit hands off one frame holding the prefix and the unit, with the packet's timestamp, exactly when a buffer was held or granted. Otherwise it sets the error flag. Either way no buffer is held afterwards, and at most one decoder answer is used. |
| Extractor.StapaRun | rtpmediaplayer_lib/src/main/java/com/c77/rtpmediaplayer/lib/rtp/RtpMediaExtractor.java:56-78 | The loop over the parsed units, one `SendStep` per unit. A buffer is held afterwards only if one was held and there were no units. It hands off at most one frame per unit, and never drops frames already sent. |
| Extractor.FramesOf | rtpmediaplayer_lib/src/main/java/com/c77/rtpmediaplayer/lib/rtp/RtpMediaExtractor.java:71-76 | The k-th frame of an aggregate whose every unit gets a buffer is the prefix and the k-th unit. |
| Extractor.StapaRunGranted | rtpmediaplayer_lib/src/main/java/com/c77/rtpmediaplayer/lib/rtp/RtpMediaExtractor.java:56-78 | When every buffer request succeeds, n units hand off exactly n frames after those already sent, in order, one per unit. A held buffer serves the first unit, and each later unit uses one answer. Only the answers actually used need to be grants. |
| Extractor.GrantedOffers | rtpmediaplayer_lib/src/main/java/com/c77/rtpmediaplayer/lib/rtp/RtpMediaExtractor.java:145-157 | When every request succeeds, the loop ends with no buffer held (if it ran at all), and the answers it used are counted. |
| Extractor.GrantedNext | rtpmediaplayer_lib/src/main/java/com/c77/rtpmediaplayer/lib/rtp/RtpMediaExtractor.java:145-152 | With one more granted answer ahead, the next unit gets a buffer. |
| Extractor.GrantedStep | rtpmediaplayer_lib/src/main/java/com/c77/rtpmediaplayer/lib/rtp/RtpMediaExtractor.java:140-176 | With a buffer in hand or granted, one step appends its frame and releases the buffer. |
| Extractor.StapaRunFramesAreUnits | rtpmediaplayer_lib/src/main/java/com/c77/rtpmediaplayer/lib/rtp/RtpMediaExtractor.java:56-78 | Whatever the decoder answers, an aggregate only appends to the frames already sent, at most one per unit. Every appended frame is the prefix plus one whole unit, so no bytes carry over between units. |
| Extractor.StapaPacketGranted | rtpmediaplayer_lib/src/main/java/com/c77/rtpmediaplayer/lib/rtp/RtpMediaExtractor.java:43-79 | A well-formed STAP-A packet whose buffer requests all succeed parses without failure. It hands off one frame per unit, in order, each holding the prefix and exactly that unit. |
| Extractor.RtpMediaExtractor.constructor | rtpmediaplayer_lib/src/main/java/com/c77/rtpmediaplayer/lib/rtp/RtpMediaExtractor.java:30-41 | Byte-stream mode starts on, with no buffer held and no error. |
| Extractor.RtpMediaExtractor.SentUnit | rtpmediaplayer_lib/src/main/java/com/c77/rtpmediaplayer/lib/rtp/RtpMediaExtractor.java:81-95 | The new state of a single-unit packet: extractor and decoder state are `SendStep` of the old, no buffer is held, and the mode is unchanged. |
| Extractor.RtpMediaExtractor.SentFragment | rtpmediaplayer_lib/src/main/java/com/c77/rtpmediaplayer/lib/rtp/RtpMediaExtractor.java:97-138 | The new state of an FU-A fragment, case by case: no frame in progress, a short payload, an end fragment, and any other fragment. Each case gives the bytes held or handed off, the timestamp, the answers used and the error flag. |
| Extractor.RtpMediaExtractor.SentAggregate | rtpmediaplayer_lib/src/main/java/com/c77/rtpmediaplayer/lib/rtp/RtpMediaExtractor.java:43-79 | The new state of a STAP-A packet: `StapaRun` over the units parsed before the payload ended or a read failed. The outcome is that failure, and the held buffer is kept only when no unit was read. |
| Extractor.RtpMediaExtractor.StartFrame | rtpmediaplayer_lib/src/main/java/com/c77/rtpmediaplayer/lib/rtp/RtpMediaExtractor.java:140-163 | The error flag is reset, then set exactly when no buffer was held and the decoder refuses. A held buffer is cleared and reused without a request. Otherwise the buffer granted is the decoder's next answer, cleared. A buffer is held afterwards exactly when there is no error, and then it is empty and carries the new timestamp. |
| Extractor.RtpMediaExtractor.Write | rtpmediaplayer_lib/src/main/java/com/c77/rtpmediaplayer/lib/rtp/RtpMediaExtractor.java:73-75 | `put` appends exactly the given bytes to what the frame in progress holds. |
| Extractor.RtpMediaExtractor.SendFrame | rtpmediaplayer_lib/src/main/java/com/c77/rtpmediaplayer/lib/rtp/RtpMediaExtractor.java:165-176 | The decoder receives exactly the bytes written, sized by the write position, with the frame's timestamp. The buffer is always given up afterwards. |
| Extractor.RtpMediaExtractor.StartAndSendUnit | rtpmediaplayer_lib/src/main/java/com/c77/rtpmediaplayer/lib/rtp/RtpMediaExtractor.java:65-77 | The state afterwards is `SendStep` applied to the state before. |
| Extractor.RtpMediaExtractor.StartAndSendFrame | rtpmediaplayer_lib/src/main/java/com/c77/rtpmediaplayer/lib/rtp/RtpMediaExtractor.java:81-95 | A single NAL unit packet hands off one frame: the prefix in byte-stream mode, then the whole payload, with the raw RTP timestamp. This happens exactly when a buffer is held or granted. |
| Extractor.RtpMediaExtractor.StartAndSendFragmentedFrame | rtpmediaplayer_lib/src/main/java/com/c77/rtpmediaplayer/lib/rtp/RtpMediaExtractor.java:97-138 | Cases for a fragment: <br>• A start fragment writes the prefix and the rebuilt header octet. <br>• With a frame in progress, any fragment then appends exactly `data[2..]`, and an end fragment hands the frame off. <br>• With no frame in progress, a non-start fragment changes nothing. <br>• A payload shorter than two bytes throws, after the start step. |
| Extractor.RtpMediaExtractor.StartStapaFrame | rtpmediaplayer_lib/src/main/java/com/c77/rtpmediaplayer/lib/rtp/RtpMediaExtractor.java:43-79 | The state afterwards is `StapaRun` over the units parsed before the payload ran out or a read failed. The method throws the parse's failure, if any. |
| Extractor.RtpMediaExtractor.SendPacket | rtpmediaplayer_lib/src/main/java/com/c77/rtpmediaplayer/lib/rtp/RtpMediaExtractor.java:231-243 | Dispatch on the packet kind, giving the effect of that kind's handler. |
| Extractor.RtpMediaExtractor.IsUseByteStreamFormat | rtpmediaplayer_lib/src/main/java/com/c77/rtpmediaplayer/lib/rtp/RtpMediaExtractor.java:178-180 | Returns the current mode. |
| Extractor.RtpMediaExtractor.SetUseByteStreamFormat | rtpmediaplayer_lib/src/main/java/com/c77/rtpmediaplayer/lib/rtp/RtpMediaExtractor.java:182-184 | Sets the mode, leaves the frame and error state alone, and keeps the class invariant. |
| Decoding.Clear | rtpmediaplayer_lib/src/main/java/com/c77/rtpmediaplayer/lib/rtp/RtpMediaExtractor.java:146 | `clear` empties what counts as written but keeps the backing bytes. |
| Decoding.Put | rtpmediaplayer_lib/src/main/java/com/c77/rtpmediaplayer/lib/rtp/RtpMediaExtractor.java:75 | `put` extends the written bytes by exactly its argument and advances the position by its length. |
| Decoding.Flip | rtpmediaplayer_lib/src/main/java/com/c77/rtpmediaplayer/lib/rtp/RtpMediaExtractor.java:167 | After `flip`, the readable window is exactly what was written, with no stale bytes. |
| Decoding.Decoder.GetSampleBuffer | rtpmediaplayer_lib/src/main/java/com/c77/rtpmediaplayer/lib/rtp/RtpMediaExtractor.java:151 | Each request uses the next answer. |
| Decoding.Decoder.DecodeFrame | rtpmediaplayer_lib/src/main/java/com/c77/rtpmediaplayer/lib/rtp/RtpMediaExtractor.java:169 | The decoder receives the readable bytes, the timestamp and the size of the sample. |
| FrameTracker.ConvertTimestamp | rtpmediaplayer_lib/src/main/java/com/c77/rtpmediaplayer/lib/rtp/Frame.java:29 | Java `long` division by 9000, truncating toward zero: the result is within one step of t/9000 on the side of zero, for either sign. |
| FrameTracker.ConvertRevertsMultiplier | rtpmediaplayer_lib/src/main/java/com/c77/rtpmediaplayer/lib/rtp/Frame.java:15-29 | Dividing undoes the publisher's multiplication by 9000, whatever remainder below 9000 is added. |
| FrameTracker.SortedKeys | rtpmediaplayer_lib/src/main/java/com/c77/rtpmediaplayer/lib/rtp/Frame.java:18 | The keys in strictly increasing order, each one a key, and as many as there are keys. |
| FrameTracker.SortedKeysComplete | rtpmediaplayer_lib/src/main/java/com/c77/rtpmediaplayer/lib/rtp/Frame.java:18 | Every key appears in the sorted keys. |
| FrameTracker.Ordered | rtpmediaplayer_lib/src/main/java/com/c77/rtpmediaplayer/lib/rtp/Frame.java:37-39 | One packet per entry. |
| FrameTracker.OrderedIsSorted | rtpmediaplayer_lib/src/main/java/com/c77/rtpmediaplayer/lib/rtp/Frame.java:18-39 | The packets in key order are exactly the entries: each is filed under its own number, every entry appears, and the sequence numbers strictly ascend. |
| FrameTracker.Scan | rtpmediaplayer_lib/src/main/java/com/c77/rtpmediaplayer/lib/rtp/Frame.java:43-73 | The `isCompleted` loop from a position, carrying the most recent start. Its meaning is stated by the lemmas below. |
| FrameTracker.Completed | rtpmediaplayer_lib/src/main/java/com/c77/rtpmediaplayer/lib/rtp/Frame.java:42-74 | The test as written: the scan over the frame's packets in key order, compared with the frame's size. |
| FrameTracker.WholeBeforeEndCompletes | rtpmediaplayer_lib/src/main/java/com/c77/rtpmediaplayer/lib/rtp/Frame.java:47-70 | A single NAL unit or STAP-A packet met before any end fragment makes the frame complete. |
| FrameTracker.NoDecisiveIncomplete | rtpmediaplayer_lib/src/main/java/com/c77/rtpmediaplayer/lib/rtp/Frame.java:45-73 | With no single unit, no aggregate and no end fragment, the frame is never complete. |
| FrameTracker.ScanSkips | rtpmediaplayer_lib/src/main/java/com/c77/rtpmediaplayer/lib/rtp/Frame.java:59-67 | With no start fragment up to the end fragment, the start carried in decides the test. |
| FrameTracker.ScanReachesStart | rtpmediaplayer_lib/src/main/java/com/c77/rtpmediaplayer/lib/rtp/Frame.java:52-57 | Reaching a start fragment replaces whatever start was remembered. |
| FrameTracker.FirstEndDecides | rtpmediaplayer_lib/src/main/java/com/c77/rtpmediaplayer/lib/rtp/Frame.java:52-67 | At the first end fragment, with no single unit or aggregate before it, the frame is complete exactly when a start fragment was seen and end - (most recent start) + 1 equals the number of packets in the frame. |
| FrameTracker.ScanCounted | rtpmediaplayer_lib/src/main/java/com/c77/rtpmediaplayer/lib/rtp/Frame.java:43-73 | The corrected scan: as written, but also counting the packets since the most recent start, which at the end fragment must match the span as well. |
| FrameTracker.CompletedGapFree | rtpmediaplayer_lib/src/main/java/com/c77/rtpmediaplayer/lib/rtp/Frame.java:62-66 | The corrected test over the frame's packets in key order. |
| FrameTracker.ScanCountedNarrows | rtpmediaplayer_lib/src/main/java/com/c77/rtpmediaplayer/lib/rtp/Frame.java:43-73 | The corrected scan accepts only what the scan as written accepts. |
| FrameTracker.CompletedGapFreeNarrows | rtpmediaplayer_lib/src/main/java/com/c77/rtpmediaplayer/lib/rtp/Frame.java:62-66 | A frame complete by the corrected test is complete by the test as written. The correction only rejects more frames. |
| FrameTracker.ScanCountedSkips | rtpmediaplayer_lib/src/main/java/com/c77/rtpmediaplayer/lib/rtp/Frame.java:59-67 | The corrected scan: with no start up to the end, the carried start decides, through both the frame's size and the packets counted so far. |
| FrameTracker.ScanCountedReachesStart | rtpmediaplayer_lib/src/main/java/com/c77/rtpmediaplayer/lib/rtp/Frame.java:52-57 | The corrected scan restarts its count at a start fragment. |
| FrameTracker.FirstEndDecidesCounted | rtpmediaplayer_lib/src/main/java/com/c77/rtpmediaplayer/lib/rtp/Frame.java:62-66 | The corrected test accepts at the first end fragment exactly when a start was seen, the span from the most recent start to the end equals the frame's size, and it also equals the number of packets between them. |
| FrameTracker.Spread | rtpmediaplayer_lib/src/main/java/com/c77/rtpmediaplayer/lib/rtp/Frame.java:18 | In ascending order, k packets later means at least k sequence numbers later. |
| FrameTracker.GapAfter | rtpmediaplayer_lib/src/main/java/com/c77/rtpmediaplayer/lib/rtp/Frame.java:18 | Just after a packet whose successor is more than one number on, that number is missing. |
| FrameTracker.SpanGap | rtpmediaplayer_lib/src/main/java/com/c77/rtpmediaplayer/lib/rtp/Frame.java:62-66 | A span wider than the packets inside it misses some sequence number strictly inside it. |
| FrameTracker.SpanIffAllListed | rtpmediaplayer_lib/src/main/java/com/c77/rtpmediaplayer/lib/rtp/Frame.java:62-66 | In ascending order, the span from start to end equals the number of packets between them exactly when every number in the span is present. |
| FrameTracker.ListedIffKey | rtpmediaplayer_lib/src/main/java/com/c77/rtpmediaplayer/lib/rtp/Frame.java:37-39 | A number is carried by some packet in key order exactly when it is a key. |
| FrameTracker.FirstEndDecidesListed | rtpmediaplayer_lib/src/main/java/com/c77/rtpmediaplayer/lib/rtp/Frame.java:62-66 | The corrected test accepts at the first end fragment exactly when a start was seen, the span equals the frame's size, and every number from the most recent start to the end is carried by a packet. |
| FrameTracker.CompletedGapFreeIffAllPresent | rtpmediaplayer_lib/src/main/java/com/c77/rtpmediaplayer/lib/rtp/Frame.java:62-66 | At the first end fragment, the corrected test accepts exactly when a start was seen, the span from the most recent start to the end equals the frame's size, and every number in it is a key. |
| FrameTracker.AllListedIffAllKeys | rtpmediaplayer_lib/src/main/java/com/c77/rtpmediaplayer/lib/rtp/Frame.java:37-39 | A range of numbers is all carried by the packets in key order exactly when it is all keys. |
| FrameTracker.SizedSpanIsExact | rtpmediaplayer_lib/src/main/java/com/c77/rtpmediaplayer/lib/rtp/Frame.java:62-66 | A span from a start to an end that equals the frame's size, with every number in it a key, is exactly the frame's keys. |
| FrameTracker.ExactSpanIsSized | rtpmediaplayer_lib/src/main/java/com/c77/rtpmediaplayer/lib/rtp/Frame.java:62-66 | Conversely, when the frame's keys are exactly the span, the span equals the frame's size and has no number missing. |
| FrameTracker.CompletedGapFreeIffExactSpan | rtpmediaplayer_lib/src/main/java/com/c77/rtpmediaplayer/lib/rtp/Frame.java:62-66 | The check the code's comment intends: at the first end fragment, the corrected test accepts exactly when a start was seen and the frame's sequence numbers are exactly those from the most recent start to the end, none missing and none outside. |
| FrameTracker.Frame.constructor | rtpmediaplayer_lib/src/main/java/com/c77/rtpmediaplayer/lib/rtp/Frame.java:26-31 | A new frame holds exactly its first packet, under that packet's sequence number, and the timestamp divided by 9000. |
| FrameTracker.Frame.AddPacket | rtpmediaplayer_lib/src/main/java/com/c77/rtpmediaplayer/lib/rtp/Frame.java:33-35 | The packet is filed under its sequence number, replacing a duplicate. The size grows by one exactly when the number is new. Every other entry is unchanged. |
| FrameTracker.Frame.GetPackets | rtpmediaplayer_lib/src/main/java/com/c77/rtpmediaplayer/lib/rtp/Frame.java:18-39 | The packets in strictly ascending sequence-number order, exactly one per entry. |
| FrameTracker.Frame.ConvertedTimestamp | rtpmediaplayer_lib/src/main/java/com/c77/rtpmediaplayer/lib/rtp/Frame.java:76-78 | The first packet's RTP timestamp divided by 9000, truncated toward zero. |
| FrameTracker.Frame.IsCompleted | rtpmediaplayer_lib/src/main/java/com/c77/rtpmediaplayer/lib/rtp/Frame.java:42-74 | The loop over the entries in key order returns `Completed` of the packets (the scan characterised by the lemmas above). It modifies nothing. |
| FrameTracker.CompleteRunExample | rtpmediaplayer_lib/src/main/java/com/c77/rtpmediaplayer/lib/rtp/Frame.java:42-74 | {10 start, 11 middle, 12 end} is complete. |
| FrameTracker.MissingMiddleExample | rtpmediaplayer_lib/src/main/java/com/c77/rtpmediaplayer/lib/rtp/Frame.java:59-67 | {10 start, 12 end} is not complete. |
| FrameTracker.WholeAfterEndExample | rtpmediaplayer_lib/src/main/java/com/c77/rtpmediaplayer/lib/rtp/Frame.java:45-70 | A single NAL unit ordered after an end fragment does not complete the frame. |
| FrameTracker.GapAcceptedExample | rtpmediaplayer_lib/src/main/java/com/c77/rtpmediaplayer/lib/rtp/Frame.java:66 | As written, {5 middle, 7 start, 9 end} is complete although number 8 is missing. |
| FrameTracker.GapRejectedExample | rtpmediaplayer_lib/src/main/java/com/c77/rtpmediaplayer/lib/rtp/Frame.java:66 | The corrected test rejects that frame, because 8 is missing. |

## Findings

| source | as written | input that shows it | evidently intended | confidence | as-written member | corrected member |
|---|---|---|---|---|---|---|
| rtpmediaplayer_lib/src/main/java/com/c77/rtpmediaplayer/lib/rtp/Frame.java:66 | `end - start + 1 == packets.size()` compares the span from start to end with the count of all the frame's packets, including any before the start. | {5: middle fragment, 7: start, 9: end}: the span 7..9 has width 3 and the frame has 3 packets, so the test is true although 8 never arrived. | The comment says "all expected packets are present": besides the size test as written, no number from the start to the end may be missing. Together these make the frame's keys exactly the span from start to end (`CompletedGapFreeIffExactSpan`). | medium; not executed | FrameTracker.GapAcceptedExample | FrameTracker.CompletedGapFreeIffExactSpan |

`Completed` (with `Frame.IsCompleted`) models the code as written.
`CompletedGapFree` is the corrected test. It keeps the size test as written
and adds that the span counts the packets from the start to the end, so it
only ever rejects more frames (`CompletedGapFreeNarrows`).
`GapRejectedExample` shows it rejecting the same input. Nothing else in the model depends on which test is
used.

## Left out

- `getMediaFormat`: it builds an Android `MediaFormat` from hard-coded SPS/PPS bytes, with no logic.
- The network-side packet encoder (`DataPacketEncoder`) is not part of this model.
- The NAL classifier (`DataPacketWithNalType`) is not part of this model. Its outputs are taken as the fields of `Packets.Packet`.
- Logging and the thread safety of the concurrent skip-list map are not modelled. The map is a plain `map<int, Packet>`, iterated in ascending key order.
- Buffer capacity is not modelled: buffers are unbounded, so `BufferOverflowException` is never raised.
- Sequence-number wrap-around is not modelled. Keys are plain integers, as in the code, and no wrap handling is claimed.
- Decoder refusal is modelled as the `RtpPlayerException` that `startFrame` catches. A decoder that returns null instead would make `startFrame` throw after the error flag stayed false. The model does not include that case.
- Extractor.RtpMediaExtractor.SendFrame: a failing `decodeFrame` is not distinguished from a successful one. The code only logs the exception and releases the buffer in both cases, and the model records the hand-off either way.
- Samples are modelled as values, so aliasing between the extractor's `currentFrame` and the decoder's own reference to the same buffer is not captured.
- `startSTAPAFrame` advances the reader index of the packet's own `ChannelBuffer`. Sending the same STAP-A packet object a second time would therefore find nothing left to read and emit nothing. The model reads the payload as a value, so every send reads it from the start.
