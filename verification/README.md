# A verified model of a live streaming server

The server takes a stream from a publisher over RTMP, keeps the latest groups of
pictures for newcomers, passes the stream on to RTMP players, and cuts it into
MPEG-TS segments for HTTP live streaming. This project models the parts of it that
are protocols, codecs and state machines, and proves what they promise for every
input, every run or every reachable state.

Each part has the same shape. A specification says what the code does on values
(what bytes a writer lays out, what a reader makes of any bytes, what one step does
to the state). Methods, in the imperative form of the source, with its fields,
loops, buffers and cursors, are proved to do exactly that. Theorems are proved about
the specification, mostly against a partner that does not share its definition: a
parser against a printer, a bit-serial division against a table, a demultiplexer
against a muxer, a ledger against counters, a stepping rule against a count.

Where a promise turns out not to hold of the code, the code is modelled as it is,
the inputs that break the promise are named, and the promise is proved to hold
exactly outside them. These are the places:

- A peer hears a chunk size announcement in time only if the new size is at least
  four (`ChunkSession.AnnouncementHeardIff`).
- The payload of a short video key frame survives the MPEG-TS muxer only if its PES
  packet is 184 bytes or more, or exactly 176 (`TsDemux.MuxRecoveredIff`).
- The clock reference of a video key frame reads back only if its PES packet has at
  most 178 or at least 184 bytes, but for a few lucky times (`TsDemux.PcrReadBackIff`).
- A PTS or DTS reads back modulo 2^33 only below 2^33 (`TsDemux.TimeRightIff`).
- The cache of groups of pictures works with one or two slots. With more the first
  replay crashes, without any every replay does (`Gop.ReplayIff`); when writing crashes
  says `Gop.WriteCrashesIff`.
- Decoding AMF0 from a reader that refuses an empty read at its end loses a value
  that ends in an empty string; an empty object key reads as the object's end, and one
  over 65535 bytes is cut (`Amf0Meaning.RoundTripIff`, `Amf0.BatchTrip`).
- AMF3 integers of 2^28 and more come back negative, and class names do not come back
  (`Amf3Meaning.RoundTripIff`). A string cut short is refused only if the cut is in its
  length or right behind it, and is padded with zeros otherwise, and so are XML and byte
  arrays (`Amf3Meaning.ShortStringIff`, `Amf3Meaning.CutStringIff`,
  `Amf3Meaning.ShortXmlIff`, `Amf3Meaning.ShortByteArrayIff`).
- AMF3 references to arrays and objects are halved once too often: only the first entry of
  a table can be named right (`Amf3References.ReferenceRightIff`), while sections 3.11 and
  3.12 of the AMF 3 specification have the whole index. And an object is remembered before
  it is read, as nothing, so that a reference to it gives nothing
  (`Amf3References.ObjectIsForgotten`).
- Taking "@setDataFrame" off a message cuts it right only if it was written as a short
  AMF0 string, or as an AMF3 string or XML whose length takes one byte
  (`MetaData.DelCutsTheFrameIff`); putting it back gives the message only after the
  first of these (`MetaData.AddUndoesDelIff`). A message can crash both only if the byte
  that switches to AMF3 is in it (`MetaData.NoSwitchNoPanic`), and one that starts with
  an AMF3 string does so if and only if that is a reference
  (`MetaData.ReferencePanicsIff`).
- The parameter sets of an AVC configuration record are stored right only if there is
  one of each kind and nothing follows them (`AnnexB.RecordIff`).
- The playlist's map agrees with its list only if no segment shares its name with one
  of the two before it (`HlsWindow.WindowIff`).
- After a type 0 header, a type 3 header that starts a message is to add the timestamp of
  the type 0 header, by section 5.3.1.2.4 of the RTMP specification. Without an extended
  timestamp it adds nothing, which is right only for timestamp zero; with one it sets the
  clock to that instead of adding it, which is right only if the clock shows zero
  (`ChunkClock.SpecificationIff`, and `ChunkClock.RepeatedTimestamp` for a history that
  fails).
- A message opened by a header of type 1 or 2 with an extended timestamp is read right only
  if it fits one chunk, or if the clock of its chunk stream showed zero
  (`ChunkDelta.DeltaMessageIff`).

## Files

| file | contents |
|---|---|
| Bytes | bytes, fixed-width integers of both byte orders, a buffer to append to |
| ChunkFormat, ChunkProtocol, ChunkSession, ChunkLaws, ChunkClock, ChunkDelta, ChunkWire, ChunkConn | the RTMP chunk layer: wire format and reader, a sender that interleaves messages, whole connections, laws for arbitrary input, the format byte by byte, the clock of the specification, messages opened with a delta, the classes |
| Crc32, TsFormat, TsDemux, TsMuxer, TsTables | MPEG-TS: checksum, packet layout and a demultiplexer, recovery theorems, the muxer class, the two tables |
| AmfIo, Uint29, Amf3, Amf3RoundTrip, Amf3Meaning, Amf3Reads, Amf3References, Amf3Codec | Action Message Format 3: codec, round trips, what only the decoder knows, the reference tables |
| Amf0, Amf0Meaning, Amf0Codec, MetaData | Action Message Format 0, which can switch to 3, and the metadata marker |
| AmfWire | both formats byte by byte |
| Gop, GopCache | the ring of groups of pictures |
| AnnexB | from length-prefixed H.264 to the Annex B byte stream |
| PacketQueue | shedding packets at the high-water mark |
| Handshake | the RTMP handshake with digests |
| Align, HlsWindow, Hls, HlsSegments, HlsRuns, HlsSource | audio timestamps, the playlist window, the segmenter, what segments hold, whole runs told in their packets, the classes |

## Model

| member | source | states |
|---|---|---|
| ChunkConn.Pool.Get | utils/pool/pool.go:12-20 | the region handed out has the asked size and is apart from every region handed out before, so no later message can overwrite an earlier one |
| ChunkConn.ReadWriter.ReadUintBE | protocol/rtmp/core/read_writer.go:38-52 | reads what the big-endian reader of the specification reads, with the sticky error |
| ChunkConn.ReadWriter.ReadUintLE | protocol/rtmp/core/read_writer.go:55-69 | the same for little-endian, as the message stream id is sent |
| ChunkConn.ReadWriter.WriteUintBE | protocol/rtmp/core/read_writer.go:96-108 | appends the low bytes, most significant first |
| ChunkConn.ReadWriter.WriteUintLE | protocol/rtmp/core/read_writer.go:111-124 | appends the low bytes, least significant first |
| ChunkConn.WriteHeader | protocol/rtmp/core/chunk_stream.go:39-82 | for each of the four types, a basic header of one, two or three bytes by chunk stream id, the fields of that type, and the extended timestamp when the time field is full; a length over three bytes is refused when its turn comes |
| ChunkConn.WriteChunk | protocol/rtmp/core/chunk_stream.go:84-121 | a message goes out as one type 0 chunk and then type 3 chunks of the chunk size, on the chunk stream its type routes it to; nothing for an empty one |
| ChunkConn.TakeChunk | protocol/rtmp/core/chunk_stream.go:124-226 | one chunk read into a record: fields by header type, payload slice from the pool, only that slice changed |
| ChunkConn.Conn.Write | protocol/rtmp/core/conn.go:85-90 | writes the encoding at the size in force, which an announcement changes before it is written itself |
| ChunkConn.Conn.HandleControlMsg | protocol/rtmp/core/conn.go:139-145 | takes over an announced chunk or window size, and crashes on one of fewer than four bytes |
| ChunkConn.Conn.Ack | protocol/rtmp/core/conn.go:147-158 | counts received bytes and sends an acknowledgement once the window is reached |
| ChunkConn.AckIsHeard | protocol/rtmp/core/conn.go:117-171 | whatever the amount, a peer in step with the writer reads an acknowledgement as one message of type 3 on chunk stream 2 whose four bytes, most significant first, are that amount |
| ChunkConn.Conn.Read | protocol/rtmp/core/conn.go:51-76 | does exactly the specified read, and every message delivered earlier still has the bytes it was delivered with |
| ChunkProtocol.ReadDeltaFields | protocol/rtmp/core/chunk_stream.go:151-176 | headers of types 1 and 2 are read as the writer prints them: the time is a delta |
| ChunkProtocol.ReadOneStep | protocol/rtmp/core/conn.go:51-76 | one chunk of any enabled sender step is read as that step, whatever follows it, and the two sides agree again |
| ChunkProtocol.TruncatedEmitted | protocol/rtmp/core/read_writer.go:23-69 | any proper prefix of a chunk makes the read fail instead of delivering |
| ChunkProtocol.RunDelivered | protocol/rtmp/core/conn.go:51-76 | for any interleaving of chunks of messages on different chunk streams, and any change of chunk size on the way, every message is delivered intact, in order of completion |
| ChunkProtocol.DeliveredWithin | protocol/rtmp/core/conn.go:51-76 | of any prefix of such a run's bytes exactly the messages completed within it are delivered, and then the read fails |
| ChunkProtocol.ChunksWithinExact | protocol/rtmp/core/chunk_stream.go:210-225 | which chunks lie within a prefix of the bytes: those whose last byte does |
| ChunkWire.BasicHeaderIs | protocol/rtmp/core/chunk_stream.go:39-82 | the one to three bytes of the basic header, for ids below 64, below 320 and below 65600 |
| ChunkWire.HeaderIs | protocol/rtmp/core/chunk_stream.go:39-82 | every byte of the four types of header: time, length and type most significant byte first, message stream id least significant first, and the time in four bytes at the end where it does not fit three |
| ChunkWire.ChunkLayout | protocol/rtmp/core/chunk_stream.go:84-121 | where each chunk of a message stands in its encoding, which header it has and which part of the payload |
| ChunkWire.UnfinishedGoesOn | protocol/rtmp/core/chunk_stream.go:124-226 | on a stream whose message is unfinished only a type 3 header is taken; four bytes that repeat an extended timestamp are skipped and any others are payload |
| ChunkWire.ControlHeard | protocol/rtmp/core/conn.go:139-145 | over any read, type 1 sets the peer's chunk size and type 5 the window, from the first four bytes, and nothing else does; a complete message crashes the reader if and only if it is one of these and shorter |
| ChunkWire.TooLongPanicsIff | utils/pool/pool.go:12-20 | the reader crashes on the header of a message if and only if it announces more than 512000 bytes |
| ChunkSession.MessageIsRun | protocol/rtmp/core/chunk_stream.go:84-121 | the loop that writes one message is a run of the chunk sender |
| ChunkSession.SessionRoundTrip | protocol/rtmp/core/conn.go:51-90 | whatever messages are written in sequence (up to 512000 bytes, the empty ones not being sent at all; ids 2 to 65599, any timestamp, announcements that are heard), the peer reads the same messages in the same order, and the two chunk sizes are equal at the end |
| ChunkSession.SentIs | protocol/rtmp/core/chunk_stream.go:84-121 | the messages that arrive are those written, less the empty ones: audio on chunk stream 4, video and scripts on 6, anything else on its own |
| ChunkSession.SessionTruncated | protocol/rtmp/core/conn.go:51-76 | of any prefix of the bytes written, exactly the messages that lie in it as a whole are delivered, and nothing of the one that is cut |
| ChunkSession.MessagesWithinExact | protocol/rtmp/core/chunk_stream.go:84-121 | which messages lie within a prefix of the bytes: those that fit, and one more would not |
| ChunkSession.FourByteAnnouncements | protocol/rtmp/core/conn.go:86-89 | announcements of four bytes and a size of at least four keep the two sides in step, so that they may stand anywhere in a session |
| ChunkSession.FreshConnections | protocol/rtmp/core/conn.go:51-90 | between fresh connections, whatever is written with such announcements, of any part of the bytes exactly the messages are read that lie in it as a whole |
| ChunkSession.AnnouncementHeardIff | protocol/rtmp/core/conn.go:85-90 | a four-byte announcement, written at the new size it announces, is heard by the peer if and only if that size is at least four |
| ChunkLaws.ChunkSound | protocol/rtmp/core/chunk_stream.go:124-226 | for any bytes at all, a record never holds more payload than its length, and says it is complete exactly when it has all of it |
| ChunkLaws.DeliveredWhole | protocol/rtmp/core/conn.go:51-76 | for any bytes at all, what is delivered has as many payload bytes as its length says |
| ChunkLaws.ChunkTime | protocol/rtmp/core/chunk_stream.go:137-209 | what each of the four header types does to the timestamp, at the start of a message and within one |
| ChunkLaws.TimestampLaw | protocol/rtmp/core/chunk_stream.go:137-209 | after any chunks on one stream the timestamp is the last absolute one plus all deltas since, modulo 2^32; a chunk within a message never changes it |
| ChunkClock.StepAgreesIff | protocol/rtmp/core/chunk_stream.go:137-209 | a header moves the clock as section 5.3.1.2.4 has it if and only if it is no type 3 header after a type 0 header whose repeated time, set or dropped, should have been added |
| ChunkClock.SpecificationIff | protocol/rtmp/core/chunk_stream.go:137-209 | whatever chunks a stream accepts, it shows the time of the specification throughout if and only if no header departs from it |
| ChunkClock.RepeatedTimestamp | protocol/rtmp/core/chunk_stream.go:177-185 | a message behind a type 0 header and another behind a type 3 header: the second has the time of the first, where the specification has twice that |
| ChunkDelta.DeltaMessageIff | protocol/rtmp/core/chunk_stream.go:151-206 | a message opened by a header of type 1 or 2 is read chunk by chunk as it was written, whatever follows, if and only if it fits one chunk, or its delta is not extended, or the clock showed zero |
| ChunkDelta.DeltaMessageDelivered | protocol/rtmp/core/conn.go:51-76 | then it is delivered whole, and the clock has moved by its delta |
| ChunkLaws.AcknowledgementsAccount | protocol/rtmp/core/conn.go:147-158 | over any run, what was acknowledged and what is still counted add up to what was delivered; the count stays below the window and the total never wraps |
| ChunkLaws.AcknowledgedIff | protocol/rtmp/core/conn.go:147-158 | an acknowledgement is sent if and only if what came in since the last one reaches the window, it is for all of that, and counting starts over |
| Crc32.GenCrc32 | container/ts/crc32.go:4-79 | the table-driven loop computes, for every byte sequence, the bit-by-bit remainder of Annex A of ISO/IEC 13818-1 |
| Crc32.ByteEnters | container/ts/crc32.go:71-78 | one step of the table is eight steps of the division |
| Crc32.SectionChecks | container/ts/crc32.go:71-78 | any bytes with their checksum behind have remainder zero |
| TsMuxer.WriteTime | container/ts/muxer.go:348-367 | the five bytes of a PTS or DTS in place, with marker bits, the reduction of large times included |
| TsMuxer.WritePcr | container/ts/muxer.go:273-284 | the clock reference in place |
| TsMuxer.AdaptationBufInit | container/ts/muxer.go:261-271 | stuffing of any length as an adaptation field, in place |
| TsMuxer.PesPacket | container/ts/muxer.go:295-346 | the PES header, with a decoding time only for video whose times differ |
| TsMuxer.Muxer.WritePacket | container/ts/muxer.go:60-155 | one packet of 188 bytes in byte-sized counters is the packet of the layout |
| TsMuxer.Muxer.Mux | container/ts/muxer.go:37-162 | the frame goes out as exactly its packets, the counter of its stream moves on and the other stays; the loop ends |
| TsMuxer.Muxer.PAT | container/ts/muxer.go:165-199 | the association table's packet with its counter and checksum |
| TsMuxer.Muxer.PMT | container/ts/muxer.go:202-259 | the map table's packet, patched for sound kind and video |
| TsDemux.PacketParses | container/ts/muxer.go:60-155 | every packet has 188 bytes, the sync byte, the right PID and counter, the start flag on the first only, and yields the bytes it took |
| TsDemux.MuxCollected | container/ts/muxer.go:37-162 | wherever a frame's packets stand in a stream, a demultiplexer with continuity check collects from them one unit, the PES packet itself for every recoverable frame |
| TsDemux.CollectOther | container/ts/muxer.go:51-90 | packets of the other stream pass it by |
| TsDemux.MuxRecoveredIff | container/ts/muxer.go:103-130 | the PES packet comes back if and only if the frame is no video key frame, or the packet has at least 184 bytes, or exactly 176 |
| TsDemux.TimeReadBack | container/ts/muxer.go:348-367 | what a written time reads back as, for every time |
| TsDemux.TimeRightIff | container/ts/muxer.go:348-367 | it is the time modulo 2^33 if and only if it is below 2^33 |
| TsDemux.PcrReadBackIff | container/ts/muxer.go:103-130 | the clock reference of a key frame reads back as its decoding time modulo 2^33 if and only if the PES packet has at most 178 or at least 184 bytes, or 179, 180 or 182 and a time whose digits are the header bytes written over them |
| TsDemux.PesReadBack | container/ts/muxer.go:295-346 | stream id, length, both times and the payload come back from the PES packet |
| TsDemux.PlayedAt | container/ts/muxer.go:45-54 | for every frame, what a player reads from its PES packet in the frame's own terms: decoding time 90 ticks a millisecond, presentation time later by the composition time for video, each one tick off from 2^33 on; the length of what follows, or 0 above 65535; the payload |
| TsDemux.PesFlags | container/ts/muxer.go:295-346 | which times the header says it holds, and how long it is |
| TsDemux.AdaptationIs | container/ts/muxer.go:102-130 | video is on PID 0x100 and sound on 0x101; but for a key frame's first packet, an adaptation field holds no clock and is only stuffing |
| TsDemux.StartsHereIff | container/ts/muxer.go:102-130 | a key frame's first packet is marked for random access if and only if its PES packet has not just 183 bytes |
| TsTables.SectionReadBack | container/ts/muxer.go:165-259 | a demultiplexer that believes the section length and requires a zero checksum gets the section back |
| TsTables.PatReadBack | container/ts/muxer.go:165-199 | program 1 has its map on PID 0x1001 |
| TsTables.PmtReadBack | container/ts/muxer.go:202-259 | the map announces the PIDs and kinds of the streams, and the PID that carries the clock |
| TsTables.TablesCount | container/ts/muxer.go:165-219 | successive packets of a table carry successive counters modulo 16 |
| AmfIo.Source.ReadBytes | protocol/amf/util.go:55-68 | exactly the asked bytes from one Read, or an error that has used up what there was |
| AmfIo.Source.AssertMarker | protocol/amf/util.go:81-96 | a marker is read and compared, unless it was read before |
| Amf0Codec.EncodeAmf0 | protocol/amf/encoder_amf0.go:12-60 | writes the encoding, reports its length, and fails exactly for values that cannot be encoded |
| Amf0Codec.EncodeAmf0Object | protocol/amf/encoder_amf0.go:145-182 | every entry in the order the map is met in, then the empty key and the end marker |
| Amf0Codec.EncodeAmf0StrictArray | protocol/amf/encoder_amf0.go:252-278 | the count and every element |
| Amf0Codec.DecodeAmf0 | protocol/amf/decoder_amf0.go:11-55 | the value, the cursor and the reference tables the specification gives, for any bytes and any tables, the switch to AMF3 at any depth included; it always ends |
| Amf0Codec.DecodeAmf0Object | protocol/amf/decoder_amf0.go:124-156 | entries up to the end marker, a later key winning |
| Amf0Codec.DecodeAmf0EcmaArray | protocol/amf/decoder_amf0.go:181-195 | the length in front is ignored, even when it is not there |
| Amf0Codec.EncodeBatch | protocol/amf/amf.go:34-41 | values one after another, up to the first that cannot be encoded |
| Amf0Codec.DecodeBatch | protocol/amf/amf.go:9-19 | values one after another, up to the first error or crash |
| Amf0Codec.EncodeAndDecode | protocol/amf/amf.go:22-54 | encoder and decoder back to back give the value as far as the wire carries it |
| Amf0.RoundTrip | protocol/amf/encoder_amf0.go:12-309 | decoding undoes encoding of any nested value, whatever bytes follow, and uses up exactly the bytes written |
| Amf0Meaning.RoundTripIff | protocol/amf/decoder_amf0.go:11-270 | a value comes back if and only if no map in it, however deep, has an empty key, no key takes more than 65535 bytes, and no empty read is refused at the very end |
| Amf0Meaning.Unswitched | protocol/amf/decoder_amf0.go:11-324 | from any bytes without 0x11 in them the decoder neither crashes nor remembers a reference, and no key it decodes, at any depth, is over 65535 bytes |
| Amf0Meaning.EcmaArrayRead | protocol/amf/decoder_amf0.go:181-195 | an ECMA array is read as an object behind a count of four bytes, whatever the count |
| Amf0Meaning.NothingRead | protocol/amf/decoder_amf0.go:158-172 | null, undefined and unsupported are read as nothing |
| Amf0Meaning.DateRead | protocol/amf/decoder_amf0.go:232-246 | a date is read as its double and its time zone is dropped |
| Amf0Meaning.LongStringRead | protocol/amf/decoder_amf0.go:253-292 | long strings and XML documents are strings behind four bytes of length |
| Amf0Meaning.TypedObjectRead | protocol/amf/decoder_amf0.go:303-324 | a typed object is read as its class name and its fields |
| Amf0Meaning.SwitchedRead | protocol/amf/decoder_amf0.go:11-55 | behind the switch any AMF3 value is read as AMF3 reads it |
| Amf0Meaning.MarkerRefused | protocol/amf/decoder_amf0.go:11-92 | movie clips, references, stray end markers, record sets, unknown markers and booleans other than 0 and 1 are refused |
| AmfWire.Amf0LeafIs | protocol/amf/encoder_amf0.go:12-200 | markers and bytes of nothing, booleans and numbers; typed objects, dates and unknown types cannot be encoded |
| AmfWire.Amf0StringIs | protocol/amf/encoder_amf0.go:114-309 | a string up to 65535 bytes is behind a length of two bytes, a longer one behind four and another marker |
| AmfWire.Amf0ArrayIs | protocol/amf/encoder_amf0.go:252-278 | an array is its number of values in four bytes and the values in their order |
| AmfWire.Amf0MapIs | protocol/amf/encoder_amf0.go:145-182 | a map is its entries in the order met, each a length of two bytes, key and value, then an empty key and the end marker |
| Amf0.OrderIsLost | protocol/amf/encoder_amf0.go:155-168 | the order a map is met in does not show in what is decoded |
| Amf0.BatchTrip | protocol/amf/amf.go:9-41 | decoding a batch gives all the values encoded; from a reader that refuses the empty read, all but a last one that ends in an empty string |
| MetaData.MetaDataReform | protocol/amf/metadata.go:37-77 | what adding and removing do to any payload, when they refuse, and when they crash |
| MetaData.ReformedBy | protocol/amf/metadata.go:37-77 | by the first value of a payload: what is refused, what crashes, which 16 bytes are put in front and when 16 are taken off |
| MetaData.DelUndoesAdd | protocol/amf/metadata.go:42-70 | removing after adding gives the payload back, for every payload that starts with another string |
| MetaData.AddIdempotent | protocol/amf/metadata.go:42-56 | adding twice is adding once |
| MetaData.FrameSpan | protocol/amf/metadata.go:57-70 | "@setDataFrame" takes up at least 16 bytes in any form that is decoded, and just 16 in the short forms only |
| MetaData.DelCutsTheFrameIff | protocol/amf/metadata.go:57-70 | removing cuts exactly the first value if and only if that was a short AMF0 string, or an AMF3 string or XML with a length of one byte |
| MetaData.AddUndoesDelIff | protocol/amf/metadata.go:42-70 | adding after removing gives the payload back if and only if a short AMF0 string was removed and another string is behind it |
| MetaData.NoSwitchNoPanic | protocol/amf/metadata.go:37-77 | a payload without the byte 0x11 never crashes, neither when adding nor when removing |
| MetaData.ReferencePanicsIff | protocol/amf/metadata.go:37-77 | a payload that starts with an AMF3 string crashes both if and only if the integer behind the marker is there and is a reference |
| Uint29.U29RoundTrip | protocol/amf/decoder_amf3.go:476-498 | every integer of 29 bits comes back from the bytes it was given |
| Uint29.EncU29 | protocol/amf/encoder_amf3.go:424-441 | an integer in range takes one to four bytes |
| Uint29.U29Shortest | protocol/amf/decoder_amf3.go:476-498 | whatever bytes are decoded, the integer has 29 bits, and the encoder would use no more bytes |
| Uint29.U29Truncated | protocol/amf/decoder_amf3.go:476-498 | an integer cut anywhere is refused |
| Amf3RoundTrip.RoundTrip | protocol/amf/encoder_amf3.go:14-441 | decoding undoes encoding of any nested value, whatever bytes follow and whatever the decoder's reference tables hold, and uses up exactly the bytes written |
| Amf3Meaning.RoundTripIff | protocol/amf/decoder_amf3.go:86-101 | the value decoded is the value meant if and only if it has no integer in 2^28..2^29-1 and no class name |
| Amf3Meaning.OrderIsNotWritten | protocol/amf/encoder_amf3.go:286-290 | the bytes of an object do not depend on the order its keys are met in |
| AmfWire.U29Is | protocol/amf/encoder_amf3.go:424-441 | every byte of a 29-bit integer: seven bits to a byte, the highest first, eight in the fourth |
| AmfWire.Amf3LeafIs | protocol/amf/encoder_amf3.go:14-232 | markers and bytes of nothing, booleans, numbers, strings and dates; strings of 2^28 bytes up to 2^31, and unknown types, cannot be encoded |
| AmfWire.Amf3ArrayIs | protocol/amf/encoder_amf3.go:234-268 | an array is twice its number of values plus one, the empty string and the values in their order |
| AmfWire.Amf3ObjectIs | protocol/amf/encoder_amf3.go:272-369 | an object is its number of properties over the bits 0011, the class name, the keys and then the values |
| AmfWire.Amf3ObjectMarked | protocol/amf/encoder_amf3.go:14-79 | objects and maps are written with their entries sorted, a map without a class name |
| AmfWire.KeysAscend | protocol/amf/encoder_amf3.go:290 | of two keys the one in front is a prefix of the other or the smaller at the first byte that differs |
| Amf3Meaning.ShortStringIff | protocol/amf/decoder_amf3.go:147-158 | with fewer bytes left than announced, a string is refused if and only if there are none; otherwise the missing ones are zeros |
| Amf3Meaning.CutStringIff | protocol/amf/decoder_amf3.go:125-159 | an encoded string cut anywhere is refused if and only if the cut is in its length or right behind it, and is read unchanged if and only if what was cut off was zeros |
| Amf3Meaning.ShortXmlIff | protocol/amf/decoder_amf3.go:423-436 | the same for XML with fewer bytes left than announced |
| Amf3Meaning.ShortByteArrayIff | protocol/amf/decoder_amf3.go:465-473 | and for byte arrays |
| Amf3Reads.SimpleRead | protocol/amf/decoder_amf3.go:12-82 | undefined and null are read as nothing, and markers above 12 are refused |
| Amf3Reads.IntegerRead | protocol/amf/decoder_amf3.go:86-103 | integers of 29 bits are read in two's complement |
| Amf3Reads.XmlRead | protocol/amf/decoder_amf3.go:392-436 | XML is read under both markers and, unless it is empty, remembered among the objects |
| Amf3Reads.ByteArrayRead | protocol/amf/decoder_amf3.go:443-474 | byte arrays are read and remembered, empty ones as well |
| Amf3Reads.DynamicRead | protocol/amf/decoder_amf3.go:364-384 | a dynamic object has the entries that follow it up to the empty key |
| Amf3Reads.ArrayCollectionRead | protocol/amf/decoder_amf3.go:321-328 | an array collection is read as the value behind its name, and remembered as that |
| Amf3Reads.OtherTypeRefused | protocol/amf/decoder_amf3.go:330-339 | externalizable objects of any other class are refused |
| Amf3Reads.KeysAreFields | protocol/amf/decoder_amf3_external.go:77-109 | the fields of an external object, flag byte by flag byte and bit by bit |
| Amf3Reads.FlagsRead | protocol/amf/decoder_amf3_external.go:114-128 | flags go on as long as the top bit is set |
| Amf3Reads.MessageRead | protocol/amf/decoder_amf3_external.go:10-55 | the two external messages are read in two groups of flags, and an acknowledgement in three, under the names the source gives the fields |
| Amf3References.TablesGrow | protocol/amf/decoder_amf3.go:12-498 | whatever is decoded, what was remembered before stays under its index |
| Amf3References.StringComesBack | protocol/amf/decoder_amf3.go:125-154 | a string is remembered last, and the reference to its index gives it back from then on; past the table the decoder crashes |
| Amf3References.ReferenceNames | protocol/amf/decoder_amf3.go:173-265 | which entry a reference names: that of its index for XML, dates and byte arrays, and that of half its index for arrays and objects; an entry of another type is refused, and past the table it crashes |
| Amf3References.ReferenceRightIff | protocol/amf/decoder_amf3.go:261-266 | a reference to an object names the right entry of every table if and only if that is the first |
| Amf3References.Remembered | protocol/amf/decoder_amf3.go:161-245 | dates, byte arrays, XML that is not empty, and arrays are remembered last |
| Amf3References.ObjectIsForgotten | protocol/amf/decoder_amf3.go:304 | the entry an object gets is empty and stays so, so that references to it give nothing |
| Amf3References.TraitsNamed | protocol/amf/decoder_amf3.go:268-304 | a reference to traits has the fields read that these announce, and crashes past the table |
| Amf3References.TraitRemembered | protocol/amf/decoder_amf3.go:278-302 | traits are remembered with class name, both flags and as many keys as announced |
| Amf3Codec.EncodeAmf3Uint29 | protocol/amf/encoder_amf3.go:424-441 | writes the integer, or nothing and fails out of range |
| Amf3Codec.EncodeAmf3 | protocol/amf/encoder_amf3.go:14-79 | writes the encoding, reports its length, and fails exactly for values that cannot be encoded |
| Amf3Codec.EncodeAmf3Object | protocol/amf/encoder_amf3.go:272-369 | traits, class name, sorted keys, then their values |
| Amf3Codec.SortByKey | protocol/amf/encoder_amf3.go:290 | sorting by the bytes of the keys |
| Amf3Codec.DecodeU29 | protocol/amf/decoder_amf3.go:476-498 | the loop accumulates what the recursive reader gives |
| Amf3Codec.Decoder.DecodeAmf3 | protocol/amf/decoder_amf3.go:12-48 | the value, the cursor and the three reference tables the specification gives, for any bytes and any tables; it always ends |
| Amf3Codec.Decoder.DecodeAmf3String | protocol/amf/decoder_amf3.go:125-159 | a reference is looked up or crashes; a string is remembered unless it is empty |
| Amf3Codec.Decoder.DecodeAmf3Date | protocol/amf/decoder_amf3.go:161-194 | a date is remembered; a reference past the table crashes and one to no date is refused |
| Amf3Codec.Decoder.DecodeAmf3Xml | protocol/amf/decoder_amf3.go:392-436 | XML is padded like a string and, unless it is empty, remembered among the objects |
| Amf3Codec.Decoder.DecodeAmf3ByteArray | protocol/amf/decoder_amf3.go:443-474 | a byte array is padded and remembered, an empty one as well |
| Amf3Codec.Decoder.DecodeAmf3Object | protocol/amf/decoder_amf3.go:250-386 | references, traits announced or referred to, sealed and dynamic properties, externalizable types, and the placeholder that is remembered |
| Amf3Codec.Decoder.DecodeExternal | protocol/amf/decoder_amf3_external.go:67-112 | the nested loops over flag bytes, named fields and unnamed ones read the values that the flags announce, in their order, under the right keys |
| Amf3Codec.Decoder.ReadFlags | protocol/amf/decoder_amf3_external.go:114-128 | bytes up to the first without the top bit |
| Gop.RunHolds | protocol/rtmp/cache/gop.go:72-104 | with one or two slots, after any packets the ring holds the last groups, each in the slot its number gives, and no slot is used that is empty |
| Gop.ReplayRight | protocol/rtmp/cache/gop.go:107-127 | a replay is the last groups, oldest first, each cut to 1024 packets, for every stream |
| Gop.LastGroups | protocol/rtmp/cache/gop.go:107-127 | with one slot the last group is replayed and with two the last two, each up to its packet 1024 |
| Gop.ReplayIff | protocol/rtmp/cache/gop.go:72-127 | every stream is replayed as promised if and only if there are one or two slots |
| Gop.WriteCrashesIff | protocol/rtmp/cache/gop.go:72-104 | writing crashes if and only if there are no slots and a key frame comes, or there are three or more and a packet that is no key frame comes after at least one key frame and at most as many as there are slots less two |
| Gop.GroupsAreTheStream | protocol/rtmp/cache/gop.go:93-104 | joined, the groups are the stream from its first key frame on |
| Gop.OneStartEach | protocol/rtmp/cache/gop.go:93-104 | a group has a key frame at its start and nowhere else |
| GopCache.GopArray.Write | protocol/rtmp/cache/gop.go:34-41 | a group grows by one packet until it is full |
| GopCache.GopCache.Write | protocol/rtmp/cache/gop.go:72-104 | the ring of reused arrays does the specified step, or crashes exactly where that says |
| GopCache.GopCache.Send | protocol/rtmp/cache/gop.go:107-127 | sends what the specification sends, as far as the player takes it, and says which way it ended |
| AnnexB.FramedParses | parser/h264/parser.go:155-192 | units behind their lengths are taken apart again |
| AnnexB.ParsesIff | parser/h264/parser.go:186-236 | there is no error if and only if the access unit is a framing of some units |
| AnnexB.BrokenOff | parser/h264/parser.go:167-236 | of an access unit that breaks off, the units before the break are written, and the error says whether a length was missing or wrong |
| AnnexB.Parser.GetAnnexbH264 | parser/h264/parser.go:167-239 | writes the delimiter, the kept units in order and, once, before the first IDR picture, the parameter sets met before it or else the stored ones; the error is that of the framing |
| AnnexB.StreamIs | parser/h264/parser.go:167-239 | by their types: slices, IDR pictures and supplemental information are written in order, and before the first IDR picture the parameter sets met or else those stored; all else is dropped |
| AnnexB.StreamReadBackIff | parser/h264/parser.go:167-239 | a reader as in sections B.1 and B.2 of ITU-T H.264 finds exactly the units sent if and only if each is what section 7.4.1 allows: no 00 00 00 or 00 00 01 in it, and no zero at its end |
| AnnexB.Parser.ParseSpecificInfo | parser/h264/parser.go:99-143 | a configuration record adds its parameter sets to those stored, and is refused exactly when it is too short |
| AnnexB.RecordIff | parser/h264/parser.go:117-140 | for any record, what is stored is its parameter sets if and only if it has one of each kind and nothing follows them; behind a single sequence parameter set all the rest is taken for one picture parameter set |
| AnnexB.Parser.Parse | parser/h264/parser.go:242-255 | records are stored, byte streams copied, access units converted |
| PacketQueue.DropIsThinned | protocol/rtmp/rtmp.go:260-289 | from the high-water mark, shedding looks at a fixed number of packets, puts the precious ones to the back in order and drops the others; it never waits and never reaches its overflow branches |
| PacketQueue.NothingPreciousIsLost | protocol/rtmp/rtmp.go:260-289 | no sound, key frame or decoder configuration is lost or doubled by it |
| PacketQueue.ShorterIff | protocol/rtmp/rtmp.go:260-289 | it makes room if and only if something looked at was not precious |
| PacketQueue.WrittenByKind | protocol/rtmp/rtmp.go:260-311 | by their kinds: at 24 below the limit all packets but the last 60 are looked at, and sound, sequence headers and key frames among them go to the back while all others are dropped |
| PacketQueue.ShedByKind | protocol/rtmp/rtmp.go:260-289 | what one step does to a queue of any length, the branches for a nearly full one included |
| PacketQueue.Writer.DropPacket | protocol/hls/source.go:79-105 | the loop on the channel does the specified steps, for any filling of the queue |
| PacketQueue.Writer.Write | protocol/rtmp/rtmp.go:292-311 | queues the packet below the mark; at the mark sheds and refuses it; the queue never exceeds the mark |
| PacketQueue.PreciousConserved | protocol/hls/source.go:79-128 | over any run of writing and sending, every precious packet was sent, is queued, or was refused at the mark, each once |
| PacketQueue.MissingIff | protocol/rtmp/rtmp.go:260-311 | over any run, a precious packet is missing from what was sent and what is queued if and only if it was offered while the queue was at the mark |
| PacketQueue.StuckWhenAllPrecious | protocol/rtmp/rtmp.go:260-289 | a queue of nothing but precious packets stays at the mark |
| Handshake.PlacesFit | protocol/rtmp/core/handshake.go:53-59 | for any packet both places have room for the digest, behind the bytes that choose them and apart from each other |
| Handshake.SealingKeeps | protocol/rtmp/core/handshake.go:42-51 | putting the digest in changes neither what places it nor what it is made of |
| Handshake.CreatedIsAccepted | protocol/rtmp/core/handshake.go:61-91 | whatever the digest function, random bytes, time and version, a created packet is accepted with its key |
| Handshake.AcceptedIff | protocol/rtmp/core/handshake.go:61-80 | accepted is exactly what is a fixed point of sealing at one of the two places |
| Handshake.SecondIsSigned | protocol/rtmp/core/handshake.go:93-98 | the second packet ends in the digest of the rest of it |
| Handshake.ExchangeSucceeds | protocol/rtmp/core/handshake.go:145-196 | a client with the right key gets a reply with its own time under the server's digest, signed with the key its digest derives |
| Handshake.ParsedIs | protocol/rtmp/core/handshake.go:53-80 | what a packet is accepted for, spelled out in its bytes: the digest of the others under the key, at one of two computed places, the late one first |
| Handshake.CreatedIs | protocol/rtmp/core/handshake.go:82-91 | the bytes of a created packet: time, version, the random bytes, and the digest over 32 of them |
| Handshake.NoReplyIff | protocol/rtmp/core/handshake.go:145-185 | there is no reply if and only if the first byte is not 3, or the version is not zero and no digest is found |
| Handshake.PlainReply | protocol/rtmp/core/handshake.go:187-190 | a client of version zero gets 3, zeros, and its own packet back |
| Handshake.SignedReply | protocol/rtmp/core/handshake.go:166-186 | any other accepted client gets its own time and the server's version under the server's digest, and a packet signed with the key its digest derives |
| Handshake.HsParse1 | protocol/rtmp/core/handshake.go:70-80 | looks at the late place first, then the early one, and derives the answering key |
| Handshake.HsCreate1 | protocol/rtmp/core/handshake.go:82-91 | fills the packet in place and leaves the rest of the buffer |
| Handshake.HandshakeServer | protocol/rtmp/core/handshake.go:145-196 | the reply to the client's first bytes, with or without digests, or none |
| Align.Aligner.Align | protocol/hls/align.go:12-29 | one step of the smoother, its 64-bit arithmetic included |
| Align.CountingIsStepping | protocol/hls/align.go:12-29 | counting frames from a base gives, for every run, what stepping on from the last output gives; nothing wraps |
| Align.OutputLaw | protocol/hls/align.go:12-29 | every output is within 180 ticks of its input, and one frame after the last exactly when that is |
| Align.HardlyBackwards | protocol/hls/align.go:12-29 | for inputs that do not run back, outputs run back by at most 180 ticks |
| Align.SharplyBackwards | protocol/hls/align.go:12-29 | an input for which they do run back by 180 |
| HlsWindow.WindowIff | protocol/hls/cache.go:73-82 | list and map hold exactly the latest three segments if and only if each of these is named unlike the two before it |
| HlsWindow.PlaylistRight | protocol/hls/cache.go:45-70 | while the latest names are unlike those before them, the playlist lists the latest three with their durations, numbers them from its sequence, and its target duration exceeds each, but none by more than it must: the longest is within a second below it |
| HlsWindow.TSCacheItem.SetItem | protocol/hls/cache.go:73-82 | the step of the window |
| HlsWindow.TSCacheItem.GenM3U8PlayList | protocol/hls/cache.go:45-70 | one pass over the list gives entries, target duration and first number |
| Hls.RunIsSound | protocol/hls/source.go:201-289 | over any run, segments are begun before they are ended and last at least three seconds; each audio frame taken in is muxed exactly once, in order of arrival, or waits, at most five of them |
| HlsSegments.OutputIsKept | protocol/hls/source.go:201-222 | the open segment and every one offered hold one packet of each table and then exactly their frames' packets, and are numbered in a row |
| HlsSegments.SegmentIsWhole | protocol/hls/source.go:218-221 | a segment is a whole number of packets, the first two of them its tables |
| HlsSegments.SegmentAnnounces | protocol/hls/source.go:218-221 | what a player learns from the first two packets of a segment: program 1, its map on PID 0x1001, clock and H.264 on 0x100, AAC on 0x101 |
| HlsSegments.SegmentReadBackIff | protocol/hls/source.go:272-289 | a demultiplexer gets from a segment exactly the PES packets of its audio frames, and of its video frames if and only if each is recoverable |
| HlsSegments.SegmentsStartWithKey | protocol/hls/source.go:201-255 | over any run, the first frame of every segment is a key frame of video |
| HlsSegments.FramesPartitioned | protocol/hls/source.go:201-222 | every frame muxed is in exactly one segment, in order |
| HlsSegments.RunIsOffered | protocol/hls/source.go:131-289 | all of this put together for any run of packets |
| HlsRuns.SegmentsArePieces | protocol/hls/source.go:201-256 | whatever packets come, the segments are the run cut at the first key frame and at each that comes once three seconds are spanned: as many, as long, under the names given when they were cut, and with every picture in between |
| HlsRuns.PicturesAreMuxed | protocol/hls/source.go:161-175 | over any run, every picture from the first key frame on is muxed, once, in order, with its own times and data, and the writer is open if and only if a key frame has come |
| HlsRuns.SoundIsMuxed | protocol/hls/source.go:258-289 | over any run, each audio frame muxed is the next of the frames taken in, joined, at the smoothed time of the first of them |
| HlsRuns.SoundInSixes | protocol/hls/source.go:268-289 | six frames are joined at a time, and fewer only right before a segment ends |
| HlsRuns.ConcatJoins | protocol/hls/audio_cache.go:24-40 | joining puts the bytes of frames one after the other |
| HlsSource.AudioCache.Cache | protocol/hls/audio_cache.go:24-35 | frames are joined at the time of the first |
| HlsSource.AudioCache.GetFrame | protocol/hls/audio_cache.go:37-40 | gives what was joined and starts afresh |
| HlsSource.Status.Update | protocol/hls/status.go:23-32 | first and last timestamp since the segment began |
| HlsSource.Source.Cut | protocol/hls/source.go:201-222 | begins the first segment, or flushes, numbers, offers and clears one of three seconds and begins the next |
| HlsSource.Source.MuxAudio | protocol/hls/source.go:272-281 | muxes the joined audio once there is enough |
| HlsSource.Source.CalcPtsDts | protocol/hls/source.go:258-267 | times in ticks: video's presentation time is later by the composition time, taken as unsigned; audio's are smoothed and equal |
| HlsSource.Source.Send | protocol/hls/source.go:161-175 | one packet behind the parser does the specified acts and reaches the specified state |

## Left out

- Writing to the network: the buffered writer never fails and is never flushed in the
  model, so the sticky write error is not modelled.
- RTMP messages are taken as the writer needs them: Length equal to the number of data
  bytes and chunk stream ids 2 to 65599; ids that interleave are 2 to 63, because
  the reader files records under the six bits of the first header byte.
- Chunk stream records are values in a map that is reassigned, as the source's map stores
  copies; their payload slices do share the pool's buffers.
- Values of one byte that the source puts together with OR from disjoint bits are put
  together by addition.
- The muxer's index into the PES header is folded into one copy, since a header fits
  one packet.
- Doubles are their eight bytes; the conversion of integers to doubles is an input.
- Amf0Meaning.RoundTripIff: where the byte 0x11 is among those decoded, a key over 65535
  bytes may stand in any map but one that another map holds. The decoder reads the rest
  of such a key as values and further entries of the outer map; as one of these may
  switch to AMF3, whose keys may be long, the lengths of keys do not settle what the
  outer map holds in the end.
- Amf0Codec.DecodeAmf0: the reference cache is written and never read, and is left out.
- Amf3Codec.Decoder.DecodeAmf3Date: a date is the double of its milliseconds; the source
  divides that by 1000 in floating point, cuts it to whole seconds, and remembers those.
- Amf3Codec.Decoder.DecodeAmf3Object: no handlers for further externalizable types are
  registered, as in the server.
- Amf3Codec.EncodeAmf3: neither encoder's functions for undefined, unsupported, ECMA and
  byte arrays are modelled, as no value leads to them; a value of a 64-bit integer type,
  which always goes out as a double, counts as a double.
- Nil and empty slices, and the various error texts, are not told apart.
- Random bytes, the clock, file names, the digest function and the sample rate are inputs.
- Handshake.HandshakeServer: begins once the client's first 1537 bytes are in; deadlines and
  the client's last packet, which the server does not look at, are left out, and so is the
  client's side, which sends no digest.
- Goroutines: a queue is shed and served one call at a time.
- GopCache.GopCache.Write: a crash is an outcome; the state after it is not described.
- HlsWindow.TSCacheItem.GenM3U8PlayList: the header's values and the entries, not the text.
- HlsSource.Source.Send: begins behind the demuxer and the codec parser; packets these
  refuse have no effect on segments, and the parser is not part of the segmenter's model.
- The shedding of protocol/httpflv/writer.go, FLV tags, ADTS headers, the
  connect/publish/play command exchange, configuration and HTTP.
