/**
  The RTMP chunk format (sections 5.3.1 and 5.4 of Adobe's RTMP specification
  1.0) as the server speaks it: what the writer prints for a message, and what
  one call of the reader makes of a byte stream. These are the specifications
  the imperative connection in ChunkConn.dfy is proved against.
 */
module ChunkFormat {
  import opened Bytes

  const TAG_AUDIO := 8
  const TAG_VIDEO := 9
  const TAG_SCRIPT_AMF0 := 18
  const TAG_SCRIPT_AMF3 := 15

  const ID_SET_CHUNK_SIZE := 1
  const ID_ACK := 3
  const ID_WINDOW_ACK_SIZE := 5

  const MAX_POOL_SIZE := 500 * 1024
  const EXTENDED := 0xffffff

  /** A whole message; its Length is the number of its payload bytes. */
  datatype Message = Message(csid: uint32, timestamp: uint32, typeID: uint32, streamID: uint32, data: seq<byte>)

  // ---------------------------------------------------------------- writing

  /** Media messages travel on the chunk stream the writer chooses. */
  function Routed(m: Message): Message {
    if m.typeID == TAG_AUDIO then m.(csid := 4)
    else if m.typeID == TAG_VIDEO || m.typeID == TAG_SCRIPT_AMF0 || m.typeID == TAG_SCRIPT_AMF3 then m.(csid := 6)
    else m
  }

  function BasicHeader(format: nat, csid: uint32): seq<byte>
    requires format < 4
  {
    if csid < 64 then [format * 64 + csid]
    else if csid - 64 < 256 then [format * 64] + LE(csid - 64, 1)
    else if csid - 64 < 65536 then [format * 64 + 1] + LE(csid - 64, 2)
    else []
  }

  function ExtendedTimestamp(timestamp: uint32): seq<byte> {
    if timestamp >= EXTENDED then BE(timestamp, 4) else []
  }

  /** Type 0 has all the fields, type 1 no message stream id, type 2 only the time, type 3 none. */
  function MessageHeader(format: nat, m: Message): seq<byte>
    requires format < 4
  {
    if format == 3 then []
    else
      BE(Min(m.timestamp, EXTENDED), 3) +
      if format == 2 then [] else BE(|m.data|, 3) + BE(m.typeID, 1) + if format == 1 then [] else LE(m.streamID, 4)
  }

  function Header(format: nat, m: Message): seq<byte>
    requires format < 4
  {
    BasicHeader(format, m.csid) + MessageHeader(format, m) + ExtendedTimestamp(m.timestamp)
  }

  /** A type 0 message header opens a message. */
  function OpeningHeader(m: Message): seq<byte> {
    BasicHeader(0, m.csid) + BE(Min(m.timestamp, EXTENDED), 3) + BE(|m.data|, 3) + BE(m.typeID, 1) + LE(m.streamID, 4) +
    ExtendedTimestamp(m.timestamp)
  }

  /** A type 3 header continues it. */
  function ContinuingHeader(m: Message): seq<byte> {
    BasicHeader(3, m.csid) + ExtendedTimestamp(m.timestamp)
  }

  /** The chunk that carries the payload from byte `start` on. */
  function ChunkAt(m: Message, chunkSize: nat, start: nat): seq<byte>
    requires start <= |m.data|
  {
    (if start == 0 then OpeningHeader(m) else ContinuingHeader(m)) +
    m.data[start..Min(start + chunkSize, |m.data|)]
  }

  function ChunksFrom(m: Message, chunkSize: nat, start: nat): seq<byte>
    requires chunkSize >= 1
    decreases |m.data| - start
  {
    if start >= |m.data| then []
    else ChunkAt(m, chunkSize, start) + ChunksFrom(m, chunkSize, start + chunkSize)
  }

  function EncodeMessage(m: Message, chunkSize: nat): seq<byte>
    requires chunkSize >= 1
  {
    ChunksFrom(Routed(m), chunkSize, 0)
  }

  // ---------------------------------------------------------------- reading

  /** The unread bytes of a connection and its sticky read error. */
  datatype Input = Input(rest: seq<byte>, failed: bool)

  /** `j` is what reading left of `i`; errors stick. */
  predicate Later(i: Input, j: Input) {
    |j.rest| <= |i.rest| && (i.failed ==> j.failed)
  }

  function ReadBE(i: Input, n: nat): (r: (nat, Input))
    ensures Later(i, r.1)
  {
    if i.failed then (0, i)
    else if |i.rest| < n then (0, Input([], true))
    else (FromBE(i.rest[..n]), Input(i.rest[n..], false))
  }

  function ReadLE(i: Input, n: nat): (r: (nat, Input))
    ensures Later(i, r.1)
  {
    if i.failed then (0, i)
    else if |i.rest| < n then (0, Input([], true))
    else (FromLE(i.rest[..n]), Input(i.rest[n..], false))
  }

  /** What the reader remembers of one chunk stream. `data` is the part of the payload received so far. */
  datatype Stream = Stream(
    format: nat, csid: nat, timestamp: nat, length: nat, typeID: nat, streamID: nat,
    timeDelta: nat, exted: bool, remain: nat, got: bool, data: seq<byte>)

  const ZERO_STREAM := Stream(0, 0, 0, 0, 0, 0, 0, false, 0, false, [])

  datatype ChunkResult =
    | Refused(input: Input)                    // an error is returned
    | Panicked                                 // the pool cannot serve the length
    | Accepted(stream: Stream, input: Input)

  function ReadCsid(key: nat, i: Input): (r: (nat, Input))
    ensures Later(i, r.1)
  {
    if key == 0 then var (id, i1) := ReadLE(i, 1); (id + 64, i1)
    else if key == 1 then var (id, i1) := ReadLE(i, 2); (id + 64, i1)
    else (key, i)
  }

  /** A three-byte time field and, when it is all ones, the four bytes that replace it. */
  function ReplaceExtended(time: nat, i: Input): (r: (nat, bool, Input))
    ensures Later(i, r.2)
  {
    if time == EXTENDED then var (t, i1) := ReadBE(i, 4); (t, true, i1) else (time, false, i)
  }

  function Plus32(a: nat, b: nat): nat {
    (a + b) % 0x1_0000_0000
  }

  /** Message header types 0, 1 and 2. */
  function ReadType0(cs: Stream, i: Input): (r: (Stream, Input))
    ensures Later(i, r.1)
  {
    var (time, i1) := ReadBE(i, 3);
    var (length, i2) := ReadBE(i1, 3);
    var (typeID, i3) := ReadBE(i2, 1);
    var (streamID, i4) := ReadLE(i3, 4);
    var (timestamp, exted, i5) := ReplaceExtended(time, i4);
    (cs.(format := 0, timestamp := timestamp, length := length, typeID := typeID, streamID := streamID, exted := exted), i5)
  }

  function ReadType1(cs: Stream, i: Input): (r: (Stream, Input))
    ensures Later(i, r.1)
  {
    var (time, i1) := ReadBE(i, 3);
    var (length, i2) := ReadBE(i1, 3);
    var (typeID, i3) := ReadBE(i2, 1);
    var (delta, exted, i4) := ReplaceExtended(time, i3);
    (cs.(format := 1, length := length, typeID := typeID, exted := exted, timeDelta := delta,
         timestamp := Plus32(cs.timestamp, delta)), i4)
  }

  function ReadType2(cs: Stream, i: Input): (r: (Stream, Input))
    ensures Later(i, r.1)
  {
    var (time, i1) := ReadBE(i, 3);
    var (delta, exted, i2) := ReplaceExtended(time, i1);
    (cs.(format := 2, exted := exted, timeDelta := delta, timestamp := Plus32(cs.timestamp, delta)), i2)
  }

  /** A type 3 header that starts a message. */
  function ReadType3(cs: Stream, i: Input): (r: (Stream, Input))
    ensures Later(i, r.1)
  {
    if cs.format == 0 then
      if cs.exted then var (t, i1) := ReadBE(i, 4); (cs.(timestamp := t), i1) else (cs, i)
    else
      var (delta, i1) := if cs.exted then ReadBE(i, 4) else (cs.timeDelta, i);
      (cs.(timestamp := Plus32(cs.timestamp, delta)), i1)
  }

  /** The header of a chunk that starts a message. */
  function ReadFields(cs: Stream, format: nat, i: Input): (r: (Stream, Input))
    requires format < 4
    ensures Later(i, r.1)
  {
    match format
    case 0 => ReadType0(cs, i)
    case 1 => ReadType1(cs, i)
    case 2 => ReadType2(cs, i)
    case _ => ReadType3(cs, i)
  }

  function ReadPayload(cs: Stream, chunkSize: nat, i: Input): (r: ChunkResult)
    ensures r.Accepted? ==> Later(i, r.input) && !r.input.failed
  {
    var size := Min(cs.remain, chunkSize);
    if i.failed then Refused(i)
    else if |i.rest| < size then Refused(Input([], true))
    else
      var remain := cs.remain - size;
      Accepted(cs.(data := cs.data + i.rest[..size], remain := remain, got := remain == 0 || cs.got),
               Input(i.rest[size..], false))
  }

  /** A header that starts a message takes a fresh payload buffer. */
  function StartPayload(cs: Stream, chunkSize: nat, i: Input): (r: ChunkResult)
    ensures r.Accepted? ==> Later(i, r.input) && !r.input.failed
  {
    if cs.length > MAX_POOL_SIZE then Panicked
    else ReadPayload(cs.(got := false, remain := cs.length, data := []), chunkSize, i)
  }

  /** An extended timestamp repeated on a continuation chunk is dropped; four other bytes are payload. */
  function ContinuePayload(cs: Stream, chunkSize: nat, i: Input): (r: ChunkResult)
    ensures r.Accepted? ==> Later(i, r.input) && !r.input.failed
  {
    if !cs.exted then ReadPayload(cs, chunkSize, i)
    else if |i.rest| < 4 then Refused(i)
    else if FromBE(i.rest[..4]) == cs.timestamp then ReadPayload(cs, chunkSize, Input(i.rest[4..], i.failed))
    else ReadPayload(cs, chunkSize, i)
  }

  /** One chunk on stream `cs`, after the first byte gave `format` and `key`. */
  function ReadChunk(cs: Stream, format: nat, key: nat, chunkSize: nat, i: Input): (r: ChunkResult)
    requires format < 4
    ensures r.Accepted? ==> Later(i, r.input) && !r.input.failed
  {
    if cs.remain != 0 && format != 3 then Refused(i)
    else
      var (csid, i1) := ReadCsid(key, i);
      var cs1 := cs.(csid := csid);
      if format == 3 && cs.remain != 0 then ContinuePayload(cs1, chunkSize, i1)
      else
        var (cs2, i2) := ReadFields(cs1, format, i1);
        StartPayload(cs2, chunkSize, i2)
  }

  // ------------------------------------------------------------- connection

  /** The reading half of a connection. */
  datatype Peer = Peer(
    streams: map<nat, Stream>, remoteChunkSize: nat, window: nat, received: nat, ackReceived: nat)

  const NEW_PEER := Peer(map[], 128, 2500000, 0, 0)

  datatype StepResult =
    | StepRefused(key: nat, input: Input)
    | StepPanicked
    | Stepped(key: nat, stream: Stream, input: Input)

  function StreamOf(streams: map<nat, Stream>, key: nat): Stream {
    if key in streams then streams[key] else ZERO_STREAM
  }

  /** The first byte selects a stream; one chunk is read on it. */
  function ReadStep(p: Peer, i: Input): (r: StepResult)
    ensures r.Stepped? ==> !i.failed && !r.input.failed && |r.input.rest| < |i.rest|
  {
    var (h, i1) := ReadBE(i, 1);
    HeaderByteBound(i);
    var key := h % 64;
    match ReadChunk(StreamOf(p.streams, key), h / 64, key, p.remoteChunkSize, i1)
    case Refused(i2) => StepRefused(key, i2)
    case Panicked => StepPanicked
    case Accepted(cs, i2) => Stepped(key, cs, i2)
  }

  lemma HeaderByteBound(i: Input)
    ensures ReadBE(i, 1).0 < 256
  {
    if !i.failed && |i.rest| >= 1 {
      FromBEBound(i.rest[..1]);
      Pow256Values();
    }
  }


  /** A control message takes effect when it has been read; it must have its four bytes. */
  function HandleControl(p: Peer, cs: Stream): Option<Peer> {
    if cs.typeID == ID_SET_CHUNK_SIZE then
      if |cs.data| < 4 then None else Some(p.(remoteChunkSize := FromBE(cs.data[..4])))
    else if cs.typeID == ID_WINDOW_ACK_SIZE then
      if |cs.data| < 4 then None else Some(p.(window := FromBE(cs.data[..4])))
    else Some(p)
  }

  /** Acknowledgement accounting; the second result is the amount acknowledged, if any. */
  function Acknowledge(p: Peer, size: nat): (Peer, Option<nat>) {
    var received := Plus32(p.received, size);
    var pending := Plus32(p.ackReceived, size);
    var q := p.(received := if received >= 0xf000_0000 then 0 else received);
    if pending >= p.window then (q.(ackReceived := 0), Some(pending))
    else (q.(ackReceived := pending), None)
  }

  datatype ReadResult =
    | ReadError(peer: Peer, input: Input)
    | ReadPanic
    | Delivered(stream: Stream, peer: Peer, input: Input, ack: Option<nat>)

  /** What `Conn.Read` does once a message is complete. */
  function AfterMessage(p: Peer, cs: Stream, i: Input): ReadResult {
    match HandleControl(p, cs)
    case None => ReadPanic
    case Some(p1) => var (p2, ack) := Acknowledge(p1, cs.length); Delivered(cs, p2, i, ack)
  }

  /** `Conn.Read`: chunks are read until one completes its message. */
  function Read(p: Peer, i: Input): (r: ReadResult)
    ensures r.Delivered? ==> !i.failed && !r.input.failed && |r.input.rest| < |i.rest|
    decreases |i.rest|
  {
    match ReadStep(p, i)
    case StepRefused(key, i1) => ReadError(p.(streams := p.streams[key := StreamOf(p.streams, key)]), i1)
    case StepPanicked => ReadPanic
    case Stepped(key, cs, i1) =>
      var p1 := p.(streams := p.streams[key := cs]);
      if cs.got then AfterMessage(p1, cs, i1) else Read(p1, i1)
  }

  /** Everything that repeated reading delivers, and how it stops. */
  datatype Session = Session(delivered: seq<Stream>, last: Peer, panicked: bool)

  function ReadAll(p: Peer, i: Input): Session
    decreases |i.rest|
  {
    match Read(p, i)
    case ReadError(p1, _) => Session([], p1, false)
    case ReadPanic => Session([], p, true)
    case Delivered(cs, p1, i1, _) =>
      var more := ReadAll(p1, i1);
      more.(delivered := [cs] + more.delivered)
  }
}
