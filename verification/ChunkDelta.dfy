/**
  Messages that a peer opens with a delta, by a header of type 1 or 2, and cuts into
  several chunks: when the reader takes each chunk for what it is.
 */
module ChunkDelta {
  import opened Bytes
  import opened ChunkFormat
  import opened ChunkProtocol

  /** The chunk that carries the payload from byte `start` on; the message's timestamp is a delta. */
  function DeltaChunk(format: nat, m: Message, chunkSize: nat, start: nat): seq<byte>
    requires format < 4 && start <= |m.data|
  {
    (if start == 0 then Header(format, m) else ContinuingHeader(m)) + m.data[start..Min(start + chunkSize, |m.data|)]
  }

  function DeltaChunks(format: nat, m: Message, chunkSize: nat, start: nat): seq<byte>
    requires format < 4 && chunkSize >= 1
    decreases |m.data| - start
  {
    if start >= |m.data| then []
    else DeltaChunk(format, m, chunkSize, start) + DeltaChunks(format, m, chunkSize, start + chunkSize)
  }

  /** A stream that `m` can be opened on with a header of type 1 or 2, which inherits what it does not say. */
  predicate Opens(cs: Stream, format: nat, m: Message) {
    && Sendable(m) && 1 <= format <= 2 && cs.remain == 0 && cs.timestamp < 0x1_0000_0000
    && (format == 2 ==> cs.length == |m.data|)
  }

  /** The stream `cs` after the first `to` bytes of the message. */
  function Part(cs: Stream, format: nat, m: Message, to: nat): Stream
    requires to <= |m.data|
  {
    cs.(format := format, csid := m.csid, timestamp := Plus32(cs.timestamp, m.timestamp), length := |m.data|,
        typeID := if format == 1 then m.typeID else cs.typeID, timeDelta := m.timestamp,
        exted := m.timestamp >= EXTENDED, data := m.data[..to], remain := |m.data| - to, got := to == |m.data|)
  }

  /** The chunks from byte `start` on are each read as themselves, and nothing of `tail` is. */
  predicate EveryChunkRead(p: Peer, cs: Stream, format: nat, m: Message, start: nat, tail: seq<byte>)
    requires format < 4 && p.remoteChunkSize >= 1
    decreases |m.data| - start
  {
    start >= |m.data| ||
    (var next := start + p.remoteChunkSize;
     var after := Part(cs, format, m, Min(next, |m.data|));
     && ReadStep(p, Input(DeltaChunks(format, m, p.remoteChunkSize, start) + tail, false)) ==
        Stepped(Key(m.csid), after, Input(DeltaChunks(format, m, p.remoteChunkSize, next) + tail, false))
     && EveryChunkRead(p.(streams := p.streams[Key(m.csid) := after]), cs, format, m, next, tail))
  }

  /**
    Main theorem. A message opened with a delta is read chunk by chunk as it was written
    if and only if it fits one chunk, or its delta is not extended, or the clock of its
    stream showed zero: the reader looks for the clock's time on every further chunk,
    where the delta is.
   */
  lemma DeltaMessageIff(p: Peer, format: nat, m: Message, tail: seq<byte>)
    requires p.remoteChunkSize >= 1 && Opens(StreamOf(p.streams, Key(m.csid)), format, m)
    ensures var cs := StreamOf(p.streams, Key(m.csid));
            EveryChunkRead(p, cs, format, m, 0, tail) <==>
            |m.data| <= p.remoteChunkSize || m.timestamp < EXTENDED || cs.timestamp == 0
  {
    hide DeltaChunk, DeltaChunks, ReadStep, Part, Opens;
    var cs := StreamOf(p.streams, Key(m.csid));
    var to := Min(p.remoteChunkSize, |m.data|);
    assert 1 <= |m.data| && 1 <= format <= 2 by { OpensMeans(cs, format, m); }
    var rest := DeltaChunks(format, m, p.remoteChunkSize, p.remoteChunkSize);
    ChunksUnfold(format, m, p.remoteChunkSize, 0, tail);
    OpeningRead(p, format, m, rest + tail);
    ChunksReadIff(p.(streams := p.streams[Key(m.csid) := Part(cs, format, m, to)]), cs, format, m, p.remoteChunkSize, tail);
  }

  lemma OpensMeans(cs: Stream, format: nat, m: Message)
    requires Opens(cs, format, m)
    ensures 1 <= |m.data| && 1 <= format <= 2
  {
  }

  lemma ChunksUnfold(format: nat, m: Message, chunkSize: nat, start: nat, tail: seq<byte>)
    requires format < 4 && chunkSize >= 1 && start < |m.data|
    ensures DeltaChunks(format, m, chunkSize, start) + tail ==
            DeltaChunk(format, m, chunkSize, start) + (DeltaChunks(format, m, chunkSize, start + chunkSize) + tail)
  {
    hide DeltaChunk;
    PlusAssoc(DeltaChunk(format, m, chunkSize, start), DeltaChunks(format, m, chunkSize, start + chunkSize), tail);
  }

  /** The first chunk is always read as itself. */
  lemma OpeningRead(p: Peer, format: nat, m: Message, tail: seq<byte>)
    requires p.remoteChunkSize >= 1 && Opens(StreamOf(p.streams, Key(m.csid)), format, m)
    ensures var cs := StreamOf(p.streams, Key(m.csid));
            ReadStep(p, Input(DeltaChunk(format, m, p.remoteChunkSize, 0) + tail, false)) ==
            Stepped(Key(m.csid), Part(cs, format, m, Min(p.remoteChunkSize, |m.data|)), Input(tail, false))
  {
    hide ReadStep, ReadChunk, ReadCsid, Header, BasicHeader, MessageHeader, ExtendedTimestamp, Part, DeltaChunk;
    var cs := StreamOf(p.streams, Key(m.csid));
    var part := m.data[0..Min(p.remoteChunkSize, |m.data|)];
    var bytes := MessageHeader(format, m) + ExtendedTimestamp(m.timestamp) + (part + tail);
    ChunkIs(format, m, p.remoteChunkSize);
    OpeningParts(format, m, part, tail);
    CsidFits(cs, format, m);
    HeaderLeads(p, format, m.csid, bytes);
    OpeningChunk(cs, format, m, p.remoteChunkSize, part, tail);
  }

  lemma CsidFits(cs: Stream, format: nat, m: Message)
    requires Opens(cs, format, m)
    ensures 2 <= m.csid < 65600
  {
  }

  lemma ChunkIs(format: nat, m: Message, chunkSize: nat)
    requires format < 4
    ensures DeltaChunk(format, m, chunkSize, 0) == Header(format, m) + m.data[0..Min(chunkSize, |m.data|)]
  {
  }

  /** A basic header leads the reader to its stream and to the bytes behind. */
  lemma HeaderLeads(p: Peer, format: nat, csid: uint32, bytes: seq<byte>)
    requires format < 4 && 2 <= csid < 65600
    ensures exists i: Input ::
              ReadCsid(Key(csid), i) == (csid as nat, Input(bytes, false)) &&
              ReadStep(p, Input(BasicHeader(format, csid) + bytes, false)) ==
              match ReadChunk(StreamOf(p.streams, Key(csid)), format, Key(csid), p.remoteChunkSize, i)
              case Refused(j) => StepRefused(Key(csid), j)
              case Panicked => StepPanicked
              case Accepted(cs, j) => Stepped(Key(csid), cs, j)
  {
    hide ReadChunk, BasicHeader, ReadCsid;
    ReadBasicHeader(format, csid, bytes);
    var (h, i) := ReadBE(Input(BasicHeader(format, csid) + bytes, false), 1);
    assert Key(csid) < 64 && h / 64 == format && h % 64 == Key(csid);
    hide ReadBE, Key;
    assert ReadCsid(Key(csid), i) == (csid as nat, Input(bytes, false));
  }

  lemma OpeningParts(format: nat, m: Message, part: seq<byte>, tail: seq<byte>)
    requires format < 4
    ensures Header(format, m) + part + tail ==
            BasicHeader(format, m.csid) + (MessageHeader(format, m) + ExtendedTimestamp(m.timestamp) + (part + tail))
  {
    hide BasicHeader, MessageHeader, ExtendedTimestamp;
    var a, b, c := BasicHeader(format, m.csid), MessageHeader(format, m), ExtendedTimestamp(m.timestamp);
    PlusAssoc(a + b + c, part, tail);
    PlusAssoc(a, b, c);
    PlusAssoc(a, b + c, part + tail);
  }

  lemma OpeningChunk(cs: Stream, format: nat, m: Message, chunkSize: nat, part: seq<byte>, tail: seq<byte>)
    requires Opens(cs, format, m) && chunkSize >= 1 && part == m.data[..Min(chunkSize, |m.data|)]
    ensures var fields := Input(MessageHeader(format, m) + ExtendedTimestamp(m.timestamp) + (part + tail), false);
            forall key, i :: ReadCsid(key, i) == (m.csid as nat, fields) ==>
              ReadChunk(cs, format, key, chunkSize, i) == Accepted(Part(cs, format, m, |part|), Input(tail, false))
  {
    ReadDeltaFields(cs.(csid := m.csid), format, m, part + tail);
    hide MessageHeader, ExtendedTimestamp, ReadFields, ReadCsid;
    var whole := Part(cs, format, m, 0).(got := false, data := []);
    assert m.data[..0] == [] && [] + part == part;
    ReadPart(whole, chunkSize, part, tail);
  }

  /** Every further chunk is read as itself, or the first of them is not. */
  lemma {:induction false} ChunksReadIff(p: Peer, cs: Stream, format: nat, m: Message, start: nat, tail: seq<byte>)
    requires p.remoteChunkSize >= 1 && 0 < start && Opens(cs, format, m)
    requires Key(m.csid) in p.streams && p.streams[Key(m.csid)] == Part(cs, format, m, Min(start, |m.data|))
    ensures EveryChunkRead(p, cs, format, m, start, tail) <==>
            start >= |m.data| || m.timestamp < EXTENDED || cs.timestamp == 0
    decreases |m.data| - start
  {
    hide DeltaChunk, DeltaChunks, ReadStep, Part, Opens;
    assert 1 <= format <= 2 by { OpensMeans(cs, format, m); }
    if start < |m.data| {
      var next := start + p.remoteChunkSize;
      var after := Part(cs, format, m, Min(next, |m.data|));
      ChunksUnfold(format, m, p.remoteChunkSize, start, tail);
      ContinuationReadIff(p, cs, format, m, start, DeltaChunks(format, m, p.remoteChunkSize, next) + tail);
      ChunksReadIff(p.(streams := p.streams[Key(m.csid) := after]), cs, format, m, next, tail);
    }
  }

  /** A further chunk is read as itself exactly if the clock shows the time that stands on it, or none does. */
  lemma ContinuationReadIff(p: Peer, cs: Stream, format: nat, m: Message, start: nat, tail: seq<byte>)
    requires p.remoteChunkSize >= 1 && 0 < start < |m.data| && Opens(cs, format, m)
    requires Key(m.csid) in p.streams && p.streams[Key(m.csid)] == Part(cs, format, m, start)
    ensures ReadStep(p, Input(DeltaChunk(format, m, p.remoteChunkSize, start) + tail, false)) ==
            Stepped(Key(m.csid), Part(cs, format, m, Min(start + p.remoteChunkSize, |m.data|)), Input(tail, false)) <==>
            m.timestamp < EXTENDED || cs.timestamp == 0
  {
    hide ReadStep, BasicHeader, ExtendedTimestamp, Part, DeltaChunk, ContinuePayload, ReadFields;
    var part := m.data[start..Min(start + p.remoteChunkSize, |m.data|)];
    var bytes := ExtendedTimestamp(m.timestamp) + (part + tail);
    CsidFits(cs, format, m);
    FurtherChunk(format, m, p.remoteChunkSize, start, tail);
    HeaderLeads(p, 3, m.csid, bytes);
    PartRemains(cs, format, m, start);
    ContinuationChunkIff(cs, format, m, p.remoteChunkSize, start, tail);
  }

  lemma FurtherChunk(format: nat, m: Message, chunkSize: nat, start: nat, tail: seq<byte>)
    requires format < 4 && 0 < start < |m.data|
    ensures DeltaChunk(format, m, chunkSize, start) + tail ==
            BasicHeader(3, m.csid) + (ExtendedTimestamp(m.timestamp) + (m.data[start..Min(start + chunkSize, |m.data|)] + tail))
  {
    hide BasicHeader, ExtendedTimestamp;
    var h, ext, part := BasicHeader(3, m.csid), ExtendedTimestamp(m.timestamp), m.data[start..Min(start + chunkSize, |m.data|)];
    PlusAssoc(h + ext, part, tail);
    PlusAssoc(h, ext, part + tail);
  }

  lemma PartRemains(cs: Stream, format: nat, m: Message, start: nat)
    requires start < |m.data|
    ensures var now := Part(cs, format, m, start); now.remain != 0 && now.(csid := m.csid) == now
  {
  }

  lemma ContinuationChunkIff(cs: Stream, format: nat, m: Message, chunkSize: nat, start: nat, tail: seq<byte>)
    requires chunkSize >= 1 && 0 < start < |m.data| && Opens(cs, format, m)
    ensures var to := Min(start + chunkSize, |m.data|);
            var i := Input(ExtendedTimestamp(m.timestamp) + (m.data[start..to] + tail), false);
            var r := ContinuePayload(Part(cs, format, m, start), chunkSize, i);
            r == Accepted(Part(cs, format, m, to), Input(tail, false)) <==> m.timestamp < EXTENDED || cs.timestamp == 0
  {
    var to := Min(start + chunkSize, |m.data|);
    var ext, part := ExtendedTimestamp(m.timestamp), m.data[start..to];
    var now := Part(cs, format, m, start);
    ReadPart(now, chunkSize, part, tail);
    assert m.data[..start] + part == m.data[..to];
    if m.timestamp < EXTENDED {
      assert ext + (part + tail) == part + tail;
    } else {
      Pow256Values();
      ReadBEPrefix(m.timestamp, 4, part + tail);
      hide BE, FromBE;
      SameClockIff(cs.timestamp, m.timestamp);
      assert |(ext + (part + tail))[|part|..]| == 4 + |tail|;
    }
  }

  lemma SameClockIff(t: nat, d: uint32)
    requires t < 0x1_0000_0000
    ensures Plus32(t, d) == d <==> t == 0
  {
  }

  /** When every chunk is read as itself, the message is delivered with its payload, at the clock's time plus its delta. */
  lemma {:induction false} DeltaMessageDelivered(p: Peer, cs: Stream, format: nat, m: Message, start: nat, tail: seq<byte>)
    requires p.remoteChunkSize >= 1 && format < 4 && start < |m.data| && EveryChunkRead(p, cs, format, m, start, tail)
    ensures var whole := Part(cs, format, m, |m.data|);
            && Read(p, Input(DeltaChunks(format, m, p.remoteChunkSize, start) + tail, false)) ==
               AfterMessage(p.(streams := p.streams[Key(m.csid) := whole]), whole, Input(tail, false))
            && whole.data == m.data && whole.timestamp == Plus32(cs.timestamp, m.timestamp)
    decreases |m.data| - start
  {
    hide DeltaChunk, ReadStep, AfterMessage;
    var next := start + p.remoteChunkSize;
    var after := Part(cs, format, m, Min(next, |m.data|));
    assert m.data[..|m.data|] == m.data;
    if next < |m.data| {
      var p1 := p.(streams := p.streams[Key(m.csid) := after]);
      DeltaMessageDelivered(p1, cs, format, m, next, tail);
      assert p1.streams[Key(m.csid) := Part(cs, format, m, |m.data|)] == p.streams[Key(m.csid) := Part(cs, format, m, |m.data|)];
    } else {
      assert [] + tail == tail;
    }
  }
}
