/**
  The sending side of the chunk protocol as a state machine, and what the
  reader of ChunkFormat.dfy makes of any of its runs: every interleaving of
  messages on different wire keys, every change of chunk size, and every
  truncation of the byte stream.
 */
module ChunkProtocol {
  import opened Bytes
  import opened ChunkFormat

  /** The six-bit field of the first chunk byte; ids from 64 on share the fields 0 and 1. */
  function Key(csid: nat): nat {
    if csid < 64 then csid else if csid - 64 < 256 then 0 else 1
  }

  /** What a caller may send: see sections 5.3.1.1 and 5.4 for the ids and the control messages. */
  predicate Sendable(m: Message) {
    && 1 <= |m.data| <= MAX_POOL_SIZE
    && 2 <= m.csid < 65600
    && m.typeID < 256
    && (m.typeID == ID_SET_CHUNK_SIZE ==> |m.data| >= 4 && FromBE(m.data[..4]) >= 1)
    && (m.typeID == ID_WINDOW_ACK_SIZE ==> |m.data| >= 4)
  }

  /** A message of which the first `sent` bytes are on the wire. */
  datatype Pending = Pending(m: Message, sent: nat)

  datatype Sender = Sender(chunkSize: nat, pending: map<nat, Pending>)

  datatype Step = Open(m: Message) | Continue(key: nat)

  predicate Enabled(s: Sender, step: Step) {
    && s.chunkSize >= 1
    && match step
       case Open(m) => Sendable(m) && Key(m.csid) !in s.pending
       case Continue(key) =>
         && key in s.pending
         && var pd := s.pending[key]; Sendable(pd.m) && key == Key(pd.m.csid) && 0 < pd.sent < |pd.m.data|
  }

  function At(s: Sender, step: Step): Pending
    requires Enabled(s, step)
  {
    match step
    case Open(m) => Pending(m, 0)
    case Continue(key) => s.pending[key]
  }

  function Reached(s: Sender, step: Step): nat
    requires Enabled(s, step)
  {
    var pd := At(s, step);
    Min(pd.sent + s.chunkSize, |pd.m.data|)
  }

  /** The chunk a step puts on the wire. */
  function Emit(s: Sender, step: Step): seq<byte>
    requires Enabled(s, step)
  {
    ChunkAt(At(s, step).m, s.chunkSize, At(s, step).sent)
  }

  predicate Completes(s: Sender, step: Step)
    requires Enabled(s, step)
  {
    Reached(s, step) == |At(s, step).m.data|
  }

  function SizeAfter(chunkSize: nat, m: Message): nat
    requires Sendable(m)
  {
    if m.typeID == ID_SET_CHUNK_SIZE then FromBE(m.data[..4]) else chunkSize
  }

  /** A chunk size announced by a message is used from the next chunk on. */
  function Next(s: Sender, step: Step): Sender
    requires Enabled(s, step)
  {
    var m := At(s, step).m;
    if Completes(s, step) then Sender(SizeAfter(s.chunkSize, m), s.pending - {Key(m.csid)})
    else s.(pending := s.pending[Key(m.csid) := Pending(m, Reached(s, step))])
  }

  predicate Run(s: Sender, steps: seq<Step>)
    decreases |steps|
  {
    steps == [] || (Enabled(s, steps[0]) && Run(Next(s, steps[0]), steps[1..]))
  }

  function Wire(s: Sender, steps: seq<Step>): seq<byte>
    requires Run(s, steps)
    decreases |steps|
  {
    if steps == [] then [] else Emit(s, steps[0]) + Wire(Next(s, steps[0]), steps[1..])
  }

  /** The messages a run completes, in order of completion. */
  function Completed(s: Sender, steps: seq<Step>): seq<Message>
    requires Run(s, steps)
    decreases |steps|
  {
    if steps == [] then []
    else
      (if Completes(s, steps[0]) then [At(s, steps[0]).m] else []) + Completed(Next(s, steps[0]), steps[1..])
  }

  function Final(s: Sender, steps: seq<Step>): Sender
    requires Run(s, steps)
    decreases |steps|
  {
    if steps == [] then s else Final(Next(s, steps[0]), steps[1..])
  }

  // ------------------------------------------------------------- agreement

  predicate Carries(cs: Stream, m: Message) {
    && cs.csid == m.csid && cs.timestamp == m.timestamp && cs.length == |m.data|
    && cs.typeID == m.typeID && cs.streamID == m.streamID
  }

  /** The stream holds exactly the part of the message that has been sent. */
  predicate Holds(cs: Stream, pd: Pending) {
    && Carries(cs, pd.m)
    && cs.format == 0 && cs.exted == (pd.m.timestamp >= EXTENDED) && !cs.got
    && 0 < pd.sent < |pd.m.data| && cs.data == pd.m.data[..pd.sent] && cs.remain == |pd.m.data| - pd.sent
  }

  ghost predicate Agree(s: Sender, p: Peer) {
    && s.chunkSize == p.remoteChunkSize >= 1
    && (forall k :: k in s.pending ==> k in p.streams && Holds(p.streams[k], s.pending[k]))
    && (forall k :: k in p.streams && k !in s.pending ==> p.streams[k].remain == 0)
  }

  /** What is delivered is the message, whole. */
  predicate Is(cs: Stream, m: Message) {
    Carries(cs, m) && cs.got && cs.remain == 0 && cs.data == m.data
  }

  ghost predicate AllAre(css: seq<Stream>, ms: seq<Message>) {
    |css| == |ms| && forall k :: 0 <= k < |ms| ==> Is(css[k], ms[k])
  }

  // ------------------------------------------------------- reading a header

  lemma ReadBEPrefix(v: nat, n: nat, tail: seq<byte>)
    requires v < Pow256(n)
    ensures ReadBE(Input(BE(v, n) + tail, false), n) == (v, Input(tail, false))
  {
    FromBEofBE(v, n);
    assert (BE(v, n) + tail)[..n] == BE(v, n);
    assert (BE(v, n) + tail)[n..] == tail;
  }

  lemma ReadLEPrefix(v: nat, n: nat, tail: seq<byte>)
    requires v < Pow256(n)
    ensures ReadLE(Input(LE(v, n) + tail, false), n) == (v, Input(tail, false))
  {
    FromLEofLE(v, n);
    assert (LE(v, n) + tail)[..n] == LE(v, n);
    assert (LE(v, n) + tail)[n..] == tail;
  }

  lemma OneByte(h: nat)
    requires h < 256
    ensures BE(h, 1) == [h]
  {
    assert BE(h / 256, 0) == [];
  }

  /** The first byte yields format and key, and the id bytes after it the chunk stream id. */
  lemma ReadBasicHeader(format: nat, csid: uint32, tail: seq<byte>)
    requires format < 4 && 2 <= csid < 65600
    ensures var (h, i) := ReadBE(Input(BasicHeader(format, csid) + tail, false), 1);
            h == format * 64 + Key(csid) && ReadCsid(Key(csid), i) == (csid, Input(tail, false))
  {
    hide LE, BE, FromBE, FromLE, Pow256;
    Pow256Values();
    var h := format * 64 + Key(csid);
    var id := BasicHeader(format, csid)[1..];
    assert BasicHeader(format, csid) + tail == [h] + (id + tail);
    OneByte(h);
    ReadBEPrefix(h, 1, id + tail);
    if csid < 64 {
      assert id + tail == tail;
    } else if csid - 64 < 256 {
      ReadLEPrefix(csid - 64, 1, tail);
    } else {
      ReadLEPrefix(csid - 64, 2, tail);
    }
  }

  function Opened(cs: Stream, m: Message): Stream {
    cs.(format := 0, csid := m.csid, timestamp := m.timestamp, length := |m.data|, typeID := m.typeID,
        streamID := m.streamID, exted := m.timestamp >= EXTENDED)
  }

  /** The fields of a type 0 header after the basic header. */
  function OpeningFields(m: Message): seq<byte> {
    BE(Min(m.timestamp, EXTENDED), 3) + (BE(|m.data|, 3) + (BE(m.typeID, 1) + (LE(m.streamID, 4) + ExtendedTimestamp(m.timestamp))))
  }

  lemma OpeningSplit(m: Message)
    ensures OpeningHeader(m) == BasicHeader(0, m.csid) + OpeningFields(m)
  {
  }

  lemma ReadOpeningFields(cs: Stream, m: Message, tail: seq<byte>)
    requires |m.data| < 0x100_0000 && m.typeID < 256 && cs.csid == m.csid
    ensures ReadType0(cs, Input(OpeningFields(m) + tail, false)) == (Opened(cs, m), Input(tail, false))
  {
    Pow256Values();
    var t5 := ExtendedTimestamp(m.timestamp) + tail;
    var t4 := LE(m.streamID, 4) + t5;
    var t3 := BE(m.typeID, 1) + t4;
    var t2 := BE(|m.data|, 3) + t3;
    assert OpeningFields(m) + tail == BE(Min(m.timestamp, EXTENDED), 3) + t2;
    ReadBEPrefix(Min(m.timestamp, EXTENDED), 3, t2);
    ReadBEPrefix(|m.data|, 3, t3);
    ReadBEPrefix(m.typeID, 1, t4);
    ReadLEPrefix(m.streamID, 4, t5);
    if m.timestamp >= EXTENDED {
      ReadBEPrefix(m.timestamp, 4, tail);
    } else {
      assert t5 == tail;
    }
  }

  /** The two types of header that carry a delta: the sender never picks them, but they too are read as written. */
  lemma ReadDeltaFields(cs: Stream, format: nat, m: Message, tail: seq<byte>)
    requires Sendable(m) && 1 <= format <= 2
    ensures var cs1 := cs.(format := format, exted := m.timestamp >= EXTENDED, timeDelta := m.timestamp,
                           timestamp := Plus32(cs.timestamp, m.timestamp));
            ReadFields(cs, format, Input(MessageHeader(format, m) + ExtendedTimestamp(m.timestamp) + tail, false)) ==
            (if format == 1 then cs1.(length := |m.data|, typeID := m.typeID) else cs1, Input(tail, false))
  {
    hide ReadType1, ReadType2, MessageHeader, ExtendedTimestamp;
    var time, ext := BE(Min(m.timestamp, EXTENDED), 3), ExtendedTimestamp(m.timestamp);
    DeltaFields(format, m);
    if format == 1 {
      var length, typeID := BE(|m.data|, 3), BE(m.typeID, 1);
      PlusAssoc(time + (length + typeID), ext, tail);
      PlusAssoc(time, length + typeID, ext + tail);
      PlusAssoc(length, typeID, ext + tail);
      ReadType1Fields(cs, m, tail);
    } else {
      PlusAssoc(time, ext, tail);
      ReadType2Fields(cs, m, tail);
    }
  }

  lemma DeltaFields(format: nat, m: Message)
    requires 1 <= format <= 2
    ensures MessageHeader(format, m) ==
            BE(Min(m.timestamp, EXTENDED), 3) + if format == 1 then BE(|m.data|, 3) + BE(m.typeID, 1) else []
    ensures format == 2 ==> MessageHeader(format, m) == BE(Min(m.timestamp, EXTENDED), 3)
  {
    hide BE;
    var length, typeID := BE(|m.data|, 3), BE(m.typeID, 1);
    assert length + typeID + [] == length + typeID;
  }

  lemma ReadTime(timestamp: uint32, tail: seq<byte>)
    ensures ReplaceExtended(Min(timestamp, EXTENDED), Input(ExtendedTimestamp(timestamp) + tail, false))
         == (timestamp as nat, timestamp >= EXTENDED, Input(tail, false))
  {
    Pow256Values();
    if timestamp >= EXTENDED {
      ReadBEPrefix(timestamp, 4, tail);
    } else {
      assert ExtendedTimestamp(timestamp) + tail == tail;
    }
  }

  lemma ReadType1Fields(cs: Stream, m: Message, tail: seq<byte>)
    requires Sendable(m)
    ensures ReadType1(cs, Input(BE(Min(m.timestamp, EXTENDED), 3) +
                                (BE(|m.data|, 3) + (BE(m.typeID, 1) + (ExtendedTimestamp(m.timestamp) + tail))), false)) ==
            (cs.(format := 1, length := |m.data|, typeID := m.typeID, exted := m.timestamp >= EXTENDED,
                 timeDelta := m.timestamp, timestamp := Plus32(cs.timestamp, m.timestamp)), Input(tail, false))
  {
    Pow256Values();
    hide BE, FromBE, Pow256, ReadBE, ReplaceExtended, ExtendedTimestamp;
    var t3 := ExtendedTimestamp(m.timestamp) + tail;
    var t2 := BE(m.typeID, 1) + t3;
    ReadBEPrefix(Min(m.timestamp, EXTENDED), 3, BE(|m.data|, 3) + t2);
    ReadBEPrefix(|m.data|, 3, t2);
    ReadBEPrefix(m.typeID, 1, t3);
    ReadTime(m.timestamp, tail);
  }

  lemma ReadType2Fields(cs: Stream, m: Message, tail: seq<byte>)
    ensures ReadType2(cs, Input(BE(Min(m.timestamp, EXTENDED), 3) + (ExtendedTimestamp(m.timestamp) + tail), false)) ==
            (cs.(format := 2, exted := m.timestamp >= EXTENDED, timeDelta := m.timestamp,
                 timestamp := Plus32(cs.timestamp, m.timestamp)), Input(tail, false))
  {
    Pow256Values();
    hide BE, FromBE, Pow256, ReadBE, ReplaceExtended, ExtendedTimestamp;
    ReadBEPrefix(Min(m.timestamp, EXTENDED), 3, ExtendedTimestamp(m.timestamp) + tail);
    ReadTime(m.timestamp, tail);
  }

  /** Reading what `Open(m)` puts on the wire comes down to reading its payload. */
  lemma ReadOpening(cs: Stream, m: Message, chunkSize: nat, tail: seq<byte>)
    requires |m.data| < 0x100_0000 && m.typeID < 256 && 2 <= m.csid < 65600 && cs.remain == 0
    ensures var (h, i) := ReadBE(Input(OpeningHeader(m) + tail, false), 1);
            h == Key(m.csid) &&
            ReadChunk(cs, 0, h, chunkSize, i) == StartPayload(Opened(cs, m), chunkSize, Input(tail, false))
  {
    OpeningSplit(m);
    assert OpeningHeader(m) + tail == BasicHeader(0, m.csid) + (OpeningFields(m) + tail);
    ReadBasicHeader(0, m.csid, OpeningFields(m) + tail);
    ReadOpeningFields(cs.(csid := m.csid), m, tail);
  }

  lemma ReadContinuing(cs: Stream, pd: Pending, chunkSize: nat, tail: seq<byte>)
    requires Sendable(pd.m) && Holds(cs, pd)
    ensures var (h, i) := ReadBE(Input(ContinuingHeader(pd.m) + tail, false), 1);
            h == 192 + Key(pd.m.csid) &&
            ReadChunk(cs, 3, Key(pd.m.csid), chunkSize, i) == ReadPayload(cs, chunkSize, Input(tail, false))
  {
    var m := pd.m;
    var ext := ExtendedTimestamp(m.timestamp);
    assert ContinuingHeader(m) + tail == BasicHeader(3, m.csid) + (ext + tail);
    ReadBasicHeader(3, m.csid, ext + tail);
    assert cs.(csid := m.csid) == cs;
    if m.timestamp >= EXTENDED {
      Pow256Values();
      FromBEofBE(m.timestamp, 4);
      assert (ext + tail)[..4] == ext;
      assert (ext + tail)[4..] == tail;
    } else {
      assert ext + tail == tail;
    }
  }

  // ---------------------------------------------------- one step, both sides

  /** The stream after the reader has taken the chunk of an enabled step. */
  function After(cs: Stream, s: Sender, step: Step): Stream
    requires Enabled(s, step)
  {
    var m := At(s, step).m;
    var to := Reached(s, step);
    (if step.Open? then Opened(cs, m) else cs).(
      data := m.data[..to], remain := |m.data| - to, got := to == |m.data|)
  }

  lemma ReadOpened(s: Sender, m: Message, p: Peer, tail: seq<byte>)
    requires Enabled(s, Open(m)) && Agree(s, p)
    ensures ReadStep(p, Input(Emit(s, Open(m)) + tail, false)) ==
            Stepped(Key(m.csid), After(StreamOf(p.streams, Key(m.csid)), s, Open(m)), Input(tail, false))
  {
    hide ReadChunk, ReadPayload, OpeningHeader, ContinuingHeader;
    var cs := StreamOf(p.streams, Key(m.csid));
    var part := m.data[..Reached(s, Open(m))];
    assert m.data[0..Reached(s, Open(m))] == part;
    assert Emit(s, Open(m)) + tail == OpeningHeader(m) + (part + tail);
    ReadOpening(cs, m, p.remoteChunkSize, part + tail);
    ReadPart(Opened(cs, m).(got := false, remain := |m.data|, data := []), p.remoteChunkSize, part, tail);
  }

  lemma ReadContinued(s: Sender, key: nat, p: Peer, tail: seq<byte>)
    requires Enabled(s, Continue(key)) && Agree(s, p)
    ensures ReadStep(p, Input(Emit(s, Continue(key)) + tail, false)) ==
            Stepped(key, After(StreamOf(p.streams, key), s, Continue(key)), Input(tail, false))
  {
    hide ReadChunk, ReadPayload, OpeningHeader, ContinuingHeader;
    var pd := s.pending[key];
    var part := pd.m.data[pd.sent..Reached(s, Continue(key))];
    assert Emit(s, Continue(key)) + tail == ContinuingHeader(pd.m) + (part + tail);
    ReadContinuing(p.streams[key], pd, p.remoteChunkSize, part + tail);
    ReadPart(p.streams[key], p.remoteChunkSize, part, tail);
    assert pd.m.data[..pd.sent] + part == pd.m.data[..Reached(s, Continue(key))];
  }

  lemma ReadPart(cs: Stream, chunkSize: nat, part: seq<byte>, tail: seq<byte>)
    requires |part| == Min(cs.remain, chunkSize) && !cs.got
    ensures ReadPayload(cs, chunkSize, Input(part + tail, false)) ==
            Accepted(cs.(data := cs.data + part, remain := cs.remain - |part|, got := cs.remain == |part|), Input(tail, false))
  {
    assert (part + tail)[..|part|] == part && (part + tail)[|part|..] == tail;
  }

  lemma ReadEmitted(s: Sender, step: Step, p: Peer, tail: seq<byte>)
    requires Enabled(s, step) && Agree(s, p)
    ensures var key := Key(At(s, step).m.csid);
            ReadStep(p, Input(Emit(s, step) + tail, false)) ==
            Stepped(key, After(StreamOf(p.streams, key), s, step), Input(tail, false))
  {
    match step
    case Open(m) => ReadOpened(s, m, p, tail);
    case Continue(key) => ReadContinued(s, key, p, tail);
  }

  /** The peer after the chunk of a step that leaves its message unfinished. */
  function Extended(p: Peer, s: Sender, step: Step): Peer
    requires Enabled(s, step)
  {
    var key := Key(At(s, step).m.csid);
    p.(streams := p.streams[key := After(StreamOf(p.streams, key), s, step)])
  }

  /** The peer, and the acknowledgement, after the chunk that completes a message. */
  function Finished(p: Peer, s: Sender, step: Step): (Peer, Option<nat>)
    requires Enabled(s, step)
  {
    var m := At(s, step).m;
    var p1 := Extended(p, s, step);
    Acknowledge(
      if m.typeID == ID_SET_CHUNK_SIZE then p1.(remoteChunkSize := FromBE(m.data[..4]))
      else if m.typeID == ID_WINDOW_ACK_SIZE then p1.(window := FromBE(m.data[..4]))
      else p1, |m.data|)
  }

  function PeerAfter(p: Peer, s: Sender, step: Step): Peer
    requires Enabled(s, step)
  {
    if Completes(s, step) then Finished(p, s, step).0 else Extended(p, s, step)
  }

  lemma ReadOneStep(s: Sender, step: Step, p: Peer, tail: seq<byte>)
    requires Enabled(s, step) && Agree(s, p)
    ensures Agree(Next(s, step), PeerAfter(p, s, step))
    ensures var r := Read(p, Input(Emit(s, step) + tail, false));
            if Completes(s, step) then
              var (q, ack) := Finished(p, s, step);
              && r == Delivered(After(StreamOf(p.streams, Key(At(s, step).m.csid)), s, step), q, Input(tail, false), ack)
              && Is(r.stream, At(s, step).m)
            else r == Read(Extended(p, s, step), Input(tail, false))
  {
    hide ReadStep, Agree, Acknowledge, Emit, Next, Reached;
    ReadEmitted(s, step, p, tail);
    AfterStep(s, step, p);
    AgreeAfter(s, step, p);
  }

  /** The stream after a step: the whole message, or a longer part of it. */
  lemma AfterStep(s: Sender, step: Step, p: Peer)
    requires Enabled(s, step) && Agree(s, p)
    ensures var m := At(s, step).m;
            var cs := After(StreamOf(p.streams, Key(m.csid)), s, step);
            if Completes(s, step) then Is(cs, m) else Holds(cs, Pending(m, Reached(s, step)))
  {
    var m := At(s, step).m;
    assert m.data[..|m.data|] == m.data;
  }

  lemma AgreeAfter(s: Sender, step: Step, p: Peer)
    requires Enabled(s, step) && Agree(s, p)
    ensures Agree(Next(s, step), PeerAfter(p, s, step))
  {
    hide After, Holds, Is, Reached;
    AfterStep(s, step, p);
    var m := At(s, step).m;
    if Completes(s, step) {
      assert After(StreamOf(p.streams, Key(m.csid)), s, step).remain == 0 by { IsWhole(After(StreamOf(p.streams, Key(m.csid)), s, step), m); }
    }
  }

  lemma IsWhole(cs: Stream, m: Message)
    requires Is(cs, m)
    ensures cs.remain == 0
  {
  }

  /** One step adds its message, if it completes one, to what the rest of the input delivers. */
  lemma ReadAllOneStep(s: Sender, step: Step, p: Peer, tail: seq<byte>)
    requires Enabled(s, step) && Agree(s, p)
    requires !ReadAll(PeerAfter(p, s, step), Input(tail, false)).panicked
    ensures var all := ReadAll(p, Input(Emit(s, step) + tail, false));
            var more := ReadAll(PeerAfter(p, s, step), Input(tail, false));
            && !all.panicked && all.last == more.last
            && if Completes(s, step)
               then |all.delivered| > 0 && Is(all.delivered[0], At(s, step).m) && all.delivered[1..] == more.delivered
               else all.delivered == more.delivered
  {
    hide Read, Is, Next, Finished, Extended, After, Agree, Emit, Enabled, Completes, At;
    ReadOneStep(s, step, p, tail);
  }

  // ------------------------------------------------------- truncated input

  lemma FailedRead(cs: Stream, format: nat, key: nat, chunkSize: nat)
    requires format == 0 || (format == 3 && cs.remain != 0)
    ensures ReadChunk(cs, format, key, chunkSize, Input([], true)).Refused?
  {
  }

  lemma ReadNothing(p: Peer)
    ensures ReadStep(p, Input([], false)).StepRefused?
  {
    FailedRead(StreamOf(p.streams, 0), 0, 0, p.remoteChunkSize);
  }

  /** A cut inside the fields of a type 0 header is noticed, and never asks the pool for too much. */
  lemma TruncatedFields(cs: Stream, m: Message, n: nat)
    requires Sendable(m) && n < |OpeningFields(m)|
    ensures var (cs1, i) := ReadType0(cs, Input(OpeningFields(m)[..n], false));
            i.failed && cs1.length <= MAX_POOL_SIZE
  {
    Pow256Values();
    var time := BE(Min(m.timestamp, EXTENDED), 3);
    var f := OpeningFields(m)[..n];
    if n >= 3 {
      assert f == time + f[3..];
      ReadBEPrefix(Min(m.timestamp, EXTENDED), 3, f[3..]);
      if n >= 6 {
        assert f[3..] == BE(|m.data|, 3) + f[6..];
        ReadBEPrefix(|m.data|, 3, f[6..]);
      }
    }
  }

  /** A cut inside the bytes of the chunk stream id is noticed. */
  lemma TruncatedBasicHeader(format: nat, csid: uint32, n: nat)
    requires format < 4 && 2 <= csid < 65600 && 0 < n < |BasicHeader(format, csid)|
    ensures var (h, i) := ReadBE(Input(BasicHeader(format, csid)[..n], false), 1);
            h == format * 64 + Key(csid) && ReadCsid(Key(csid), i).1 == Input([], true)
  {
    var h := format * 64 + Key(csid);
    var b := BasicHeader(format, csid)[..n];
    assert b[..1] == [h];
    assert FromBE([h]) == h by { assert FromBE([h][..0]) == 0; }
  }

  lemma TruncatedOpening(cs: Stream, m: Message, chunkSize: nat, n: nat)
    requires Sendable(m) && cs.remain == 0 && 0 < n < |OpeningHeader(m)|
    ensures var (h, i) := ReadBE(Input(OpeningHeader(m)[..n], false), 1);
            h == Key(m.csid) && ReadChunk(cs, 0, h, chunkSize, i).Refused?
  {
    OpeningSplit(m);
    var b := |BasicHeader(0, m.csid)|;
    if n < b {
      assert OpeningHeader(m)[..n] == BasicHeader(0, m.csid)[..n];
      TruncatedBasicHeader(0, m.csid, n);
    } else {
      var cut := OpeningFields(m)[..n - b];
      assert OpeningHeader(m)[..n] == BasicHeader(0, m.csid) + cut;
      ReadBasicHeader(0, m.csid, cut);
      TruncatedFields(cs.(csid := m.csid), m, n - b);
    }
  }

  lemma TruncatedContinuing(cs: Stream, pd: Pending, chunkSize: nat, n: nat)
    requires Sendable(pd.m) && Holds(cs, pd) && 0 < n < |ContinuingHeader(pd.m)|
    ensures var (h, i) := ReadBE(Input(ContinuingHeader(pd.m)[..n], false), 1);
            h == 192 + Key(pd.m.csid) && ReadChunk(cs, 3, Key(pd.m.csid), chunkSize, i).Refused?
  {
    var m := pd.m;
    var b := |BasicHeader(3, m.csid)|;
    if n < b {
      assert ContinuingHeader(m)[..n] == BasicHeader(3, m.csid)[..n];
      TruncatedBasicHeader(3, m.csid, n);
    } else {
      var cut := ExtendedTimestamp(m.timestamp)[..n - b];
      assert ContinuingHeader(m)[..n] == BasicHeader(3, m.csid) + cut;
      ReadBasicHeader(3, m.csid, cut);
    }
  }

  /** No proper prefix of a chunk is taken for a chunk. */
  lemma TruncatedEmitted(s: Sender, step: Step, p: Peer, n: nat)
    requires Enabled(s, step) && Agree(s, p) && n < |Emit(s, step)|
    ensures ReadStep(p, Input(Emit(s, step)[..n], false)).StepRefused?
  {
    hide ReadChunk, OpeningHeader, ContinuingHeader;
    var pd := At(s, step);
    var m, key := pd.m, Key(pd.m.csid);
    var cs := StreamOf(p.streams, key);
    var header := if step.Open? then OpeningHeader(m) else ContinuingHeader(m);
    var cut := Emit(s, step)[..n];
    if n == 0 {
      ReadNothing(p);
    } else if n < |header| {
      assert cut == header[..n];
      if step.Open? {
        TruncatedOpening(cs, m, p.remoteChunkSize, n);
      } else {
        TruncatedContinuing(cs, pd, p.remoteChunkSize, n);
      }
    } else {
      var part := m.data[pd.sent..Reached(s, step)][..n - |header|];
      assert cut == header + part;
      if step.Open? {
        ReadOpening(cs, m, p.remoteChunkSize, part);
      } else {
        ReadContinuing(cs, pd, p.remoteChunkSize, part);
      }
    }
  }

  /** A refused chunk ends the session and disturbs no stream. */
  lemma SessionEnds(s: Sender, p: Peer, i: Input)
    requires Agree(s, p) && ReadStep(p, i).StepRefused?
    ensures var all := ReadAll(p, i); all.delivered == [] && !all.panicked && Agree(s, all.last)
  {
    hide ReadStep;
  }

  // ------------------------------------------------------------ whole runs

  /** How many whole chunks of a run fit into its first `n` bytes. */
  function ChunksWithin(s: Sender, steps: seq<Step>, n: nat): (k: nat)
    requires Run(s, steps)
    ensures k <= |steps|
    decreases |steps|
  {
    if steps == [] || |Emit(s, steps[0])| > n then 0
    else 1 + ChunksWithin(Next(s, steps[0]), steps[1..], n - |Emit(s, steps[0])|)
  }

  lemma {:induction false} RunPrefix(s: Sender, steps: seq<Step>, k: nat)
    requires Run(s, steps) && k <= |steps|
    ensures Run(s, steps[..k])
    ensures Wire(s, steps[..k]) <= Wire(s, steps)
    decreases |steps|
  {
    if k > 0 {
      RunPrefix(Next(s, steps[0]), steps[1..], k - 1);
      assert steps[..k][1..] == steps[1..][..k - 1];
    }
  }

  /** `ChunksWithin` counts what its name says: those chunks fit, and one more does not. */
  lemma {:induction false} ChunksWithinExact(s: Sender, steps: seq<Step>, n: nat)
    requires Run(s, steps)
    ensures var k := ChunksWithin(s, steps, n);
            && Run(s, steps[..k]) && |Wire(s, steps[..k])| <= n
            && (k < |steps| ==> Run(s, steps[..k + 1]) && |Wire(s, steps[..k + 1])| > n)
    decreases |steps|
  {
    hide Emit, Next;
    var k := ChunksWithin(s, steps, n);
    RunPrefix(s, steps, k);
    if steps != [] && |Emit(s, steps[0])| <= n {
      var s1 := Next(s, steps[0]);
      ChunksWithinExact(s1, steps[1..], n - |Emit(s, steps[0])|);
      assert steps[..k][1..] == steps[1..][..k - 1];
      if k < |steps| {
        RunPrefix(s, steps, k + 1);
        assert steps[..k + 1][1..] == steps[1..][..k];
      }
    } else if steps != [] {
      RunPrefix(s, steps, 1);
      assert steps[..1][1..] == [];
    }
  }

  /** What the first `n` bytes of a run must deliver: the messages completed by its whole chunks, and no more. */
  ghost predicate DeliversWithin(s: Sender, steps: seq<Step>, p: Peer, n: nat)
    requires Run(s, steps) && n <= |Wire(s, steps)|
  {
    var k := ChunksWithin(s, steps, n);
    var all := ReadAll(p, Input(Wire(s, steps)[..n], false));
    && Run(s, steps[..k])
    && !all.panicked && AllAre(all.delivered, Completed(s, steps[..k])) && Agree(Final(s, steps[..k]), all.last)
  }

  /**
    Main theorem. Of any prefix of the bytes of a run, the reader delivers
    exactly the messages whose last chunk lies in the prefix, and then returns
    an error: no partial message is ever delivered.
   */
  lemma {:induction false} DeliveredWithin(s: Sender, steps: seq<Step>, p: Peer, n: nat)
    requires Run(s, steps) && Agree(s, p) && n <= |Wire(s, steps)|
    ensures DeliversWithin(s, steps, p, n)
    decreases |steps|
  {
    hide Emit, Next, Agree, Enabled, Completes, ReadAll, PeerAfter, Is, Read, ReadStep, Finished, Extended;
    RunPrefix(s, steps, ChunksWithin(s, steps, n));
    if steps == [] {
      ReadNothing(p);
      SessionEnds(s, p, Input([], false));
    } else if n < |Emit(s, steps[0])| {
      assert Wire(s, steps)[..n] == Emit(s, steps[0])[..n];
      TruncatedEmitted(s, steps[0], p, n);
      SessionEnds(s, p, Input(Emit(s, steps[0])[..n], false));
    } else {
      var tail := Wire(Next(s, steps[0]), steps[1..])[..n - |Emit(s, steps[0])|];
      ReadOneStep(s, steps[0], p, tail);
      DeliveredWithin(Next(s, steps[0]), steps[1..], PeerAfter(p, s, steps[0]), n - |Emit(s, steps[0])|);
      DeliversAfterStep(s, steps, p, n);
    }
  }

  lemma DeliversAfterStep(s: Sender, steps: seq<Step>, p: Peer, n: nat)
    requires Run(s, steps) && Agree(s, p) && n <= |Wire(s, steps)|
    requires steps != [] && n >= |Emit(s, steps[0])|
    requires DeliversWithin(Next(s, steps[0]), steps[1..], PeerAfter(p, s, steps[0]), n - |Emit(s, steps[0])|)
    ensures DeliversWithin(s, steps, p, n)
  {
    hide Emit, Next, Agree, Enabled, Completes, ReadAll, PeerAfter, Is, At, Wire, Completed, Final;
    var k := ChunksWithin(s, steps, n);
    var e, s1 := Emit(s, steps[0]), Next(s, steps[0]);
    StepOfRun(s, steps);
    var tail := Wire(s1, steps[1..])[..n - |e|];
    CutBehind(e, Wire(s1, steps[1..]), n);
    RunPrefix(s, steps, k);
    StepOfRun(s, steps[..k]);
    assert steps[..k][0] == steps[0] && steps[..k][1..] == steps[1..][..k - 1];
    ReadAllOneStep(s, steps[0], p, tail);
    hide ChunksWithin, Run, AllAre;
    var all := ReadAll(p, Input(e + tail, false));
    var rest := Completed(s1, steps[1..][..k - 1]);
    if Completes(s, steps[0]) {
      OneMoreIs(all.delivered, At(s, steps[0]).m, rest);
    } else {
      assert [] + rest == rest;
    }
  }

  lemma OneMoreIs(css: seq<Stream>, m: Message, ms: seq<Message>)
    requires |css| > 0 && Is(css[0], m) && AllAre(css[1..], ms)
    ensures AllAre(css, [m] + ms)
  {
    hide Is;
    forall k | 0 < k < |css| ensures Is(css[k], ([m] + ms)[k]) {
      assert Is(css[1..][k - 1], ms[k - 1]);
    }
  }

  lemma StepOfRun(s: Sender, steps: seq<Step>)
    requires Run(s, steps) && steps != []
    ensures Enabled(s, steps[0]) && Run(Next(s, steps[0]), steps[1..])
    ensures var s1 := Next(s, steps[0]);
            && Wire(s, steps) == Emit(s, steps[0]) + Wire(s1, steps[1..])
            && Completed(s, steps) == (if Completes(s, steps[0]) then [At(s, steps[0]).m] else []) + Completed(s1, steps[1..])
            && Final(s, steps) == Final(s1, steps[1..])
  {
    hide Emit, Next, Enabled, Completes, At;
  }

  lemma CutBehind(a: seq<byte>, b: seq<byte>, n: nat)
    requires |a| <= n <= |a + b|
    ensures (a + b)[..n] == a + b[..n - |a|]
  {
  }

  lemma {:induction false} AllWithin(s: Sender, steps: seq<Step>)
    requires Run(s, steps)
    ensures ChunksWithin(s, steps, |Wire(s, steps)|) == |steps|
    decreases |steps|
  {
    if steps != [] {
      AllWithin(Next(s, steps[0]), steps[1..]);
    }
  }

  /**
    Main theorem. Whatever the interleaving and whatever chunk sizes the run
    announces, reading the wire delivers exactly the completed messages, in
    order of completion, and leaves both sides in agreement.
   */
  lemma RunDelivered(s: Sender, steps: seq<Step>, p: Peer)
    requires Run(s, steps) && Agree(s, p)
    ensures var all := ReadAll(p, Input(Wire(s, steps), false));
            !all.panicked && AllAre(all.delivered, Completed(s, steps)) && Agree(Final(s, steps), all.last)
  {
    DeliveredWithin(s, steps, p, |Wire(s, steps)|);
    AllWithin(s, steps);
    assert steps[..|steps|] == steps;
    assert Wire(s, steps)[..|Wire(s, steps)|] == Wire(s, steps);
  }
}
