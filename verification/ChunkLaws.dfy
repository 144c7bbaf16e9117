/**
  What holds of the chunk reader on every input, also from peers that do not
  follow the protocol: delivered messages are whole, timestamps follow a
  closed-form law, and acknowledgements account for every byte delivered.
 */
module ChunkLaws {
  import opened Bytes
  import opened ChunkFormat

  // ---------------------------------------------------------- whole messages

  /** Every header field fits its width. */
  predicate Ranged(cs: Stream) {
    && cs.format < 3 && cs.csid < 65600 && cs.typeID < 0x100
    && cs.timestamp < 0x1_0000_0000 && cs.streamID < 0x1_0000_0000 && cs.timeDelta < 0x1_0000_0000
  }

  /** Received and remaining payload add up to the announced length. */
  predicate Sound(cs: Stream) {
    Ranged(cs) && |cs.data| + cs.remain == cs.length <= MAX_POOL_SIZE && (cs.got ==> cs.remain == 0)
  }

  ghost predicate AllSound(streams: map<nat, Stream>) {
    forall k :: k in streams ==> Sound(streams[k])
  }

  lemma ReadBEBound(i: Input, n: nat)
    ensures ReadBE(i, n).0 < Pow256(n)
  {
    if !i.failed && |i.rest| >= n {
      FromBEBound(i.rest[..n]);
    }
  }

  lemma ReadLEBound(i: Input, n: nat)
    ensures ReadLE(i, n).0 < Pow256(n)
  {
    if !i.failed && |i.rest| >= n {
      FromLEBound(i.rest[..n]);
    }
  }

  lemma CsidRanged(key: nat, i: Input)
    requires key < 64
    ensures ReadCsid(key, i).0 < 65600
  {
    Pow256Values();
    ReadLEBound(i, 1);
    ReadLEBound(i, 2);
  }

  lemma ReplaceRanged(time: nat, i: Input)
    requires time <= EXTENDED
    ensures ReplaceExtended(time, i).0 < 0x1_0000_0000
  {
    Pow256Values();
    ReadBEBound(i, 4);
  }

  lemma Type0Ranged(cs: Stream, i: Input)
    requires Ranged(cs)
    ensures Ranged(ReadType0(cs, i).0)
  {
    Pow256Values();
    hide FromBE, FromLE, Pow256, ReplaceExtended, ReadBE, ReadLE;
    var (time, i1) := ReadBE(i, 3);
    var (length, i2) := ReadBE(i1, 3);
    var (typeID, i3) := ReadBE(i2, 1);
    var (streamID, i4) := ReadLE(i3, 4);
    ReadBEBound(i, 3);
    ReadBEBound(i2, 1);
    ReadLEBound(i3, 4);
    ReplaceRanged(time, i4);
  }

  lemma Type1Ranged(cs: Stream, i: Input)
    requires Ranged(cs)
    ensures Ranged(ReadType1(cs, i).0)
  {
    Pow256Values();
    hide FromBE, FromLE, Pow256, ReplaceExtended, ReadBE, ReadLE;
    var (time, i1) := ReadBE(i, 3);
    var (length, i2) := ReadBE(i1, 3);
    var (typeID, i3) := ReadBE(i2, 1);
    ReadBEBound(i, 3);
    ReadBEBound(i2, 1);
    ReplaceRanged(time, i3);
  }

  lemma Type23Ranged(cs: Stream, i: Input)
    requires Ranged(cs)
    ensures Ranged(ReadType2(cs, i).0) && Ranged(ReadType3(cs, i).0)
  {
    Pow256Values();
    hide FromBE, FromLE, Pow256, ReplaceExtended, ReadBE, ReadLE;
    ReadBEBound(i, 3);
    ReadBEBound(i, 4);
    ReplaceRanged(ReadBE(i, 3).0, ReadBE(i, 3).1);
  }

  lemma PayloadSound(cs: Stream, chunkSize: nat, i: Input)
    requires Ranged(cs) && |cs.data| + cs.remain == cs.length <= MAX_POOL_SIZE && !cs.got
    ensures var r := ReadPayload(cs, chunkSize, i);
            r.Accepted? ==> Sound(r.stream) && (r.stream.got <==> r.stream.remain == 0)
  {
  }

  /** Any accepted chunk leaves a sound stream; it is complete exactly when nothing remains. */
  lemma ChunkSound(cs: Stream, format: nat, key: nat, chunkSize: nat, i: Input)
    requires Sound(cs) && format < 4 && key < 64
    ensures var r := ReadChunk(cs, format, key, chunkSize, i);
            r.Accepted? ==> Sound(r.stream) && (r.stream.got <==> r.stream.remain == 0)
  {
    hide ReadPayload, ReadType0, ReadType1, ReadType2, ReadType3, ReadCsid, Sound, FromBE;
    assert Ranged(cs) && |cs.data| + cs.remain == cs.length <= MAX_POOL_SIZE && (cs.got ==> cs.remain == 0) by {
      SoundMeans(cs);
    }
    CsidRanged(key, i);
    var (csid, i1) := ReadCsid(key, i);
    var cs1 := cs.(csid := csid);
    if format == 3 && cs.remain != 0 {
      PayloadSound(cs1, chunkSize, i1);
      if |i1.rest| >= 4 {
        PayloadSound(cs1, chunkSize, Input(i1.rest[4..], i1.failed));
      }
    } else if cs.remain == 0 {
      Type0Ranged(cs1, i1);
      Type1Ranged(cs1, i1);
      Type23Ranged(cs1, i1);
      var (cs2, i2) := ReadFields(cs1, format, i1);
      if cs2.length <= MAX_POOL_SIZE {
        PayloadSound(cs2.(got := false, remain := cs2.length, data := []), chunkSize, i2);
      }
    }
  }

  lemma SoundMeans(cs: Stream)
    ensures Sound(cs) <==> Ranged(cs) && |cs.data| + cs.remain == cs.length <= MAX_POOL_SIZE && (cs.got ==> cs.remain == 0)
  {
  }

  /** Whatever bytes arrive, a delivered message has exactly the length its header announced. */
  lemma {:induction false} DeliveredWhole(p: Peer, i: Input)
    requires AllSound(p.streams)
    ensures match Read(p, i)
            case Delivered(cs, q, _, _) => Sound(cs) && cs.got && |cs.data| == cs.length && AllSound(q.streams)
            case ReadError(q, _) => AllSound(q.streams)
            case ReadPanic => true
    decreases |i.rest|
  {
    hide ReadChunk, Sound;
    var r := ReadStep(p, i);
    SoundMeans(ZERO_STREAM);
    if r.Stepped? {
      HeaderByteBound(i);
      var (h, i1) := ReadBE(i, 1);
      ChunkSound(StreamOf(p.streams, h % 64), h / 64, h % 64, p.remoteChunkSize, i1);
      SoundMeans(r.stream);
      if !r.stream.got {
        DeliveredWhole(p.(streams := p.streams[r.key := r.stream]), r.input);
      }
    }
  }

  // -------------------------------------------------------------- timestamps

  /** What the header of an accepted chunk says about time; the values are those on the wire. */
  datatype TimeEvent =
    | Absolute(time: nat)           // type 0
    | Delta(delta: nat)             // types 1 and 2
    | Repeat(ext: Option<nat>)      // type 3 starting a message, with the extended field if it carries one
    | NoTime                        // type 3 continuing a message

  /** Four big-endian bytes at an offset. */
  function Word(s: seq<byte>, at: nat): nat {
    if |s| >= at + 4 then FromBE(s[at..at + 4]) else 0
  }

  /** The three-byte time field, or the four bytes at `at` when it is all ones. */
  function TimeField(s: seq<byte>, at: nat): nat {
    var time := if |s| >= 3 then FromBE(s[..3]) else 0;
    if time == EXTENDED then Word(s, at) else time
  }

  function EventOf(cs: Stream, format: nat, key: nat, i: Input): TimeEvent {
    var s := ReadCsid(key, i).1.rest;
    if format == 0 then Absolute(TimeField(s, 11))
    else if format == 1 then Delta(TimeField(s, 7))
    else if format == 2 then Delta(TimeField(s, 3))
    else if cs.remain != 0 then NoTime
    else if cs.exted then Repeat(Some(Word(s, 0)))
    else Repeat(None)
  }

  /** The last header of type 0, 1 or 2. */
  function Governing(events: seq<TimeEvent>): Option<TimeEvent> {
    if events == [] then None
    else
      var e := events[|events| - 1];
      if e.Absolute? || e.Delta? then Some(e) else Governing(events[..|events| - 1])
  }

  datatype Effect = Set(time: nat) | Add(delta: nat)

  /** What the last event does to the clock. */
  function EffectOf(events: seq<TimeEvent>): Effect
    requires events != []
  {
    match events[|events| - 1]
    case Absolute(t) => Set(t)
    case Delta(d) => Add(d)
    case NoTime => Add(0)
    case Repeat(ext) =>
      match Governing(events)
      case Some(Delta(d)) => Add(if ext.Some? then ext.value else d)
      case _ => if ext.Some? then Set(ext.value) else Add(0)
  }

  /** The last absolute time of the history, zero before the first. */
  function Base(events: seq<TimeEvent>): nat {
    if events == [] then 0
    else if EffectOf(events).Set? then EffectOf(events).time
    else Base(events[..|events| - 1])
  }

  /** All deltas after it. */
  function DeltasSince(events: seq<TimeEvent>): nat {
    if events == [] || EffectOf(events).Set? then 0
    else EffectOf(events).delta + DeltasSince(events[..|events| - 1])
  }

  /** One chunk handed to a stream. */
  datatype Chunk = Chunk(format: nat, key: nat, chunkSize: nat, input: Input)

  /** The stream after a history of chunks, if all of them were accepted. */
  function After(chunks: seq<Chunk>): Option<Stream> {
    if chunks == [] then Some(ZERO_STREAM)
    else
      var c := chunks[|chunks| - 1];
      match After(chunks[..|chunks| - 1])
      case None => None
      case Some(cs) =>
        if c.format >= 4 || c.key >= 64 then None
        else
          var r := ReadChunk(cs, c.format, c.key, c.chunkSize, c.input);
          if r.Accepted? then Some(r.stream) else None
  }

  function Events(chunks: seq<Chunk>): seq<TimeEvent>
    requires After(chunks).Some?
  {
    if chunks == [] then []
    else
      var before := chunks[..|chunks| - 1];
      var c := chunks[|chunks| - 1];
      Events(before) + [EventOf(After(before).value, c.format, c.key, c.input)]
  }

  /** The stream remembers the governing header and shows the time of the law. */
  predicate ClockIs(cs: Stream, events: seq<TimeEvent>) {
    && cs.timestamp == (Base(events) + DeltasSince(events)) % 0x1_0000_0000
    && match Governing(events)
       case Some(Delta(d)) => cs.format != 0 && cs.timeDelta == d
       case _ => cs.format == 0
  }

  lemma PayloadKeepsClock(cs: Stream, chunkSize: nat, i: Input)
    ensures var r := ReadPayload(cs, chunkSize, i);
            r.Accepted? ==> !i.failed && r.stream.timestamp == cs.timestamp && r.stream.format == cs.format &&
                            r.stream.timeDelta == cs.timeDelta
  {
  }

  /** What one accepted chunk does to time, read off the wire bytes. */
  lemma ChunkTime(cs: Stream, format: nat, key: nat, chunkSize: nat, i: Input)
    requires format < 4
    ensures var r := ReadChunk(cs, format, key, chunkSize, i);
            r.Accepted? ==>
              match EventOf(cs, format, key, i)
              case Absolute(t) => r.stream.timestamp == t && r.stream.format == 0
              case Delta(d) =>
                r.stream.timestamp == Plus32(cs.timestamp, d) && r.stream.timeDelta == d && 1 <= r.stream.format <= 2
              case NoTime =>
                r.stream.timestamp == cs.timestamp && r.stream.format == cs.format && r.stream.timeDelta == cs.timeDelta
              case Repeat(ext) =>
                && r.stream.format == cs.format && r.stream.timeDelta == cs.timeDelta
                && r.stream.timestamp ==
                   if cs.format == 0 then (if ext.Some? then ext.value else cs.timestamp)
                   else Plus32(cs.timestamp, if ext.Some? then ext.value else cs.timeDelta)
  {
    hide ReadPayload, ReadCsid, FromBE, FromLE;
    var (csid, i1) := ReadCsid(key, i);
    var cs1 := cs.(csid := csid);
    if format == 3 && cs.remain != 0 {
      PayloadKeepsClock(cs1, chunkSize, i1);
      if |i1.rest| >= 4 {
        PayloadKeepsClock(cs1, chunkSize, Input(i1.rest[4..], i1.failed));
      }
    } else {
      var (cs2, i2) := ReadFields(cs1, format, i1);
      PayloadKeepsClock(cs2.(got := false, remain := cs2.length, data := []), chunkSize, i2);
      var s := i1.rest;
      if !i2.failed && format < 3 {
        assert s[..3] == s[0..3];
        if format == 0 {
          assert s[3..][3..][1..] == s[7..];
          assert |s| >= 15 ==> s[7..][4..][..4] == s[11..15];
        } else if format == 1 {
          assert s[3..][3..][1..] == s[7..];
          assert |s| >= 11 ==> s[7..][..4] == s[7..11];
        } else {
          assert |s| >= 7 ==> s[3..][..4] == s[3..7];
        }
      } else if !i2.failed && |s| >= 4 {
        assert s[..4] == s[0..4];
      }
    }
  }

  lemma WordBound(s: seq<byte>, at: nat)
    ensures Word(s, at) < 0x1_0000_0000
  {
    if |s| >= at + 4 {
      FromBEBound(s[at..at + 4]);
      Pow256Values();
    }
  }

  /** Absolute times on the wire fit 32 bits. */
  lemma EventBound(cs: Stream, format: nat, key: nat, i: Input)
    ensures match EventOf(cs, format, key, i)
            case Absolute(t) => t < 0x1_0000_0000
            case Repeat(Some(t)) => t < 0x1_0000_0000
            case _ => true
  {
    hide FromBE, Word, ReadCsid;
    var s := ReadCsid(key, i).1.rest;
    WordBound(s, 0);
    WordBound(s, 11);
    if |s| >= 3 {
      FromBEBound(s[..3]);
      Pow256Values();
    }
  }

  lemma PlusModulo(a: nat, d: nat)
    ensures Plus32(a % 0x1_0000_0000, d) == (a + d) % 0x1_0000_0000
  {
    var q := a / 0x1_0000_0000;
    assert a + d == (a % 0x1_0000_0000 + d) + q * 0x1_0000_0000;
  }

  /** One more event moves base and deltas by its effect. */
  lemma OneMoreEvent(events: seq<TimeEvent>, e: TimeEvent)
    ensures var all := events + [e];
            match EffectOf(all)
            case Set(t) => Base(all) == t && DeltasSince(all) == 0
            case Add(d) => Base(all) == Base(events) && DeltasSince(all) == d + DeltasSince(events)
    ensures Governing(events + [e]) == if e.Absolute? || e.Delta? then Some(e) else Governing(events)
  {
    assert (events + [e])[..|events|] == events;
  }

  /**
    Main theorem. After any accepted sequence of headers on a chunk stream its
    timestamp is the last absolute time plus all later deltas, modulo 2^32.
   */
  lemma {:induction false} TimestampLaw(chunks: seq<Chunk>)
    requires After(chunks).Some?
    ensures ClockIs(After(chunks).value, Events(chunks))
  {
    hide ReadChunk, EventOf, Base, DeltasSince, Governing, Plus32;
    if chunks == [] {
      EmptyClock();
    } else {
      var before := chunks[..|chunks| - 1];
      var c := chunks[|chunks| - 1];
      var cs := After(before).value;
      TimestampLaw(before);
      ChunkTime(cs, c.format, c.key, c.chunkSize, c.input);
      EventBound(cs, c.format, c.key, c.input);
      var e := EventOf(cs, c.format, c.key, c.input);
      OneMoreEvent(Events(before), e);
      var effect := EffectOf(Events(chunks));
      if effect.Add? {
        PlusModulo(Base(Events(before)) + DeltasSince(Events(before)), effect.delta);
      }
    }
  }

  lemma EmptyClock()
    ensures Base([]) == 0 && DeltasSince([]) == 0 && Governing([]) == None
  {
  }

  // -------------------------------------------------------- acknowledgements

  predicate GoodWindow(window: nat) {
    1 <= window <= 0x1_0000_0000 - 0x100_0000
  }

  /** Totals over the messages that repeated reading delivers. */
  datatype Ledger = Ledger(acked: nat, delivered: nat, last: Peer)

  function Account(p: Peer, i: Input): Ledger
    decreases |i.rest|
  {
    match Read(p, i)
    case Delivered(cs, q, j, ack) =>
      var more := Account(q, j);
      more.(acked := (if ack.Some? then ack.value else 0) + more.acked, delivered := |cs.data| + more.delivered)
    case _ => Ledger(0, 0, p)
  }

  /** The peer announces only usable windows. */
  predicate WindowsGood(p: Peer, i: Input)
    decreases |i.rest|
  {
    match Read(p, i)
    case Delivered(_, q, j, _) => GoodWindow(q.window) && WindowsGood(q, j)
    case _ => true
  }

  predicate CountersGood(p: Peer) {
    p.ackReceived < p.window && GoodWindow(p.window) && p.received < 0xf000_0000
  }

  lemma {:induction false} ReadKeepsCounters(p: Peer, i: Input)
    ensures match Read(p, i)
            case Delivered(cs, q, _, ack) =>
              var p1 := q.(received := p.received, ackReceived := p.ackReceived);
              (q, ack) == Acknowledge(p1, cs.length)
            case _ => true
    decreases |i.rest|
  {
    hide ReadStep;
    var r := ReadStep(p, i);
    if r.Stepped? {
      var p1 := p.(streams := p.streams[r.key := r.stream]);
      if !r.stream.got {
        ReadKeepsCounters(p1, r.input);
      } else if HandleControl(p1, r.stream).Some? {
        AcknowledgeFrame(HandleControl(p1, r.stream).value, r.stream.length);
      }
    }
  }

  lemma AcknowledgeFrame(q: Peer, n: nat)
    ensures var (q1, _) := Acknowledge(q, n); q1.(received := q.received, ackReceived := q.ackReceived) == q
  {
  }

  /**
    Main theorem. All acknowledged amounts and the amount still unacknowledged
    add up to the bytes delivered, and neither counter ever wraps.
   */
  lemma {:induction false} AcknowledgementsAccount(p: Peer, i: Input)
    requires AllSound(p.streams) && p.ackReceived < 0x1_0000_0000 - 0x100_0000 && p.received < 0xf000_0000
    requires WindowsGood(p, i)
    ensures var l := Account(p, i);
            && l.acked + l.last.ackReceived == p.ackReceived + l.delivered
            && l.last.received < 0xf000_0000
            && (l.last == p || CountersGood(l.last))
    decreases |i.rest|
  {
    hide Read, AllSound, Sound;
    var r := Read(p, i);
    if r.Delivered? {
      DeliveredWhole(p, i);
      ReadKeepsCounters(p, i);
      assert |r.stream.data| == r.stream.length <= MAX_POOL_SIZE by { SoundMeans(r.stream); }
      AcknowledgementsAccount(r.peer, r.input);
    }
  }

  /**
    An acknowledgement is sent exactly when what has come in since the last one reaches
    the window that the peer asked for, and it is for all of that; otherwise that goes on
    being counted.
   */
  lemma AcknowledgedIff(p: Peer, i: Input)
    requires AllSound(p.streams) && p.ackReceived < 0x1_0000_0000 - 0x100_0000
    ensures var r := Read(p, i);
            r.Delivered? ==>
              var pending, total := p.ackReceived + |r.stream.data|, (p.received + |r.stream.data|) % 0x1_0000_0000;
              && (r.ack == Some(pending) <==> pending >= r.peer.window)
              && (r.ack == None <==> pending < r.peer.window)
              && r.peer.ackReceived == (if pending >= r.peer.window then 0 else pending)
              && r.peer.received == (if total >= 0xf000_0000 then 0 else total)
  {
    hide Read, AllSound, Sound;
    var r := Read(p, i);
    if r.Delivered? {
      DeliveredWhole(p, i);
      ReadKeepsCounters(p, i);
      SoundMeans(r.stream);
      assert Plus32(p.ackReceived, r.stream.length) == p.ackReceived + |r.stream.data|;
    }
  }
}
