/**
  The clock of a chunk stream by the RTMP specification, and exactly when the
  timestamps of the server agree with it.
 */
module ChunkClock {
  import opened Bytes
  import opened ChunkFormat
  import opened ChunkLaws
  import P = ChunkProtocol

  /**
    What section 5.3.1.2.4 of the RTMP specification has the last event do: a type 3
    header repeats a delta, and after a type 0 header the delta is its timestamp.
   */
  function SpecEffect(events: seq<TimeEvent>): Effect
    requires events != []
  {
    match events[|events| - 1]
    case Absolute(t) => Set(t)
    case Delta(d) => Add(d)
    case NoTime => Add(0)
    case Repeat(ext) =>
      match Governing(events)
      case Some(Absolute(t)) => Add(if ext.Some? then ext.value else t)
      case Some(Delta(d)) => Add(if ext.Some? then ext.value else d)
      case _ => Add(0)
  }

  function Moved(now: nat, effect: Effect): nat {
    match effect
    case Set(t) => t % 0x1_0000_0000
    case Add(d) => Plus32(now, d)
  }

  function SpecClock(events: seq<TimeEvent>): nat {
    if events == [] then 0 else Moved(SpecClock(events[..|events| - 1]), SpecEffect(events))
  }

  /**
    A type 3 header starts a message after a type 0 header. It adds nothing, though
    that header's time was not zero, or it carries an extended timestamp, which is set
    instead of added to a clock that does not show zero.
   */
  predicate Departs(now: nat, events: seq<TimeEvent>) {
    && events != [] && events[|events| - 1].Repeat?
    && match Governing(events)
       case Some(Absolute(t)) => (if events[|events| - 1].ext.Some? then now else t) % 0x1_0000_0000 != 0
       case _ => false
  }

  /** A type 3 header carries a time only if the header it repeats does. */
  predicate Governed(events: seq<TimeEvent>) {
    events != [] && events[|events| - 1].Repeat? && events[|events| - 1].ext.Some? ==> Governing(events).Some?
  }

  /** One header moves the clock as the specification does exactly if it does not depart. */
  lemma StepAgreesIff(now: nat, events: seq<TimeEvent>)
    requires events != [] && Governed(events)
    ensures Moved(now, EffectOf(events)) == Moved(now, SpecEffect(events)) <==> !Departs(now, events)
  {
    hide Governing, Plus32;
    GoverningKind(events);
    var e := events[|events| - 1];
    if e.Repeat? && Governing(events).Some? && Governing(events).value.Absolute? {
      var t := Governing(events).value.time;
      if e.ext.Some? {
        AddsNothingIff(e.ext.value, now);
      } else {
        AddsNothingIff(now, t);
      }
      assert Moved(now, Add(0)) == now % 0x1_0000_0000 by { PlusZero(now); }
    }
  }

  lemma PlusZero(now: nat)
    ensures Plus32(now, 0) == now % 0x1_0000_0000
  {
  }

  lemma AddsNothingIff(x: nat, d: nat)
    ensures Plus32(x, d) == Plus32(d, x)
    ensures x % 0x1_0000_0000 == Plus32(x, d) <==> d % 0x1_0000_0000 == 0
  {
    var q, r := x / 0x1_0000_0000, d / 0x1_0000_0000;
    var a, b := x % 0x1_0000_0000, d % 0x1_0000_0000;
    assert x + d == (a + b) + (q + r) * 0x1_0000_0000;
    assert Plus32(x, d) == (a + b) % 0x1_0000_0000;
  }

  lemma {:induction false} GoverningKind(events: seq<TimeEvent>)
    ensures Governing(events).Some? ==> Governing(events).value.Absolute? || Governing(events).value.Delta?
  {
    if events != [] {
      GoverningKind(events[..|events| - 1]);
    }
  }

  /** After every chunk the stream shows the time of the specification. */
  predicate InTime(chunks: seq<Chunk>)
    requires After(chunks).Some?
  {
    After(chunks).value.timestamp == SpecClock(Events(chunks)) && (chunks == [] || InTime(chunks[..|chunks| - 1]))
  }

  /** None of the chunks has a header that departs from the specification. */
  predicate NeverDeparts(chunks: seq<Chunk>)
    requires After(chunks).Some?
  {
    chunks == [] ||
    (var before := chunks[..|chunks| - 1];
     !Departs(After(before).value.timestamp, Events(chunks)) && NeverDeparts(before))
  }

  /**
    Main theorem. Whatever chunks a stream accepts, it shows the time of the
    specification throughout if and only if none of their headers departs from it.
   */
  lemma {:induction false} SpecificationIff(chunks: seq<Chunk>)
    requires After(chunks).Some?
    ensures InTime(chunks) <==> NeverDeparts(chunks)
  {
    hide ReadChunk, EventOf, Events, EffectOf, SpecEffect, Moved, Departs, Governed;
    if chunks == [] {
      EmptyInTime(chunks);
    } else {
      var before := chunks[..|chunks| - 1];
      SpecificationIff(before);
      OneMoreChunk(chunks);
      StepAgreesIff(After(before).value.timestamp, Events(chunks));
      hide After;
    }
  }

  lemma EmptyInTime(chunks: seq<Chunk>)
    requires chunks == []
    ensures InTime(chunks)
  {
  }

  /** One more chunk moves the stream's timestamp by its effect. */
  lemma OneMoreChunk(chunks: seq<Chunk>)
    requires chunks != [] && After(chunks).Some?
    ensures var before, events := chunks[..|chunks| - 1], Events(chunks);
            events != [] && events[..|events| - 1] == Events(before) && Governed(events) &&
            After(chunks).value.timestamp == Moved(After(before).value.timestamp, EffectOf(events))
  {
    hide ReadChunk, EventOf, Base, DeltasSince, Governing, Plus32;
    var before, c := chunks[..|chunks| - 1], chunks[|chunks| - 1];
    var cs := After(before).value;
    TimestampLaw(before);
    TimestampLaw(chunks);
    ExtendedIsGoverned(before);
    var e := EventOf(cs, c.format, c.key, c.input);
    OneMoreEvent(Events(before), e);
    RepeatsExtended(cs, c);
    if EffectOf(Events(chunks)).Add? {
      PlusModulo(Base(Events(before)) + DeltasSince(Events(before)), EffectOf(Events(chunks)).delta);
    }
  }

  lemma RepeatsExtended(cs: Stream, c: Chunk)
    ensures var e := EventOf(cs, c.format, c.key, c.input); e.Repeat? && e.ext.Some? ==> cs.exted
  {
  }

  /** A stream expects an extended timestamp only after a header that had one. */
  lemma {:induction false} ExtendedIsGoverned(chunks: seq<Chunk>)
    requires After(chunks).Some?
    ensures After(chunks).value.exted ==> Governing(Events(chunks)).Some?
  {
    hide ReadChunk, EventOf, Governing;
    if chunks != [] {
      var before, c := chunks[..|chunks| - 1], chunks[|chunks| - 1];
      ExtendedIsGoverned(before);
      var cs := After(before).value;
      ChunkExtends(cs, c.format, c.key, c.chunkSize, c.input);
      OneMoreEvent(Events(before), EventOf(cs, c.format, c.key, c.input));
    }
  }

  lemma ChunkExtends(cs: Stream, format: nat, key: nat, chunkSize: nat, i: Input)
    requires format < 4
    ensures var r := ReadChunk(cs, format, key, chunkSize, i);
            var e := EventOf(cs, format, key, i);
            r.Accepted? && (e.Repeat? || e.NoTime?) ==> r.stream.exted == cs.exted
  {
    hide ReadCsid, FromBE, FromLE;
  }

  // ------------------------------------------------------------- departures

  /** The chunk of a message that fits one, as it is handed to its stream. */
  function Whole(m: Message): Chunk {
    Chunk(0, P.Key(m.csid), |m.data|, Input(P.OpeningFields(m) + m.data, false))
  }

  /** A second message like `m`, announced by nothing but a type 3 header. */
  function Repeated(m: Message, data: seq<byte>): Chunk {
    Chunk(3, P.Key(m.csid), |m.data|, Input(ExtendedTimestamp(m.timestamp) + data, false))
  }

  predicate IsAnother(cs: Stream, m: Message, data: seq<byte>) {
    cs.got && cs.data == data && cs.csid == m.csid && cs.typeID == m.typeID && cs.streamID == m.streamID
  }

  /**
    A message and, behind a type 3 header, one more of its length: the second is read
    whole with the kind and the stream of the first, and it has the first one's timestamp, where the specification has twice as much. This is the input
    that departs, at every timestamp but zero, with an extended timestamp or without.
   */
  lemma RepeatedTimestamp(m: Message, data: seq<byte>)
    requires P.Sendable(m) && 2 <= m.csid < 64 && |data| == |m.data|
    ensures var chunks := [Whole(m), Repeated(m, data)];
            After(chunks).Some? && After(chunks).value.timestamp == m.timestamp &&
            IsAnother(After(chunks).value, m, data) &&
            SpecClock(Events(chunks)) == Plus32(m.timestamp, m.timestamp) &&
            (InTime(chunks) <==> m.timestamp == 0)
  {
    hide ReadChunk, EventOf, After, Events, SpecClock, Whole, Repeated, InTime, Plus32;
    var first, both := [Whole(m)], [Whole(m), Repeated(m, data)];
    var cs := FirstChunk(m);
    var e := SecondChunk(m, data, cs);
    EmptyHistory();
    assert [] + [Whole(m)] == first && first + [Repeated(m, data)] == both;
    Appended([], Whole(m), ZERO_STREAM);
    Appended(first, Repeated(m, data), cs);
    assert Events(first) == [Absolute(m.timestamp)] && Events(both) == [Absolute(m.timestamp), e];
    TwoEvents(m.timestamp, e);
    AddsNothingIff(m.timestamp, m.timestamp);
    EmptyInTime([]);
    InTimeStep([], Whole(m));
    InTimeStep(first, Repeated(m, data));
  }

  lemma EmptyHistory()
    ensures After([]) == Some(ZERO_STREAM) && Events([]) == []
  {
  }

  /** One chunk more that the stream accepts. */
  lemma Appended(chunks: seq<Chunk>, c: Chunk, cs: Stream)
    requires After(chunks) == Some(cs) && c.format < 4 && c.key < 64
    requires ReadChunk(cs, c.format, c.key, c.chunkSize, c.input).Accepted?
    ensures After(chunks + [c]) == Some(ReadChunk(cs, c.format, c.key, c.chunkSize, c.input).stream)
    ensures Events(chunks + [c]) == Events(chunks) + [EventOf(cs, c.format, c.key, c.input)]
  {
    hide ReadChunk, EventOf;
    assert (chunks + [c])[..|chunks|] == chunks;
  }

  lemma InTimeStep(chunks: seq<Chunk>, c: Chunk)
    requires After(chunks + [c]).Some? && After(chunks).Some?
    ensures InTime(chunks + [c]) <==>
            After(chunks + [c]).value.timestamp == SpecClock(Events(chunks + [c])) && InTime(chunks)
  {
    hide After, Events, SpecClock;
    assert (chunks + [c])[..|chunks|] == chunks;
  }

  lemma FirstChunk(m: Message) returns (cs: Stream)
    requires P.Sendable(m) && 2 <= m.csid < 64
    ensures var c := Whole(m);
            var r := ReadChunk(ZERO_STREAM, c.format, c.key, c.chunkSize, c.input);
            c.format == 0 && c.key < 64 && r.Accepted? && r.stream == cs &&
            EventOf(ZERO_STREAM, c.format, c.key, c.input) == Absolute(m.timestamp)
    ensures cs.format == 0 && cs.timestamp == m.timestamp && cs.length == |m.data| && cs.remain == 0
    ensures cs.exted <==> m.timestamp >= EXTENDED
    ensures cs.typeID == m.typeID && cs.streamID == m.streamID
  {
    var c := Whole(m);
    P.ReadOpeningFields(ZERO_STREAM.(csid := m.csid), m, m.data);
    ChunkTime(ZERO_STREAM, c.format, c.key, c.chunkSize, c.input);
    hide ReadType0, P.OpeningFields;
    cs := ReadChunk(ZERO_STREAM, c.format, c.key, c.chunkSize, c.input).stream;
  }

  lemma SecondChunk(m: Message, data: seq<byte>, cs: Stream) returns (e: TimeEvent)
    requires |data| == |m.data| <= MAX_POOL_SIZE && 2 <= m.csid < 64
    requires cs.format == 0 && cs.timestamp == m.timestamp && cs.length == |m.data| && cs.remain == 0
    requires cs.exted <==> m.timestamp >= EXTENDED
    requires cs.typeID == m.typeID && cs.streamID == m.streamID
    ensures var c := Repeated(m, data);
            var r := ReadChunk(cs, c.format, c.key, c.chunkSize, c.input);
            c.format == 3 && c.key < 64 && r.Accepted? && r.stream.timestamp == m.timestamp &&
            IsAnother(r.stream, m, data) &&
            EventOf(cs, c.format, c.key, c.input) == e
    ensures e == Repeat(if m.timestamp >= EXTENDED then Some(m.timestamp) else None)
  {
    var c := Repeated(m, data);
    ChunkTime(cs, c.format, c.key, c.chunkSize, c.input);
    if m.timestamp >= EXTENDED {
      Pow256Values();
      P.ReadBEPrefix(m.timestamp, 4, data);
    } else {
      assert ExtendedTimestamp(m.timestamp) + data == data;
    }
    hide FromBE, Pow256, BE;
    e := EventOf(cs, c.format, c.key, c.input);
  }

  lemma TwoEvents(t: uint32, e: TimeEvent)
    requires e.Repeat?
    ensures SpecClock([Absolute(t), e]) == Plus32(t, if e.ext.Some? then e.ext.value else t)
    ensures SpecClock([Absolute(t)]) == t
  {
    var first, both := [Absolute(t)], [Absolute(t), e];
    assert both[..1] == first && first[..0] == [];
    assert Governing(first) == Some(Absolute(t));
    assert Governing(both) == Governing(first);
    assert SpecClock(first) == t;
  }
}
