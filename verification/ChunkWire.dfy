/**
  The chunk format byte by byte: where each field of a header stands, where
  each part of a payload stands, what a control message sets, and which
  lengths the reader has room for.
 */
module ChunkWire {
  import opened Bytes
  import opened ChunkFormat
  import opened Protocol = ChunkProtocol

  // ------------------------------------------------------------------ header

  lemma BE3(v: nat)
    ensures BE(v, 3) == [v / 65536 % 256, v / 256 % 256, v % 256]
  {
    assert BE(v / 65536 / 256, 0) == [];
    assert BE(v / 256 / 256, 1) == [v / 256 / 256 % 256];
    assert BE(v / 256, 2) == BE(v / 256 / 256, 1) + [v / 256 % 256];
  }

  lemma BE4(v: nat)
    ensures BE(v, 4) == [v / 16777216 % 256, v / 65536 % 256, v / 256 % 256, v % 256]
  {
    BE3(v / 256);
    hide BE;
    Shifted(v, 256);
    Shifted(v, 65536);
  }

  lemma Shifted(v: nat, n: nat)
    requires n == 256 || n == 65536
    ensures v / 256 / n == v / (256 * n)
  {
  }

  lemma LE2(v: nat)
    ensures LE(v, 2) == [v % 256, v / 256 % 256]
  {
    assert LE(v / 256 / 256, 0) == [];
    assert LE(v / 256, 1) == [v / 256 % 256];
  }

  lemma LE4(v: nat)
    ensures LE(v, 4) == [v % 256, v / 256 % 256, v / 65536 % 256, v / 16777216 % 256]
  {
    LE2(v / 65536);
    assert LE(v / 256, 3) == [v / 256 % 256] + LE(v / 256 / 256, 2);
  }

  /** The one to three bytes of the basic header: ids from 64 on follow it less 64, low byte first. */
  lemma BasicHeaderIs(format: nat, csid: uint32)
    requires format < 4
    ensures csid < 64 ==> BasicHeader(format, csid) == [format * 64 + csid]
    ensures 64 <= csid < 320 ==> BasicHeader(format, csid) == [format * 64, csid - 64]
    ensures 320 <= csid < 65600 ==> BasicHeader(format, csid) == [format * 64 + 1, (csid - 64) % 256, (csid - 64) / 256]
  {
    if 64 <= csid < 65600 {
      LE2(csid - 64);
      assert LE((csid - 64) / 256, 0) == [];
    }
  }

  /**
    Every byte of a header. The time field is 24 bits wide and all ones where the time
    does not fit; then the time stands in 32 bits at the end.
   */
  lemma HeaderIs(format: nat, m: Message)
    requires format < 4
    ensures var t, n, id := if m.timestamp < 0xffffff then m.timestamp else 0xffffff, |m.data|, m.streamID;
            var time, kind := [t / 65536, t / 256 % 256, t % 256], [n / 65536 % 256, n / 256 % 256, n % 256, m.typeID % 256];
            MessageHeader(format, m) ==
              if format == 3 then [] else if format == 2 then time else if format == 1 then time + kind
              else time + (kind + [id % 256, id / 256 % 256, id / 65536 % 256, id / 16777216])
    ensures var t := m.timestamp;
            var ext := if t < 0xffffff then [] else [t / 16777216, t / 65536 % 256, t / 256 % 256, t % 256];
            Header(format, m) == BasicHeader(format, m.csid) + (MessageHeader(format, m) + ext)
  {
    hide BasicHeader, MessageHeader, ExtendedTimestamp;
    MessageHeaderIs(format, m);
    ExtendedIs(m.timestamp);
    PlusAssoc(BasicHeader(format, m.csid), MessageHeader(format, m), ExtendedTimestamp(m.timestamp));
  }

  lemma ExtendedIs(t: uint32)
    ensures ExtendedTimestamp(t) ==
            if t < 0xffffff then [] else [t / 16777216, t / 65536 % 256, t / 256 % 256, t % 256]
  {
    hide BE;
    BE4(t);
  }

  lemma MessageHeaderIs(format: nat, m: Message)
    requires format < 4
    ensures var t, n, id := if m.timestamp < 0xffffff then m.timestamp else 0xffffff, |m.data|, m.streamID;
            var time, kind := [t / 65536, t / 256 % 256, t % 256], [n / 65536 % 256, n / 256 % 256, n % 256, m.typeID % 256];
            MessageHeader(format, m) ==
              if format == 3 then [] else if format == 2 then time else if format == 1 then time + kind
              else time + (kind + [id % 256, id / 256 % 256, id / 65536 % 256, id / 16777216])
  {
    hide BE, LE;
    BE3(Min(m.timestamp, EXTENDED));
    KindIs(m);
    LE4(m.streamID);
  }

  lemma KindIs(m: Message)
    ensures BE(|m.data|, 3) + BE(m.typeID, 1) ==
            [|m.data| / 65536 % 256, |m.data| / 256 % 256, |m.data| % 256, m.typeID % 256]
  {
    BE3(|m.data|);
    OneLow(m.typeID);
  }

  lemma OneLow(v: nat)
    ensures BE(v, 1) == [v % 256]
  {
    assert BE(v / 256, 0) == [];
  }

  // ------------------------------------------------------------------ chunks

  /** Where the chunk `k` of a message begins that is cut every `n` bytes. */
  function ChunkStart(m: Message, n: nat, k: nat): nat {
    if k == 0 then 0 else |Header(0, m)| + k * n + (k - 1) * |Header(3, m)|
  }

  function Chunk(m: Message, n: nat, k: nat): seq<byte>
    requires k * n <= |m.data|
  {
    Header(if k == 0 then 0 else 3, m) + m.data[k * n..Min(k * n + n, |m.data|)]
  }

  lemma ChunkIs(m: Message, n: nat, k: nat, start: nat)
    requires start == k * n && start <= |m.data| && n >= 1
    ensures ChunkAt(m, n, start) == Chunk(m, n, k)
  {
    hide OpeningHeader, ContinuingHeader, Header;
    assert k * n == 0 <==> k == 0;
    SameHeader(m);
  }

  /** What stands in front of the chunk `k`. */
  lemma {:induction false} InFront(m: Message, n: nat, k: nat) returns (front: seq<byte>)
    requires n >= 1 && (k == 0 || (k - 1) * n < |m.data|)
    ensures ChunksFrom(m, n, 0) == front + ChunksFrom(m, n, k * n)
    ensures k * n <= |m.data| ==> |front| == ChunkStart(m, n, k)
  {
    hide Header, ChunkAt, ChunksFrom, ChunkStart;
    if k == 0 {
      front := [];
      NoneBefore(m, n);
    } else {
      Before(n, k);
      var before := InFront(m, n, k - 1);
      front := Further(m, n, k - 1, (k - 1) * n, before);
    }
  }

  lemma NoneBefore(m: Message, n: nat)
    ensures ChunkStart(m, n, 0) == 0 == 0 * n
  {
  }

  lemma Further(m: Message, n: nat, k: nat, start: nat, before: seq<byte>) returns (front: seq<byte>)
    requires n >= 1 && start == k * n && start < |m.data| && |before| == ChunkStart(m, n, k)
    requires ChunksFrom(m, n, 0) == before + ChunksFrom(m, n, start)
    ensures ChunksFrom(m, n, 0) == front + ChunksFrom(m, n, start + n)
    ensures start + n <= |m.data| ==> |front| == ChunkStart(m, n, k + 1)
  {
    hide Header, ChunkAt, ChunksFrom, ChunkStart, Chunk;
    FirstOf(m, n, k, start);
    var c := Chunk(m, n, k);
    PlusAssoc(before, c, ChunksFrom(m, n, start + n));
    front := before + c;
    if start + n <= |m.data| {
      StartMoves(m, n, k, start);
    }
  }

  lemma Before(n: nat, k: nat)
    requires k >= 1
    ensures (k - 1) * n + n == k * n && (k > 1 ==> (k - 2) * n <= (k - 1) * n)
  {
  }

  lemma FirstOf(m: Message, n: nat, k: nat, start: nat)
    requires n >= 1 && start == k * n && start < |m.data|
    ensures ChunksFrom(m, n, start) == Chunk(m, n, k) + ChunksFrom(m, n, start + n)
  {
    hide Chunk, ChunkAt;
    ChunkIs(m, n, k, start);
  }

  lemma StartMoves(m: Message, n: nat, k: nat, start: nat)
    requires start == k * n && start + n <= |m.data|
    ensures ChunkStart(m, n, k) + |Chunk(m, n, k)| == ChunkStart(m, n, k + 1)
  {
    hide Header;
    if k > 0 { Sizes(k, |Header(3, m)|, n); }
  }

  lemma Sizes(k: nat, h: nat, n: nat)
    ensures (k + 1) * n == k * n + n && k * h == (k - 1) * h + h
  {
  }

  /**
    Main theorem. A message is cut every `n` bytes: the chunk `k` of it stands where the
    sizes of those in front of it put it and holds the payload from `k * n` on behind a
    header of type 0 if it is the first and of type 3 otherwise, and the last chunk ends
    the encoding.
   */
  lemma ChunkLayout(m: Message, n: nat, k: nat)
    requires n >= 1 && k * n < |m.data|
    ensures var wire, at, c := EncodeMessage(m, n), ChunkStart(Routed(m), n, k), Chunk(Routed(m), n, k);
            && at + |c| <= |wire| && wire[at..at + |c|] == c
            && (k * n + n >= |m.data| ==> at + |c| == |wire|)
  {
    hide Header, Chunk, ChunksFrom, ChunkStart, Routed;
    var r, start := Routed(m), k * n;
    SameData(m);
    if k > 0 { Before(n, k); }
    var front := InFront(r, n, k);
    FirstOf(r, n, k, start);
    var c, rest := Chunk(r, n, k), ChunksFrom(r, n, start + n);
    if start + n >= |m.data| { Exhausted(r, n, start + n); }
    Within(front, c, rest);
  }

  lemma SameData(m: Message)
    ensures Routed(m).data == m.data
  {
  }

  lemma Exhausted(m: Message, n: nat, start: nat)
    requires n >= 1 && start >= |m.data|
    ensures ChunksFrom(m, n, start) == []
  {
  }

  lemma Within(a: seq<byte>, b: seq<byte>, c: seq<byte>)
    ensures (a + (b + c))[|a|..|a| + |b|] == b
  {
  }

  // ----------------------------------------------------- unfinished messages

  /**
    A header of another type than 3 is refused while the message before it on the stream
    is unfinished. Behind one of type 3 the payload goes on at once, but where the message
    has an extended timestamp the next four bytes are taken for it if they are equal to
    it, and for payload if they are not.
   */
  lemma UnfinishedGoesOn(p: Peer, format: nat, key: nat, rest: seq<byte>)
    requires format < 4 && 2 <= key < 64 && StreamOf(p.streams, key).remain > 0
    ensures var r := ReadStep(p, Input([format * 64 + key] + rest, false));
            var cs := StreamOf(p.streams, key);
            var skipped := if cs.exted && |rest| >= 4 && FromBE(rest[..4]) == cs.timestamp then 4 else 0;
            var n := if cs.remain <= p.remoteChunkSize then cs.remain else p.remoteChunkSize;
            if format != 3 || (cs.exted && |rest| < 4) || |rest| < skipped + n then r.StepRefused? && r.key == key
            else r.Stepped? && r.key == key && r.input == Input(rest[skipped + n..], false) &&
                 r.stream.data == cs.data + rest[skipped..skipped + n] && r.stream.remain == cs.remain - n &&
                 (r.stream.got <==> r.stream.remain == 0 || cs.got) && r.stream.timestamp == cs.timestamp
  {
    FirstByte(p, format, key, rest);
    hide ReadStep, FromBE;
    var cs := StreamOf(p.streams, key);
    InTheMiddle(cs, format, key, p.remoteChunkSize, rest);
    if format == 3 {
      GoesOn(cs.(csid := key), p.remoteChunkSize, rest);
      hide ContinuePayload;
    }
  }

  lemma FirstByte(p: Peer, format: nat, key: nat, rest: seq<byte>)
    requires format < 4 && key < 64
    ensures var r := ReadChunk(StreamOf(p.streams, key), format, key, p.remoteChunkSize, Input(rest, false));
            ReadStep(p, Input([format * 64 + key] + rest, false)) ==
            if r.Refused? then StepRefused(key, r.input)
            else if r.Panicked? then StepPanicked
            else Stepped(key, r.stream, r.input)
  {
    hide ReadBE, BE, Pow256, ReadChunk, StreamOf;
    OneLow(format * 64 + key);
    Pow256Values();
    ReadBEPrefix(format * 64 + key, 1, rest);
  }

  lemma InTheMiddle(cs: Stream, format: nat, key: nat, chunkSize: nat, rest: seq<byte>)
    requires format < 4 && 2 <= key < 64 && cs.remain > 0
    ensures ReadChunk(cs, format, key, chunkSize, Input(rest, false)) ==
            if format == 3 then ContinuePayload(cs.(csid := key), chunkSize, Input(rest, false)) else Refused(Input(rest, false))
  {
    hide ReadFields, StartPayload, ContinuePayload, ReadLE;
  }

  lemma GoesOn(cs: Stream, chunkSize: nat, rest: seq<byte>)
    requires cs.remain > 0
    ensures var c := ContinuePayload(cs, chunkSize, Input(rest, false));
            var skipped := if cs.exted && |rest| >= 4 && FromBE(rest[..4]) == cs.timestamp then 4 else 0;
            var n := Min(cs.remain, chunkSize);
            if (cs.exted && |rest| < 4) || |rest| < skipped + n then c.Refused?
            else c.Accepted? && c.input == Input(rest[skipped + n..], false) &&
                 c.stream.data == cs.data + rest[skipped..skipped + n] && c.stream.remain == cs.remain - n &&
                 (c.stream.got <==> c.stream.remain == 0 || cs.got) && c.stream.timestamp == cs.timestamp
  {
    hide FromBE;
    if |rest| >= 4 {
      var n := Min(cs.remain, chunkSize);
      if |rest| >= 4 + n {
        assert rest[4..][..n] == rest[4..4 + n] && rest[4..][n..] == rest[4 + n..];
      }
    }
  }

  // ---------------------------------------------------------------- controls

  /**
    What a delivered message does to the connection: type 1 sets the size at which the
    peer's chunks are read and type 5 the window, each from its first four bytes, and no
    other message does either. Of the messages that are complete, just these two crash the
    reader, if they have fewer.
   */
  lemma {:induction false} ControlHeard(p: Peer, i: Input)
    ensures var r := Read(p, i);
            r.Delivered? ==>
              var cs, q := r.stream, r.peer;
              && q.remoteChunkSize == (if cs.typeID == 1 then FromBE(cs.data[..Min(4, |cs.data|)]) else p.remoteChunkSize)
              && q.window == (if cs.typeID == 5 then FromBE(cs.data[..Min(4, |cs.data|)]) else p.window)
              && (cs.typeID == 1 || cs.typeID == 5 ==> |cs.data| >= 4)
    ensures var s := ReadStep(p, i);
            s.Stepped? && s.stream.got ==>
              (Read(p, i).ReadPanic? <==> (s.stream.typeID == 1 || s.stream.typeID == 5) && |s.stream.data| < 4)
    decreases |i.rest|
  {
    hide ReadStep, FromBE;
    var r := ReadStep(p, i);
    if r.Stepped? && !r.stream.got {
      ControlHeard(p.(streams := p.streams[r.key := r.stream]), r.input);
    }
  }

  /**
    The reader crashes on the header of a message exactly when it announces more than
    512000 bytes, the most the pool can hand out, whatever follows the header.
   */
  lemma TooLongPanicsIff(p: Peer, m: Message, tail: seq<byte>)
    requires |m.data| < 0x100_0000 && 2 <= m.csid < 65600 && m.typeID < 256
    requires StreamOf(p.streams, Key(m.csid)).remain == 0
    ensures ReadStep(p, Input(Header(0, m) + tail, false)).StepPanicked? <==> |m.data| > 512000
    ensures |m.data| > 512000 ==> Read(p, Input(Header(0, m) + tail, false)).ReadPanic?
  {
    hide OpeningHeader, ReadBE, StartPayload;
    assert Header(0, m) == OpeningHeader(m) by { SameHeader(m); }
    var cs := StreamOf(p.streams, Key(m.csid));
    ReadOpening(cs, m, p.remoteChunkSize, tail);
    StartPanicsIff(Opened(cs, m), p.remoteChunkSize, Input(tail, false));
  }

  lemma SameHeader(m: Message)
    ensures Header(0, m) == OpeningHeader(m)
    ensures Header(3, m) == ContinuingHeader(m)
  {
    hide BE, LE, BasicHeader, ExtendedTimestamp;
    var b, time, kind, ext := BasicHeader(0, m.csid), BE(Min(m.timestamp, EXTENDED), 3), BE(|m.data|, 3) + BE(m.typeID, 1), ExtendedTimestamp(m.timestamp);
    var id := LE(m.streamID, 4);
    PlusAssoc(b, time, kind + id);
    PlusAssoc(b + time, kind, id);
    PlusAssoc(b + time, BE(|m.data|, 3), BE(m.typeID, 1));
    assert BasicHeader(3, m.csid) + [] == BasicHeader(3, m.csid);
  }

  lemma StartPanicsIff(cs: Stream, chunkSize: nat, i: Input)
    ensures StartPayload(cs, chunkSize, i).Panicked? <==> cs.length > 512000
  {
  }
}
