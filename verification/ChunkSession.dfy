/**
  Whole messages written one after the other with `Conn.Write`, and what the
  peer reads: the session round trip, and exactly when an announced chunk size
  is understood.
 */
module ChunkSession {
  import opened Bytes
  import opened ChunkFormat
  import opened ChunkProtocol

  /** `Conn.Write` adopts an announced chunk size before it writes the announcement. */
  function WriteSize(chunkSize: nat, m: Message): nat
    requires m.typeID == ID_SET_CHUNK_SIZE ==> |m.data| >= 4
  {
    if m.typeID == ID_SET_CHUNK_SIZE then FromBE(m.data[..4]) else chunkSize
  }

  /** What `Conn.Write` accepts: the control messages carry their value, everything else may be empty. */
  predicate Writable(m: Message) {
    if m.data == [] then m.typeID != ID_SET_CHUNK_SIZE else Sendable(Routed(m))
  }

  /** The announcement is cut into the same chunks at the old and at the new size. */
  predicate SameCut(chunkSize: nat, m: Message)
    requires Writable(m)
  {
    Min(WriteSize(chunkSize, m), |m.data|) == Min(chunkSize, |m.data|)
  }

  predicate Writes(chunkSize: nat, ms: seq<Message>)
    decreases |ms|
  {
    chunkSize >= 1 &&
    (ms == [] || (Writable(ms[0]) && SameCut(chunkSize, ms[0]) && Writes(WriteSize(chunkSize, ms[0]), ms[1..])))
  }

  /** The bytes of successive `Conn.Write` calls. */
  function WriteAll(chunkSize: nat, ms: seq<Message>): seq<byte>
    requires Writes(chunkSize, ms)
    decreases |ms|
  {
    if ms == [] then []
    else EncodeMessage(ms[0], WriteSize(chunkSize, ms[0])) + WriteAll(WriteSize(chunkSize, ms[0]), ms[1..])
  }

  function FinalSize(chunkSize: nat, ms: seq<Message>): nat
    requires Writes(chunkSize, ms)
    decreases |ms|
  {
    if ms == [] then chunkSize else FinalSize(WriteSize(chunkSize, ms[0]), ms[1..])
  }

  /** The messages that reach the wire: the empty ones never do. */
  function Sent(ms: seq<Message>): seq<Message> {
    if ms == [] then [] else (if ms[0].data == [] then [] else [Routed(ms[0])]) + Sent(ms[1..])
  }

  function NonEmpty(ms: seq<Message>): seq<Message> {
    if ms == [] then [] else (if ms[0].data == [] then [] else [ms[0]]) + NonEmpty(ms[1..])
  }

  /** `s` is `m` on the chunk stream that its type has: audio on 4, video and scripts on 6, all else where it was put. */
  predicate OnItsStream(s: Message, m: Message) {
    && s.timestamp == m.timestamp && s.typeID == m.typeID && s.streamID == m.streamID && s.data == m.data
    && s.csid == if m.typeID == 8 then 4 else if m.typeID in {9, 15, 18} then 6 else m.csid
  }

  /** What reaches the peer is every message that is not empty, in order, on the chunk stream of its type. */
  lemma {:induction false} SentIs(ms: seq<Message>)
    ensures |Sent(ms)| == |NonEmpty(ms)| && forall k :: 0 <= k < |Sent(ms)| ==> OnItsStream(Sent(ms)[k], NonEmpty(ms)[k])
    decreases |ms|
  {
    if ms != [] {
      SentIs(ms[1..]);
      assert OnItsStream(Routed(ms[0]), ms[0]);
      hide OnItsStream, Routed;
      var first := if ms[0].data == [] then 0 else 1;
      forall k | 0 <= k < |Sent(ms)| ensures OnItsStream(Sent(ms)[k], NonEmpty(ms)[k]) {
        if k >= first {
          assert Sent(ms)[k] == Sent(ms[1..])[k - first] && NonEmpty(ms)[k] == NonEmpty(ms[1..])[k - first];
        }
      }
    }
  }

  // --------------------------------------------------- one message is a run

  function StepsFrom(m: Message, chunkSize: nat, start: nat): seq<Step>
    requires chunkSize >= 1
    decreases |m.data| - start
  {
    [if start == 0 then Open(m) else Continue(Key(m.csid))] +
    if start + chunkSize >= |m.data| then [] else StepsFrom(m, chunkSize, start + chunkSize)
  }

  function SenderAt(m: Message, chunkSize: nat, start: nat): Sender {
    Sender(chunkSize, if start == 0 then map[] else map[Key(m.csid) := Pending(m, start)])
  }

  lemma {:induction false} MessageIsRun(m: Message, chunkSize: nat, start: nat)
    requires Sendable(m) && chunkSize >= 1 && start < |m.data|
    ensures var s, steps := SenderAt(m, chunkSize, start), StepsFrom(m, chunkSize, start);
            && Run(s, steps) && Wire(s, steps) == ChunksFrom(m, chunkSize, start)
            && Completed(s, steps) == [m] && Final(s, steps) == Sender(SizeAfter(chunkSize, m), map[])
    decreases |m.data| - start
  {
    hide ChunkAt, Sendable, SizeAfter;
    var s, steps := SenderAt(m, chunkSize, start), StepsFrom(m, chunkSize, start);
    var next := start + chunkSize;
    assert Enabled(s, steps[0]);
    if next >= |m.data| {
      assert steps[1..] == [];
      assert Next(s, steps[0]).pending == map[];
      assert ChunksFrom(m, chunkSize, next) == [];
    } else {
      MessageIsRun(m, chunkSize, next);
      assert steps[1..] == StepsFrom(m, chunkSize, next);
      assert Next(s, steps[0]) == SenderAt(m, chunkSize, next);
    }
  }

  lemma StepFirst(s: Sender, step: Step, rest: seq<Step>)
    requires Enabled(s, step) && Run(Next(s, step), rest)
    ensures var steps := [step] + rest;
            var s1 := Next(s, step);
            && Run(s, steps) && Wire(s, steps) == Emit(s, step) + Wire(s1, rest)
            && Completed(s, steps) == (if Completes(s, step) then [At(s, step).m] else []) + Completed(s1, rest)
            && Final(s, steps) == Final(s1, rest)
  {
    hide Enabled, Next, Emit, Completes, At;
    assert ([step] + rest)[1..] == rest;
  }

  lemma {:induction false} RunsCompose(s: Sender, a: seq<Step>, b: seq<Step>)
    requires Run(s, a) && Run(Final(s, a), b)
    ensures Run(s, a + b)
    ensures Wire(s, a + b) == Wire(s, a) + Wire(Final(s, a), b)
    ensures Completed(s, a + b) == Completed(s, a) + Completed(Final(s, a), b)
    ensures Final(s, a + b) == Final(Final(s, a), b)
    decreases |a|
  {
    hide Emit, Next, Enabled, Completes, At, Run, Wire, Completed, Final;
    if a == [] {
      EmptyRun(s);
      assert a + b == b;
    } else {
      FirstStep(s, a);
      var s1 := Next(s, a[0]);
      RunsCompose(s1, a[1..], b);
      assert a + b == [a[0]] + (a[1..] + b);
      StepFirst(s, a[0], a[1..] + b);
    }
  }

  lemma FirstStep(s: Sender, steps: seq<Step>)
    requires Run(s, steps) && steps != []
    ensures Enabled(s, steps[0]) && Run(Next(s, steps[0]), steps[1..])
    ensures var s1 := Next(s, steps[0]);
            && Wire(s, steps) == Emit(s, steps[0]) + Wire(s1, steps[1..])
            && Completed(s, steps) == (if Completes(s, steps[0]) then [At(s, steps[0]).m] else []) + Completed(s1, steps[1..])
            && Final(s, steps) == Final(s1, steps[1..])
  {
  }

  lemma SameChunks(m: Message, c1: nat, c2: nat)
    requires c1 >= 1 && c2 >= 1 && Min(c1, |m.data|) == Min(c2, |m.data|)
    ensures ChunksFrom(m, c1, 0) == ChunksFrom(m, c2, 0)
  {
    if c1 != c2 && m.data != [] {
      assert ChunksFrom(m, c1, c1) == [] == ChunksFrom(m, c2, c2);
    }
  }

  function SessionSteps(chunkSize: nat, ms: seq<Message>): seq<Step>
    requires Writes(chunkSize, ms)
    decreases |ms|
  {
    if ms == [] then []
    else
      (if ms[0].data == [] then [] else StepsFrom(Routed(ms[0]), chunkSize, 0)) +
      SessionSteps(WriteSize(chunkSize, ms[0]), ms[1..])
  }

  lemma {:induction false} SessionIsRun(chunkSize: nat, ms: seq<Message>)
    requires Writes(chunkSize, ms)
    ensures var s, steps := Sender(chunkSize, map[]), SessionSteps(chunkSize, ms);
            && Run(s, steps) && Wire(s, steps) == WriteAll(chunkSize, ms)
            && Completed(s, steps) == Sent(ms) && Final(s, steps) == Sender(FinalSize(chunkSize, ms), map[])
    decreases |ms|
  {
    hide Run, Wire, Completed, Final, ChunksFrom, StepsFrom;
    if ms == [] {
      EmptyRun(Sender(chunkSize, map[]));
    } else {
      var m := ms[0];
      var size := WriteSize(chunkSize, m);
      var rest := SessionSteps(size, ms[1..]);
      SessionIsRun(size, ms[1..]);
      if m.data == [] {
        assert [] + rest == rest;
        assert EncodeMessage(m, size) == [] by { NothingForEmpty(m, size); }
      } else {
        MessageIsRun(Routed(m), chunkSize, 0);
        SameChunks(Routed(m), size, chunkSize);
        RunsCompose(Sender(chunkSize, map[]), StepsFrom(Routed(m), chunkSize, 0), rest);
      }
    }
  }

  lemma EmptyRun(s: Sender)
    ensures Run(s, []) && Wire(s, []) == [] && Completed(s, []) == [] && Final(s, []) == s
  {
  }

  lemma NothingForEmpty(m: Message, chunkSize: nat)
    requires m.data == [] && chunkSize >= 1
    ensures EncodeMessage(m, chunkSize) == []
  {
  }

  /**
    Main theorem. The peer of a connection reads exactly the non-empty messages
    written, in order, with the chunk stream ids the writer chose, and ends up
    with the writer's chunk size.
   */
  lemma SessionRoundTrip(chunkSize: nat, ms: seq<Message>, p: Peer)
    requires Writes(chunkSize, ms) && Agree(Sender(chunkSize, map[]), p)
    ensures var all := ReadAll(p, Input(WriteAll(chunkSize, ms), false));
            && !all.panicked && AllAre(all.delivered, Sent(ms))
            && all.last.remoteChunkSize == FinalSize(chunkSize, ms)
  {
    hide ReadAll, AllAre, WriteAll, Wire, Completed, Final, SessionSteps, Run;
    SessionIsRun(chunkSize, ms);
    RunDelivered(Sender(chunkSize, map[]), SessionSteps(chunkSize, ms), p);
  }

  // ------------------------------------------------------ truncated sessions

  /** How many of the messages are written whole within the first `n` bytes. */
  function MessagesWithin(chunkSize: nat, ms: seq<Message>, n: nat): (j: nat)
    requires Writes(chunkSize, ms)
    ensures j <= |ms|
    decreases |ms|
  {
    if ms == [] || |EncodeMessage(ms[0], WriteSize(chunkSize, ms[0]))| > n then 0
    else
      var size := WriteSize(chunkSize, ms[0]);
      1 + MessagesWithin(size, ms[1..], n - |EncodeMessage(ms[0], size)|)
  }

  /** `MessagesWithin` counts what its name says: so many messages fit, and one more does not. */
  lemma {:induction false} MessagesWithinExact(chunkSize: nat, ms: seq<Message>, n: nat)
    requires Writes(chunkSize, ms)
    ensures var j := MessagesWithin(chunkSize, ms, n);
            && Writes(chunkSize, ms[..j]) && |WriteAll(chunkSize, ms[..j])| <= n
            && (j < |ms| ==> Writes(chunkSize, ms[..j + 1]) && |WriteAll(chunkSize, ms[..j + 1])| > n)
    decreases |ms|
  {
    hide EncodeMessage, SameCut;
    if ms != [] {
      var size := WriteSize(chunkSize, ms[0]);
      var j := MessagesWithin(chunkSize, ms, n);
      if |EncodeMessage(ms[0], size)| <= n {
        MessagesWithinExact(size, ms[1..], n - |EncodeMessage(ms[0], size)|);
        assert ms[..j][1..] == ms[1..][..j - 1];
        if j < |ms| {
          assert ms[..j + 1][1..] == ms[1..][..j];
        }
      } else {
        assert ms[..1][1..] == [] && Writes(size, []);
      }
    }
  }

  /**
    Every cut of the bytes of a session delivers exactly the messages that lie within
    it as a whole, and then an error: nothing of the message that was cut.
   */
  lemma SessionTruncated(chunkSize: nat, ms: seq<Message>, p: Peer, n: nat)
    requires Writes(chunkSize, ms) && Agree(Sender(chunkSize, map[]), p)
    requires n <= |WriteAll(chunkSize, ms)|
    ensures var all := ReadAll(p, Input(WriteAll(chunkSize, ms)[..n], false));
            !all.panicked && AllAre(all.delivered, Sent(ms[..MessagesWithin(chunkSize, ms, n)]))
  {
    hide ReadAll, AllAre, WriteAll, Wire, Final, SessionSteps, ChunksWithin, MessagesWithin, Agree, Completed, Sent;
    var s, steps := Sender(chunkSize, map[]), SessionSteps(chunkSize, ms);
    SessionIsRun(chunkSize, ms);
    DeliveredWithin(s, steps, p, n);
    SessionWithin(chunkSize, ms, n);
  }

  /** The whole chunks of a cut complete just the whole messages. */
  lemma {:induction false} SessionWithin(chunkSize: nat, ms: seq<Message>, n: nat)
    requires Writes(chunkSize, ms)
    ensures var s, steps := Sender(chunkSize, map[]), SessionSteps(chunkSize, ms);
            Run(s, steps) &&
            var k := ChunksWithin(s, steps, n);
            Run(s, steps[..k]) && Completed(s, steps[..k]) == Sent(ms[..MessagesWithin(chunkSize, ms, n)])
    decreases |ms|
  {
    hide Run, Wire, Completed, Final, StepsFrom, ChunksWithin, EncodeMessage, SameCut, Sent;
    var s := Sender(chunkSize, map[]);
    SessionIsRun(chunkSize, ms);
    if ms == [] {
      NothingWithin(s, n);
    } else {
      var m, more := ms[0], ms[1..];
      var size := WriteSize(chunkSize, m);
      var rest := SessionSteps(size, more);
      if m.data == [] {
        assert [] + rest == rest;
        NothingForEmpty(m, size);
        SessionWithin(size, more, n);
        FirstSent(ms, MessagesWithin(size, more, n));
      } else {
        var a := StepsFrom(Routed(m), chunkSize, 0);
        FirstMessage(chunkSize, m);
        SessionIsRun(size, more);
        WithinConcat(s, a, rest, n);
        hide Writes, Writable, SessionSteps, Sendable, Routed;
        if |Wire(s, a)| <= n {
          var n1 := n - |Wire(s, a)|;
          SessionWithin(size, more, n1);
          var k := ChunksWithin(Sender(size, map[]), rest, n1);
          RunsCompose(s, a, rest[..k]);
          assert (a + rest)[..|a| + k] == a + rest[..k];
          FirstSent(ms, MessagesWithin(size, more, n1));
        } else {
          var k := ChunksWithin(s, a, n);
          NotYet(Routed(m), chunkSize, 0, k);
          assert (a + rest)[..k] == a[..k];
          NoneSent(ms);
        }
      }
    }
  }

  /** The chunks of the first message are a run of their own. */
  lemma FirstMessage(chunkSize: nat, m: Message)
    requires chunkSize >= 1 && Writable(m) && SameCut(chunkSize, m) && m.data != []
    ensures var s, a := Sender(chunkSize, map[]), StepsFrom(Routed(m), chunkSize, 0);
            var size := WriteSize(chunkSize, m);
            && Sendable(Routed(m)) && Run(s, a) && Completed(s, a) == [Routed(m)] && Final(s, a) == Sender(size, map[])
            && size >= 1 && Wire(s, a) == EncodeMessage(m, size)
  {
    hide Run, Wire, Completed, Final, ChunksFrom, StepsFrom;
    MessageIsRun(Routed(m), chunkSize, 0);
    SameChunks(Routed(m), WriteSize(chunkSize, m), chunkSize);
  }

  lemma NoneSent(ms: seq<Message>)
    ensures Sent(ms[..0]) == []
  {
  }

  lemma NothingWithin(s: Sender, n: nat)
    ensures Run(s, []) && ChunksWithin(s, [], n) == 0 && Completed(s, []) == []
  {
  }

  lemma FirstSent(ms: seq<Message>, j: nat)
    requires ms != [] && j < |ms|
    ensures Sent(ms[..1 + j]) == (if ms[0].data == [] then [] else [Routed(ms[0])]) + Sent(ms[1..][..j])
  {
    assert ms[..1 + j][1..] == ms[1..][..j];
  }

  /** The chunks within a cut of two runs in a row: all of the first and some of the second, or not all of the first. */
  lemma {:induction false} WithinConcat(s: Sender, a: seq<Step>, b: seq<Step>, n: nat)
    requires Run(s, a) && Run(Final(s, a), b)
    ensures Run(s, a + b)
    ensures var k := ChunksWithin(s, a + b, n);
            if |Wire(s, a)| <= n then k == |a| + ChunksWithin(Final(s, a), b, n - |Wire(s, a)|)
            else k == ChunksWithin(s, a, n) < |a|
    decreases |a|
  {
    hide Emit, Next, Enabled, Completes, At, Completed;
    RunsCompose(s, a, b);
    if a == [] {
      assert a + b == b;
    } else {
      WithinConcat(Next(s, a[0]), a[1..], b, if n < |Emit(s, a[0])| then 0 else n - |Emit(s, a[0])|);
      assert (a + b)[1..] == a[1..] + b;
    }
  }

  /** No message is complete before its last chunk. */
  lemma {:induction false} NotYet(m: Message, chunkSize: nat, start: nat, k: nat)
    requires Sendable(m) && chunkSize >= 1 && start < |m.data| && k < |StepsFrom(m, chunkSize, start)|
    ensures var s, steps := SenderAt(m, chunkSize, start), StepsFrom(m, chunkSize, start);
            Run(s, steps[..k]) && Completed(s, steps[..k]) == []
    decreases |m.data| - start
  {
    hide ChunkAt, Sendable, SizeAfter;
    var s, steps := SenderAt(m, chunkSize, start), StepsFrom(m, chunkSize, start);
    var next := start + chunkSize;
    if k > 0 {
      assert Enabled(s, steps[0]) && next < |m.data|;
      assert steps[1..] == StepsFrom(m, chunkSize, next);
      assert Next(s, steps[0]) == SenderAt(m, chunkSize, next);
      NotYet(m, chunkSize, next, k - 1);
      assert steps[..k][1..] == steps[1..][..k - 1];
    }
  }

  /** Announcements of four bytes and at least four are always cut alike, so such sessions are covered. */
  lemma {:induction false} FourByteAnnouncements(chunkSize: nat, ms: seq<Message>)
    requires chunkSize >= 4
    requires forall m :: m in ms ==> Writable(m)
    requires forall m :: m in ms && m.typeID == ID_SET_CHUNK_SIZE ==> |m.data| == 4 && FromBE(m.data) >= 4
    ensures Writes(chunkSize, ms)
    decreases |ms|
  {
    if ms != [] {
      assert ms[0] in ms;
      assert ms[0].typeID == ID_SET_CHUNK_SIZE ==> ms[0].data[..4] == ms[0].data;
      FourByteAnnouncements(WriteSize(chunkSize, ms[0]), ms[1..]);
    }
  }

  /**
    What two fresh connections promise each other: whatever messages are written, with
    announcements of four bytes and at least four among them, of any part of the bytes
    that arrives exactly the messages are read that lie in it as a whole.
   */
  lemma FreshConnections(ms: seq<Message>, n: nat)
    requires forall m :: m in ms ==> Writable(m)
    requires forall m :: m in ms && m.typeID == ID_SET_CHUNK_SIZE ==> |m.data| == 4 && FromBE(m.data) >= 4
    ensures Writes(128, ms)
    ensures n <= |WriteAll(128, ms)| ==>
              var all := ReadAll(NEW_PEER, Input(WriteAll(128, ms)[..n], false));
              !all.panicked && AllAre(all.delivered, Sent(ms[..MessagesWithin(128, ms, n)]))
  {
    hide Writable, ReadAll, WriteAll, AllAre, Sent, MessagesWithin, Writes;
    FourByteAnnouncements(128, ms);
    FreshAgree();
    if n <= |WriteAll(128, ms)| {
      SessionTruncated(128, ms, NEW_PEER, n);
    }
  }

  /** A fresh connection agrees with a fresh peer, both at 128 bytes. */
  lemma FreshAgree()
    ensures Agree(Sender(128, map[]), NEW_PEER)
  {
  }

  // ------------------------------------------ when an announcement is heard

  lemma FourBytes(d: seq<byte>)
    requires |d| == 4
    ensures FromBE(d) == d[0] as int * 0x100_0000 + d[1] as int * 0x1_0000 + d[2] as int * 0x100 + d[3] as int
  {
    assert d[..3][..2] == d[..2] && d[..2][..1] == d[..1] && d[..1][..0] == [];
    assert FromBE(d[..1]) == d[0];
    assert FromBE(d[..2]) == FromBE(d[..1]) * 256 + d[1];
    assert FromBE(d[..3]) == FromBE(d[..2]) * 256 + d[2];
  }

  /** The four payload bytes a reader takes when the announcement was cut below four bytes. */
  lemma HeardTooEarly(m: Message, n: nat)
    requires Sendable(m) && |m.data| == 4 && 1 <= n < 4
    ensures var wire := ChunksFrom(m, n, 0);
            var h := OpeningHeader(m);
            && |wire| >= |h| + 4 && wire == h + wire[|h|..]
            && wire[|h|..|h| + 4][n] == 192 + Key(m.csid)
  {
    hide OpeningHeader, ContinuingHeader, ChunksFrom, ChunkAt;
    var h, c, tail := OpeningHeader(m), ContinuingHeader(m), ChunksFrom(m, n, n);
    ContinuingStarts(m);
    FirstTwo(m, n);
    var first, last := m.data[0..n], m.data[n..Min(2 * n, 4)];
    var more := if n == 1 then ContinuingHeader(m) else [];
    var rest :| tail == c + last + rest && more <= rest;
    assert |c + last + rest| >= 4 - n;
    assert (h + first + (c + last + rest))[|h|..][n] == c[0];
  }

  lemma ContinuingStarts(m: Message)
    requires 2 <= m.csid < 65600
    ensures var c := ContinuingHeader(m); |c| >= 1 && c[0] == 192 + Key(m.csid)
  {
    hide LE, BE;
  }

  /** A message of four bytes cut below four: its first chunk and the start of the next. */
  lemma FirstTwo(m: Message, n: nat)
    requires |m.data| == 4 && 1 <= n < 4
    ensures ChunksFrom(m, n, 0) == OpeningHeader(m) + m.data[0..n] + ChunksFrom(m, n, n)
    ensures exists rest :: ChunksFrom(m, n, n) == ContinuingHeader(m) + m.data[n..Min(2 * n, 4)] + rest &&
                           (if n == 1 then ContinuingHeader(m) else []) <= rest
  {
    hide OpeningHeader, ContinuingHeader;
    var rest := ChunksFrom(m, n, n + n);
    assert ChunksFrom(m, n, n) == ContinuingHeader(m) + m.data[n..Min(2 * n, 4)] + rest;
    if n == 1 {
      assert rest == ChunkAt(m, 1, 2) + ChunksFrom(m, 1, 3);
    }
  }

  /**
    Both sides use the same size after the announcement exactly when the size
    is at least four: below that the writer already cuts the announcement
    itself at the new size, and the reader takes a chunk header for payload.
   */
  lemma AnnouncementHeardIff(p: Peer, chunkSize: nat, m: Message)
    requires Agree(Sender(chunkSize, map[]), p) && chunkSize >= 4
    requires Sendable(m) && m.typeID == ID_SET_CHUNK_SIZE && |m.data| == 4
    ensures var n := FromBE(m.data[..4]);
            var r := Read(p, Input(EncodeMessage(m, n), false));
            r.Delivered? && (r.peer.remoteChunkSize == n <==> n >= 4)
  {
    hide OpeningHeader, ContinuingHeader, ReadChunk;
    var n := FromBE(m.data);
    assert m.data[..4] == m.data;
    var wire := ChunksFrom(m, n, 0);
    var h := OpeningHeader(m);
    if n >= 4 {
      assert wire == h + m.data by { assert ChunksFrom(m, n, n) == []; assert m.data[0..4] == m.data; }
    } else {
      HeardTooEarly(m, n);
    }
    var d := wire[|h|..|h| + 4];
    assert wire == h + (d + wire[|h| + 4..]);
    ReadAnnouncement(p, m, d, wire[|h| + 4..]);
    FourBytes(d);
    FourBytes(m.data);
  }

  /** Whatever four bytes follow the header are taken for the new size. */
  lemma ReadAnnouncement(p: Peer, m: Message, d: seq<byte>, tail: seq<byte>)
    requires Agree(Sender(p.remoteChunkSize, map[]), p) && p.remoteChunkSize >= 4
    requires Sendable(m) && m.typeID == ID_SET_CHUNK_SIZE && |m.data| == 4 && |d| == 4
    ensures var r := Read(p, Input(OpeningHeader(m) + (d + tail), false));
            r.Delivered? && r.peer.remoteChunkSize == FromBE(d)
  {
    hide OpeningHeader, ReadChunk, Agree, ReadPayload, FromBE;
    var cs := StreamOf(p.streams, Key(m.csid));
    assert cs.remain == 0 by { IdleStreams(p, Key(m.csid)); }
    ReadOpening(cs, m, p.remoteChunkSize, d + tail);
    ReadPart(Opened(cs, m).(got := false, remain := 4, data := []), p.remoteChunkSize, d, tail);
    assert ([] + d)[..4] == d;
  }

  lemma IdleStreams(p: Peer, key: nat)
    requires Agree(Sender(p.remoteChunkSize, map[]), p)
    ensures StreamOf(p.streams, key).remain == 0
  {
  }
}
