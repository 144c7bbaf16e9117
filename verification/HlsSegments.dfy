/**
  The bytes of a segment: the two tables and then the packets of its frames; and
  what a demultiplexer gets back from them.
 */
module HlsSegments {
  import opened Bytes
  import opened HlsWindow
  import opened TsFormat
  import opened TsTables
  import opened TsDemux
  import opened Hls

  type Cc = n: nat | n < 16

  /** The muxer's continuity counters. */
  datatype Ccs = Ccs(video: Cc, audio: Cc, pat: bv8, pmt: bv8) {
    function Of(isVideo: bool): Cc {
      if isVideo then video else audio
    }
  }

  function AsBytes(s: seq<bv8>): (b: seq<byte>)
    ensures |b| == |s| && forall k :: 0 <= k < |s| ==> b[k] == s[k] as byte
  {
    seq(|s|, i requires 0 <= i < |s| => s[i] as byte)
  }

  function PatBytes(c: Ccs): seq<byte> {
    AsBytes(TablePacket(0x40, 0x00, c.pat, PAT_SECTION))
  }

  function PmtBytes(c: Ccs): seq<byte> {
    AsBytes(TablePacket(0x50, 0x01, c.pmt, PmtSection(SOUND_AAC, true)))
  }

  function AfterTables(c: Ccs): Ccs {
    c.(pat := NextTableCc(c.pat), pmt := NextTableCc(c.pmt))
  }

  function AfterFrame(c: Ccs, f: Frame): Ccs {
    var cc := Muxed(f, c.Of(f.isVideo)).1;
    if f.isVideo then c.(video := cc) else c.(audio := cc)
  }

  /** Frame after frame. */
  function MuxedAll(c: Ccs, frames: seq<Frame>): seq<byte>
    decreases |frames|
  {
    if frames == [] then [] else Muxed(frames[0], c.Of(frames[0].isVideo)).0 + MuxedAll(AfterFrame(c, frames[0]), frames[1..])
  }

  function AfterFrames(c: Ccs, frames: seq<Frame>): Ccs
    decreases |frames|
  {
    if frames == [] then c else AfterFrames(AfterFrame(c, frames[0]), frames[1..])
  }

  /** One packet of each table, and the packets of the frames. */
  function SegmentBytes(c: Ccs, frames: seq<Frame>): seq<byte> {
    PatBytes(c) + PmtBytes(c) + MuxedAll(AfterTables(c), frames)
  }

  lemma {:induction false} MuxedAllSnoc(c: Ccs, frames: seq<Frame>, f: Frame)
    ensures MuxedAll(c, frames + [f]) == MuxedAll(c, frames) + Muxed(f, AfterFrames(c, frames).Of(f.isVideo)).0
    ensures AfterFrames(c, frames + [f]) == AfterFrame(AfterFrames(c, frames), f)
    decreases |frames|
  {
    hide Muxed, AfterFrame;
    if frames == [] {
      assert [f][1..] == [] && [] + [f] == [f];
      assert MuxedAll(c, [f]) == Muxed(f, c.Of(f.isVideo)).0 + [];
    } else {
      MuxedAllSnoc(AfterFrame(c, frames[0]), frames[1..], f);
      assert (frames + [f])[1..] == frames[1..] + [f];
    }
  }

  // ---------------------------------------------------------- demultiplexing

  /** The PES packets of one kind of frame. */
  function PesOf(frames: seq<Frame>, isVideo: bool): seq<seq<byte>> {
    if frames == [] then []
    else (if frames[0].isVideo == isVideo then [Pes(frames[0])] else []) + PesOf(frames[1..], isVideo)
  }

  lemma CounterRange(cc: bv8)
    ensures 0x10 <= (0x10 | (cc & 0x0f)) as int <= 0x1f
  {
    var x := 0x10 | (cc & 0x0f);
    assert 0x10 <= x <= 0x1f;
  }

  /** Table packets pass a demultiplexer of frames by. */
  lemma TablePasses(b1: bv8, b2: bv8, cc: bv8, section: seq<bv8>, pid: nat, c: Collected, tail: seq<byte>)
    requires |section| <= 64 && (b1 == 0x40 || b1 == 0x50) && b2 <= 0x01 && (b1 == 0x40 ==> b2 == 0x00) && (pid == VIDEO_PID || pid == AUDIO_PID)
    ensures CollectAll(pid, c, AsBytes(TablePacket(b1, b2, cc, section)) + tail) == CollectAll(pid, c, tail)
  {
    var t := TablePacket(b1, b2, cc, section);
    TableStart(b1, b2, cc, section);
    hide TablePacket;
    var p := AsBytes(t);
    CounterRange(cc);
    assert p[0] == 0x47 && p[1] == b1 as byte && p[2] == b2 as byte && 0x10 <= p[3] <= 0x1f;
    assert b1 as byte == 0x40 || b1 as byte == 0x50;
    assert ParsePacket(p).Some? && ParsePacket(p).value.pid != pid;
    hide ParsePacket, CollectAll;
    CollectFirst(pid, c, p, tail);
  }

  lemma TableStart(b1: bv8, b2: bv8, cc: bv8, section: seq<bv8>)
    requires |section| <= 64
    ensures var t := TablePacket(b1, b2, cc, section);
            |t| == TS_PACKET_LEN && t[0] == 0x47 && t[1] == b1 && t[2] == b2 && t[3] == 0x10 | (cc & 0x0f)
  {
    hide Crc32.AnnexA;
    var h := TableHeader(b1, b2, cc);
    var t := TablePacket(b1, b2, cc, section);
    assert t[..5] == h;
    assert t[0] == t[..5][0] && t[1] == t[..5][1] && t[2] == t[..5][2] && t[3] == t[..5][3];
  }

  /** Every frame of one kind survives the muxer. */
  predicate AllRecoverable(frames: seq<Frame>, isVideo: bool) {
    frames == [] || ((frames[0].isVideo == isVideo ==> Recoverable(frames[0])) && AllRecoverable(frames[1..], isVideo))
  }

  /**
    From the packets of the frames, one unit for each frame of one kind comes back, and
    the counter goes on; the units are the PES packets exactly if all frames are recoverable.
   */
  lemma {:induction false} FramesCollected(isVideo: bool, c: Ccs, frames: seq<Frame>, units: seq<seq<byte>>)
    returns (found: seq<seq<byte>>)
    ensures CollectAll(PidOf(isVideo), Collected(units, c.Of(isVideo)), MuxedAll(c, frames))
         == Some(Collected(units + found, AfterFrames(c, frames).Of(isVideo)))
    ensures found == PesOf(frames, isVideo) <==> AllRecoverable(frames, isVideo)
    decreases |frames|
  {
    hide Muxed, Pes, CollectAll, Recoverable;
    if frames == [] {
      CollectNothing(PidOf(isVideo), Collected(units, c.Of(isVideo)));
      found := [];
      assert units + [] == units;
    } else {
      var f, more := frames[0], frames[1..];
      var unit := FrameCollected(isVideo, c, f, units, MuxedAll(AfterFrame(c, f), more));
      var one := if f.isVideo == isVideo then [unit] else [];
      var rest := FramesCollected(isVideo, AfterFrame(c, f), more, units + one);
      found := one + rest;
      PlusAssoc(units, one, rest);
      FirstUnit(f.isVideo == isVideo, unit, rest, Pes(f), PesOf(more, isVideo));
    }
  }

  lemma FirstUnit(there: bool, unit: seq<byte>, rest: seq<seq<byte>>, pes: seq<byte>, more: seq<seq<byte>>)
    ensures (if there then [unit] else []) + rest == (if there then [pes] else []) + more <==>
            (there ==> unit == pes) && rest == more
  {
    if there {
      assert ([unit] + rest)[0] == unit && ([pes] + more)[0] == pes;
      assert ([unit] + rest)[1..] == rest && ([pes] + more)[1..] == more;
    } else {
      assert [] + rest == rest && [] + more == more;
    }
  }

  lemma FrameCollected(isVideo: bool, c: Ccs, f: Frame, units: seq<seq<byte>>, tail: seq<byte>) returns (unit: seq<byte>)
    ensures var after := AfterFrame(c, f).Of(isVideo);
            CollectAll(PidOf(isVideo), Collected(units, c.Of(isVideo)), Muxed(f, c.Of(f.isVideo)).0 + tail) ==
            CollectAll(PidOf(isVideo), Collected(units + if f.isVideo == isVideo then [unit] else [], after), tail)
    ensures f.isVideo == isVideo ==> (unit == Pes(f) <==> Recoverable(f))
  {
    hide Pes, CollectAll, Recoverable;
    var was := Collected(units, c.Of(isVideo));
    unit := [];
    if f.isVideo == isVideo {
      MuxCollected(f, was, tail);
      var (bytes, cc) := Muxed(f, was.cc);
      unit :| (unit == Pes(f) <==> Recoverable(f)) && Yields(f, was, bytes + tail, unit, cc, tail);
    } else {
      CollectOther(PidOf(isVideo), f, true, was, c.Of(f.isVideo), Pes(f), tail);
      assert units + [] == units;
    }
  }

  lemma {:induction false} AudioRecoverable(frames: seq<Frame>)
    ensures AllRecoverable(frames, false)
  {
    if frames != [] {
      AudioRecoverable(frames[1..]);
    }
  }

  /**
    A demultiplexer gets from a segment's bytes exactly the PES packets of its video frames
    if and only if each of those is recoverable, and always those of its audio frames.
   */
  lemma SegmentReadBackIff(isVideo: bool, c: Ccs, frames: seq<Frame>)
    ensures CollectAll(PidOf(isVideo), Collected([], c.Of(isVideo)), SegmentBytes(c, frames))
              == Some(Collected(PesOf(frames, isVideo), AfterFrames(AfterTables(c), frames).Of(isVideo))) <==>
            !isVideo || AllRecoverable(frames, true)
  {
    hide CollectAll, AllRecoverable, MuxedAll, PesOf, AfterFrames, PatBytes, PmtBytes;
    var body := MuxedAll(AfterTables(c), frames);
    TablesPass(isVideo, c, body);
    var found := FramesCollected(isVideo, AfterTables(c), frames, []);
    AudioRecoverable(frames);
    assert [] + found == found;
  }

  lemma TablesPass(isVideo: bool, c: Ccs, body: seq<byte>)
    ensures var none := Collected([], c.Of(isVideo));
            CollectAll(PidOf(isVideo), none, PatBytes(c) + PmtBytes(c) + body) == CollectAll(PidOf(isVideo), none, body)
  {
    hide CollectAll, TablePacket, AsBytes, PmtSection;
    var none := Collected([], c.Of(isVideo));
    TablePasses(0x40, 0x00, c.pat, PAT_SECTION, PidOf(isVideo), none, PmtBytes(c) + body);
    assert |PmtSection(SOUND_AAC, true)| <= 64 by { SectionFits(); }
    TablePasses(0x50, 0x01, c.pmt, PmtSection(SOUND_AAC, true), PidOf(isVideo), none, body);
    PlusAssoc(PatBytes(c), PmtBytes(c), body);
  }

  lemma SectionFits()
    ensures |PmtSection(SOUND_AAC, true)| <= 64
  {
  }

  // ------------------------------------------------------- whole packets

  predicate Whole(s: seq<byte>) {
    |s| % TS_PACKET_LEN == 0
  }

  lemma WholeBoth(a: seq<byte>, b: seq<byte>)
    requires Whole(a) && Whole(b)
    ensures Whole(a + b)
  {
  }

  lemma {:induction false} PacketsAreWhole(f: Frame, first: bool, cc: nat, rest: seq<byte>)
    requires cc < 16
    ensures Whole(Packets(f, first, cc, rest).0)
    decreases |rest|
  {
    if rest != [] {
      var p := Packet(f, first, NextCc(cc), rest);
      var more := Packets(f, false, NextCc(cc), rest[Taken(f, first, |rest|)..]).0;
      PacketLength(f, first, NextCc(cc), rest);
      PacketsAreWhole(f, false, NextCc(cc), rest[Taken(f, first, |rest|)..]);
      hide Packet, Taken;
      assert Whole(p);
      WholeBoth(p, more);
      hide Whole;
    }
  }

  lemma {:induction false} FramesAreWhole(c: Ccs, frames: seq<Frame>)
    ensures Whole(MuxedAll(c, frames))
    decreases |frames|
  {
    if frames != [] {
      var bytes := Muxed(frames[0], c.Of(frames[0].isVideo)).0;
      PacketsAreWhole(frames[0], true, c.Of(frames[0].isVideo), Pes(frames[0]));
      hide Whole, Packets, Pes;
      FramesAreWhole(AfterFrame(c, frames[0]), frames[1..]);
      WholeBoth(bytes, MuxedAll(AfterFrame(c, frames[0]), frames[1..]));
      hide Muxed, AfterFrame;
    }
  }

  /** A segment is a whole number of packets, and the first two are its tables. */
  lemma SegmentIsWhole(c: Ccs, frames: seq<Frame>)
    ensures Whole(SegmentBytes(c, frames)) && |SegmentBytes(c, frames)| >= 2 * TS_PACKET_LEN
    ensures SegmentBytes(c, frames)[..TS_PACKET_LEN] == PatBytes(c)
    ensures SegmentBytes(c, frames)[TS_PACKET_LEN..2 * TS_PACKET_LEN] == PmtBytes(c)
  {
    TableStart(0x40, 0x00, c.pat, PAT_SECTION);
    TableStart(0x50, 0x01, c.pmt, PmtSection(SOUND_AAC, true));
    assert |PatBytes(c)| == |PmtBytes(c)| == TS_PACKET_LEN;
    assert Whole(PatBytes(c)) && Whole(PmtBytes(c));
    hide PatBytes, PmtBytes, Whole, MuxedAll;
    FramesAreWhole(AfterTables(c), frames);
    WholeBoth(PatBytes(c), PmtBytes(c));
    WholeBoth(PatBytes(c) + PmtBytes(c), MuxedAll(AfterTables(c), frames));
  }

  // ------------------------------------------------------------- the output

  /** What there is on the output side: the last number given, the open segment, the counters, the window. */
  datatype Output = Output(seqNum: nat, bytes: seq<byte>, ccs: Ccs, window: Window)

  const EMPTY := Output(0, [], Ccs(0, 0, 0, 0), Window([], map[]))

  function Apply(o: Output, a: Act): Output {
    match a
    case Begin => o.(bytes := PatBytes(o.ccs) + PmtBytes(o.ccs), ccs := AfterTables(o.ccs))
    case Emit(f, _) => o.(bytes := o.bytes + Muxed(f, o.ccs.Of(f.isVideo)).0, ccs := AfterFrame(o.ccs, f))
    case End(name, duration) =>
      o.(seqNum := o.seqNum + 1, bytes := [], window := Set(o.window, Item(name, o.seqNum + 1, duration, o.bytes)))
  }

  function ApplyAll(o: Output, acts: seq<Act>): Output {
    if acts == [] then o else Apply(ApplyAll(o, acts[..|acts| - 1]), acts[|acts| - 1])
  }

  function AsBits(b: seq<byte>): (s: seq<bv8>)
    ensures |s| == |b|
  {
    seq(|b|, i requires 0 <= i < |b| => b[i] as bv8)
  }

  lemma BitsBack(s: seq<bv8>)
    ensures AsBits(AsBytes(s)) == s
  {
    forall k | 0 <= k < |s| ensures AsBits(AsBytes(s))[k] == s[k] {
      assert (s[k] as byte) as bv8 == s[k];
    }
  }

  /**
    What a player learns from the first two packets of any segment: on PID 0, that program 1
    has its map on PID 0x1001, and there, that the clock and H.264 video are on PID 0x100 and
    AAC sound is on 0x101.
   */
  lemma SegmentAnnounces(c: Ccs, frames: seq<Frame>)
    ensures var s := SegmentBytes(c, frames);
            && |s| >= 376
            && var pat, pmt := AsBits(s[..188]), AsBits(s[188..376]);
            && PidFrom(pat[1], pat[2]) == 0 && PidFrom(pmt[1], pmt[2]) == 0x1001
            && ParseSection(pat).Some? && ParsePat(ParseSection(pat).value) == Some((1, 0x1001))
            && ParseSection(pmt).Some?
            && ParsePmt(ParseSection(pmt).value) == Some(Pmt(0x100, [Stream(0x1b, 0x100), Stream(0x0f, 0x101)]))
  {
    SegmentIsWhole(c, frames);
    hide SegmentBytes, TablePacket, ParseSection, ParsePat, ParsePmt, PmtSection, AsBytes, AsBits;
    BitsBack(TablePacket(0x40, 0x00, c.pat, PAT_SECTION));
    BitsBack(TablePacket(0x50, 0x01, c.pmt, PmtSection(SOUND_AAC, true)));
    TableStart(0x40, 0x00, c.pat, PAT_SECTION);
    TableStart(0x50, 0x01, c.pmt, PmtSection(SOUND_AAC, true));
    PatReadBack(c.pat);
    PmtReadBack(c.pmt, SOUND_AAC, true);
    TablePids();
  }

  lemma TablePids()
    ensures PidFrom(0x40, 0x00) == 0 && PidFrom(0x50, 0x01) == 0x1001
  {
  }

  lemma {:induction false} ApplyMore(o: Output, a: seq<Act>, b: seq<Act>)
    ensures ApplyAll(o, a + b) == ApplyAll(ApplyAll(o, a), b)
    decreases |b|
  {
    hide Apply;
    if b == [] {
      assert a + b == a;
    } else {
      ApplyMore(o, a, b[..|b| - 1]);
      assert (a + b)[..|a + b| - 1] == a + b[..|b| - 1];
    }
  }

  /** A segment by what was put into it: the counters it began with, and its frames. */
  datatype Segment = Segment(name: string, duration: nat, start: Ccs, frames: seq<Frame>)

  /** The ended segments, and the start and the frames of the open one. */
  datatype Book = Book(ended: seq<Segment>, start: Ccs, frames: seq<Frame>)

  function BookOf(acts: seq<Act>): Book {
    if acts == [] then Book([], EMPTY.ccs, [])
    else
      var front := acts[..|acts| - 1];
      var b := BookOf(front);
      match acts[|acts| - 1]
      case Begin => Book(b.ended, ApplyAll(EMPTY, front).ccs, [])
      case Emit(f, _) => b.(frames := b.frames + [f])
      case End(name, duration) => Book(b.ended + [Segment(name, duration, b.start, b.frames)], b.start, [])
  }

  /** The segments as they are offered: named, numbered from one on, with their bytes. */
  function Offered(ended: seq<Segment>): (items: seq<Item>)
    ensures |items| == |ended|
  {
    seq(|ended|, i requires 0 <= i < |ended| =>
      Item(ended[i].name, i + 1, ended[i].duration, SegmentBytes(ended[i].start, ended[i].frames)))
  }

  /** The output agrees with the book. */
  predicate Kept(o: Output, b: Book, open: bool) {
    o.seqNum == |b.ended| && o.window == SetAll(Offered(b.ended)) &&
    (open ==> o.bytes == SegmentBytes(b.start, b.frames) && o.ccs == AfterFrames(AfterTables(b.start), b.frames)) &&
    (!open ==> b.frames == [])
  }

  /**
    After any properly bracketed acts, the open segment and every one offered hold
    their two tables and exactly their frames' packets, and are numbered in a row.
   */
  lemma {:induction false} OutputIsKept(acts: seq<Act>, open: bool)
    requires Bracketed(acts, open)
    ensures Kept(ApplyAll(EMPTY, acts), BookOf(acts), open)
    decreases |acts|
  {
    if acts == [] {
      assert Offered([]) == [];
      assert SetAll([]) == Window([], map[]);
    } else {
      var front, a := acts[..|acts| - 1], acts[|acts| - 1];
      OutputIsKept(front, !a.Begin?);
      var o, b := ApplyAll(EMPTY, front), BookOf(front);
      match a
      case Begin => BeginKept(o, b);
      case Emit(f, _) => EmitKept(o, b, f);
      case End(name, duration) => EndKept(o, b, name, duration);
    }
  }

  lemma BeginKept(o: Output, b: Book)
    requires Kept(o, b, false)
    ensures Kept(Apply(o, Begin), Book(b.ended, o.ccs, []), true)
  {
    hide PatBytes, PmtBytes, SetAll, Offered;
    assert PatBytes(o.ccs) + PmtBytes(o.ccs) + [] == PatBytes(o.ccs) + PmtBytes(o.ccs);
  }

  lemma EmitKept(o: Output, b: Book, f: Frame)
    requires Kept(o, b, true)
    ensures Kept(Apply(o, Emit(f, [])), b.(frames := b.frames + [f]), true)
  {
    MuxedAllSnoc(AfterTables(b.start), b.frames, f);
    hide PatBytes, PmtBytes, SetAll, Offered, MuxedAll, AfterFrames, Muxed, AfterFrame;
    var tables, more := PatBytes(b.start) + PmtBytes(b.start), Muxed(f, o.ccs.Of(f.isVideo)).0;
    assert tables + (MuxedAll(AfterTables(b.start), b.frames) + more) == tables + MuxedAll(AfterTables(b.start), b.frames) + more;
  }

  lemma EndKept(o: Output, b: Book, name: string, duration: nat)
    requires Kept(o, b, true)
    ensures Kept(Apply(o, End(name, duration)), Book(b.ended + [Segment(name, duration, b.start, b.frames)], b.start, []), false)
  {
    hide SegmentBytes, Set;
    var ended := b.ended + [Segment(name, duration, b.start, b.frames)];
    var item := Item(name, |b.ended| + 1, duration, SegmentBytes(b.start, b.frames));
    assert Offered(ended)[..|b.ended|] == Offered(b.ended) && Offered(ended)[|b.ended|] == item;
  }

  /** The frames muxed, in their order. */
  function Emitted(acts: seq<Act>): seq<Frame> {
    if acts == [] then []
    else
      var before, last := Emitted(acts[..|acts| - 1]), acts[|acts| - 1];
      if last.Emit? then before + [last.f] else before
  }

  function FramesIn(ended: seq<Segment>): seq<Frame> {
    if ended == [] then [] else FramesIn(ended[..|ended| - 1]) + ended[|ended| - 1].frames
  }

  /** Every frame muxed is in exactly one segment, and the segments hold them in the order of muxing. */
  lemma {:induction false} FramesPartitioned(acts: seq<Act>, open: bool)
    requires Bracketed(acts, open)
    ensures Emitted(acts) == FramesIn(BookOf(acts).ended) + BookOf(acts).frames && (!open ==> BookOf(acts).frames == [])
    decreases |acts|
  {
    hide ApplyAll;
    if acts != [] {
      var front, a := acts[..|acts| - 1], acts[|acts| - 1];
      FramesPartitioned(front, !a.Begin?);
      var b := BookOf(front);
      if a.End? {
        var ended := b.ended + [Segment(a.name, a.duration, b.start, b.frames)];
        assert ended[..|b.ended|] == b.ended;
        assert FramesIn(ended) + [] == FramesIn(b.ended) + b.frames;
      }
    }
  }

  /** Only segments of three seconds or more are ended. */
  lemma {:induction false} LongEnough(acts: seq<Act>)
    requires forall k :: 0 <= k < |acts| ==> Sound(acts[k])
    ensures forall k :: 0 <= k < |BookOf(acts).ended| ==> BookOf(acts).ended[k].duration >= DURATION
    decreases |acts|
  {
    hide ApplyAll;
    if acts != [] {
      assert Sound(acts[|acts| - 1]);
      LongEnough(acts[..|acts| - 1]);
    }
  }

  /** What a player needs to begin with: a segment's first frame is a key frame of video. */
  predicate KeyFirst(frames: seq<Frame>) {
    frames != [] && frames[0].isVideo && frames[0].isKey
  }

  ghost predicate AllKeyFirst(ended: seq<Segment>) {
    forall k :: 0 <= k < |ended| ==> KeyFirst(ended[k].frames)
  }

  ghost predicate Keyed(acts: seq<Act>, open: bool) {
    AllKeyFirst(BookOf(acts).ended) && (open ==> KeyFirst(BookOf(acts).frames))
  }

  lemma KeyedEmit(acts: seq<Act>, a: Act)
    requires Keyed(acts, true) && a.Emit?
    ensures Keyed(acts + [a], true)
  {
    assert (acts + [a])[..|acts|] == acts;
  }

  lemma KeyedEnd(acts: seq<Act>, a: Act)
    requires Keyed(acts, true) && a.End?
    ensures Keyed(acts + [a], false)
  {
    assert (acts + [a])[..|acts|] == acts;
  }

  lemma KeyedBegin(acts: seq<Act>, f: Frame, open: bool)
    requires Keyed(acts, open) && f.isVideo && f.isKey
    ensures Keyed(acts + [Begin] + [Emit(f, [])], true)
  {
    hide ApplyAll;
    var begun := acts + [Begin];
    assert begun[..|acts|] == acts && (begun + [Emit(f, [])])[..|begun|] == begun;
    assert BookOf(begun).ended == BookOf(acts).ended && BookOf(begun).frames == [];
    assert BookOf(begun + [Emit(f, [])]).frames == [] + [f];
  }

  /** Every segment is begun by a key frame, and that is the first to be muxed into it. */
  lemma {:induction false} SegmentsStartWithKey(events: seq<Event>, inc: nat)
    ensures Keyed(ActsOf(events, inc), ControlAfter(events, inc).open)
    decreases |events|
  {
    hide Keyed, Acts, NextControl, BookOf;
    if events == [] {
      NothingKeyed();
    } else {
      var before, e := events[..|events| - 1], events[|events| - 1];
      SegmentsStartWithKey(before, inc);
      EventKeyed(ActsOf(before, inc), ControlAfter(before, inc), e.m, inc, e.name);
    }
  }

  lemma NothingKeyed()
    ensures Keyed([], false)
  {
  }

  lemma EventKeyed(acts: seq<Act>, c: Control, m: Media, inc: nat, name: string)
    requires Keyed(acts, c.open)
    ensures Keyed(acts + Acts(c, m, inc, name), NextControl(c, m, inc).open)
  {
    hide Keyed, Cached, DurationMs, Updated, Concat;
    assert acts + [] == acts;
    if m.Audio? {
      if c.open && |Cached(c, m.timestamp, m.data, inc).waiting| >= CACHE_MAX_FRAMES {
        KeyedEmit(acts, Flushed(Cached(c, m.timestamp, m.data, inc)));
      }
      CachedOpen(c, m.timestamp, m.data, inc);
    } else {
      var emit := Emit(VideoFrame(m), []);
      if m.isKey && !c.open {
        KeyedBegin(acts, VideoFrame(m), false);
        PlusAssoc(acts, [Begin], [emit]);
      } else if m.isKey && DurationMs(c.stat) >= DURATION {
        CutKeyed(acts, c, name, VideoFrame(m));
      } else if c.open {
        KeyedEmit(acts, emit);
        assert Acts(c, m, inc, name) == [emit];
      } else {
        assert Acts(c, m, inc, name) == [];
      }
    }
  }

  lemma CachedOpen(c: Control, timestamp: uint32, data: seq<byte>, inc: nat)
    ensures Cached(c, timestamp, data, inc).open == c.open
  {
  }

  lemma CutKeyed(acts: seq<Act>, c: Control, name: string, f: Frame)
    requires Keyed(acts, true) && c.open && DurationMs(c.stat) >= DURATION && f.isVideo && f.isKey
    ensures Keyed(acts + (CutActs(c, name) + [Emit(f, [])]), true)
  {
    hide Keyed, DurationMs, Concat;
    var flush: seq<Act> := if c.waiting != [] then [Flushed(c)] else [];
    var end, emit := End(name, DurationMs(c.stat)), Emit(f, []);
    if c.waiting != [] {
      KeyedEmit(acts, Flushed(c));
    } else {
      assert acts + flush == acts;
    }
    KeyedEnd(acts + flush, end);
    KeyedBegin(acts + flush + [end], f, false);
    assert acts + (flush + [end, Begin] + [emit]) == acts + flush + [end] + [Begin] + [emit];
  }

  /**
    The whole run, put together: what the server offers after any packets at all is
    the window over segments that are numbered in a row, last three seconds at least,
    start with a key frame, and hold between their two tables and their end exactly the frames muxed, in order.
   */
  lemma RunIsOffered(events: seq<Event>, inc: nat)
    ensures var acts, c := ActsOf(events, inc), ControlAfter(events, inc);
            var b := BookOf(acts);
            Kept(ApplyAll(EMPTY, acts), b, c.open) && Emitted(acts) == FramesIn(b.ended) + b.frames &&
            (forall k :: 0 <= k < |b.ended| ==> b.ended[k].duration >= DURATION && KeyFirst(b.ended[k].frames)) &&
            (c.open ==> KeyFirst(b.frames)) && Numbered(Offered(b.ended))
  {
    var acts, c := ActsOf(events, inc), ControlAfter(events, inc);
    RunIsSound(events, inc);
    SegmentsStartWithKey(events, inc);
    hide ActsOf, ControlAfter, Kept;
    OutputIsKept(acts, c.open);
    FramesPartitioned(acts, c.open);
    LongEnough(acts);
  }
}
