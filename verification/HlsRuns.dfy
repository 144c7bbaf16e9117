/**
  What a run of packets comes to, said of the packets themselves: where it is cut
  into segments, which pictures each of these holds, and at what times the sound is.
 */
module HlsRuns {
  import opened Bytes
  import opened Align
  import opened TsFormat
  import opened Hls
  import opened HlsSegments

  // ------------------------------------------------------------ the pieces

  predicate IsKey(e: Event) {
    e.m.Video? && e.m.isKey
  }

  /** From the first packet's time to the last one's. */
  function Span(piece: seq<Event>): int
    requires piece != []
  {
    piece[|piece| - 1].m.timestamp - piece[0].m.timestamp
  }

  /**
    The packets of each segment, the last of which is still open: it begins with a key
    frame, the first there is or the first that comes once the one before spans three
    seconds. What comes before the first key frame is in none.
   */
  function Pieces(events: seq<Event>): (ps: seq<seq<Event>>)
    ensures forall k :: 0 <= k < |ps| ==> ps[k] != [] && IsKey(ps[k][0])
  {
    if events == [] then []
    else
      var before, e := Pieces(events[..|events| - 1]), events[|events| - 1];
      if IsKey(e) && (before == [] || Span(before[|before| - 1]) >= 3000) then before + [[e]]
      else if before == [] then []
      else before[..|before| - 1] + [before[|before| - 1] + [e]]
  }

  /** The pictures among some packets, as they are muxed. */
  function Pictures(events: seq<Event>): seq<Frame> {
    if events == [] then []
    else
      var before, m := Pictures(events[..|events| - 1]), events[|events| - 1].m;
      if m.Video? then before + [Frame(true, m.isKey, m.timestamp, m.compositionTime, m.data)] else before
  }

  function VideoIn(frames: seq<Frame>): seq<Frame> {
    if frames == [] then []
    else
      var before, f := VideoIn(frames[..|frames| - 1]), frames[|frames| - 1];
      if f.isVideo then before + [f] else before
  }

  lemma PicturesSnoc(events: seq<Event>, e: Event)
    ensures Pictures(events + [e]) ==
            Pictures(events) +
            if e.m.Video? then [Frame(true, e.m.isKey, e.m.timestamp, e.m.compositionTime, e.m.data)] else []
  {
    assert (events + [e])[..|events|] == events;
    assert Pictures(events) + [] == Pictures(events);
  }

  lemma VideoSnoc(frames: seq<Frame>, f: Frame)
    ensures VideoIn(frames + [f]) == VideoIn(frames) + if f.isVideo then [f] else []
  {
    assert (frames + [f])[..|frames|] == frames;
    assert VideoIn(frames) + [] == VideoIn(frames);
  }

  /** A segment is a piece: named by the packet that ended it, as long as it spans, with its pictures. */
  predicate IsPiece(s: Segment, piece: seq<Event>, next: seq<Event>)
    requires piece != [] && next != []
  {
    s.name == next[0].name && s.duration == Span(piece) && VideoIn(s.frames) == Pictures(piece)
  }

  /** The segments ended are all pieces but the last, and that one is open. */
  ghost predicate InPieces(c: Control, b: Book, ps: seq<seq<Event>>)
    requires forall k :: 0 <= k < |ps| ==> ps[k] != []
  {
    && c.open == (ps != [])
    && |b.ended| == (if ps == [] then 0 else |ps| - 1)
    && (forall k :: 0 <= k < |b.ended| ==> IsPiece(b.ended[k], ps[k], ps[k + 1]))
    && (ps != [] ==>
        var last := ps[|ps| - 1];
        VideoIn(b.frames) == Pictures(last) && c.stat == Stat(true, last[0].m.timestamp, last[|last| - 1].m.timestamp))
    && (ps == [] ==> !c.stat.hasFirst)
  }

  /**
    Main theorem. Whatever packets come, the segments are the pieces of the run: cut at
    the same key frames, as long, and with every picture of the piece in its order.
   */
  lemma {:induction false} SegmentsArePieces(events: seq<Event>, inc: nat)
    ensures InPieces(ControlAfter(events, inc), BookOf(ActsOf(events, inc)), Pieces(events))
    decreases |events|
  {
    hide InPieces, Acts, NextControl, BookOf;
    if events == [] {
      NoPieces();
    } else {
      var before, e := events[..|events| - 1], events[|events| - 1];
      SegmentsArePieces(before, inc);
      var c, acts, ps := ControlAfter(before, inc), ActsOf(before, inc), Pieces(before);
      if e.m.Audio? {
        AudioStays(c, acts, ps, e, inc);
      } else if !IsKey(e) || !(ps == [] || Span(ps[|ps| - 1]) >= 3000) {
        PictureStays(c, acts, ps, e, inc);
      } else if ps == [] {
        FirstPiece(c, acts, ps, e, inc);
      } else {
        NextPiece(c, acts, ps, e, inc);
      }
    }
  }

  lemma NoPieces()
    ensures InPieces(START, BookOf([]), [])
  {
  }

  /** The pieces with one packet more that begins none. */
  function Longer(ps: seq<seq<Event>>, e: Event): seq<seq<Event>> {
    if ps == [] then [] else ps[..|ps| - 1] + [ps[|ps| - 1] + [e]]
  }

  /** A packet in the open segment: the segments ended stay as they are. */
  lemma StaysInPieces(c: Control, b: Book, ps: seq<seq<Event>>, e: Event, c1: Control, b1: Book)
    requires (forall k :: 0 <= k < |ps| ==> ps[k] != []) && InPieces(c, b, ps)
    requires c1.open == c.open && b1.ended == b.ended
    requires c1.stat == if c.open then Updated(c.stat, e.m.timestamp) else c.stat
    requires VideoIn(b1.frames) ==
             VideoIn(b.frames) +
             if c.open && e.m.Video? then [Frame(true, e.m.isKey, e.m.timestamp, e.m.compositionTime, e.m.data)] else []
    ensures InPieces(c1, b1, Longer(ps, e))
  {
    if ps != [] {
      var last := ps[|ps| - 1];
      PicturesSnoc(last, e);
      hide Pictures, VideoIn, Span;
      var longer := Longer(ps, e);
      assert longer[|ps| - 1] == last + [e] && (last + [e])[0] == last[0];
      forall k | 0 <= k < |b.ended| ensures IsPiece(b.ended[k], longer[k], longer[k + 1]) {
        assert longer[k] == ps[k] && longer[k + 1][0] == ps[k + 1][0];
      }
    }
  }

  lemma BookSnoc(acts: seq<Act>, a: Act)
    ensures var b, b1 := BookOf(acts), BookOf(acts + [a]);
            && (a.Begin? ==> b1.ended == b.ended && b1.frames == [])
            && (a.Emit? ==> b1.ended == b.ended && b1.frames == b.frames + [a.f])
            && (a.End? ==> b1.ended == b.ended + [Segment(a.name, a.duration, b.start, b.frames)] && b1.frames == [])
  {
    assert (acts + [a])[..|acts|] == acts;
  }

  lemma AudioStays(c: Control, acts: seq<Act>, ps: seq<seq<Event>>, e: Event, inc: nat)
    requires (forall k :: 0 <= k < |ps| ==> ps[k] != []) && InPieces(c, BookOf(acts), ps) && e.m.Audio?
    ensures InPieces(NextControl(c, e.m, inc), BookOf(acts + Acts(c, e.m, inc, e.name)), Longer(ps, e))
  {
    hide InPieces, BookOf, Concat, VideoIn;
    var more := Acts(c, e.m, inc, e.name);
    if more == [] {
      assert acts + [] == acts;
    } else {
      BookSnoc(acts, more[0]);
      VideoSnoc(BookOf(acts).frames, more[0].f);
    }
    assert VideoIn(BookOf(acts).frames) + [] == VideoIn(BookOf(acts).frames);
    StaysInPieces(c, BookOf(acts), ps, e, NextControl(c, e.m, inc), BookOf(acts + more));
  }

  lemma PictureStays(c: Control, acts: seq<Act>, ps: seq<seq<Event>>, e: Event, inc: nat)
    requires (forall k :: 0 <= k < |ps| ==> ps[k] != []) && InPieces(c, BookOf(acts), ps) && e.m.Video?
    requires !e.m.isKey || (ps != [] && Span(ps[|ps| - 1]) < 3000)
    ensures InPieces(NextControl(c, e.m, inc), BookOf(acts + Acts(c, e.m, inc, e.name)), Longer(ps, e))
  {
    assert c.open == (ps != []) && (ps != [] ==> DurationMs(c.stat) == Span(ps[|ps| - 1]));
    hide InPieces, BookOf, VideoIn, Span;
    var more, f := Acts(c, e.m, inc, e.name), VideoFrame(e.m);
    if c.open {
      assert more == [Emit(f, [])];
      BookSnoc(acts, Emit(f, []));
      VideoSnoc(BookOf(acts).frames, f);
    } else {
      assert more == [] && acts + [] == acts;
      assert VideoIn(BookOf(acts).frames) + [] == VideoIn(BookOf(acts).frames);
    }
    StaysInPieces(c, BookOf(acts), ps, e, NextControl(c, e.m, inc), BookOf(acts + more));
  }

  /** One piece more, begun by a key frame. */
  lemma BegunInPieces(ps: seq<seq<Event>>, e: Event, b: Book, c1: Control, b1: Book)
    requires forall k :: 0 <= k < |ps| ==> ps[k] != []
    requires IsKey(e) && c1.open && c1.stat == Stat(true, e.m.timestamp, e.m.timestamp)
    requires b1.frames == [VideoFrame(e.m)] && |b1.ended| == |ps| && b.ended <= b1.ended
    requires |b.ended| == (if ps == [] then 0 else |ps| - 1)
    requires forall k :: 0 <= k < |b.ended| ==> IsPiece(b.ended[k], ps[k], ps[k + 1])
    requires ps != [] ==> IsPiece(b1.ended[|ps| - 1], ps[|ps| - 1], [e])
    ensures InPieces(c1, b1, ps + [[e]])
  {
    PicturesSnoc([], e);
    VideoSnoc([], VideoFrame(e.m));
    hide Span;
    var more := ps + [[e]];
    assert [] + [e] == [e] && [] + [VideoFrame(e.m)] == [VideoFrame(e.m)];
    assert VideoIn(b1.frames) == Pictures([e]);
    hide VideoIn, Pictures;
    forall k | 0 <= k < |b1.ended| ensures IsPiece(b1.ended[k], more[k], more[k + 1]) {
      if k < |b.ended| {
        assert b1.ended[k] == b.ended[k] && more[k] == ps[k] && more[k + 1] == ps[k + 1];
      }
    }
  }

  lemma FirstPiece(c: Control, acts: seq<Act>, ps: seq<seq<Event>>, e: Event, inc: nat)
    requires ps == [] && InPieces(c, BookOf(acts), ps) && IsKey(e)
    ensures InPieces(NextControl(c, e.m, inc), BookOf(acts + Acts(c, e.m, inc, e.name)), ps + [[e]])
  {
    assert !c.open && !c.stat.hasFirst && BookOf(acts).ended == [];
    hide InPieces, BookOf, IsPiece;
    var emit := Emit(VideoFrame(e.m), []);
    assert Acts(c, e.m, inc, e.name) == [Begin] + [emit];
    PlusAssoc(acts, [Begin], [emit]);
    BookSnoc(acts, Begin);
    BookSnoc(acts + [Begin], emit);
    assert [] + [VideoFrame(e.m)] == [VideoFrame(e.m)];
    BegunInPieces(ps, e, BookOf(acts), NextControl(c, e.m, inc), BookOf(acts + [Begin] + [emit]));
  }

  lemma NextPiece(c: Control, acts: seq<Act>, ps: seq<seq<Event>>, e: Event, inc: nat)
    requires (forall k :: 0 <= k < |ps| ==> ps[k] != []) && ps != [] && InPieces(c, BookOf(acts), ps)
    requires IsKey(e) && Span(ps[|ps| - 1]) >= 3000
    ensures InPieces(NextControl(c, e.m, inc), BookOf(acts + Acts(c, e.m, inc, e.name)), ps + [[e]])
  {
    var last, b := ps[|ps| - 1], BookOf(acts);
    assert c.open && DurationMs(c.stat) == Span(last) && VideoIn(b.frames) == Pictures(last);
    assert |b.ended| == |ps| - 1 && forall k :: 0 <= k < |b.ended| ==> IsPiece(b.ended[k], ps[k], ps[k + 1]);
    hide InPieces, BookOf, Span, Pictures, VideoIn, Concat;
    var flushed := acts + if c.waiting != [] then [Flushed(c)] else [];
    if c.waiting != [] {
      BookSnoc(acts, Flushed(c));
      VideoSnoc(b.frames, Flushed(c).f);
      assert VideoIn(b.frames) + [] == VideoIn(b.frames);
    } else {
      assert acts + [] == acts;
    }
    var end, emit := End(e.name, DurationMs(c.stat)), Emit(VideoFrame(e.m), []);
    CutInFour(acts, c, e, inc);
    BookSnoc(flushed, end);
    BookSnoc(flushed + [end], Begin);
    BookSnoc(flushed + [end] + [Begin], emit);
    assert [] + [VideoFrame(e.m)] == [VideoFrame(e.m)];
    BegunInPieces(ps, e, b, NextControl(c, e.m, inc), BookOf(flushed + [end] + [Begin] + [emit]));
  }

  lemma CutInFour(acts: seq<Act>, c: Control, e: Event, inc: nat)
    requires IsKey(e) && c.open && DurationMs(c.stat) >= 3000
    ensures acts + Acts(c, e.m, inc, e.name) ==
            acts + (if c.waiting != [] then [Flushed(c)] else []) + [End(e.name, DurationMs(c.stat))] + [Begin] +
            [Emit(VideoFrame(e.m), [])]
  {
    hide Flushed, DurationMs;
  }

  // -------------------------------------------------------------- pictures

  /** Every picture from the first key frame on is muxed, once and in order, and nothing else is a picture. */
  lemma {:induction false} PicturesAreMuxed(events: seq<Event>, inc: nat)
    ensures VideoIn(Emitted(ActsOf(events, inc))) == PicturesFromKey(events)
    ensures ControlAfter(events, inc).open <==> exists k :: 0 <= k < |events| && IsKey(events[k])
    decreases |events|
  {
    hide Acts, NextControl, VideoIn, Emitted;
    if events == [] {
      NothingMuxed();
    } else {
      var before, e := events[..|events| - 1], events[|events| - 1];
      PicturesAreMuxed(before, inc);
      EventMuxed(ActsOf(before, inc), ControlAfter(before, inc), e, inc);
      assert forall k :: 0 <= k < |before| ==> before[k] == events[k];
      assert VideoIn(Emitted(ActsOf(before, inc))) + [] == VideoIn(Emitted(ActsOf(before, inc)));
      hide ActsOf, ControlAfter;
    }
  }

  /** The pictures of a run from its first key frame on. */
  function PicturesFromKey(events: seq<Event>): seq<Frame> {
    if events == [] then []
    else
      var before, m := PicturesFromKey(events[..|events| - 1]), events[|events| - 1].m;
      if m.Video? && exists k :: 0 <= k < |events| && IsKey(events[k]) then
        before + [Frame(true, m.isKey, m.timestamp, m.compositionTime, m.data)]
      else before
  }

  lemma NothingMuxed()
    ensures VideoIn(Emitted([])) == []
  {
  }

  lemma EmittedSnoc(acts: seq<Act>, a: Act)
    ensures VideoIn(Emitted(acts + [a])) ==
            VideoIn(Emitted(acts)) + if a.Emit? && a.f.isVideo then [a.f] else []
  {
    assert (acts + [a])[..|acts|] == acts;
    if a.Emit? {
      VideoSnoc(Emitted(acts), a.f);
    }
    hide VideoIn;
    assert VideoIn(Emitted(acts)) + [] == VideoIn(Emitted(acts));
  }

  lemma EventMuxed(acts: seq<Act>, c: Control, e: Event, inc: nat)
    ensures var open := c.open || IsKey(e);
            && NextControl(c, e.m, inc).open == open
            && VideoIn(Emitted(acts + Acts(c, e.m, inc, e.name))) ==
               VideoIn(Emitted(acts)) +
               if open && e.m.Video? then [Frame(true, e.m.isKey, e.m.timestamp, e.m.compositionTime, e.m.data)] else []
  {
    hide VideoIn, Emitted, Concat;
    var was := VideoIn(Emitted(acts));
    assert was + [] == was && acts + [] == acts;
    var more := Acts(c, e.m, inc, e.name);
    if e.m.Audio? {
      if more != [] {
        EmittedSnoc(acts, more[0]);
      }
    } else {
      var emit := Emit(VideoFrame(e.m), []);
      if IsKey(e) && !c.open {
        PlusAssoc(acts, [Begin], [emit]);
        EmittedSnoc(acts, Begin);
        EmittedSnoc(acts + [Begin], emit);
      } else if IsKey(e) && DurationMs(c.stat) >= 3000 {
        var flushed := acts + if c.waiting != [] then [Flushed(c)] else [];
        var end := End(e.name, DurationMs(c.stat));
        CutInFour(acts, c, e, inc);
        EmittedSnoc(acts, Flushed(c));
        EmittedSnoc(flushed, end);
        EmittedSnoc(flushed + [end], Begin);
        EmittedSnoc(flushed + [end] + [Begin], emit);
      } else if c.open {
        assert more == [emit];
        EmittedSnoc(acts, emit);
      } else {
        assert more == [];
      }
    }
  }

  // ----------------------------------------------------------------- sound

  /** The times in ticks of the audio frames taken in: all from the first key frame on. */
  function Times(events: seq<Event>): (ts: seq<nat>)
    ensures forall k :: 0 <= k < |ts| ==> ts[k] <= MAX_DTS
  {
    if events == [] then []
    else
      var before, m := Times(events[..|events| - 1]), events[|events| - 1].m;
      if m.Audio? && exists k :: 0 <= k < |events| && IsKey(events[k]) then before + [m.timestamp * 90] else before
  }

  /**
    The act muxes, in one piece, the next of the frames taken in that have not been muxed
    before, at the smoothed time of the first of them in milliseconds.
   */
  predicate Sounds(acts: seq<Act>, k: nat, outs: seq<nat>, accepted: seq<seq<byte>>)
    requires k < |acts| && acts[k].Emit?
  {
    var n, m := |Parts(acts[..k])|, |acts[k].parts|;
    && 1 <= m && n + m <= |accepted| == |outs|
    && acts[k].parts == accepted[n..n + m]
    && acts[k].f == Frame(false, false, outs[n] / 90 % 0x1_0000_0000, 0, Concat(accepted[n..n + m]))
  }

  ghost predicate AllSound(acts: seq<Act>, outs: seq<nat>, accepted: seq<seq<byte>>) {
    forall k :: 0 <= k < |acts| && acts[k].Emit? && !acts[k].f.isVideo ==> Sounds(acts, k, outs, accepted)
  }

  /** The clock and the cache of the audio frames taken in. */
  ghost predicate Clocked(c: Control, acts: seq<Act>, ts: seq<nat>, accepted: seq<seq<byte>>, inc: nat) {
    && c.smoother == Align.After(inc, ts)
    && |ts| == |accepted| && accepted == Parts(acts) + c.waiting
    && (c.waiting != [] ==> c.pts == Outs(inc, ts)[|Parts(acts)|])
    && AllSound(acts, Outs(inc, ts), accepted)
  }

  /**
    Main theorem. Over any run, every audio frame muxed is made of the next frames taken
    in, and its time is the smoothed time of the first of these.
   */
  lemma {:induction false} SoundIsMuxed(events: seq<Event>, inc: nat)
    ensures Clocked(ControlAfter(events, inc), ActsOf(events, inc), Times(events), Accepted(events, inc), inc)
    ensures AllSound(ActsOf(events, inc), Outs(inc, Times(events)), Accepted(events, inc))
    decreases |events|
  {
    hide Acts, NextControl, Parts, Clocked, Times, Accepted, ActsOf, ControlAfter, AllSound;
    if events == [] {
      NothingTaken(events, inc);
    } else {
      var before, e := events[..|events| - 1], events[|events| - 1];
      SoundIsMuxed(before, inc);
      RunIsSound(before, inc);
      OneMoreTaken(events, inc);
      var c, acts, ts, accepted := ControlAfter(before, inc), ActsOf(before, inc), Times(before), Accepted(before, inc);
      if e.m.Video? {
        PictureClocked(c, acts, ts, accepted, e, inc);
      } else if c.open {
        AudioClocked(c, acts, ts, accepted, e, inc);
      } else {
        ClosedStays(c, e, inc);
        assert acts + [] == acts;
      }
    }
    ClockedMeans(ControlAfter(events, inc), ActsOf(events, inc), Times(events), Accepted(events, inc), inc);
  }

  lemma NothingTaken(events: seq<Event>, inc: nat)
    requires events == []
    ensures Clocked(ControlAfter(events, inc), ActsOf(events, inc), Times(events), Accepted(events, inc), inc)
  {
  }

  /** A packet takes one audio frame in, if it is one and a segment is open. */
  lemma OneMoreTaken(events: seq<Event>, inc: nat)
    requires events != []
    ensures var before, e := events[..|events| - 1], events[|events| - 1];
            var c := ControlAfter(before, inc);
            && ControlAfter(events, inc) == NextControl(c, e.m, inc)
            && ActsOf(events, inc) == ActsOf(before, inc) + Acts(c, e.m, inc, e.name)
            && Times(events) == (if e.m.Audio? && c.open then Times(before) + [e.m.timestamp * 90] else Times(before))
            && Accepted(events, inc) == if e.m.Audio? && c.open then Accepted(before, inc) + [e.m.data] else Accepted(before, inc)
  {
    hide Acts, NextControl, IsKey;
    if events[|events| - 1].m.Audio? {
      OpenByAudio(events, inc);
    }
  }

  /** Sound does not open the writer. */
  lemma OpenByAudio(events: seq<Event>, inc: nat)
    requires events != [] && events[|events| - 1].m.Audio?
    ensures ControlAfter(events[..|events| - 1], inc).open <==> exists k :: 0 <= k < |events| && IsKey(events[k])
  {
    hide ControlAfter;
    var before := events[..|events| - 1];
    PicturesAreMuxed(before, inc);
    assert forall k :: 0 <= k < |before| ==> before[k] == events[k];
  }

  lemma ClockedMeans(c: Control, acts: seq<Act>, ts: seq<nat>, accepted: seq<seq<byte>>, inc: nat)
    requires Clocked(c, acts, ts, accepted, inc)
    ensures AllSound(acts, Outs(inc, ts), accepted)
  {
  }

  lemma ClosedStays(c: Control, e: Event, inc: nat)
    requires !c.open && e.m.Audio?
    ensures NextControl(c, e.m, inc) == c && Acts(c, e.m, inc, e.name) == []
  {
  }

  /** What was muxed before stays right when more is muxed and taken in. */
  lemma StillSound(acts: seq<Act>, more: seq<Act>, outs: seq<nat>, accepted: seq<seq<byte>>, newOuts: seq<nat>, newAccepted: seq<seq<byte>>)
    requires AllSound(acts, outs, accepted) && outs <= newOuts && accepted <= newAccepted && |newOuts| == |newAccepted|
    ensures forall k :: 0 <= k < |acts| && acts[k].Emit? && !acts[k].f.isVideo ==> Sounds(acts + more, k, newOuts, newAccepted)
  {
    hide Parts, Concat;
    forall k | 0 <= k < |acts| && acts[k].Emit? && !acts[k].f.isVideo ensures Sounds(acts + more, k, newOuts, newAccepted) {
      assert Sounds(acts, k, outs, accepted);
      assert (acts + more)[..k] == acts[..k];
      var n, m := |Parts(acts[..k])|, |acts[k].parts|;
      assert newAccepted[n..n + m] == accepted[n..n + m];
    }
  }

  /** One act more. */
  lemma SoundSnoc(acts: seq<Act>, a: Act, outs: seq<nat>, accepted: seq<seq<byte>>)
    requires AllSound(acts, outs, accepted) && |outs| == |accepted|
    requires a.Emit? && !a.f.isVideo ==> Sounds(acts + [a], |acts|, outs, accepted)
    ensures AllSound(acts + [a], outs, accepted)
  {
    StillSound(acts, [a], outs, accepted, outs, accepted);
    hide Sounds;
  }

  lemma FlushSounds(c: Control, acts: seq<Act>, outs: seq<nat>, accepted: seq<seq<byte>>)
    requires c.waiting != [] && accepted == Parts(acts) + c.waiting && |outs| == |accepted| && c.pts == outs[|Parts(acts)|]
    requires AllSound(acts, outs, accepted)
    ensures AllSound(acts + [Flushed(c)], outs, accepted) && Parts(acts + [Flushed(c)]) == accepted
  {
    var a := Flushed(c);
    PartsSnoc(acts, a);
    assert (acts + [a])[..|acts|] == acts;
    var n := |Parts(acts)|;
    hide Parts, Concat, AllSound;
    assert accepted[n..n + |c.waiting|] == c.waiting;
    SoundSnoc(acts, a, outs, accepted);
  }

  lemma AudioClocked(c: Control, acts: seq<Act>, ts: seq<nat>, accepted: seq<seq<byte>>, e: Event, inc: nat)
    requires Clocked(c, acts, ts, accepted, inc) && c.open && e.m.Audio? && e.m.timestamp * 90 <= MAX_DTS
    ensures Clocked(NextControl(c, e.m, inc), acts + Acts(c, e.m, inc, e.name), ts + [e.m.timestamp * 90],
                    accepted + [e.m.data], inc)
  {
    hide Parts, Concat, AllSound, Flushed;
    var dts := e.m.timestamp * 90;
    var c1, all, taken := Cached(c, e.m.timestamp, e.m.data, inc), ts + [dts], accepted + [e.m.data];
    OutsSnoc(inc, ts, dts);
    PlusAssoc(Parts(acts), c.waiting, [e.m.data]);
    assert c1.pts == Outs(inc, all)[|Parts(acts)|];
    AllStillSound(acts, Outs(inc, ts), accepted, Outs(inc, all), taken);
    hide Outs;
    if |c1.waiting| >= 6 {
      FlushSounds(c1, acts, Outs(inc, all), taken);
      assert taken + [] == taken;
    } else {
      assert acts + [] == acts;
    }
  }

  lemma AllStillSound(acts: seq<Act>, outs: seq<nat>, accepted: seq<seq<byte>>, newOuts: seq<nat>, newAccepted: seq<seq<byte>>)
    requires AllSound(acts, outs, accepted) && outs <= newOuts && accepted <= newAccepted && |newOuts| == |newAccepted|
    ensures AllSound(acts, newOuts, newAccepted)
  {
    StillSound(acts, [], outs, accepted, newOuts, newAccepted);
    assert acts + [] == acts;
  }

  lemma OutsSnoc(inc: nat, ts: seq<nat>, dts: nat)
    ensures Outs(inc, ts + [dts]) == Outs(inc, ts) + [Out(Align.After(inc, ts), dts, inc)]
    ensures Align.After(inc, ts + [dts]) == Align.Next(Align.After(inc, ts), dts, inc)
  {
    assert (ts + [dts])[..|ts|] == ts;
  }

  lemma PictureClocked(c: Control, acts: seq<Act>, ts: seq<nat>, accepted: seq<seq<byte>>, e: Event, inc: nat)
    requires Clocked(c, acts, ts, accepted, inc) && e.m.Video? && (!c.open ==> c.waiting == [])
    ensures Clocked(NextControl(c, e.m, inc), acts + Acts(c, e.m, inc, e.name), ts, accepted, inc)
  {
    hide Parts, Concat, AllSound, Flushed;
    var emit, outs := Emit(VideoFrame(e.m), []), Outs(inc, ts);
    assert acts + [] == acts;
    if IsKey(e) && !c.open {
      PlusAssoc(acts, [Begin], [emit]);
      SilentSnoc(acts, Begin, outs, accepted);
      SilentSnoc(acts + [Begin], emit, outs, accepted);
    } else if IsKey(e) && DurationMs(c.stat) >= 3000 {
      var flushed := acts + if c.waiting != [] then [Flushed(c)] else [];
      var end := End(e.name, DurationMs(c.stat));
      CutInFour(acts, c, e, inc);
      if c.waiting != [] {
        FlushSounds(c, acts, outs, accepted);
      }
      assert Parts(acts) + [] == Parts(acts);
      SilentSnoc(flushed, end, outs, accepted);
      SilentSnoc(flushed + [end], Begin, outs, accepted);
      SilentSnoc(flushed + [end] + [Begin], emit, outs, accepted);
      assert accepted + [] == accepted;
    } else if c.open {
      assert Acts(c, e.m, inc, e.name) == [emit];
      SilentSnoc(acts, emit, outs, accepted);
    } else {
      assert Acts(c, e.m, inc, e.name) == [];
    }
  }

  lemma SilentSnoc(acts: seq<Act>, a: Act, outs: seq<nat>, accepted: seq<seq<byte>>)
    requires AllSound(acts, outs, accepted) && |outs| == |accepted| && (a.Emit? ==> a.f.isVideo && a.parts == [])
    ensures AllSound(acts + [a], outs, accepted) && Parts(acts + [a]) == Parts(acts)
  {
    SoundSnoc(acts, a, outs, accepted);
    PartsSnoc(acts, a);
    assert Parts(acts) + [] == Parts(acts);
  }

  /** Joining frames puts their bytes one after the other. */
  lemma {:induction false} ConcatJoins(a: seq<seq<byte>>, b: seq<seq<byte>>)
    ensures Concat(a + b) == Concat(a) + Concat(b)
    ensures |b| == 1 ==> Concat(b) == b[0]
    decreases |b|
  {
    if |b| == 1 { ConcatOne(b); }
    hide Concat;
    ConcatLast(b);
    ConcatLast(a + b);
    if b == [] {
      assert a + b == a && Concat(a) + [] == Concat(a);
    } else {
      var front, last := b[..|b| - 1], b[|b| - 1];
      ConcatJoins(a, front);
      assert (a + b)[..|a + b| - 1] == a + front;
      PlusAssoc(Concat(a), Concat(front), last);
    }
  }

  lemma ConcatLast(parts: seq<seq<byte>>)
    ensures Concat(parts) == if parts == [] then [] else Concat(parts[..|parts| - 1]) + parts[|parts| - 1]
  {
  }

  lemma ConcatOne(parts: seq<seq<byte>>)
    requires |parts| == 1
    ensures Concat(parts) == parts[0]
  {
    assert parts[..0] == [] && [] + parts[0] == parts[0];
  }

  /** Six frames at a time are joined, and fewer only at the end of a segment. */
  lemma {:induction false} SoundInSixes(events: seq<Event>, inc: nat, k: nat)
    requires k < |ActsOf(events, inc)| && ActsOf(events, inc)[k].Emit? && !ActsOf(events, inc)[k].f.isVideo
    ensures var acts := ActsOf(events, inc);
            |acts[k].parts| == 6 || (|acts[k].parts| < 6 && k + 1 < |acts| && acts[k + 1].End?)
    decreases |events|
  {
    hide ActsOf, Acts, ControlAfter;
    OneMoreEvent(events, inc);
    var before, e := events[..|events| - 1], events[|events| - 1];
    var c, acts := ControlAfter(before, inc), ActsOf(before, inc);
    if k < |acts| {
      SoundInSixes(before, inc, k);
    } else {
      EventInSixes(c, e, inc, k - |acts|);
    }
  }

  lemma OneMoreEvent(events: seq<Event>, inc: nat)
    ensures ActsOf([], inc) == []
    ensures events != [] ==>
              var before, e := events[..|events| - 1], events[|events| - 1];
              && ActsOf(events, inc) == ActsOf(before, inc) + Acts(ControlAfter(before, inc), e.m, inc, e.name)
              && |ControlAfter(before, inc).waiting| < 6
  {
    hide Acts, NextControl, Accepted, Parts, Bracketed, Sound;
    if events != [] {
      RunIsSound(events[..|events| - 1], inc);
    }
  }

  lemma EventInSixes(c: Control, e: Event, inc: nat, k: nat)
    requires |c.waiting| < 6
    ensures var more := Acts(c, e.m, inc, e.name);
            k < |more| && more[k].Emit? && !more[k].f.isVideo ==>
            |more[k].parts| == 6 || (|more[k].parts| < 6 && k + 1 < |more| && more[k + 1].End?)
  {
    hide Concat;
  }
}
