/**
  Segmenting for HTTP live streaming: which frames are muxed when, where segments
  begin and end, and what bytes a segment comes to hold.
 */
module Hls {
  import opened Bytes
  import opened Align
  import opened HlsWindow
  import opened TsFormat
  import opened TsTables

  const DURATION := 3000
  const CACHE_MAX_FRAMES := 6
  const SOUND_AAC: bv8 := 10

  /** A packet behind the parser: an Annex B access unit, or an ADTS frame. */
  datatype Media =
    | Video(isKey: bool, timestamp: uint32, compositionTime: int, data: seq<byte>)
    | Audio(timestamp: uint32, data: seq<byte>)

  // ------------------------------------------------------------- decisions

  /** First and last timestamp since the segment began. */
  datatype Stat = Stat(hasFirst: bool, first: int, last: int)

  function Updated(s: Stat, timestamp: int): Stat {
    Stat(true, if s.hasFirst then s.first else timestamp, timestamp)
  }

  function DurationMs(s: Stat): int {
    s.last - s.first
  }

  /** All that decides what happens next; `waiting` are the audio frames in the cache, `pts` is the first one's. */
  datatype Control = Control(open: bool, stat: Stat, smoother: Smoother, pts: nat, waiting: seq<seq<byte>>)

  const START := Control(false, Stat(false, 0, 0), Smoother(0, 0), 0, [])

  /** What is done to the output: a segment is begun, a frame is muxed, a segment is ended and offered. */
  datatype Act = Begin | Emit(f: Frame, parts: seq<seq<byte>>) | End(name: string, duration: nat)

  function Concat(parts: seq<seq<byte>>): seq<byte> {
    if parts == [] then [] else Concat(parts[..|parts| - 1]) + parts[|parts| - 1]
  }

  /** The cached audio as one frame, at the time of its first. */
  function Flushed(c: Control): Act {
    Emit(Frame(false, false, c.pts / HZ % 0x1_0000_0000, 0, Concat(c.waiting)), c.waiting)
  }

  /** A key frame begins the first segment, or ends one that is long enough and begins the next. */
  predicate Cuts(c: Control) {
    !c.open || DurationMs(c.stat) >= DURATION
  }

  function CutActs(c: Control, name: string): seq<Act> {
    if !c.open then [Begin]
    else if DurationMs(c.stat) < DURATION then []
    else (if c.waiting != [] then [Flushed(c)] else []) + [End(name, DurationMs(c.stat)), Begin]
  }

  function AfterCut(c: Control): Control {
    if !c.open then c.(open := true)
    else if DurationMs(c.stat) < DURATION then c
    else c.(stat := c.stat.(hasFirst := false), waiting := [])
  }

  function VideoFrame(m: Media): Frame
    requires m.Video?
  {
    Frame(true, m.isKey, m.timestamp, m.compositionTime, m.data)
  }

  /** The acts of one packet; `inc` is the length of an audio frame in ticks, `name` what a segment would be called. */
  function Acts(c: Control, m: Media, inc: nat, name: string): seq<Act> {
    match m
    case Video(isKey, timestamp, _, _) =>
      var cut := if isKey then CutActs(c, name) else [];
      var open := c.open || isKey;
      cut + if open then [Emit(VideoFrame(m), [])] else []
    case Audio(timestamp, data) =>
      if !c.open then []
      else
        var cached := Cached(c, timestamp, data, inc);
        if |cached.waiting| >= CACHE_MAX_FRAMES then [Flushed(cached)] else []
  }

  function Cached(c: Control, timestamp: uint32, data: seq<byte>, inc: nat): Control {
    var dts := timestamp * HZ;
    c.(stat := Updated(c.stat, timestamp), smoother := Align.Next(c.smoother, dts, inc),
       pts := if c.waiting == [] then Out(c.smoother, dts, inc) else c.pts, waiting := c.waiting + [data])
  }

  function NextControl(c: Control, m: Media, inc: nat): Control {
    match m
    case Video(isKey, timestamp, _, _) =>
      var cut := if isKey then AfterCut(c) else c;
      if cut.open then cut.(stat := Updated(cut.stat, timestamp)) else cut
    case Audio(timestamp, data) =>
      if !c.open then c
      else
        var cached := Cached(c, timestamp, data, inc);
        if |cached.waiting| >= CACHE_MAX_FRAMES then cached.(waiting := []) else cached
  }

  // ------------------------------------------------------------ whole runs

  /** A packet, and the clock's name for a segment that it might end. */
  datatype Event = Event(m: Media, name: string)

  function ControlAfter(events: seq<Event>, inc: nat): Control {
    if events == [] then START
    else NextControl(ControlAfter(events[..|events| - 1], inc), events[|events| - 1].m, inc)
  }

  function ActsOf(events: seq<Event>, inc: nat): seq<Act> {
    if events == [] then []
    else
      var before, e := events[..|events| - 1], events[|events| - 1];
      ActsOf(before, inc) + Acts(ControlAfter(before, inc), e.m, inc, e.name)
  }

  /** The audio frames taken in: all since the first segment was begun. */
  function Accepted(events: seq<Event>, inc: nat): seq<seq<byte>> {
    if events == [] then []
    else
      var before, e := events[..|events| - 1], events[|events| - 1];
      if e.m.Audio? && ControlAfter(before, inc).open then Accepted(before, inc) + [e.m.data]
      else Accepted(before, inc)
  }

  /** The audio frames that went into what was muxed. */
  function Parts(acts: seq<Act>): seq<seq<byte>> {
    if acts == [] then []
    else
      var last := acts[|acts| - 1];
      if last.Emit? then Parts(acts[..|acts| - 1]) + last.parts else Parts(acts[..|acts| - 1])
  }

  /** An audio frame muxed is up to six frames joined, in one piece and in order. */
  predicate Sound(a: Act) {
    match a
    case Begin => true
    case Emit(f, parts) => if f.isVideo then parts == [] else 1 <= |parts| <= CACHE_MAX_FRAMES && f.data == Concat(parts)
    case End(_, duration) => duration >= DURATION
  }

  /** Segments are begun before they are ended, frames are muxed in between, and nothing is left outside. */
  predicate Bracketed(acts: seq<Act>, open: bool) {
    if acts == [] then !open
    else
      var front := acts[..|acts| - 1];
      match acts[|acts| - 1]
      case Begin => open && Bracketed(front, false)
      case Emit(_, _) => open && Bracketed(front, true)
      case End(_, _) => !open && Bracketed(front, true)
  }

  lemma PartsSnoc(acts: seq<Act>, a: Act)
    ensures Parts(acts + [a]) == Parts(acts) + if a.Emit? then a.parts else []
  {
    assert (acts + [a])[..|acts|] == acts;
    assert Parts(acts) + [] == Parts(acts);
  }

  lemma BracketedSnoc(acts: seq<Act>, a: Act, open: bool)
    ensures Bracketed(acts + [a], open) <==>
            match a
            case Begin => open && Bracketed(acts, false)
            case Emit(_, _) => open && Bracketed(acts, true)
            case End(_, _) => !open && Bracketed(acts, true)
  {
    assert (acts + [a])[..|acts|] == acts;
  }

  /** Acts after acts, one at a time. */
  predicate Continues(before: seq<Act>, more: seq<Act>, open: bool, nowOpen: bool, parts: seq<seq<byte>>) {
    (Bracketed(before, open) ==> Bracketed(before + more, nowOpen)) &&
    Parts(before + more) == Parts(before) + parts && (forall k :: 0 <= k < |more| ==> Sound(more[k]))
  }

  lemma NoneContinues(before: seq<Act>, open: bool)
    ensures Continues(before, [], open, open, [])
  {
    assert before + [] == before && Parts(before) + [] == Parts(before);
  }

  lemma OneContinues(before: seq<Act>, a: Act, open: bool)
    requires Sound(a) && open == !a.Begin?
    ensures Continues(before, [a], open, !a.End?, if a.Emit? then a.parts else [])
  {
    PartsSnoc(before, a);
    BracketedSnoc(before, a, !a.End?);
  }

  lemma BothContinue(before: seq<Act>, a: seq<Act>, b: seq<Act>, o1: bool, o2: bool, o3: bool,
                     p: seq<seq<byte>>, q: seq<seq<byte>>)
    requires Continues(before, a, o1, o2, p) && Continues(before + a, b, o2, o3, q)
    ensures Continues(before, a + b, o1, o3, p + q)
  {
    hide Bracketed, Parts, Sound;
    assert before + (a + b) == before + a + b;
    assert Parts(before) + (p + q) == Parts(before) + p + q;
    SoundBoth(a, b);
  }

  lemma CutContinues(before: seq<Act>, c: Control, name: string)
    requires |c.waiting| < CACHE_MAX_FRAMES && (!c.open ==> c.waiting == [])
    ensures Continues(before, CutActs(c, name), c.open, true, if c.open && Cuts(c) then c.waiting else [])
  {
    hide Concat, Continues;
    if !c.open {
      OneContinues(before, Begin, false);
    } else if DurationMs(c.stat) < DURATION {
      NoneContinues(before, true);
    } else {
      var flush: seq<Act> := if c.waiting != [] then [Flushed(c)] else [];
      if c.waiting != [] {
        OneContinues(before, Flushed(c), true);
      } else {
        NoneContinues(before, true);
      }
      var end := End(name, DurationMs(c.stat));
      OneContinues(before + flush, end, true);
      BothContinue(before, flush, [end], true, true, false, c.waiting, []);
      OneContinues(before + (flush + [end]), Begin, false);
      BothContinue(before, flush + [end], [Begin], true, false, true, c.waiting + [], []);
      assert flush + [end] + [Begin] == flush + [end, Begin] && c.waiting + [] + [] == c.waiting;
    }
  }

  /**
    Segments are properly begun and ended, never shorter than three seconds; and of
    the audio frames taken in, all but those in the cache, at most five, have been muxed.
   */
  predicate InOrder(c: Control, acts: seq<Act>, accepted: seq<seq<byte>>) {
    Bracketed(acts, c.open) && accepted == Parts(acts) + c.waiting && |c.waiting| < CACHE_MAX_FRAMES &&
    (!c.open ==> c.waiting == []) && forall k :: 0 <= k < |acts| ==> Sound(acts[k])
  }

  /** Over any run, each audio frame taken in is muxed exactly once, in order of arrival, or still waits. */
  lemma {:induction false} RunIsSound(events: seq<Event>, inc: nat)
    ensures InOrder(ControlAfter(events, inc), ActsOf(events, inc), Accepted(events, inc))
    decreases |events|
  {
    if events != [] {
      var before, e := events[..|events| - 1], events[|events| - 1];
      RunIsSound(before, inc);
      var c, acts := ControlAfter(before, inc), ActsOf(before, inc);
      hide InOrder, Acts, NextControl;
      if e.m.Video? {
        VideoInOrder(acts, c, e.m, inc, e.name, Accepted(before, inc));
      } else {
        AudioInOrder(acts, c, e.m, inc, e.name, Accepted(before, inc));
      }
    }
  }

  lemma VideoInOrder(before: seq<Act>, c: Control, m: Media, inc: nat, name: string, accepted: seq<seq<byte>>)
    requires m.Video? && InOrder(c, before, accepted)
    ensures InOrder(NextControl(c, m, inc), before + Acts(c, m, inc, name), accepted)
  {
    VideoStep(before, c, m, inc, name);
    hide Acts, NextControl, Parts, Bracketed, Sound, FlushedBy, Continues;
    assert c.waiting + [] == c.waiting && accepted + [] == accepted;
    StaysInOrder(before, c, accepted, Acts(c, m, inc, name), NextControl(c, m, inc), FlushedBy(c, m), []);
  }

  lemma AudioInOrder(before: seq<Act>, c: Control, m: Media, inc: nat, name: string, accepted: seq<seq<byte>>)
    requires m.Audio? && InOrder(c, before, accepted)
    ensures InOrder(NextControl(c, m, inc), before + Acts(c, m, inc, name), if c.open then accepted + [m.data] else accepted)
  {
    AudioStep(before, c, m, inc, name);
    var next, more := NextControl(c, m, inc), Acts(c, m, inc, name);
    if c.open {
      hide Acts, NextControl, Parts, Bracketed, Sound, Continues;
      StaysInOrder(before, c, accepted, more, next, if more == [] then [] else c.waiting + [m.data], [m.data]);
    } else {
      assert more == [] && before + [] == before;
    }
  }

  /** What was accepted before and now is what was muxed before and now, and what waits. */
  lemma StaysInOrder(before: seq<Act>, c: Control, accepted: seq<seq<byte>>, more: seq<Act>, next: Control,
                     parts: seq<seq<byte>>, extra: seq<seq<byte>>)
    requires InOrder(c, before, accepted) && Continues(before, more, c.open, next.open, parts)
    requires c.waiting + extra == parts + next.waiting && |next.waiting| < CACHE_MAX_FRAMES
    requires !next.open ==> next.waiting == []
    ensures InOrder(next, before + more, accepted + extra)
  {
    hide Parts, Bracketed, Sound;
    var was := Parts(before);
    assert was + c.waiting + extra == was + (c.waiting + extra);
    assert was + (parts + next.waiting) == was + parts + next.waiting;
    SoundBoth(before, more);
  }

  lemma SoundBoth(a: seq<Act>, b: seq<Act>)
    requires (forall k :: 0 <= k < |a| ==> Sound(a[k])) && (forall k :: 0 <= k < |b| ==> Sound(b[k]))
    ensures forall k :: 0 <= k < |a + b| ==> Sound((a + b)[k])
  {
  }

  /** The cached audio that a video packet has muxed. */
  function FlushedBy(c: Control, m: Media): seq<seq<byte>> {
    if m.Video? && m.isKey && c.open && Cuts(c) then c.waiting else []
  }

  lemma VideoStep(before: seq<Act>, c: Control, m: Media, inc: nat, name: string)
    requires m.Video? && |c.waiting| < CACHE_MAX_FRAMES && (!c.open ==> c.waiting == [])
    ensures var next := NextControl(c, m, inc);
            Continues(before, Acts(c, m, inc, name), c.open, next.open, FlushedBy(c, m)) &&
            c.waiting == FlushedBy(c, m) + next.waiting && |next.waiting| < CACHE_MAX_FRAMES &&
            (!next.open ==> next.waiting == [])
  {
    hide Continues, CutActs;
    var cut := if m.isKey then CutActs(c, name) else [];
    if m.isKey {
      CutContinues(before, c, name);
    } else {
      NoneContinues(before, c.open);
    }
    var parts := FlushedBy(c, m);
    assert parts + [] == parts;
    if c.open || m.isKey {
      OneContinues(before + cut, Emit(VideoFrame(m), []), true);
      BothContinue(before, cut, [Emit(VideoFrame(m), [])], c.open, true, true, parts, []);
    } else {
      assert cut + [] == [];
    }
  }

  lemma AudioStep(before: seq<Act>, c: Control, m: Media, inc: nat, name: string)
    requires m.Audio? && |c.waiting| < CACHE_MAX_FRAMES && (!c.open ==> c.waiting == [])
    ensures var next := NextControl(c, m, inc);
            var more := Acts(c, m, inc, name);
            var parts := if more == [] then [] else c.waiting + [m.data];
            Continues(before, more, c.open, next.open, parts) &&
            (if !c.open then next.waiting == [] else parts + next.waiting == c.waiting + [m.data]) &&
            |next.waiting| < CACHE_MAX_FRAMES && next.open == c.open
  {
    hide Concat, Continues;
    if c.open && |c.waiting| + 1 >= CACHE_MAX_FRAMES {
      OneContinues(before, Flushed(Cached(c, m.timestamp, m.data, inc)), true);
    } else {
      NoneContinues(before, c.open);
    }
  }
}
