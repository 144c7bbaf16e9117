/**
  The segmenting source as it runs: its clock, its audio cache, the open segment and
  the muxer, driven by one packet at a time.
 */
module HlsSource {
  import opened Bytes
  import opened Align
  import opened HlsWindow
  import opened TsFormat
  import opened TsTables
  import opened TsMuxer
  import opened Hls
  import opened HlsSegments

  class Status {
    var hasSetFirstTs: bool
    var firstTimestamp: int
    var lastTimestamp: int

    constructor ()
      ensures State() == Stat(false, 0, 0)
    {
      hasSetFirstTs, firstTimestamp, lastTimestamp := false, 0, 0;
    }

    function State(): Stat
      reads this
    {
      Stat(hasSetFirstTs, firstTimestamp, lastTimestamp)
    }

    method Update(timestamp: uint32)
      modifies this
      ensures State() == Updated(old(State()), timestamp)
    {
      if !hasSetFirstTs {
        hasSetFirstTs := true;
        firstTimestamp := timestamp;
      }
      lastTimestamp := timestamp;
    }

    method ResetAndNew()
      modifies this
      ensures State() == old(State()).(hasFirst := false)
    {
      hasSetFirstTs := false;
    }
  }

  /** Audio frames joined in one buffer until there are enough; `waiting` are the frames themselves. */
  class AudioCache {
    var num: nat
    var offset: nat
    var pts: nat
    var buf: seq<byte>
    ghost var waiting: seq<seq<byte>>

    ghost predicate Valid()
      reads this
    {
      num == |waiting| && (num > 0 ==> buf == Concat(waiting) && offset == |buf|)
    }

    constructor ()
      ensures Valid() && waiting == [] && pts == 0
    {
      num, offset, pts, buf, waiting := 0, 0, 0, [], [];
    }

    method Cache(src: seq<byte>, time: nat)
      requires Valid()
      modifies this
      ensures Valid() && waiting == old(waiting) + [src] && pts == if old(waiting) == [] then time else old(pts)
    {
      if num == 0 {
        offset := 0;
        pts := time;
        buf := [];
      }
      buf := buf + src;
      offset := offset + |src|;
      num := num + 1;
      ConcatSnoc(waiting, src);
      waiting := waiting + [src];
    }

    method GetFrame() returns (length: nat, time: nat, data: seq<byte>)
      requires Valid() && num > 0
      modifies this
      ensures Valid() && waiting == [] && pts == old(pts)
      ensures time == pts && data == Concat(old(waiting)) && length == |data|
    {
      num := 0;
      waiting := [];
      length, time, data := offset, pts, buf;
    }
  }

  lemma ConcatSnoc(parts: seq<seq<byte>>, src: seq<byte>)
    ensures Concat(parts + [src]) == Concat(parts) + src && Concat([]) == []
  {
    assert (parts + [src])[..|parts|] == parts;
  }

  class Source {
    var seqNum: nat
    var btswriter: Sink?
    var pts: int
    var dts: nat
    const inc: nat
    const stat: Status
    const aligner: Aligner
    const cache: AudioCache
    const tsCache: TSCacheItem
    const muxer: Muxer

    ghost predicate Valid()
      reads this, stat, aligner, cache, tsCache, muxer, btswriter
    {
      cache.Valid() && muxer.Valid() && tsCache.num == WINDOW
    }

    ghost function Repr(): set<object>
      reads this
    {
      {this, stat, aligner, cache, tsCache, muxer, muxer.pat, muxer.pmt, muxer.tsPacket} +
      if btswriter == null then {} else {btswriter}
    }

    ghost function State(): Control
      reads this, stat, aligner, cache
    {
      Control(btswriter != null, stat.State(), aligner.State(), cache.pts, cache.waiting)
    }

    ghost function Produced(): Output
      requires Valid()
      reads this, stat, aligner, cache, tsCache, muxer, btswriter
    {
      Output(seqNum, if btswriter == null then [] else btswriter.data, Counters(), tsCache.State())
    }

    ghost function Counters(): Ccs
      requires muxer.Valid()
      reads this, muxer
    {
      Ccs(muxer.videoCc, muxer.audioCc, muxer.patCc, muxer.pmtCc)
    }

    /** `inc` is the length of an audio frame, which the sample rate gives. */
    constructor (inc: nat)
      ensures Valid() && State() == START && Produced() == EMPTY && this.inc == inc && fresh(Repr())
    {
      seqNum, btswriter, pts, dts := 0, null, 0, 0;
      this.inc := inc;
      stat := new Status();
      aligner := new Aligner();
      cache := new AudioCache();
      tsCache := new TSCacheItem();
      muxer := new Muxer();
      new;
      assert SetAll([]) == Window([], map[]);
    }

    /** A frame goes through the muxer to the open segment. */
    method MuxTo(f: Frame, w: Sink)
      requires Valid() && w == btswriter
      modifies muxer, muxer.tsPacket, w
      ensures Valid() && Produced() == Apply(old(Produced()), Emit(f, []))
      ensures State() == old(State())
    {
      hide Muxed;
      var bytes := muxer.Mux(f);
      var m := w.Write(bytes);
    }

    method MuxAudio(limit: nat)
      requires Valid() && btswriter != null && limit > 0
      modifies muxer, muxer.tsPacket, btswriter, cache
      ensures Valid()
      ensures var c := old(State());
              if |c.waiting| < limit then State() == c && Produced() == old(Produced())
              else State() == c.(waiting := []) && Produced() == Apply(old(Produced()), Flushed(c))
    {
      hide Concat, Muxed;
      if cache.num < limit {
        return;
      }
      var length, time, data := cache.GetFrame();
      MuxTo(Frame(false, false, time / HZ % 0x1_0000_0000, 0, data), btswriter);
    }

    /** At a key frame: the first segment is begun, or a long enough one is ended and the next begun. */
    method Cut(name: string)
      requires Valid()
      modifies Repr()
      ensures Valid() && fresh(Repr() - old(Repr()))
      ensures State() == AfterCut(old(State())) && Produced() == ApplyAll(old(Produced()), CutActs(old(State()), name))
    {
      hide Concat, Apply, ApplyAll, Flushed;
      ghost var c, o := State(), Produced();
      var newf := true;
      if btswriter == null {
        btswriter := new Sink();
        assert Produced() == o;
        ActsOne(o, Begin);
      } else if stat.lastTimestamp - stat.firstTimestamp >= DURATION {
        MuxAudio(1);
        ActsCut(o, c, name, Produced());
        EndSegment(name);
      } else {
        ActsNone(o);
        newf := false;
      }
      if newf {
        WriteTables(btswriter);
      }
    }

    /** The open segment is numbered and offered, and the buffer and the clock start afresh. */
    method EndSegment(name: string)
      requires Valid() && btswriter != null && stat.lastTimestamp - stat.firstTimestamp >= DURATION
      modifies `seqNum, tsCache, btswriter, stat
      ensures Valid() && btswriter.data == [] && State() == old(State()).(stat := old(stat.State()).(hasFirst := false))
      ensures Produced() == Apply(old(Produced()), End(name, DurationMs(old(stat.State()))))
    {
      hide Concat, Set;
      seqNum := seqNum + 1;
      var duration := stat.lastTimestamp - stat.firstTimestamp;
      var item := Item(name, seqNum, duration, btswriter.data);
      tsCache.SetItem(name, item);
      btswriter.data := [];
      stat.ResetAndNew();
    }

    method WriteTables(w: Sink)
      requires Valid() && w == btswriter && w.data == []
      modifies muxer, muxer.pat, muxer.pmt, w
      ensures Valid() && Produced() == Apply(old(Produced()), Begin) && State() == old(State())
    {
      hide TablePacket, AsBytes, PmtSection, NextTableCc;
      ghost var c := Counters();
      var pat := muxer.PAT();
      var m := w.Write(AsBytes(pat));
      assert w.data == PatBytes(c) by {
        assert w.data == [] + AsBytes(pat);
      }
      hide PatBytes;
      var pmt := muxer.PMT(SOUND_AAC, true);
      m := w.Write(AsBytes(pmt));
      assert w.data == PatBytes(c) + PmtBytes(c) && Counters() == AfterTables(c);
    }

    /** Times in ticks. The composition time is taken for an unsigned one; the muxer takes its own. */
    method CalcPtsDts(isVideo: bool, timestamp: uint32, compositionTime: int)
      modifies this`pts, this`dts, aligner
      ensures aligner.State() == if isVideo then old(aligner.State()) else Align.Next(old(aligner.State()), timestamp * HZ, inc)
      ensures isVideo ==> dts == timestamp * HZ && pts == (timestamp + compositionTime % 0x1_0000_0000) * HZ
      ensures !isVideo ==> dts == pts == Out(old(aligner.State()), timestamp * HZ, inc)
    {
      dts := timestamp * HZ;
      if isVideo {
        pts := dts + compositionTime % 0x1_0000_0000 * HZ;
      } else {
        dts := aligner.Align(dts, inc);
        pts := dts;
      }
    }

    /** One packet behind the parser: a cut before a key frame, then the clock, then the muxer. */
    method Send(m: Media, name: string)
      requires Valid()
      modifies Repr()
      ensures Valid() && fresh(Repr() - old(Repr()))
      ensures State() == NextControl(old(State()), m, inc)
      ensures Produced() == ApplyAll(old(Produced()), Acts(old(State()), m, inc, name))
    {
      hide ApplyAll, CutActs, AfterCut;
      ghost var o, c := Produced(), State();
      if m.Video? && m.isKey {
        Cut(name);
        CutOpens(c, name);
      }
      ActsNone(o);
      if btswriter == null {
        assert Acts(c, m, inc, name) == [];
        return;
      }
      if m.Video? {
        SendVideo(m);
        ApplySnoc(o, if m.isKey then CutActs(c, name) else [], Emit(VideoFrame(m), []));
      } else {
        SendAudio(m);
        ActsOne(o, Flushed(Cached(c, m.timestamp, m.data, inc)));
      }
    }

    method SendVideo(m: Media)
      requires Valid() && m.Video? && btswriter != null
      modifies this`pts, this`dts, stat, aligner, muxer, muxer.tsPacket, btswriter
      ensures Valid() && State() == old(State()).(stat := Updated(old(stat.State()), m.timestamp))
      ensures Produced() == Apply(old(Produced()), Emit(VideoFrame(m), []))
    {
      hide Concat, Apply;
      stat.Update(m.timestamp);
      CalcPtsDts(true, m.timestamp, m.compositionTime);
      assert Produced() == old(Produced());
      MuxTo(VideoFrame(m), btswriter);
    }

    method SendAudio(m: Media)
      requires Valid() && m.Audio? && btswriter != null
      modifies this`pts, this`dts, stat, aligner, cache, muxer, muxer.tsPacket, btswriter
      ensures Valid()
      ensures var cached := Cached(old(State()), m.timestamp, m.data, inc);
              if |cached.waiting| < CACHE_MAX_FRAMES then State() == cached && Produced() == old(Produced())
              else State() == cached.(waiting := []) && Produced() == Apply(old(Produced()), Flushed(cached))
    {
      hide Concat, Apply, Align.Next, Out, Flushed;
      stat.Update(m.timestamp);
      CalcPtsDts(false, m.timestamp, 0);
      cache.Cache(m.data, pts);
      assert Produced() == old(Produced());
      assert State() == Cached(old(State()), m.timestamp, m.data, inc);
      MuxAudio(CACHE_MAX_FRAMES);
    }
  }

  lemma ActsNone(o: Output)
    ensures ApplyAll(o, []) == o
  {
  }

  lemma ActsOne(o: Output, a: Act)
    ensures ApplyAll(o, [a]) == Apply(o, a)
  {
    assert [a][..0] == [];
  }

  lemma ApplySnoc(o: Output, acts: seq<Act>, a: Act)
    ensures ApplyAll(o, acts + [a]) == Apply(ApplyAll(o, acts), a)
  {
    assert (acts + [a])[..|acts|] == acts;
  }

  lemma CutOpens(c: Control, name: string)
    ensures AfterCut(c).open && AfterCut(c).smoother == c.smoother
  {
  }

  /** A cut that ends a segment, act by act. */
  lemma ActsCut(o: Output, c: Control, name: string, flushed: Output)
    requires c.open && DurationMs(c.stat) >= DURATION
    requires flushed == if c.waiting == [] then o else Apply(o, Flushed(c))
    ensures ApplyAll(o, CutActs(c, name)) == Apply(Apply(flushed, End(name, DurationMs(c.stat))), Begin)
  {
    hide Apply, Flushed;
    var flush: seq<Act> := if c.waiting != [] then [Flushed(c)] else [];
    var end := End(name, DurationMs(c.stat));
    ActsNone(o);
    ActsOne(o, Flushed(c));
    ApplySnoc(o, flush, end);
    ApplySnoc(o, flush + [end], Begin);
    hide ApplyAll;
    assert flush + [end] + [Begin] == flush + [end, Begin];
  }
}
