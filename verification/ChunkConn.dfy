/**
  The connection as the server implements it: a buffered reader with a sticky
  error, a bump allocator for payloads, and the methods of `Conn`. Each method
  is proved against the specifications of ChunkFormat.dfy.
 */
module ChunkConn {
  import opened Bytes
  import opened ChunkFormat
  import Laws = ChunkLaws
  import Protocol = ChunkProtocol
  import Session = ChunkSession

  // -------------------------------------------------------------- allocator

  /** A Go slice: `len` bytes of an array from `off` on; `Nil` is the zero slice. */
  datatype Slice = Nil | Slice(buf: array<byte>, off: nat, len: nat)

  ghost predicate InBounds(s: Slice) {
    s.Slice? ==> s.off + s.len <= s.buf.Length
  }

  ghost function Buffer(s: Slice): set<object> {
    if s.Slice? then {s.buf} else {}
  }

  ghost function Contents(s: Slice): (c: seq<byte>)
    requires InBounds(s)
    reads Buffer(s)
  {
    if s.Slice? then s.buf[s.off..s.off + s.len] else []
  }

  /** No byte belongs to both. */
  ghost predicate Apart(a: Slice, b: Slice) {
    a.Slice? && b.Slice? && a.buf == b.buf ==> a.off + a.len <= b.off || b.off + b.len <= a.off
  }

  ghost predicate PairwiseApart(regions: seq<Slice>) {
    forall i, j :: 0 <= i < j < |regions| ==> Apart(regions[i], regions[j])
  }

  class Pool {
    var pos: nat
    var buf: array<byte>
    ghost var regions: seq<Slice>  // everything handed out so far

    ghost predicate Valid()
      reads this
    {
      && buf.Length == MAX_POOL_SIZE && pos <= MAX_POOL_SIZE
      && (forall r :: r in regions ==> InBounds(r) && (r.Slice? && r.buf == buf ==> r.off + r.len <= pos))
      && PairwiseApart(regions)
    }

    constructor ()
      ensures Valid() && regions == [] && fresh(buf)
    {
      pos := 0;
      buf := new byte[MAX_POOL_SIZE];
      regions := [];
    }

    /** The slice handed out overlaps none handed out before. */
    method Get(size: nat) returns (s: Slice)
      requires Valid() && size <= MAX_POOL_SIZE
      modifies this
      ensures Valid() && regions == old(regions) + [s]
      ensures s.Slice? && s.len == size && s.buf == buf && s.off + size == pos
      ensures buf == old(buf) || fresh(buf)
      ensures forall r :: r in old(regions) ==> Apart(r, s)
    {
      if MAX_POOL_SIZE - pos < size {
        pos := 0;
        buf := new byte[MAX_POOL_SIZE];
      }
      s := Slice(buf, pos, size);
      pos := pos + size;
      regions := regions + [s];
    }
  }

  // -------------------------------------------------------- buffered reader

  class ReadWriter {
    var input: seq<byte>   // the bytes the connection will still yield
    var readError: bool
    var output: seq<byte>  // the bytes written so far

    ghost function In(): Input
      reads this
    {
      Input(input, readError)
    }

    constructor (bytes: seq<byte>)
      ensures In() == Input(bytes, false) && output == []
    {
      input, readError, output := bytes, false, [];
    }

    method ReadByte() returns (b: byte, ok: bool)
      modifies this`input
      ensures ok == (old(input) != [])
      ensures ok ==> b == old(input)[0] && input == old(input)[1..]
      ensures !ok ==> input == []
    {
      if input == [] {
        return 0, false;
      }
      b, input, ok := input[0], input[1..], true;
    }

    method ReadUintBE(n: nat) returns (v: nat)
      requires n <= 4
      modifies this`input, this`readError
      ensures (v, In()) == ReadBE(old(In()), n)
    {
      v := 0;
      if readError {
        return;
      }
      ghost var whole := input;
      for i := 0 to n
        invariant !readError && i <= |whole| && input == whole[i..] && v == FromBE(whole[..i])
      {
        var b, ok := ReadByte();
        if !ok {
          readError := true;
          return 0;
        }
        FromBESnoc(whole[..i], b);
        assert whole[..i] + [b] == whole[..i + 1];
        v := v * 256 + b;
      }
    }

    method ReadUintLE(n: nat) returns (v: nat)
      requires n <= 4
      modifies this`input, this`readError
      ensures (v, In()) == ReadLE(old(In()), n)
    {
      v := 0;
      if readError {
        return;
      }
      ghost var whole := input;
      var weight := 1;
      for i := 0 to n
        invariant !readError && i <= |whole| && input == whole[i..] && v == FromLE(whole[..i]) && weight == Pow256(i)
      {
        var b, ok := ReadByte();
        if !ok {
          readError := true;
          return 0;
        }
        FromLESnoc(whole[..i], b);
        assert whole[..i] + [b] == whole[..i + 1];
        v, weight := v + b as int * weight, weight * 256;
      }
    }

    /** Fills `buf[lo..hi]`; what is missing is an error, after the bytes there were have been copied. */
    method Read(buf: array<byte>, lo: nat, hi: nat) returns (ok: bool)
      requires lo <= hi <= buf.Length
      modifies this`input, this`readError, buf
      ensures ok == !readError == (!old(readError) && |old(input)| >= hi - lo)
      ensures ok ==> buf[lo..hi] == old(input)[..hi - lo] && input == old(input)[hi - lo..]
      ensures !ok ==> input == if old(readError) then old(input) else []
      ensures buf[..lo] == old(buf[..lo]) && buf[hi..] == old(buf[hi..])
    {
      if readError {
        return false;
      }
      var n := Min(hi - lo, |input|);
      ghost var before := buf[..];
      for k := 0 to n
        invariant input == old(input) && !readError
        invariant buf[lo..lo + k] == input[..k]
        invariant buf[..lo] == before[..lo] && buf[hi..] == before[hi..]
      {
        buf[lo + k] := input[k];
      }
      input := input[n..];
      readError := n < hi - lo;
      ok := !readError;
    }

    method WriteUintBE(v: uint32, n: nat)
      requires n <= 4
      modifies this`output
      ensures output == old(output) + BE(v, n)
    {
      for i := 0 to n
        invariant output == old(output) + BE(v, n)[..i]
      {
        DigitBE(v, n, i);
        output := output + [v / Pow256(n - i - 1) % 256];
        assert BE(v, n)[..i + 1] == BE(v, n)[..i] + [BE(v, n)[i]];
      }
    }

    method WriteUintLE(v: uint32, n: nat)
      modifies this`output
      ensures output == old(output) + LE(v, n)
    {
      var w: nat := v;
      for i := 0 to n
        invariant output + LE(w, n - i) == old(output) + LE(v, n)
      {
        assert LE(w, n - i) == [w % 256] + LE(w / 256, n - i - 1);
        output := output + [w % 256];
        w := w / 256;
      }
    }

    method Write(p: seq<byte>)
      modifies this`output
      ensures output == old(output) + p
    {
      output := output + p;
    }
  }

  /** Digit `i` of the big-endian form, by shifting. */
  lemma {:induction false} DigitBE(v: nat, n: nat, i: nat)
    requires i < n <= 4
    ensures BE(v, n)[i] == v / Pow256(n - i - 1) % 256
  {
    Pow256Values();
    if i < n - 1 {
      DigitBE(v / 256, n - 1, i);
      assert v / 256 / 0x100 == v / 0x1_0000 && v / 256 / 0x1_0000 == v / 0x100_0000;
    }
  }

  // ----------------------------------------------------------- chunk stream

  /** The reader's record of a chunk stream. The connection keeps it by value in a map. */
  datatype ChunkStream = ChunkStream(
    format: nat, csid: nat, timestamp: nat, length: nat, typeID: nat, streamID: nat,
    timeDelta: nat, exted: bool, index: nat, remain: nat, got: bool, tmpFormat: nat, data: Slice)

  const ZERO := ChunkStream(0, 0, 0, 0, 0, 0, 0, false, 0, 0, false, 0, Nil)

  /** The unread part of the payload still fits its slice. */
  ghost predicate Fits(cs: ChunkStream) {
    InBounds(cs.data) && if cs.data.Slice? then cs.index + cs.remain == cs.data.len else cs.index == cs.remain == 0
  }

  ghost function View(cs: ChunkStream): Stream
    requires Fits(cs)
    reads Buffer(cs.data)
  {
    Stream(cs.format, cs.csid, cs.timestamp, cs.length, cs.typeID, cs.streamID, cs.timeDelta, cs.exted, cs.remain, cs.got,
           Contents(cs.data)[..cs.index])
  }

  /** At most slices of the pool's current array have been added. */
  ghost predicate Grown(before: seq<Slice>, after: seq<Slice>, buf: array<byte>) {
    before <= after && forall r :: r in after ==> r in before || (r.Slice? && r.buf == buf)
  }

  datatype Status = Done | Failed | Panic

  method WriteBasicHeader(format: nat, csid: uint32, rw: ReadWriter)
    requires format < 4
    modifies rw`output
    ensures rw.output == old(rw.output) + BasicHeader(format, csid)
  {
    var h := format * 64;
    if csid < 64 {
      WriteByte(rw, h + csid);
    } else if csid - 64 < 256 {
      WriteByte(rw, h);
      rw.WriteUintLE(csid - 64, 1);
    } else if csid - 64 < 65536 {
      WriteByte(rw, h + 1);
      rw.WriteUintLE(csid - 64, 2);
    }
  }

  /** `writeHeader`: a length beyond three bytes is refused when its turn comes. */
  method WriteHeader(format: nat, m: Message, rw: ReadWriter) returns (ok: bool)
    requires format < 4
    requires |m.data| < 0x1_0000_0000
    modifies rw`output
    ensures ok <==> format >= 2 || |m.data| <= 0xffffff
    ensures ok ==> rw.output == old(rw.output) + Header(format, m)
    ensures !ok ==> rw.output == old(rw.output) + (BasicHeader(format, m.csid) + BE(Min(m.timestamp, EXTENDED), 3))
  {
    hide Header, BasicHeader, BE, LE;
    HeaderPieces(rw.output, format, m);
    WriteBasicHeader(format, m.csid, rw);
    ok := true;
    var ts: uint32 := m.timestamp;
    if format != 3 {
      if m.timestamp > 0xffffff {
        ts := 0xffffff;
      }
      rw.WriteUintBE(ts, 3);
      if format != 2 {
        if |m.data| > 0xffffff {
          return false;
        }
        rw.WriteUintBE(|m.data|, 3);
        rw.WriteUintBE(m.typeID, 1);
        if format != 1 {
          rw.WriteUintLE(m.streamID, 4);
        }
      }
    }
    if ts >= 0xffffff {
      rw.WriteUintBE(m.timestamp, 4);
    }
  }

  lemma HeaderPieces(was: seq<byte>, format: nat, m: Message)
    requires format < 4
    ensures var front, ext := was + BasicHeader(format, m.csid), if m.timestamp >= EXTENDED then BE(m.timestamp, 4) else [];
            var time := front + BE(Min(m.timestamp, EXTENDED), 3);
            var message := time + BE(|m.data|, 3) + BE(m.typeID, 1);
            time == was + (BasicHeader(format, m.csid) + BE(Min(m.timestamp, EXTENDED), 3)) &&
            was + Header(format, m) ==
            (if format == 3 then front else if format == 2 then time else if format == 1 then message
             else message + LE(m.streamID, 4)) + ext
  {
    hide BasicHeader, BE, LE;
  }

  /** The two types that messages are sent with. */
  lemma HeadersSent(m: Message)
    ensures Header(0, m) == OpeningHeader(m) && Header(3, m) == ContinuingHeader(m)
  {
    hide BasicHeader, BE, LE;
  }

  method WriteByte(rw: ReadWriter, b: byte)
    modifies rw`output
    ensures rw.output == old(rw.output) + [b]
  {
    rw.WriteUintBE(b, 1);
    assert BE(b, 1) == [b] by { assert BE(b / 256, 0) == []; }
  }

  /** `writeChunk`: the message is routed, then cut into chunks. */
  method WriteChunk(c: Message, chunkSize: uint32, rw: ReadWriter) returns (m: Message, ok: bool)
    requires chunkSize >= 1 && |c.data| < 0x1_0000_0000
    modifies rw`output
    ensures m == Routed(c)
    ensures ok <==> |c.data| <= 0xffffff
    ensures ok ==> rw.output == old(rw.output) + EncodeMessage(c, chunkSize)
  {
    hide Header, OpeningHeader, ContinuingHeader, ChunksFrom;
    m := c;
    if m.typeID == TAG_AUDIO {
      m := m.(csid := 4);
    } else if m.typeID == TAG_VIDEO || m.typeID == TAG_SCRIPT_AMF0 || m.typeID == TAG_SCRIPT_AMF3 {
      m := m.(csid := 6);
    }
    var totalLen := 0;
    var numChunks := |m.data| / chunkSize;
    var i := 0;
    ghost var at := 0;
    while i <= numChunks
      invariant at == i * chunkSize
      invariant totalLen == Min(at, |m.data|)
      invariant |m.data| <= 0xffffff || i == 0
      invariant rw.output + ChunksFrom(m, chunkSize, at) == old(rw.output) + ChunksFrom(m, chunkSize, 0)
    {
      if totalLen == |m.data| {
        break;
      }
      var start := i * chunkSize;
      StartIsZeroFirst(i, chunkSize);
      ghost var before := rw.output;
      HeadersSent(m);
      var written := WriteHeader(if i == 0 then 0 else 3, m, rw);
      if !written {
        return m, false;
      }
      var inc := chunkSize;
      if |m.data| - start <= inc {
        inc := |m.data| - start;
      }
      totalLen := totalLen + inc;
      rw.Write(m.data[start..start + inc]);
      OneMoreChunk(m, chunkSize, start, before, rw.output);
      assert (i + 1) * chunkSize == start + chunkSize;
      i, at := i + 1, at + chunkSize;
    }
    if i > numChunks {
      PastTheEnd(|m.data|, chunkSize, i);
    }
    NothingPastTheEnd(m, chunkSize, at);
    ok := true;
  }

  lemma NothingPastTheEnd(m: Message, chunkSize: nat, at: nat)
    requires chunkSize >= 1 && at >= |m.data|
    ensures ChunksFrom(m, chunkSize, at) == []
  {
  }

  lemma OneMoreChunk(m: Message, chunkSize: nat, start: nat, before: seq<byte>, after: seq<byte>)
    requires chunkSize >= 1 && start < |m.data|
    requires after == before + (if start == 0 then OpeningHeader(m) else ContinuingHeader(m)) +
                      m.data[start..Min(start + chunkSize, |m.data|)]
    ensures after + ChunksFrom(m, chunkSize, start + chunkSize) == before + ChunksFrom(m, chunkSize, start)
  {
    hide OpeningHeader, ContinuingHeader;
    assert after == before + ChunkAt(m, chunkSize, start);
  }

  lemma StartIsZeroFirst(i: nat, chunkSize: nat)
    requires chunkSize >= 1
    ensures i * chunkSize == 0 <==> i == 0
  {
  }

  lemma PastTheEnd(length: nat, chunkSize: nat, i: nat)
    requires chunkSize >= 1 && i > length / chunkSize
    ensures i * chunkSize > length
  {
    var q := length / chunkSize;
    assert (q + 1) * chunkSize > length;
    assert i * chunkSize >= (q + 1) * chunkSize;
  }

  // ---------------------------------------------------------------- reading

  /** The header fields of a record, with a given received payload. */
  ghost function Head(cs: ChunkStream, data: seq<byte>): Stream {
    Stream(cs.format, cs.csid, cs.timestamp, cs.length, cs.typeID, cs.streamID, cs.timeDelta, cs.exted, cs.remain, cs.got, data)
  }

  /** Nothing but header fields differs. */
  predicate SameBody(a: ChunkStream, b: ChunkStream) {
    a.data == b.data && a.index == b.index && a.remain == b.remain && a.got == b.got && a.tmpFormat == b.tmpFormat
  }

  method ReadCsidField(key: nat, rw: ReadWriter) returns (csid: nat)
    modifies rw`input, rw`readError
    ensures (csid, rw.In()) == ReadCsid(key, old(rw.In()))
  {
    csid := key;
    if key == 0 {
      var id := rw.ReadUintLE(1);
      csid := id + 64;
    } else if key == 1 {
      var id := rw.ReadUintLE(2);
      csid := id + 64;
    }
  }

  method ReplaceTime(time: nat, rw: ReadWriter) returns (t: nat, exted: bool)
    modifies rw`input, rw`readError
    ensures (t, exted, rw.In()) == ReplaceExtended(time, old(rw.In()))
  {
    t, exted := time, false;
    if time == 0xffffff {
      t := rw.ReadUintBE(4);
      exted := true;
    }
  }

  method ReadFields0(cs0: ChunkStream, rw: ReadWriter, ghost d: seq<byte>) returns (cs: ChunkStream)
    modifies rw`input, rw`readError
    ensures (Head(cs, d), rw.In()) == ReadType0(Head(cs0, d), old(rw.In())) && SameBody(cs, cs0)
  {
    hide ReadBE, ReadLE, ReplaceExtended;
    var time := rw.ReadUintBE(3);
    var length := rw.ReadUintBE(3);
    var typeID := rw.ReadUintBE(1);
    var streamID := rw.ReadUintLE(4);
    var timestamp, exted := ReplaceTime(time, rw);
    cs := cs0.(format := 0, timestamp := timestamp, length := length, typeID := typeID, streamID := streamID, exted := exted);
  }

  method ReadFields1(cs0: ChunkStream, rw: ReadWriter, ghost d: seq<byte>) returns (cs: ChunkStream)
    modifies rw`input, rw`readError
    ensures (Head(cs, d), rw.In()) == ReadType1(Head(cs0, d), old(rw.In())) && SameBody(cs, cs0)
  {
    hide ReadBE, ReplaceExtended;
    var time := rw.ReadUintBE(3);
    var length := rw.ReadUintBE(3);
    var typeID := rw.ReadUintBE(1);
    var delta, exted := ReplaceTime(time, rw);
    cs := cs0.(format := 1, length := length, typeID := typeID, exted := exted, timeDelta := delta,
               timestamp := Plus32(cs0.timestamp, delta));
  }

  method ReadFields2(cs0: ChunkStream, rw: ReadWriter, ghost d: seq<byte>) returns (cs: ChunkStream)
    modifies rw`input, rw`readError
    ensures (Head(cs, d), rw.In()) == ReadType2(Head(cs0, d), old(rw.In())) && SameBody(cs, cs0)
  {
    hide ReadBE, ReplaceExtended;
    var time := rw.ReadUintBE(3);
    var delta, exted := ReplaceTime(time, rw);
    cs := cs0.(format := 2, exted := exted, timeDelta := delta, timestamp := Plus32(cs0.timestamp, delta));
  }

  method ReadFields3(cs0: ChunkStream, rw: ReadWriter, ghost d: seq<byte>) returns (cs: ChunkStream)
    modifies rw`input, rw`readError
    ensures (Head(cs, d), rw.In()) == ReadType3(Head(cs0, d), old(rw.In())) && SameBody(cs, cs0)
  {
    hide ReadBE;
    cs := cs0;
    if cs.format == 0 {
      if cs.exted {
        var timestamp := rw.ReadUintBE(4);
        cs := cs.(timestamp := timestamp);
      }
    } else {
      var delta := cs.timeDelta;
      if cs.exted {
        delta := rw.ReadUintBE(4);
      }
      cs := cs.(timestamp := Plus32(cs.timestamp, delta));
    }
  }

  method ReadHeader(cs0: ChunkStream, rw: ReadWriter, ghost d: seq<byte>) returns (cs: ChunkStream)
    requires cs0.tmpFormat < 4
    modifies rw`input, rw`readError
    ensures (Head(cs, d), rw.In()) == ReadFields(Head(cs0, d), cs0.tmpFormat, old(rw.In())) && SameBody(cs, cs0)
  {
    hide ReadType0, ReadType1, ReadType2, ReadType3;
    if cs0.tmpFormat == 0 {
      cs := ReadFields0(cs0, rw, d);
    } else if cs0.tmpFormat == 1 {
      cs := ReadFields1(cs0, rw, d);
    } else if cs0.tmpFormat == 2 {
      cs := ReadFields2(cs0, rw, d);
    } else {
      cs := ReadFields3(cs0, rw, d);
    }
  }

  /** Reading into a stretch of slice `w` leaves every other slice as it was. */
  method ReadFramed(w: Slice, lo: nat, hi: nat, rw: ReadWriter, ghost regions: seq<Slice>) returns (ok: bool)
    requires InBounds(w) && w.Slice? && w.off <= lo <= hi <= w.off + w.len
    requires forall r :: r in regions ==> InBounds(r)
    modifies rw`input, rw`readError, w.buf
    ensures forall r :: r in regions && Apart(r, w) ==> Contents(r) == old(Contents(r))
    ensures ok == !rw.readError == (!old(rw.readError) && |old(rw.input)| >= hi - lo)
    ensures ok ==> w.buf[lo..hi] == old(rw.input)[..hi - lo] && rw.input == old(rw.input)[hi - lo..]
    ensures !ok ==> rw.input == if old(rw.readError) then old(rw.input) else []
    ensures w.buf[..lo] == old(w.buf[..lo]) && w.buf[hi..] == old(w.buf[hi..])
  {
    ghost var before := w.buf[..];
    ok := rw.Read(w.buf, lo, hi);
    ghost var after := w.buf[..];
    assert after[..lo] == before[..lo] && after[hi..] == before[hi..];
    forall r | r in regions && Apart(r, w)
      ensures Contents(r) == old(Contents(r))
    {
      if r.Slice? && r.buf == w.buf {
        SameOutside(before, after, lo, hi, r.off, r.off + r.len);
      }
    }
  }

  /** `r.Read(Data[index:index+size])`: nothing but that stretch of that slice changes. */
  method ReadInto(w: Slice, index: nat, size: nat, rw: ReadWriter, ghost regions: seq<Slice>) returns (ok: bool)
    requires InBounds(w) && w.Slice? && index + size <= w.len
    requires forall r :: r in regions ==> InBounds(r)
    modifies rw`input, rw`readError, w.buf
    ensures Contents(w)[..index] == old(Contents(w)[..index])
    ensures forall r :: r in regions && Apart(r, w) ==> Contents(r) == old(Contents(r))
    ensures ok <==> !old(rw.readError) && |old(rw.input)| >= size
    ensures ok ==> Contents(w)[..index + size] == old(Contents(w)[..index]) + old(rw.input)[..size]
    ensures rw.In() == if ok then Input(old(rw.input)[size..], false)
                       else if old(rw.readError) then old(rw.In()) else Input([], true)
  {
    hide Apart;
    var lo, hi := w.off + index, w.off + index + size;
    ghost var before := w.buf[..];
    Slices(w, lo, hi);
    ok := ReadFramed(w, lo, hi, rw, regions);
    ghost var after := w.buf[..];
    Slices(w, lo, hi);
    Filled(before, after, w.off, w.len, index, size);
  }

  /** The parts of a buffer are parts of what it holds. */
  lemma Slices(w: Slice, lo: nat, hi: nat)
    requires InBounds(w) && w.Slice? && lo <= hi <= w.buf.Length
    ensures var all := w.buf[..];
            w.buf[..lo] == all[..lo] && w.buf[hi..] == all[hi..] && w.buf[lo..hi] == all[lo..hi] &&
            Contents(w) == all[w.off..w.off + w.len]
  {
  }

  lemma PrefixOfSlice(b: seq<byte>, off: nat, len: nat, k: nat)
    requires off + len <= |b| && k <= len
    ensures b[off..off + len][..k] == b[off..off + k]
  {
  }

  lemma Filled(before: seq<byte>, after: seq<byte>, off: nat, len: nat, index: nat, size: nat)
    requires |before| == |after| && off + len <= |before| && index + size <= len
    requires after[..off + index] == before[..off + index] && after[off + index + size..] == before[off + index + size..]
    ensures after[off..off + len][..index] == before[off..off + len][..index]
    ensures after[off..off + len][..index + size] ==
            before[off..off + len][..index] + after[off + index..off + index + size]
  {
    var lo, hi := off + index, off + index + size;
    SameOutside(before, after, lo, hi, off, lo);
    assert after[off..off + len][..index] == after[off..lo];
    assert after[off..off + len][..index + size] == after[off..hi];
    assert before[off..off + len][..index] == before[off..lo];
  }

  /** The payload part of `readChunk`: as much as the chunk and the message allow. */
  method ReadPart(cs0: ChunkStream, rw: ReadWriter, chunkSize: nat, ghost regions: seq<Slice>)
    returns (cs: ChunkStream, ok: bool)
    requires Fits(cs0) && cs0.data.Slice?
    requires forall r :: r in regions ==> InBounds(r)
    modifies rw`input, rw`readError, cs0.data.buf
    ensures Contents(cs0.data)[..cs0.index] == old(Contents(cs0.data)[..cs0.index])
    ensures forall r :: r in regions && Apart(r, cs0.data) ==> Contents(r) == old(Contents(r))
    ensures match ReadPayload(old(View(cs0)), chunkSize, old(rw.In()))
            case Accepted(s, i) => ok && Fits(cs) && cs.data == cs0.data && View(cs) == s && rw.In() == i
            case Refused(i) => !ok && rw.In() == i
            case Panicked => false
  {
    var size := cs0.remain;
    if size > chunkSize {
      size := chunkSize;
    }
    ok := ReadInto(cs0.data, cs0.index, size, rw, regions);
    cs := cs0.(index := cs0.index + size, remain := cs0.remain - size);
    if cs.remain == 0 {
      cs := cs.(got := true);
    }
  }

  lemma SameOutside(before: seq<byte>, after: seq<byte>, lo: nat, hi: nat, from: nat, to: nat)
    requires |before| == |after| && lo <= hi <= |before| && from <= to <= |before|
    requires after[..lo] == before[..lo] && after[hi..] == before[hi..]
    requires to <= lo || from >= hi
    ensures after[from..to] == before[from..to]
  {
    forall k | from <= k < to
      ensures after[k] == before[k]
    {
      if k < lo {
        assert after[..lo][k] == before[..lo][k];
      } else {
        assert after[hi..][k - hi] == before[hi..][k - hi];
      }
    }
  }

  /** `new`: a fresh buffer from the pool, and the first part of the payload into it. */
  method StartPart(cs0: ChunkStream, rw: ReadWriter, chunkSize: nat, pool: Pool, ghost d: seq<byte>)
    returns (cs: ChunkStream, status: Status)
    requires pool.Valid()
    modifies rw`input, rw`readError, pool, pool.buf
    ensures pool.Valid() && Grown(old(pool.regions), pool.regions, pool.buf) && (pool.buf == old(pool.buf) || fresh(pool.buf))
    ensures forall r :: r in old(pool.regions) ==> Contents(r) == old(Contents(r))
    ensures match StartPayload(Head(cs0, d), chunkSize, old(rw.In()))
            case Accepted(s, i) =>
              && status.Done? && Fits(cs) && View(cs) == s && rw.In() == i && cs.data in pool.regions
              && forall r :: r in old(pool.regions) ==> Apart(r, cs.data)
            case Refused(i) => status.Failed? && rw.In() == i
            case Panicked => status.Panic?
  {
    if cs0.length > MAX_POOL_SIZE {
      return cs0, Panic;
    }
    ghost var regions := pool.regions;
    var data := pool.Get(cs0.length);
    cs := cs0.(got := false, index := 0, remain := cs0.length, data := data);
    assert View(cs) == Head(cs0, d).(got := false, remain := cs0.length, data := []);
    var ok;
    cs, ok := ReadPart(cs, rw, chunkSize, regions);
    status := if ok then Done else Failed;
  }

  /** `readChunk`, after the first byte of a chunk gave the format and the six-bit field. */
  method TakeChunk(cs0: ChunkStream, rw: ReadWriter, chunkSize: nat, pool: Pool) returns (cs: ChunkStream, status: Status)
    requires pool.Valid() && Fits(cs0) && cs0.tmpFormat < 4
    requires cs0.data.Slice? ==> cs0.data in pool.regions
    modifies rw`input, rw`readError, pool, pool.buf, Buffer(cs0.data)
    ensures pool.Valid() && Grown(old(pool.regions), pool.regions, pool.buf) && (pool.buf == old(pool.buf) || fresh(pool.buf))
    ensures forall r :: r in old(pool.regions) && (cs0.remain == 0 || Apart(r, cs0.data)) ==> Contents(r) == old(Contents(r))
    ensures Contents(cs0.data)[..cs0.index] == old(Contents(cs0.data)[..cs0.index])
    ensures match ReadChunk(old(View(cs0)), cs0.tmpFormat, cs0.csid, chunkSize, old(rw.In()))
            case Accepted(s, i) =>
              && status.Done? && Fits(cs) && View(cs) == s && rw.In() == i && cs.data in pool.regions
              && (cs0.remain > 0 ==> cs.data == cs0.data)
              && (cs0.remain == 0 ==> forall r :: r in old(pool.regions) ==> Apart(r, cs.data))
            case Refused(i) => status.Failed? && rw.In() == i
            case Panicked => status.Panic?
  {
    hide ReadFields, ReadCsid, StartPayload, ReadPayload, FromBE;
    cs, status := cs0, Failed;
    if cs.remain != 0 && cs.tmpFormat != 3 {
      return;
    }
    ghost var d := View(cs).data;
    var csid := ReadCsidField(cs.csid, rw);
    cs := cs.(csid := csid);
    assert View(cs) == Head(cs, d);
    if cs.tmpFormat == 3 && cs.remain != 0 {
      if cs.exted {
        if |rw.input| < 4 {
          return;
        }
        if FromBE(rw.input[..4]) == cs.timestamp {
          rw.input := rw.input[4..];
        }
      }
      var ok;
      cs, ok := ReadPart(cs, rw, chunkSize, pool.regions);
      status := if ok then Done else Failed;
      return;
    }
    cs := ReadHeader(cs, rw, d);
    cs, status := StartPart(cs, rw, chunkSize, pool, d);
  }

  // ------------------------------------------------------------- connection

  /** A message handed to the caller: its slice, and the bytes it held then. */
  datatype Delivery = Delivery(slice: Slice, bytes: seq<byte>)

  ghost function Buffers(regions: seq<Slice>): set<object> {
    set r | r in regions && r.Slice? :: r.buf
  }

  ghost predicate AllFit(chunks: map<nat, ChunkStream>, regions: seq<Slice>) {
    forall k :: k in chunks ==> Fits(chunks[k]) && (chunks[k].data.Slice? ==> chunks[k].data in regions)
  }

  /** The records, read through memory, are the streams of the specification. */
  ghost predicate Mirrors(chunks: map<nat, ChunkStream>, streams: map<nat, Stream>, regions: seq<Slice>)
    requires AllFit(chunks, regions)
    reads Buffers(regions)
  {
    chunks.Keys == streams.Keys && forall k :: k in chunks ==> View(chunks[k]) == streams[k]
  }

  /** A buffer that is still being filled belongs to one stream and to no delivered message. */
  ghost predicate Exclusive(chunks: map<nat, ChunkStream>, delivered: seq<Delivery>) {
    && (forall k, l :: k in chunks && l in chunks && k != l && chunks[k].remain > 0 ==> Apart(chunks[l].data, chunks[k].data))
    && (forall k, d :: k in chunks && chunks[k].remain > 0 && d in delivered ==> Apart(d.slice, chunks[k].data))
  }

  /** Every delivered message still holds the bytes it was delivered with. */
  ghost predicate Intact(delivered: seq<Delivery>, regions: seq<Slice>)
    requires forall r :: r in regions ==> InBounds(r)
    reads Buffers(regions)
  {
    forall d :: d in delivered ==> d.slice in regions && Contents(d.slice) == d.bytes
  }

  /** Storing a record that kept its buffer, or got a fresh one, keeps buffers exclusive. */
  lemma StoredExclusive(chunks: map<nat, ChunkStream>, delivered: seq<Delivery>, regions: seq<Slice>, key: nat, cs: ChunkStream)
    requires AllFit(chunks, regions) && Exclusive(chunks, delivered) && key in chunks
    requires forall d :: d in delivered ==> d.slice in regions
    requires chunks[key].remain > 0 ==> cs.data == chunks[key].data
    requires chunks[key].remain == 0 ==> forall r :: r in regions ==> Apart(r, cs.data)
    ensures Exclusive(chunks[key := cs], delivered)
  {
  }

  /** Storing a record in the map stores its view in the specification's map. */
  lemma StoredMirrors(chunks: map<nat, ChunkStream>, streams: map<nat, Stream>, regions: seq<Slice>, key: nat, cs: ChunkStream)
    requires AllFit(chunks, regions) && Mirrors(chunks, streams, regions)
    requires Fits(cs) && (cs.data.Slice? ==> cs.data in regions)
    ensures AllFit(chunks[key := cs], regions) && Mirrors(chunks[key := cs], streams[key := View(cs)], regions)
  {
    hide View, Fits;
  }

  lemma StoredSound(streams: map<nat, Stream>, key: nat, s: Stream)
    requires Laws.AllSound(streams) && Laws.Sound(s)
    ensures Laws.AllSound(streams[key := s])
  {
    hide Laws.Sound;
  }

  lemma ZeroExclusive(chunks: map<nat, ChunkStream>, delivered: seq<Delivery>, key: nat)
    requires Exclusive(chunks, delivered) && key !in chunks
    ensures Exclusive(chunks[key := ZERO], delivered)
  {
  }

  lemma ZeroView()
    ensures Fits(ZERO) && View(ZERO) == ZERO_STREAM
  {
  }

  lemma CsidOverwritten(cs: Stream, format: nat, key: nat, chunkSize: nat, i: Input)
    requires format < 4
    ensures ReadChunk(cs.(csid := key), format, key, chunkSize, i) == ReadChunk(cs, format, key, chunkSize, i)
  {
    var csid := ReadCsid(key, i).0;
    assert cs.(csid := key).(csid := csid) == cs.(csid := csid);
  }

  lemma ReadOnce(p: Peer, i: Input)
    ensures ChunkFormat.Read(p, i) ==
            match ReadStep(p, i)
            case StepRefused(key, i1) => ReadError(p.(streams := p.streams[key := StreamOf(p.streams, key)]), i1)
            case StepPanicked => ReadPanic
            case Stepped(key, cs, i1) =>
              var p1 := p.(streams := p.streams[key := cs]);
              if cs.got then AfterMessage(p1, cs, i1) else ChunkFormat.Read(p1, i1)
  {
    hide ReadStep, AfterMessage;
  }

  class Conn {
    var chunkSize: uint32
    var remoteChunkSize: nat
    var remoteWindowAckSize: nat
    var received: nat
    var ackReceived: nat
    const rw: ReadWriter
    const pool: Pool
    var chunks: map<nat, ChunkStream>
    ghost var streams: map<nat, Stream>  // the records, as the specification sees them
    ghost var delivered: seq<Delivery>   // every message handed to the caller

    ghost predicate Valid()
      reads this`chunks, this`streams, this`delivered, pool, Buffers(pool.regions)
    {
      && pool.Valid() && Laws.AllSound(streams)
      && AllFit(chunks, pool.regions) && Mirrors(chunks, streams, pool.regions)
      && Exclusive(chunks, delivered) && Intact(delivered, pool.regions)
    }

    /** The reading half of the connection, as the specification sees it. */
    ghost function AsPeer(): Peer
      reads this
    {
      Peer(streams, remoteChunkSize, remoteWindowAckSize, received, ackReceived)
    }

    constructor (bytes: seq<byte>)
      ensures Valid() && AsPeer() == NEW_PEER && rw.In() == Input(bytes, false) && rw.output == []
      ensures chunkSize == 128 && remoteChunkSize == 128 && remoteWindowAckSize == 2500000 && delivered == [] && fresh(rw) && fresh(pool) && fresh(pool.buf)
    {
      chunkSize, remoteChunkSize := 128, 128;
      remoteWindowAckSize := 2500000;
      received, ackReceived := 0, 0;
      rw := new ReadWriter(bytes);
      pool := new Pool();
      chunks := map[];
      streams, delivered := map[], [];
    }

    /** `Conn.Write`: an announced chunk size is adopted before the announcement is cut. */
    method Write(m: Message) returns (ok: bool)
      requires |m.data| < 0x1_0000_0000 && chunkSize >= 1
      requires m.typeID == ID_SET_CHUNK_SIZE ==> |m.data| >= 4 && FromBE(m.data[..4]) >= 1
      modifies this`chunkSize, rw`output
      ensures chunkSize == if m.typeID == ID_SET_CHUNK_SIZE then FromBE(m.data[..4]) else old(chunkSize)
      ensures ok <==> |m.data| <= 0xffffff
      ensures ok ==> chunkSize >= 1 && rw.output == old(rw.output) + EncodeMessage(m, chunkSize)
    {
      if m.typeID == ID_SET_CHUNK_SIZE {
        FromBEBound(m.data[..4]);
        Pow256Values();
        chunkSize := FromBE(m.data[..4]);
      }
      var sent;
      sent, ok := WriteChunk(m, chunkSize, rw);
    }

    /** `ack`, with the acknowledgement it may write. */
    method Ack(size: nat) returns (ghost acked: Option<nat>)
      requires chunkSize >= 1
      modifies this`received, this`ackReceived, rw`output
      ensures (AsPeer(), acked) == Acknowledge(old(AsPeer()), size)
      ensures rw.output == old(rw.output) +
              if acked.Some? then EncodeMessage(AckMessage(acked.value), chunkSize) else []
    {
      received := Plus32(received, size);
      ackReceived := Plus32(ackReceived, size);
      acked := None;
      if received >= 0xf0000000 {
        received := 0;
      }
      if ackReceived >= remoteWindowAckSize {
        acked := Some(ackReceived);
        var sent, ok := WriteChunk(InitControlMsg(ID_ACK, 4, ackReceived), chunkSize, rw);
        ackReceived := 0;
      }
    }

    /** The record of a stream, created on first use. */
    method Select(key: nat, format: nat) returns (cs: ChunkStream)
      requires Valid()
      modifies this`chunks, this`streams
      ensures Valid() && key in chunks && cs == chunks[key].(tmpFormat := format, csid := key)
      ensures streams == old(streams)[key := StreamOf(old(streams), key)]
    {
      hide PairwiseApart, Apart, Exclusive, AllFit, Laws.AllSound, Laws.Sound;
      if key !in chunks {
        ZeroView();
        Laws.SoundMeans(ZERO_STREAM);
        StoredSound(streams, key, ZERO_STREAM);
        StoredMirrors(chunks, streams, pool.regions, key, ZERO);
        ZeroExclusive(chunks, delivered, key);
        streams := streams[key := ZERO_STREAM];
        chunks := chunks[key := ZERO];
      } else {
        assert streams[key := streams[key]] == streams;
      }
      cs := chunks[key].(tmpFormat := format, csid := key);
    }

    /** `cs.readChunk` on a copy of the record of stream `key`; the map is not touched yet. */
    method TakeOn(key: nat, cs0: ChunkStream) returns (cs: ChunkStream, status: Status)
      requires Valid() && key in chunks && cs0.tmpFormat < 4
      requires cs0 == chunks[key].(tmpFormat := cs0.tmpFormat, csid := key)
      modifies rw`input, rw`readError, pool, pool.buf, Buffers(pool.regions)
      ensures status != Panic ==> Valid() && Grown(old(pool.regions), pool.regions, pool.buf)
      ensures pool.buf == old(pool.buf) || fresh(pool.buf)
      ensures match ReadChunk(streams[key], cs0.tmpFormat, key, remoteChunkSize, old(rw.In()))
              case Accepted(s, i) =>
                && status.Done? && rw.In() == i && Fits(cs) && View(cs) == s && cs.data in pool.regions
                && (cs0.remain > 0 ==> cs.data == cs0.data)
                && (cs0.remain == 0 ==> forall r :: r in old(pool.regions) ==> Apart(r, cs.data))
              case Refused(i) => status.Failed? && rw.In() == i
              case Panicked => status.Panic?
    {
      hide ReadChunk, PairwiseApart, Apart, Exclusive, Laws.AllSound;
      ghost var s0 := streams[key];
      CsidOverwritten(s0, cs0.tmpFormat, key, remoteChunkSize, rw.In());
      assert View(cs0) == s0.(csid := key);
      if cs0.remain > 0 {
        OthersApart(chunks, delivered, key);
      }
      cs, status := TakeChunk(cs0, rw, remoteChunkSize, pool);
      if status != Panic {
        hide Contents, InBounds;
        assert AllFit(chunks, pool.regions);
        forall k | k in chunks ensures View(chunks[k]) == streams[k] {
          assert k != key ==> Contents(chunks[k].data) == old(Contents(chunks[k].data));
          assert old(View(chunks[k])) == streams[k];
        }
        assert Mirrors(chunks, streams, pool.regions);
      }
    }

    /** The record is stored back in the map. */
    method Store(key: nat, cs: ChunkStream, ghost regions: seq<Slice>)
      requires Valid() && key in chunks && Fits(cs) && cs.data in pool.regions && Laws.Sound(View(cs))
      requires AllFit(chunks, regions) && forall d :: d in delivered ==> d.slice in regions
      requires chunks[key].remain > 0 ==> cs.data == chunks[key].data
      requires chunks[key].remain == 0 ==> forall r :: r in regions ==> Apart(r, cs.data)
      modifies this`chunks, this`streams
      ensures Valid() && chunks == old(chunks)[key := cs]
      ensures View(cs) == old(View(cs)) && streams == old(streams)[key := View(cs)]
    {
      hide PairwiseApart, Apart, Exclusive, AllFit, Laws.AllSound, Laws.Sound;
      StoredSound(streams, key, View(cs));
      StoredExclusive(chunks, delivered, regions, key, cs);
      StoredMirrors(chunks, streams, pool.regions, key, cs);
      streams := streams[key := View(cs)];
      chunks := chunks[key := cs];
    }

    /** One pass of the loop of `Conn.Read`. */
    method Step() returns (key: nat, cs: ChunkStream, status: Status)
      requires Valid()
      modifies this`chunks, this`streams, rw`input, rw`readError, pool, pool.buf, Buffers(pool.regions)
      ensures status != Panic ==> Valid() && Grown(old(pool.regions), pool.regions, pool.buf)
      ensures pool.buf == old(pool.buf) || fresh(pool.buf)
      ensures match ReadStep(old(AsPeer()), old(rw.In()))
              case Stepped(k, s, i) =>
                && status.Done? && key == k && rw.In() == i && key in chunks && chunks[key] == cs
                && Fits(cs) && cs.data in pool.regions && View(cs) == s && Laws.Sound(s) && streams == old(streams)[k := s]
              case StepRefused(k, i) =>
                status.Failed? && rw.In() == i && streams == old(streams)[k := StreamOf(old(streams), k)]
              case StepPanicked => status.Panic?
    {
      hide ReadChunk, ReadBE, PairwiseApart, Apart, Exclusive, Mirrors, View, Fits;
      HeaderByteBound(rw.In());
      var h := rw.ReadUintBE(1);
      key := h % 64;
      var cs0 := Select(key, h / 64);
      ghost var regions, before := pool.regions, streams;
      Laws.ChunkSound(before[key], h / 64, key, remoteChunkSize, rw.In());
      cs, status := TakeOn(key, cs0);
      if status.Done? {
        Store(key, cs, regions);
        assert streams == old(streams)[key := View(cs)];
      }
    }

    /** `handleControlMsg`: false where the source would index past a short payload. */
    method HandleControlMsg(cs: ChunkStream) returns (ok: bool)
      requires Fits(cs) && cs.remain == 0
      modifies this`remoteChunkSize, this`remoteWindowAckSize
      ensures match HandleControl(old(AsPeer()), old(View(cs)))
              case Some(p) => ok && AsPeer() == p
              case None => !ok
    {
      ok := true;
      if cs.typeID == ID_SET_CHUNK_SIZE || cs.typeID == ID_WINDOW_ACK_SIZE {
        assert View(cs).data == Contents(cs.data);
        if cs.data.Nil? || cs.data.len < 4 {
          return false;
        }
        var word := cs.data.buf[cs.data.off..cs.data.off + 4];
        PrefixOfSlice(cs.data.buf[..], cs.data.off, cs.data.len, 4);
        assert cs.data.buf[..][cs.data.off..cs.data.off + cs.data.len] == Contents(cs.data);
        assert word == Contents(cs.data)[..4];
        if cs.typeID == ID_SET_CHUNK_SIZE {
          remoteChunkSize := FromBE(word);
        } else {
          remoteWindowAckSize := FromBE(word);
        }
      }
    }

    /** The loop of `Conn.Read`: chunks are taken until one completes its message. */
    method ReadMessage() returns (key: nat, cs: ChunkStream, status: Status)
      requires Valid()
      modifies this`chunks, this`streams, rw`input, rw`readError, pool, pool.buf, Buffers(pool.regions)
      ensures status != Panic ==> Valid()
      ensures status != Panic ==> fresh(Buffers(pool.regions) + {pool.buf} - old(Buffers(pool.regions) + {pool.buf}))
      ensures status.Done? ==> key in chunks && chunks[key] == cs && cs.got && Fits(cs)
      ensures status.Done? ==> cs.data in pool.regions && cs.remain == 0
      ensures ChunkFormat.Read(old(AsPeer()), old(rw.In())) ==
              match status
              case Done => AfterMessage(AsPeer(), View(cs), rw.In())
              case Failed => ReadError(AsPeer(), rw.In())
              case Panic => ReadPanic
    {
      hide PairwiseApart, Apart, Exclusive, ReadStep, ChunkFormat.Read, AfterMessage, Laws.AllSound;
      ghost var wanted := ChunkFormat.Read(AsPeer(), rw.In());
      while true
        invariant Valid()
        invariant fresh(Buffers(pool.regions) + {pool.buf} - old(Buffers(pool.regions) + {pool.buf}))
        invariant ChunkFormat.Read(AsPeer(), rw.In()) == wanted
        decreases |rw.input|
      {
        ReadOnce(AsPeer(), rw.In());
        key, cs, status := Step();
        if status != Done || cs.got {
          return;
        }
      }
    }

    /** Bookkeeping only: the message of a completed stream joins the deliveries. */
    ghost method Log(key: nat)
      requires Valid() && key in chunks && chunks[key].remain == 0 && chunks[key].data in pool.regions
      modifies this`delivered
      ensures Valid() && delivered == old(delivered) + [Delivery(chunks[key].data, View(chunks[key]).data)]
    {
      hide PairwiseApart, Apart, Exclusive, Laws.AllSound;
      Logged(chunks, delivered, pool.regions, key);
      delivered := delivered + [Delivery(chunks[key].data, View(chunks[key]).data)];
    }

    /** The next complete message, logged as delivered. */
    method NextMessage() returns (cs: ChunkStream, status: Status)
      requires Valid()
      modifies this`chunks, this`streams, this`delivered, rw`input, rw`readError, pool, pool.buf, Buffers(pool.regions)
      ensures status != Panic ==> Valid()
      ensures status != Panic ==> fresh(Buffers(pool.regions) + {pool.buf} - old(Buffers(pool.regions) + {pool.buf}))
      ensures status.Done? ==> Fits(cs) && cs.remain == 0 && delivered == old(delivered) + [Delivery(cs.data, View(cs).data)]
      ensures !status.Done? ==> delivered == old(delivered)
      ensures ChunkFormat.Read(old(AsPeer()), old(rw.In())) ==
              match status
              case Done => AfterMessage(AsPeer(), View(cs), rw.In())
              case Failed => ReadError(AsPeer(), rw.In())
              case Panic => ReadPanic
    {
      hide PairwiseApart, Apart, Exclusive, HandleControl, Acknowledge, ChunkFormat.Read;
      var key;
      key, cs, status := ReadMessage();
      if status.Done? {
        Log(key);
      }
    }

    /**
      `Conn.Read`. It delivers what the specification delivers, and the log of
      deliveries stays intact: no read changes a message delivered earlier.
     */
    method Read() returns (cs: ChunkStream, status: Status, ghost acked: Option<nat>)
      requires Valid() && chunkSize >= 1
      modifies this`chunks, this`streams, this`remoteChunkSize, this`remoteWindowAckSize, this`received, this`ackReceived
      modifies this`delivered, rw, pool, pool.buf, Buffers(pool.regions)
      ensures status != Panic ==> Valid()
      ensures status != Panic ==> fresh(Buffers(pool.regions) + {pool.buf} - old(Buffers(pool.regions) + {pool.buf}))
      ensures match ChunkFormat.Read(old(AsPeer()), old(rw.In()))
              case Delivered(s, p, i, ack) =>
                && status.Done? && AsPeer() == p && rw.In() == i && acked == ack && Fits(cs) && View(cs) == s
                && delivered == old(delivered) + [Delivery(cs.data, s.data)]
                && rw.output == old(rw.output) + if ack.Some? then EncodeMessage(AckMessage(ack.value), chunkSize) else []
              case ReadError(p, i) =>
                status.Failed? && AsPeer() == p && rw.In() == i && delivered == old(delivered) && rw.output == old(rw.output)
              case ReadPanic => status.Panic?
    {
      hide PairwiseApart, Apart, Exclusive, HandleControl, Acknowledge, ChunkFormat.Read, EncodeMessage;
      acked := None;
      cs, status := NextMessage();
      if status.Done? {
        var handled := HandleControlMsg(cs);
        if !handled {
          return cs, Panic, None;
        }
        acked := Ack(cs.length);
      }
    }
  }

  /** A complete message can join the deliveries: its buffer is not written any more. */
  lemma Logged(chunks: map<nat, ChunkStream>, delivered: seq<Delivery>, regions: seq<Slice>, key: nat)
    requires AllFit(chunks, regions) && Exclusive(chunks, delivered)
    requires (forall r :: r in regions ==> InBounds(r)) && Intact(delivered, regions)
    requires key in chunks && chunks[key].remain == 0 && chunks[key].data in regions
    ensures var d := Delivery(chunks[key].data, View(chunks[key]).data);
            Exclusive(chunks, delivered + [d]) && Intact(delivered + [d], regions)
  {
    hide Apart;
    assert View(chunks[key]).data == Contents(chunks[key].data);
  }

  lemma OthersApart(chunks: map<nat, ChunkStream>, delivered: seq<Delivery>, key: nat)
    requires Exclusive(chunks, delivered) && key in chunks && chunks[key].remain > 0
    ensures forall l :: l in chunks && l != key ==> Apart(chunks[l].data, chunks[key].data)
    ensures forall d :: d in delivered ==> Apart(d.slice, chunks[key].data)
  {
  }

  /** `initControlMsg`: the value, padded with zeros to the size. */
  function InitControlMsg(id: uint32, size: nat, value: nat): Message
    requires size >= 4
  {
    Message(2, 0, id, 0, BE(value, 4) + seq(size - 4, _ => 0))
  }

  function AckMessage(value: nat): Message {
    InitControlMsg(ID_ACK, 4, value)
  }

  /**
    What an acknowledgement announces: whatever the amount, it goes out on chunk stream 2
    as a message of type 3, and a peer in step with the writer reads from it just that
    amount, in four bytes with the most significant first.
   */
  lemma AckIsHeard(p: Peer, chunkSize: nat, v: uint32)
    requires chunkSize >= 1 && Protocol.Agree(Protocol.Sender(chunkSize, map[]), p)
    ensures var all := ReadAll(p, Input(EncodeMessage(AckMessage(v), chunkSize), false));
            && !all.panicked && |all.delivered| == 1
            && var cs := all.delivered[0];
               && cs.csid == 2 && cs.typeID == 3 && cs.timestamp == 0 && cs.streamID == 0
               && |cs.data| == 4 && FromBE(cs.data) == v
  {
    AckHolds(v);
    var m := AckMessage(v);
    AloneIsSent(m, chunkSize);
    hide ReadAll, EncodeMessage, AckMessage, Protocol.Agree, Session.WriteAll, Session.Writes, Session.Sent;
    Session.SessionRoundTrip(chunkSize, [m], p);
    var all := ReadAll(p, Input(EncodeMessage(m, chunkSize), false));
    assert Protocol.Is(all.delivered[0], [m][0]);
  }

  lemma AckHolds(v: uint32)
    ensures var m := AckMessage(v);
            && m.csid == 2 && m.typeID == 3 && m.timestamp == 0 && m.streamID == 0 && |m.data| == 4 && FromBE(m.data) == v
  {
    Pow256Values();
    FromBEofBE(v, 4);
    hide BE, FromBE;
    assert BE(v, 4) + [] == BE(v, 4);
  }

  lemma AloneIsSent(m: Message, chunkSize: nat)
    requires chunkSize >= 1 && m.csid == 2 && m.typeID == ID_ACK && |m.data| == 4
    ensures Session.Writes(chunkSize, [m]) && Session.WriteAll(chunkSize, [m]) == EncodeMessage(m, chunkSize)
    ensures Session.Sent([m]) == [m]
  {
    hide EncodeMessage;
    assert [m][1..] == [];
    assert EncodeMessage(m, chunkSize) + [] == EncodeMessage(m, chunkSize);
    assert Session.Sent([]) == [] && [m] + [] == [m];
  }
}
