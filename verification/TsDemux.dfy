/**
  A demultiplexer that follows ISO/IEC 13818-1 gets back from the muxer's
  packets exactly the PES packet that went in, and from that its times and its
  payload; and exactly when this holds.
 */
module TsDemux {
  import opened Bytes
  import opened TsFormat

  /**
    The frames whose payload survives: a key frame shorter than a packet only
    if it needs no stuffing beside the PCR.
   */
  predicate Recoverable(f: Frame) {
    !(f.isVideo && f.isKey) || |Pes(f)| >= TS_DATA_LEN || |Pes(f)| == TS_DATA_LEN - 8
  }

  /** A packet whose layout is regular: at most one adaptation length. */
  predicate Regular(f: Frame, first: bool, rest: seq<byte>) {
    !Keyed(f, first) || |rest| >= TS_DATA_LEN || |rest| == TS_DATA_LEN - 8
  }

  lemma PacketLength(f: Frame, first: bool, cc: nat, rest: seq<byte>)
    requires cc < 16 && rest != []
    ensures |Packet(f, first, cc, rest)| == TS_PACKET_LEN
  {
  }

  lemma HeaderParses(f: Frame, first: bool, adaptation: bool, cc: nat)
    requires cc < 16
    ensures var h := PacketHeader(f, first, adaptation, cc);
            && h[0] == 0x47 && h[1] < 0x80 && h[3] < 0x40
            && h[1] as int % 32 * 256 + h[2] == Pid(f) && (h[1] / 64 % 2 == 1) == first
            && h[3] / 16 % 4 == (if adaptation then 3 else 1) && h[3] % 16 == cc
  {
  }

  /** A packet without an adaptation field, or with one of `p[4]` bytes. */
  lemma ParsedAs(p: seq<byte>)
    requires |p| == TS_PACKET_LEN && p[0] == 0x47 && p[1] < 0x80 && p[3] < 0x40
    requires p[3] / 16 % 4 == 1 || (p[3] / 16 % 4 == 3 && p[4] <= 182)
    ensures var n := if p[3] / 16 % 4 == 1 then 4 else 5 + p[4] as int;
            ParsePacket(p) == Some(Parsed(p[1] as int % 32 * 256 + p[2], p[1] / 64 % 2 == 1, p[3] % 16,
                                          if n == 4 then [] else p[5..n], p[n..]))
  {
  }

  /** Any packet of a frame parses; a regular one yields the bytes it took. */
  lemma PacketParses(f: Frame, first: bool, cc: nat, rest: seq<byte>)
    requires cc < 16 && rest != []
    ensures var t := ParsePacket(Packet(f, first, cc, rest));
            && t.Some? && t.value.pid == Pid(f) && t.value.start == first && t.value.cc == cc
            && (Regular(f, first, rest) ==> t.value.payload == rest[..Taken(f, first, |rest|)])
            && (!Regular(f, first, rest) ==> |t.value.payload| == TS_DATA_LEN - 8)
  {
    hide PacketHeader, ParsePacket;
    var short := |rest| < TS_DATA_LEN;
    var p := Packet(f, first, cc, rest);
    var header := PacketHeader(f, first, short || Keyed(f, first), cc);
    PacketLength(f, first, cc, rest);
    HeaderParses(f, first, short || Keyed(f, first), cc);
    assert p[..4] == header;
    assert p[0] == header[0] && p[1] == header[1] && p[2] == header[2] && p[3] == header[3];
    if Keyed(f, first) {
      assert p[4] == 7;
      if !short || |rest| == TS_DATA_LEN - 8 {
        assert p[12..] == rest[..Taken(f, first, |rest|)];
      }
    } else if short {
      var n := TS_DATA_LEN - |rest|;
      assert p[4] == n - 1;
      assert p[4 + n..] == rest;
    } else {
      assert p[4..] == rest[..TS_DATA_LEN];
    }
    ParsedAs(p);
  }

  // ------------------------------------------------------------ whole frames

  function Extended(c: Collected, more: seq<byte>, cc: nat): Collected
    requires c.units != []
  {
    Collected(c.units[..|c.units| - 1] + [c.units[|c.units| - 1] + more], cc)
  }

  lemma CollectFirst(pid: nat, c: Collected, p: seq<byte>, tail: seq<byte>)
    requires |p| == TS_PACKET_LEN
    ensures CollectAll(pid, c, p + tail) ==
            match Collect(pid, c, p) case None => None case Some(c1) => CollectAll(pid, c1, tail)
  {
    hide Collect;
    assert (p + tail)[..TS_PACKET_LEN] == p && (p + tail)[TS_PACKET_LEN..] == tail;
  }

  /** Continuation packets extend the last unit by what they carry, and nothing else. */
  lemma {:induction false} CollectRest(f: Frame, c: Collected, rest: seq<byte>, tail: seq<byte>)
    requires c.cc < 16 && c.units != []
    ensures var (bytes, cc) := Packets(f, false, c.cc, rest);
            CollectAll(Pid(f), c, bytes + tail) == CollectAll(Pid(f), Extended(c, rest, cc), tail)
    decreases |rest|
  {
    hide ParsePacket, Packet, CollectAll;
    if rest == [] {
      assert [] + tail == tail;
      assert Extended(c, [], c.cc) == c by {
        assert c.units[|c.units| - 1] + [] == c.units[|c.units| - 1];
        assert c.units[..|c.units| - 1] + [c.units[|c.units| - 1]] == c.units;
      }
    } else {
      var cc := NextCc(c.cc);
      var n := Taken(f, false, |rest|);
      var p := Packet(f, false, cc, rest);
      var (more, last) := Packets(f, false, cc, rest[n..]);
      PacketLength(f, false, cc, rest);
      PacketParses(f, false, cc, rest);
      var c1 := Extended(c, rest[..n], cc);
      assert Collect(Pid(f), c, p) == Some(c1);
      assert p + more + tail == p + (more + tail);
      CollectFirst(Pid(f), c, p, more + tail);
      CollectRest(f, c1, rest[n..], tail);
      assert (c.units[|c.units| - 1] + rest[..n]) + rest[n..] == c.units[|c.units| - 1] + rest;
      assert Extended(c1, rest[n..], last) == Extended(c, rest, last);
    }
  }

  /** Packets of another PID pass by. */
  lemma {:induction false} CollectOther(pid: nat, f: Frame, first: bool, c: Collected, cc: nat, rest: seq<byte>, tail: seq<byte>)
    requires cc < 16 && pid != Pid(f)
    ensures CollectAll(pid, c, Packets(f, first, cc, rest).0 + tail) == CollectAll(pid, c, tail)
    decreases |rest|
  {
    hide ParsePacket, Packet, CollectAll;
    if rest == [] {
      assert [] + tail == tail;
    } else {
      var n := Taken(f, first, |rest|);
      var p := Packet(f, first, NextCc(cc), rest);
      var more := Packets(f, false, NextCc(cc), rest[n..]).0;
      PacketLength(f, first, NextCc(cc), rest);
      PacketParses(f, first, NextCc(cc), rest);
      assert p + more + tail == p + (more + tail);
      CollectFirst(pid, c, p, more + tail);
      CollectOther(pid, f, false, c, NextCc(cc), rest[n..], tail);
    }
  }

  /** The front of `bytes` adds one unit and leaves `tail` to be read. */
  ghost predicate Yields(f: Frame, c: Collected, bytes: seq<byte>, unit: seq<byte>, cc: nat, tail: seq<byte>) {
    CollectAll(Pid(f), c, bytes) == CollectAll(Pid(f), Collected(c.units + [unit], cc), tail)
  }

  /**
    Main theorem. From a frame's packets, wherever they stand in the stream,
    the demultiplexer collects one unit for its PID: the PES packet itself for
    a recoverable frame, 176 other bytes for any other.
   */
  lemma MuxCollected(f: Frame, c: Collected, tail: seq<byte>)
    requires c.cc < 16
    ensures var (bytes, cc) := Muxed(f, c.cc);
            exists unit :: (unit == Pes(f) <==> Recoverable(f)) && Yields(f, c, bytes + tail, unit, cc, tail)
  {
    hide ParsePacket, Packet, CollectAll, PesHeader;
    var rest := Pes(f);
    var cc, n := NextCc(c.cc), Taken(f, true, |rest|);
    var p := Packet(f, true, cc, rest);
    var (more, last) := Packets(f, false, cc, rest[n..]);
    PacketLength(f, true, cc, rest);
    PacketParses(f, true, cc, rest);
    var payload := ParsePacket(p).value.payload;
    var c1 := Collected(c.units + [payload], cc);
    assert Collect(Pid(f), c, p) == Some(c1);
    assert p + more + tail == p + (more + tail);
    CollectFirst(Pid(f), c, p, more + tail);
    CollectRest(f, c1, rest[n..], tail);
    var unit := payload + rest[n..];
    assert Extended(c1, rest[n..], last) == Collected(c.units + [unit], last);
    assert Muxed(f, c.cc) == (p + more, last);
    assert Yields(f, c, p + more + tail, unit, last, tail);
    if Recoverable(f) {
      assert unit == rest;
    } else {
      assert rest[n..] == [];
    }
  }

  /** The same, said of the frame's own packets only. */
  lemma MuxRecoveredIff(f: Frame, c: Collected)
    requires c.cc < 16
    ensures var (bytes, cc) := Muxed(f, c.cc);
            CollectAll(Pid(f), c, bytes) == Some(Collected(c.units + [Pes(f)], cc)) <==> Recoverable(f)
  {
    hide CollectAll, Muxed, Pes;
    MuxCollected(f, c, []);
    var (bytes, cc) := Muxed(f, c.cc);
    assert bytes + [] == bytes;
    var unit :| (unit == Pes(f) <==> Recoverable(f)) && Yields(f, c, bytes + [], unit, cc, []);
    CollectNothing(Pid(f), Collected(c.units + [unit], cc));
    if Collected(c.units + [unit], cc) == Collected(c.units + [Pes(f)], cc) {
      assert (c.units + [unit])[|c.units|] == (c.units + [Pes(f)])[|c.units|];
    }
  }

  lemma CollectNothing(pid: nat, c: Collected)
    ensures CollectAll(pid, c, []) == Some(c)
  {
  }

  // ------------------------------------------------------------ times

  lemma Digits(t: int, k: int, x: int)
    requires t == k * TWO_33 + x && 0 <= x < TWO_33
    ensures t % TWO_33 == x
  {
  }

  lemma TimeDigits(t: int)
    ensures t % TWO_33 == t / 0x4000_0000 % 8 * 0x4000_0000 + t / 0x8000 % 0x8000 * 0x8000 + t % 0x8000
  {
    var q := t / 0x8000;
    assert t / 0x4000_0000 == q / 0x8000;
    var c := q / 0x8000;
    Digits(t, c / 8, c % 8 * 0x4000_0000 + q % 0x8000 * 0x8000 + t % 0x8000);
  }

  /** A time field reads back as the time the source reduced it to, modulo 2^33. */
  lemma TimeReadBack(fb: nat, ts: int)
    requires fb < 16
    ensures ParseTime(TimeBytes(fb, ts)) == Some(Reduced(ts) % TWO_33) && TimeBytes(fb, ts)[0] / 16 == fb
  {
    hide TimeBytes, Reduced;
    TimeDigits(Reduced(ts));
    TimeBytesAre(fb, ts);
  }

  lemma TimeBytesAre(fb: nat, ts: int)
    requires fb < 16
    ensures var s, t := TimeBytes(fb, ts), Reduced(ts);
            && s[0] / 16 == fb && s[0] / 2 % 8 == t / 0x4000_0000 % 8
            && (s[1] as int * 256 + s[2]) / 2 == t / 0x8000 % 0x8000
            && (s[3] as int * 256 + s[4]) / 2 == t % 0x8000
            && s[0] % 2 == 1 && s[2] % 2 == 1 && s[4] % 2 == 1
  {
    hide Reduced;
    var t := Reduced(ts);
    HighByte(fb, t / 0x4000_0000 % 8);
    TwoBytes(t / 0x8000 % 0x8000);
    TwoBytes(t % 0x8000);
  }

  lemma HighByte(fb: nat, top: nat)
    requires fb < 16 && top < 8
    ensures var b := fb * 16 + top * 2 + 1; b / 16 == fb && b / 2 % 8 == top && b % 2 == 1
  {
  }

  lemma TwoBytes(v: nat)
    requires v < 0x8000
    ensures var w := v * 2 + 1; (w / 256 * 256 + w % 256) / 2 == v && w % 256 % 2 == 1
  {
  }

  /** It is the time itself, modulo 2^33, exactly below 2^33: beyond, the reduction is off by one tick. */
  lemma TimeRightIff(fb: nat, ts: int)
    requires fb < 16
    ensures ParseTime(TimeBytes(fb, ts)) == Some(ts % TWO_33) <==> ts < TWO_33
  {
    hide TimeBytes, ParseTime;
    TimeReadBack(fb, ts);
    if ts >= TWO_33 {
      var q, r := ts / TWO_33, ts % TWO_33;
      if r + 1 < TWO_33 {
        Digits(ts - 0x1_ffff_ffff, q - 1, r + 1);
      } else {
        Digits(ts - 0x1_ffff_ffff, q, 0);
      }
    }
  }

  /** Where the payload of a key frame's first packet starts, with `n` bytes to send. */
  function PayloadStart(n: nat): (i: nat)
    ensures 5 <= i <= 12
  {
    if TS_DATA_LEN - 8 < n < TS_DATA_LEN then TS_PACKET_LEN - n else 12
  }

  /** The seven bytes behind the adaptation length: the PCR's, as far as the payload leaves them. */
  lemma KeyAdaptation(f: Frame, cc: nat)
    requires cc < 16 && f.isVideo && f.isKey
    ensures var p, start := Packet(f, true, cc, Pes(f)), PayloadStart(|Pes(f)|);
            var t := ParsePacket(p);
            && t.Some? && |t.value.adaptation| == 7
            && forall k :: 0 <= k < 7 ==>
                 t.value.adaptation[k] == if 5 + k < start then PcrField(Dts(f))[k + 1] else Pes(f)[5 + k - start]
  {
    hide PesHeader, PcrField;
    var p, n := Packet(f, true, cc, Pes(f)), |Pes(f)|;
    PacketLength(f, true, cc, Pes(f));
    PacketParses(f, true, cc, Pes(f));
    var start := PayloadStart(n);
    var field := PcrField(Dts(f));
    assert field[0] == 7 by { FieldLength(Dts(f)); }
    assert p[4..start] == field[..start - 4];
    assert forall i :: 4 <= i < start ==> p[i] == field[i - 4];
    if start < 12 {
      assert p[start..] == Pes(f);
      assert forall i :: start <= i < 12 ==> p[i] == Pes(f)[i - start];
    }
  }

  lemma FieldLength(dts: int)
    ensures PcrField(dts)[0] == 7
  {
  }

  /** When the bytes of payload that overlap the clock reference are those it had anyway. */
  predicate ClockSpared(n: nat, dts: int) {
    || n >= TS_DATA_LEN || n <= 178
    || (n == 179 && dts % 0x200 == 0)
    || (n == 180 && dts % 0x2_0000 == 0)
    || (n == 182 && dts % TWO_33 == 960)
  }

  /**
    The clock reference of a key frame reads back as its decoding time modulo 2^33
    unless its PES packet has 179 to 183 bytes; with 179, 180 or 182 it does so for
    times that happen to have the digits of a PES header.
   */
  lemma PcrReadBackIff(f: Frame, cc: nat)
    requires cc < 16 && f.isVideo && f.isKey
    ensures var t := ParsePacket(Packet(f, true, cc, Pes(f)));
            t.Some? && (ParsePcr(t.value.adaptation) == Some(f.timestamp * 90 % 0x2_0000_0000) <==> ClockSpared(|Pes(f)|, f.timestamp * 90))
  {
    KeyAdaptation(f, cc);
    hide Packet, ParsePacket, Dts;
    var a, n := ParsePacket(Packet(f, true, cc, Pes(f))).value.adaptation, |Pes(f)|;
    if PayloadStart(n) == 12 {
      assert a == PcrField(Dts(f))[1..];
      PcrFieldReadBack(Dts(f));
    } else {
      PesFront(f);
      EvenTime(f);
      hide Pes;
      Overlapped(Dts(f), n, a);
    }
  }

  lemma EvenTime(f: Frame)
    ensures Dts(f) >= 0 && Dts(f) % 2 == 0
  {
    assert Dts(f) == 45 * f.timestamp * 2;
  }

  lemma PesFront(f: Frame)
    requires f.isVideo
    ensures var s := Pes(f); |s| >= 14 && s[0] == 0 && s[1] == 0 && s[2] == 1 && s[3] == VIDEO_SID
    ensures |Pes(f)| < TS_DATA_LEN ==> Pes(f)[4] == 0
  {
  }

  /** The first bytes of a PES packet written over the last ones of the clock reference. */
  lemma Overlapped(dts: int, n: nat, a: seq<byte>)
    requires dts >= 0 && dts % 2 == 0 && TS_DATA_LEN - 8 < n < TS_DATA_LEN && |a| == 7
    requires var start, front := PayloadStart(n), [0x00, 0x00, 0x01, VIDEO_SID, 0x00];
             forall k :: 0 <= k < 7 && 5 + k - start < 5 ==>
               a[k] == if 5 + k < start then PcrField(dts)[k + 1] else front[5 + k - start]
    ensures ParsePcr(a) == Some(dts % TWO_33) <==> ClockSpared(n, dts)
  {
    PcrDigits(dts);
    LowDigits(dts);
    var d0, d1, d2, d3 := dts / 0x200_0000 % 256, dts / 0x2_0000 % 256, dts / 0x200 % 256, dts / 2 % 256;
    if n == 183 {
      assert a[0] == 0x00;
    } else if n == 182 {
      assert a[0] == 0x50 && a[1] == 0 && a[2] == 0 && a[3] == 1 && a[4] == VIDEO_SID && a[5] == 0;
    } else if n == 181 {
      assert a[0] == 0x50 && a[1] == d0 && a[2] == 0 && a[3] == 0 && a[4] == 1 && a[5] == VIDEO_SID;
    } else if n == 180 {
      assert a[0] == 0x50 && a[1] == d0 && a[2] == d1 && a[3] == 0 && a[4] == 0 && a[5] == 1;
    } else if n == 179 {
      assert a[0] == 0x50 && a[1] == d0 && a[2] == d1 && a[3] == d2 && a[4] == 0 && a[5] == 0;
    } else {
      assert a[0] == 0x50 && a[1] == d0 && a[2] == d1 && a[3] == d2 && a[4] == d3 && a[5] / 128 == 0;
    }
    hide PcrField;
  }

  lemma LowDigits(t: int)
    ensures t % 0x200 == t / 2 % 256 * 2 + t % 2
    ensures t % 0x2_0000 == t / 0x200 % 256 * 0x200 + t / 2 % 256 * 2 + t % 2
    ensures t % TWO_33 % 2 == t % 2
  {
    var a, b := t / 2, t / 0x200;
    assert b == a / 256;
    assert t / 0x2_0000 == b / 256;
    assert t == b * 0x200 + a % 256 * 2 + t % 2;
    assert t == t / 0x2_0000 * 0x2_0000 + b % 256 * 0x200 + a % 256 * 2 + t % 2;
  }

  lemma PcrDigits(t: int)
    ensures t % TWO_33 == t / 0x200_0000 % 256 * 0x200_0000 + t / 0x2_0000 % 256 * 0x2_0000 +
                          t / 0x200 % 256 * 0x200 + t / 2 % 256 * 2 + t % 2
  {
    var a := t / 2;
    var b, c, d := a / 256, t / 0x2_0000, t / 0x200_0000;
    assert b == t / 0x200;
    assert c == b / 256;
    assert d == c / 256;
    Digits(t, d / 256, d % 256 * 0x200_0000 + c % 256 * 0x2_0000 + b % 256 * 0x200 + a % 256 * 2 + t % 2);
  }

  lemma PcrFieldReadBack(dts: int)
    ensures ParsePcr(PcrField(dts)[1..]) == Some(dts % TWO_33)
  {
    PcrDigits(dts);
    var a := PcrField(dts)[1..];
    assert a[0] == 0x50 && a[5] / 128 == dts % 2;
    assert a[1] == dts / 0x200_0000 % 256 && a[2] == dts / 0x2_0000 % 256 && a[3] == dts / 0x200 % 256 && a[4] == dts / 2 % 256;
  }

  /** The PES packet parses back into its parts. */
  lemma PesReadBack(f: Frame)
    ensures ParsePes(Pes(f)) ==
            Some(PesUnit(if f.isVideo then VIDEO_SID else AUDIO_SID, PesLength(f),
                         Reduced(Pts(f)) % TWO_33, Reduced(Dts(f)) % TWO_33, f.data))
  {
    hide TimeBytes, ParseTime;
    var s := Pes(f);
    TimeReadBack(if HasDts(f) then 3 else 2, Pts(f));
    TimeReadBack(1, Dts(f));
    assert s[..3] == [0, 0, 1];
    assert s[9..14] == TimeBytes(if HasDts(f) then 3 else 2, Pts(f));
    assert s[9 + HeaderSize(f)..] == f.data;
    if HasDts(f) {
      assert s[14..19] == TimeBytes(1, Dts(f));
    }
  }

  /**
    What a player makes of a frame's PES packet, in the frame's own terms: times in ticks
    of 90 kHz, the presentation time later than the decoding time by the composition time,
    each off by one tick from 2^33 on; and the length of all that follows it, or zero where
    that does not fit 16 bits.
   */
  lemma PlayedAt(f: Frame)
    ensures var dts := f.timestamp * 90;
            var pts := if f.isVideo then (f.timestamp + f.compositionTime) * 90 else dts;
            var length := |Pes(f)| - 6;
            ParsePes(Pes(f)) ==
            Some(PesUnit(if f.isVideo then 0xe0 else 0xc0, if length <= 65535 then length else 0,
                         (if pts < 0x2_0000_0000 then pts else pts + 1) % 0x2_0000_0000,
                         (if dts < 0x2_0000_0000 then dts else dts + 1) % 0x2_0000_0000, f.data))
  {
    PesReadBack(f);
    hide ParsePes, Pes;
    var dts := f.timestamp * 90;
    var pts := if f.isVideo then (f.timestamp + f.compositionTime) * 90 else dts;
    assert Dts(f) == dts && Pts(f) == pts;
    OneTickOff(pts);
    OneTickOff(dts);
    assert PesLength(f) == if |Pes(f)| - 6 <= 65535 then |Pes(f)| - 6 else 0 by { PesLengthIs(f); }
  }

  lemma PesLengthIs(f: Frame)
    ensures PesLength(f) == if |Pes(f)| - 6 <= 65535 then |Pes(f)| - 6 else 0
  {
  }

  lemma OneTickOff(t: int)
    ensures Reduced(t) % TWO_33 == (if t < 0x2_0000_0000 then t else t + 1) % 0x2_0000_0000
  {
    if t > 0x1_ffff_ffff {
      var u := t - 0x1_ffff_ffff;
      Digits(t + 1, u / TWO_33 + 1, u % TWO_33);
    }
  }

  /** The flags of the header: which times it holds and how many bytes they take. */
  lemma PesFlags(f: Frame)
    ensures var s := Pes(f);
            && |s| >= 14 && s[6] == 0x80
            && (f.isVideo && f.compositionTime != 0 ==> s[7] == 0xc0 && s[8] == 10)
            && (!f.isVideo || f.compositionTime == 0 ==> s[7] == 0x80 && s[8] == 5)
  {
    hide TimeBytes, PesLength;
    var s := Pes(f);
    assert s[6] == PesHeader(f)[6] && s[7] == PesHeader(f)[7] && s[8] == PesHeader(f)[8];
    assert Pts(f) != Dts(f) <==> f.isVideo && f.compositionTime != 0 by { Shifted(f); }
  }

  lemma Shifted(f: Frame)
    ensures Pts(f) == Dts(f) + (if f.isVideo then 90 * f.compositionTime else 0)
  {
  }

  /**
    The packets of video are on PID 0x100 and those of sound on 0x101. The first packet of
    a key frame is marked as a place to start from, unless its PES packet has 183 bytes and
    is written over the mark; in any other packet the adaptation field is only stuffing.
   */
  lemma AdaptationIs(f: Frame, first: bool, cc: nat, rest: seq<byte>)
    requires cc < 16 && rest != []
    ensures var t := ParsePacket(Packet(f, first, cc, rest));
            && t.Some? && t.value.pid == (if f.isVideo then 0x100 else 0x101)
            && (!(first && f.isVideo && f.isKey) ==>
                 var a := t.value.adaptation;
                 ParsePcr(a) == None && (a != [] ==> a[0] == 0) && forall k :: 1 <= k < |a| ==> a[k] == 0xff)
  {
    PacketParses(f, first, cc, rest);
    if !Keyed(f, first) {
      StuffingOnly(f, first, cc, rest);
    }
  }

  lemma StuffingOnly(f: Frame, first: bool, cc: nat, rest: seq<byte>)
    requires cc < 16 && rest != [] && !Keyed(f, first)
    ensures var t := ParsePacket(Packet(f, first, cc, rest));
            && t.Some? && var a := t.value.adaptation;
            (a != [] ==> a[0] == 0) && forall k :: 1 <= k < |a| ==> a[k] == 0xff
  {
    PacketParses(f, first, cc, rest);
    HeaderParses(f, first, |rest| < TS_DATA_LEN, cc);
    PacketLength(f, first, cc, rest);
    hide PacketHeader;
    var p, short := Packet(f, first, cc, rest), |rest| < TS_DATA_LEN;
    var header := PacketHeader(f, first, short, cc);
    assert p[..4] == header;
    assert p[3] == header[3];
    if short {
      var n := TS_DATA_LEN - |rest|;
      assert p[4..4 + n] == Stuffing(n);
      assert p[4] == n - 1 == Stuffing(n)[0] && p[5..5 + p[4]] == Stuffing(n)[1..];
    }
  }

  lemma StartsHereIff(f: Frame, cc: nat)
    requires cc < 16 && f.isVideo && f.isKey
    ensures var t := ParsePacket(Packet(f, true, cc, Pes(f)));
            && t.Some? && |t.value.adaptation| == 7
            && (t.value.adaptation[0] / 64 % 2 == 1 <==> |Pes(f)| != 183)
  {
    KeyAdaptation(f, cc);
    hide Packet, ParsePacket;
    PesFront(f);
    assert PcrField(Dts(f))[1] == 0x50;
  }
}
