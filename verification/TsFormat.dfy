/**
  MPEG-TS packets (ISO/IEC 13818-1, sections 2.4.3.2 to 2.4.3.7): what the
  muxer lays out for one frame, and an independent demultiplexer to read it.
 */
module TsFormat {
  import opened Bytes

  const TS_PACKET_LEN := 188
  const TS_DATA_LEN := 184
  const VIDEO_PID := 0x100
  const AUDIO_PID := 0x101
  const VIDEO_SID := 0xe0
  const AUDIO_SID := 0xc0
  const HZ := 90
  const TWO_33 := 0x2_0000_0000

  /** A frame to mux; audio frames have neither a key flag nor a composition time. */
  datatype Frame = Frame(isVideo: bool, isKey: bool, timestamp: uint32, compositionTime: int, data: seq<byte>)

  function Dts(f: Frame): int {
    f.timestamp * HZ
  }

  function Pts(f: Frame): int {
    if f.isVideo then Dts(f) + f.compositionTime * HZ else Dts(f)
  }

  function Pid(f: Frame): nat {
    if f.isVideo then VIDEO_PID else AUDIO_PID
  }

  function PidOf(isVideo: bool): nat {
    if isVideo then VIDEO_PID else AUDIO_PID
  }

  // ------------------------------------------------------------- PES header

  /** The source's reduction of a time that does not fit 33 bits. */
  function Reduced(ts: int): int {
    if ts > 0x1_ffff_ffff then ts - 0x1_ffff_ffff else ts
  }

  /** The five bytes of a PTS or DTS, with marker bits. */
  function TimeBytes(fb: nat, ts: int): (s: seq<byte>)
    requires fb < 16
    ensures |s| == 5
  {
    var t := Reduced(ts);
    var mid, low := t / 0x8000 % 0x8000 * 2 + 1, t % 0x8000 * 2 + 1;
    [fb * 16 + t / 0x4000_0000 % 8 * 2 + 1, mid / 256, mid % 256, low / 256, low % 256]
  }

  predicate HasDts(f: Frame) {
    f.isVideo && Pts(f) != Dts(f)
  }

  function HeaderSize(f: Frame): nat {
    if HasDts(f) then 10 else 5
  }

  /** PES_packet_length, zero when it does not fit. */
  function PesLength(f: Frame): (n: nat)
    ensures n <= 0xffff
  {
    var size := |f.data| + HeaderSize(f) + 3;
    if size > 0xffff then 0 else size
  }

  function PesHeader(f: Frame): (s: seq<byte>)
    ensures |s| == 9 + HeaderSize(f)
  {
    [0x00, 0x00, 0x01, if f.isVideo then VIDEO_SID else AUDIO_SID, PesLength(f) / 256, PesLength(f) % 256,
     0x80, if HasDts(f) then 0xc0 else 0x80, HeaderSize(f)] +
    TimeBytes(if HasDts(f) then 3 else 2, Pts(f)) + if HasDts(f) then TimeBytes(1, Dts(f)) else []
  }

  function Pes(f: Frame): seq<byte> {
    PesHeader(f) + f.data
  }

  // ---------------------------------------------------------- TS packets

  /** The adaptation field of a key frame's first packet up to the PCR. */
  function PcrField(dts: int): (s: seq<byte>)
    ensures |s| == 8
  {
    [7, 0x50, dts / 0x200_0000 % 256, dts / 0x2_0000 % 256, dts / 0x200 % 256, dts / 2 % 256, dts % 2 * 128 + 0x7e, 0]
  }

  /** `n` bytes of stuffing in the form of an adaptation field. */
  function Stuffing(n: nat): (s: seq<byte>)
    ensures |s| == n
  {
    if n == 0 then [] else if n == 1 then [0] else [(n - 1) % 256, 0] + seq(n - 2, _ => 0xff)
  }

  /** Is this packet the first of a video key frame, the one that carries a PCR? */
  predicate Keyed(f: Frame, first: bool) {
    first && f.isVideo && f.isKey
  }

  function PacketHeader(f: Frame, first: bool, adaptation: bool, cc: nat): (s: seq<byte>)
    requires cc < 16
    ensures |s| == 4
  {
    [0x47, Pid(f) / 256 + (if first then 0x40 else 0), Pid(f) % 256, (if adaptation then 0x30 else 0x10) + cc]
  }

  /** How many of `n` remaining bytes the next packet takes. */
  function Taken(f: Frame, first: bool, n: nat): nat {
    if n < TS_DATA_LEN then n else if Keyed(f, first) then TS_DATA_LEN - 8 else TS_DATA_LEN
  }

  /**
    What precedes the payload in the next packet, with `n` bytes left to send.
    With less than a packetful left, a key frame's first packet is the odd one:
    its second adaptation length lands behind the PCR, and for more than 176
    bytes the payload even starts before the PCR ends.
   */
  function Prefix(f: Frame, first: bool, cc: nat, n: nat): seq<byte>
    requires cc < 16
  {
    var short := n < TS_DATA_LEN;
    var header := PacketHeader(f, first, short || Keyed(f, first), cc);
    if !Keyed(f, first) then header + if short then Stuffing(TS_DATA_LEN - n) else []
    else if !short then header + PcrField(Dts(f))
    else if n <= TS_DATA_LEN - 8 then header + PcrField(Dts(f)) + Stuffing(TS_DATA_LEN - 8 - n)
    else header + PcrField(Dts(f))[..TS_DATA_LEN - n]
  }

  function Packet(f: Frame, first: bool, cc: nat, rest: seq<byte>): seq<byte>
    requires cc < 16 && rest != []
  {
    Prefix(f, first, cc, |rest|) + rest[..Taken(f, first, |rest|)]
  }

  function NextCc(cc: nat): nat {
    if cc + 1 > 15 then 0 else cc + 1
  }

  /** The packets for `rest`, and the continuity counter after them. */
  function Packets(f: Frame, first: bool, cc: nat, rest: seq<byte>): (r: (seq<byte>, nat))
    requires cc < 16
    ensures r.1 < 16
    decreases |rest|
  {
    if rest == [] then ([], cc)
    else
      var (more, last) := Packets(f, false, NextCc(cc), rest[Taken(f, first, |rest|)..]);
      (Packet(f, first, NextCc(cc), rest) + more, last)
  }

  function Muxed(f: Frame, cc: nat): (seq<byte>, nat)
    requires cc < 16
  {
    Packets(f, true, cc, Pes(f))
  }

  // ------------------------------------------------------- demultiplexing

  /** The header fields and the payload of a transport packet. */
  datatype Parsed = Parsed(pid: nat, start: bool, cc: nat, adaptation: seq<byte>, payload: seq<byte>)

  /** Sections 2.4.3.2 to 2.4.3.5; scrambled, erroneous and reserved packets are not read. */
  function ParsePacket(p: seq<byte>): Option<Parsed> {
    if |p| != TS_PACKET_LEN || p[0] != 0x47 || p[1] >= 0x80 || p[3] >= 0x40 then None
    else
      var pid, start, control, cc := p[1] as int % 32 * 256 + p[2], p[1] / 64 % 2 == 1, p[3] / 16 % 4, p[3] % 16;
      if control == 1 then Some(Parsed(pid, start, cc, [], p[4..]))
      else if control == 3 && p[4] <= 182 then Some(Parsed(pid, start, cc, p[5..5 + p[4]], p[5 + p[4]..]))
      else None
  }

  /** What has been collected for one PID: PES units, and the last continuity counter. */
  datatype Collected = Collected(units: seq<seq<byte>>, cc: nat)

  /** One packet: other PIDs pass by, a counter must follow its predecessor, a start opens a new unit. */
  function Collect(pid: nat, c: Collected, p: seq<byte>): Option<Collected> {
    match ParsePacket(p)
    case None => None
    case Some(t) =>
      if t.pid != pid then Some(c)
      else if t.cc != (c.cc + 1) % 16 then None
      else if t.start then Some(Collected(c.units + [t.payload], t.cc))
      else if c.units == [] then None
      else Some(Collected(c.units[..|c.units| - 1] + [c.units[|c.units| - 1] + t.payload], t.cc))
  }

  function CollectAll(pid: nat, c: Collected, bytes: seq<byte>): Option<Collected>
    decreases |bytes|
  {
    if bytes == [] then Some(c)
    else if |bytes| < TS_PACKET_LEN then None
    else match Collect(pid, c, bytes[..TS_PACKET_LEN])
      case None => None
      case Some(c1) => CollectAll(pid, c1, bytes[TS_PACKET_LEN..])
  }

  /** A PTS or DTS field with its marker bits (section 2.4.3.7). */
  function ParseTime(s: seq<byte>): Option<nat>
    requires |s| == 5
  {
    if s[0] % 2 == 1 && s[2] % 2 == 1 && s[4] % 2 == 1 then
      Some(s[0] / 2 % 8 * 0x4000_0000 + (s[1] as int * 256 + s[2]) / 2 * 0x8000 + (s[3] as int * 256 + s[4]) / 2)
    else None
  }

  /** program_clock_reference_base of an adaptation field that carries one. */
  function ParsePcr(a: seq<byte>): Option<nat> {
    if |a| >= 7 && a[0] / 16 % 2 == 1 then
      Some(a[1] as int * 0x200_0000 + a[2] as int * 0x2_0000 + a[3] as int * 0x200 + a[4] as int * 2 + a[5] / 128)
    else None
  }

  datatype PesUnit = PesUnit(streamID: nat, length: nat, pts: nat, dts: nat, data: seq<byte>)

  /** A PES packet with a PTS and possibly a DTS. */
  function ParsePes(s: seq<byte>): Option<PesUnit> {
    if |s| < 14 || s[..3] != [0, 0, 1] || s[6] / 64 != 2 || s[7] < 0x80 || |s| < 9 + s[8] as int then None
    else
      var streamID, length, data := s[3], s[4] as int * 256 + s[5], s[9 + s[8]..];
      if s[7] / 64 == 2 && s[8] >= 5 && s[9] / 16 == 2 then
        match ParseTime(s[9..14])
        case None => None
        case Some(pts) => Some(PesUnit(streamID, length, pts, pts, data))
      else if s[7] / 64 == 3 && s[8] >= 10 && s[9] / 16 == 3 && s[14] / 16 == 1 then
        match (ParseTime(s[9..14]), ParseTime(s[14..19]))
        case (Some(pts), Some(dts)) => Some(PesUnit(streamID, length, pts, dts, data))
        case _ => None
      else None
  }
}
