/**
  Program association and program map tables (ISO/IEC 13818-1, section 2.4.4):
  one packet each, holding a section with its checksum and stuffing behind.
 */
module TsTables {
  import opened Bytes
  import opened Crc32

  const TABLE_PACKET_LEN := 188
  const PAT_SECTION: seq<bv8> := [0x00, 0xb0, 0x0d, 0x00, 0x01, 0xc1, 0x00, 0x00, 0x00, 0x01, 0xf0, 0x01]

  function AudioType(soundFormat: bv8): bv8 {
    if soundFormat == 2 || soundFormat == 14 then 0x04 else 0x0f
  }

  function PmtSection(soundFormat: bv8, hasVideo: bool): (s: seq<bv8>)
    ensures |s| == if hasVideo then 22 else 17
  {
    if hasVideo then
      [0x02, 0xb0, 0x17, 0x00, 0x01, 0xc1, 0x00, 0x00, 0xe1, 0x00, 0xf0, 0x00,
       0x1b, 0xe1, 0x00, 0xf0, 0x00, AudioType(soundFormat), 0xe1, 0x01, 0xf0, 0x00]
    else
      [0x02, 0xb0, 0x12, 0x00, 0x01, 0xc1, 0x00, 0x00, 0xe1, 0x01, 0xf0, 0x00,
       AudioType(soundFormat), 0xe1, 0x01, 0xf0, 0x00]
  }

  /** A packet with a section behind its pointer_field, the checksum, and filler. */
  function TablePacket(b1: bv8, b2: bv8, cc: bv8, section: seq<bv8>): seq<bv8>
    requires |section| <= 64
  {
    TableHeader(b1, b2, cc) + section + CrcBytes(AnnexA(section)) + Filler(TABLE_PACKET_LEN - 9 - |section|)
  }

  function Filler(n: nat): (s: seq<bv8>)
    ensures |s| == n && forall k :: 0 <= k < n ==> s[k] == 0xff
  {
    seq(n, _ => 0xff)
  }

  /** The packet header, with the start flag in `b1`, and the pointer_field. */
  function TableHeader(b1: bv8, b2: bv8, cc: bv8): (h: seq<bv8>)
    ensures |h| == 5
  {
    [0x47, b1, b2, 0x10 | (cc & 0x0f), 0x00]
  }

  lemma SixteenIsZero(b1: bv8, b2: bv8)
    ensures TableHeader(b1, b2, 16) == TableHeader(b1, b2, 0)
  {
  }

  /** The counter runs from 0 to 16 and starts over; 16 goes on the wire as 0. */
  function NextTableCc(cc: bv8): bv8 {
    if cc > 0xf then 1 else cc + 1
  }

  method FillTable(packet: array<bv8>, tsHeader: seq<bv8>, section: seq<bv8>)
    requires packet.Length == TABLE_PACKET_LEN && |tsHeader| == 5 && |section| <= 64
    modifies packet
    ensures packet[..] == tsHeader + section + CrcBytes(AnnexA(section)) + Filler(TABLE_PACKET_LEN - 9 - |section|)
  {
    hide AnnexA;
    var i := 0;
    Copy(packet, i, tsHeader);
    i := i + |tsHeader|;
    Copy(packet, i, section);
    i := i + |section|;
    assert packet[..i] == tsHeader + section;
    var crc32Value := GenCrc32(section);
    Copy(packet, i, CrcBytes(crc32Value));
    i := i + 4;
    ghost var done := tsHeader + section + CrcBytes(crc32Value);
    assert packet[..i] == done;
    for j := 0 to TABLE_PACKET_LEN - i
      invariant packet[..i] == done && forall k :: i <= k < i + j ==> packet[k] == 0xff
    {
      packet[i + j] := 0xff;
    }
    assert packet[i..] == Filler(TABLE_PACKET_LEN - i);
    assert packet[..] == packet[..i] + packet[i..];
  }

  method Copy(dst: array<bv8>, at: nat, src: seq<bv8>)
    requires at + |src| <= dst.Length
    modifies dst
    ensures dst[..at] == old(dst[..at]) && dst[at..at + |src|] == src
  {
    for k := 0 to |src|
      invariant dst[..at] == old(dst[..at]) && dst[at..at + k] == src[..k]
    {
      dst[at + k] := src[k];
    }
  }

  /** The header template, with the counter put into its fourth byte. */
  method FillHeader(b1: bv8, b2: bv8, cc: bv8) returns (tsHeader: seq<bv8>)
    ensures tsHeader == TableHeader(b1, b2, cc)
  {
    tsHeader := [0x47, b1, b2, 0x10, 0x00];
    tsHeader := tsHeader[3 := tsHeader[3] | (cc & 0x0f)];
  }

  /** The map section from its templates: length, PCR PID and sound type are patched in. */
  method FillPmtSection(soundFormat: bv8, hasVideo: bool) returns (section: seq<bv8>)
    ensures section == PmtSection(soundFormat, hasVideo)
  {
    var pmtHeader: seq<bv8> := [0x02, 0xb0, 0xff, 0x00, 0x01, 0xc1, 0x00, 0x00, 0xe1, 0x00, 0xf0, 0x00];
    var progInfo: seq<bv8>;
    if !hasVideo {
      pmtHeader := pmtHeader[9 := 0x01];
      progInfo := [0x0f, 0xe1, 0x01, 0xf0, 0x00];
    } else {
      progInfo := [0x1b, 0xe1, 0x00, 0xf0, 0x00, 0x0f, 0xe1, 0x01, 0xf0, 0x00];
    }
    var length := |progInfo| + 9 + 4;
    assert length == if hasVideo then 23 else 18;
    pmtHeader := pmtHeader[2 := length as bv8];
    assert pmtHeader == PmtSection(soundFormat, hasVideo)[..12];
    if soundFormat == 2 || soundFormat == 14 {
      progInfo := progInfo[(if hasVideo then 5 else 0) := 0x4];
    }
    assert progInfo == PmtSection(soundFormat, hasVideo)[12..];
    section := pmtHeader + progInfo;
  }

  // ------------------------------------------------------------- reading

  /** A 13-bit PID from two bytes. */
  function PidFrom(hi: bv8, lo: bv8): bv16 {
    (((hi & 0x1f) as bv16) << 8) | (lo as bv16)
  }

  /**
    The section of a packet that starts one: it is in the long form, applies now and is the
    only one; its length is believed, and its checksum must be zero.
   */
  function ParseSection(p: seq<bv8>): Option<seq<bv8>> {
    if |p| != TABLE_PACKET_LEN || p[0] != 0x47 || p[1] & 0x40 == 0 || p[3] & 0x30 != 0x10 || p[4] != 0 then None
    else
      var length := p[7] as nat;
      if p[6] & 0x8f != 0x80 || length < 9 || 8 + length > TABLE_PACKET_LEN then None
      else if p[10] & 0x01 != 1 || p[11] != 0 || p[12] != 0 then None
      else
        var section := p[5..8 + length];
        if AnnexA(section) != 0 then None else Some(section[..|section| - 4])
  }

  datatype Stream = Stream(kind: bv8, pid: bv16)

  /** The twelve-bit length of the descriptors that follow. */
  function InfoLength(hi: bv8, lo: bv8): nat {
    ((((hi & 0x0f) as bv16) << 8) | (lo as bv16)) as int
  }

  /** The streams of a map; their descriptors are skipped. */
  function Streams(s: seq<bv8>): seq<Stream> {
    if |s| < 5 || |s| < 5 + InfoLength(s[3], s[4]) then []
    else [Stream(s[0], PidFrom(s[1], s[2]))] + Streams(s[5 + InfoLength(s[3], s[4])..])
  }

  datatype Pmt = Pmt(pcrPid: bv16, streams: seq<Stream>)

  function ParsePmt(s: seq<bv8>): Option<Pmt> {
    if |s| < 12 || s[0] != 2 || |s| < 12 + InfoLength(s[10], s[11]) then None
    else Some(Pmt(PidFrom(s[8], s[9]), Streams(s[12 + InfoLength(s[10], s[11])..])))
  }

  /** The first program of an association table: its number and the PID of its map. */
  function ParsePat(s: seq<bv8>): Option<(bv16, bv16)> {
    if |s| >= 12 && s[0] == 0 then Some((((s[8] as bv16) << 8) | s[9] as bv16, PidFrom(s[10], s[11]))) else None
  }

  lemma SectionReadBack(b1: bv8, b2: bv8, cc: bv8, section: seq<bv8>)
    requires 8 <= |section| <= 64 && b1 & 0x40 != 0
    requires section[1] & 0x8f == 0x80 && section[2] as nat == |section| + 1 && section[2] >= 9
    requires section[5] & 0x01 == 1 && section[6] == section[7] == 0
    ensures ParseSection(TablePacket(b1, b2, cc, section)) == Some(section)
  {
    hide AnnexA, CrcBytes, TableHeader;
    var p := TablePacket(b1, b2, cc, section);
    var crc := AnnexA(section);
    SectionChecks(section);
    TableHeaderIs(b1, b2, cc);
    assert p[5..9 + |section|] == section + CrcBytes(crc);
    assert (section + CrcBytes(crc))[..|section|] == section;
    assert p[6] == section[1] && p[7] == section[2] && p[10] == section[5] && p[11] == section[6] && p[12] == section[7];
    assert p[..5] == TableHeader(b1, b2, cc);
    assert p[0] == p[..5][0] && p[1] == p[..5][1] && p[3] == p[..5][3] && p[4] == p[..5][4];
  }

  lemma TableHeaderIs(b1: bv8, b2: bv8, cc: bv8)
    ensures var h := TableHeader(b1, b2, cc);
            |h| == 5 && h[0] == 0x47 && h[1] == b1 && h[3] & 0x30 == 0x10 && h[4] == 0
  {
  }

  /** Every association table reads back: program 1, its map on PID 0x1001. */
  lemma PatReadBack(cc: bv8)
    ensures var s := ParseSection(TablePacket(0x40, 0x00, cc, PAT_SECTION));
            s.Some? && ParsePat(s.value) == Some((1, 0x1001))
  {
    hide ParseSection, TablePacket;
    SectionReadBack(0x40, 0x00, cc, PAT_SECTION);
  }

  /** Every map reads back: H.264 video if there is video, and the announced kind of sound. */
  lemma PmtReadBack(cc: bv8, soundFormat: bv8, hasVideo: bool)
    ensures var s := ParseSection(TablePacket(0x50, 0x01, cc, PmtSection(soundFormat, hasVideo)));
            s.Some? && ParsePmt(s.value) == Some(Announced(if soundFormat == 2 || soundFormat == 14 then 0x04 else 0x0f, hasVideo))
  {
    hide ParseSection, TablePacket, ParsePmt;
    var section := PmtSection(soundFormat, hasVideo);
    SectionReadBack(0x50, 0x01, cc, section);
    hide PmtSection;
    MapRead(soundFormat, hasVideo);
  }

  lemma MapRead(soundFormat: bv8, hasVideo: bool)
    ensures ParsePmt(PmtSection(soundFormat, hasVideo)) == Some(Announced(AudioType(soundFormat), hasVideo))
  {
    hide AudioType, Streams, InfoLength, PidFrom;
    var section := PmtSection(soundFormat, hasVideo);
    var sound := [AudioType(soundFormat), 0xe1, 0x01, 0xf0, 0x00];
    var video: seq<bv8> := [0x1b, 0xe1, 0x00, 0xf0, 0x00];
    StreamsRead(AudioType(soundFormat));
    assert section[12..] == if hasVideo then video + sound else sound;
    assert section[8] == 0xe1 && section[9] == if hasVideo then 0x00 else 0x01;
    PidsRead();
  }

  /** What a map is meant to say: where the clock is, and the stream of each kind. */
  function Announced(kind: bv8, hasVideo: bool): Pmt {
    if hasVideo then Pmt(0x100, [Stream(0x1b, 0x100), Stream(kind, 0x101)]) else Pmt(0x101, [Stream(kind, 0x101)])
  }

  /** The table packets of one kind carry successive counters, modulo 16. */
  lemma TablesCount(b1: bv8, b2: bv8, cc: bv8, was: seq<bv8>, section: seq<bv8>)
    requires cc <= 16 && |was| <= 64 && |section| <= 64
    ensures TablePacket(b1, b2, NextTableCc(cc), section)[3] & 0x0f == ((TablePacket(b1, b2, cc, was)[3] & 0x0f) + 1) & 0x0f
    ensures NextTableCc(cc) <= 16
  {
    FourthByte(b1, b2, cc, was);
    FourthByte(b1, b2, NextTableCc(cc), section);
    hide TablePacket;
    NibbleCounts(cc);
  }

  lemma NibbleCounts(cc: bv8)
    requires cc <= 16
    ensures NextTableCc(cc) & 0x0f == ((cc & 0x0f) + 1) & 0x0f && NextTableCc(cc) <= 16
  {
  }

  lemma FourthByte(b1: bv8, b2: bv8, cc: bv8, section: seq<bv8>)
    requires |section| <= 64
    ensures |TablePacket(b1, b2, cc, section)| == 188 && TablePacket(b1, b2, cc, section)[3] & 0x0f == cc & 0x0f
  {
    hide AnnexA;
    var t := TablePacket(b1, b2, cc, section);
    assert t[..5] == TableHeader(b1, b2, cc);
    assert t[3] == t[..5][3];
    Masked(cc);
  }

  lemma Masked(cc: bv8)
    ensures (0x10 | (cc & 0x0f)) & 0x0f == cc & 0x0f
  {
  }

  lemma PidsRead()
    ensures PidFrom(0xe1, 0x00) == 0x100 && PidFrom(0xe1, 0x01) == 0x101
    ensures InfoLength(0xf0, 0x00) == 0
  {
  }

  lemma StreamsRead(kind: bv8)
    ensures Streams([kind, 0xe1, 0x01, 0xf0, 0x00]) == [Stream(kind, 0x101)]
    ensures Streams([0x1b, 0xe1, 0x00, 0xf0, 0x00] + [kind, 0xe1, 0x01, 0xf0, 0x00])
         == [Stream(0x1b, 0x100), Stream(kind, 0x101)]
  {
    PidsRead();
    hide PidFrom, InfoLength;
    var sound := [kind, 0xe1, 0x01, 0xf0, 0x00];
    var video: seq<bv8> := [0x1b, 0xe1, 0x00, 0xf0, 0x00];
    FirstStream(sound, []);
    FirstStream(video, sound);
    hide Streams;
    assert sound + [] == sound;
    assert Streams(sound) == [Stream(kind, 0x101)];
    assert Streams(video + sound) == [Stream(0x1b, 0x100)] + [Stream(kind, 0x101)];
  }

  lemma FirstStream(s: seq<bv8>, more: seq<bv8>)
    requires |s| == 5 && InfoLength(s[3], s[4]) == 0
    ensures Streams(s + more) == [Stream(s[0], PidFrom(s[1], s[2]))] + Streams(more) && Streams([]) == []
  {
    assert (s + more)[5..] == more;
  }
}
