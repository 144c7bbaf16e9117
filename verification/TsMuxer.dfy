/**
  The muxer with its packet buffers and continuity counters, as the server
  implements it: byte-sized arithmetic over one packet array filled in place.
 */
module TsMuxer {
  import opened Bytes
  import opened TsFormat
  import opened TsTables
  import Crc32

  /** Go's `copy` of `src` into `dst` from `at` on. */
  method CopyInto(dst: array<byte>, at: nat, src: seq<byte>)
    requires at + |src| <= dst.Length
    modifies dst
    ensures dst[..at] == old(dst[..at]) && dst[at..at + |src|] == src && dst[at + |src|..] == old(dst[at + |src|..])
  {
    for k := 0 to |src|
      invariant dst[..at] == old(dst[..at]) && dst[at..at + k] == src[..k] && dst[at + |src|..] == old(dst[at + |src|..])
    {
      dst[at + k] := src[k];
    }
  }

  /** `x | 0x20` on a byte. */
  function WithAdaptation(x: byte): byte {
    if x / 0x20 % 2 == 0 then x + 0x20 else x
  }

  /** `writeTs` */
  method WriteTime(src: array<byte>, at: nat, fb: nat, time: int)
    requires at + 5 <= src.Length && fb < 16
    modifies src
    ensures src[..at] == old(src[..at]) && src[at..at + 5] == TimeBytes(fb, time) && src[at + 5..] == old(src[at + 5..])
  {
    var ts, i := time, at;
    if ts > 0x1_ffff_ffff {
      ts := ts - 0x1_ffff_ffff;
    }
    src[i] := fb * 16 + ts / 0x4000_0000 % 8 * 2 + 1;
    i := i + 1;
    var val := ts / 0x8000 % 0x8000 * 2 + 1;
    src[i] := val / 256;
    i := i + 1;
    src[i] := val % 256;
    i := i + 1;
    val := ts % 0x8000 * 2 + 1;
    src[i] := val / 256;
    i := i + 1;
    src[i] := val % 256;
  }

  /** `pesHeader.packet` fills the header and returns its length. */
  method PesPacket(f: Frame, data: array<byte>) returns (len: nat)
    requires data.Length == TS_PACKET_LEN
    modifies data
    ensures len == |PesHeader(f)| && data[..len] == PesHeader(f)
  {
    hide TimeBytes;
    var pts, dts := Pts(f), Dts(f);
    data[0], data[1], data[2] := 0, 0, 1;
    data[3] := if f.isVideo then VIDEO_SID else AUDIO_SID;
    var flag, headerSize := 0x80, 5;
    if f.isVideo && pts != dts {
      flag, headerSize := flag + 0x40, headerSize + 5;
    }
    var size := |f.data| + headerSize + 3;
    if size > 0xffff {
      size := 0;
    }
    data[4], data[5] := size / 256, size % 256;
    data[6], data[7], data[8] := 0x80, flag, headerSize;
    WriteTime(data, 9, flag / 64, pts);
    len := 14;
    ghost var start := data[..9];
    assert data[..14] == start + TimeBytes(flag / 64, pts);
    if f.isVideo && pts != dts {
      WriteTime(data, 14, 1, dts);
      assert data[..19] == data[..14] + data[14..19];
      len := 19;
    }
  }

  /** `adaptationBufInit` on `src[at..]`: a length byte, and unless it stands alone, flags and filler to the end. */
  method AdaptationBufInit(src: array<byte>, at: nat, remainBytes: nat)
    requires src.Length == TS_PACKET_LEN && 4 <= at <= 12 && remainBytes < 256
    modifies src
    ensures src[..at] == old(src[..at])
    ensures at + remainBytes <= TS_PACKET_LEN ==> src[at..at + remainBytes] == Stuffing(remainBytes)
  {
    src[at] := (remainBytes - 1) % 256;
    if remainBytes != 1 {
      src[at + 1] := 0;
      for i := at + 2 to src.Length
        invariant src[..at] == old(src[..at]) && src[at] == (remainBytes - 1) % 256 && src[at + 1] == 0
        invariant forall k :: at + 2 <= k < i ==> src[k] == 0xff
      {
        src[i] := 0xff;
      }
    }
    if at + remainBytes <= TS_PACKET_LEN {
      StuffingIs(src[at..at + remainBytes], remainBytes);
    }
  }

  lemma StuffingIs(s: seq<byte>, n: nat)
    requires |s| == n && (n > 0 ==> s[0] == (n - 1) % 256) && (n > 1 ==> s[1] == 0) && forall k :: 2 <= k < n ==> s[k] == 0xff
    ensures s == Stuffing(n)
  {
  }

  /** `writePcr` */
  method WritePcr(b: array<byte>, at: nat, pcr: int)
    requires at + 6 <= b.Length
    modifies b
    ensures b[..at] == old(b[..at]) && b[at..at + 6] == PcrField(pcr)[2..]
  {
    var i := at;
    b[i] := pcr / 0x200_0000 % 256;
    i := i + 1;
    b[i] := pcr / 0x2_0000 % 256;
    i := i + 1;
    b[i] := pcr / 0x200 % 256;
    i := i + 1;
    b[i] := pcr / 2 % 256;
    i := i + 1;
    b[i] := pcr % 2 * 128 + 0x7e;
    i := i + 1;
    b[i] := 0;
  }

  class Muxer {
    var videoCc: nat
    var audioCc: nat
    var patCc: bv8
    var pmtCc: bv8
    const pat: array<bv8>
    const pmt: array<bv8>
    const tsPacket: array<byte>

    ghost predicate Valid()
      reads this
    {
      && tsPacket.Length == pat.Length == pmt.Length == TS_PACKET_LEN
      && videoCc < 16 && audioCc < 16 && patCc <= 16 && pmtCc <= 16
    }

    function Cc(isVideo: bool): nat
      reads this
    {
      if isVideo then videoCc else audioCc
    }

    constructor ()
      ensures Valid() && videoCc == 0 && audioCc == 0 && patCc == 0 && pmtCc == 0 && fresh(tsPacket) && fresh(pat) && fresh(pmt)
    {
      videoCc, audioCc, patCc, pmtCc := 0, 0, 0, 0;
      pat, pmt := new bv8[TS_PACKET_LEN], new bv8[TS_PACKET_LEN];
      tsPacket := new byte[TS_PACKET_LEN];
    }

    /** `PAT` */
    method PAT() returns (r: seq<bv8>)
      requires Valid()
      modifies this`patCc, pat
      ensures Valid() && r == TablePacket(0x40, 0x00, old(patCc), PAT_SECTION) && patCc == NextTableCc(old(patCc))
    {
      hide Crc32.CrcBytes, Crc32.AnnexA, TableHeader;
      if patCc > 0xf {
        patCc := 0;
      }
      SixteenIsZero(0x40, 0x00);
      var tsHeader := FillHeader(0x40, 0x00, patCc);
      patCc := patCc + 1;
      FillTable(pat, tsHeader, PAT_SECTION);
      r := pat[..];
    }

    /** `PMT`, for AAC or MP3 sound, with or without a video stream. */
    method PMT(soundFormat: bv8, hasVideo: bool) returns (r: seq<bv8>)
      requires Valid()
      modifies this`pmtCc, pmt
      ensures Valid() && r == TablePacket(0x50, 0x01, old(pmtCc), PmtSection(soundFormat, hasVideo))
      ensures pmtCc == NextTableCc(old(pmtCc))
    {
      hide Crc32.CrcBytes, Crc32.AnnexA, TableHeader;
      if pmtCc > 0xf {
        pmtCc := 0;
      }
      SixteenIsZero(0x50, 0x01);
      var tsHeader := FillHeader(0x50, 0x01, pmtCc);
      pmtCc := pmtCc + 1;
      var section := FillPmtSection(soundFormat, hasVideo);
      FillTable(pmt, tsHeader, section);
      r := pmt[..];
    }

    /** Sync byte, start flag and PID, counter, and the PCR of a key frame; `i` bytes in all. */
    method WriteStart(f: Frame, first: bool) returns (i: nat)
      requires Valid()
      modifies tsPacket
      ensures i == (if Keyed(f, first) then 12 else 4)
      ensures tsPacket[..i] == PacketHeader(f, first, Keyed(f, first), Cc(f.isVideo)) + if Keyed(f, first) then PcrField(Dts(f)) else []
    {
      hide PcrField;
      var pid := if f.isVideo then VIDEO_PID else AUDIO_PID;
      tsPacket[0] := 0x47;
      tsPacket[1] := pid / 256;
      if first {
        tsPacket[1] := tsPacket[1] + 0x40;
      }
      tsPacket[2] := pid % 256;
      tsPacket[3] := 0x10 + Cc(f.isVideo) % 16;
      i := 4;
      if first && f.isVideo && f.isKey {
        tsPacket[3] := WithAdaptation(tsPacket[3]);
        tsPacket[4], tsPacket[5] := 7, 0x50;
        ghost var start := tsPacket[..4];
        WritePcr(tsPacket, 6, Dts(f));
        PcrFieldStart(Dts(f));
        assert tsPacket[..12] == tsPacket[..6] + tsPacket[6..12];
        i := 12;
      }
    }

    /** The short branch: stuffing in byte arithmetic from `i0` on, and where the payload then starts. */
    method Stuff(f: Frame, first: bool, i0: nat, dataLen: nat) returns (i: nat)
      requires Valid() && 0 < dataLen < TS_DATA_LEN && (first ==> dataLen >= 14)
      requires i0 == (if Keyed(f, first) then 12 else 4)
      requires tsPacket[..i0] ==
               PacketHeader(f, first, Keyed(f, first), Cc(f.isVideo)) + if Keyed(f, first) then PcrField(Dts(f)) else []
      modifies tsPacket
      ensures i == TS_PACKET_LEN - dataLen && tsPacket[..i] == Prefix(f, first, Cc(f.isVideo), dataLen)
    {
      hide PcrField, PacketHeader, Stuffing, Prefix;
      MarkAdaptation(f, first, i0);
      var remainBytes: nat;
      if first {
        remainBytes := (TS_DATA_LEN - dataLen - (i0 - 4)) % 256;
      } else {
        remainBytes := (TS_DATA_LEN - dataLen) % 256;
      }
      AdaptationBufInit(tsPacket, i0, remainBytes);
      i := (i0 + remainBytes) % 256;
      ghost var whole := tsPacket[..];
      assert whole[..i0] == tsPacket[..i0];
      assert i >= i0 ==> i == i0 + remainBytes && whole[i0..i] == tsPacket[i0..i0 + remainBytes];
      PrefixWritten(f, first, Cc(f.isVideo), dataLen, whole, i0, i);
    }

    /** `tsPacket[3] |= 0x20` */
    method MarkAdaptation(f: Frame, first: bool, i0: nat)
      requires Valid() && i0 == (if Keyed(f, first) then 12 else 4)
      requires tsPacket[..i0] ==
               PacketHeader(f, first, Keyed(f, first), Cc(f.isVideo)) + if Keyed(f, first) then PcrField(Dts(f)) else []
      modifies tsPacket
      ensures tsPacket[..i0] ==
              PacketHeader(f, first, true, Cc(f.isVideo)) + if Keyed(f, first) then PcrField(Dts(f)) else []
    {
      hide PcrField, PacketHeader;
      ghost var start := tsPacket[..i0];
      HeaderWithAdaptation(f, first, Cc(f.isVideo));
      assert tsPacket[3] == start[3];
      tsPacket[3] := WithAdaptation(tsPacket[3]);
      assert tsPacket[..4] == PacketHeader(f, first, true, Cc(f.isVideo));
      assert tsPacket[4..i0] == start[4..];
      assert tsPacket[..i0] == tsPacket[..4] + tsPacket[4..i0];
    }

    /** Everything before the payload; what is left of the packet is `dataLen` bytes from `i` on. */
    method WritePrefix(f: Frame, first: bool, packetBytesLen: nat) returns (i: nat, dataLen: nat)
      requires Valid() && packetBytesLen > 0
      requires first ==> packetBytesLen >= 14
      modifies tsPacket
      ensures i + dataLen == TS_PACKET_LEN && dataLen == Taken(f, first, packetBytesLen)
      ensures tsPacket[..i] == Prefix(f, first, Cc(f.isVideo), packetBytesLen)
    {
      hide PcrField, PacketHeader, Stuffing;
      i := WriteStart(f, first);
      if packetBytesLen >= TS_DATA_LEN {
        dataLen := TS_DATA_LEN;
        if first {
          dataLen := dataLen - (i - 4);
        }
      } else {
        dataLen := packetBytesLen;
        i := Stuff(f, first, i, dataLen);
      }
    }

    /** One packet: `header` bytes of the PES header and `taken` bytes of data go out behind the prefix. */
    method WritePacket(f: Frame, first: bool, pes: array<byte>, pesHeaderLen: nat, wBytes: nat, packetBytesLen: nat)
      returns (header: nat, taken: nat)
      requires Valid() && pes != tsPacket && pes.Length == TS_PACKET_LEN && pesHeaderLen <= 19 && wBytes <= |f.data|
      requires packetBytesLen == pesHeaderLen + |f.data| - wBytes > 0
      requires if first then pesHeaderLen >= 14 else pesHeaderLen == 0
      modifies tsPacket
      ensures header == pesHeaderLen && wBytes + taken <= |f.data|
      ensures header + taken == Taken(f, first, packetBytesLen)
      ensures tsPacket[..] == Packet(f, first, Cc(f.isVideo), pes[..pesHeaderLen] + f.data[wBytes..])
    {
      hide Prefix;
      var i, dataLen := WritePrefix(f, first, packetBytesLen);
      ghost var prefix := tsPacket[..i];
      header, taken := 0, 0;
      if first && i < TS_PACKET_LEN && pesHeaderLen > 0 {
        var tmpLen := TS_PACKET_LEN - i;
        if pesHeaderLen <= tmpLen {
          tmpLen := pesHeaderLen;
        }
        Append(i, pes[..tmpLen]);
        i := i + tmpLen;
        dataLen := dataLen - tmpLen;
        header := tmpLen;
      }
      assert tsPacket[..i] == prefix + pes[..pesHeaderLen];
      if i < TS_PACKET_LEN {
        var tmpLen := TS_PACKET_LEN - i;
        if tmpLen <= dataLen {
          dataLen := tmpLen;
        }
        Append(i, f.data[wBytes..wBytes + dataLen]);
        taken := dataLen;
      }
      assert tsPacket[..] == tsPacket[..TS_PACKET_LEN];
      Assembled(f, first, Cc(f.isVideo), prefix, pes[..pesHeaderLen], f.data[wBytes..], taken);
    }

    /** `copy(tsPacket[i:], src)`, seen from the front of the packet. */
    method Append(i: nat, src: seq<byte>)
      requires Valid() && i + |src| <= TS_PACKET_LEN
      modifies tsPacket
      ensures tsPacket[..i + |src|] == old(tsPacket[..i]) + src
    {
      CopyInto(tsPacket, i, src);
      assert tsPacket[..i + |src|] == tsPacket[..i] + tsPacket[i..i + |src|];
    }

    /** `Mux`: the frame goes out as the packets of `Muxed`, and the counter of its stream moves on. */
    method Mux(f: Frame) returns (w: seq<byte>)
      requires Valid()
      modifies this`videoCc, this`audioCc, tsPacket
      ensures Valid() && (w, Cc(f.isVideo)) == Muxed(f, old(Cc(f.isVideo))) && Cc(!f.isVideo) == old(Cc(!f.isVideo))
    {
      hide Packet, Packets, PesHeader, Taken;
      var pes := new byte[TS_PACKET_LEN];
      var pesHeaderLen := PesPacket(f, pes);
      HeaderLength(f);
      w := [];
      var first, wBytes, packetBytesLen := true, 0, |f.data| + pesHeaderLen;
      ghost var rest := Pes(f);
      assert f.data[0..] == f.data;
      assert [] + Muxed(f, Cc(f.isVideo)).0 == Muxed(f, Cc(f.isVideo)).0;
      while packetBytesLen > 0
        invariant Valid() && Cc(!f.isVideo) == old(Cc(!f.isVideo))
        invariant wBytes <= |f.data| && pesHeaderLen <= 19 && packetBytesLen == pesHeaderLen + |f.data| - wBytes
        invariant if first then pesHeaderLen >= 14 else pesHeaderLen == 0
        invariant rest == pes[..pesHeaderLen] + f.data[wBytes..]
        invariant var (bytes, cc) := Packets(f, first, Cc(f.isVideo), rest);
                  (w + bytes, cc) == Muxed(f, old(Cc(f.isVideo)))
      {
        ghost var cc := Cc(f.isVideo);
        if f.isVideo {
          videoCc := videoCc + 1;
          if videoCc > 0xf {
            videoCc := 0;
          }
        } else {
          audioCc := audioCc + 1;
          if audioCc > 0xf {
            audioCc := 0;
          }
        }
        var header, taken := WritePacket(f, first, pes, pesHeaderLen, wBytes, packetBytesLen);
        TakenSome(f, first, packetBytesLen);
        OnePacketMore(f, first, cc, rest, w);
        rest := rest[header + taken..];
        wBytes := wBytes + taken;
        packetBytesLen := packetBytesLen - header - taken;
        pesHeaderLen := pesHeaderLen - header;
        assert rest == pes[..0] + f.data[wBytes..];
        w := w + tsPacket[..];
        first := false;
      }
      NoPackets(f, first, Cc(f.isVideo));
      assert rest == [] && w + [] == w;
    }
  }

  lemma NoPackets(f: Frame, first: bool, cc: nat)
    requires cc < 16
    ensures Packets(f, first, cc, []) == ([], cc)
  {
  }

  lemma OnePacketMore(f: Frame, first: bool, cc: nat, rest: seq<byte>, w: seq<byte>)
    requires cc < 16 && rest != []
    ensures var (bytes, last) := Packets(f, first, cc, rest);
            var (more, last') := Packets(f, false, NextCc(cc), rest[Taken(f, first, |rest|)..]);
            last' == last && w + bytes == w + Packet(f, first, NextCc(cc), rest) + more
  {
    hide Packet;
  }

  lemma Assembled(f: Frame, first: bool, cc: nat, prefix: seq<byte>, header: seq<byte>, data: seq<byte>, taken: nat)
    requires cc < 16 && header + data != [] && prefix == Prefix(f, first, cc, |header| + |data|)
    requires taken <= |data| && |header| + taken == Taken(f, first, |header| + |data|)
    ensures prefix + header + data[..taken] == Packet(f, first, cc, header + data)
  {
    hide Prefix;
    assert (header + data)[..|header| + taken] == header + data[..taken];
  }

  lemma HeaderLength(f: Frame)
    ensures 14 <= |PesHeader(f)| <= 19
  {
  }

  lemma TakenSome(f: Frame, first: bool, n: nat)
    requires n > 0
    ensures 0 < Taken(f, first, n) <= n
  {
  }

  /** The packet up to the payload, from its parts. */
  lemma PrefixWritten(f: Frame, first: bool, cc: nat, dataLen: nat, whole: seq<byte>, i0: nat, i: nat)
    requires cc < 16 && |whole| == TS_PACKET_LEN && 0 < dataLen < TS_DATA_LEN && i == TS_PACKET_LEN - dataLen
    requires i0 == if Keyed(f, first) then 12 else 4
    requires whole[..i0] == PacketHeader(f, first, true, cc) + if Keyed(f, first) then PcrField(Dts(f)) else []
    requires i >= i0 ==> whole[i0..i] == Stuffing(i - i0)
    ensures whole[..i] == Prefix(f, first, cc, dataLen)
  {
    hide PcrField, PacketHeader, Stuffing;
    if i < i0 {
      assert whole[..i] == whole[..i0][..i];
    } else {
      assert whole[..i] == whole[..i0] + whole[i0..i];
    }
  }

  lemma HeaderWithAdaptation(f: Frame, first: bool, cc: nat)
    requires cc < 16
    ensures var h, w := PacketHeader(f, first, Keyed(f, first), cc), PacketHeader(f, first, true, cc);
            w == [h[0], h[1], h[2], WithAdaptation(h[3])]
  {
  }

  lemma PcrFieldStart(dts: int)
    ensures PcrField(dts) == [7, 0x50] + PcrField(dts)[2..]
  {
  }
}
