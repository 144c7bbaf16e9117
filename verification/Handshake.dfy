/**
  The RTMP handshake with digests: each side hides a keyed digest of its packet at
  a place that the packet's own bytes choose, and looks for the other's.
 */
module Handshake {
  import opened Bytes

  /** A keyed digest: any function at all that gives 32 bytes, HMAC-SHA256 among them. */
  type Digest = s: seq<byte> | |s| == 32 witness seq(32, _ => 0)
  type Mac = (seq<byte>, seq<byte>) -> Digest

  const PACKET := 1536
  const SERVER_VERSION := 0x0d0e_0a0d

  // ------------------------------------------------------------ the places

  function Sum4(p: seq<byte>, base: nat): nat
    requires base + 4 <= |p|
  {
    p[base] as int + p[base + 1] + p[base + 2] + p[base + 3]
  }

  function DigestPos(p: seq<byte>, base: nat): (pos: nat)
    requires base + 4 <= |p|
  {
    Sum4(p, base) % 728 + base + 4
  }

  /** For any packet the digest fits behind the bytes that place it, and the two places never meet. */
  lemma PlacesFit(p: seq<byte>)
    requires |p| == PACKET
    ensures 12 <= DigestPos(p, 8) && DigestPos(p, 8) + 32 <= 772
    ensures 776 <= DigestPos(p, 772) && DigestPos(p, 772) + 32 <= PACKET
  {
  }

  method HsCalcDigestPos(p: seq<byte>, base: nat) returns (pos: nat)
    requires base + 4 <= |p|
    ensures pos == DigestPos(p, base)
  {
    pos := 0;
    for i := 0 to 4
      invariant pos == SumTo(p, base, i)
    {
      pos := pos + p[base + i];
    }
    SumIs(p, base);
    pos := pos % 728 + base + 4;
  }

  function SumTo(p: seq<byte>, base: nat, i: nat): nat
    requires base + i <= |p|
  {
    if i == 0 then 0 else SumTo(p, base, i - 1) + p[base + i - 1]
  }

  lemma SumIs(p: seq<byte>, base: nat)
    requires base + 4 <= |p|
    ensures SumTo(p, base, 4) == Sum4(p, base)
  {
    assert SumTo(p, base, 2) == SumTo(p, base, 1) + p[base + 1];
    assert SumTo(p, base, 3) == SumTo(p, base, 2) + p[base + 2];
  }

  // ------------------------------------------------------------ the digests

  /** The digest of a packet without the 32 bytes at the gap, or of all of it if there is none. */
  function MakeDigest(mac: Mac, key: seq<byte>, src: seq<byte>, gap: int): Digest
    requires gap + 32 <= |src| || gap <= 0
  {
    if gap <= 0 then mac(key, src) else mac(key, src[..gap] + src[gap + 32..])
  }

  /** Where the digest is, or -1 if what is there is not the digest. */
  function FindDigest(mac: Mac, p: seq<byte>, key: seq<byte>, base: nat): int
    requires |p| == PACKET && (base == 8 || base == 772)
  {
    var gap := DigestPos(p, base);
    if p[gap..gap + 32] == MakeDigest(mac, key, p, gap) then gap else -1
  }

  /** A packet that holds a digest, and the key that answers it. */
  function Parse1(mac: Mac, p: seq<byte>, peerKey: seq<byte>, key: seq<byte>): Option<Digest>
    requires |p| == PACKET
  {
    var late := FindDigest(mac, p, peerKey, 772);
    var pos := if late == -1 then FindDigest(mac, p, peerKey, 8) else late;
    if pos == -1 then None else Some(mac(key, p[pos..pos + 32]))
  }

  /** The digest put into its place. */
  function Sealed(mac: Mac, p: seq<byte>, key: seq<byte>, gap: nat): seq<byte>
    requires gap + 32 <= |p|
  {
    p[..gap] + MakeDigest(mac, key, p, gap) + p[gap + 32..]
  }

  /** A packet with time and version in front, a digest placed by its bytes 8 to 11, and random bytes. */
  function Created1(mac: Mac, random: seq<byte>, time: uint32, ver: uint32, key: seq<byte>): (p: seq<byte>)
    requires |random| == PACKET - 8
    ensures |p| == PACKET
  {
    var p := BE(time, 4) + BE(ver, 4) + random;
    Sealed(mac, p, key, DigestPos(p, 8))
  }

  function Created2(mac: Mac, random: seq<byte>, key: seq<byte>): (p: seq<byte>)
    requires |random| == PACKET
    ensures |p| == PACKET
  {
    Sealed(mac, random, key, PACKET - 32)
  }

  // --------------------------------------------------------------- theorems

  /** Sealing changes neither the bytes that place the digest nor those it is made of. */
  lemma SealingKeeps(mac: Mac, p: seq<byte>, key: seq<byte>, gap: nat)
    requires 0 < gap && gap + 32 <= |p|
    ensures var s := Sealed(mac, p, key, gap);
            |s| == |p| && s[..gap] == p[..gap] && s[gap + 32..] == p[gap + 32..] &&
            s[gap..gap + 32] == MakeDigest(mac, key, s, gap) == MakeDigest(mac, key, p, gap)
  {
  }

  /** The digest of a created packet is found where it was put. */
  lemma CreatedIsFound(mac: Mac, random: seq<byte>, time: uint32, ver: uint32, key: seq<byte>)
    requires |random| == PACKET - 8
    ensures var p := Created1(mac, random, time, ver, key);
            FindDigest(mac, p, key, 8) == DigestPos(p, 8) && p[..4] == BE(time, 4) && p[4..8] == BE(ver, 4)
  {
    var q := BE(time, 4) + BE(ver, 4) + random;
    PlacesFit(q);
    var gap := DigestPos(q, 8);
    SealingKeeps(mac, q, key, gap);
    var p := Sealed(mac, q, key, gap);
    hide Sealed, MakeDigest;
    assert p[..12] == p[..gap][..12] == q[..gap][..12] == q[..12];
    SamePlace(p, q);
    assert p[..4] == q[..12][..4] && p[4..8] == q[..12][4..8];
  }

  lemma SamePlace(p: seq<byte>, q: seq<byte>)
    requires |p| == PACKET == |q| && p[..12] == q[..12]
    ensures DigestPos(p, 8) == DigestPos(q, 8)
  {
    assert forall k :: 0 <= k < 12 ==> p[k] == p[..12][k] && q[k] == q[..12][k];
  }

  /**
    Whatever the digest function, the random bytes, time and version, the peer that
    knows the key accepts what was created, and answers with the digest it holds --
    or with that at the other place, should that happen to match as well.
   */
  lemma CreatedIsAccepted(mac: Mac, random: seq<byte>, time: uint32, ver: uint32, key: seq<byte>, fullKey: seq<byte>)
    requires |random| == PACKET - 8
    ensures var p := Created1(mac, random, time, ver, key);
            var gap := DigestPos(p, 8);
            Parse1(mac, p, key, fullKey).Some? &&
            (FindDigest(mac, p, key, 772) == -1 ==>
             Parse1(mac, p, key, fullKey) == Some(mac(fullKey, p[gap..gap + 32])))
  {
    CreatedIsFound(mac, random, time, ver, key);
    PlacesFit(Created1(mac, random, time, ver, key));
    hide Created1, MakeDigest;
  }

  /** Accepted is what holds a digest made with the key, at one of the two places, and nothing else. */
  lemma AcceptedIff(mac: Mac, p: seq<byte>, peerKey: seq<byte>, key: seq<byte>)
    requires |p| == PACKET
    ensures Parse1(mac, p, peerKey, key).Some? <==> Holds(mac, p, peerKey, 8) || Holds(mac, p, peerKey, 772)
  {
    FoundIff(mac, p, peerKey, 8);
    FoundIff(mac, p, peerKey, 772);
    hide FindDigest, Holds;
  }

  /** The packet is a fixed point of sealing at the place its bytes from `base` on name. */
  predicate Holds(mac: Mac, p: seq<byte>, key: seq<byte>, base: nat)
    requires |p| == PACKET && (base == 8 || base == 772)
  {
    Sealed(mac, p, key, DigestPos(p, base)) == p
  }

  lemma FoundIff(mac: Mac, p: seq<byte>, key: seq<byte>, base: nat)
    requires |p| == PACKET && (base == 8 || base == 772)
    ensures FindDigest(mac, p, key, base) != -1 <==> Holds(mac, p, key, base)
  {
    var gap := DigestPos(p, base);
    var digest := MakeDigest(mac, key, p, gap);
    hide MakeDigest, DigestPos;
    var q := p[..gap] + digest + p[gap + 32..];
    assert q[gap..gap + 32] == digest;
    if p[gap..gap + 32] == digest {
      assert q == p;
    }
  }

  /** The second packet's digest is its last 32 bytes, under the key the first packet answered with. */
  lemma SecondIsSigned(mac: Mac, random: seq<byte>, key: seq<byte>)
    requires |random| == PACKET
    ensures var p := Created2(mac, random, key);
            p[PACKET - 32..] == mac(key, p[..PACKET - 32]) && p[..PACKET - 32] == random[..PACKET - 32]
  {
    SealingKeeps(mac, random, key, PACKET - 32);
    var p := Created2(mac, random, key);
    assert p[..PACKET - 32] + p[PACKET..] == p[..PACKET - 32];
  }

  // -------------------------------------------------------------- the server

  datatype Keys = Keys(clientPartial: seq<byte>, serverPartial: seq<byte>, serverFull: seq<byte>)

  /** What the server sends for the client's first 1537 bytes; None if it hangs up. */
  function Reply(mac: Mac, keys: Keys, c0c1: seq<byte>, random1: seq<byte>, random2: seq<byte>): Option<seq<byte>>
    requires |c0c1| == PACKET + 1 && |random1| == PACKET - 8 && |random2| == PACKET
  {
    var c1 := c0c1[1..];
    if c0c1[0] != 3 then None
    else if FromBE(c1[4..8]) == 0 then Some([3] + seq(PACKET, _ => 0) + c1)
    else
      var digest := Parse1(mac, c1, keys.clientPartial, keys.serverFull);
      if digest.None? then None
      else
        var time := FromBE(c1[..4]);
        FromBEBound(c1[..4]);
        Pow256Values();
        Some([3] + Created1(mac, random1, time, SERVER_VERSION, keys.serverPartial) + Created2(mac, random2, digest.value))
  }

  /** The reply holds the client's time under the server's digest, and is signed with the derived key. */
  predicate Answers(mac: Mac, keys: Keys, time: uint32, c1: seq<byte>, reply: seq<byte>, anyKey: seq<byte>)
    requires |c1| == PACKET
  {
    |reply| == 1 + 2 * PACKET && reply[0] == 3 &&
    var s1, s2 := reply[1..PACKET + 1], reply[PACKET + 1..];
    var digest := Parse1(mac, c1, keys.clientPartial, keys.serverFull);
    Parse1(mac, s1, keys.serverPartial, anyKey).Some? && s1[..4] == BE(time, 4) &&
    digest.Some? && s2[PACKET - 32..] == mac(digest.value, s2[..PACKET - 32])
  }

  /**
    The whole exchange: a client that creates its first packet as the server does is
    answered with a packet holding the server's digest and the client's time, and one
    signed with a key that only a peer knowing the full key can derive.
   */
  lemma ExchangeSucceeds(mac: Mac, keys: Keys, time: uint32, ver: uint32, random: seq<byte>,
                         random1: seq<byte>, random2: seq<byte>, anyKey: seq<byte>)
    requires ver != 0 && |random| == PACKET - 8 && |random1| == PACKET - 8 && |random2| == PACKET
    ensures var c1 := Created1(mac, random, time, ver, keys.clientPartial);
            var reply := Reply(mac, keys, [3] + c1, random1, random2);
            reply.Some? && Answers(mac, keys, time, c1, reply.value, anyKey)
  {
    var c1 := Created1(mac, random, time, ver, keys.clientPartial);
    CreatedIsFound(mac, random, time, ver, keys.clientPartial);
    CreatedIsAccepted(mac, random, time, ver, keys.clientPartial, keys.serverFull);
    Pow256Values();
    FromBEofBE(ver, 4);
    FromBEofBE(time, 4);
    hide Created1, Created2, Parse1;
    assert ([3] + c1)[1..] == c1;
    var digest := Parse1(mac, c1, keys.clientPartial, keys.serverFull).value;
    var s1 := Created1(mac, random1, time, SERVER_VERSION, keys.serverPartial);
    var s2 := Created2(mac, random2, digest);
    CreatedIsAccepted(mac, random1, time, SERVER_VERSION, keys.serverPartial, anyKey);
    CreatedIsFound(mac, random1, time, SERVER_VERSION, keys.serverPartial);
    SecondIsSigned(mac, random2, digest);
    var reply := [3] + s1 + s2;
    assert reply[1..PACKET + 1] == s1 && reply[PACKET + 1..] == s2;
  }

  // --------------------------------------- what each packet holds, byte by byte

  /** The digest of all the other bytes, where four bytes from `base` on, added up, say it is. */
  predicate Carries(mac: Mac, p: seq<byte>, key: seq<byte>, base: nat)
    requires |p| == 1536 && (base == 8 || base == 772)
  {
    var at := (p[base] as int + p[base + 1] + p[base + 2] + p[base + 3]) % 728 + base + 4;
    p[at..at + 32] == mac(key, p[..at] + p[at + 32..])
  }

  lemma FoundIs(mac: Mac, p: seq<byte>, key: seq<byte>, base: nat)
    requires |p| == 1536 && (base == 8 || base == 772)
    ensures FindDigest(mac, p, key, base) ==
            if Carries(mac, p, key, base)
            then (p[base] as int + p[base + 1] + p[base + 2] + p[base + 3]) % 728 + base + 4 else -1
  {
  }

  /** What a packet is accepted for, and the key that its digest gives: the place further behind comes first. */
  lemma ParsedIs(mac: Mac, p: seq<byte>, peerKey: seq<byte>, key: seq<byte>)
    requires |p| == 1536
    ensures var late := (p[772] as int + p[773] + p[774] + p[775]) % 728 + 776;
            var early := (p[8] as int + p[9] + p[10] + p[11]) % 728 + 12;
            Parse1(mac, p, peerKey, key) ==
            if Carries(mac, p, peerKey, 772) then Some(mac(key, p[late..late + 32]))
            else if Carries(mac, p, peerKey, 8) then Some(mac(key, p[early..early + 32]))
            else None
  {
    hide FindDigest, Carries;
    FoundIs(mac, p, peerKey, 772);
    FoundIs(mac, p, peerKey, 8);
  }

  /** A created packet: time, version, and behind them the random bytes with the digest laid over 32 of them. */
  lemma CreatedIs(mac: Mac, random: seq<byte>, time: uint32, ver: uint32, key: seq<byte>)
    requires |random| == 1528
    ensures var p := Created1(mac, random, time, ver, key);
            var at := (random[0] as int + random[1] + random[2] + random[3]) % 728 + 12;
            && |p| == 1536 && FromBE(p[..4]) == time && FromBE(p[4..8]) == ver && Carries(mac, p, key, 8)
            && p[8..at] == random[..at - 8] && p[at + 32..] == random[at + 24..]
  {
    hide Created1, BE, FromBE, FindDigest, Carries, Sealed, DigestPos;
    CreatedIsFound(mac, random, time, ver, key);
    FoundIs(mac, Created1(mac, random, time, ver, key), key, 8);
    Pow256Values();
    FromBEofBE(time, 4);
    FromBEofBE(ver, 4);
    var q := BE(time, 4) + BE(ver, 4) + random;
    RandomPlaces(BE(time, 4) + BE(ver, 4), random);
    PlacesFit(q);
    SealedAround(mac, q, key, DigestPos(q, 8));
    CreatedIsSealed(mac, random, time, ver, key);
    Behind8(BE(time, 4) + BE(ver, 4), random, DigestPos(q, 8));
  }

  lemma CreatedIsSealed(mac: Mac, random: seq<byte>, time: uint32, ver: uint32, key: seq<byte>)
    requires |random| == 1528
    ensures var q := BE(time, 4) + BE(ver, 4) + random; Created1(mac, random, time, ver, key) == Sealed(mac, q, key, DigestPos(q, 8))
  {
    hide BE, Sealed;
  }

  lemma RandomPlaces(front: seq<byte>, random: seq<byte>)
    requires |front| == 8 && |random| == 1528
    ensures DigestPos(front + random, 8) == (random[0] as int + random[1] + random[2] + random[3]) % 728 + 12
  {
    var q := front + random;
    assert q[8] == random[0] && q[9] == random[1] && q[10] == random[2] && q[11] == random[3];
  }

  lemma SealedAround(mac: Mac, q: seq<byte>, key: seq<byte>, at: nat)
    requires 8 <= at && at + 32 <= |q|
    ensures var p := Sealed(mac, q, key, at); |p| == |q| && p[8..at] == q[8..at] && p[at + 32..] == q[at + 32..]
  {
    SealingKeeps(mac, q, key, at);
    hide Sealed, MakeDigest;
    var p := Sealed(mac, q, key, at);
    assert p[8..at] == p[..at][8..] && q[8..at] == q[..at][8..];
  }

  lemma Behind8(front: seq<byte>, random: seq<byte>, at: nat)
    requires |front| == 8 && 8 <= at && at + 32 <= 8 + |random|
    ensures var q := front + random; q[8..at] == random[..at - 8] && q[at + 32..] == random[at + 24..]
  {
  }

  /** There is no reply exactly to a wrong first byte, or to a version with no digest to be found. */
  lemma NoReplyIff(mac: Mac, keys: Keys, c0c1: seq<byte>, random1: seq<byte>, random2: seq<byte>)
    requires |c0c1| == 1537 && |random1| == 1528 && |random2| == 1536
    ensures Reply(mac, keys, c0c1, random1, random2).None? <==>
            c0c1[0] != 3 ||
            (FromBE(c0c1[5..9]) != 0 &&
             !Carries(mac, c0c1[1..], keys.clientPartial, 772) && !Carries(mac, c0c1[1..], keys.clientPartial, 8))
  {
    ParsedIs(mac, c0c1[1..], keys.clientPartial, keys.serverFull);
    assert c0c1[1..][4..8] == c0c1[5..9];
    hide Parse1, Carries, Created1, Created2, FromBE;
  }

  /** A client without digests gets its own packet back, behind one of zeros. */
  lemma PlainReply(mac: Mac, keys: Keys, c0c1: seq<byte>, random1: seq<byte>, random2: seq<byte>)
    requires |c0c1| == 1537 && |random1| == 1528 && |random2| == 1536
    requires c0c1[0] == 3 && FromBE(c0c1[5..9]) == 0
    ensures var reply := Reply(mac, keys, c0c1, random1, random2);
            && reply.Some? && |reply.value| == 3073 && reply.value[0] == 3
            && reply.value[1537..] == c0c1[1..] && forall k :: 1 <= k < 1537 ==> reply.value[k] == 0
  {
    assert c0c1[1..][4..8] == c0c1[5..9];
    hide FromBE, Parse1;
  }

  /**
    A client whose digest is found gets a packet with its own time and the server's version
    under a digest of the server, and one whose last 32 bytes are the digest of the others
    under the key that its digest gives.
   */
  lemma SignedReply(mac: Mac, keys: Keys, c0c1: seq<byte>, random1: seq<byte>, random2: seq<byte>)
    requires |c0c1| == 1537 && |random1| == 1528 && |random2| == 1536
    requires c0c1[0] == 3 && FromBE(c0c1[5..9]) != 0
    ensures var parsed := Parse1(mac, c0c1[1..], keys.clientPartial, keys.serverFull);
            var reply := Reply(mac, keys, c0c1, random1, random2);
            parsed.Some? ==>
              && reply.Some? && |reply.value| == 3073 && reply.value[0] == 3
              && var s1, s2 := reply.value[1..1537], reply.value[1537..];
                 && FromBE(s1[..4]) == FromBE(c0c1[1..5]) && FromBE(s1[4..8]) == 0x0d0e0a0d
                 && Carries(mac, s1, keys.serverPartial, 8)
                 && s2[..1504] == random2[..1504] && s2[1504..] == mac(parsed.value, random2[..1504])
  {
    var c1 := c0c1[1..];
    assert c1[4..8] == c0c1[5..9] && c1[..4] == c0c1[1..5];
    var parsed := Parse1(mac, c1, keys.clientPartial, keys.serverFull);
    if parsed.Some? {
      var time := FromBE(c1[..4]);
      FromBEBound(c1[..4]);
      Pow256Values();
      CreatedIs(mac, random1, time, SERVER_VERSION, keys.serverPartial);
      SecondIsSigned(mac, random2, parsed.value);
      hide FromBE, Parse1, Created1, Created2, Carries;
      var s1, s2 := Created1(mac, random1, time, SERVER_VERSION, keys.serverPartial), Created2(mac, random2, parsed.value);
      var reply := Reply(mac, keys, c0c1, random1, random2).value;
      assert reply[1..1537] == s1 && reply[1537..] == s2;
    }
  }

  // ------------------------------------------------------- packets in place

  method HsMakeDigest(mac: Mac, key: seq<byte>, src: seq<byte>, gap: int) returns (dst: Digest)
    requires gap + 32 <= |src| || gap <= 0
    ensures dst == MakeDigest(mac, key, src, gap)
  {
    var h: seq<byte> := [];
    if gap <= 0 {
      h := h + src;
      assert h == src;
    } else {
      h := h + src[..gap];
      h := h + src[gap + 32..];
      assert h == src[..gap] + src[gap + 32..];
    }
    dst := mac(key, h);
  }

  method HsFindDigest(mac: Mac, p: seq<byte>, key: seq<byte>, base: nat) returns (pos: int)
    requires |p| == PACKET && (base == 8 || base == 772)
    ensures pos == FindDigest(mac, p, key, base)
  {
    var gap := HsCalcDigestPos(p, base);
    var digest := HsMakeDigest(mac, key, p, gap);
    pos := if p[gap..gap + 32] != digest then -1 else gap;
  }

  method HsParse1(mac: Mac, p: seq<byte>, peerKey: seq<byte>, key: seq<byte>) returns (digest: Option<Digest>)
    requires |p| == PACKET
    ensures digest == Parse1(mac, p, peerKey, key)
  {
    var pos := HsFindDigest(mac, p, peerKey, 772);
    if pos == -1 {
      pos := HsFindDigest(mac, p, peerKey, 8);
      if pos == -1 {
        return None;
      }
    }
    var answer := HsMakeDigest(mac, key, p[pos..pos + 32], -1);
    digest := Some(answer);
  }

  method CopyInto(p: array<byte>, at: nat, src: seq<byte>)
    requires at + |src| <= p.Length
    modifies p
    ensures forall k :: 0 <= k < p.Length ==> p[k] == if at <= k < at + |src| then src[k - at] else old(p[k])
  {
    for i := 0 to |src|
      invariant forall k :: 0 <= k < p.Length ==> p[k] == if at <= k < at + i then src[k - at] else old(p[k])
    {
      p[at + i] := src[i];
    }
  }

  /** Fills `p` from its byte `from` on, where a whole packet has room. */
  method HsCreate1(mac: Mac, p: array<byte>, from: nat, random: seq<byte>, time: uint32, ver: uint32, key: seq<byte>)
    requires from + PACKET <= p.Length && |random| == PACKET - 8
    modifies p
    ensures p[..from] == old(p[..from]) && p[from + PACKET..] == old(p[from + PACKET..])
    ensures p[from..from + PACKET] == Created1(mac, random, time, ver, key)
  {
    CopyInto(p, from + 8, random);
    CopyInto(p, from, BE(time, 4));
    CopyInto(p, from + 4, BE(ver, 4));
    ghost var q := BE(time, 4) + BE(ver, 4) + random;
    assert p[from..from + PACKET] == q;
    assert p[..from] == old(p[..from]) && p[from + PACKET..] == old(p[from + PACKET..]);
    var gap := HsCalcDigestPos(p[from..from + PACKET], 8);
    Seal(mac, p, from, gap, key);
  }

  /** The digest is worked out and copied into its place. */
  method Seal(mac: Mac, p: array<byte>, from: nat, gap: nat, key: seq<byte>)
    requires from + PACKET <= p.Length && 0 < gap && gap + 32 <= PACKET
    modifies p
    ensures p[..from] == old(p[..from]) && p[from + PACKET..] == old(p[from + PACKET..])
    ensures p[from..from + PACKET] == Sealed(mac, old(p[from..from + PACKET]), key, gap)
  {
    var digest := HsMakeDigest(mac, key, p[from..from + PACKET], gap);
    CopyInto(p, from + gap, digest);
  }

  method HsCreate2(mac: Mac, p: array<byte>, from: nat, random: seq<byte>, key: seq<byte>)
    requires from + PACKET <= p.Length && |random| == PACKET
    modifies p
    ensures p[..from] == old(p[..from]) && p[from + PACKET..] == old(p[from + PACKET..])
    ensures p[from..from + PACKET] == Created2(mac, random, key)
  {
    CopyInto(p, from, random);
    assert p[from..from + PACKET] == random;
    Seal(mac, p, from, PACKET - 32, key);
  }

  /** The server's side, once the client's first 1537 bytes are in. */
  method HandshakeServer(mac: Mac, keys: Keys, c0c1: seq<byte>, random1: seq<byte>, random2: seq<byte>)
    returns (s0s1s2: Option<seq<byte>>)
    requires |c0c1| == PACKET + 1 && |random1| == PACKET - 8 && |random2| == PACKET
    ensures s0s1s2 == Reply(mac, keys, c0c1, random1, random2)
  {
    hide Parse1, Created1, Created2;
    var s := new byte[1 + 2 * PACKET](_ => 0);
    var c1 := c0c1[1..];
    if c0c1[0] != 3 {
      return None;
    }
    s[0] := 3;
    var cliTime := FromBE(c1[..4]);
    FromBEBound(c1[..4]);
    Pow256Values();
    if FromBE(c1[4..8]) != 0 {
      var digest := HsParse1(mac, c1, keys.clientPartial, keys.serverFull);
      if digest.None? {
        return None;
      }
      HsCreate1(mac, s, 1, random1, cliTime, SERVER_VERSION, keys.serverPartial);
      ghost var s1 := s[1..PACKET + 1];
      HsCreate2(mac, s, PACKET + 1, random2, digest.value);
      assert s[1..PACKET + 1] == s[..PACKET + 1][1..] == s1;
      assert s[0] == s[..PACKET + 1][0];
      assert s[..] == [s[0]] + s[1..PACKET + 1] + s[PACKET + 1..PACKET + 1 + PACKET];
    } else {
      CopyInto(s, PACKET + 1, c1);
      assert s[1..PACKET + 1] == seq(PACKET, _ => 0) && s[PACKET + 1..] == c1;
      assert s[..] == [s[0]] + s[1..PACKET + 1] + s[PACKET + 1..];
    }
    s0s1s2 := Some(s[..]);
  }
}
