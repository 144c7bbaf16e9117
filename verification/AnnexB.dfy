/**
  From length-prefixed H.264 access units, as flash streams carry them, to the
  byte stream of Annex B of ITU-T H.264, as MPEG-TS carries them.
 */
module AnnexB {
  import opened Bytes

  const START_CODE: seq<byte> := [0x00, 0x00, 0x00, 0x01]
  const AUD: seq<byte> := [0x00, 0x00, 0x00, 0x01, 0x09, 0xf0]

  const TYPE_SLICE := 1
  const TYPE_IDR := 5
  const TYPE_SEI := 6
  const TYPE_SPS := 7
  const TYPE_PPS := 8

  type Nalu = u: seq<byte> | u != [] witness [0x00]

  function UnitType(u: Nalu): int {
    u[0] as int % 32
  }

  predicate Kept(u: Nalu) {
    UnitType(u) == TYPE_SLICE || UnitType(u) == TYPE_IDR || UnitType(u) == TYPE_SEI
  }

  predicate IsParameterSet(u: Nalu) {
    UnitType(u) == TYPE_SPS || UnitType(u) == TYPE_PPS
  }

  // ------------------------------------------------------------- framing

  datatype Error = InvalidVideoData | DataSizeNotMatch | NaluBodyLen

  /** The units of an access unit up to the first that is malformed, and what is wrong with that. */
  datatype Parsed = Parsed(units: seq<Nalu>, error: Option<Error>)

  function ParseUnits(src: seq<byte>): (p: Parsed)
    decreases |src|
  {
    if src == [] then Parsed([], None)
    else if |src| < 4 then Parsed([], Some(DataSizeNotMatch))
    else
      var n := FromBE(src[..4]);
      if n == 0 || n > |src| - 4 then Parsed([], Some(NaluBodyLen))
      else
        var p := ParseUnits(src[4 + n..]);
        Parsed([src[4..4 + n]] + p.units, p.error)
  }

  /** Units behind four-byte lengths. */
  function Framed(units: seq<Nalu>): seq<byte> {
    if units == [] then [] else BE(|units[0]|, 4) + units[0] + Framed(units[1..])
  }

  predicate WellFormed(units: seq<Nalu>) {
    forall k :: 0 <= k < |units| ==> |units[k]| < 0x1_0000_0000
  }

  lemma {:induction false} FramedParses(units: seq<Nalu>)
    requires WellFormed(units)
    ensures ParseUnits(Framed(units)) == Parsed(units, None)
    decreases |units|
  {
    if units != [] {
      var u, more := units[0], units[1..];
      var src := Framed(units);
      Pow256Values();
      FromBEofBE(|u|, 4);
      assert src[..4] == BE(|u|, 4) && src[4..4 + |u|] == u && src[4 + |u|..] == Framed(more);
      FramedParses(more);
      assert units == [u] + more;
    }
  }

  /** There is no error exactly when the access unit is a framing of some units. */
  lemma {:induction false} ParsesIff(src: seq<byte>)
    ensures ParseUnits(src).error == None <==> exists units :: WellFormed(units) && Framed(units) == src
    ensures ParseUnits(src).error == None ==> WellFormed(ParseUnits(src).units) && Framed(ParseUnits(src).units) == src
    decreases |src|
  {
    if ParseUnits(src).error == None {
      ParsedIsFramed(src);
    } else if exists units :: WellFormed(units) && Framed(units) == src {
      var units :| WellFormed(units) && Framed(units) == src;
      FramedParses(units);
    }
  }

  lemma {:induction false} ParsedIsFramed(src: seq<byte>)
    requires ParseUnits(src).error == None
    ensures WellFormed(ParseUnits(src).units) && Framed(ParseUnits(src).units) == src
    decreases |src|
  {
    hide ParseUnits, FromBE;
    ParseCases(src);
    if src != [] {
      var n := FromBE(src[..4]);
      var u: Nalu, more := src[4..4 + n], src[4 + n..];
      ParsedIsFramed(more);
      UnitFramed(src[..4], u, ParseUnits(more).units);
      ThreeParts(src, n);
    }
  }

  lemma ThreeParts(src: seq<byte>, n: nat)
    requires |src| >= 4 + n
    ensures src == src[..4] + src[4..4 + n] + src[4 + n..]
  {
  }

  lemma Within(src: seq<byte>, index: nat, n: nat)
    requires |src| >= index + 4 + n
    ensures var left := src[index..];
            src[index + 4 + n..] == left[4 + n..] && src[index + 4..index + 4 + n] == left[4..4 + n]
  {
  }

  lemma ParseCases(src: seq<byte>)
    ensures if src == [] then ParseUnits(src) == Parsed([], None)
            else if |src| < 4 then ParseUnits(src) == Parsed([], Some(DataSizeNotMatch))
            else
              var n := FromBE(src[..4]);
              if n == 0 || n > |src| - 4 then ParseUnits(src) == Parsed([], Some(NaluBodyLen))
              else
                var u: Nalu, p := src[4..4 + n], ParseUnits(src[4 + n..]);
                ParseUnits(src) == Parsed([u] + p.units, p.error)
  {
  }

  lemma UnitFramed(length: seq<byte>, u: Nalu, more: seq<Nalu>)
    requires |length| == 4 && FromBE(length) == |u| && WellFormed(more)
    ensures WellFormed([u] + more) && Framed([u] + more) == length + u + Framed(more)
  {
    FromBEBound(length);
    Pow256Values();
    BEofFromBE(length);
    hide FromBE, BE;
    assert ([u] + more)[1..] == more;
  }

  lemma {:induction false} BEofFromBE(s: seq<byte>)
    ensures BE(FromBE(s), |s|) == s
    decreases |s|
  {
    if s != [] {
      BEofFromBE(s[..|s| - 1]);
    }
  }

  /**
    An access unit that breaks off: the units before the break are found, and what is
    behind them tells what is wrong. Fewer than four bytes cannot hold a length; a length
    must not be zero, nor more than is left. An access unit below four bytes is refused.
   */
  lemma BrokenOff(units: seq<Nalu>, rest: seq<byte>, stored: seq<byte>)
    requires WellFormed(units) && rest != []
    requires |rest| >= 4 ==> FromBE(rest[..4]) == 0 || FromBE(rest[..4]) > |rest| - 4
    ensures Converted(Framed(units) + rest, stored) ==
            if units == [] && |rest| < 4 then ([], Some(InvalidVideoData))
            else (Stream(units, stored), Some(if |rest| < 4 then DataSizeNotMatch else NaluBodyLen))
  {
    hide Stream, FromBE, ParseUnits, Framed;
    BrokenParses(units, rest);
    FramedFirst(units);
    hide BE;
    if units == [] {
      assert [] + rest == rest;
    }
  }

  lemma FramedFirst(units: seq<Nalu>)
    ensures Framed(units) == if units == [] then [] else BE(|units[0]|, 4) + units[0] + Framed(units[1..])
  {
  }

  lemma {:induction false} BrokenParses(units: seq<Nalu>, rest: seq<byte>)
    requires WellFormed(units) && rest != []
    requires |rest| >= 4 ==> FromBE(rest[..4]) == 0 || FromBE(rest[..4]) > |rest| - 4
    ensures ParseUnits(Framed(units) + rest) ==
            Parsed(units, Some(if |rest| < 4 then DataSizeNotMatch else NaluBodyLen))
    decreases |units|
  {
    hide ParseUnits, FromBE, BE, Framed;
    FramedFirst(units);
    ParseCases(Framed(units) + rest);
    if units == [] {
      assert [] + rest == rest;
    } else {
      var u, more := units[0], units[1..];
      BrokenParses(more, rest);
      Pow256Values();
      FromBEofBE(|u|, 4);
      FirstApart(BE(|u|, 4), u, Framed(more), rest);
      assert units == [u] + more;
    }
  }

  lemma FirstApart(length: seq<byte>, u: seq<byte>, more: seq<byte>, rest: seq<byte>)
    requires |length| == 4
    ensures var src := length + u + more + rest;
            src[..4] == length && src[4..4 + |u|] == u && src[4 + |u|..] == more + rest
  {
  }

  // -------------------------------------------------------------- output

  function StartCoded(u: Nalu): seq<byte> {
    START_CODE + u
  }

  /** The units of a kind, each behind a start code. */
  function Joined(units: seq<Nalu>): seq<byte>
  {
    if units == [] then []
    else (if Kept(units[0]) then StartCoded(units[0]) else []) + Joined(units[1..])
  }

  function ParameterSets(units: seq<Nalu>): seq<byte>
  {
    if units == [] then []
    else (if IsParameterSet(units[0]) then StartCoded(units[0]) else []) + ParameterSets(units[1..])
  }

  /** Where the first IDR picture is, or the end. */
  function FirstIdr(units: seq<Nalu>): (n: nat)
    ensures n <= |units| && (n < |units| ==> UnitType(units[n]) == TYPE_IDR)
  {
    if units == [] || UnitType(units[0]) == TYPE_IDR then 0 else 1 + FirstIdr(units[1..])
  }

  /**
    The delimiter; the kept units in their order; and, once, before the first IDR
    picture, the parameter sets that came before it or, if none did, the stored ones.
   */
  function Stream(units: seq<Nalu>, stored: seq<byte>): seq<byte>
  {
    var n := FirstIdr(units);
    AUD + if n == |units| then Joined(units)
          else Joined(units[..n]) + Inserted(units[..n], stored) + Joined(units[n..])
  }

  function Inserted(before: seq<Nalu>, stored: seq<byte>): seq<byte>
  {
    if ParameterSets(before) == [] then stored else ParameterSets(before)
  }

  /** What is written for an access unit, and how it ends. */
  function Converted(src: seq<byte>, stored: seq<byte>): (seq<byte>, Option<Error>) {
    if |src| < 4 then ([], Some(InvalidVideoData))
    else (Stream(ParseUnits(src).units, stored), ParseUnits(src).error)
  }

  lemma {:induction false} JoinedSnoc(units: seq<Nalu>, u: Nalu)
    ensures Joined(units + [u]) == Joined(units) + if Kept(u) then StartCoded(u) else []
    decreases |units|
  {
    hide Joined, Kept, StartCoded;
    JoinedFirst(units + [u]);
    JoinedFirst(units);
    var last := if Kept(u) then StartCoded(u) else [];
    if units == [] {
      assert [u][1..] == [] && [] + [u] == [u];
      assert last + [] == last && [] + last == last;
    } else {
      JoinedSnoc(units[1..], u);
      assert (units + [u])[1..] == units[1..] + [u];
      PlusAssoc(if Kept(units[0]) then StartCoded(units[0]) else [], Joined(units[1..]), last);
    }
  }

  lemma JoinedFirst(units: seq<Nalu>)
    ensures Joined(units) ==
            if units == [] then []
            else (if Kept(units[0]) then StartCoded(units[0]) else []) + Joined(units[1..])
  {
    hide Kept, StartCoded;
  }

  lemma {:induction false} ParameterSetsSnoc(units: seq<Nalu>, u: Nalu)
    ensures ParameterSets(units + [u]) == ParameterSets(units) + if IsParameterSet(u) then StartCoded(u) else []
    decreases |units|
  {
    hide ParameterSets, IsParameterSet, StartCoded;
    ParameterSetsFirst(units + [u]);
    ParameterSetsFirst(units);
    var last := if IsParameterSet(u) then StartCoded(u) else [];
    if units == [] {
      assert [u][1..] == [] && [] + [u] == [u];
      assert last + [] == last && [] + last == last;
    } else {
      ParameterSetsSnoc(units[1..], u);
      assert (units + [u])[1..] == units[1..] + [u];
      PlusAssoc(if IsParameterSet(units[0]) then StartCoded(units[0]) else [], ParameterSets(units[1..]), last);
    }
  }

  lemma ParameterSetsFirst(units: seq<Nalu>)
    ensures ParameterSets(units) ==
            if units == [] then []
            else (if IsParameterSet(units[0]) then StartCoded(units[0]) else []) + ParameterSets(units[1..])
  {
    hide IsParameterSet, StartCoded;
  }

  lemma {:induction false} FirstIdrSnoc(units: seq<Nalu>, u: Nalu)
    ensures FirstIdr(units + [u]) ==
            if FirstIdr(units) < |units| || UnitType(u) == TYPE_IDR then FirstIdr(units) else |units| + 1
    decreases |units|
  {
    if units != [] {
      FirstIdrSnoc(units[1..], u);
      assert (units + [u])[1..] == units[1..] + [u];
    } else {
      assert [u][1..] == [] && [] + [u] == [u];
    }
  }

  /** One unit more. */
  lemma StreamSnoc(units: seq<Nalu>, u: Nalu, stored: seq<byte>)
    ensures Stream(units + [u], stored) ==
            Stream(units, stored)
            + (if UnitType(u) == TYPE_IDR && FirstIdr(units) == |units| then Inserted(units, stored) else [])
            + if Kept(u) then StartCoded(u) else []
  {
    hide FirstIdr, Joined, ParameterSets, Kept, UnitType, StartCoded, Inserted, Stream;
    if FirstIdr(units) < |units| {
      AfterIdrSnoc(units, u, stored);
      assert Stream(units, stored) + [] == Stream(units, stored);
    } else {
      BeforeIdrSnoc(units, u, stored);
    }
  }

  lemma AfterIdrSnoc(units: seq<Nalu>, u: Nalu, stored: seq<byte>)
    requires FirstIdr(units) < |units|
    ensures Stream(units + [u], stored) == Stream(units, stored) + if Kept(u) then StartCoded(u) else []
  {
    hide FirstIdr, Joined, ParameterSets, Kept, UnitType, StartCoded, Inserted;
    FirstIdrSnoc(units, u);
    var n := FirstIdr(units);
    SnocSlices(units, u, n);
    JoinedSnoc(units[n..], u);
    var coded := if Kept(u) then StartCoded(u) else [];
    Regroup(AUD, Joined(units[..n]) + Inserted(units[..n], stored), Joined(units[n..]), coded);
  }

  lemma BeforeIdrSnoc(units: seq<Nalu>, u: Nalu, stored: seq<byte>)
    requires FirstIdr(units) == |units|
    ensures Stream(units + [u], stored) ==
            Stream(units, stored)
            + (if UnitType(u) == TYPE_IDR then Inserted(units, stored) else [])
            + if Kept(u) then StartCoded(u) else []
  {
    hide FirstIdr, Joined, ParameterSets, Kept, UnitType, StartCoded, Inserted;
    FirstIdrSnoc(units, u);
    SnocSlices(units, u, |units|);
    JoinedSnoc(units, u);
    JoinedOne(u);
    var coded := if Kept(u) then StartCoded(u) else [];
    if UnitType(u) == TYPE_IDR {
      Regroup(AUD, Joined(units), Inserted(units, stored), coded);
    } else {
      Regroup(AUD, Joined(units), [], coded);
      assert Joined(units) + [] == Joined(units) && Stream(units, stored) + [] == Stream(units, stored);
    }
  }

  lemma Regroup(a: seq<byte>, b: seq<byte>, c: seq<byte>, d: seq<byte>)
    ensures a + (b + (c + d)) == a + (b + c) + d
    ensures a + (b + c + d) == a + b + c + d
  {
  }

  lemma SnocSlices(units: seq<Nalu>, u: Nalu, n: nat)
    requires n <= |units|
    ensures (units + [u])[..n] == units[..n] && (units + [u])[n..] == units[n..] + [u]
    ensures n == |units| ==> units[..n] == units && units[n..] + [u] == [u]
  {
  }

  lemma JoinedOne(u: Nalu)
    ensures Joined([u]) == if Kept(u) then StartCoded(u) else []
  {
    assert [u][1..] == [];
  }

  /** The parser's stored parameter sets and its buffer for those met in the stream. */
  class Parser {
    var specificInfo: seq<byte>
    const pps: Sink

    constructor ()
      ensures specificInfo == [] && fresh(pps)
    {
      specificInfo := [];
      pps := new Sink();
    }

    method NaluSize(src: seq<byte>) returns (size: Option<nat>)
      ensures size == if |src| < 4 then None else Some(FromBE(src[..4]))
    {
      if |src| < 4 {
        return None;
      }
      var n: nat := 0;
      for i := 0 to 4
        invariant n == FromBE(src[..i])
      {
        FromBESnoc(src[..i], src[i]);
        assert src[..i] + [src[i]] == src[..i + 1];
        n := n * 256 + src[i];
      }
      size := Some(n);
    }

    method GetAnnexbH264(src: seq<byte>, w: Sink) returns (error: Option<Error>)
      requires w != pps
      modifies w, pps
      ensures var c := Converted(src, specificInfo); w.data == old(w.data) + c.0 && error == c.1
    {
      hide FirstIdr, ParameterSets, Joined, Stream, UnitType, Kept, IsParameterSet, Inserted, ParseUnits, StartCoded;
      if |src| < 4 {
        return Some(InvalidVideoData);
      }
      pps.data := [];
      var m := w.Write(AUD);
      var index: nat, dataSize: nat := 0, |src|;
      var hasSpsPps, hasWriteSpsPps := false, false;
      ghost var done: seq<Nalu> := [];
      Nothing(src, specificInfo);
      while dataSize > 0
        invariant index + dataSize == |src|
        invariant Read(src, index, done)
        invariant w.data == old(w.data) + Stream(done, specificInfo)
        invariant pps.data == ParameterSets(done) && hasSpsPps == (pps.data != [])
        invariant hasWriteSpsPps == (FirstIdr(done) < |done|)
        decreases dataSize
      {
        UnitRead(src, index, done);
        var nalLen := NaluSize(src[index..]);
        if nalLen.None? {
          return Some(DataSizeNotMatch);
        }
        index := index + 4;
        dataSize := dataSize - 4;
        if dataSize >= nalLen.value && nalLen.value > 0 {
          var u: Nalu := src[index..index + nalLen.value];
          hasSpsPps, hasWriteSpsPps := WriteUnit(u, w, done, hasSpsPps, hasWriteSpsPps);
          done := done + [u];
          index := index + nalLen.value;
          dataSize := dataSize - nalLen.value;
        } else {
          return Some(NaluBodyLen);
        }
      }
      AllRead(src, done);
      error := None;
    }

    /** One unit, after `done`: dropped, written, or kept in the buffer of parameter sets. */
    method WriteUnit(u: Nalu, w: Sink, ghost done: seq<Nalu>, hasSpsPps: bool, hasWriteSpsPps: bool)
      returns (has: bool, hasWritten: bool)
      requires w != pps
      requires pps.data == ParameterSets(done) && hasSpsPps == (pps.data != [])
      requires hasWriteSpsPps == (FirstIdr(done) < |done|)
      modifies w, pps
      ensures forall before :: old(w.data) == before + Stream(done, specificInfo) ==>
                               w.data == before + Stream(done + [u], specificInfo)
      ensures pps.data == ParameterSets(done + [u]) && has == (pps.data != [])
      ensures hasWritten == (FirstIdr(done + [u]) < |done + [u]|)
    {
      hide FirstIdr, ParameterSets, Joined, Stream;
      StreamSnoc(done, u, specificInfo);
      ParameterSetsSnoc(done, u);
      FirstIdrSnoc(done, u);
      has, hasWritten := hasSpsPps, hasWriteSpsPps;
      var nalType := UnitType(u);
      ghost var inserted: seq<byte>, coded: seq<byte> := [], [];
      var m;
      if nalType == TYPE_IDR && !hasWritten {
        hasWritten := true;
        inserted := Inserted(done, specificInfo);
        if !hasSpsPps {
          m := w.Write(specificInfo);
        } else {
          m := w.Write(pps.data);
        }
      }
      assert w.data == old(w.data) + inserted;
      if nalType == TYPE_IDR || nalType == TYPE_SLICE || nalType == TYPE_SEI {
        m := w.Write(START_CODE);
        m := w.Write(u);
        coded := StartCoded(u);
      } else if nalType == TYPE_SPS || nalType == TYPE_PPS {
        has := true;
        m := pps.Write(START_CODE);
        m := pps.Write(u);
      }
      assert w.data == old(w.data) + inserted + coded;
      assert ParameterSets(done) + [] == ParameterSets(done);
      forall before | old(w.data) == before + Stream(done, specificInfo)
        ensures w.data == before + Stream(done + [u], specificInfo)
      {
        Regroup(before, Stream(done, specificInfo), inserted, coded);
      }
    }

    /** A configuration record adds its parameter sets to those already stored. */
    method ParseSpecificInfo(src: seq<byte>) returns (ok: bool)
      modifies this`specificInfo
      ensures ok == Specific(src).Some?
      ensures specificInfo == old(specificInfo) + if ok then Specific(src).value else []
    {
      hide FromBE;
      if |src| < 9 {
        return false;
      }
      var spsLen := src[6] as int * 256 + src[7];
      if |src[8..]| < spsLen || spsLen <= 0 {
        return false;
      }
      var sps := START_CODE + src[8..8 + spsLen];
      var tmpBuf := src[8 + spsLen..];
      if |tmpBuf| < 4 {
        return false;
      }
      var ppsLen := tmpBuf[1] as int * 256 + tmpBuf[2];
      if |tmpBuf[3..]| < ppsLen || ppsLen <= 0 {
        return false;
      }
      var pps := START_CODE + tmpBuf[3..];
      assert Specific(src) == Some(sps + pps) && specificInfo + (sps + pps) == specificInfo + sps + pps;
      specificInfo := specificInfo + sps;
      specificInfo := specificInfo + pps;
      ok := true;
    }

    /** Sequence headers are stored; what is in Annex B form already is copied; the rest is converted. */
    method Parse(b: seq<byte>, isSeq: bool, w: Sink) returns (ok: bool)
      requires w != pps
      modifies this`specificInfo, w, pps
      ensures isSeq ==> w.data == old(w.data) && ok == Specific(b).Some? &&
                        specificInfo == old(specificInfo) + if ok then Specific(b).value else []
      ensures !isSeq && START_CODE <= b ==> w.data == old(w.data) + b && ok && specificInfo == old(specificInfo)
      ensures !isSeq && !(START_CODE <= b) ==>
                var c := Converted(b, specificInfo);
                w.data == old(w.data) + c.0 && ok == c.1.None? && specificInfo == old(specificInfo)
    {
      if isSeq {
        ok := ParseSpecificInfo(b);
      } else if IsNaluHeader(b) {
        var m := w.Write(b);
        ok := true;
      } else {
        var error := GetAnnexbH264(b, w);
        ok := error.None?;
      }
    }

    predicate IsNaluHeader(src: seq<byte>)
      ensures IsNaluHeader(src) <==> START_CODE <= src
    {
      |src| >= 4 && src[0] == 0x00 && src[1] == 0x00 && src[2] == 0x00 && src[3] == 0x01
    }
  }

  /** The units before `index` are `done`, the rest is still to be read. */
  predicate Read(src: seq<byte>, index: nat, done: seq<Nalu>)
    requires index <= |src|
  {
    var rest := ParseUnits(src[index..]);
    ParseUnits(src) == Parsed(done + rest.units, rest.error)
  }

  lemma Nothing(src: seq<byte>, stored: seq<byte>)
    ensures Stream([], stored) == AUD && ParameterSets([]) == [] && FirstIdr([]) == 0
    ensures Read(src, 0, [])
  {
    hide ParseUnits;
    assert src[0..] == src && [] + ParseUnits(src).units == ParseUnits(src).units;
  }

  /** One unit more, or what is wrong with it. */
  lemma UnitRead(src: seq<byte>, index: nat, done: seq<Nalu>)
    requires index < |src| && Read(src, index, done)
    ensures if |src| - index < 4 then ParseUnits(src) == Parsed(done, Some(DataSizeNotMatch))
            else
              var n := FromBE(src[index..][..4]);
              if n == 0 || n > |src| - index - 4 then ParseUnits(src) == Parsed(done, Some(NaluBodyLen))
              else Read(src, index + 4 + n, done + [src[index + 4..index + 4 + n]])
  {
    hide ParseUnits, FromBE;
    var left := src[index..];
    ParseCases(left);
    assert done + [] == done;
    if |left| >= 4 {
      var n := FromBE(left[..4]);
      if 0 < n <= |left| - 4 {
        Within(src, index, n);
        OneMore(done, left[4..4 + n], ParseUnits(left[4 + n..]).units);
      }
    }
  }

  lemma OneMore(done: seq<Nalu>, u: Nalu, more: seq<Nalu>)
    ensures done + ([u] + more) == done + [u] + more
  {
  }

  lemma AllRead(src: seq<byte>, done: seq<Nalu>)
    requires Read(src, |src|, done)
    ensures ParseUnits(src) == Parsed(done, None)
  {
    assert done + [] == done;
  }

  // ------------------------------------------------ configuration records

  /** The parameter sets of a configuration record, behind start codes; None if it is malformed. */
  function Specific(src: seq<byte>): Option<seq<byte>> {
    if |src| < 9 then None
    else
      var spsLen := src[6] as int * 256 + src[7];
      if spsLen == 0 || |src| < 8 + spsLen + 4 then None
      else
        var rest := src[8 + spsLen..];
        var ppsLen := rest[1] as int * 256 + rest[2];
        if ppsLen == 0 || |rest| < 3 + ppsLen then None
        else Some(START_CODE + src[8..8 + spsLen] + (START_CODE + rest[3..]))
  }

  /** Units behind lengths of two bytes. */
  function Listed(units: seq<Nalu>): seq<byte> {
    if units == [] then [] else BE(|units[0]|, 2) + units[0] + Listed(units[1..])
  }

  /** An AVC decoder configuration record, and whatever follows its parameter sets. */
  function Record(head: seq<byte>, spss: seq<Nalu>, ppss: seq<Nalu>, more: seq<byte>): seq<byte>
    requires |spss| < 32 && |ppss| < 256
  {
    head + [0xe0 + |spss|] + Listed(spss) + ([|ppss|] + Listed(ppss) + more)
  }

  predicate Short(units: seq<Nalu>) {
    forall k :: 0 <= k < |units| ==> |units[k]| < 0x1_0000
  }

  /**
    The stored parameter sets are the record's if and only if it has one of each kind and
    nothing follows them. The number of sequence parameter sets is not looked at, and all
    that follows the first picture parameter set is taken into it.
   */
  lemma RecordIff(head: seq<byte>, spss: seq<Nalu>, ppss: seq<Nalu>, more: seq<byte>)
    requires |head| == 5 && 1 <= |spss| < 32 && 1 <= |ppss| < 256 && Short(spss) && Short(ppss)
    requires forall k :: 0 <= k < |spss| ==> UnitType(spss[k]) == TYPE_SPS
    ensures var stored := Specific(Record(head, spss, ppss, more));
            (stored == Some(Coded(spss + ppss)) <==> |spss| == 1 && |ppss| == 1 && more == []) &&
            (|spss| == 1 ==> stored == Some(START_CODE + spss[0] + (START_CODE + (ppss[0] + Listed(ppss[1..]) + more))))
  {
    hide Specific, Coded, Listed, Record, Accepted;
    var rest := Listed(spss[1..]) + ([|ppss|] + Listed(ppss) + more);
    RecordRest(head, spss, ppss, more);
    SpecificReads(head + [0xe0 + |spss|], spss[0], rest);
    CodedFirst(spss, ppss);
    if |spss| == 1 {
      OneSequenceSet(ppss, more);
      NoneListed(spss[1..], [|ppss|] + Listed(ppss) + more);
      assert spss[1..] + ppss == ppss;
    } else {
      MoreSequenceSets(spss[1..], ppss, more);
    }
    SameFront(START_CODE + spss[0], if Accepted(rest) then START_CODE + rest[3..] else [], Coded(spss[1..] + ppss));
  }

  /** The rest of a record begins with what is taken for a picture parameter set. */
  predicate Accepted(rest: seq<byte>)
    ensures Accepted(rest) ==> |rest| >= 4
  {
    |rest| >= 4 && 0 < rest[1] as int * 256 + rest[2] <= |rest| - 3
  }

  lemma RecordRest(head: seq<byte>, spss: seq<Nalu>, ppss: seq<Nalu>, more: seq<byte>)
    requires 1 <= |spss| < 32 && |ppss| < 256
    ensures Record(head, spss, ppss, more) ==
            head + [0xe0 + |spss|] + BE(|spss[0]|, 2) + spss[0] + (Listed(spss[1..]) + ([|ppss|] + Listed(ppss) + more))
  {
    hide BE;
    ListedFirst(spss);
    hide Listed;
    var front, sps, others, tail := head + [0xe0 + |spss|], spss[0], Listed(spss[1..]), [|ppss|] + Listed(ppss) + more;
    PlusAssoc(front, BE(|sps|, 2) + sps, others);
    PlusAssoc(front, BE(|sps|, 2), sps);
    PlusAssoc(front + BE(|sps|, 2) + sps, others, tail);
  }

  lemma ListedFirst(units: seq<Nalu>)
    requires units != []
    ensures Listed(units) == BE(|units[0]|, 2) + units[0] + Listed(units[1..])
  {
  }

  lemma NoneListed(units: seq<Nalu>, tail: seq<byte>)
    requires units == []
    ensures Listed(units) + tail == tail
  {
  }

  lemma SpecificReads(front: seq<byte>, sps: Nalu, rest: seq<byte>)
    requires |front| == 6 && |sps| < 0x1_0000
    ensures Specific(front + BE(|sps|, 2) + sps + rest) ==
            if Accepted(rest) then Some(START_CODE + sps + (START_CODE + rest[3..])) else None
  {
    TwoBytes(|sps|);
    SpecificWith(front, BE(|sps|, 2), sps, rest);
  }

  lemma SpecificWith(front: seq<byte>, length: seq<byte>, sps: Nalu, rest: seq<byte>)
    requires |front| == 6 && |length| == 2 && length[0] as int * 256 + length[1] == |sps|
    ensures Specific(front + length + sps + rest) ==
            if Accepted(rest) then Some(START_CODE + sps + (START_CODE + rest[3..])) else None
  {
    var src := front + length + sps + rest;
    Parts(front, length, sps, rest);
    assert src[6] == length[0] && src[7] == length[1];
    var tail := src[8 + |sps|..];
    assert tail == rest;
  }

  /** Four parts in a row, taken out again. */
  lemma Parts<T>(a: seq<T>, b: seq<T>, c: seq<T>, d: seq<T>)
    ensures var s := a + b + c + d;
            && |s| == |a| + |b| + |c| + |d|
            && s[|a|..|a| + |b|] == b && s[|a| + |b|..|a| + |b| + |c|] == c && s[|a| + |b| + |c|..] == d
            && (forall k :: 0 <= k < |b| ==> s[|a| + k] == b[k])
            && (forall k :: 0 <= k < |d| ==> s[|a| + |b| + |c| + k] == d[k])
  {
  }

  lemma CodedFirst(spss: seq<Nalu>, ppss: seq<Nalu>)
    requires spss != []
    ensures Coded(spss + ppss) == START_CODE + spss[0] + Coded(spss[1..] + ppss)
  {
    assert (spss + ppss)[1..] == spss[1..] + ppss;
  }

  /** The picture parameter sets: the first is found, and takes all the rest with it. */
  lemma OneSequenceSet(ppss: seq<Nalu>, more: seq<byte>)
    requires 1 <= |ppss| < 256 && Short(ppss)
    ensures var rest := [|ppss|] + Listed(ppss) + more;
            && Accepted(rest) && rest[3..] == ppss[0] + Listed(ppss[1..]) + more
            && (START_CODE + rest[3..] == Coded(ppss) <==> |ppss| == 1 && more == [])
  {
    hide BE, Listed, Coded, Accepted;
    var pps, others := ppss[0], ppss[1..];
    var length, tail := BE(|pps|, 2), Listed(others) + more;
    TwoBytes(|pps|);
    ListedFirst(ppss);
    FiveParts([|ppss|], length, pps, Listed(others), more);
    Within3([|ppss|], length, pps, tail);
    PlusAssoc(pps, Listed(others), more);
    TailIff(others, more);
    CodedFirst(ppss, []);
    assert ppss + [] == ppss && others + [] == others;
    PlusAssoc(START_CODE, pps, tail);
    SameFront(START_CODE + pps, tail, Coded(others));
  }

  lemma FiveParts<T>(a: seq<T>, b: seq<T>, c: seq<T>, d: seq<T>, e: seq<T>)
    ensures a + (b + c + d) + e == a + b + c + (d + e)
  {
  }

  lemma Within3(number: seq<byte>, length: seq<byte>, pps: Nalu, tail: seq<byte>)
    requires |number| == 1 && |length| == 2 && length[0] as int * 256 + length[1] == |pps|
    ensures var rest := number + length + pps + tail; Accepted(rest) && rest[3..] == pps + tail
  {
    var rest := number + length + pps + tail;
    Parts(number, length, pps, tail);
    assert rest[1 + 0] == length[0] && rest[1 + 1] == length[1];
    PlusAssoc(number + length, pps, tail);
    Dropped(number + length, pps + tail);
  }

  lemma Dropped<T>(a: seq<T>, b: seq<T>)
    ensures (a + b)[|a|..] == b
  {
  }

  /** A length is not zero, and so no start code. */
  lemma TailIff(units: seq<Nalu>, more: seq<byte>)
    requires Short(units)
    ensures Listed(units) + more == Coded(units) <==> units == [] && more == []
  {
    if units != [] {
      TwoBytes(|units[0]|);
      ListedFirst(units);
      hide BE, Listed;
      var listed, coded := Listed(units) + more, Coded(units);
      assert listed[0] == BE(|units[0]|, 2)[0] && listed[1] == BE(|units[0]|, 2)[1];
      assert coded[0] == 0 && coded[1] == 0;
    }
  }

  /** Behind another sequence parameter set nothing is where it is looked for. */
  lemma MoreSequenceSets(others: seq<Nalu>, ppss: seq<Nalu>, more: seq<byte>)
    requires others != [] && 1 <= |ppss| < 256 && Short(others) && Short(ppss)
    requires forall k :: 0 <= k < |others| ==> UnitType(others[k]) == TYPE_SPS
    ensures var rest := Listed(others) + ([|ppss|] + Listed(ppss) + more);
            !(Accepted(rest) && START_CODE + rest[3..] == Coded(others + ppss))
  {
    var sps, n := others[0], |others[0]|;
    var x := Listed(others[1..]) + ([|ppss|] + Listed(ppss) + more);
    var rest, y := Listed(others) + ([|ppss|] + Listed(ppss) + more), Coded(others[1..] + ppss);
    NoZerosBehind(others[1..], ppss, more);
    CodedFirst(others, ppss);
    ListedFirst(others);
    CodedStartsZero(others[1..] + ppss);
    hide BE, Listed, Coded, Accepted;
    PlusAssoc(BE(n, 2) + sps, Listed(others[1..]), [|ppss|] + Listed(ppss) + more);
    Behind(BE(n, 2), sps, x, y);
    PlusAssoc(START_CODE, sps, y);
    SameFront(START_CODE, rest[3..], sps + y);
  }

  /** One byte too late, where a start code has zeros. */
  lemma Behind(length: seq<byte>, sps: Nalu, x: seq<byte>, y: seq<byte>)
    requires |length| == 2 && |x| >= 3 && (x[1] != 0 || x[2] != 0) && |y| >= 4 && y[0] == 0 && y[1] == 0
    ensures (length + sps + x)[3..] != sps + y
  {
    var n, left := |sps|, (length + sps + x)[3..];
    assert left[n] == x[1] && left[n + 1] == x[2];
    assert (sps + y)[n] == y[0] && (sps + y)[n + 1] == y[1];
  }

  lemma CodedStartsZero(units: seq<Nalu>)
    requires units != []
    ensures |Coded(units)| >= 4 && Coded(units)[0] == 0 && Coded(units)[1] == 0
  {
  }

  lemma NoZerosBehind(others: seq<Nalu>, ppss: seq<Nalu>, more: seq<byte>)
    requires 1 <= |ppss| < 256 && Short(others) && Short(ppss)
    requires forall k :: 0 <= k < |others| ==> UnitType(others[k]) == TYPE_SPS
    ensures var x := Listed(others) + ([|ppss|] + Listed(ppss) + more); |x| >= 3 && (x[1] != 0 || x[2] != 0)
  {
    if others == [] {
      TwoBytes(|ppss[0]|);
      ListedFirst(ppss);
      NoneListed(others, [|ppss|] + Listed(ppss) + more);
      hide BE, Listed;
      var x, length := [|ppss|] + Listed(ppss) + more, BE(|ppss[0]|, 2);
      assert x[1] == length[0] && x[2] == length[1];
    } else {
      ListedFirst(others);
      hide BE, Listed;
      assert (Listed(others) + ([|ppss|] + Listed(ppss) + more))[2] == others[0][0];
    }
  }

  lemma SameFront(a: seq<byte>, x: seq<byte>, y: seq<byte>)
    ensures a + x == a + y <==> x == y
  {
    assert (a + x)[|a|..] == x && (a + y)[|a|..] == y;
  }

  lemma TwoBytes(n: nat)
    requires n < 0x1_0000
    ensures var b := BE(n, 2); |b| == 2 && b[0] as int * 256 + b[1] == n
  {
    assert BE(n, 2) == BE(n / 256, 1) + [n % 256];
    assert BE(n / 256, 1) == BE(n / 256 / 256, 0) + [n / 256 % 256];
  }

  // ---------------------------------------- reading the byte stream again

  /** Three zero bytes, which no NAL unit holds. */
  predicate ZerosAt(s: seq<byte>, i: nat) {
    i + 3 <= |s| && s[i] == 0 && s[i + 1] == 0 && s[i + 2] == 0
  }

  /** The start code prefix of three bytes. */
  predicate PrefixAt(s: seq<byte>, i: nat) {
    i + 3 <= |s| && s[i] == 0 && s[i + 1] == 0 && s[i + 2] == 1
  }

  /** The first start code prefix from `i` on, or the end. */
  function FindPrefix(s: seq<byte>, i: nat): (n: nat)
    requires i <= |s|
    ensures i <= n <= |s| && (n < |s| ==> PrefixAt(s, n)) && (forall k :: i <= k < n ==> !PrefixAt(s, k))
    decreases |s| - i
  {
    if i == |s| || PrefixAt(s, i) then i else FindPrefix(s, i + 1)
  }

  /** Where the unit that starts at `i` ends: at three zeros, at a start code prefix, or at the end. */
  function FindEnd(s: seq<byte>, i: nat): (n: nat)
    requires i <= |s|
    ensures i <= n <= |s| && (n < |s| ==> ZerosAt(s, n) || PrefixAt(s, n))
    ensures forall k :: i <= k < n ==> !ZerosAt(s, k) && !PrefixAt(s, k)
    decreases |s| - i
  {
    if i == |s| || ZerosAt(s, i) || PrefixAt(s, i) then i else FindEnd(s, i + 1)
  }

  /** Without the zero bytes that trail a unit. */
  function Trimmed(u: seq<byte>): (r: seq<byte>)
    ensures r <= u && (r == [] || r[|r| - 1] != 0)
  {
    if u != [] && u[|u| - 1] == 0 then Trimmed(u[..|u| - 1]) else u
  }

  /**
    A reader as in Annex B of ITU-T H.264, sections B.1 and B.2: whatever comes in
    front of a start code prefix is skipped, and a unit goes up to three zero bytes or
    the next prefix and does not include trailing zeros.
   */
  function Split(s: seq<byte>): seq<seq<byte>>
    decreases |s|
  {
    var p := FindPrefix(s, 0);
    if p == |s| then []
    else
      var end := FindEnd(s, p + 3);
      [Trimmed(s[p + 3..end])] + Split(s[end..])
  }

  /** What section 7.4.1 of the standard demands of the bytes of a NAL unit. */
  predicate Clean(u: seq<byte>) {
    (forall k :: 0 <= k < |u| ==> !ZerosAt(u, k) && !PrefixAt(u, k)) && (u == [] || u[|u| - 1] != 0)
  }

  ghost predicate AllClean(us: seq<seq<byte>>) {
    forall u :: u in us ==> Clean(u)
  }

  function Coded(us: seq<Nalu>): seq<byte> {
    if us == [] then [] else StartCoded(us[0]) + Coded(us[1..])
  }

  /** Clean units behind start codes are what the reader finds. */
  lemma {:induction false} SplitCoded(us: seq<Nalu>)
    requires AllClean(us)
    ensures Split(Coded(us)) == us
    decreases |us|
  {
    if us != [] {
      var u, more := us[0], us[1..];
      SplitCoded(more);
      CodedStarts(more);
      FirstUnit(u, Coded(more));
      assert us == [u] + more;
    }
  }

  lemma CodedStarts(us: seq<Nalu>)
    ensures us == [] ==> Coded(us) == []
    ensures us != [] ==> ZerosAt(Coded(us), 0)
  {
  }

  lemma FirstUnit(u: Nalu, rest: seq<byte>)
    requires Clean(u) && (rest == [] || ZerosAt(rest, 0))
    ensures Split(StartCoded(u) + rest) == [u] + Split(rest)
  {
    var s := StartCoded(u) + rest;
    assert s[..4] == START_CODE;
    assert !PrefixAt(s, 0) && PrefixAt(s, 1) && FindPrefix(s, 0) == 1;
    assert forall k :: 4 <= k < 4 + |u| ==> s[k] == u[k - 4];
    forall k | 4 <= k < 4 + |u| ensures !ZerosAt(s, k) && !PrefixAt(s, k) {
      assert !ZerosAt(u, k - 4) && !PrefixAt(u, k - 4);
    }
    assert s[4 + |u|..] == rest && s[4..4 + |u|] == u;
    if rest != [] {
      assert s[4 + |u|] == rest[0] && s[5 + |u|] == rest[1] && s[6 + |u|] == rest[2];
    }
    EndIs(s, 4, 4 + |u|);
  }

  lemma EndIs(s: seq<byte>, i: nat, n: nat)
    requires i <= n <= |s| && (n < |s| ==> ZerosAt(s, n))
    requires forall k :: i <= k < n ==> !ZerosAt(s, k) && !PrefixAt(s, k)
    ensures FindEnd(s, i) == n
  {
    hide FindEnd, ZerosAt, PrefixAt;
    var end := FindEnd(s, i);
  }

  /** The reader finds nothing but clean units, whatever it reads. */
  lemma {:induction false} SplitIsClean(s: seq<byte>)
    ensures AllClean(Split(s))
    decreases |s|
  {
    var p := FindPrefix(s, 0);
    if p < |s| {
      var end := FindEnd(s, p + 3);
      SplitIsClean(s[end..]);
      UnitIsClean(s, p + 3, end);
      hide FindEnd, FindPrefix, Clean, Trimmed;
    }
  }

  lemma UnitIsClean(s: seq<byte>, i: nat, end: nat)
    requires i <= end <= |s| && forall k :: i <= k < end ==> !ZerosAt(s, k) && !PrefixAt(s, k)
    ensures Clean(Trimmed(s[i..end]))
  {
    var u := Trimmed(s[i..end]);
    hide Trimmed;
    forall k | 0 <= k < |u| ensures !ZerosAt(u, k) && !PrefixAt(u, k) {
      assert !ZerosAt(s, i + k) && !PrefixAt(s, i + k);
      assert forall j :: k <= j < |u| ==> u[j] == s[i + j];
    }
  }

  const AUD_UNIT: Nalu := [0x09, 0xf0]

  function KeptUnits(units: seq<Nalu>): seq<Nalu> {
    if units == [] then [] else (if Kept(units[0]) then [units[0]] else []) + KeptUnits(units[1..])
  }

  function SetUnits(units: seq<Nalu>): seq<Nalu> {
    if units == [] then [] else (if IsParameterSet(units[0]) then [units[0]] else []) + SetUnits(units[1..])
  }

  /** The units that are sent for an access unit. */
  function Sent(units: seq<Nalu>, stored: seq<Nalu>): seq<Nalu> {
    var n := FirstIdr(units);
    [AUD_UNIT] +
    if n == |units| then KeptUnits(units)
    else KeptUnits(units[..n]) + (if SetUnits(units[..n]) == [] then stored else SetUnits(units[..n])) + KeptUnits(units[n..])
  }

  /** A reader of the byte stream finds the units sent if and only if they are clean. */
  lemma StreamReadBackIff(units: seq<Nalu>, stored: seq<Nalu>)
    ensures Split(Stream(units, Coded(stored))) == Sent(units, stored) <==> AllClean(Sent(units, stored))
  {
    hide Split, Sent, Stream, AllClean;
    StreamIsCoded(units, stored);
    SplitIsClean(Stream(units, Coded(stored)));
    if AllClean(Sent(units, stored)) {
      SplitCoded(Sent(units, stored));
    }
  }

  lemma StreamIsCoded(units: seq<Nalu>, stored: seq<Nalu>)
    ensures Stream(units, Coded(stored)) == Coded(Sent(units, stored))
  {
    hide FirstIdr, KeptUnits, SetUnits, Joined, ParameterSets;
    var n := FirstIdr(units);
    AudCoded();
    if n == |units| {
      JoinedIsCoded(units);
      CodedAppend([AUD_UNIT], KeptUnits(units));
    } else {
      var a, c := KeptUnits(units[..n]), KeptUnits(units[n..]);
      var b := if SetUnits(units[..n]) == [] then stored else SetUnits(units[..n]);
      JoinedIsCoded(units[..n]);
      JoinedIsCoded(units[n..]);
      CodedStarts(SetUnits(units[..n]));
      assert Coded(b) == Inserted(units[..n], Coded(stored));
      CodedAppend(a, b);
      CodedAppend(a + b, c);
      CodedAppend([AUD_UNIT], a + b + c);
    }
  }

  lemma AudCoded()
    ensures Coded([AUD_UNIT]) == AUD
  {
    assert [AUD_UNIT][1..] == [];
    assert Coded([AUD_UNIT]) == StartCoded(AUD_UNIT) + [];
  }

  lemma {:induction false} CodedAppend(a: seq<Nalu>, b: seq<Nalu>)
    ensures Coded(a + b) == Coded(a) + Coded(b)
    decreases |a|
  {
    hide StartCoded;
    if a == [] {
      assert a + b == b && Coded(a) + Coded(b) == Coded(b);
    } else {
      CodedAppend(a[1..], b);
      assert (a + b)[1..] == a[1..] + b;
    }
  }

  lemma {:induction false} JoinedIsCoded(units: seq<Nalu>)
    ensures Joined(units) == Coded(KeptUnits(units)) && ParameterSets(units) == Coded(SetUnits(units))
    decreases |units|
  {
    hide StartCoded, Kept, IsParameterSet;
    if units != [] {
      var u := units[0];
      JoinedIsCoded(units[1..]);
      CodedOne(u);
      CodedAppend(if Kept(u) then [u] else [], KeptUnits(units[1..]));
      CodedAppend(if IsParameterSet(u) then [u] else [], SetUnits(units[1..]));
    }
  }

  lemma CodedOne(u: Nalu)
    ensures Coded([u]) == StartCoded(u) && Coded([]) == []
  {
    assert [u][1..] == [];
    assert StartCoded(u) + [] == StartCoded(u);
  }

  // ------------------------------------------------ what is sent, by types

  /** The units whose type, the low five bits of the first byte, is among these. */
  function OfTypes(units: seq<Nalu>, types: set<int>): seq<Nalu> {
    if units == [] then []
    else (if units[0][0] as int % 32 in types then [units[0]] else []) + OfTypes(units[1..], types)
  }

  lemma {:induction false} OfTypesAre(units: seq<Nalu>)
    ensures KeptUnits(units) == OfTypes(units, {1, 5, 6}) && SetUnits(units) == OfTypes(units, {7, 8})
    decreases |units|
  {
    if units != [] {
      OfTypesAre(units[1..]);
    }
  }

  /**
    What is written, with `k` for the first IDR picture or the end: the delimiter; slices,
    IDR pictures and supplemental information in their order; and before that picture the
    parameter sets met so far or, if there were none, those stored. All else is dropped.
   */
  lemma StreamIs(units: seq<Nalu>, stored: seq<byte>, k: nat)
    requires k <= |units| && (forall i :: 0 <= i < k ==> units[i][0] as int % 32 != 5)
    requires k < |units| ==> units[k][0] as int % 32 == 5
    ensures var sets := OfTypes(units[..k], {7, 8});
            Stream(units, stored) == [0x00, 0x00, 0x00, 0x01, 0x09, 0xf0] + Coded(OfTypes(units[..k], {1, 5, 6})) +
            if k == |units| then [] else (if sets == [] then stored else Coded(sets)) + Coded(OfTypes(units[k..], {1, 5, 6}))
  {
    FirstIdrIs(units, k);
    JoinedIsCoded(units[..k]);
    JoinedIsCoded(units[k..]);
    OfTypesAre(units[..k]);
    OfTypesAre(units[k..]);
    CodedStarts(SetUnits(units[..k]));
    hide FirstIdr, Joined, ParameterSets, Coded, OfTypes, KeptUnits, SetUnits;
    var a := Coded(OfTypes(units[..k], {1, 5, 6}));
    if k == |units| {
      assert units[..k] == units;
      assert AUD + a + [] == AUD + a;
    } else {
      var sets := Inserted(units[..k], stored);
      var c := Coded(OfTypes(units[k..], {1, 5, 6}));
      PlusAssoc(a, sets, c);
      PlusAssoc(AUD, a, sets + c);
    }
  }

  lemma {:induction false} FirstIdrIs(units: seq<Nalu>, k: nat)
    requires k <= |units| && (forall i :: 0 <= i < k ==> units[i][0] as int % 32 != 5)
    requires k < |units| ==> units[k][0] as int % 32 == 5
    ensures FirstIdr(units) == k
    decreases |units|
  {
    if k > 0 {
      FirstIdrIs(units[1..], k - 1);
    }
  }
}
