/**
  Putting "@setDataFrame" in front of a metadata message for publishing, and
  taking it off again for playing.
 */
module MetaData {
  import opened Bytes
  import opened AmfIo
  import opened Uint29
  import Amf0
  import Amf0Codec
  import Amf0Meaning
  import Amf3
  import Amf3Codec

  const ADD := 0x0
  const DEL := 0x3

  /** The ASCII bytes of "@setDataFrame". */
  const SET_DATA_FRAME: Str := [0x40, 0x73, 0x65, 0x74, 0x44, 0x61, 0x74, 0x61, 0x46, 0x72, 0x61, 0x6d, 0x65]

  /** The encoded string that is put in front, set when the program starts. */
  function SetFrameFrame(): seq<byte> {
    Amf0.Enc(String(SET_DATA_FRAME))
  }

  lemma SetFrameFrameIs()
    ensures SetFrameFrame() == [0x02, 0x00, 0x0d] + SET_DATA_FRAME
  {
    assert BE(13, 1) == BE(0, 0) + [13];
    assert BE(13, 2) == [0x00, 0x0d];
  }

  /** The string a message starts with, if it starts with a string. */
  function FirstText(p: seq<byte>): Outcome<Str> {
    var out := Amf0.Decode(Reader, NO_REFS, p).out;
    if !out.Ok? then Pass(out) else if out.value.Text? then Ok(out.value.s) else Failed
  }

  function Add(p: seq<byte>): Outcome<seq<byte>> {
    var first := FirstText(p);
    if !first.Ok? then Pass(first) else if first.value == SET_DATA_FRAME then Ok(p) else Ok(SetFrameFrame() + p)
  }

  /** Taking off cuts the length of `SetFrameFrame`, however the string was encoded. */
  function Del(p: seq<byte>): Outcome<seq<byte>> {
    var first := FirstText(p);
    if !first.Ok? then Pass(first)
    else if first.value == SET_DATA_FRAME && 16 <= |p| then Ok(p[16..])
    else Ok(p)
  }

  /** What the message holds behind its first value. */
  function Behind(p: seq<byte>): seq<byte> {
    Amf0.Decode(Reader, NO_REFS, p).rest
  }

  method MetaDataReform(p: seq<byte>, flag: byte) returns (reformed: Outcome<seq<byte>>)
    ensures reformed == if flag == 0 then Add(p) else if flag == 3 then Del(p) else Failed
  {
    hide FirstText, SetFrameFrame;
    if flag != ADD && flag != DEL {
      return Failed;
    }
    var first := DecodeText(p);
    if !first.Ok? {
      return Pass(first);
    }
    if flag == ADD && first.value != SET_DATA_FRAME {
      var b := Prepend(SetFrameFrame(), p);
      return Ok(b);
    } else if flag == DEL && first.value == SET_DATA_FRAME {
      SetFrameFrameIs();
      FrameSpan(p);
      return Ok(p[|SetFrameFrame()|..]);
    }
    reformed := Ok(p);
  }

  method DecodeText(p: seq<byte>) returns (first: Outcome<Str>)
    ensures first == FirstText(p)
  {
    hide Amf0.Decode;
    var d := new Amf3Codec.Decoder();
    var r := new Source(Reader, p);
    var v := Amf0Codec.DecodeAmf0(d, r);
    first := if !v.Ok? then Pass(v) else if v.value.Text? then Ok(v.value.s) else Failed;
  }

  method Prepend(front: seq<byte>, p: seq<byte>) returns (joined: seq<byte>)
    ensures joined == front + p
  {
    var b := new byte[|front| + |p|];
    CopyInto(b, 0, front);
    CopyInto(b, |front|, p);
    assert b[..] == b[..|front|] + b[|front|..];
    joined := b[..];
  }

  method CopyInto(b: array<byte>, at: nat, p: seq<byte>)
    requires at + |p| <= b.Length
    modifies b
    ensures b[..at] == old(b[..at]) && b[at..at + |p|] == p
  {
    for k := 0 to |p|
      invariant b[..at] == old(b[..at]) && b[at..at + k] == p[..k]
    {
      b[at + k] := p[k];
    }
  }

  // ------------------------------------------- what the first value takes up

  lemma StringSpan(s: seq<byte>, width: nat)
    requires Amf0.DecodeString(Reader, s, width).value.Some?
    ensures var d := Amf0.DecodeString(Reader, s, width);
            var v := d.value.value;
            |s| >= width + |v| && s[width..width + |v|] == v && s[width + |v|..] == d.rest && FromBE(s[..width]) == |v|
  {
    hide FromBE;
    var length := Take(Reader, s, width);
    assert s[..width] == length.value.value && s[width..] == length.rest;
    var v := Take(Reader, length.rest, FromBE(length.value.value));
    assert length.rest == v.value.value + v.rest;
  }

  /** A message that starts with a string has one of four markers. */
  lemma FirstTextMarker(p: seq<byte>)
    requires FirstText(p).Ok?
    ensures p != [] && (p[0] == 0x02 || p[0] == 0x0c || p[0] == 0x0f || p[0] == 0x11)
    ensures Amf0.Decode(Reader, NO_REFS, p) ==
            if p[0] == 0x11 then Amf3.Decode(Reader, NO_REFS, p[1..])
            else Lift(Amf0.AsText(Amf0.DecodeString(Reader, p[1..], if p[0] == 0x02 then 2 else 4)), NO_REFS)
  {
    assert p != [];
    var body := p[1..];
    assert p == [p[0]] + body;
    Amf0.MarkerRead(Reader, NO_REFS, p[0], body);
    hide Amf0.Decode, Amf3.Decode;
    BodyIsText(p[0], body);
  }

  lemma BodyIsText(marker: byte, s: seq<byte>)
    requires var out := Amf0.DecodeBody(Reader, NO_REFS, marker, s).out; out.Ok? && out.value.Text?
    ensures marker == 0x02 || marker == 0x0c || marker == 0x0f || marker == 0x11
    ensures Amf0.DecodeBody(Reader, NO_REFS, marker, s) ==
            if marker == 0x11 then Amf3.Decode(Reader, NO_REFS, s)
            else Lift(Amf0.AsText(Amf0.DecodeString(Reader, s, if marker == 0x02 then 2 else 4)), NO_REFS)
  {
    hide Amf0.DecodeString, Amf0.DecodeObject, Take, Amf3.Decode, Amf0.DecodeItems;
  }

  /** Written in AMF0: the marker, a length of two or four bytes, and the string. */
  lemma PlainSpan(p: seq<byte>)
    requires FirstText(p).Ok? && p[..1] != [0x11]
    ensures p != [] && (p[0] == 0x02 || p[0] == 0x0c || p[0] == 0x0f)
    ensures var v := FirstText(p).value;
            var width := if p[0] == 0x02 then 2 else 4;
            |p| >= 1 + width + |v| && FromBE(p[1..1 + width]) == |v| && p[1 + width..1 + width + |v|] == v &&
            Behind(p) == p[1 + width + |v|..]
  {
    hide Amf0.Decode, FromBE, Amf0.DecodeString;
    FirstTextMarker(p);
    var body, width := p[1..], if p[0] == 0x02 then 2 else 4;
    StringSpan(body, width);
    var v := FirstText(p).value;
    BehindMarker(p, 0, width);
    BehindMarker(p, width, width + |v|);
  }

  lemma BehindMarker(p: seq<byte>, a: nat, b: nat)
    requires a <= b < |p|
    ensures p[1..][a..b] == p[1 + a..1 + b] && p[1..][b..] == p[1 + b..]
    ensures a == 0 ==> p[1..][..b] == p[1..1 + b]
  {
  }

  /** The forms of the string that take up 16 bytes: short in AMF0, or in AMF3 with a length of one byte. */
  predicate ShortFrame(p: seq<byte>) {
    p != [] && (p[0] == 0x02 || (p[0] == 0x11 && ShortAmf3(p[1..])))
  }

  /** A string or XML, and a length of one byte. */
  predicate ShortAmf3(s: seq<byte>) {
    |s| >= 2 && (s[0] == 0x06 || s[0] == 0x07 || s[0] == 0x0b) && s[1] == 2 * 13 + 1
  }

  /** However "@setDataFrame" is written it takes at least 16 bytes, and just so many in a short form. */
  lemma FrameSpan(p: seq<byte>)
    requires FirstText(p) == Ok(SET_DATA_FRAME)
    ensures |p| >= 16 && |Behind(p)| <= |p| - 16
    ensures |Behind(p)| == |p| - 16 <==> ShortFrame(p)
    ensures ShortFrame(p) ==> Behind(p) == p[16..]
  {
    FirstTextMarker(p);
    if p[0] == 0x11 {
      hide Amf0.Decode, ShortAmf3;
      SwitchedSpan(p[1..]);
    } else {
      PlainSpan(p);
      hide Amf0.Decode, FromBE, ShortAmf3;
    }
  }

  lemma SwitchedSpan(s: seq<byte>)
    requires Amf3.Decode(Reader, NO_REFS, s).out == Ok(Text(SET_DATA_FRAME))
    ensures var rest := Amf3.Decode(Reader, NO_REFS, s).rest;
            |s| >= 15 && |rest| <= |s| - 15 && (|rest| == |s| - 15 <==> ShortAmf3(s)) &&
            (ShortAmf3(s) ==> rest == s[15..])
  {
    assert s != [];
    var b := s[1..];
    hide Amf3.DecodeString, Amf3.DecodeXml, Amf3.DecodeObject, Amf3.DecodeArray, Amf3.DecodeDate, Amf3.DecodeByteArray;
    assert Amf3.Decode(Reader, NO_REFS, s) == Amf3.DecodeBody(Reader, NO_REFS, s[0], b);
    hide Amf3.Decode;
    if s[0] == 0x06 {
      StringFrame(b);
    } else if s[0] == 0x07 || s[0] == 0x0b {
      XmlFrame(b);
    } else {
      OthersAreNoText(s[0], b);
      ObjectFrame(b);
    }
  }

  lemma OthersAreNoText(marker: byte, b: seq<byte>)
    ensures var out := Amf3.DecodeBody(Reader, NO_REFS, marker, b).out;
            marker != 0x06 && marker != 0x07 && marker != 0x0b && marker != 0x0a && out.Ok? ==> !out.value.Text?
  {
    hide Amf3.DecodeString, Amf3.DecodeXml, Amf3.DecodeObject, Amf3.DecodeItems, DecU29, Take;
  }

  /** `text` without a zero at its end is not padded. */
  lemma NotPadded(s: seq<byte>, n: nat, text: Str)
    requires text != [] && text[|text| - 1] != 0
    requires Got(Reader, s, n).Some? && Amf3.Filled(Got(Reader, s, n).value, n) == text
    ensures n == |text| == |Got(Reader, s, n).value| <= |s|
  {
    var got := Got(Reader, s, n).value;
    if |got| < n {
      PaddingIsZero(got, n);
    }
  }

  lemma PaddingIsZero(got: seq<byte>, n: nat)
    requires |got| < n
    ensures Amf3.Filled(got, n)[n - 1] == 0
  {
  }

  /** The first integer that is no reference takes one byte exactly if it is that byte. */
  lemma LengthTakes(b: seq<byte>)
    requires DecU29(Reader, b, 0, 0).value.Some?
    ensures var u := DecU29(Reader, b, 0, 0);
            b != [] && |u.rest| < |b| && (|u.rest| == |b| - 1 <==> b[0] < 0x80) &&
            (b[0] < 0x80 ==> u.value.value == b[0] && u.rest == b[1..])
  {
    assert b != [];
    if b[0] >= 0x80 {
      var d := DecU29(Reader, b[1..], 1, b[0] - 0x80);
      assert |d.rest| < |b[1..]|;
    }
  }

  lemma StringTakes(b: seq<byte>, text: Str)
    requires Amf3.DecodeString(Reader, NO_REFS, b).out == Ok(text) && text != [] && text[|text| - 1] != 0
    ensures var u := DecU29(Reader, b, 0, 0);
            u.value.Some? && u.value.value == 2 * |text| + 1 && |text| <= |u.rest| &&
            Amf3.DecodeString(Reader, NO_REFS, b).rest == u.rest[|text|..]
  {
    hide DecU29;
    var u := DecU29(Reader, b, 0, 0);
    NotPadded(u.rest, u.value.value / 2, text);
  }

  lemma XmlTakes(b: seq<byte>, text: Str)
    requires Amf3.DecodeXml(Reader, NO_REFS, b).out == Ok(Text(text)) && text != [] && text[|text| - 1] != 0
    ensures var u := DecU29(Reader, b, 0, 0);
            u.value.Some? && u.value.value == 2 * |text| + 1 && |text| <= |u.rest| &&
            Amf3.DecodeXml(Reader, NO_REFS, b).rest == u.rest[|text|..]
  {
    hide DecU29;
    var u := DecU29(Reader, b, 0, 0);
    NotPadded(u.rest, u.value.value / 2, text);
  }

  lemma StringFrame(b: seq<byte>)
    requires Amf3.DecodeString(Reader, NO_REFS, b).out == Ok(SET_DATA_FRAME)
    ensures var rest := Amf3.DecodeString(Reader, NO_REFS, b).rest;
            |b| >= 14 && |rest| <= |b| - 14 && (|rest| == |b| - 14 <==> b[0] == 27) && (b[0] == 27 ==> rest == b[14..])
  {
    StringTakes(b, SET_DATA_FRAME);
    LengthTakes(b);
    hide DecU29, Amf3.DecodeString;
  }

  lemma XmlFrame(b: seq<byte>)
    requires Amf3.DecodeXml(Reader, NO_REFS, b).out == Ok(Text(SET_DATA_FRAME))
    ensures var rest := Amf3.DecodeXml(Reader, NO_REFS, b).rest;
            |b| >= 14 && |rest| <= |b| - 14 && (|rest| == |b| - 14 <==> b[0] == 27) && (b[0] == 27 ==> rest == b[14..])
  {
    XmlTakes(b, SET_DATA_FRAME);
    LengthTakes(b);
    hide DecU29, Amf3.DecodeXml;
  }

  /** Only an array collection can be an object and a string, and its name alone takes 33 bytes. */
  lemma ObjectFrame(b: seq<byte>)
    requires Amf3.DecodeObject(Reader, NO_REFS, b).out.Ok? && Amf3.DecodeObject(Reader, NO_REFS, b).out.value.Text?
    ensures |Amf3.DecodeObject(Reader, NO_REFS, b).rest| < |b| - 33
  {
    hide DecU29, Amf3.DecodeString, Amf3.DecodeFields, Amf3.DecodeKeys, Amf3.Ascii;
    var u := DecU29(Reader, b, 0, 0);
    var t := Amf3.DecodeTrait(Reader, NO_REFS, u.rest, u.value.value / 2);
    var name := Amf3.DecodeString(Reader, NO_REFS, u.rest);
    FieldsAreNoText(t.refs.(objects := t.refs.objects + [Null]), t.rest, t.out.value);
    CollectionName();
    StringTakes(u.rest, name.out.value);
  }

  lemma FieldsAreNoText(refs: Refs, s: seq<byte>, t: Trait)
    requires var out := Amf3.DecodeFields(Reader, refs, s, t).out; out.Ok? && out.value.Text?
    ensures t.name == Amf3.Ascii("flex.messaging.io.ArrayCollection")
  {
    hide Amf3.DecodeSealed, Amf3.DecodeDynamic, Amf3.DecodeAsyncMessage, Amf3.DecodeExternal, Amf3.Decode, Amf3.Ascii;
  }

  lemma CollectionName()
    ensures var name := Amf3.Ascii("flex.messaging.io.ArrayCollection"); |name| == 33 && name[32] != 0
  {
  }

  // ---------------------------------------------------------- adding, removing

  /** Taking off undoes putting on. */
  lemma DelUndoesAdd(p: seq<byte>)
    requires FirstText(p).Ok? && FirstText(p).value != SET_DATA_FRAME
    ensures Add(p).Ok? && Del(Add(p).value) == Ok(p)
  {
    var frame := SetFrameFrame();
    SetFrameFrameIs();
    FrameRead(p);
    hide Amf0.Decode, Amf0.Enc;
    assert (frame + p)[16..] == p;
  }

  /** With the frame in front, a message starts with "@setDataFrame" and goes on as before. */
  lemma FrameRead(p: seq<byte>)
    requires FirstText(p).Ok?
    ensures FirstText(SetFrameFrame() + p) == Ok(SET_DATA_FRAME)
  {
    FirstTextMarker(p);
    Amf0.RoundTrip(Reader, NO_REFS, String(SET_DATA_FRAME), p);
    hide Amf0.Decode, Amf0.Enc;
  }

  /** Putting on twice is putting on once. */
  lemma AddIdempotent(p: seq<byte>)
    requires Add(p).Ok?
    ensures Add(Add(p).value) == Add(p)
    ensures FirstText(Add(p).value) == Ok(SET_DATA_FRAME)
  {
    hide FirstText, SetFrameFrame;
    FrameRead(p);
  }

  /** Taking off removes exactly the first value if and only if that was written in a short form. */
  lemma DelCutsTheFrameIff(p: seq<byte>)
    requires FirstText(p) == Ok(SET_DATA_FRAME)
    ensures Del(p) == Ok(Behind(p)) <==> ShortFrame(p)
  {
    FrameSpan(p);
    hide FirstText, Behind, ShortFrame;
  }

  /**
    Putting on undoes taking off exactly if a short AMF0 string was taken off and
    another string is behind it.
   */
  lemma AddUndoesDelIff(p: seq<byte>)
    requires FirstText(p) == Ok(SET_DATA_FRAME)
    ensures (Del(p).Ok? && Add(Del(p).value) == Ok(p)) <==>
            p[..1] == [0x02] && FirstText(Behind(p)).Ok? && FirstText(Behind(p)).value != SET_DATA_FRAME
  {
    FrameSpan(p);
    SetFrameFrameIs();
    hide SetFrameFrame, Behind, FirstText;
    var more := p[16..];
    if p[0] == 0x02 {
      FrameInFront(p);
      assert p == p[..16] + more;
      assert |more| < |p|;
    } else {
      assert (SetFrameFrame() + more)[0] == 0x02;
    }
  }

  lemma FrameInFront(p: seq<byte>)
    requires FirstText(p) == Ok(SET_DATA_FRAME) && p[..1] == [0x02]
    ensures |p| >= 16 && p[..16] == SetFrameFrame()
  {
    PlainSpan(p);
    LengthIs13(p[1..3]);
    SetFrameFrameIs();
    hide SetFrameFrame, FirstText;
    HeadOf(p);
  }

  lemma HeadOf(p: seq<byte>)
    requires |p| >= 16
    ensures p[..16] == [p[0]] + p[1..3] + p[3..16]
  {
  }

  lemma LengthIs13(length: seq<byte>)
    requires |length| == 2 && FromBE(length) == 13
    ensures length == [0x00, 0x0d]
  {
    assert FromBE(length[..1]) == FromBE(length[..1][..0]) * 256 + length[0];
  }

  /**
    What becomes of a message, by the first value in it: one that cannot be read or is no
    string is refused, and what crashes the decoder crashes the reform. A string other than
    "@setDataFrame" gets that in front, as the 16 bytes of a short string, or stays; and of
    a message with that string in front 16 bytes are taken off, or none.
   */
  lemma ReformedBy(p: seq<byte>)
    ensures var first := Amf0.Decode(Reader, NO_REFS, p).out;
            && (first.Failed? || (first.Ok? && !first.value.Text?) ==> Add(p) == Failed && Del(p) == Failed)
            && (first.Panics? ==> Add(p) == Panics && Del(p) == Panics)
            && (first == Ok(Text(Amf3.Ascii("@setDataFrame"))) ==> Add(p) == Ok(p) && |p| >= 16 && Del(p) == Ok(p[16..]))
            && (first.Ok? && first.value.Text? && first.value.s != Amf3.Ascii("@setDataFrame") ==>
                 Add(p) == Ok([0x02, 0x00, 0x0d] + Amf3.Ascii("@setDataFrame") + p) && Del(p) == Ok(p))
  {
    assert SET_DATA_FRAME == Amf3.Ascii("@setDataFrame") by { Spelled(); }
    SetFrameFrameIs();
    hide Amf0.Decode, SetFrameFrame, Amf3.Ascii;
    if FirstText(p) == Ok(SET_DATA_FRAME) {
      FrameSpan(p);
    }
  }

  lemma Spelled()
    ensures SET_DATA_FRAME == Amf3.Ascii("@setDataFrame")
  {
  }

  // ------------------------------------------------------------------- crashes

  /** Only a message with the byte that switches to AMF3 in it can panic. */
  lemma NoSwitchNoPanic(p: seq<byte>)
    requires Amf0Meaning.SWITCH !in p
    ensures !Add(p).Panics? && !Del(p).Panics?
  {
    Amf0Meaning.Unswitched(Reader, NO_REFS, p);
    hide Amf0.Decode, SetFrameFrame;
  }

  /**
    A message that starts with a string of AMF3 panics exactly if the integer behind the
    marker is there and even: that is a reference, and there is no string to refer to yet.
   */
  lemma ReferencePanicsIff(s: seq<byte>)
    ensures var p, u := [0x11, 0x06] + s, DecU29(Reader, s, 0, 0).value;
            && (Add(p).Panics? <==> u.Some? && u.value % 2 == 0)
            && (Del(p).Panics? <==> u.Some? && u.value % 2 == 0)
  {
    hide Amf0.Decode, Amf3.Decode, SetFrameFrame, Amf3.DecodeString, DecU29;
    StringPanicsIff(s);
    TextRead(s);
    SwitchRead([0x06] + s);
    assert [0x11, 0x06] + s == [0x11] + ([0x06] + s);
  }

  lemma StringPanicsIff(s: seq<byte>)
    ensures var u := DecU29(Reader, s, 0, 0).value;
            Amf3.DecodeString(Reader, NO_REFS, s).out.Panics? <==> u.Some? && u.value % 2 == 0
  {
    hide DecU29;
  }

  lemma SwitchRead(s: seq<byte>)
    ensures Amf0.Decode(Reader, NO_REFS, [0x11] + s) == Amf3.Decode(Reader, NO_REFS, s)
  {
    Amf0.MarkerRead(Reader, NO_REFS, 0x11, s);
    hide Amf0.Decode, Amf3.Decode, Amf0.DecodeNumber, Amf0.DecodeString, Amf0.DecodeObject, Amf0.DecodeArray, Amf0.DecodeTyped;
  }

  lemma TextRead(s: seq<byte>)
    ensures Amf3.Decode(Reader, NO_REFS, [0x06] + s).out.Panics? <==> Amf3.DecodeString(Reader, NO_REFS, s).out.Panics?
  {
    TakeFront(Reader, [0x06], s);
    hide Amf3.DecodeString, Take;
  }
}
