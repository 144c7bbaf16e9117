/**
  The AMF0 encoder and decoder at work on a writer and a reader: each call
  writes exactly `Amf0.Enc`, or reads exactly what `Amf0.Decode` says.
 */
module Amf0Codec {
  import opened Bytes
  import opened AmfIo
  import opened Amf0
  import Amf3
  import Amf3Codec

  // ------------------------------------------------------------- encoder

  method EncodeAmf0(w: Sink, val: Term) returns (n: nat, ok: bool)
    modifies w
    ensures w.data == old(w.data) + Enc(val) && ok == Encodable(val)
    ensures ok ==> n == |Enc(val)|
    decreases val, 2
  {
    hide EncItems, EncEntries, EncString, BE, AllEncodable, AllValuesEncodable;
    n, ok := 0, true;
    match val
    case Nil => n := w.Write([0x05]);
    case Flag(b) => n := EncodeAmf0Boolean(w, b, true);
    case Float(double) => n := EncodeAmf0Number(w, double, true);
    case Int(_, double) => n := EncodeAmf0Number(w, double, true);
    case String(s) =>
      if |s| <= STRING_MAX {
        n := EncodeAmf0String(w, s, true);
      } else {
        n := EncodeAmf0LongString(w, s, true);
      }
    case Slice(items) => n, ok := EncodeAmf0StrictArray(w, items, true);
    case Map(entries) => n, ok := EncodeAmf0Object(w, entries, true);
    case _ =>
      ok := false;
      assert w.data == w.data + Enc(val);
  }

  function Marked(encodeMarker: bool, m: byte): seq<byte> {
    if encodeMarker then [m] else []
  }

  method EncodeAmf0Number(w: Sink, val: Double, encodeMarker: bool) returns (n: nat)
    modifies w
    ensures w.data == old(w.data) + (Marked(encodeMarker, 0x00) + val)
    ensures n == |val| + if encodeMarker then 1 else 0
  {
    n := 0;
    if encodeMarker {
      n := w.Write([0x00]);
    }
    var m := w.Write(val);
    n := n + m;
  }

  method EncodeAmf0Boolean(w: Sink, val: bool, encodeMarker: bool) returns (n: nat)
    modifies w
    ensures w.data == old(w.data) + (Marked(encodeMarker, 0x01) + [if val then 1 else 0])
    ensures n == 1 + if encodeMarker then 1 else 0
  {
    n := 0;
    if encodeMarker {
      n := w.Write([0x01]);
    }
    var m := w.Write([if val then 0x01 else 0x00]);
    n := n + m;
  }

  method EncodeAmf0String(w: Sink, val: Str, encodeMarker: bool) returns (n: nat)
    modifies w
    ensures w.data == old(w.data) + (Marked(encodeMarker, 0x02) + EncString(val))
    ensures n == |EncString(val)| + if encodeMarker then 1 else 0
  {
    n := 0;
    if encodeMarker {
      n := w.Write([0x02]);
    }
    var m := w.Write(BE(|val|, 2));
    n := n + 2;
    m := w.Write(val);
    n := n + m;
  }

  method EncodeAmf0LongString(w: Sink, val: Str, encodeMarker: bool) returns (n: nat)
    modifies w
    ensures w.data == old(w.data) + (Marked(encodeMarker, 0x0c) + BE(|val|, 4) + val)
    ensures n == 4 + |val| + if encodeMarker then 1 else 0
  {
    n := 0;
    if encodeMarker {
      n := w.Write([0x0c]);
    }
    var m := w.Write(BE(|val|, 4));
    n := n + 4;
    m := w.Write(val);
    n := n + m;
  }

  method EncodeAmf0Object(w: Sink, val: seq<Entry>, encodeMarker: bool) returns (n: nat, ok: bool)
    modifies w
    ensures w.data == old(w.data) + (Marked(encodeMarker, 0x03) + EncEntries(val))
    ensures ok == AllValuesEncodable(val)
    ensures ok ==> n == |Marked(encodeMarker, 0x03) + EncEntries(val)|
    decreases val, 1
  {
    hide Enc, Encodable, EncEntries, AllValuesEncodable, EncString;
    n, ok := 0, true;
    if encodeMarker {
      n := w.Write([0x03]);
    }
    ghost var goal := old(w.data) + (Marked(encodeMarker, 0x03) + EncEntries(val));
    var i := 0;
    assert val[0..] == val;
    while i < |val|
      invariant 0 <= i <= |val|
      invariant w.data + EncEntries(val[i..]) == goal
      invariant AllValuesEncodable(val) == AllValuesEncodable(val[i..])
      invariant n + |EncEntries(val[i..])| == |Marked(encodeMarker, 0x03) + EncEntries(val)|
    {
      assert val[i..][0] == val[i] && val[i..][1..] == val[i + 1..];
      EntryWritten(w.data, val[i..]);
      var m := EncodeAmf0String(w, val[i].key, false);
      n := n + m;
      m, ok := EncodeAmf0(w, val[i].value);
      if !ok {
        return;
      }
      n := n + m;
      i := i + 1;
    }
    assert val[i..] == [];
    EntriesEnd(w.data);
    var m := EncodeAmf0String(w, [], false);
    n := n + m;
    m := w.Write([0x09]);
    n := n + 1;
  }

  lemma EntryWritten(was: seq<byte>, entries: seq<Entry>)
    requires entries != []
    ensures var e := entries[0];
            var front := EncString(e.key) + Enc(e.value);
            was + ([] + EncString(e.key)) + Enc(e.value) == was + front &&
            AllValuesEncodable(entries) == (Encodable(e.value) && AllValuesEncodable(entries[1..])) &&
            (if Encodable(e.value) then
               was + EncEntries(entries) == was + front + EncEntries(entries[1..]) &&
               |EncEntries(entries)| == |front| + |EncEntries(entries[1..])|
             else EncEntries(entries) == front)
  {
    hide Enc, EncString;
  }

  lemma EntriesEnd(was: seq<byte>)
    ensures EncEntries([]) == EncString([]) + [0x09] && AllValuesEncodable([])
    ensures was + ([] + EncString([])) + [0x09] == was + EncEntries([])
  {
  }

  method EncodeAmf0StrictArray(w: Sink, val: seq<Term>, encodeMarker: bool) returns (n: nat, ok: bool)
    modifies w
    ensures w.data == old(w.data) + (Marked(encodeMarker, 0x0a) + BE(|val|, 4) + EncItems(val))
    ensures ok == AllEncodable(val)
    ensures ok ==> n == |Marked(encodeMarker, 0x0a) + BE(|val|, 4) + EncItems(val)|
    decreases val, 1
  {
    hide Enc, Encodable, EncItems, AllEncodable, BE;
    n, ok := 0, true;
    if encodeMarker {
      n := w.Write([0x0a]);
    }
    var m := w.Write(BE(|val|, 4));
    n := n + 4;
    ghost var goal := old(w.data) + (Marked(encodeMarker, 0x0a) + BE(|val|, 4) + EncItems(val));
    var i := 0;
    assert val[0..] == val;
    while i < |val|
      invariant 0 <= i <= |val|
      invariant w.data + EncItems(val[i..]) == goal
      invariant AllEncodable(val) == AllEncodable(val[i..])
      invariant n + |EncItems(val[i..])| == |Marked(encodeMarker, 0x0a) + BE(|val|, 4) + EncItems(val)|
    {
      assert val[i..][0] == val[i] && val[i..][1..] == val[i + 1..];
      ItemWritten(w.data, val[i..]);
      m, ok := EncodeAmf0(w, val[i]);
      if !ok {
        return;
      }
      n := n + m;
      i := i + 1;
    }
    assert val[i..] == [];
    ItemsEnd(w.data);
  }

  lemma ItemWritten(was: seq<byte>, items: seq<Term>)
    requires items != []
    ensures AllEncodable(items) == (Encodable(items[0]) && AllEncodable(items[1..]))
    ensures Encodable(items[0]) ==> was + EncItems(items) == was + Enc(items[0]) + EncItems(items[1..])
    ensures Encodable(items[0]) ==> |EncItems(items)| == |Enc(items[0])| + |EncItems(items[1..])|
    ensures !Encodable(items[0]) ==> EncItems(items) == Enc(items[0])
  {
    hide Enc;
  }

  lemma ItemsEnd(was: seq<byte>)
    ensures was + EncItems([]) == was && |EncItems([])| == 0 && AllEncodable([])
  {
  }

  /** Encodes values one after another, up to the first that cannot be. */
  method EncodeBatch(w: Sink, vals: seq<Term>) returns (ok: bool)
    modifies w
    ensures w.data == old(w.data) + EncItems(vals) && ok == AllEncodable(vals)
  {
    hide Enc, Encodable, EncItems, AllEncodable;
    var i := 0;
    assert vals[0..] == vals;
    while i < |vals|
      invariant 0 <= i <= |vals|
      invariant w.data + EncItems(vals[i..]) == old(w.data) + EncItems(vals)
      invariant AllEncodable(vals) == AllEncodable(vals[i..])
    {
      assert vals[i..][0] == vals[i] && vals[i..][1..] == vals[i + 1..];
      ItemWritten(w.data, vals[i..]);
      var n;
      n, ok := EncodeAmf0(w, vals[i]);
      if !ok {
        return;
      }
      i := i + 1;
    }
    assert vals[i..] == [];
    ItemsEnd(w.data);
    ok := true;
  }

  // ------------------------------------------------------------- decoder

  /** The value, the cursor and, as AMF3 can be switched to anywhere, its reference tables. */
  method DecodeAmf0(d: Amf3Codec.Decoder, r: Source) returns (out: Outcome<Value>)
    requires r.Valid()
    modifies d, r`at
    ensures r.Valid() && Decode(r.kind, old(d.Known()), old(r.Rest())) == Decoding(out, r.Rest(), d.Known())
    decreases |r.Rest()|, 0
  {
    var marker, ok := r.ReadByte();
    if !ok {
      return Failed;
    }
    out := DecodeAmf0Body(d, r, marker);
  }

  method DecodeAmf0Body(d: Amf3Codec.Decoder, r: Source, marker: byte) returns (out: Outcome<Value>)
    requires r.Valid()
    modifies d, r`at
    ensures r.Valid()
    ensures DecodeBody(r.kind, old(d.Known()), marker, old(r.Rest())) == Decoding(out, r.Rest(), d.Known())
    decreases |r.Rest()|, 4
  {
    hide DecodeNumber, DecodeBoolean, DecodeString, DecodeObject, DecodeArray, DecodeDate, DecodeTyped, Amf3.Decode;
    if marker == 0x00 {
      var v := DecodeAmf0Number(r);
      out := Result(v);
    } else if marker == 0x01 {
      var v := DecodeAmf0Boolean(r);
      out := Result(v);
    } else if marker == 0x02 {
      var s := DecodeAmf0String(r);
      out := if s.Some? then Ok(Text(s.value)) else Failed;
    } else if marker == 0x03 {
      var o := DecodeAmf0Object(d, r);
      out := if o.Ok? then Ok(Object(o.value)) else Pass(o);
    } else if marker == 0x05 || marker == 0x06 || marker == 0x0d {
      out := Ok(Null);
    } else if marker == 0x08 {
      out := DecodeAmf0EcmaArray(d, r);
    } else if marker == 0x0a {
      out := DecodeAmf0StrictArray(d, r);
    } else if marker == 0x0b {
      var v := DecodeAmf0Date(r);
      out := Result(v);
    } else if marker == 0x0c || marker == 0x0f {
      var s := DecodeAmf0LongString(r);
      out := if s.Some? then Ok(Text(s.value)) else Failed;
    } else if marker == 0x10 {
      out := DecodeAmf0TypedObject(d, r);
    } else if marker == 0x11 {
      out := d.DecodeAmf3(r);
    } else {
      out := Failed;
    }
  }

  function Result<T>(v: Option<T>): Outcome<T> {
    if v.Some? then Ok(v.value) else Failed
  }

  method DecodeAmf0Number(r: Source) returns (v: Option<Value>)
    requires r.Valid()
    modifies r`at
    ensures r.Valid() && DecodeNumber(r.kind, old(r.Rest())) == Decoded(v, r.Rest())
  {
    var bytes, ok := r.ReadBytes(8);
    v := if ok then Some(Number(bytes[..])) else None;
  }

  method DecodeAmf0Boolean(r: Source) returns (v: Option<Value>)
    requires r.Valid()
    modifies r`at
    ensures r.Valid() && DecodeBoolean(r.kind, old(r.Rest())) == Decoded(v, r.Rest())
  {
    var b, ok := r.ReadByte();
    if !ok {
      v := None;
    } else if b == 0 {
      v := Some(Bool(false));
    } else if b == 1 {
      v := Some(Bool(true));
    } else {
      v := None;
    }
  }

  method DecodeAmf0String(r: Source) returns (s: Option<Str>)
    requires r.Valid()
    modifies r`at
    ensures r.Valid() && DecodeString(r.kind, old(r.Rest()), 2) == Decoded(s, r.Rest())
  {
    var length, ok := r.ReadBytes(2);
    if !ok {
      return None;
    }
    var bytes, read := r.ReadBytes(FromBE(length[..]));
    s := if read then Some(bytes[..]) else None;
  }

  method DecodeAmf0LongString(r: Source) returns (s: Option<Str>)
    requires r.Valid()
    modifies r`at
    ensures r.Valid() && DecodeString(r.kind, old(r.Rest()), 4) == Decoded(s, r.Rest())
  {
    var length, ok := r.ReadBytes(4);
    if !ok {
      return None;
    }
    var bytes, read := r.ReadBytes(FromBE(length[..]));
    s := if read then Some(bytes[..]) else None;
  }

  method DecodeAmf0Object(d: Amf3Codec.Decoder, r: Source) returns (o: Outcome<map<Str, Value>>)
    requires r.Valid()
    modifies d, r`at
    ensures r.Valid() && DecodeObject(r.kind, old(d.Known()), old(r.Rest()), map[]) == Decoding(o, r.Rest(), d.Known())
    decreases |r.Rest()|, 1
  {
    hide Take, DecodeString, Decode;
    var result: map<Str, Value> := map[];
    while true
      invariant r.Valid() && |r.Rest()| <= |old(r.Rest())|
      invariant DecodeObject(r.kind, d.Known(), r.Rest(), result)
             == DecodeObject(r.kind, old(d.Known()), old(r.Rest()), map[])
      decreases |r.Rest()|
    {
      var key := DecodeAmf0String(r);
      if key.None? {
        return Failed;
      }
      if key.value == [] {
        var end := r.AssertMarker(true, 0x09);
        return if end then Ok(result) else Failed;
      }
      var value := DecodeAmf0(d, r);
      if !value.Ok? {
        return Pass(value);
      }
      result := result[key.value := value.value];
    }
  }

  /** The length in front of an ECMA array is read and ignored, even when it is not there. */
  method DecodeAmf0EcmaArray(d: Amf3Codec.Decoder, r: Source) returns (out: Outcome<Value>)
    requires r.Valid()
    modifies d, r`at
    ensures r.Valid()
    ensures AsObject(DecodeObject(r.kind, old(d.Known()), Take(r.kind, old(r.Rest()), 4).rest, map[]))
         == Decoding(out, r.Rest(), d.Known())
    decreases |r.Rest()|, 3
  {
    hide DecodeObject;
    var length, ok := r.ReadBytes(4);
    var o := DecodeAmf0Object(d, r);
    out := if o.Ok? then Ok(Object(o.value)) else Pass(o);
  }

  method DecodeAmf0StrictArray(d: Amf3Codec.Decoder, r: Source) returns (out: Outcome<Value>)
    requires r.Valid()
    modifies d, r`at
    ensures r.Valid() && DecodeArray(r.kind, old(d.Known()), old(r.Rest())) == Decoding(out, r.Rest(), d.Known())
    decreases |r.Rest()|, 3
  {
    hide Decode;
    var bytes, ok := r.ReadBytes(4);
    if !ok {
      return Failed;
    }
    var length := FromBE(bytes[..]);
    ghost var start := r.Rest();
    var result: seq<Value> := [];
    for i := 0 to length
      invariant r.Valid() && |r.Rest()| <= |start|
      invariant DecodeItems(r.kind, d.Known(), r.Rest(), length - i, result)
             == DecodeItems(r.kind, old(d.Known()), start, length, [])
    {
      var tmp := DecodeAmf0(d, r);
      if !tmp.Ok? {
        return Pass(tmp);
      }
      result := result + [tmp.value];
    }
    out := Ok(Array(result));
  }

  method DecodeAmf0Date(r: Source) returns (v: Option<Value>)
    requires r.Valid()
    modifies r`at
    ensures r.Valid() && DecodeDate(r.kind, old(r.Rest())) == Decoded(v, r.Rest())
  {
    v := DecodeAmf0Number(r);
    if v.Some? {
      var zone, ok := r.ReadBytes(2);
      if !ok {
        v := None;
      }
    }
  }

  method DecodeAmf0TypedObject(d: Amf3Codec.Decoder, r: Source) returns (out: Outcome<Value>)
    requires r.Valid()
    modifies d, r`at
    ensures r.Valid() && DecodeTyped(r.kind, old(d.Known()), old(r.Rest())) == Decoding(out, r.Rest(), d.Known())
    decreases |r.Rest()|, 3
  {
    hide DecodeString, DecodeObject;
    var name := DecodeAmf0String(r);
    if name.None? {
      return Failed;
    }
    var o := DecodeAmf0Object(d, r);
    out := if o.Ok? then Ok(TypedObject(name.value, o.value)) else Pass(o);
  }

  /** Decodes until an error; there always is one, at the end of the input if not before. */
  method DecodeBatch(d: Amf3Codec.Decoder, r: Source) returns (ret: seq<Value>, panics: bool)
    requires r.Valid()
    modifies d, r`at
    ensures r.Valid() && Amf0.DecodeBatch(r.kind, old(d.Known()), old(r.Rest())) == Batch(ret, panics)
  {
    hide Decode, Amf0.DecodeBatch;
    ghost var whole := Amf0.DecodeBatch(r.kind, d.Known(), r.Rest());
    ret := [];
    BatchStep(r.kind, d.Known(), r.Rest());
    var v := DecodeAmf0(d, r);
    while v.Ok?
      invariant r.Valid()
      invariant whole == if v.Ok? then BatchAfter(ret + [v.value], Amf0.DecodeBatch(r.kind, d.Known(), r.Rest()))
                         else Batch(ret, v.Panics?)
      decreases if v.Ok? then |r.Rest()| + 1 else 0
    {
      ret := ret + [v.value];
      BatchStep(r.kind, d.Known(), r.Rest());
      ghost var was, left := d.Known(), r.Rest();
      v := DecodeAmf0(d, r);
      if v.Ok? {
        MoreAfter(ret, v.value, Amf0.DecodeBatch(r.kind, d.Known(), r.Rest()));
      }
    }
    panics := v.Panics?;
  }

  ghost function BatchAfter(ret: seq<Value>, more: Batch): Batch {
    Batch(ret + more.values, more.panics)
  }

  lemma MoreAfter(ret: seq<Value>, v: Value, more: Batch)
    ensures BatchAfter(ret, After(v, more)) == BatchAfter(ret + [v], more)
  {
    assert ret + ([v] + more.values) == ret + [v] + more.values;
  }

  /** What is encoded is what is decoded: the two halves of the codec, back to back. */
  method EncodeAndDecode(val: Term) returns (out: Outcome<Value>)
    requires Fits(val)
    ensures out == Ok(Image(val))
  {
    var w := new Sink();
    var n, ok := EncodeAmf0(w, val);
    RoundTrip(Buffer, NO_REFS, val, []);
    assert Enc(val) + [] == Enc(val);
    var d := new Amf3Codec.Decoder();
    var r := new Source(Buffer, w.data);
    out := DecodeAmf0(d, r);
  }
}
