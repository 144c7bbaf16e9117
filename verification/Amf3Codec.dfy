/**
  The AMF3 encoder and decoder at work: each call writes exactly `Amf3.Enc`, or
  reads and remembers exactly what `Amf3.Decode` says.
 */
module Amf3Codec {
  import opened Bytes
  import opened AmfIo
  import opened Uint29
  import opened Amf3
  import opened Amf3RoundTrip

  // ------------------------------------------------------------- encoder

  method EncodeAmf3Uint29(w: Sink, val: nat) returns (n: nat, ok: bool)
    modifies w
    ensures w.data == old(w.data) + EncU29(val) && ok == U29Ok(val) && n == |EncU29(val)|
  {
    ok := true;
    if val <= 0x7f {
      n := w.Write([val]);
    } else if val <= 0x3fff {
      n := w.Write([Digit(val, 0x80) + 0x80, Digit(val, 1)]);
    } else if val <= 0x1f_ffff {
      n := w.Write([Digit(val, 0x4000) + 0x80, Digit(val, 0x80) + 0x80, Digit(val, 1)]);
    } else if val <= INTEGER_MAX {
      n := w.Write([Digit(val, 0x40_0000) + 0x80, Digit(val, 0x8000) + 0x80, Digit(val, 0x100) + 0x80, val % 0x100]);
    } else {
      n, ok := 0, false;
    }
  }

  method EncodeAmf3Utf8(w: Sink, val: Str) returns (n: nat, ok: bool)
    modifies w
    ensures w.data == old(w.data) + Utf8(val) && ok == Utf8Ok(val) && n == |Utf8(val)|
  {
    n, ok := EncodeAmf3Uint29(w, LengthWord(|val|));
    if ok {
      var m := w.Write(val);
      n := n + m;
    }
  }

  method EncodeAmf3Double(w: Sink, val: Double) returns (n: nat)
    modifies w
    ensures w.data == old(w.data) + ([0x05] + val) && n == 9
  {
    n := w.Write([0x05]);
    var m := w.Write(val);
    n := n + m;
  }

  method EncodeAmf3Date(w: Sink, ms: Double) returns (n: nat)
    modifies w
    ensures w.data == old(w.data) + ([0x08, 0x01] + ms) && n == 10
  {
    n := w.Write([0x08]);
    var m := w.Write([0x01]);
    n := n + m;
    m := w.Write(ms);
    n := n + m;
  }

  method EncodeAmf3Integer(w: Sink, val: nat) returns (n: nat, ok: bool)
    modifies w
    ensures w.data == old(w.data) + ([0x04] + EncU29(val)) && ok == U29Ok(val) && n == 1 + |EncU29(val)|
  {
    n := w.Write([0x04]);
    var m;
    m, ok := EncodeAmf3Uint29(w, val);
    n := n + m;
  }

  method EncodeAmf3String(w: Sink, val: Str) returns (n: nat, ok: bool)
    modifies w
    ensures w.data == old(w.data) + ([0x06] + Utf8(val)) && ok == Utf8Ok(val) && n == 1 + |Utf8(val)|
  {
    n := w.Write([0x06]);
    var m;
    m, ok := EncodeAmf3Utf8(w, val);
    n := n + m;
  }

  method EncodeAmf3(w: Sink, val: Term) returns (n: nat, ok: bool)
    modifies w
    ensures w.data == old(w.data) + Enc(val) && ok == Encodable(val) && (ok ==> n == |Enc(val)|)
    decreases Size(val), 3
  {
    hide EncU29, Utf8, Utf8Ok, EncItems, EncObject, Sort, AllEncodable, ObjectEncodable, LengthWord;
    n, ok := 0, true;
    match val
    case Nil => n := w.Write([0x01]);
    case Flag(b) => n := w.Write([if b then 0x03 else 0x02]);
    case Float(double) => n := EncodeAmf3Double(w, double);
    case Int(i, double) =>
      if 0 <= i <= INTEGER_MAX {
        n, ok := EncodeAmf3Integer(w, i);
      } else {
        n := EncodeAmf3Double(w, double);
      }
    case String(s) => n, ok := EncodeAmf3String(w, s);
    case Slice(items) => n, ok := EncodeAmf3Array(w, items);
    case Map(entries) => n, ok := EncodeAmf3Object(w, [], entries);
    case Typed(name, entries) => n, ok := EncodeAmf3Object(w, name, entries);
    case Moment(ms) => n := EncodeAmf3Date(w, ms);
    case Other =>
      ok := false;
      assert w.data == w.data + Enc(val);
  }

  method EncodeAmf3Array(w: Sink, val: seq<Term>) returns (n: nat, ok: bool)
    modifies w
    ensures w.data == old(w.data) + Enc(Slice(val)) && ok == Encodable(Slice(val)) && (ok ==> n == |Enc(Slice(val))|)
    decreases ItemsSize(val), 1
  {
    hide EncU29, Utf8, EncItems, Enc, Encodable, AllEncodable, Size, ItemsSize, LengthWord;
    n := w.Write([0x09]);
    var m;
    m, ok := EncodeAmf3Uint29(w, LengthWord(|val|));
    ArrayWritten(old(w.data), val);
    if !ok {
      return;
    }
    n := n + m;
    m, ok := EncodeAmf3Utf8(w, []);
    n := n + m;
    m, ok := EncodeItems(w, val);
    n := n + m;
  }

  lemma ArrayWritten(was: seq<byte>, items: seq<Term>)
    ensures var u := EncU29(LengthWord(|items|));
            if U29Ok(LengthWord(|items|)) then
              was + Enc(Slice(items)) == was + [0x09] + u + Utf8([]) + EncItems(items) &&
              |Enc(Slice(items))| == 1 + |u| + |Utf8([])| + |EncItems(items)| &&
              Encodable(Slice(items)) == AllEncodable(items)
            else was + Enc(Slice(items)) == was + [0x09] + u && !Encodable(Slice(items))
    ensures Utf8Ok([])
  {
    hide EncU29, Utf8, EncItems, AllEncodable, Enc;
    if U29Ok(LengthWord(|items|)) {
      ArrayUnfold(items, []);
      hide LengthWord, U29Ok;
      assert Enc(Slice(items)) + [] == Enc(Slice(items)) && EncItems(items) + [] == EncItems(items);
      var u := EncU29(LengthWord(|items|));
      assert was + ([0x09] + (u + (Utf8([]) + EncItems(items)))) == was + [0x09] + u + Utf8([]) + EncItems(items);
    } else {
      TooLong(items);
      assert was + ([0x09] + EncU29(LengthWord(|items|))) == was + [0x09] + EncU29(LengthWord(|items|));
    }
  }

  lemma TooLong(items: seq<Term>)
    requires !U29Ok(LengthWord(|items|))
    ensures Enc(Slice(items)) == [0x09] + EncU29(LengthWord(|items|))
  {
    hide EncU29, LengthWord, U29Ok;
  }

  method EncodeItems(w: Sink, val: seq<Term>) returns (n: nat, ok: bool)
    modifies w
    ensures w.data == old(w.data) + EncItems(val) && ok == AllEncodable(val) && (ok ==> n == |EncItems(val)|)
    decreases ItemsSize(val), 0
  {
    hide Enc, Encodable, EncItems, AllEncodable, Size;
    n, ok := 0, true;
    var i := 0;
    assert val[0..] == val;
    while i < |val|
      invariant 0 <= i <= |val| && ItemsSize(val[i..]) <= ItemsSize(val)
      invariant w.data + EncItems(val[i..]) == old(w.data) + EncItems(val)
      invariant AllEncodable(val) == AllEncodable(val[i..])
      invariant n + |EncItems(val[i..])| == |EncItems(val)|
    {
      assert val[i..][0] == val[i] && val[i..][1..] == val[i + 1..];
      ItemWritten(w.data, val[i..]);
      var m;
      m, ok := EncodeAmf3(w, val[i]);
      if !ok {
        return;
      }
      n := n + m;
      i := i + 1;
    }
    assert val[i..] == [];
    ItemsEnd(w.data);
    ok := true;
  }

  lemma ItemWritten(was: seq<byte>, items: seq<Term>)
    requires items != []
    ensures AllEncodable(items) == (Encodable(items[0]) && AllEncodable(items[1..]))
    ensures Encodable(items[0]) ==> was + EncItems(items) == was + Enc(items[0]) + EncItems(items[1..])
    ensures Encodable(items[0]) ==> |EncItems(items)| == |Enc(items[0])| + |EncItems(items[1..])|
    ensures !Encodable(items[0]) ==> EncItems(items) == Enc(items[0])
  {
    hide Enc;
  }

  lemma ItemsEnd(was: seq<byte>)
    ensures was + EncItems([]) == was && |EncItems([])| == 0 && AllEncodable([])
  {
  }

  /** Insertion sort by key, the standard library's sort for all that can be seen of it. */
  method SortByKey(entries: seq<Entry>) returns (sorted: seq<Entry>)
    ensures sorted == Sort(entries)
  {
    hide Insert, Size, TotalSize;
    sorted := [];
    var i := |entries|;
    while i > 0
      invariant 0 <= i <= |entries| && sorted == Sort(entries[i..])
    {
      i := i - 1;
      assert entries[i..][0] == entries[i] && entries[i..][1..] == entries[i + 1..];
      sorted := InsertByKey(entries[i], sorted);
    }
    assert entries[0..] == entries;
  }

  method InsertByKey(e: Entry, sorted: seq<Entry>) returns (r: seq<Entry>)
    ensures r == Insert(e, sorted)
  {
    hide Less, Size, TotalSize;
    var j := 0;
    assert sorted[..0] + Insert(e, sorted[0..]) == Insert(e, sorted) by {
      assert sorted[0..] == sorted;
    }
    while j < |sorted| && Less(sorted[j].key, e.key)
      invariant 0 <= j <= |sorted|
      invariant sorted[..j] + Insert(e, sorted[j..]) == Insert(e, sorted)
    {
      InsertFurther(e, sorted, j);
      j := j + 1;
    }
    r := sorted[..j] + [e] + sorted[j..];
    assert r == sorted[..j] + ([e] + sorted[j..]);
  }

  lemma InsertFurther(e: Entry, sorted: seq<Entry>, j: nat)
    requires j < |sorted| && Less(sorted[j].key, e.key)
    ensures sorted[..j] + Insert(e, sorted[j..]) == sorted[..j + 1] + Insert(e, sorted[j + 1..])
  {
    hide Less, Size, TotalSize;
    assert sorted[j..][1..] == sorted[j + 1..];
    assert sorted[..j] + [sorted[j]] == sorted[..j + 1];
  }

  method EncodeAmf3Object(w: Sink, name: Str, val: seq<Entry>) returns (n: nat, ok: bool)
    modifies w
    ensures w.data == old(w.data) + ([0x0a] + EncObject(name, Sort(val)))
    ensures ok == ObjectEncodable(name, val) && (ok ==> n == 1 + |EncObject(name, Sort(val))|)
    decreases TotalSize(val), 1
  {
    hide EncU29, Utf8, Utf8Ok, EncKeys, EncValues, KeysEncodable, ValuesEncodable, Size, TotalSize, TraitWord, EncObject, Sort;
    n := w.Write([0x0a]);
    var properties := SortByKey(val);
    SortEncodable(val);
    ObjectWritten(old(w.data), name, properties);
    var m;
    m, ok := EncodeAmf3Uint29(w, TraitWord(|properties|));
    if !ok {
      return;
    }
    n := n + m;
    m, ok := EncodeAmf3Utf8(w, name);
    if !ok {
      return;
    }
    n := n + m;
    m, ok := EncodeKeys(w, properties);
    if !ok {
      return;
    }
    n := n + m;
    m, ok := EncodeValues(w, properties);
    n := n + m;
  }

  lemma ObjectWritten(was: seq<byte>, name: Str, sorted: seq<Entry>)
    ensures var word := TraitWord(|sorted|);
            var front := was + [0x0a] + EncU29(word);
            var whole := was + ([0x0a] + EncObject(name, sorted));
            if !U29Ok(word) then whole == front
            else if !Utf8Ok(name) then whole == front + Utf8(name)
            else if !KeysEncodable(sorted) then whole == front + Utf8(name) + EncKeys(sorted)
            else whole == front + Utf8(name) + EncKeys(sorted) + EncValues(sorted) &&
                 |EncObject(name, sorted)| == |EncU29(word)| + |Utf8(name)| + |EncKeys(sorted)| + |EncValues(sorted)|
  {
    hide EncU29, Utf8, EncKeys, EncValues, TraitWord, U29Ok, Utf8Ok, KeysEncodable;
  }

  lemma {:induction false} SortEncodable(entries: seq<Entry>)
    ensures KeysEncodable(Sort(entries)) == KeysEncodable(entries)
    ensures ValuesEncodable(Sort(entries)) == ValuesEncodable(entries)
    decreases |entries|
  {
    if entries != [] {
      SortEncodable(entries[1..]);
      InsertEncodable(entries[0], Sort(entries[1..]));
    }
  }

  lemma {:induction false} InsertEncodable(e: Entry, sorted: seq<Entry>)
    ensures KeysEncodable(Insert(e, sorted)) == (Utf8Ok(e.key) && KeysEncodable(sorted))
    ensures ValuesEncodable(Insert(e, sorted)) == (Encodable(e.value) && ValuesEncodable(sorted))
    decreases |sorted|
  {
    hide Utf8Ok, Encodable, Less, Size, TotalSize;
    var r := Insert(e, sorted);
    if r == [e] + sorted {
      assert r[1..] == sorted;
    } else {
      InsertEncodable(e, sorted[1..]);
      assert r[1..] == Insert(e, sorted[1..]);
    }
  }

  method EncodeKeys(w: Sink, properties: seq<Entry>) returns (n: nat, ok: bool)
    modifies w
    ensures w.data == old(w.data) + EncKeys(properties) && ok == KeysEncodable(properties)
    ensures ok ==> n == |EncKeys(properties)|
  {
    hide Utf8, Utf8Ok, EncKeys, KeysEncodable;
    n, ok := 0, true;
    var i := 0;
    assert properties[0..] == properties;
    while i < |properties|
      invariant 0 <= i <= |properties|
      invariant w.data + EncKeys(properties[i..]) == old(w.data) + EncKeys(properties)
      invariant KeysEncodable(properties) == KeysEncodable(properties[i..])
      invariant n + |EncKeys(properties[i..])| == |EncKeys(properties)|
    {
      assert properties[i..][0] == properties[i] && properties[i..][1..] == properties[i + 1..];
      KeyWritten(w.data, properties[i..]);
      var m;
      m, ok := EncodeAmf3Utf8(w, properties[i].key);
      if !ok {
        return;
      }
      n := n + m;
      i := i + 1;
    }
    assert properties[i..] == [];
    ObjectEnd(w.data);
    ok := true;
  }

  lemma KeyWritten(was: seq<byte>, sorted: seq<Entry>)
    requires sorted != []
    ensures KeysEncodable(sorted) == (Utf8Ok(sorted[0].key) && KeysEncodable(sorted[1..]))
    ensures Utf8Ok(sorted[0].key) ==> was + EncKeys(sorted) == was + Utf8(sorted[0].key) + EncKeys(sorted[1..])
    ensures Utf8Ok(sorted[0].key) ==> |EncKeys(sorted)| == |Utf8(sorted[0].key)| + |EncKeys(sorted[1..])|
    ensures !Utf8Ok(sorted[0].key) ==> EncKeys(sorted) == Utf8(sorted[0].key)
  {
    hide Utf8, Utf8Ok;
  }

  lemma ObjectEnd(was: seq<byte>)
    ensures was + EncKeys([]) == was && |EncKeys([])| == 0 && KeysEncodable([])
    ensures was + EncValues([]) == was && |EncValues([])| == 0 && ValuesEncodable([])
  {
  }

  method EncodeValues(w: Sink, properties: seq<Entry>) returns (n: nat, ok: bool)
    modifies w
    ensures w.data == old(w.data) + EncValues(properties) && ok == ValuesEncodable(properties)
    ensures ok ==> n == |EncValues(properties)|
    decreases TotalSize(properties), 0
  {
    hide Enc, Encodable, EncValues, ValuesEncodable, Size;
    n, ok := 0, true;
    var i := 0;
    assert properties[0..] == properties;
    while i < |properties|
      invariant 0 <= i <= |properties| && TotalSize(properties[i..]) <= TotalSize(properties)
      invariant w.data + EncValues(properties[i..]) == old(w.data) + EncValues(properties)
      invariant ValuesEncodable(properties) == ValuesEncodable(properties[i..])
      invariant n + |EncValues(properties[i..])| == |EncValues(properties)|
    {
      assert properties[i..][0] == properties[i] && properties[i..][1..] == properties[i + 1..];
      ValueWritten(w.data, properties[i..]);
      var m;
      m, ok := EncodeAmf3(w, properties[i].value);
      if !ok {
        return;
      }
      n := n + m;
      i := i + 1;
    }
    assert properties[i..] == [];
    ObjectEnd(w.data);
    ok := true;
  }

  lemma ValueWritten(was: seq<byte>, sorted: seq<Entry>)
    requires sorted != []
    ensures var v := sorted[0].value;
            ValuesEncodable(sorted) == (Encodable(v) && ValuesEncodable(sorted[1..])) &&
            (Encodable(v) ==> was + EncValues(sorted) == was + Enc(v) + EncValues(sorted[1..]) &&
                              |EncValues(sorted)| == |Enc(v)| + |EncValues(sorted[1..])|) &&
            (!Encodable(v) ==> EncValues(sorted) == Enc(v))
  {
    hide Enc;
  }

  // ------------------------------------------------------------- decoder

  method DecodeU29(r: Source) returns (result: Option<nat>)
    requires r.Valid()
    modifies r`at
    ensures r.Valid() && DecU29(r.kind, old(r.Rest()), 0, 0) == Decoded(result, r.Rest())
  {
    hide Shifted, DecU29;
    var acc: nat := 0;
    for i := 0 to 3
      invariant r.Valid() && DecU29(r.kind, r.Rest(), i, acc) == DecU29(r.kind, old(r.Rest()), 0, 0)
    {
      DecU29Step(r.kind, r.Rest(), i, acc);
      var b, ok := r.ReadByte();
      if !ok {
        return None;
      }
      if b < 0x80 {
        return Some(Shifted(acc, i, b));
      }
      acc := Shifted(acc, i, b - 0x80);
    }
    DecU29Step(r.kind, r.Rest(), 3, acc);
    var b, ok := r.ReadByte();
    result := if ok then Some(Shifted(acc, 3, b)) else None;
  }

  lemma DecU29Step(kind: Kind, s: seq<byte>, i: nat, acc: nat)
    requires i <= 3
    ensures var next := Take(kind, s, 1);
            if next.value.None? then DecU29(kind, s, i, acc) == Decoded(None, next.rest)
            else
              var b := next.value.value[0] as int;
              if i == 3 || b < 0x80 then DecU29(kind, s, i, acc) == Decoded(Some(Shifted(acc, i, b)), next.rest)
              else DecU29(kind, s, i, acc) == DecU29(kind, next.rest, i + 1, Shifted(acc, i, b - 0x80))
  {
    hide Shifted, Take;
  }

  /** The decoder and the tables it fills as it reads. */
  class Decoder {
    var stringRefs: seq<Str>
    var objectRefs: seq<Value>
    var traitRefs: seq<Trait>

    constructor ()
      ensures Known() == NO_REFS
    {
      stringRefs, objectRefs, traitRefs := [], [], [];
    }

    function Known(): Refs
      reads this
    {
      Refs(stringRefs, objectRefs, traitRefs)
    }

    method DecodeAmf3(r: Source) returns (out: Outcome<Value>)
      requires r.Valid()
      modifies this, r`at
      ensures r.Valid() && Decode(r.kind, old(Known()), old(r.Rest())) == Decoding(out, r.Rest(), Known())
      decreases |r.Rest()|, 0
    {
      var marker, ok := r.ReadByte();
      if !ok {
        return Failed;
      }
      out := DecodeMarked(r, marker);
    }

    method DecodeMarked(r: Source, marker: byte) returns (out: Outcome<Value>)
      requires r.Valid()
      modifies this, r`at
      ensures r.Valid() && DecodeBody(r.kind, old(Known()), marker, old(r.Rest())) == Decoding(out, r.Rest(), Known())
      decreases |r.Rest()|, 6
    {
      hide DecodeInteger, DecodeDouble, DecodeString, DecodeXml, DecodeDate, DecodeArray, DecodeObject, DecodeByteArray;
      if marker <= 0x01 {
        out := Ok(Null);
      } else if marker <= 0x03 {
        out := Ok(Bool(marker == 0x03));
      } else if marker == 0x04 {
        out := DecodeAmf3Integer(r);
      } else if marker == 0x05 {
        out := DecodeAmf3Double(r);
      } else if marker == 0x06 {
        var s := DecodeAmf3String(r);
        out := if s.Ok? then Ok(Text(s.value)) else Pass(s);
      } else if marker == 0x07 || marker == 0x0b {
        out := DecodeAmf3Xml(r);
      } else if marker == 0x08 {
        out := DecodeAmf3Date(r);
      } else if marker == 0x09 {
        out := DecodeAmf3Array(r);
      } else if marker == 0x0a {
        out := DecodeAmf3Object(r);
      } else if marker == 0x0c {
        out := DecodeAmf3ByteArray(r);
      } else {
        out := Failed;
      }
    }

    method DecodeAmf3Integer(r: Source) returns (out: Outcome<Value>)
      requires r.Valid()
      modifies r`at
      ensures r.Valid() && DecodeInteger(r.kind, Known(), old(r.Rest())) == Decoding(out, r.Rest(), Known())
    {
      var u29 := DecodeU29(r);
      if u29.None? {
        return Failed;
      }
      var result: int := u29.value;
      if result > 0xfff_ffff {
        result := result - 0x2000_0000;
      }
      out := Ok(Integer(result));
    }

    method DecodeAmf3Double(r: Source) returns (out: Outcome<Value>)
      requires r.Valid()
      modifies r`at
      ensures r.Valid() && DecodeDouble(r.kind, Known(), old(r.Rest())) == Decoding(out, r.Rest(), Known())
    {
      var bytes, ok := r.ReadBytes(8);
      out := if ok then Ok(Number(bytes[..])) else Failed;
    }

    /** One Read is taken for the whole string; what it leaves unfilled stays zero. */
    method DecodeAmf3String(r: Source) returns (out: Outcome<Str>)
      requires r.Valid()
      modifies this`stringRefs, r`at
      ensures r.Valid() && DecodeString(r.kind, old(Known()), old(r.Rest())) == Decoding(out, r.Rest(), Known())
    {
      hide DecU29;
      var u29 := DecodeU29(r);
      if u29.None? {
        return Failed;
      }
      var refVal := u29.value / 2;
      if u29.value % 2 == 0 {
        return if refVal < |stringRefs| then Ok(stringRefs[refVal]) else Panics;
      }
      ghost var left := r.Rest();
      var buf := new byte[refVal](_ => 0);
      var m, eof := r.Read(buf);
      if eof {
        return Failed;
      }
      var result := buf[..];
      assert result == Filled(left[..m], refVal);
      if result != [] {
        stringRefs := stringRefs + [result];
      }
      out := Ok(result);
    }

    method DecodeAmf3Date(r: Source) returns (out: Outcome<Value>)
      requires r.Valid()
      modifies this`objectRefs, r`at
      ensures r.Valid() && DecodeDate(r.kind, old(Known()), old(r.Rest())) == Decoding(out, r.Rest(), Known())
    {
      hide DecU29;
      var u29 := DecodeU29(r);
      if u29.None? {
        return Failed;
      }
      if u29.value % 2 == 0 {
        return Referenced(u29.value / 2, (v: Value) => v.Time?);
      }
      var bytes, ok := r.ReadBytes(8);
      if !ok {
        return Failed;
      }
      var result := Time(bytes[..]);
      objectRefs := objectRefs + [result];
      out := Ok(result);
    }

    /** Looking past the end of the table panics, and the wrong type is an error. */
    function Referenced(refVal: nat, right: Value -> bool): (out: Outcome<Value>)
      reads this
      ensures out == ObjectAt(Known(), refVal, right)
    {
      if refVal >= |objectRefs| then Panics
      else
        var res := objectRefs[refVal];
        if right(res) then Ok(res) else Failed
    }

    method DecodeAmf3Xml(r: Source) returns (out: Outcome<Value>)
      requires r.Valid()
      modifies this`objectRefs, r`at
      ensures r.Valid() && DecodeXml(r.kind, old(Known()), old(r.Rest())) == Decoding(out, r.Rest(), Known())
    {
      hide DecU29;
      var u29 := DecodeU29(r);
      if u29.None? {
        return Failed;
      }
      var refVal := u29.value / 2;
      if u29.value % 2 == 0 {
        return Referenced(refVal, (v: Value) => v.Text?);
      }
      ghost var left := r.Rest();
      var buf := new byte[refVal](_ => 0);
      var m, eof := r.Read(buf);
      if eof {
        return Failed;
      }
      var result := Text(buf[..]);
      assert buf[..] == Filled(left[..m], refVal);
      if result.s != [] {
        objectRefs := objectRefs + [result];
      }
      out := Ok(result);
    }

    method DecodeAmf3ByteArray(r: Source) returns (out: Outcome<Value>)
      requires r.Valid()
      modifies this`objectRefs, r`at
      ensures r.Valid() && DecodeByteArray(r.kind, old(Known()), old(r.Rest())) == Decoding(out, r.Rest(), Known())
    {
      hide DecU29;
      var u29 := DecodeU29(r);
      if u29.None? {
        return Failed;
      }
      var refVal := u29.value / 2;
      if u29.value % 2 == 0 {
        return Referenced(refVal, (v: Value) => v.Blob?);
      }
      ghost var left := r.Rest();
      var buf := new byte[refVal](_ => 0);
      var m, eof := r.Read(buf);
      if eof {
        return Failed;
      }
      var result := Blob(buf[..]);
      assert buf[..] == Filled(left[..m], refVal);
      objectRefs := objectRefs + [result];
      out := Ok(result);
    }

    method DecodeAmf3Array(r: Source) returns (out: Outcome<Value>)
      requires r.Valid()
      modifies this, r`at
      ensures r.Valid() && DecodeArray(r.kind, old(Known()), old(r.Rest())) == Decoding(out, r.Rest(), Known())
      decreases |r.Rest()|, 5
    {
      hide DecU29, DecodeString, Decode;
      var u29 := DecodeU29(r);
      if u29.None? {
        return Failed;
      }
      var refVal := u29.value / 2;
      if u29.value % 2 == 0 {
        return Referenced(refVal / 2, (v: Value) => v.Array?);
      }
      var key := DecodeAmf3String(r);
      if !key.Ok? {
        return Pass(key);
      }
      if key.value != [] {
        return Failed;
      }
      var items := DecodeElements(r, refVal);
      if !items.Ok? {
        return Pass(items);
      }
      var v := Array(items.value);
      objectRefs := objectRefs + [v];
      out := Ok(v);
    }

    method DecodeElements(r: Source, n: nat) returns (out: Outcome<seq<Value>>)
      requires r.Valid()
      modifies this, r`at
      ensures r.Valid() && DecodeItems(r.kind, old(Known()), old(r.Rest()), n, []) == Decoding(out, r.Rest(), Known())
      decreases |r.Rest()|, 1
    {
      hide Decode;
      var result: seq<Value> := [];
      for i := 0 to n
        invariant r.Valid() && |r.Rest()| <= |old(r.Rest())|
        invariant DecodeItems(r.kind, Known(), r.Rest(), n - i, result)
               == DecodeItems(r.kind, old(Known()), old(r.Rest()), n, [])
      {
        var tmp := DecodeAmf3(r);
        if !tmp.Ok? {
          return Pass(tmp);
        }
        result := result + [tmp.value];
      }
      out := Ok(result);
    }

    method DecodeAmf3Object(r: Source) returns (out: Outcome<Value>)
      requires r.Valid()
      modifies this, r`at
      ensures r.Valid() && DecodeObject(r.kind, old(Known()), old(r.Rest())) == Decoding(out, r.Rest(), Known())
      decreases |r.Rest()|, 5
    {
      hide DecU29, DecodeTrait, DecodeFields;
      var u29 := DecodeU29(r);
      if u29.None? {
        return Failed;
      }
      var refVal := u29.value / 2;
      if u29.value % 2 == 0 {
        return if refVal / 2 < |objectRefs| then Ok(objectRefs[refVal / 2]) else Panics;
      }
      var trait_ := DecodeAmf3Trait(r, refVal);
      if !trait_.Ok? {
        return Pass(trait_);
      }
      objectRefs := objectRefs + [Null];
      out := DecodeMembers(r, trait_.value);
    }

    method DecodeAmf3Trait(r: Source, refVal: nat) returns (out: Outcome<Trait>)
      requires r.Valid()
      modifies this, r`at
      ensures r.Valid() && DecodeTrait(r.kind, old(Known()), old(r.Rest()), refVal) == Decoding(out, r.Rest(), Known())
    {
      hide DecodeString;
      if refVal % 2 == 0 {
        return if refVal / 2 < |traitRefs| then Ok(traitRefs[refVal / 2]) else Panics;
      }
      var cls := DecodeAmf3String(r);
      if !cls.Ok? {
        return Pass(cls);
      }
      ghost var known, start := Known(), r.Rest();
      var n := refVal / 8;
      var properties: seq<Str> := [];
      for i := 0 to n
        invariant r.Valid()
        invariant DecodeKeys(r.kind, Known(), r.Rest(), n - i, properties) == DecodeKeys(r.kind, known, start, n, [])
      {
        var tmp := DecodeAmf3String(r);
        if !tmp.Ok? {
          return Pass(tmp);
        }
        properties := properties + [tmp.value];
      }
      var t := Trait(cls.value, refVal / 2 % 2 == 1, refVal / 4 % 2 == 1, properties);
      traitRefs := traitRefs + [t];
      out := Ok(t);
    }

    method DecodeMembers(r: Source, t: Trait) returns (out: Outcome<Value>)
      requires r.Valid()
      modifies this, r`at
      ensures r.Valid() && DecodeFields(r.kind, old(Known()), old(r.Rest()), t) == Decoding(out, r.Rest(), Known())
      decreases |r.Rest()|, 4
    {
      hide DecodeSealed, DecodeDynamic, Amf3.DecodeExternalizable;
      if t.externalizable {
        out := DecodeExternalizable(r, t.name);
        return;
      }
      var obj := DecodeProperties(r, t.properties);
      if obj.Ok? && t.dynamic {
        obj := DecodeDynamicPart(r, obj.value);
      }
      out := if obj.Ok? then Ok(Object(obj.value)) else Pass(obj);
    }

    method DecodeProperties(r: Source, keys: seq<Str>) returns (out: Outcome<map<Str, Value>>)
      requires r.Valid()
      modifies this, r`at
      ensures r.Valid() && DecodeSealed(r.kind, old(Known()), old(r.Rest()), keys, map[]) == Decoding(out, r.Rest(), Known())
      decreases |r.Rest()|, 1
    {
      hide Decode;
      var obj: map<Str, Value> := map[];
      assert keys[0..] == keys;
      for i := 0 to |keys|
        invariant r.Valid() && |r.Rest()| <= |old(r.Rest())|
        invariant DecodeSealed(r.kind, Known(), r.Rest(), keys[i..], obj)
               == DecodeSealed(r.kind, old(Known()), old(r.Rest()), keys, map[])
      {
        assert keys[i..][0] == keys[i] && keys[i..][1..] == keys[i + 1..];
        var val := DecodeAmf3(r);
        if !val.Ok? {
          return Pass(val);
        }
        obj := obj[keys[i] := val.value];
      }
      out := Ok(obj);
    }

    method DecodeDynamicPart(r: Source, sealed: map<Str, Value>) returns (out: Outcome<map<Str, Value>>)
      requires r.Valid()
      modifies this, r`at
      ensures r.Valid() && DecodeDynamic(r.kind, old(Known()), old(r.Rest()), sealed) == Decoding(out, r.Rest(), Known())
      decreases |r.Rest()|, 3
    {
      hide Decode, DecodeString;
      var obj := sealed;
      while true
        invariant r.Valid() && |r.Rest()| <= |old(r.Rest())|
        invariant DecodeDynamic(r.kind, Known(), r.Rest(), obj)
               == DecodeDynamic(r.kind, old(Known()), old(r.Rest()), sealed)
        decreases |r.Rest()|
      {
        var key := DecodeAmf3String(r);
        if !key.Ok? {
          return Pass(key);
        }
        if key.value == [] {
          return Ok(obj);
        }
        var val := DecodeAmf3(r);
        if !val.Ok? {
          return Pass(val);
        }
        obj := obj[key.value := val.value];
      }
    }

    // ---------------------------------------------- externalizable objects

    method DecodeExternalizable(r: Source, name: Str) returns (out: Outcome<Value>)
      requires r.Valid()
      modifies this, r`at
      ensures r.Valid()
      ensures Amf3.DecodeExternalizable(r.kind, old(Known()), old(r.Rest()), name) == Decoding(out, r.Rest(), Known())
      decreases |r.Rest()|, 3
    {
      hide Decode, Amf3.DecodeAsyncMessage, Amf3.DecodeExternal, Ascii;
      if name == Ascii("DSA") {
        var obj := DecodeAsyncMessage(r);
        out := if obj.Ok? then Ok(Object(obj.value)) else Pass(obj);
      } else if name == Ascii("DSK") {
        var obj := DecodeAsyncMessage(r);
        if obj.Ok? {
          obj := DecodeExternal(r, [], obj.value);
        }
        out := if obj.Ok? then Ok(Object(obj.value)) else Pass(obj);
      } else if name == Ascii("flex.messaging.io.ArrayCollection") {
        out := DecodeAmf3(r);
        if out.Ok? {
          objectRefs := objectRefs + [out.value];
        }
      } else {
        out := Failed;
      }
    }

    method DecodeAsyncMessage(r: Source) returns (out: Outcome<map<Str, Value>>)
      requires r.Valid()
      modifies this, r`at
      ensures r.Valid()
      ensures Amf3.DecodeAsyncMessage(r.kind, old(Known()), old(r.Rest())) == Decoding(out, r.Rest(), Known())
      decreases |r.Rest()|, 2
    {
      hide Amf3.DecodeExternal;
      out := DecodeExternal(r, ABSTRACT_MESSAGE, map[]);
      if out.Ok? {
        out := DecodeExternal(r, ASYNC_MESSAGE, out.value);
      }
    }

    /** For every byte of flags, the fields with a name, and then those without. */
    method DecodeExternal(r: Source, fieldSets: seq<seq<Str>>, start: map<Str, Value>)
      returns (out: Outcome<map<Str, Value>>)
      requires r.Valid()
      modifies this, r`at
      ensures r.Valid()
      ensures Amf3.DecodeExternal(r.kind, old(Known()), old(r.Rest()), fieldSets, start)
           == Decoding(out, r.Rest(), Known())
      decreases |r.Rest()|, 1
    {
      hide Decode, Amf3.ReadFlags, DecodeSealed, FlaggedKeys, NamedKeys, ExtraKeys;
      var flagSet := ReadFlags(r);
      if flagSet.None? {
        return Failed;
      }
      var flags := flagSet.value;
      var obj := start;
      ghost var whole := DecodeSealed(r.kind, Known(), r.Rest(), FlaggedKeys(flags, 0, fieldSets), obj);
      for i := 0 to |flags|
        invariant r.Valid() && |r.Rest()| < |old(r.Rest())|
        invariant DecodeSealed(r.kind, Known(), r.Rest(), FlaggedKeys(flags, i, fieldSets), obj) == whole
      {
        var names := if i < |fieldSets| then fieldSets[i] else [];
        FlagsUnfold(flags, i, fieldSets);
        ghost var later := FlaggedKeys(flags, i + 1, fieldSets);
        for p := 0 to |names|
          invariant r.Valid() && |r.Rest()| < |old(r.Rest())|
          invariant DecodeSealed(r.kind, Known(), r.Rest(),
                                 NamedKeys(flags[i], names, p) + (ExtraKeys(flags[i], i, |names|) + later), obj) == whole
        {
          NamedUnfold(flags[i], names, p, ExtraKeys(flags[i], i, |names|) + later);
          if Bit(flags[i], p) {
            SealedStep(r.kind, Known(), r.Rest(), names[p],
                       NamedKeys(flags[i], names, p + 1) + (ExtraKeys(flags[i], i, |names|) + later), obj);
            var tmp := DecodeAmf3(r);
            if !tmp.Ok? {
              return Pass(tmp);
            }
            obj := obj[names[p] := tmp.value];
          }
        }
        NamedUnfold(flags[i], names, |names|, ExtraKeys(flags[i], i, |names|) + later);
        if flags[i] / Pow2(|names|) != 0 {
          var j := |names|;
          while j < 6
            invariant r.Valid() && |r.Rest()| < |old(r.Rest())|
            invariant DecodeSealed(r.kind, Known(), r.Rest(), ExtraKeys(flags[i], i, j) + later, obj) == whole
          {
            ExtraUnfold(flags[i], i, j, later);
            if Bit(flags[i], j) {
              var field := Ascii("extra_") + Decimal(i) + Ascii("_") + Decimal(j);
              SealedStep(r.kind, Known(), r.Rest(), field, ExtraKeys(flags[i], i, j + 1) + later, obj);
              var tmp := DecodeAmf3(r);
              if !tmp.Ok? {
                return Pass(tmp);
              }
              obj := obj[field := tmp.value];
            }
            j := j + 1;
          }
          ExtraUnfold(flags[i], i, j, later);
        } else {
          NoExtraKeys(flags[i], i, |names|, |names|);
          assert [] + later == later;
        }
      }
      FlagsEnd(flags, fieldSets, r.kind, Known(), r.Rest(), obj);
      out := Ok(obj);
    }

    method ReadFlags(r: Source) returns (result: Option<seq<byte>>)
      requires r.Valid()
      modifies r`at
      ensures r.Valid() && Amf3.ReadFlags(r.kind, old(r.Rest())) == Decoded(result, r.Rest())
    {
      hide Amf3.ReadFlags;
      var flags: seq<byte> := [];
      BehindNothing(Amf3.ReadFlags(r.kind, r.Rest()));
      while true
        invariant r.Valid()
        invariant Amf3.ReadFlags(r.kind, old(r.Rest())) == Behind(flags, Amf3.ReadFlags(r.kind, r.Rest()))
        decreases |r.Rest()|
      {
        ReadFlagsStep(r.kind, r.Rest(), flags);
        var flag, ok := r.ReadByte();
        if !ok {
          return None;
        }
        flags := flags + [flag];
        if flag < 0x80 {
          return Some(flags);
        }
      }
    }
  }

  /** More flags with those read before in front of them. */
  ghost function Behind(flags: seq<byte>, more: Decoded<seq<byte>>): Decoded<seq<byte>> {
    if more.value.None? then more else Decoded(Some(flags + more.value.value), more.rest)
  }

  lemma BehindNothing(more: Decoded<seq<byte>>)
    ensures Behind([], more) == more
  {
    assert more.value.Some? ==> [] + more.value.value == more.value.value;
  }

  lemma ReadFlagsStep(kind: Kind, s: seq<byte>, flags: seq<byte>)
    ensures var b := Take(kind, s, 1);
            Behind(flags, ReadFlags(kind, s)) ==
            if b.value.None? then Decoded(None, b.rest)
            else if b.value.value[0] < 0x80 then Decoded(Some(flags + [b.value.value[0]]), b.rest)
            else Behind(flags + [b.value.value[0]], ReadFlags(kind, b.rest))
  {
    var b := Take(kind, s, 1);
    if b.value.Some? {
      assert b.value.value == [b.value.value[0]];
      var more := ReadFlags(kind, b.rest);
      if more.value.Some? {
        assert flags + (b.value.value + more.value.value) == flags + [b.value.value[0]] + more.value.value;
      }
    }
  }

  lemma SealedStep(kind: Kind, refs: Refs, s: seq<byte>, key: Str, more: seq<Str>, obj: map<Str, Value>)
    ensures var v := Decode(kind, refs, s);
            DecodeSealed(kind, refs, s, [key] + more, obj) ==
            if !v.out.Ok? then Decoding(Pass(v.out), v.rest, v.refs)
            else DecodeSealed(kind, v.refs, v.rest, more, obj[key := v.out.value])
  {
    hide Decode;
    assert ([key] + more)[1..] == more;
  }

  lemma FlagsUnfold(flags: seq<byte>, i: nat, fieldSets: seq<seq<Str>>)
    requires i < |flags|
    ensures var names := if i < |fieldSets| then fieldSets[i] else [];
            FlaggedKeys(flags, i, fieldSets) ==
            NamedKeys(flags[i], names, 0) + (ExtraKeys(flags[i], i, |names|) + FlaggedKeys(flags, i + 1, fieldSets))
  {
    hide NamedKeys, ExtraKeys;
  }

  lemma FlagsEnd(flags: seq<byte>, fieldSets: seq<seq<Str>>, kind: Kind, refs: Refs, s: seq<byte>, obj: map<Str, Value>)
    ensures DecodeSealed(kind, refs, s, FlaggedKeys(flags, |flags|, fieldSets), obj) == Decoding(Ok(obj), s, refs)
  {
  }

  lemma NamedUnfold(b: byte, names: seq<Str>, p: nat, later: seq<Str>)
    requires p <= |names|
    ensures NamedKeys(b, names, p) + later ==
            if p == |names| then later
            else if Bit(b, p) then [names[p]] + (NamedKeys(b, names, p + 1) + later)
            else NamedKeys(b, names, p + 1) + later
  {
    hide Bit;
  }

  lemma ExtraUnfold(b: byte, i: nat, j: nat, later: seq<Str>)
    ensures ExtraKeys(b, i, j) + later ==
            if j >= 6 then later
            else if Bit(b, j) then
              [Ascii("extra_") + Decimal(i) + Ascii("_") + Decimal(j)] + (ExtraKeys(b, i, j + 1) + later)
            else ExtraKeys(b, i, j + 1) + later
  {
    hide Bit, Ascii, Decimal;
  }

  /** Where no flag is left, none of the fields without a name is there. */
  lemma {:induction false} NoExtraKeys(b: byte, i: nat, from: nat, j: nat)
    requires b / Pow2(from) == 0 && from <= j
    ensures ExtraKeys(b, i, j) == []
    decreases 6 - j
  {
    if j < 6 {
      PowerGrows(from, j);
      NothingLeft(b, Pow2(from));
      NothingLeft(b, Pow2(j));
      NoExtraKeys(b, i, from, j + 1);
      hide Pow2, Ascii, Decimal;
    }
  }

  lemma NothingLeft(b: byte, unit: nat)
    requires unit > 0
    ensures b / unit == 0 <==> b < unit
  {
    var q := b / unit;
    assert b == q * unit + b % unit;
    if q > 0 {
      assert q * unit >= unit;
    }
  }

  lemma {:induction false} PowerGrows(i: nat, j: nat)
    requires i <= j
    ensures Pow2(i) <= Pow2(j)
  {
    if i < j {
      PowerGrows(i, j - 1);
    }
  }
}
