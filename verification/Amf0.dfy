/**
  Action Message Format 0: what the encoder writes for a value, what the decoder
  makes of any bytes, and that the second undoes the first. Any value may switch
  to AMF3, whose reference tables go along for that.
 */
module Amf0 {
  import opened Bytes
  import opened AmfIo
  import Amf3

  const STRING_MAX := 65535

  // ------------------------------------------------------------ encoding

  /** The bytes written for `t`; for a value that cannot be encoded, those before the error. */
  function Enc(t: Term): seq<byte>
    decreases t
  {
    match t
    case Nil => [0x05]
    case Flag(b) => [0x01, if b then 0x01 else 0x00]
    case Float(double) => [0x00] + double
    case Int(_, double) => [0x00] + double
    case String(s) => if |s| <= STRING_MAX then [0x02] + EncString(s) else [0x0c] + BE(|s|, 4) + s
    case Slice(items) => [0x0a] + BE(|items|, 4) + EncItems(items)
    case Map(entries) => [0x03] + EncEntries(entries)
    case _ => []
  }

  /** A string behind a length of two bytes, which is all that is kept of a longer one's length. */
  function EncString(s: Str): seq<byte> {
    BE(|s|, 2) + s
  }

  function EncItems(items: seq<Term>): seq<byte>
    decreases items
  {
    if items == [] then []
    else Enc(items[0]) + if Encodable(items[0]) then EncItems(items[1..]) else []
  }

  /** The entries, the empty string and the end marker. */
  function EncEntries(entries: seq<Entry>): seq<byte>
    decreases entries
  {
    if entries == [] then EncString([]) + [0x09]
    else
      var e := entries[0];
      EncString(e.key) + Enc(e.value) + if Encodable(e.value) then EncEntries(entries[1..]) else []
  }

  predicate Encodable(t: Term)
    decreases t
  {
    match t
    case Slice(items) => AllEncodable(items)
    case Map(entries) => AllValuesEncodable(entries)
    case _ => !t.Typed? && !t.Moment? && !t.Other?
  }

  predicate AllEncodable(items: seq<Term>)
    decreases items
  {
    items == [] || (Encodable(items[0]) && AllEncodable(items[1..]))
  }

  predicate AllValuesEncodable(entries: seq<Entry>)
    decreases entries
  {
    entries == [] || (Encodable(entries[0].value) && AllValuesEncodable(entries[1..]))
  }

  // ------------------------------------------------------------ decoding

  /** One value off the front of `s`. */
  function Decode(kind: Kind, refs: Refs, s: seq<byte>): (d: Decoding<Value>)
    ensures |d.rest| <= |s| && (d.out.Ok? ==> |d.rest| < |s|)
    decreases |s|, 0
  {
    var m := Take(kind, s, 1);
    if m.value.None? then Decoding(Failed, m.rest, refs) else DecodeBody(kind, refs, m.value.value[0], m.rest)
  }

  /** The value behind a marker. */
  function DecodeBody(kind: Kind, refs: Refs, marker: byte, s: seq<byte>): (d: Decoding<Value>)
    ensures |d.rest| <= |s|
    decreases |s|, 3
  {
    if marker == 0x00 then Lift(DecodeNumber(kind, s), refs)
    else if marker == 0x01 then Lift(DecodeBoolean(kind, s), refs)
    else if marker == 0x02 then Lift(AsText(DecodeString(kind, s, 2)), refs)
    else if marker == 0x03 then AsObject(DecodeObject(kind, refs, s, map[]))
    else if marker in {0x05, 0x06, 0x0d} then Decoding(Ok(Null), s, refs)
    else if marker == 0x08 then AsObject(DecodeObject(kind, refs, Take(kind, s, 4).rest, map[]))
    else if marker == 0x0a then DecodeArray(kind, refs, s)
    else if marker == 0x0b then Lift(DecodeDate(kind, s), refs)
    else if marker in {0x0c, 0x0f} then Lift(AsText(DecodeString(kind, s, 4)), refs)
    else if marker == 0x10 then DecodeTyped(kind, refs, s)
    else if marker == 0x11 then Amf3.Decode(kind, refs, s)
    else Decoding(Failed, s, refs)
  }

  function AsText(d: Decoded<Str>): Decoded<Value> {
    Decoded(if d.value.Some? then Some(Text(d.value.value)) else None, d.rest)
  }

  function AsObject(d: Decoding<map<Str, Value>>): Decoding<Value> {
    Decoding(if d.out.Ok? then Ok(Object(d.out.value)) else Pass(d.out), d.rest, d.refs)
  }

  function DecodeNumber(kind: Kind, s: seq<byte>): (d: Decoded<Value>)
    ensures |d.rest| <= |s|
  {
    var d := Take(kind, s, 8);
    Decoded(if d.value.Some? then Some(Number(d.value.value)) else None, d.rest)
  }

  function DecodeBoolean(kind: Kind, s: seq<byte>): (d: Decoded<Value>)
    ensures |d.rest| <= |s|
  {
    var d := Take(kind, s, 1);
    Decoded(if d.value.Some? && d.value.value[0] <= 1 then Some(Bool(d.value.value[0] == 1)) else None, d.rest)
  }

  function DecodeDate(kind: Kind, s: seq<byte>): (d: Decoded<Value>)
    ensures |d.rest| <= |s|
  {
    var d := DecodeNumber(kind, s);
    var zone := Take(kind, d.rest, 2);
    if d.value.None? then d else Decoded(if zone.value.Some? then d.value else None, zone.rest)
  }

  /** A string behind a length of `width` bytes. */
  function DecodeString(kind: Kind, s: seq<byte>, width: nat): (d: Decoded<Str>)
    ensures |d.rest| <= |s| && (d.value.Some? && width > 0 ==> |d.rest| < |s|)
  {
    var length := Take(kind, s, width);
    if length.value.None? then length else Take(kind, length.rest, FromBE(length.value.value))
  }

  /** The entries up to the end marker, added to those already read. */
  function DecodeObject(kind: Kind, refs: Refs, s: seq<byte>, sofar: map<Str, Value>): (d: Decoding<map<Str, Value>>)
    ensures |d.rest| <= |s|
    decreases |s|, 1
  {
    var key := DecodeString(kind, s, 2);
    if key.value.None? then Decoding(Failed, key.rest, refs)
    else if key.value.value == [] then
      var end := Take(kind, key.rest, 1);
      Decoding(if end.value == Some([0x09]) then Ok(sofar) else Failed, end.rest, refs)
    else
      var v := Decode(kind, refs, key.rest);
      if !v.out.Ok? then Decoding(Pass(v.out), v.rest, v.refs)
      else DecodeObject(kind, v.refs, v.rest, sofar[key.value.value := v.out.value])
  }

  function DecodeArray(kind: Kind, refs: Refs, s: seq<byte>): (d: Decoding<Value>)
    ensures |d.rest| <= |s|
    decreases |s|, 2
  {
    var length := Take(kind, s, 4);
    if length.value.None? then Decoding(Failed, length.rest, refs)
    else AsArray(DecodeItems(kind, refs, length.rest, FromBE(length.value.value), []))
  }

  function AsArray(d: Decoding<seq<Value>>): Decoding<Value> {
    Decoding(if d.out.Ok? then Ok(Array(d.out.value)) else Pass(d.out), d.rest, d.refs)
  }

  /** `n` more values, added to those already read. */
  function DecodeItems(kind: Kind, refs: Refs, s: seq<byte>, n: nat, sofar: seq<Value>): (d: Decoding<seq<Value>>)
    ensures |d.rest| <= |s|
    decreases |s|, 1
  {
    if n == 0 then Decoding(Ok(sofar), s, refs)
    else
      var v := Decode(kind, refs, s);
      if !v.out.Ok? then Decoding(Pass(v.out), v.rest, v.refs)
      else DecodeItems(kind, v.refs, v.rest, n - 1, sofar + [v.out.value])
  }

  function DecodeTyped(kind: Kind, refs: Refs, s: seq<byte>): (d: Decoding<Value>)
    ensures |d.rest| <= |s|
    decreases |s|, 2
  {
    var name := DecodeString(kind, s, 2);
    if name.value.None? then Decoding(Failed, name.rest, refs)
    else
      var d := DecodeObject(kind, refs, name.rest, map[]);
      Decoding(if d.out.Ok? then Ok(TypedObject(name.value.value, d.out.value)) else Pass(d.out), d.rest, d.refs)
  }

  /** The values up to the first that cannot be decoded, and whether that one panics. */
  datatype Batch = Batch(values: seq<Value>, panics: bool)

  /** Every value up to the first error, which the end of the input is too. */
  function DecodeBatch(kind: Kind, refs: Refs, s: seq<byte>): Batch
    decreases |s|
  {
    var d := Decode(kind, refs, s);
    if !d.out.Ok? then Batch([], d.out.Panics?) else After(d.out.value, DecodeBatch(kind, d.refs, d.rest))
  }

  function After(v: Value, more: Batch): Batch {
    Batch([v] + more.values, more.panics)
  }

  // ---------------------------------------------------------- round trips

  /** The value a term stands for once it has been through the wire. */
  function Image(t: Term): Value
    decreases t
  {
    match t
    case Flag(b) => Bool(b)
    case Float(double) => Number(double)
    case Int(_, double) => Number(double)
    case String(s) => Text(s)
    case Slice(items) => Array(Images(items))
    case Map(entries) => Object(Fields(map[], entries))
    case _ => Null
  }

  function Images(items: seq<Term>): (vs: seq<Value>)
    ensures |vs| == |items|
    decreases items
  {
    if items == [] then [] else [Image(items[0])] + Images(items[1..])
  }

  /** `sofar` with every entry put into it. */
  function Fields(sofar: map<Str, Value>, entries: seq<Entry>): map<Str, Value>
    decreases entries
  {
    if entries == [] then sofar else Fields(sofar[entries[0].key := Image(entries[0].value)], entries[1..])
  }

  /** What the format has room for: lengths that fit their fields, and keys that are not empty. */
  predicate Fits(t: Term) {
    Sized(t) && !HasEmptyKey(t)
  }

  predicate AllFit(items: seq<Term>) {
    AllSized(items) && !AnyHasEmptyKey(items)
  }

  predicate AllValuesFit(entries: seq<Entry>) {
    AllValuesSized(entries) && !EntriesHaveEmptyKey(entries)
  }

  predicate Sized(t: Term)
    decreases t
  {
    match t
    case String(s) => |s| < 0x1_0000_0000
    case Slice(items) => |items| < 0x1_0000_0000 && AllSized(items)
    case Map(entries) => AllValuesSized(entries)
    case _ => !t.Typed? && !t.Moment? && !t.Other?
  }

  predicate AllSized(items: seq<Term>)
    decreases items
  {
    items == [] || (Sized(items[0]) && AllSized(items[1..]))
  }

  predicate AllValuesSized(entries: seq<Entry>)
    decreases entries
  {
    entries == [] || (|entries[0].key| <= STRING_MAX && Sized(entries[0].value) && AllValuesSized(entries[1..]))
  }

  /** Some map in it, however deep, has an empty key. */
  predicate HasEmptyKey(t: Term)
    decreases t
  {
    match t
    case Slice(items) => AnyHasEmptyKey(items)
    case Map(entries) => EntriesHaveEmptyKey(entries)
    case _ => false
  }

  predicate AnyHasEmptyKey(items: seq<Term>)
    decreases items
  {
    items != [] && (HasEmptyKey(items[0]) || AnyHasEmptyKey(items[1..]))
  }

  predicate EntriesHaveEmptyKey(entries: seq<Entry>)
    decreases entries
  {
    entries != [] && (entries[0].key == [] || HasEmptyKey(entries[0].value) || EntriesHaveEmptyKey(entries[1..]))
  }

  /** The last thing the decoder reads of this value is an empty string. */
  predicate EndsEmpty(t: Term)
    decreases t
  {
    match t
    case String(s) => s == []
    case Slice(items) => items != [] && EndsEmpty(items[|items| - 1])
    case _ => false
  }

  /** A `Reader` at its end refuses the empty read that a `Buffer` grants. */
  predicate Starved(kind: Kind, t: Term, suffix: seq<byte>) {
    kind == Reader && suffix == [] && EndsEmpty(t)
  }

  lemma {:induction false} SizedIsEncodable(t: Term)
    requires Sized(t)
    ensures Encodable(t) && Enc(t) != [] && Enc(t)[0] != 0x09
    decreases t
  {
    match t
    case Slice(items) => AllSizedEncodable(items);
    case Map(entries) => AllValuesSizedEncodable(entries);
    case _ =>
  }

  lemma {:induction false} AllSizedEncodable(items: seq<Term>)
    requires AllSized(items)
    ensures AllEncodable(items)
    decreases items
  {
    if items != [] {
      SizedIsEncodable(items[0]);
      AllSizedEncodable(items[1..]);
    }
  }

  lemma {:induction false} AllValuesSizedEncodable(entries: seq<Entry>)
    requires AllValuesSized(entries)
    ensures AllValuesEncodable(entries)
    decreases entries
  {
    if entries != [] {
      SizedIsEncodable(entries[0].value);
      AllValuesSizedEncodable(entries[1..]);
    }
  }

  lemma StringTrip(kind: Kind, s: Str, width: nat, suffix: seq<byte>)
    requires |s| < Pow256(width) && width > 0
    ensures DecodeString(kind, BE(|s|, width) + s + suffix, width) ==
            if kind == Reader && s + suffix == [] then Decoded(None, []) else Decoded(Some(s), suffix)
  {
    FromBEofBE(|s|, width);
    var length := BE(|s|, width);
    assert length + s + suffix == length + (s + suffix);
    TakeFront(kind, length, s + suffix);
    if kind == Buffer || s + suffix != [] {
      TakeFront(kind, s, suffix);
    }
  }

  lemma MarkerRead(kind: Kind, refs: Refs, marker: byte, body: seq<byte>)
    ensures Decode(kind, refs, [marker] + body) == DecodeBody(kind, refs, marker, body)
  {
    hide DecodeBody;
    TakeFront(kind, [marker], body);
  }

  lemma TextTrip(kind: Kind, refs: Refs, s: Str, suffix: seq<byte>)
    requires |s| < 0x1_0000_0000
    ensures Decode(kind, refs, Enc(String(s)) + suffix) ==
            if kind == Reader && s + suffix == [] then Decoding(Failed, [], refs) else Decoding(Ok(Text(s)), suffix, refs)
  {
    Pow256Values();
    EncText(s);
    hide Decode, BE, Enc;
    if |s| <= STRING_MAX {
      TextRead(kind, refs, 0x02, 2, s, suffix);
      assert Enc(String(s)) + suffix == [0x02] + (BE(|s|, 2) + s + suffix);
    } else {
      TextRead(kind, refs, 0x0c, 4, s, suffix);
      assert Enc(String(s)) + suffix == [0x0c] + (BE(|s|, 4) + s + suffix);
    }
  }

  lemma EncText(s: Str)
    ensures Enc(String(s)) == if |s| <= STRING_MAX then [0x02] + (BE(|s|, 2) + s) else [0x0c] + (BE(|s|, 4) + s)
  {
    hide BE;
  }

  lemma TextRead(kind: Kind, refs: Refs, marker: byte, width: nat, s: Str, suffix: seq<byte>)
    requires (marker == 0x02 && width == 2) || (marker == 0x0c && width == 4)
    requires |s| < Pow256(width)
    ensures Decode(kind, refs, [marker] + (BE(|s|, width) + s + suffix)) ==
            if kind == Reader && s + suffix == [] then Decoding(Failed, [], refs) else Decoding(Ok(Text(s)), suffix, refs)
  {
    StringTrip(kind, s, width, suffix);
    hide Take, DecodeString, BE, DecodeObject, DecodeArray, DecodeTyped, DecodeDate, Amf3.Decode;
    MarkerRead(kind, refs, marker, BE(|s|, width) + s + suffix);
    hide Decode;
  }

  lemma NumberTrip(kind: Kind, refs: Refs, double: Double, suffix: seq<byte>)
    ensures Decode(kind, refs, Enc(Float(double)) + suffix) == Decoding(Ok(Number(double)), suffix, refs)
  {
    TakeFront(kind, double, suffix);
    hide Take, DecodeString, DecodeObject, DecodeArray, DecodeTyped, DecodeDate, Amf3.Decode;
    MarkerRead(kind, refs, 0x00, double + suffix);
    hide Decode;
    assert Enc(Float(double)) + suffix == [0x00] + (double + suffix);
  }

  lemma BooleanTrip(kind: Kind, refs: Refs, b: bool, suffix: seq<byte>)
    ensures Decode(kind, refs, Enc(Flag(b)) + suffix) == Decoding(Ok(Bool(b)), suffix, refs)
  {
    var v: byte := if b then 1 else 0;
    BooleanRead(kind, v, suffix);
    hide Take, DecodeNumber, DecodeBoolean, DecodeString, DecodeObject, DecodeArray, DecodeTyped, DecodeDate, Amf3.Decode;
    MarkerRead(kind, refs, 0x01, [v] + suffix);
    hide Decode;
    assert Enc(Flag(b)) + suffix == [0x01] + ([v] + suffix);
  }

  lemma BooleanRead(kind: Kind, v: byte, suffix: seq<byte>)
    requires v <= 1
    ensures DecodeBoolean(kind, [v] + suffix) == Decoded(Some(Bool(v == 1)), suffix)
  {
    TakeFront(kind, [v], suffix);
    hide Take;
  }

  /**
    Decoding undoes encoding, whatever follows and whatever order the maps were
    met in, and uses up exactly the bytes written -- unless a `Reader` is left
    with an empty read at its very end, when it fails.
   */
  lemma {:induction false} RoundTrip(kind: Kind, refs: Refs, t: Term, suffix: seq<byte>)
    requires Fits(t)
    ensures Decode(kind, refs, Enc(t) + suffix) ==
            if Starved(kind, t, suffix) then Decoding(Failed, [], refs) else Decoding(Ok(Image(t)), suffix, refs)
    decreases t
  {
    hide Enc, Decode, Fields, EncEntries, Images;
    match t
    case Nil =>
      MarkerRead(kind, refs, 0x05, suffix);
      assert Enc(t) == [0x05] by { EncSimple(t); }
    case Flag(b) => BooleanTrip(kind, refs, b, suffix);
    case Float(double) => NumberTrip(kind, refs, double, suffix);
    case Int(_, double) =>
      NumberTrip(kind, refs, double, suffix);
      assert Enc(t) == Enc(Float(double)) by { EncSimple(t); }
    case String(s) => TextTrip(kind, refs, s, suffix);
    case Slice(items) =>
      ItemsTrip(kind, refs, items, [], suffix);
      ArrayRead(kind, refs, items, suffix);
      assert [] + Images(items) == Images(items);
    case Map(entries) =>
      EntriesTrip(kind, refs, entries, map[], suffix);
      ObjectRead(kind, refs, entries, suffix);
  }

  lemma EncSimple(t: Term)
    ensures t.Nil? ==> Enc(t) == [0x05]
    ensures t.Int? ==> Enc(t) == Enc(Float(t.double))
  {
  }

  lemma ObjectRead(kind: Kind, refs: Refs, entries: seq<Entry>, suffix: seq<byte>)
    ensures Decode(kind, refs, Enc(Map(entries)) + suffix) ==
            AsObject(DecodeObject(kind, refs, EncEntries(entries) + suffix, map[]))
  {
    hide DecodeObject, EncEntries;
    MarkerRead(kind, refs, 0x03, EncEntries(entries) + suffix);
    hide Decode;
    assert Enc(Map(entries)) + suffix == [0x03] + (EncEntries(entries) + suffix);
  }

  lemma ArrayRead(kind: Kind, refs: Refs, items: seq<Term>, suffix: seq<byte>)
    requires |items| < 0x1_0000_0000
    ensures Decode(kind, refs, Enc(Slice(items)) + suffix) ==
            AsArray(DecodeItems(kind, refs, EncItems(items) + suffix, |items|, []))
  {
    hide DecodeItems, EncItems, BE, FromBE;
    Pow256Values();
    FromBEofBE(|items|, 4);
    var more := EncItems(items) + suffix;
    var body := BE(|items|, 4) + more;
    TakeFront(kind, BE(|items|, 4), more);
    hide Take, DecodeNumber, DecodeBoolean, DecodeString, DecodeObject, DecodeDate, DecodeTyped, Amf3.Decode;
    MarkerRead(kind, refs, 0x0a, body);
    hide Decode;
    ArrayUnfold(items, suffix);
  }

  lemma ArrayUnfold(items: seq<Term>, suffix: seq<byte>)
    ensures Enc(Slice(items)) + suffix == [0x0a] + (BE(|items|, 4) + (EncItems(items) + suffix))
  {
    hide EncItems, BE;
  }

  lemma {:induction false} ItemsTrip(kind: Kind, refs: Refs, items: seq<Term>, sofar: seq<Value>, suffix: seq<byte>)
    requires AllFit(items)
    ensures DecodeItems(kind, refs, EncItems(items) + suffix, |items|, sofar) ==
            if Starved(kind, Slice(items), suffix) then Decoding(Failed, [], refs)
            else Decoding(Ok(sofar + Images(items)), suffix, refs)
    decreases items
  {
    if items == [] {
      assert EncItems(items) + suffix == suffix;
      assert sofar + Images(items) == sofar;
    } else {
      var after := EncItems(items[1..]) + suffix;
      SizedIsEncodable(items[0]);
      LastStarves(kind, items, suffix);
      hide Decode, DecodeItems, Enc, EncItems, Fits, Encodable, EndsEmpty, Image, Images, Starved;
      ItemsUnfold(items, sofar, suffix);
      ItemsStep(kind, refs, Enc(items[0]) + after, |items|, sofar);
      RoundTrip(kind, refs, items[0], after);
      if |items| == 1 {
        NoMoreItems(kind, refs, suffix, sofar + [Image(items[0])]);
      } else {
        ItemsTrip(kind, refs, items[1..], sofar + [Image(items[0])], suffix);
      }
    }
  }

  lemma ItemsUnfold(items: seq<Term>, sofar: seq<Value>, suffix: seq<byte>)
    requires items != [] && Encodable(items[0])
    ensures EncItems(items) + suffix == Enc(items[0]) + (EncItems(items[1..]) + suffix)
    ensures |items| == 1 ==> EncItems(items[1..]) + suffix == suffix
    ensures sofar + Images(items) == sofar + [Image(items[0])] + Images(items[1..])
  {
    hide Enc, Encodable, Image, EncItems, Images;
    BatchUnfold(items);
    ThreeParts(Enc(items[0]), EncItems(items[1..]), suffix);
    PlusAssoc(sofar, [Image(items[0])], Images(items[1..]));
  }

  lemma ThreeParts<T>(a: seq<T>, b: seq<T>, c: seq<T>)
    ensures a + b + c == a + (b + c) && (b == [] ==> b + c == c)
  {
  }

  lemma ItemsStep(kind: Kind, refs: Refs, s: seq<byte>, n: nat, sofar: seq<Value>)
    requires n > 0
    ensures var v := Decode(kind, refs, s);
            DecodeItems(kind, refs, s, n, sofar) ==
            if !v.out.Ok? then Decoding(Pass(v.out), v.rest, v.refs)
            else DecodeItems(kind, v.refs, v.rest, n - 1, sofar + [v.out.value])
  {
    hide Decode;
  }

  lemma NoMoreItems(kind: Kind, refs: Refs, s: seq<byte>, sofar: seq<Value>)
    ensures DecodeItems(kind, refs, s, 0, sofar) == Decoding(Ok(sofar), s, refs) && sofar + Images([]) == sofar
  {
  }

  /** Only the last value of an array can be starved. */
  lemma LastStarves(kind: Kind, items: seq<Term>, suffix: seq<byte>)
    requires items != [] && AllFit(items)
    ensures var after := EncItems(items[1..]) + suffix;
            Starved(kind, items[0], after) == (|items| == 1 && Starved(kind, Slice(items), suffix)) &&
            (|items| > 1 ==> Starved(kind, Slice(items[1..]), suffix) == Starved(kind, Slice(items), suffix))
  {
    if |items| > 1 {
      EncItemsNotEmpty(items[1..]);
      assert items[1..][|items| - 2] == items[|items| - 1];
    }
  }

  lemma EncItemsNotEmpty(items: seq<Term>)
    requires AllSized(items) && items != []
    ensures EncItems(items) != []
  {
    SizedIsEncodable(items[0]);
  }

  lemma KeyRead(kind: Kind, key: Str, more: seq<byte>)
    requires |key| <= STRING_MAX && more != []
    ensures DecodeString(kind, EncString(key) + more, 2) == Decoded(Some(key), more)
  {
    Pow256Values();
    StringTrip(kind, key, 2, more);
    hide DecodeString, BE;
    assert EncString(key) + more == BE(|key|, 2) + key + more;
  }

  /** A key takes the decoder to its value. */
  lemma EntryRead(kind: Kind, refs: Refs, key: Str, more: seq<byte>, sofar: map<Str, Value>)
    requires 0 < |key| <= STRING_MAX && more != []
    ensures DecodeObject(kind, refs, EncString(key) + more, sofar) ==
            var v := Decode(kind, refs, more);
            if !v.out.Ok? then Decoding(Pass(v.out), v.rest, v.refs)
            else DecodeObject(kind, v.refs, v.rest, sofar[key := v.out.value])
  {
    KeyRead(kind, key, more);
    hide Decode, DecodeString, EncString;
  }

  /** An empty key takes the decoder to the end marker. */
  lemma EmptyKeyRead(kind: Kind, refs: Refs, more: seq<byte>, sofar: map<Str, Value>)
    requires more != []
    ensures DecodeObject(kind, refs, EncString([]) + more, sofar) ==
            Decoding(if more[0] == 0x09 then Ok(sofar) else Failed, more[1..], refs)
  {
    KeyRead(kind, [], more);
    assert more == [more[0]] + more[1..];
    TakeFront(kind, [more[0]], more[1..]);
    hide Decode, DecodeString, EncString, Take;
  }

  lemma EntriesUnfold(entries: seq<Entry>, suffix: seq<byte>)
    requires entries != [] && Sized(entries[0].value)
    ensures Enc(entries[0].value) != [] && Enc(entries[0].value)[0] != 0x09
    ensures EncEntries(entries) + suffix ==
            EncString(entries[0].key) + (Enc(entries[0].value) + (EncEntries(entries[1..]) + suffix))
  {
    SizedIsEncodable(entries[0].value);
    hide EncString, Enc, Sized, Encodable;
    var e, more := entries[0], EncEntries(entries[1..]);
    PlusAssoc(EncString(e.key) + Enc(e.value), more, suffix);
    PlusAssoc(EncString(e.key), Enc(e.value), more + suffix);
  }

  lemma {:induction false} EntriesTrip(kind: Kind, refs: Refs, entries: seq<Entry>, sofar: map<Str, Value>, suffix: seq<byte>)
    requires AllValuesFit(entries)
    ensures DecodeObject(kind, refs, EncEntries(entries) + suffix, sofar) ==
            Decoding(Ok(Fields(sofar, entries)), suffix, refs)
    decreases entries
  {
    hide Decode, DecodeObject, EncString, EncEntries, Enc, Image, Sized, HasEmptyKey;
    if entries == [] {
      NoEntriesRead(kind, refs, sofar, suffix);
    } else {
      var e := entries[0];
      var after := EncEntries(entries[1..]) + suffix;
      EntriesUnfold(entries, suffix);
      EntriesNotEmpty(entries[1..]);
      EntryRead(kind, refs, e.key, Enc(e.value) + after, sofar);
      RoundTrip(kind, refs, e.value, after);
      EntriesTrip(kind, refs, entries[1..], sofar[e.key := Image(e.value)], suffix);
    }
  }

  lemma EntriesNotEmpty(entries: seq<Entry>)
    ensures EncEntries(entries) != []
  {
    hide Enc, Encodable;
  }

  lemma NoEntriesRead(kind: Kind, refs: Refs, sofar: map<Str, Value>, suffix: seq<byte>)
    ensures DecodeObject(kind, refs, EncEntries([]) + suffix, sofar) == Decoding(Ok(sofar), suffix, refs)
  {
    hide DecodeObject, EncString;
    EmptyKeyRead(kind, refs, [0x09] + suffix, sofar);
    assert EncEntries([]) + suffix == EncString([]) + ([0x09] + suffix) by {
      PlusAssoc(EncString([]), [0x09], suffix);
    }
  }

  /** Encoded one after another, every value comes back; of a `Reader`, all but a starved last one. */
  lemma {:induction false} BatchTrip(kind: Kind, refs: Refs, ts: seq<Term>)
    requires AllFit(ts)
    ensures DecodeBatch(kind, refs, EncItems(ts)) ==
            Batch(if kind == Reader && ts != [] && EndsEmpty(ts[|ts| - 1]) then Images(ts)[..|ts| - 1] else Images(ts), false)
    decreases |ts|
  {
    if ts != [] {
      var rest := EncItems(ts[1..]);
      SizedIsEncodable(ts[0]);
      if |ts| > 1 {
        EncItemsNotEmpty(ts[1..]);
        assert ts[1..][|ts| - 2] == ts[|ts| - 1];
      }
      hide Enc, EncItems, Decode, DecodeBatch, Encodable, EndsEmpty, Image, Images, Sized, HasEmptyKey;
      BatchUnfold(ts);
      BatchStep(kind, refs, Enc(ts[0]) + rest);
      RoundTrip(kind, refs, ts[0], rest);
      BatchTrip(kind, refs, ts[1..]);
      CutLast(Image(ts[0]), Images(ts[1..]));
    }
  }

  lemma BatchUnfold(ts: seq<Term>)
    requires ts != [] && Encodable(ts[0])
    ensures EncItems(ts) == Enc(ts[0]) + EncItems(ts[1..]) && Images(ts) == [Image(ts[0])] + Images(ts[1..])
    ensures |ts| == 1 ==> EncItems(ts[1..]) == []
  {
    hide Enc, Encodable, Image;
  }

  lemma BatchStep(kind: Kind, refs: Refs, s: seq<byte>)
    ensures var d := Decode(kind, refs, s);
            DecodeBatch(kind, refs, s) ==
            if !d.out.Ok? then Batch([], d.out.Panics?) else After(d.out.value, DecodeBatch(kind, d.refs, d.rest))
  {
    hide Decode;
  }

  lemma CutLast(v: Value, more: seq<Value>)
    ensures ([v] + more)[..|more|] == if more == [] then [] else [v] + more[..|more| - 1]
  {
  }

  // ------------------------------------------------- the order of a map

  function Keys(entries: seq<Entry>): set<Str> {
    set e | e in entries :: e.key
  }

  /** Maps are met in any order; what is decoded does not depend on it. */
  lemma OrderIsLost(a: seq<Entry>, b: seq<Entry>)
    requires Distinct(a) && Distinct(b) && multiset(a) == multiset(b)
    ensures Image(Map(a)) == Image(Map(b))
  {
    SameFields(a, b);
  }

  lemma SameFields(a: seq<Entry>, b: seq<Entry>)
    requires Distinct(a) && Distinct(b) && multiset(a) == multiset(b)
    ensures Fields(map[], a) == Fields(map[], b)
  {
    FieldsAre(map[], a);
    FieldsAre(map[], b);
    SameEntries(a, b);
    hide Fields, Image, Distinct;
    var fa, fb := Fields(map[], a), Fields(map[], b);
    assert fa.Keys == fb.Keys;
    forall k | k in fa ensures fa[k] == fb[k] {
      assert k in Keys(a);
      var e :| e in a && e.key == k;
      assert e in b;
    }
  }

  lemma SameEntries(a: seq<Entry>, b: seq<Entry>)
    requires multiset(a) == multiset(b)
    ensures forall e :: e in a <==> e in b
    ensures Keys(a) == Keys(b)
  {
    assert forall e :: e in a <==> e in multiset(a);
    assert forall e :: e in b <==> e in multiset(b);
  }

  /** `Fields` holds each entry under its key, and nothing else. */
  lemma {:induction false} FieldsAre(sofar: map<Str, Value>, entries: seq<Entry>)
    requires Distinct(entries)
    ensures Fields(sofar, entries).Keys == sofar.Keys + Keys(entries)
    ensures forall k :: k in sofar && k !in Keys(entries) ==> Fields(sofar, entries)[k] == sofar[k]
    ensures forall e :: e in entries ==> Fields(sofar, entries)[e.key] == Image(e.value)
    decreases |entries|
  {
    if entries != [] {
      var e, more := entries[0], entries[1..];
      assert entries == [e] + more;
      FieldsAre(sofar[e.key := Image(e.value)], more);
      assert e.key !in Keys(more);
      assert Keys(entries) == {e.key} + Keys(more);
      hide Image, Keys;
    }
  }
}
