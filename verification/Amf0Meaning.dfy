/**
  When the value that comes back over AMF0 is the value that was meant, and what
  the decoder cannot come to without switching to AMF3.
 */
module Amf0Meaning {
  import opened Bytes
  import opened AmfIo
  import opened Amf0
  import Amf3
  import Amf3RoundTrip

  // ------------------------------------------------- when a value comes back

  /**
    What the encoder writes in full, but for the lengths of its keys: a key over
    65535 bytes is written behind a length that is too short for it. It may stand in
    any map that no other map holds.
   */
  predicate Writable(t: Term)
    decreases t
  {
    match t
    case Slice(items) => |items| < 0x1_0000_0000 && AllWritable(items)
    case Map(entries) => Sized(t) || (Encodable(t) && HasLongKey(entries))
    case _ => Sized(t)
  }

  predicate AllWritable(items: seq<Term>)
    decreases items
  {
    items == [] || (Writable(items[0]) && AllWritable(items[1..]))
  }

  predicate HasLongKey(entries: seq<Entry>) {
    exists e :: e in entries && |e.key| > STRING_MAX
  }

  /** What the encoder writes in full, with keys of any length at any depth, and no key twice in a map. */
  predicate Roomy(t: Term)
    decreases t
  {
    match t
    case Slice(items) => |items| < 0x1_0000_0000 && AllRoomy(items)
    case Map(entries) => Distinct(entries) && AllValuesRoomy(entries)
    case _ => Sized(t)
  }

  predicate AllRoomy(items: seq<Term>)
    decreases items
  {
    items == [] || (Roomy(items[0]) && AllRoomy(items[1..]))
  }

  predicate AllValuesRoomy(entries: seq<Entry>)
    decreases entries
  {
    entries == [] || (Roomy(entries[0].value) && AllValuesRoomy(entries[1..]))
  }

  /**
    A value comes back exactly if every key in it, however deep, fits its length and
    is not empty, and no empty read is refused at the end. A key that is too long may
    stand anywhere if there is no byte that switches to AMF3.
   */
  lemma RoundTripIff(kind: Kind, refs: Refs, t: Term, suffix: seq<byte>)
    requires Writable(t) || (Roomy(t) && SWITCH !in Enc(t) + suffix)
    ensures Decode(kind, refs, Enc(t) + suffix) == Decoding(Ok(Image(t)), suffix, refs) <==>
            Fits(t) && !Starved(kind, t, suffix)
  {
    hide Decode, Enc, Image, Sized, HasEmptyKey, Writable, Roomy;
    if Fits(t) {
      RoundTrip(kind, refs, t, suffix);
    } else if Sized(t) {
      EmptyKeyFails(kind, refs, t, suffix);
    } else if Writable(t) {
      LongKeySpoils(kind, refs, t, suffix);
    } else {
      Unswitched(kind, refs, Enc(t) + suffix);
      LongKeyShows(t);
    }
  }

  /** The object the decoder makes of a map with a key that is too long has no such key. */
  lemma {:induction false} LongKeySpoils(kind: Kind, refs: Refs, t: Term, suffix: seq<byte>)
    requires Writable(t) && !Sized(t)
    ensures Decode(kind, refs, Enc(t) + suffix).out != Ok(Image(t))
    decreases t
  {
    match t
    case Slice(items) =>
      LongKeyInItems(kind, refs, items, [], suffix);
      ArrayRead(kind, refs, items, suffix);
      assert [] + Images(items) == Images(items);
    case Map(entries) =>
      ObjectRead(kind, refs, entries, suffix);
      KeysAreShort(kind, refs, EncEntries(entries) + suffix, map[]);
      hide Decode, DecodeObject, Fields;
      FieldsKeys(map[], entries);
  }

  lemma {:induction false} LongKeyInItems(kind: Kind, refs: Refs, items: seq<Term>, sofar: seq<Value>, suffix: seq<byte>)
    requires AllWritable(items) && !AllSized(items)
    ensures DecodeItems(kind, refs, EncItems(items) + suffix, |items|, sofar).out != Ok(sofar + Images(items))
    decreases items
  {
    hide Decode, DecodeItems, Enc, EncItems, Image, Images, Sized, HasEmptyKey, Encodable, Writable, EndsEmpty;
    var after := EncItems(items[1..]) + suffix;
    var now := sofar + [Image(items[0])];
    WritableIsEncodable(items[0]);
    ItemsUnfold(items, sofar, suffix);
    ItemsStep(kind, refs, Enc(items[0]) + after, |items|, sofar);
    if !Sized(items[0]) {
      LongKeySpoils(kind, refs, items[0], after);
      var v := Decode(kind, refs, Enc(items[0]) + after);
      if v.out.Ok? {
        ItemsAreAdded(kind, v.refs, v.rest, |items| - 1, sofar + [v.out.value]);
        FirstDiffers(sofar, v.out.value, Image(items[0]), Images(items[1..]));
      }
    } else if HasEmptyKey(items[0]) {
      EmptyKeyFails(kind, refs, items[0], after);
    } else {
      RoundTrip(kind, refs, items[0], after);
      WritableNotEmpty(items[1..]);
      LongKeyInItems(kind, refs, items[1..], now, suffix);
    }
  }

  lemma FirstDiffers(sofar: seq<Value>, v: Value, w: Value, more: seq<Value>)
    requires v != w
    ensures !(sofar + [v] <= sofar + [w] + more)
  {
    assert (sofar + [v])[|sofar|] == v;
  }

  lemma {:induction false} WritableIsEncodable(t: Term)
    requires Writable(t)
    ensures Encodable(t) && Enc(t) != []
    decreases t
  {
    match t
    case Slice(items) => AllWritableEncodable(items);
    case _ =>
      if Sized(t) {
        SizedIsEncodable(t);
      }
  }

  lemma {:induction false} AllWritableEncodable(items: seq<Term>)
    requires AllWritable(items)
    ensures AllEncodable(items)
    decreases items
  {
    if items != [] {
      WritableIsEncodable(items[0]);
      AllWritableEncodable(items[1..]);
    }
  }

  lemma WritableNotEmpty(items: seq<Term>)
    requires AllWritable(items) && !AllSized(items)
    ensures EncItems(items) != []
  {
    WritableIsEncodable(items[0]);
  }

  /** Whatever is decoded as an object has no key that two bytes cannot count. */
  lemma {:induction false} KeysAreShort(kind: Kind, refs: Refs, s: seq<byte>, sofar: map<Str, Value>)
    requires forall k :: k in sofar ==> |k| <= STRING_MAX
    ensures var d := DecodeObject(kind, refs, s, sofar); d.out.Ok? ==> forall k :: k in d.out.value ==> |k| <= STRING_MAX
    decreases |s|
  {
    KeyIsShort(kind, s);
    hide Decode, DecodeString, Take;
    var key := DecodeString(kind, s, 2);
    if key.value.Some? && key.value.value != [] {
      var v := Decode(kind, refs, key.rest);
      if v.out.Ok? {
        KeysAreShort(kind, v.refs, v.rest, sofar[key.value.value := v.out.value]);
      }
    }
  }

  lemma KeyIsShort(kind: Kind, s: seq<byte>)
    ensures var key := DecodeString(kind, s, 2); key.value.Some? ==> |key.value.value| <= STRING_MAX
  {
    var length := Take(kind, s, 2);
    if length.value.Some? {
      FromBEBound(length.value.value);
      Pow256Values();
    }
  }

  /** The values already read stay as they are. */
  lemma {:induction false} ItemsAreAdded(kind: Kind, refs: Refs, s: seq<byte>, n: nat, sofar: seq<Value>)
    ensures var d := DecodeItems(kind, refs, s, n, sofar); d.out.Ok? ==> sofar <= d.out.value
    decreases n
  {
    hide Decode;
    if n > 0 {
      var v := Decode(kind, refs, s);
      if v.out.Ok? {
        ItemsAreAdded(kind, v.refs, v.rest, n - 1, sofar + [v.out.value]);
      }
    }
  }

  lemma {:induction false} FieldsKeys(sofar: map<Str, Value>, entries: seq<Entry>)
    ensures Fields(sofar, entries).Keys == sofar.Keys + Keys(entries)
    decreases |entries|
  {
    if entries != [] {
      var e, more := entries[0], entries[1..];
      assert entries == [e] + more;
      FieldsKeys(sofar[e.key := Image(e.value)], more);
      assert Keys(entries) == {e.key} + Keys(more);
      hide Image, Keys;
    }
  }

  /** An empty key reads as the end of its map, and no value starts with the end marker. */
  lemma {:induction false} EmptyKeyFails(kind: Kind, refs: Refs, t: Term, suffix: seq<byte>)
    requires Sized(t) && HasEmptyKey(t)
    ensures Decode(kind, refs, Enc(t) + suffix).out == Failed
    decreases t
  {
    match t
    case Slice(items) =>
      EmptyKeyInItems(kind, refs, items, [], suffix);
      ArrayRead(kind, refs, items, suffix);
    case Map(entries) =>
      EmptyKeyInEntries(kind, refs, entries, map[], suffix);
      ObjectRead(kind, refs, entries, suffix);
  }

  lemma {:induction false} EmptyKeyInItems(kind: Kind, refs: Refs, items: seq<Term>, sofar: seq<Value>, suffix: seq<byte>)
    requires AllSized(items) && AnyHasEmptyKey(items)
    ensures DecodeItems(kind, refs, EncItems(items) + suffix, |items|, sofar).out == Failed
    decreases items
  {
    var after := EncItems(items[1..]) + suffix;
    SizedIsEncodable(items[0]);
    hide Decode, Enc, Image;
    assert EncItems(items) + suffix == Enc(items[0]) + after;
    if Fits(items[0]) {
      RoundTrip(kind, refs, items[0], after);
      EmptyKeyInItems(kind, refs, items[1..], sofar + [Image(items[0])], suffix);
    } else {
      EmptyKeyFails(kind, refs, items[0], after);
    }
  }

  lemma {:induction false} EmptyKeyInEntries(kind: Kind, refs: Refs, entries: seq<Entry>, sofar: map<Str, Value>, suffix: seq<byte>)
    requires AllValuesSized(entries) && EntriesHaveEmptyKey(entries)
    ensures DecodeObject(kind, refs, EncEntries(entries) + suffix, sofar).out == Failed
    decreases entries
  {
    var e := entries[0];
    var after := EncEntries(entries[1..]) + suffix;
    var more := Enc(e.value) + after;
    EntriesUnfold(entries, suffix);
    hide Decode, DecodeObject, EncString, EncEntries, Enc, Image, Sized;
    if e.key == [] {
      EmptyKeyRead(kind, refs, more, sofar);
    } else {
      EntryRead(kind, refs, e.key, more, sofar);
      if HasEmptyKey(e.value) {
        EmptyKeyFails(kind, refs, e.value, after);
      } else {
        RoundTrip(kind, refs, e.value, after);
        EmptyKeyInEntries(kind, refs, entries[1..], sofar[e.key := Image(e.value)], suffix);
      }
    }
  }

  // --------------------------------------------- without the switch to AMF3

  /** The marker that switches to AMF3. */
  const SWITCH: byte := 0x11

  /** No object in it, however deep, has a key over 65535 bytes. */
  predicate KeysShort(v: Value)
    decreases v
  {
    match v
    case Array(items) => forall i :: 0 <= i < |items| ==> KeysShort(items[i])
    case Object(fields) => forall k :: k in fields ==> |k| <= STRING_MAX && KeysShort(fields[k])
    case TypedObject(_, fields) => forall k :: k in fields ==> |k| <= STRING_MAX && KeysShort(fields[k])
    case _ => true
  }

  /** Nothing that AMF0 cannot come to by itself: no panic, no reference remembered, no long key. */
  predicate Tame(d: Decoding<Value>, refs: Refs) {
    !d.out.Panics? && d.refs == refs && SWITCH !in d.rest && (d.out.Ok? ==> KeysShort(d.out.value))
  }

  lemma TakeKeeps(kind: Kind, s: seq<byte>, n: nat)
    requires SWITCH !in s
    ensures SWITCH !in Take(kind, s, n).rest
  {
  }

  lemma StringKeeps(kind: Kind, s: seq<byte>, width: nat)
    requires SWITCH !in s
    ensures SWITCH !in DecodeString(kind, s, width).rest
  {
    hide Take;
    var length := Take(kind, s, width);
    TakeKeeps(kind, s, width);
    if length.value.Some? {
      TakeKeeps(kind, length.rest, FromBE(length.value.value));
    }
  }

  /** Whatever bytes are decoded, without the byte of the switch in them the decoder stays within AMF0. */
  lemma {:induction false} Unswitched(kind: Kind, refs: Refs, s: seq<byte>)
    requires SWITCH !in s
    ensures Tame(Decode(kind, refs, s), refs)
    decreases |s|, 0
  {
    hide DecodeBody, KeysShort;
    var m := Take(kind, s, 1);
    TakeKeeps(kind, s, 1);
    if m.value.Some? {
      assert m.value.value[0] == s[0];
      UnswitchedBody(kind, refs, m.value.value[0], m.rest);
    }
  }

  lemma {:induction false} UnswitchedBody(kind: Kind, refs: Refs, marker: byte, s: seq<byte>)
    requires marker != SWITCH && SWITCH !in s
    ensures Tame(DecodeBody(kind, refs, marker, s), refs)
    decreases |s|, 3
  {
    hide DecodeNumber, DecodeBoolean, DecodeString, DecodeDate, DecodeObject, DecodeItems, Take, Amf3.Decode;
    if marker == 0x03 || marker == 0x08 || marker == 0x10 {
      UnswitchedObjects(kind, refs, marker, s);
    } else if marker == 0x0a {
      UnswitchedArray(kind, refs, s);
    } else {
      LeafKeeps(kind, s);
    }
  }

  lemma LeafKeeps(kind: Kind, s: seq<byte>)
    requires SWITCH !in s
    ensures forall d :: d == DecodeNumber(kind, s) || d == DecodeBoolean(kind, s) || d == DecodeDate(kind, s) ==>
              SWITCH !in d.rest && (d.value.Some? ==> KeysShort(d.value.value))
    ensures SWITCH !in DecodeString(kind, s, 2).rest && SWITCH !in DecodeString(kind, s, 4).rest
  {
    hide Take;
    TakeKeeps(kind, s, 8);
    TakeKeeps(kind, s, 1);
    TakeKeeps(kind, Take(kind, s, 8).rest, 2);
    StringKeeps(kind, s, 2);
    StringKeeps(kind, s, 4);
  }

  lemma {:induction false} UnswitchedObjects(kind: Kind, refs: Refs, marker: byte, s: seq<byte>)
    requires (marker == 0x03 || marker == 0x08 || marker == 0x10) && SWITCH !in s
    ensures Tame(DecodeBody(kind, refs, marker, s), refs)
    decreases |s|, 2
  {
    hide DecodeNumber, DecodeBoolean, DecodeString, DecodeDate, DecodeObject, DecodeArray, Take, Amf3.Decode;
    TakeKeeps(kind, s, 4);
    StringKeeps(kind, s, 2);
    if marker == 0x03 {
      UnswitchedObject(kind, refs, s, map[]);
    } else if marker == 0x08 {
      UnswitchedObject(kind, refs, Take(kind, s, 4).rest, map[]);
    } else if DecodeString(kind, s, 2).value.Some? {
      UnswitchedObject(kind, refs, DecodeString(kind, s, 2).rest, map[]);
    }
  }

  lemma {:induction false} UnswitchedArray(kind: Kind, refs: Refs, s: seq<byte>)
    requires SWITCH !in s
    ensures Tame(DecodeArray(kind, refs, s), refs)
    decreases |s|, 2
  {
    hide DecodeItems, Take;
    TakeKeeps(kind, s, 4);
    var length := Take(kind, s, 4);
    if length.value.Some? {
      UnswitchedItems(kind, refs, length.rest, FromBE(length.value.value), []);
    }
  }

  lemma {:induction false} UnswitchedItems(kind: Kind, refs: Refs, s: seq<byte>, n: nat, sofar: seq<Value>)
    requires SWITCH !in s && forall i :: 0 <= i < |sofar| ==> KeysShort(sofar[i])
    ensures Tame(AsArray(DecodeItems(kind, refs, s, n, sofar)), refs)
    decreases |s|, 1
  {
    hide Decode;
    if n > 0 {
      Unswitched(kind, refs, s);
      var v := Decode(kind, refs, s);
      if v.out.Ok? {
        UnswitchedItems(kind, v.refs, v.rest, n - 1, sofar + [v.out.value]);
      }
    }
  }

  lemma {:induction false} UnswitchedObject(kind: Kind, refs: Refs, s: seq<byte>, sofar: map<Str, Value>)
    requires SWITCH !in s && forall k :: k in sofar ==> |k| <= STRING_MAX && KeysShort(sofar[k])
    ensures Tame(AsObject(DecodeObject(kind, refs, s, sofar)), refs)
    decreases |s|, 1
  {
    hide Decode, DecodeString, Take;
    var key := DecodeString(kind, s, 2);
    StringKeeps(kind, s, 2);
    KeyIsShort(kind, s);
    TakeKeeps(kind, key.rest, 1);
    if key.value.Some? && key.value.value != [] {
      Unswitched(kind, refs, key.rest);
      var v := Decode(kind, refs, key.rest);
      if v.out.Ok? {
        UnswitchedObject(kind, v.refs, v.rest, sofar[key.value.value := v.out.value]);
      }
    }
  }

  /** A key that is too long shows in the value, at whatever depth it stands. */
  lemma {:induction false} LongKeyShows(t: Term)
    requires Roomy(t) && !Sized(t)
    ensures !KeysShort(Image(t))
    decreases t
  {
    match t
    case Slice(items) => LongKeyInSlice(items);
    case Map(entries) =>
      FieldsAre(map[], entries);
      LongKeyInMap(entries, Fields(map[], entries));
  }

  lemma {:induction false} LongKeyInSlice(items: seq<Term>)
    requires AllRoomy(items) && !AllSized(items)
    ensures exists i :: 0 <= i < |items| && !KeysShort(Images(items)[i])
    decreases items
  {
    var images := Images(items);
    if !Sized(items[0]) {
      LongKeyShows(items[0]);
      assert !KeysShort(images[0]);
    } else {
      LongKeyInSlice(items[1..]);
      var i :| 0 <= i < |items| - 1 && !KeysShort(Images(items[1..])[i]);
      assert images[i + 1] == Images(items[1..])[i];
    }
  }

  lemma {:induction false} LongKeyInMap(entries: seq<Entry>, fields: map<Str, Value>)
    requires AllValuesRoomy(entries) && !AllValuesSized(entries)
    requires forall e :: e in entries ==> e.key in fields && fields[e.key] == Image(e.value)
    ensures exists k :: k in fields && (|k| > STRING_MAX || !KeysShort(fields[k]))
    decreases entries
  {
    var e := entries[0];
    assert e in entries;
    if |e.key| <= STRING_MAX {
      if !Sized(e.value) {
        LongKeyShows(e.value);
      } else {
        assert forall x :: x in entries[1..] ==> x in entries;
        LongKeyInMap(entries[1..], fields);
      }
    }
  }

  // -------------------------------------------- what only the decoder knows

  /** An ECMA array is an object behind four bytes of a count that says nothing. */
  lemma EcmaArrayRead(kind: Kind, refs: Refs, n: uint32, entries: seq<Entry>, suffix: seq<byte>)
    requires AllValuesFit(entries)
    ensures Decode(kind, refs, [0x08] + (BE(n, 4) + (EncEntries(entries) + suffix))) ==
            Decoding(Ok(Object(Fields(map[], entries))), suffix, refs)
  {
    hide BE, EncEntries, DecodeObject, Fields;
    var body := EncEntries(entries) + suffix;
    TakeFront(kind, BE(n, 4), body);
    EntriesTrip(kind, refs, entries, map[], suffix);
    MarkerRead(kind, refs, 0x08, BE(n, 4) + body);
    hide Take, Decode, DecodeNumber, DecodeBoolean, DecodeString, DecodeArray, DecodeDate, DecodeTyped, Amf3.Decode;
  }

  /** Null, undefined and unsupported are all nothing. */
  lemma NothingRead(kind: Kind, refs: Refs, marker: byte, suffix: seq<byte>)
    requires marker == 0x05 || marker == 0x06 || marker == 0x0d
    ensures Decode(kind, refs, [marker] + suffix) == Decoding(Ok(Null), suffix, refs)
  {
    MarkerRead(kind, refs, marker, suffix);
    hide Decode, DecodeNumber, DecodeBoolean, DecodeString, DecodeArray, DecodeObject, DecodeDate, DecodeTyped, Amf3.Decode;
  }

  /** A date is its double; the two bytes of time zone behind it are read and dropped. */
  lemma DateRead(kind: Kind, refs: Refs, ms: Double, zone: seq<byte>, suffix: seq<byte>)
    requires |zone| == 2
    ensures Decode(kind, refs, [0x0b] + (ms + (zone + suffix))) == Decoding(Ok(Number(ms)), suffix, refs)
  {
    TakeFront(kind, ms, zone + suffix);
    TakeFront(kind, zone, suffix);
    MarkerRead(kind, refs, 0x0b, ms + (zone + suffix));
    hide Take, Decode, DecodeBoolean, DecodeString, DecodeArray, DecodeObject, DecodeTyped, Amf3.Decode;
  }

  /** Long strings, however short they are, and XML documents are strings behind four bytes of length. */
  lemma LongStringRead(kind: Kind, refs: Refs, marker: byte, s: Str, suffix: seq<byte>)
    requires (marker == 0x0c || marker == 0x0f) && |s| < 0x1_0000_0000 && (kind == Buffer || s + suffix != [])
    ensures Decode(kind, refs, [marker] + (BE(|s|, 4) + s + suffix)) == Decoding(Ok(Text(s)), suffix, refs)
  {
    Pow256Values();
    StringTrip(kind, s, 4, suffix);
    hide BE, DecodeString;
    MarkerRead(kind, refs, marker, BE(|s|, 4) + s + suffix);
    hide Take, Decode, DecodeNumber, DecodeBoolean, DecodeArray, DecodeObject, DecodeDate, DecodeTyped, Amf3.Decode;
  }

  /** A typed object is an object behind the name of its class. */
  lemma TypedObjectRead(kind: Kind, refs: Refs, name: Str, entries: seq<Entry>, suffix: seq<byte>)
    requires |name| <= 65535 && AllValuesFit(entries)
    ensures Decode(kind, refs, [0x10] + (EncString(name) + (EncEntries(entries) + suffix))) ==
            Decoding(Ok(TypedObject(name, Fields(map[], entries))), suffix, refs)
  {
    hide EncString, EncEntries, DecodeObject, DecodeString, Fields;
    var body := EncEntries(entries) + suffix;
    EntriesNotEmpty(entries);
    KeyRead(kind, name, body);
    EntriesTrip(kind, refs, entries, map[], suffix);
    MarkerRead(kind, refs, 0x10, EncString(name) + body);
    hide Take, Decode, DecodeNumber, DecodeBoolean, DecodeArray, DecodeDate, Amf3.Decode;
  }

  /** Behind the switch a value of AMF3 is read as AMF3 reads it. */
  lemma SwitchedRead(kind: Kind, refs: Refs, t: Term, suffix: seq<byte>)
    requires Amf3RoundTrip.Sized(t)
    ensures Amf3RoundTrip.Comes(Decode(kind, refs, [0x11] + (Amf3.Enc(t) + suffix)), kind, suffix,
                                Amf3RoundTrip.EndsEmpty(t), Amf3RoundTrip.Image(t, true))
  {
    hide Amf3.Decode, Amf3.Enc, Amf3RoundTrip.Image, Amf3RoundTrip.Sized, Amf3RoundTrip.EndsEmpty;
    Amf3RoundTrip.RoundTrip(kind, refs, t, suffix);
    MarkerRead(kind, refs, 0x11, Amf3.Enc(t) + suffix);
    hide Decode, DecodeNumber, DecodeBoolean, DecodeString, DecodeArray, DecodeObject, DecodeDate, DecodeTyped;
  }

  /** Movie clips, references, stray end markers, record sets and unknown markers are refused, as are booleans other than 0 and 1. */
  lemma MarkerRefused(kind: Kind, refs: Refs, marker: byte, suffix: seq<byte>)
    requires marker == 0x04 || marker == 0x07 || marker == 0x09 || marker == 0x0e || marker > 0x11 ||
             (marker == 0x01 && suffix != [] && suffix[0] > 1)
    ensures Decode(kind, refs, [marker] + suffix) ==
            Decoding(Failed, if marker == 0x01 then suffix[1..] else suffix, refs)
  {
    if marker == 0x01 {
      assert suffix == [suffix[0]] + suffix[1..];
      TakeFront(kind, [suffix[0]], suffix[1..]);
    }
    MarkerRead(kind, refs, marker, suffix);
    hide Take, Decode, DecodeNumber, DecodeString, DecodeArray, DecodeObject, DecodeDate, DecodeTyped, Amf3.Decode;
  }
}
