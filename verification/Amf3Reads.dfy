/**
  What the AMF3 decoder makes of forms that the encoder never writes.
 */
module Amf3Reads {
  import opened Bytes
  import opened AmfIo
  import opened Uint29
  import opened Amf3
  import opened Amf3RoundTrip
  import opened Amf3References

  // ---------------------------------------------------------------- leaves

  /** Undefined is nothing, and what is no marker of AMF3 is refused. */
  lemma SimpleRead(kind: Kind, refs: Refs, marker: byte, suffix: seq<byte>)
    requires marker <= 0x01 || marker > 0x0c
    ensures Decode(kind, refs, [marker] + suffix) == Decoding(if marker <= 0x01 then Ok(Null) else Failed, suffix, refs)
  {
    MarkerRead(kind, refs, marker, suffix);
    hide Decode, DecodeObject, DecodeString, DecodeArray, DecodeXml, DecodeDate, DecodeByteArray, DecodeInteger, DecodeDouble;
  }

  /** An integer of 29 bits is meant in two's complement. */
  lemma IntegerRead(kind: Kind, refs: Refs, n: nat, suffix: seq<byte>)
    requires n < 0x2000_0000
    ensures Decode(kind, refs, [0x04] + (EncU29(n) + suffix)) ==
            Decoding(Ok(Integer(if n < 0x1000_0000 then n else n - 0x2000_0000)), suffix, refs)
  {
    U29RoundTrip(kind, n, suffix);
    hide EncU29, DecU29;
    MarkerRead(kind, refs, 0x04, EncU29(n) + suffix);
    hide Decode, DecodeObject, DecodeString, DecodeArray, DecodeXml, DecodeDate, DecodeByteArray, DecodeDouble;
  }

  /** XML, under either marker, is a string that is remembered among the objects, unless it is empty. */
  lemma XmlRead(kind: Kind, refs: Refs, marker: byte, s: Str, suffix: seq<byte>)
    requires (marker == 0x07 || marker == 0x0b) && |s| < 0x1000_0000 && (kind == Buffer || s + suffix != [])
    ensures Decode(kind, refs, [marker] + (EncU29(2 * |s| + 1) + (s + suffix))) ==
            Decoding(Ok(Text(s)), suffix, if s == [] then refs else refs.(objects := refs.objects + [Text(s)]))
  {
    hide EncU29, Decode, DecodeXml;
    XmlBody(kind, refs, s, suffix);
    MarkerRead(kind, refs, marker, EncU29(2 * |s| + 1) + (s + suffix));
    hide DecodeObject, DecodeString, DecodeArray, DecodeDate, DecodeByteArray, DecodeInteger, DecodeDouble;
  }

  lemma XmlBody(kind: Kind, refs: Refs, s: Str, suffix: seq<byte>)
    requires |s| < 0x1000_0000 && (kind == Buffer || s + suffix != [])
    ensures DecodeXml(kind, refs, EncU29(2 * |s| + 1) + (s + suffix)) ==
            Decoding(Ok(Text(s)), suffix, if s == [] then refs else refs.(objects := refs.objects + [Text(s)]))
  {
    U29RoundTrip(kind, 2 * |s| + 1, s + suffix);
    AllGot(kind, s, suffix);
    hide EncU29, DecU29, Got, Filled;
  }

  lemma ByteArrayRead(kind: Kind, refs: Refs, s: Str, suffix: seq<byte>)
    requires |s| < 0x1000_0000 && (kind == Buffer || s + suffix != [])
    ensures Decode(kind, refs, [0x0c] + (EncU29(2 * |s| + 1) + (s + suffix))) ==
            Decoding(Ok(Blob(s)), suffix, refs.(objects := refs.objects + [Blob(s)]))
  {
    hide EncU29, Decode, DecodeByteArray;
    ByteArrayBody(kind, refs, s, suffix);
    MarkerRead(kind, refs, 0x0c, EncU29(2 * |s| + 1) + (s + suffix));
    hide DecodeObject, DecodeString, DecodeArray, DecodeDate, DecodeXml, DecodeInteger, DecodeDouble;
  }

  lemma ByteArrayBody(kind: Kind, refs: Refs, s: Str, suffix: seq<byte>)
    requires |s| < 0x1000_0000 && (kind == Buffer || s + suffix != [])
    ensures DecodeByteArray(kind, refs, EncU29(2 * |s| + 1) + (s + suffix)) ==
            Decoding(Ok(Blob(s)), suffix, refs.(objects := refs.objects + [Blob(s)]))
  {
    U29RoundTrip(kind, 2 * |s| + 1, s + suffix);
    AllGot(kind, s, suffix);
    hide EncU29, DecU29, Got, Filled;
  }

  lemma AllGot(kind: Kind, s: Str, suffix: seq<byte>)
    requires kind == Buffer || s + suffix != []
    ensures Got(kind, s + suffix, |s|) == Some(s) && Filled(s, |s|) == s && (s + suffix)[|s|..] == suffix
  {
  }

  // ------------------------------------------------------- dynamic objects

  /** Keys and values one after the other, and an empty key. */
  function EncDynamic(entries: seq<Entry>): seq<byte> {
    if entries == [] then Utf8([]) else Utf8(entries[0].key) + (Enc(entries[0].value) + EncDynamic(entries[1..]))
  }

  predicate DynamicFits(entries: seq<Entry>) {
    forall k :: 0 <= k < |entries| ==> 0 < |entries[k].key| < 0x1000_0000 && Sized(entries[k].value)
  }

  lemma EncDynamicNotEmpty(entries: seq<Entry>)
    requires DynamicFits(entries)
    ensures EncDynamic(entries) != []
  {
    Utf8Unfold([], []);
    if entries != [] {
      Utf8Unfold(entries[0].key, []);
    }
    hide Utf8;
  }

  lemma {:induction false} DynamicTrip(kind: Kind, refs: Refs, entries: seq<Entry>, sofar: map<Str, Value>, suffix: seq<byte>)
    requires DynamicFits(entries)
    ensures Comes(DecodeDynamic(kind, refs, EncDynamic(entries) + suffix, sofar), kind, suffix, true,
                  Fields(sofar, entries, true))
    decreases |entries|
  {
    hide Decode, DecodeDynamic, DecodeString, Enc, Image, Utf8, EncDynamic, Sized, EndsEmpty;
    DynamicUnfold(entries, suffix);
    if entries == [] {
      Utf8Trip(kind, refs, [], suffix);
      DynamicEnds(kind, refs, Utf8([]) + suffix, sofar);
    } else {
      var e := entries[0];
      var after := EncDynamic(entries[1..]) + suffix;
      EncDynamicNotEmpty(entries[1..]);
      MarkerFirst(e.value);
      Utf8Trip(kind, refs, e.key, Enc(e.value) + after);
      var key := DecodeString(kind, refs, Utf8(e.key) + (Enc(e.value) + after));
      RoundTrip(kind, key.refs, e.value, after);
      var v := Decode(kind, key.refs, Enc(e.value) + after);
      DynamicGoesOn(kind, refs, Utf8(e.key) + (Enc(e.value) + after), sofar);
      DynamicTrip(kind, v.refs, entries[1..], sofar[e.key := Image(e.value, true)], suffix);
    }
  }

  lemma DynamicUnfold(entries: seq<Entry>, suffix: seq<byte>)
    ensures entries == [] ==> EncDynamic(entries) + suffix == Utf8([]) + suffix
    ensures entries != [] ==>
              EncDynamic(entries) + suffix ==
              Utf8(entries[0].key) + (Enc(entries[0].value) + (EncDynamic(entries[1..]) + suffix))
  {
    hide Utf8, Enc;
    if entries != [] {
      var a, b, c := Utf8(entries[0].key), Enc(entries[0].value), EncDynamic(entries[1..]);
      PlusAssoc(a, b + c, suffix);
      PlusAssoc(b, c, suffix);
    }
  }

  lemma DynamicEnds(kind: Kind, refs: Refs, s: seq<byte>, sofar: map<Str, Value>)
    ensures var key := DecodeString(kind, refs, s);
            && (!key.out.Ok? ==> DecodeDynamic(kind, refs, s, sofar) == Decoding(Pass(key.out), key.rest, key.refs))
            && (key.out == Ok([]) ==> DecodeDynamic(kind, refs, s, sofar) == Decoding(Ok(sofar), key.rest, key.refs))
  {
    hide Decode, DecodeString;
  }

  lemma DynamicGoesOn(kind: Kind, refs: Refs, s: seq<byte>, sofar: map<Str, Value>)
    ensures var key := DecodeString(kind, refs, s);
            key.out.Ok? && key.out.value != [] ==>
            var v := Decode(kind, key.refs, key.rest);
            v.out.Ok? ==>
            DecodeDynamic(kind, refs, s, sofar) == DecodeDynamic(kind, v.refs, v.rest, sofar[key.out.value := v.out.value])
  {
    hide Decode, DecodeString;
  }

  /** A dynamic object without sealed fields has the fields that follow one by one. */
  lemma DynamicRead(kind: Kind, refs: Refs, name: Str, entries: seq<Entry>, suffix: seq<byte>)
    requires |name| < 0x1000_0000 && DynamicFits(entries)
    ensures Comes(Decode(kind, refs, [0x0a] + ([0x0b] + (Utf8(name) + (EncDynamic(entries) + suffix)))), kind, suffix, true,
                  Object(Fields(map[], entries, true)))
  {
    hide Decode, DecodeObject, DecodeFields, DecodeTrait, DecodeString, DecodeDynamic, Utf8, EncDynamic, Fields;
    var body := EncDynamic(entries) + suffix;
    EncDynamicNotEmpty(entries);
    ObjectMarked(kind, refs, [0x0b] + (Utf8(name) + body));
    SmallWord(0x0b);
    ObjectInline(kind, refs, 5, Utf8(name) + body);
    Utf8Trip(kind, refs, name, body);
    NoKeys(kind, refs, 5, Utf8(name) + body);
    var t := DecodeTrait(kind, refs, Utf8(name) + body, 5);
    DynamicOnly(kind, t.refs.(objects := t.refs.objects + [Null]), t.rest, t.out.value);
    DynamicTrip(kind, t.refs.(objects := t.refs.objects + [Null]), entries, map[], suffix);
  }

  lemma SmallWord(n: nat)
    requires n <= 0x7f
    ensures EncU29(n) == [n]
  {
  }

  /** Traits with no sealed fields: 1, 3 and 5 for none, for externalizable and for dynamic. */
  lemma NoKeys(kind: Kind, refs: Refs, word: nat, s: seq<byte>)
    requires word == 1 || word == 3 || word == 5
    ensures var name := DecodeString(kind, refs, s);
            name.out.Ok? ==>
            var t := Trait(name.out.value, word == 3, word == 5, []);
            DecodeTrait(kind, refs, s, word) == Decoding(Ok(t), name.rest, name.refs.(traits := name.refs.traits + [t]))
  {
    hide DecodeString;
  }

  lemma DynamicOnly(kind: Kind, refs: Refs, s: seq<byte>, t: Trait)
    requires t.dynamic && !t.externalizable && t.properties == []
    ensures var d := DecodeDynamic(kind, refs, s, map[]);
            DecodeFields(kind, refs, s, t) ==
            Decoding(if d.out.Ok? then Ok(Object(d.out.value)) else Pass(d.out), d.rest, d.refs)
  {
    hide DecodeDynamic, DecodeExternalizable;
  }

  // ------------------------------------------------- externalizable objects

  /** An array collection is the value behind its name, and is remembered a second time as that. */
  lemma ArrayCollectionRead(kind: Kind, refs: Refs, t: Term, suffix: seq<byte>)
    requires Sized(t)
    ensures var d := Decode(kind, refs, [0x0a] + ([0x07] + (Utf8(Ascii("flex.messaging.io.ArrayCollection")) + (Enc(t) + suffix))));
            && Comes(d, kind, suffix, EndsEmpty(t), Image(t, true))
            && (d.out.Ok? ==> d.refs.objects != [] && d.refs.objects[|d.refs.objects| - 1] == d.out.value)
  {
    hide Decode, DecodeObject, DecodeFields, DecodeTrait, DecodeString, Utf8, Enc, Image, EndsEmpty, Ascii;
    var name, body := Ascii("flex.messaging.io.ArrayCollection"), Enc(t) + suffix;
    NamesDiffer();
    MarkerFirst(t);
    ObjectMarked(kind, refs, [0x07] + (Utf8(name) + body));
    SmallWord(0x07);
    ObjectInline(kind, refs, 3, Utf8(name) + body);
    Utf8Trip(kind, refs, name, body);
    NoKeys(kind, refs, 3, Utf8(name) + body);
    var trait_ := DecodeTrait(kind, refs, Utf8(name) + body, 3);
    var now := trait_.refs.(objects := trait_.refs.objects + [Null]);
    RoundTrip(kind, now, t, body[|Enc(t)|..]);
    CollectionFields(kind, now, trait_.rest, trait_.out.value);
    assert body[|Enc(t)|..] == suffix;
  }

  lemma NamesDiffer()
    ensures var name := Ascii("flex.messaging.io.ArrayCollection");
            |name| == 33 && name != Ascii("DSA") && name != Ascii("DSK") && Ascii("DSA") != Ascii("DSK")
  {
    assert Ascii("DSA")[2] != Ascii("DSK")[2];
  }

  lemma CollectionFields(kind: Kind, refs: Refs, s: seq<byte>, t: Trait)
    requires t.externalizable && t.name == Ascii("flex.messaging.io.ArrayCollection")
    ensures var d := Decode(kind, refs, s);
            DecodeFields(kind, refs, s, t) ==
            if d.out.Ok? then d.(refs := d.refs.(objects := d.refs.objects + [d.out.value])) else d
  {
    NamesDiffer();
    hide Decode, Ascii, DecodeSealed, DecodeDynamic, DecodeAsyncMessage, DecodeExternal;
  }

  /** Externalizable objects of any other type are refused. */
  lemma OtherTypeRefused(kind: Kind, refs: Refs, s: seq<byte>, t: Trait)
    requires t.externalizable && t.name != Ascii("DSA") && t.name != Ascii("DSK")
    requires t.name != Ascii("flex.messaging.io.ArrayCollection")
    ensures DecodeFields(kind, refs, s, t) == Decoding(Failed, s, refs)
  {
    hide Decode, Ascii, DecodeSealed, DecodeDynamic, DecodeAsyncMessage, DecodeExternal;
  }

  /** The name of the field that bit `p` of byte `i` of the flags announces, if it announces one. */
  function FieldOf(fieldSets: seq<seq<Str>>, i: nat, p: nat): Option<Str> {
    var names := if i < |fieldSets| then fieldSets[i] else [];
    if p < |names| then Some(names[p])
    else if p < 6 then Some(Ascii("extra_") + Decimal(i) + Ascii("_") + Decimal(p))
    else None
  }

  /** The fields announced by the bits of byte `i` from number `p` on, lowest first. */
  function FieldsOfByte(b: byte, fieldSets: seq<seq<Str>>, i: nat, p: nat): seq<Str>
    decreases 8 - p
  {
    if p >= 8 then []
    else
      (if b / Pow2(p) % 2 == 1 && FieldOf(fieldSets, i, p).Some? then [FieldOf(fieldSets, i, p).value] else []) +
      FieldsOfByte(b, fieldSets, i, p + 1)
  }

  function FieldsOfBytes(flags: seq<byte>, fieldSets: seq<seq<Str>>, i: nat): seq<Str>
    decreases |flags| - i
  {
    if i >= |flags| then [] else FieldsOfByte(flags[i], fieldSets, i, 0) + FieldsOfBytes(flags, fieldSets, i + 1)
  }

  /** The keys of an external object are the fields of its flags, bit by bit and byte by byte. */
  lemma {:induction false} KeysAreFields(flags: seq<byte>, fieldSets: seq<seq<Str>>, i: nat)
    requires forall k :: 0 <= k < |fieldSets| ==> |fieldSets[k]| <= 8
    ensures FlaggedKeys(flags, i, fieldSets) == FieldsOfBytes(flags, fieldSets, i)
    decreases |flags| - i
  {
    hide NamedKeys, ExtraKeys, FieldsOfByte;
    if i < |flags| {
      KeysAreFields(flags, fieldSets, i + 1);
      ByteKeys(flags[i], fieldSets, i, 0);
    }
  }

  lemma {:induction false} ByteKeys(b: byte, fieldSets: seq<seq<Str>>, i: nat, p: nat)
    requires forall k :: 0 <= k < |fieldSets| ==> |fieldSets[k]| <= 8
    requires p <= 8
    ensures var names := if i < |fieldSets| then fieldSets[i] else [];
            FieldsOfByte(b, fieldSets, i, p) ==
            if p <= |names| then NamedKeys(b, names, p) + ExtraKeys(b, i, |names|) else ExtraKeys(b, i, p)
    decreases 8 - p
  {
    hide FieldsOfByte, FieldOf, NamedKeys, ExtraKeys, Bit;
    var names := if i < |fieldSets| then fieldSets[i] else [];
    FieldsUnfold(b, fieldSets, i, p);
    KeysUnfold(b, names, i, p);
    assert [] + ExtraKeys(b, i, p) == ExtraKeys(b, i, p);
    if p < 8 {
      ByteKeys(b, fieldSets, i, p + 1);
      if p < |names| {
        PlusAssoc(if Bit(b, p) then [names[p]] else [], NamedKeys(b, names, p + 1), ExtraKeys(b, i, |names|));
      } else {
        KeysUnfold(b, names, i, p + 1);
        assert [] + ExtraKeys(b, i, p + 1) == ExtraKeys(b, i, p + 1);
      }
    }
  }

  lemma FieldsUnfold(b: byte, fieldSets: seq<seq<Str>>, i: nat, p: nat)
    ensures p >= 8 ==> FieldsOfByte(b, fieldSets, i, p) == []
    ensures p < 8 ==>
              FieldsOfByte(b, fieldSets, i, p) ==
              (if Bit(b, p) && FieldOf(fieldSets, i, p).Some? then [FieldOf(fieldSets, i, p).value] else []) +
              FieldsOfByte(b, fieldSets, i, p + 1)
    ensures var names := if i < |fieldSets| then fieldSets[i] else [];
            FieldOf(fieldSets, i, p) ==
            if p < |names| then Some(names[p]) else if p < 6 then Some(ExtraKey(i, p)) else None
  {
    hide Ascii, Decimal, Pow2;
  }

  function ExtraKey(i: nat, j: nat): Str {
    Ascii("extra_") + Decimal(i) + Ascii("_") + Decimal(j)
  }

  lemma KeysUnfold(b: byte, names: seq<Str>, i: nat, p: nat)
    ensures NamedKeys(b, names, p) ==
            if p >= |names| then [] else (if Bit(b, p) then [names[p]] else []) + NamedKeys(b, names, p + 1)
    ensures ExtraKeys(b, i, p) ==
            if p >= 6 then [] else (if Bit(b, p) then [ExtraKey(i, p)] else []) + ExtraKeys(b, i, p + 1)
  {
    hide Ascii, Decimal, Pow2;
  }

  /** Flags go on as long as the top bit is set. */
  lemma {:induction false} FlagsRead(kind: Kind, front: seq<byte>, last: byte, rest: seq<byte>)
    requires last < 0x80 && forall k :: 0 <= k < |front| ==> front[k] >= 0x80
    ensures ReadFlags(kind, front + ([last] + rest)) == Decoded(Some(front + [last]), rest)
    decreases |front|
  {
    hide Take;
    if front == [] {
      assert front + ([last] + rest) == [last] + rest && front + [last] == [last];
      TakeFront(kind, [last], rest);
    } else {
      var more := front[1..] + ([last] + rest);
      assert front + ([last] + rest) == [front[0]] + more;
      TakeFront(kind, [front[0]], more);
      FlagsRead(kind, front[1..], last, rest);
      assert [front[0]] + (front[1..] + [last]) == front + [last];
    }
  }

  /** One group of flags and the fields they announce, added to those read before. */
  function Group(kind: Kind, d: Decoding<map<Str, Value>>, fieldSets: seq<seq<Str>>): Decoding<map<Str, Value>> {
    if !d.out.Ok? then d
    else
      var flags := ReadFlags(kind, d.rest);
      if flags.value.None? then Decoding(Failed, flags.rest, d.refs)
      else DecodeSealed(kind, d.refs, flags.rest, FieldsOfBytes(flags.value.value, fieldSets, 0), d.out.value)
  }

  /** The two types of message: an abstract message and an asynchronous one, and for an acknowledgement a third group. */
  lemma MessageRead(kind: Kind, refs: Refs, s: seq<byte>, t: Trait)
    requires t.externalizable && (t.name == Ascii("DSA") || t.name == Ascii("DSK"))
    ensures var abstract_ := Group(kind, Decoding(Ok(map[]), s, refs),
              [[Ascii("body"), Ascii("clientId"), Ascii("destination"), Ascii("headers"), Ascii("messageId"),
                Ascii("timeStamp"), Ascii("timeToLive")], [Ascii("clientIdBytes"), Ascii("messageIdBytes")]]);
            var async := Group(kind, abstract_, [[Ascii("correlationId"), Ascii("correlationIdBytes")]]);
            var d := if t.name == Ascii("DSK") then Group(kind, async, []) else async;
            DecodeFields(kind, refs, s, t) ==
            Decoding(if d.out.Ok? then Ok(Object(d.out.value)) else Pass(d.out), d.rest, d.refs)
  {
    NamesDiffer();
    hide DecodeSealed, DecodeDynamic, DecodeExternal, Group, Ascii, Decode;
    ExternalIsGroup(kind, Decoding(Ok(map[]), s, refs), ABSTRACT_MESSAGE);
    var a := DecodeExternal(kind, refs, s, ABSTRACT_MESSAGE, map[]);
    ExternalIsGroup(kind, a, ASYNC_MESSAGE);
    ExternalIsGroup(kind, DecodeAsyncMessage(kind, refs, s), []);
  }

  lemma ExternalIsGroup(kind: Kind, d: Decoding<map<Str, Value>>, fieldSets: seq<seq<Str>>)
    requires forall k :: 0 <= k < |fieldSets| ==> |fieldSets[k]| <= 8
    ensures Group(kind, d, fieldSets) ==
            if d.out.Ok? then DecodeExternal(kind, d.refs, d.rest, fieldSets, d.out.value) else d
  {
    hide DecodeSealed, FlaggedKeys, FieldsOfBytes, ReadFlags;
    var flags := ReadFlags(kind, d.rest);
    if d.out.Ok? && flags.value.Some? {
      KeysAreFields(flags.value.value, fieldSets, 0);
    }
  }
}
