/**
  The reference tables of the AMF3 decoder: they only grow, and which entry a
  reference names.
 */
module Amf3References {
  import opened Bytes
  import opened AmfIo
  import opened Uint29
  import opened Amf3
  import opened Amf3RoundTrip

  // ------------------------------------------------------- tables only grow

  predicate Grown(was: Refs, now: Refs) {
    was.strings <= now.strings && was.objects <= now.objects && was.traits <= now.traits
  }

  /** Whatever is decoded, what was remembered before stays where it is. */
  lemma {:induction false} TablesGrow(kind: Kind, refs: Refs, s: seq<byte>)
    ensures Grown(refs, Decode(kind, refs, s).refs)
    decreases |s|, 0
  {
    hide DecodeBody, Take;
    var m := Take(kind, s, 1);
    if m.value.Some? {
      BodyGrows(kind, refs, m.value.value[0], m.rest);
    }
  }

  lemma {:induction false} BodyGrows(kind: Kind, refs: Refs, marker: byte, s: seq<byte>)
    ensures Grown(refs, DecodeBody(kind, refs, marker, s).refs)
    decreases |s|, 5
  {
    hide DecodeString, DecodeXml, DecodeDate, DecodeByteArray, DecodeArray, DecodeObject, DecU29, Take;
    if marker == 0x09 {
      ArrayGrows(kind, refs, s);
    } else if marker == 0x0a {
      ObjectGrows(kind, refs, s);
    } else {
      LeavesGrow(kind, refs, s);
    }
  }

  lemma LeavesGrow(kind: Kind, refs: Refs, s: seq<byte>)
    ensures Grown(refs, DecodeString(kind, refs, s).refs) && Grown(refs, DecodeXml(kind, refs, s).refs)
    ensures Grown(refs, DecodeDate(kind, refs, s).refs) && Grown(refs, DecodeByteArray(kind, refs, s).refs)
    ensures DecodeString(kind, refs, s).refs.objects == refs.objects && DecodeString(kind, refs, s).refs.traits == refs.traits
  {
    hide DecU29, Take, Got, Filled;
  }

  lemma {:induction false} ArrayGrows(kind: Kind, refs: Refs, s: seq<byte>)
    ensures Grown(refs, DecodeArray(kind, refs, s).refs)
    decreases |s|, 4
  {
    hide DecodeString, DecodeItems, DecU29;
    var u := DecU29(kind, s, 0, 0);
    if u.value.Some? && u.value.value % 2 == 1 {
      var key := DecodeString(kind, refs, u.rest);
      LeavesGrow(kind, refs, u.rest);
      if key.out == Ok([]) {
        ItemsGrow(kind, key.refs, key.rest, u.value.value / 2, []);
      }
    }
  }

  lemma {:induction false} ItemsGrow(kind: Kind, refs: Refs, s: seq<byte>, n: nat, sofar: seq<Value>)
    ensures Grown(refs, DecodeItems(kind, refs, s, n, sofar).refs)
    decreases |s|, 1
  {
    hide Decode;
    if n > 0 {
      TablesGrow(kind, refs, s);
      var v := Decode(kind, refs, s);
      if v.out.Ok? {
        ItemsGrow(kind, v.refs, v.rest, n - 1, sofar + [v.out.value]);
      }
    }
  }

  lemma {:induction false} ObjectGrows(kind: Kind, refs: Refs, s: seq<byte>)
    ensures Grown(refs, DecodeObject(kind, refs, s).refs)
    decreases |s|, 4
  {
    hide DecodeTrait, DecodeFields, DecU29;
    var u := DecU29(kind, s, 0, 0);
    if u.value.Some? && u.value.value % 2 == 1 {
      var t := DecodeTrait(kind, refs, u.rest, u.value.value / 2);
      TraitGrows(kind, refs, u.rest, u.value.value / 2);
      if t.out.Ok? {
        FieldsGrow(kind, t.refs.(objects := t.refs.objects + [Null]), t.rest, t.out.value);
      }
    }
  }

  lemma TraitGrows(kind: Kind, refs: Refs, s: seq<byte>, word: nat)
    ensures Grown(refs, DecodeTrait(kind, refs, s, word).refs) && DecodeTrait(kind, refs, s, word).refs.objects == refs.objects
  {
    hide DecodeString, DecodeKeys;
    if word % 2 == 1 {
      var name := DecodeString(kind, refs, s);
      LeavesGrow(kind, refs, s);
      if name.out.Ok? {
        KeysGrow(kind, name.refs, name.rest, word / 8, []);
      }
    }
  }

  lemma {:induction false} KeysGrow(kind: Kind, refs: Refs, s: seq<byte>, n: nat, sofar: seq<Str>)
    ensures var now := DecodeKeys(kind, refs, s, n, sofar).refs;
            Grown(refs, now) && now.objects == refs.objects && now.traits == refs.traits
    decreases n
  {
    hide DecodeString;
    if n > 0 {
      var key := DecodeString(kind, refs, s);
      LeavesGrow(kind, refs, s);
      if key.out.Ok? {
        KeysGrow(kind, key.refs, key.rest, n - 1, sofar + [key.out.value]);
      }
    }
  }

  lemma {:induction false} FieldsGrow(kind: Kind, refs: Refs, s: seq<byte>, t: Trait)
    ensures Grown(refs, DecodeFields(kind, refs, s, t).refs)
    decreases |s|, 3
  {
    hide DecodeSealed, DecodeDynamic, DecodeExternalizable;
    if t.externalizable {
      ExternalizableGrows(kind, refs, s, t.name);
    } else {
      var sealed := DecodeSealed(kind, refs, s, t.properties, map[]);
      SealedGrows(kind, refs, s, t.properties, map[]);
      if sealed.out.Ok? && t.dynamic {
        DynamicGrows(kind, sealed.refs, sealed.rest, sealed.out.value);
      }
    }
  }

  lemma {:induction false} SealedGrows(kind: Kind, refs: Refs, s: seq<byte>, keys: seq<Str>, sofar: map<Str, Value>)
    ensures Grown(refs, DecodeSealed(kind, refs, s, keys, sofar).refs)
    decreases |s|, 1, |keys|
  {
    hide Decode;
    if keys != [] {
      TablesGrow(kind, refs, s);
      var v := Decode(kind, refs, s);
      if v.out.Ok? {
        SealedGrows(kind, v.refs, v.rest, keys[1..], sofar[keys[0] := v.out.value]);
      }
    }
  }

  lemma {:induction false} DynamicGrows(kind: Kind, refs: Refs, s: seq<byte>, sofar: map<Str, Value>)
    ensures Grown(refs, DecodeDynamic(kind, refs, s, sofar).refs)
    decreases |s|, 2
  {
    hide Decode, DecodeString;
    var key := DecodeString(kind, refs, s);
    LeavesGrow(kind, refs, s);
    if key.out.Ok? && key.out.value != [] {
      TablesGrow(kind, key.refs, key.rest);
      var v := Decode(kind, key.refs, key.rest);
      if v.out.Ok? {
        DynamicGrows(kind, v.refs, v.rest, sofar[key.out.value := v.out.value]);
      }
    }
  }

  lemma {:induction false} ExternalizableGrows(kind: Kind, refs: Refs, s: seq<byte>, name: Str)
    ensures Grown(refs, DecodeExternalizable(kind, refs, s, name).refs)
    decreases |s|, 2
  {
    hide Decode, DecodeAsyncMessage, DecodeExternal, Ascii;
    TablesGrow(kind, refs, s);
    AsyncGrows(kind, refs, s);
    var a := DecodeAsyncMessage(kind, refs, s);
    if a.out.Ok? {
      ExternalGrows(kind, a.refs, a.rest, [], a.out.value);
    }
  }

  lemma {:induction false} AsyncGrows(kind: Kind, refs: Refs, s: seq<byte>)
    ensures Grown(refs, DecodeAsyncMessage(kind, refs, s).refs)
    decreases |s|, 1, 1
  {
    hide DecodeExternal;
    var d := DecodeExternal(kind, refs, s, ABSTRACT_MESSAGE, map[]);
    ExternalGrows(kind, refs, s, ABSTRACT_MESSAGE, map[]);
    if d.out.Ok? {
      ExternalGrows(kind, d.refs, d.rest, ASYNC_MESSAGE, d.out.value);
    }
  }

  lemma {:induction false} ExternalGrows(kind: Kind, refs: Refs, s: seq<byte>, fieldSets: seq<seq<Str>>, obj: map<Str, Value>)
    ensures Grown(refs, DecodeExternal(kind, refs, s, fieldSets, obj).refs)
    decreases |s|, 1, 0
  {
    hide DecodeSealed, ReadFlags, FlaggedKeys;
    var flags := ReadFlags(kind, s);
    if flags.value.Some? {
      SealedGrows(kind, refs, flags.rest, FlaggedKeys(flags.value.value, 0, fieldSets), obj);
    }
  }

  // ------------------------------------------------ what a reference names

  /** A reference with `k` times the index in it, as it stands on the wire. */
  function Reference(k: nat, i: nat): seq<byte> {
    EncU29(k * i)
  }

  /**
    A string that is not empty is remembered, and the reference to its index gives it
    back from then on, whatever is decoded in between; past the table the decoder crashes.
   */
  lemma StringComesBack(kind: Kind, refs: Refs, s: Str, suffix: seq<byte>, later: Refs, more: seq<byte>)
    requires 0 < |s| < 0x1000_0000 && |refs.strings| < 0x1000_0000
    ensures var d := DecodeString(kind, refs, Utf8(s) + suffix);
            var i := |refs.strings|;
            && d == Decoding(Ok(s), suffix, refs.(strings := refs.strings + [s]))
            && (Grown(d.refs, later) ==>
                DecodeString(kind, later, Reference(2, i) + more) == Decoding(Ok(s), more, later))
            && (|later.strings| <= i ==> DecodeString(kind, later, Reference(2, i) + more).out == Panics)
  {
    hide EncU29, LengthWord, DecU29;
    Utf8Unfold(s, suffix);
    StringRead(kind, refs, |s|, s + suffix);
    assert (s + suffix)[..|s|] == s && (s + suffix)[|s|..] == suffix;
    assert Filled(s, |s|) == s;
    U29RoundTrip(kind, 2 * |refs.strings|, more);
    hide Utf8, StringBody;
  }

  /** Whether a remembered value may stand behind a marker; behind 0x0a any may. */
  predicate Right(marker: byte, v: Value) {
    match marker
    case 0x07 => v.Text?
    case 0x08 => v.Time?
    case 0x09 => v.Array?
    case 0x0b => v.Text?
    case 0x0c => v.Blob?
    case _ => true
  }

  /** What the decoder makes of a remembered value. */
  function Named(refs: Refs, marker: byte, i: nat): Outcome<Value> {
    if i >= |refs.objects| then Panics
    else if Right(marker, refs.objects[i]) then Ok(refs.objects[i])
    else Failed
  }

  /**
    XML, dates and byte arrays are named by their index, arrays and objects by half of it:
    sections 3.11 and 3.12 of the AMF 3 specification have the whole index.
   */
  lemma ReferenceNames(kind: Kind, refs: Refs, marker: byte, i: nat, more: seq<byte>)
    requires (0x07 <= marker <= 0x0c) && i < 0x1000_0000
    ensures Decode(kind, refs, [marker] + (Reference(2, i) + more)) ==
            Decoding(Named(refs, marker, if marker == 0x09 || marker == 0x0a then i / 2 else i), more, refs)
  {
    hide EncU29, DecU29, Take, DecodeString, DecodeItems, DecodeTrait, DecodeFields;
    U29RoundTrip(kind, 2 * i, more);
    MarkerRead(kind, refs, marker, Reference(2, i) + more);
    hide Decode;
  }

  /** So a reference to an array or an object names the right entry of every table only if that is the first. */
  lemma ReferenceRightIff(kind: Kind, i: nat, more: seq<byte>)
    requires i < 0x1000_0000
    ensures (forall refs: Refs :: i < |refs.objects| ==>
               Decode(kind, refs, [0x0a] + (Reference(2, i) + more)).out == Ok(refs.objects[i])) <==> i == 0
  {
    if i == 0 {
      forall refs: Refs | i < |refs.objects|
        ensures Decode(kind, refs, [0x0a] + (Reference(2, i) + more)).out == Ok(refs.objects[i])
      {
        ReferenceNames(kind, refs, 0x0a, i, more);
      }
    } else {
      var refs := Refs([], seq(i + 1, k requires 0 <= k => Integer(k)), []);
      ReferenceNames(kind, refs, 0x0a, i, more);
      hide Decode;
      assert refs.objects[i / 2] != refs.objects[i];
    }
  }

  /** Dates, byte arrays, XML that is not empty, and arrays are remembered, last of all. */
  lemma Remembered(kind: Kind, refs: Refs, marker: byte, s: seq<byte>)
    requires 0x07 <= marker <= 0x0c && marker != 0x0a
    requires DecU29(kind, s, 0, 0).value.Some? && DecU29(kind, s, 0, 0).value.value % 2 == 1
    ensures var d := DecodeBody(kind, refs, marker, s);
            d.out.Ok? && d.out.value != Text([]) ==>
            |d.refs.objects| > |refs.objects| && d.refs.objects[|d.refs.objects| - 1] == d.out.value
  {
    hide DecodeObject, DecodeString, DecodeItems, DecU29, Take, Got;
    if marker == 0x09 {
      var u := DecU29(kind, s, 0, 0);
      var key := DecodeString(kind, refs, u.rest);
      LeavesGrow(kind, refs, u.rest);
      if key.out == Ok([]) {
        ItemsGrow(kind, key.refs, key.rest, u.value.value / 2, []);
      }
    }
  }

  lemma ObjectMarked(kind: Kind, refs: Refs, s: seq<byte>)
    ensures Decode(kind, refs, [0x0a] + s) == DecodeObject(kind, refs, s)
  {
    MarkerRead(kind, refs, 0x0a, s);
    hide Decode, DecodeObject, DecodeString, DecodeArray, DecodeXml, DecodeDate, DecodeByteArray, DecodeInteger, DecodeDouble;
  }

  /** Behind an odd word stand traits, or a reference to some, and fields. */
  lemma ObjectInline(kind: Kind, refs: Refs, n: nat, body: seq<byte>)
    requires n < 0x1000_0000
    ensures DecodeObject(kind, refs, EncU29(2 * n + 1) + body) ==
            var t := DecodeTrait(kind, refs, body, n);
            if !t.out.Ok? then Decoding(Pass(t.out), t.rest, t.refs)
            else DecodeFields(kind, t.refs.(objects := t.refs.objects + [Null]), t.rest, t.out.value)
  {
    U29RoundTrip(kind, 2 * n + 1, body);
    assert (2 * n + 1) / 2 == n && (2 * n + 1) % 2 == 1;
    hide EncU29, DecU29, DecodeTrait, DecodeFields;
  }

  /** An object is remembered as nothing, before its fields are read, and stays so: a reference to it gives null. */
  lemma ObjectIsForgotten(kind: Kind, refs: Refs, n: nat, body: seq<byte>)
    requires n < 0x1000_0000
    ensures var d := Decode(kind, refs, [0x0a] + (EncU29(2 * n + 1) + body));
            DecodeTrait(kind, refs, body, n).out.Ok? ==>
            |d.refs.objects| > |refs.objects| && d.refs.objects[|refs.objects|] == Null
  {
    hide EncU29, DecodeTrait, DecodeFields, Decode, DecodeObject;
    ObjectMarked(kind, refs, EncU29(2 * n + 1) + body);
    ObjectInline(kind, refs, n, body);
    TraitGrows(kind, refs, body, n);
    var t := DecodeTrait(kind, refs, body, n);
    if t.out.Ok? {
      FieldsGrow(kind, t.refs.(objects := t.refs.objects + [Null]), t.rest, t.out.value);
    }
  }

  /** Traits are named by their index: an object behind a reference has the fields of the traits announced there. */
  lemma TraitsNamed(kind: Kind, refs: Refs, i: nat, fields: seq<byte>)
    requires i < 0x800_0000
    ensures Decode(kind, refs, [0x0a] + (EncU29(4 * i + 1) + fields)) ==
            if i >= |refs.traits| then Decoding(Panics, fields, refs)
            else DecodeFields(kind, refs.(objects := refs.objects + [Null]), fields, refs.traits[i])
  {
    hide EncU29, DecodeFields, Decode, DecodeObject, DecodeString, DecodeKeys;
    ObjectMarked(kind, refs, EncU29(4 * i + 1) + fields);
    ObjectInline(kind, refs, 2 * i, fields);
  }

  /** Traits announced are remembered: the class name, the two flags, and the keys of the sealed fields. */
  lemma TraitRemembered(kind: Kind, refs: Refs, n: nat, externalizable: bool, dynamic: bool, s: seq<byte>)
    requires n < 0x200_0000
    ensures var word := 8 * n + (if dynamic then 4 else 0) + (if externalizable then 2 else 0) + 1;
            var t := DecodeTrait(kind, refs, s, word);
            t.out.Ok? ==>
              && t.out.value.externalizable == externalizable && t.out.value.dynamic == dynamic
              && |t.out.value.properties| == n && DecodeString(kind, refs, s).out == Ok(t.out.value.name)
              && |t.refs.traits| == |refs.traits| + 1 && t.refs.traits[|refs.traits|] == t.out.value
  {
    hide DecodeString, DecodeKeys;
    var word := 8 * n + (if dynamic then 4 else 0) + (if externalizable then 2 else 0) + 1;
    FlagBits(n, externalizable, dynamic);
    var name := DecodeString(kind, refs, s);
    LeavesGrow(kind, refs, s);
    if name.out.Ok? {
      KeysGrow(kind, name.refs, name.rest, n, []);
      KeysCounted(kind, name.refs, name.rest, n, []);
    }
  }

  lemma FlagBits(n: nat, externalizable: bool, dynamic: bool)
    ensures var word := 8 * n + (if dynamic then 4 else 0) + (if externalizable then 2 else 0) + 1;
            word % 2 == 1 && word / 8 == n && (word / 2 % 2 == 1) == externalizable && (word / 4 % 2 == 1) == dynamic
  {
    var low := (if dynamic then 4 else 0) + (if externalizable then 2 else 0) + 1;
    EightTimes(n, low);
    assert low % 2 == 1 && (low / 2 % 2 == 1) == externalizable && (low / 4 % 2 == 1) == dynamic;
  }

  lemma EightTimes(n: nat, low: nat)
    requires low < 8
    ensures var word := 8 * n + low;
            word % 2 == low % 2 && word / 8 == n && word / 2 % 2 == low / 2 % 2 && word / 4 % 2 == low / 4 % 2
  {
    assert (8 * n + low) / 2 == 4 * n + low / 2;
    assert (8 * n + low) / 4 == 2 * n + low / 4;
  }

  lemma {:induction false} KeysCounted(kind: Kind, refs: Refs, s: seq<byte>, n: nat, sofar: seq<Str>)
    ensures var d := DecodeKeys(kind, refs, s, n, sofar); d.out.Ok? ==> |d.out.value| == |sofar| + n
    decreases n
  {
    hide DecodeString;
    if n > 0 {
      var key := DecodeString(kind, refs, s);
      if key.out.Ok? {
        KeysCounted(kind, key.refs, key.rest, n - 1, sofar + [key.out.value]);
      }
    }
  }
}
