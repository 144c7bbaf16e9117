/**
  Action Message Format 3: what the encoder writes for a value, what the decoder
  makes of any bytes and any reference tables, and that the second undoes the first.
 */
module Amf3 {
  import opened Bytes
  import opened AmfIo
  import opened Uint29

  // -------------------------------------------------------- sorted keys

  /** The order of strings by their bytes. */
  predicate Less(a: Str, b: Str) {
    b != [] && (a == [] || a[0] < b[0] || (a[0] == b[0] && Less(a[1..], b[1..])))
  }

  function Sort(entries: seq<Entry>): (r: seq<Entry>)
    ensures |r| == |entries| && TotalSize(r) == TotalSize(entries)
    decreases |entries|
  {
    if entries == [] then [] else Insert(entries[0], Sort(entries[1..]))
  }

  function Insert(e: Entry, sorted: seq<Entry>): (r: seq<Entry>)
    ensures |r| == |sorted| + 1 && TotalSize(r) == 1 + Size(e.value) + TotalSize(sorted)
    decreases |sorted|
  {
    if sorted == [] || !Less(sorted[0].key, e.key) then
      var r := [e] + sorted;
      assert r[1..] == sorted;
      r
    else
      var r := [sorted[0]] + Insert(e, sorted[1..]);
      assert r[1..] == Insert(e, sorted[1..]);
      r
  }

  function Size(t: Term): nat
    decreases t
  {
    match t
    case Slice(items) => 1 + ItemsSize(items)
    case Map(entries) => 1 + TotalSize(entries)
    case Typed(_, entries) => 1 + TotalSize(entries)
    case _ => 1
  }

  function ItemsSize(items: seq<Term>): nat
    decreases items
  {
    if items == [] then 0 else 1 + Size(items[0]) + ItemsSize(items[1..])
  }

  function TotalSize(entries: seq<Entry>): nat
    decreases entries
  {
    if entries == [] then 0 else 1 + Size(entries[0].value) + TotalSize(entries[1..])
  }

  // ------------------------------------------------------------ encoding

  /** A length and the bit that says it is no reference, in 32 bits. */
  function LengthWord(n: nat): nat {
    n % 0x8000_0000 * 2 + 1
  }

  /** The number of sealed properties, in the same 32 bits as four flags. */
  function TraitWord(n: nat): nat {
    n % 0x1000_0000 * 16 + 3
  }

  predicate Utf8Ok(s: Str) {
    U29Ok(LengthWord(|s|))
  }

  function Utf8(s: Str): seq<byte> {
    EncU29(LengthWord(|s|)) + if Utf8Ok(s) then s else []
  }

  /** The bytes written for `t`; for a value that cannot be encoded, those before the error. */
  function Enc(t: Term): seq<byte>
    decreases Size(t), 0
  {
    match t
    case Nil => [0x01]
    case Flag(b) => [if b then 0x03 else 0x02]
    case Float(double) => [0x05] + double
    case Int(n, double) => if 0 <= n <= INTEGER_MAX then [0x04] + EncU29(n) else [0x05] + double
    case String(s) => [0x06] + Utf8(s)
    case Slice(items) =>
      [0x09] + EncU29(LengthWord(|items|)) + if U29Ok(LengthWord(|items|)) then Utf8([]) + EncItems(items) else []
    case Map(entries) => [0x0a] + EncObject([], Sort(entries))
    case Typed(name, entries) => [0x0a] + EncObject(name, Sort(entries))
    case Moment(ms) => [0x08, 0x01] + ms
    case Other => []
  }

  function EncItems(items: seq<Term>): seq<byte>
    decreases ItemsSize(items), 0
  {
    if items == [] then [] else Enc(items[0]) + if Encodable(items[0]) then EncItems(items[1..]) else []
  }

  /** Traits: the class name and all the keys; then all the values. */
  function EncObject(name: Str, sorted: seq<Entry>): seq<byte>
    decreases TotalSize(sorted), 1
  {
    EncU29(TraitWord(|sorted|)) +
    if U29Ok(TraitWord(|sorted|)) then
      Utf8(name) +
      if Utf8Ok(name) then EncKeys(sorted) + if KeysEncodable(sorted) then EncValues(sorted) else [] else []
    else []
  }

  function EncKeys(sorted: seq<Entry>): seq<byte> {
    if sorted == [] then [] else Utf8(sorted[0].key) + if Utf8Ok(sorted[0].key) then EncKeys(sorted[1..]) else []
  }

  function EncValues(sorted: seq<Entry>): seq<byte>
    decreases TotalSize(sorted), 0
  {
    if sorted == [] then []
    else Enc(sorted[0].value) + if Encodable(sorted[0].value) then EncValues(sorted[1..]) else []
  }

  predicate Encodable(t: Term)
    decreases t
  {
    match t
    case String(s) => Utf8Ok(s)
    case Slice(items) => U29Ok(LengthWord(|items|)) && AllEncodable(items)
    case Map(entries) => ObjectEncodable([], entries)
    case Typed(name, entries) => ObjectEncodable(name, entries)
    case _ => !t.Other?
  }

  predicate AllEncodable(items: seq<Term>)
    decreases items
  {
    items == [] || (Encodable(items[0]) && AllEncodable(items[1..]))
  }

  predicate ObjectEncodable(name: Str, entries: seq<Entry>)
    decreases entries, 1
  {
    U29Ok(TraitWord(|entries|)) && Utf8Ok(name) && KeysEncodable(entries) && ValuesEncodable(entries)
  }

  predicate KeysEncodable(entries: seq<Entry>) {
    entries == [] || (Utf8Ok(entries[0].key) && KeysEncodable(entries[1..]))
  }

  predicate ValuesEncodable(entries: seq<Entry>)
    decreases entries, 0
  {
    entries == [] || (Encodable(entries[0].value) && ValuesEncodable(entries[1..]))
  }

  // ------------------------------------------------------------ decoding

  function Decode(kind: Kind, refs: Refs, s: seq<byte>): (d: Decoding<Value>)
    ensures |d.rest| <= |s| && (d.out.Ok? ==> |d.rest| < |s|)
    decreases |s|, 0
  {
    var m := Take(kind, s, 1);
    if m.value.None? then Decoding(Failed, m.rest, refs) else DecodeBody(kind, refs, m.value.value[0], m.rest)
  }

  function DecodeBody(kind: Kind, refs: Refs, marker: byte, s: seq<byte>): (d: Decoding<Value>)
    ensures |d.rest| <= |s|
    decreases |s|, 5
  {
    if marker <= 0x01 then Decoding(Ok(Null), s, refs)
    else if marker <= 0x03 then Decoding(Ok(Bool(marker == 0x03)), s, refs)
    else if marker == 0x04 then DecodeInteger(kind, refs, s)
    else if marker == 0x05 then DecodeDouble(kind, refs, s)
    else if marker == 0x06 then
      var d := DecodeString(kind, refs, s);
      Decoding(if d.out.Ok? then Ok(Text(d.out.value)) else Pass(d.out), d.rest, d.refs)
    else if marker == 0x07 || marker == 0x0b then DecodeXml(kind, refs, s)
    else if marker == 0x08 then DecodeDate(kind, refs, s)
    else if marker == 0x09 then DecodeArray(kind, refs, s)
    else if marker == 0x0a then DecodeObject(kind, refs, s)
    else if marker == 0x0c then DecodeByteArray(kind, refs, s)
    else Decoding(Failed, s, refs)
  }

  /** The upper half of the 29-bit integers stands for the negative ones. */
  function Folded(n: int): int {
    if n > 0xfff_ffff then n - 0x2000_0000 else n
  }

  function DecodeInteger(kind: Kind, refs: Refs, s: seq<byte>): (d: Decoding<Value>)
    ensures |d.rest| <= |s|
  {
    var d := DecU29(kind, s, 0, 0);
    Decoding(if d.value.Some? then Ok(Integer(Folded(d.value.value))) else Failed, d.rest, refs)
  }

  function DecodeDouble(kind: Kind, refs: Refs, s: seq<byte>): (d: Decoding<Value>)
    ensures |d.rest| <= |s|
  {
    var d := Take(kind, s, 8);
    Decoding(if d.value.Some? then Ok(Number(d.value.value)) else Failed, d.rest, refs)
  }

  /** `n` bytes of string from one Read: what it does not fill stays zero. */
  function Filled(got: seq<byte>, n: nat): (s: Str)
    requires |got| <= n
    ensures |s| == n
  {
    got + seq(n - |got|, _ => 0)
  }

  function DecodeString(kind: Kind, refs: Refs, s: seq<byte>): (d: Decoding<Str>)
    ensures |d.rest| <= |s| && (d.out.Ok? ==> |d.rest| < |s|)
  {
    var u := DecU29(kind, s, 0, 0);
    if u.value.None? then Decoding(Failed, u.rest, refs)
    else
      var n := u.value.value / 2;
      if u.value.value % 2 == 0 then
        Decoding(if n < |refs.strings| then Ok(refs.strings[n]) else Panics, u.rest, refs)
      else
        var got := Got(kind, u.rest, n);
        if got.None? then Decoding(Failed, u.rest, refs)
        else
          var text := Filled(got.value, n);
          Decoding(Ok(text), u.rest[|got.value|..],
                   if text == [] then refs else refs.(strings := refs.strings + [text]))
  }

  /** A referenced object, if it is of the right kind. */
  function ObjectAt(refs: Refs, id: nat, right: Value -> bool): Outcome<Value> {
    if id >= |refs.objects| then Panics else if right(refs.objects[id]) then Ok(refs.objects[id]) else Failed
  }

  function DecodeDate(kind: Kind, refs: Refs, s: seq<byte>): (d: Decoding<Value>)
    ensures |d.rest| <= |s|
  {
    var u := DecU29(kind, s, 0, 0);
    if u.value.None? then Decoding(Failed, u.rest, refs)
    else if u.value.value % 2 == 0 then Decoding(ObjectAt(refs, u.value.value / 2, (v: Value) => v.Time?), u.rest, refs)
    else
      var ms := Take(kind, u.rest, 8);
      if ms.value.None? then Decoding(Failed, ms.rest, refs)
      else Decoding(Ok(Time(ms.value.value)), ms.rest, refs.(objects := refs.objects + [Time(ms.value.value)]))
  }

  /** XML is a string that is remembered among the objects. */
  function DecodeXml(kind: Kind, refs: Refs, s: seq<byte>): (d: Decoding<Value>)
    ensures |d.rest| <= |s|
  {
    var u := DecU29(kind, s, 0, 0);
    if u.value.None? then Decoding(Failed, u.rest, refs)
    else
      var n := u.value.value / 2;
      if u.value.value % 2 == 0 then Decoding(ObjectAt(refs, n, (v: Value) => v.Text?), u.rest, refs)
      else
        var got := Got(kind, u.rest, n);
        if got.None? then Decoding(Failed, u.rest, refs)
        else
          var text := Text(Filled(got.value, n));
          Decoding(Ok(text), u.rest[|got.value|..], if n == 0 then refs else refs.(objects := refs.objects + [text]))
  }

  function DecodeByteArray(kind: Kind, refs: Refs, s: seq<byte>): (d: Decoding<Value>)
    ensures |d.rest| <= |s|
  {
    var u := DecU29(kind, s, 0, 0);
    if u.value.None? then Decoding(Failed, u.rest, refs)
    else
      var n := u.value.value / 2;
      if u.value.value % 2 == 0 then Decoding(ObjectAt(refs, n, (v: Value) => v.Blob?), u.rest, refs)
      else
        var got := Got(kind, u.rest, n);
        if got.None? then Decoding(Failed, u.rest, refs)
        else
          var blob := Blob(Filled(got.value, n));
          Decoding(Ok(blob), u.rest[|got.value|..], refs.(objects := refs.objects + [blob]))
  }

  function DecodeArray(kind: Kind, refs: Refs, s: seq<byte>): (d: Decoding<Value>)
    ensures |d.rest| <= |s|
    decreases |s|, 4
  {
    var u := DecU29(kind, s, 0, 0);
    if u.value.None? then Decoding(Failed, u.rest, refs)
    else
      var n := u.value.value / 2;
      if u.value.value % 2 == 0 then Decoding(ObjectAt(refs, n / 2, (v: Value) => v.Array?), u.rest, refs)
      else
        var key := DecodeString(kind, refs, u.rest);
        if !key.out.Ok? then Decoding(Pass(key.out), key.rest, key.refs)
        else if key.out.value != [] then Decoding(Failed, key.rest, key.refs)
        else
          var d := DecodeItems(kind, key.refs, key.rest, n, []);
          if !d.out.Ok? then Decoding(Pass(d.out), d.rest, d.refs)
          else
            var v := Array(d.out.value);
            Decoding(Ok(v), d.rest, d.refs.(objects := d.refs.objects + [v]))
  }

  function DecodeItems(kind: Kind, refs: Refs, s: seq<byte>, n: nat, sofar: seq<Value>): (d: Decoding<seq<Value>>)
    ensures |d.rest| <= |s|
    decreases |s|, 1
  {
    if n == 0 then Decoding(Ok(sofar), s, refs)
    else
      var v := Decode(kind, refs, s);
      if !v.out.Ok? then Decoding(Pass(v.out), v.rest, v.refs)
      else DecodeItems(kind, v.refs, v.rest, n - 1, sofar + [v.out.value])
  }

  function DecodeObject(kind: Kind, refs: Refs, s: seq<byte>): (d: Decoding<Value>)
    ensures |d.rest| <= |s|
    decreases |s|, 4
  {
    var u := DecU29(kind, s, 0, 0);
    if u.value.None? then Decoding(Failed, u.rest, refs)
    else
      var n := u.value.value / 2;
      if u.value.value % 2 == 0 then
        Decoding(if n / 2 < |refs.objects| then Ok(refs.objects[n / 2]) else Panics, u.rest, refs)
      else
        var t := DecodeTrait(kind, refs, u.rest, n);
        if !t.out.Ok? then Decoding(Pass(t.out), t.rest, t.refs)
        else DecodeFields(kind, t.refs.(objects := t.refs.objects + [Null]), t.rest, t.out.value)
  }

  /** The traits that `word` refers to or announces. */
  function DecodeTrait(kind: Kind, refs: Refs, s: seq<byte>, word: nat): (d: Decoding<Trait>)
    ensures |d.rest| <= |s|
  {
    if word % 2 == 0 then
      Decoding(if word / 2 < |refs.traits| then Ok(refs.traits[word / 2]) else Panics, s, refs)
    else
      var name := DecodeString(kind, refs, s);
      if !name.out.Ok? then Decoding(Pass(name.out), name.rest, name.refs)
      else
        var keys := DecodeKeys(kind, name.refs, name.rest, word / 8, []);
        if !keys.out.Ok? then Decoding(Pass(keys.out), keys.rest, keys.refs)
        else
          var t := Trait(name.out.value, word / 2 % 2 == 1, word / 4 % 2 == 1, keys.out.value);
          Decoding(Ok(t), keys.rest, keys.refs.(traits := keys.refs.traits + [t]))
  }

  function DecodeKeys(kind: Kind, refs: Refs, s: seq<byte>, n: nat, sofar: seq<Str>): (d: Decoding<seq<Str>>)
    ensures |d.rest| <= |s|
    decreases n
  {
    if n == 0 then Decoding(Ok(sofar), s, refs)
    else
      var key := DecodeString(kind, refs, s);
      if !key.out.Ok? then Decoding(Pass(key.out), key.rest, key.refs)
      else DecodeKeys(kind, key.refs, key.rest, n - 1, sofar + [key.out.value])
  }

  function DecodeFields(kind: Kind, refs: Refs, s: seq<byte>, t: Trait): (d: Decoding<Value>)
    ensures |d.rest| <= |s|
    decreases |s|, 3
  {
    if t.externalizable then DecodeExternalizable(kind, refs, s, t.name)
    else
      var sealed := DecodeSealed(kind, refs, s, t.properties, map[]);
      var d := if sealed.out.Ok? && t.dynamic then DecodeDynamic(kind, sealed.refs, sealed.rest, sealed.out.value) else sealed;
      Decoding(if d.out.Ok? then Ok(Object(d.out.value)) else Pass(d.out), d.rest, d.refs)
  }

  // ------------------------------------------------ externalizable objects

  function Ascii(s: string): Str {
    seq(|s|, i requires 0 <= i < |s| => s[i] as int % 256)
  }

  const ABSTRACT_MESSAGE: seq<seq<Str>> :=
    [[Ascii("body"), Ascii("clientId"), Ascii("destination"), Ascii("headers"), Ascii("messageId"), Ascii("timeStamp"),
      Ascii("timeToLive")],
     [Ascii("clientIdBytes"), Ascii("messageIdBytes")]]
  const ASYNC_MESSAGE: seq<seq<Str>> := [[Ascii("correlationId"), Ascii("correlationIdBytes")]]

  /** The three types the decoder knows by itself; no handlers for others are registered. */
  function DecodeExternalizable(kind: Kind, refs: Refs, s: seq<byte>, name: Str): (d: Decoding<Value>)
    ensures |d.rest| <= |s|
    decreases |s|, 2
  {
    if name == Ascii("DSA") then
      var d := DecodeAsyncMessage(kind, refs, s);
      Decoding(if d.out.Ok? then Ok(Object(d.out.value)) else Pass(d.out), d.rest, d.refs)
    else if name == Ascii("DSK") then
      var a := DecodeAsyncMessage(kind, refs, s);
      var d := if a.out.Ok? then DecodeExternal(kind, a.refs, a.rest, [], a.out.value) else a;
      Decoding(if d.out.Ok? then Ok(Object(d.out.value)) else Pass(d.out), d.rest, d.refs)
    else if name == Ascii("flex.messaging.io.ArrayCollection") then
      var d := Decode(kind, refs, s);
      if d.out.Ok? then d.(refs := d.refs.(objects := d.refs.objects + [d.out.value])) else d
    else Decoding(Failed, s, refs)
  }

  function DecodeAsyncMessage(kind: Kind, refs: Refs, s: seq<byte>): (d: Decoding<map<Str, Value>>)
    ensures |d.rest| <= |s|
    decreases |s|, 1, 1
  {
    var d := DecodeExternal(kind, refs, s, ABSTRACT_MESSAGE, map[]);
    if d.out.Ok? then DecodeExternal(kind, d.refs, d.rest, ASYNC_MESSAGE, d.out.value) else d
  }

  /** Flags say which of the fields follow; they are added to `obj` in the order of the flags. */
  function DecodeExternal(kind: Kind, refs: Refs, s: seq<byte>, fieldSets: seq<seq<Str>>, obj: map<Str, Value>)
    : (d: Decoding<map<Str, Value>>)
    ensures |d.rest| <= |s|
    decreases |s|, 1, 0
  {
    var flags := ReadFlags(kind, s);
    if flags.value.None? then Decoding(Failed, flags.rest, refs)
    else DecodeSealed(kind, refs, flags.rest, FlaggedKeys(flags.value.value, 0, fieldSets), obj)
  }

  /** Bytes of flags up to one without the top bit. */
  function ReadFlags(kind: Kind, s: seq<byte>): (d: Decoded<seq<byte>>)
    ensures |d.rest| <= |s| && (d.value.Some? ==> |d.rest| < |s|)
    decreases |s|
  {
    var b := Take(kind, s, 1);
    if b.value.None? then Decoded(None, b.rest)
    else if b.value.value[0] < 0x80 then b
    else
      var more := ReadFlags(kind, b.rest);
      if more.value.None? then more else Decoded(Some(b.value.value + more.value.value), more.rest)
  }

  function Pow2(n: nat): (p: nat)
    ensures p > 0
  {
    if n == 0 then 1 else 2 * Pow2(n - 1)
  }

  predicate Bit(b: byte, n: nat) {
    b / Pow2(n) % 2 == 1
  }

  /** The keys that the flags from number `i` on announce. */
  function FlaggedKeys(flags: seq<byte>, i: nat, fieldSets: seq<seq<Str>>): seq<Str>
    decreases |flags| - i
  {
    if i >= |flags| then []
    else
      var names := if i < |fieldSets| then fieldSets[i] else [];
      NamedKeys(flags[i], names, 0) + ExtraKeys(flags[i], i, |names|) + FlaggedKeys(flags, i + 1, fieldSets)
  }

  function NamedKeys(b: byte, names: seq<Str>, p: nat): seq<Str>
    decreases |names| - p
  {
    if p >= |names| then [] else (if Bit(b, p) then [names[p]] else []) + NamedKeys(b, names, p + 1)
  }

  /** Flags without a name, as far as the sixth, have made-up keys. */
  function ExtraKeys(b: byte, i: nat, j: nat): seq<Str>
    decreases 6 - j
  {
    if j >= 6 then []
    else (if Bit(b, j) then [Ascii("extra_") + Decimal(i) + Ascii("_") + Decimal(j)] else []) + ExtraKeys(b, i, j + 1)
  }

  function Decimal(n: nat): Str {
    (if n < 10 then [] else Decimal(n / 10)) + [0x30 + n % 10]
  }

  /** A value for each property of the traits. */
  function DecodeSealed(kind: Kind, refs: Refs, s: seq<byte>, keys: seq<Str>, sofar: map<Str, Value>)
    : (d: Decoding<map<Str, Value>>)
    ensures |d.rest| <= |s|
    decreases |s|, 1
  {
    if keys == [] then Decoding(Ok(sofar), s, refs)
    else
      var v := Decode(kind, refs, s);
      if !v.out.Ok? then Decoding(Pass(v.out), v.rest, v.refs)
      else DecodeSealed(kind, v.refs, v.rest, keys[1..], sofar[keys[0] := v.out.value])
  }

  /** Keys and values up to an empty key. */
  function DecodeDynamic(kind: Kind, refs: Refs, s: seq<byte>, sofar: map<Str, Value>): (d: Decoding<map<Str, Value>>)
    ensures |d.rest| <= |s|
    decreases |s|, 2
  {
    var key := DecodeString(kind, refs, s);
    if !key.out.Ok? then Decoding(Pass(key.out), key.rest, key.refs)
    else if key.out.value == [] then Decoding(Ok(sofar), key.rest, key.refs)
    else
      var v := Decode(kind, key.refs, key.rest);
      if !v.out.Ok? then Decoding(Pass(v.out), v.rest, v.refs)
      else DecodeDynamic(kind, v.refs, v.rest, sofar[key.out.value := v.out.value])
  }
}
