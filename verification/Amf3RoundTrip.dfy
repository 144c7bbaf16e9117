/**
  AMF3 decoding undoes AMF3 encoding, and the encoding of an object does not
  depend on the order its keys were met in.
 */
module Amf3RoundTrip {
  import opened Bytes
  import opened AmfIo
  import opened Uint29
  import opened Amf3

  /** What the format has room for. */
  predicate Sized(t: Term)
    decreases t
  {
    match t
    case String(s) => |s| < 0x1000_0000
    case Slice(items) => |items| < 0x1000_0000 && AllSized(items)
    case Map(entries) => |entries| < 0x200_0000 && Distinct(entries) && EntriesSized(entries)
    case Typed(name, entries) =>
      |name| < 0x1000_0000 && |entries| < 0x200_0000 && Distinct(entries) && EntriesSized(entries)
    case _ => !t.Other?
  }

  predicate AllSized(items: seq<Term>)
    decreases items
  {
    items == [] || (Sized(items[0]) && AllSized(items[1..]))
  }

  predicate EntriesSized(entries: seq<Entry>)
    decreases entries
  {
    entries == [] || (|entries[0].key| < 0x1000_0000 && Sized(entries[0].value) && EntriesSized(entries[1..]))
  }

  /** The value meant by a term or, on the wire, what of it comes back. */
  function Image(t: Term, wire: bool): Value
    decreases t
  {
    match t
    case Nil => Null
    case Flag(b) => Bool(b)
    case Float(double) => Number(double)
    case Int(n, double) =>
      if 0 <= n <= INTEGER_MAX then Integer(if wire then Folded(n) else n) else Number(double)
    case String(s) => Text(s)
    case Slice(items) => Array(Images(items, wire))
    case Map(entries) => Object(Fields(map[], entries, wire))
    case Typed(name, entries) =>
      var fields := Fields(map[], entries, wire);
      if wire then Object(fields) else TypedObject(name, fields)
    case Moment(ms) => Time(ms)
    case Other => Null
  }

  function Images(items: seq<Term>, wire: bool): (vs: seq<Value>)
    ensures |vs| == |items|
    decreases items
  {
    if items == [] then [] else [Image(items[0], wire)] + Images(items[1..], wire)
  }

  function Fields(sofar: map<Str, Value>, entries: seq<Entry>, wire: bool): map<Str, Value>
    decreases entries
  {
    if entries == [] then sofar
    else Fields(sofar[entries[0].key := Image(entries[0].value, wire)], entries[1..], wire)
  }

  /** The last thing the decoder reads of this value is an empty string. */
  predicate EndsEmpty(t: Term)
    decreases Size(t), 0
  {
    match t
    case String(s) => s == []
    case Slice(items) => items == [] || LastItemEndsEmpty(items)
    case Map(entries) => ObjectEndsEmpty([], Sort(entries))
    case Typed(name, entries) => ObjectEndsEmpty(name, Sort(entries))
    case _ => false
  }

  predicate LastItemEndsEmpty(items: seq<Term>)
    requires items != []
    decreases ItemsSize(items), 0
  {
    if |items| == 1 then EndsEmpty(items[0]) else LastItemEndsEmpty(items[1..])
  }

  predicate ObjectEndsEmpty(name: Str, sorted: seq<Entry>)
    decreases TotalSize(sorted), 1
  {
    if sorted == [] then name == [] else LastValueEndsEmpty(sorted)
  }

  predicate LastValueEndsEmpty(sorted: seq<Entry>)
    requires sorted != []
    decreases TotalSize(sorted), 0
  {
    if |sorted| == 1 then EndsEmpty(sorted[0].value) else LastValueEndsEmpty(sorted[1..])
  }

  /** What a decoding must come to: `v`, or an error if a `Reader` starves at the end. */
  predicate Comes<T(==)>(d: Decoding<T>, kind: Kind, suffix: seq<byte>, empty: bool, v: T) {
    if kind == Reader && suffix == [] && empty then d.out == Failed && d.rest == []
    else d.out == Ok(v) && d.rest == suffix
  }

  // -------------------------------------------------------------- strings

  /** A string after its length: one Read, filled up with zeros. */
  function StringBody(kind: Kind, refs: Refs, s: seq<byte>, n: nat): Decoding<Str> {
    var got := Got(kind, s, n);
    if got.None? then Decoding(Failed, s, refs)
    else
      var text := Filled(got.value, n);
      Decoding(Ok(text), s[|got.value|..], if text == [] then refs else refs.(strings := refs.strings + [text]))
  }

  lemma StringRead(kind: Kind, refs: Refs, n: nat, s: seq<byte>)
    requires n < 0x1000_0000
    ensures DecodeString(kind, refs, EncU29(LengthWord(n)) + s) == StringBody(kind, refs, s, n)
  {
    var word := LengthWord(n);
    assert word / 2 == n && word % 2 == 1 && U29Ok(word);
    U29RoundTrip(kind, word, s);
    hide EncU29, DecU29, LengthWord, U29Ok, Filled, Got;
  }

  lemma Utf8Trip(kind: Kind, refs: Refs, s: Str, suffix: seq<byte>)
    requires |s| < 0x1000_0000
    ensures Utf8(s) != []
    ensures Comes(DecodeString(kind, refs, Utf8(s) + suffix), kind, suffix, s == [], s)
  {
    hide DecodeString, Utf8, EncU29, LengthWord, StringBody;
    Utf8Unfold(s, suffix);
    StringRead(kind, refs, |s|, s + suffix);
    StringWhole(kind, refs, s, suffix);
  }

  lemma Utf8Unfold(s: Str, suffix: seq<byte>)
    requires |s| < 0x1000_0000
    ensures Utf8(s) != [] && Utf8(s) + suffix == EncU29(LengthWord(|s|)) + (s + suffix)
  {
    NameFits(s);
    hide EncU29, LengthWord;
  }

  lemma StringWhole(kind: Kind, refs: Refs, s: Str, suffix: seq<byte>)
    ensures Comes(StringBody(kind, refs, s + suffix, |s|), kind, suffix, s == [], s)
  {
    assert (s + suffix)[..|s|] == s && (s + suffix)[|s|..] == suffix;
    assert Filled(s, |s|) == s;
  }

  lemma MarkerRead(kind: Kind, refs: Refs, marker: byte, body: seq<byte>)
    ensures Decode(kind, refs, [marker] + body) == DecodeBody(kind, refs, marker, body)
  {
    hide DecodeBody;
    TakeFront(kind, [marker], body);
  }

  lemma LeafTrip(kind: Kind, refs: Refs, t: Term, suffix: seq<byte>)
    requires t.Nil? || t.Flag? || t.Float? || t.Int? || t.Moment?
    ensures Enc(t) != [] && Comes(Decode(kind, refs, Enc(t) + suffix), kind, suffix, false, Image(t, true))
  {
    hide DecodeString, DecodeXml, DecodeDate, DecodeArray, DecodeObject, DecodeByteArray, DecU29, EncU29;
    match t
    case Nil => MarkerRead(kind, refs, 0x01, suffix);
    case Flag(b) => MarkerRead(kind, refs, if b then 0x03 else 0x02, suffix);
    case Float(double) => DoubleTrip(kind, refs, double, suffix);
    case Int(n, double) =>
      if 0 <= n <= INTEGER_MAX {
        U29RoundTrip(kind, n, suffix);
        MarkerRead(kind, refs, 0x04, EncU29(n) + suffix);
        hide Decode;
        assert [0x04] + EncU29(n) + suffix == [0x04] + (EncU29(n) + suffix);
      } else {
        DoubleTrip(kind, refs, double, suffix);
      }
    case Moment(ms) => DateTrip(kind, refs, ms, suffix);
  }

  lemma DateTrip(kind: Kind, refs: Refs, ms: Double, suffix: seq<byte>)
    ensures Comes(Decode(kind, refs, [0x08, 0x01] + ms + suffix), kind, suffix, false, Time(ms))
  {
    TakeFront(kind, ms, suffix);
    LastByte(kind, 0x01, 0, 0, ms + suffix);
    hide DecodeString, DecodeXml, DecodeArray, DecodeObject, DecodeByteArray, DecU29, Take;
    MarkerRead(kind, refs, 0x08, [0x01] + (ms + suffix));
    hide Decode;
    assert [0x08, 0x01] + ms + suffix == [0x08] + ([0x01] + (ms + suffix));
  }

  lemma DoubleTrip(kind: Kind, refs: Refs, double: Double, suffix: seq<byte>)
    ensures Comes(Decode(kind, refs, [0x05] + double + suffix), kind, suffix, false, Number(double))
  {
    TakeFront(kind, double, suffix);
    hide DecodeString, DecodeXml, DecodeDate, DecodeArray, DecodeObject, DecodeByteArray, DecU29, Take;
    MarkerRead(kind, refs, 0x05, double + suffix);
    hide Decode;
    assert [0x05] + double + suffix == [0x05] + (double + suffix);
  }

  lemma TextTrip(kind: Kind, refs: Refs, s: Str, suffix: seq<byte>)
    requires |s| < 0x1000_0000
    ensures Comes(Decode(kind, refs, [0x06] + Utf8(s) + suffix), kind, suffix, s == [], Text(s))
  {
    hide DecodeString, Decode, Utf8;
    Utf8Trip(kind, refs, s, suffix);
    TextRead(kind, refs, Utf8(s) + suffix);
    assert [0x06] + Utf8(s) + suffix == [0x06] + (Utf8(s) + suffix);
  }

  lemma TextRead(kind: Kind, refs: Refs, body: seq<byte>)
    ensures Decode(kind, refs, [0x06] + body) ==
            var d := DecodeString(kind, refs, body);
            Decoding(if d.out.Ok? then Ok(Text(d.out.value)) else Pass(d.out), d.rest, d.refs)
  {
    MarkerRead(kind, refs, 0x06, body);
    hide Decode, DecodeString, DecodeXml, DecodeDate, DecodeArray, DecodeObject, DecodeByteArray, DecodeInteger, DecodeDouble;
  }

  // ---------------------------------------------------------- round trips

  /**
    Decoding undoes encoding whatever follows and whatever references the decoder
    has collected, and uses up exactly the bytes written. What comes back is the
    value as far as the wire carries it.
   */
  lemma {:induction false} RoundTrip(kind: Kind, refs: Refs, t: Term, suffix: seq<byte>)
    requires Sized(t)
    ensures Enc(t) != []
    ensures Comes(Decode(kind, refs, Enc(t) + suffix), kind, suffix, EndsEmpty(t), Image(t, true))
    decreases Size(t), 0
  {
    hide Decode, Comes, EncObject, ObjectEndsEmpty, DecodeObject, DecodeArray, Utf8;
    match t
    case String(s) => TextTrip(kind, refs, s, suffix);
    case Slice(items) =>
      ArrayTrip(kind, refs, items, suffix);
    case Map(entries) =>
      SortKeeps(map[], entries);
      ObjectTrip(kind, refs, [], Sort(entries), suffix);
    case Typed(name, entries) =>
      SortKeeps(map[], entries);
      ObjectTrip(kind, refs, name, Sort(entries), suffix);
    case _ => LeafTrip(kind, refs, t, suffix);
  }

  lemma {:induction false} ArrayTrip(kind: Kind, refs: Refs, items: seq<Term>, suffix: seq<byte>)
    requires |items| < 0x1000_0000 && AllSized(items)
    ensures Comes(Decode(kind, refs, Enc(Slice(items)) + suffix), kind, suffix, EndsEmpty(Slice(items)),
                  Array(Images(items, true)))
    decreases ItemsSize(items), 1
  {
    hide Decode, Enc, Utf8, EncItems, DecodeString, DecodeItems, Images, LastItemEndsEmpty, Sized, Size, Image;
    var more := EncItems(items) + suffix;
    var body := Utf8([]) + more;
    ArrayRead(kind, refs, items, suffix);
    Utf8Trip(kind, refs, [], more);
    var key := DecodeString(kind, refs, body);
    if items == [] {
      NoItems(kind, key.refs, suffix);
    } else {
      EncItemsNotEmpty(items);
      ItemsTrip(kind, key.refs, items, [], suffix);
      assert [] + Images(items, true) == Images(items, true);
    }
  }

  lemma NoItems(kind: Kind, refs: Refs, suffix: seq<byte>)
    ensures EncItems([]) + suffix == suffix && Images([], true) == []
    ensures DecodeItems(kind, refs, suffix, 0, []) == Decoding(Ok([]), suffix, refs)
  {
  }

  /** The marker and the length lead the decoder to the empty key and the items. */
  lemma ArrayRead(kind: Kind, refs: Refs, items: seq<Term>, suffix: seq<byte>)
    requires |items| < 0x1000_0000
    ensures Decode(kind, refs, Enc(Slice(items)) + suffix) ==
            ArrayBody(kind, refs, Utf8([]) + (EncItems(items) + suffix), |items|)
  {
    hide EncU29, LengthWord, EncItems, Utf8, DecodeBody, Decode, Enc, ArrayBody;
    LengthFits(|items|);
    var body := Utf8([]) + (EncItems(items) + suffix);
    MarkerRead(kind, refs, 0x09, EncU29(LengthWord(|items|)) + body);
    ArrayDecode(kind, refs, |items|, body);
    ArrayUnfold(items, suffix);
  }

  lemma LengthFits(n: nat)
    requires n < 0x1000_0000
    ensures var word := LengthWord(n); word / 2 == n && word % 2 == 1 && U29Ok(word)
  {
  }

  lemma ArrayDecode(kind: Kind, refs: Refs, n: nat, body: seq<byte>)
    requires n < 0x1000_0000
    ensures DecodeBody(kind, refs, 0x09, EncU29(LengthWord(n)) + body) == ArrayBody(kind, refs, body, n)
  {
    hide EncU29, DecU29, LengthWord, U29Ok, DecodeString, DecodeItems;
    hide DecodeXml, DecodeDate, DecodeObject, DecodeByteArray, DecodeInteger, DecodeDouble;
    LengthFits(n);
    U29RoundTrip(kind, LengthWord(n), body);
  }

  lemma ArrayUnfold(items: seq<Term>, suffix: seq<byte>)
    requires U29Ok(LengthWord(|items|))
    ensures Enc(Slice(items)) + suffix ==
            [0x09] + (EncU29(LengthWord(|items|)) + (Utf8([]) + (EncItems(items) + suffix)))
  {
    hide EncU29, LengthWord, EncItems, Utf8, Enc;
    ArrayIs(items);
    var u, key, body := EncU29(LengthWord(|items|)), Utf8([]), EncItems(items);
    PlusAssoc([0x09] + u, key + body, suffix);
    PlusAssoc(key, body, suffix);
    PlusAssoc([0x09], u, key + (body + suffix));
  }

  lemma ArrayIs(items: seq<Term>)
    requires U29Ok(LengthWord(|items|))
    ensures Enc(Slice(items)) == [0x09] + EncU29(LengthWord(|items|)) + (Utf8([]) + EncItems(items))
  {
    hide EncU29, LengthWord, U29Ok, EncItems, Utf8;
  }

  function ArrayBody(kind: Kind, refs: Refs, s: seq<byte>, n: nat): Decoding<Value> {
    var key := DecodeString(kind, refs, s);
    if !key.out.Ok? then Decoding(Pass(key.out), key.rest, key.refs)
    else if key.out.value != [] then Decoding(Failed, key.rest, key.refs)
    else
      var d := DecodeItems(kind, key.refs, key.rest, n, []);
      if !d.out.Ok? then Decoding(Pass(d.out), d.rest, d.refs)
      else
        var v := Array(d.out.value);
        Decoding(Ok(v), d.rest, d.refs.(objects := d.refs.objects + [v]))
  }

  lemma EncItemsNotEmpty(items: seq<Term>)
    requires AllSized(items) && items != []
    ensures EncItems(items) != []
  {
    MarkerFirst(items[0]);
  }

  lemma MarkerFirst(t: Term)
    requires Sized(t)
    ensures Enc(t) != []
  {
    hide EncObject, EncItems, Utf8, EncU29, Sort;
  }

  lemma {:induction false} ItemsTrip(kind: Kind, refs: Refs, items: seq<Term>, sofar: seq<Value>, suffix: seq<byte>)
    requires AllSized(items) && items != []
    ensures Comes(DecodeItems(kind, refs, EncItems(items) + suffix, |items|, sofar), kind, suffix,
                  LastItemEndsEmpty(items), sofar + Images(items, true))
    decreases ItemsSize(items), 0
  {
    hide Decode, Enc, Encodable, Sized, Size, Image, EndsEmpty, EncItems;
    var after := EncItems(items[1..]) + suffix;
    SizedIsEncodable(items[0]);
    ItemsUnfold(items, suffix);
    RoundTrip(kind, refs, items[0], after);
    var v := Decode(kind, refs, Enc(items[0]) + after);
    var now := sofar + [Image(items[0], true)];
    assert sofar + Images(items, true) == now + Images(items[1..], true);
    if |items| > 1 {
      EncItemsNotEmpty(items[1..]);
      ItemsTrip(kind, v.refs, items[1..], now, suffix);
    } else {
      assert now + Images(items[1..], true) == now;
    }
  }

  lemma ItemsUnfold(items: seq<Term>, suffix: seq<byte>)
    requires items != [] && Encodable(items[0])
    ensures EncItems(items) + suffix == Enc(items[0]) + (EncItems(items[1..]) + suffix)
    ensures |items| == 1 ==> EncItems(items[1..]) + suffix == suffix
  {
    hide Enc, Encodable;
  }

  // -------------------------------------------------------------- objects

  function KeysOf(entries: seq<Entry>): (keys: seq<Str>)
    ensures |keys| == |entries|
  {
    if entries == [] then [] else [entries[0].key] + KeysOf(entries[1..])
  }

  lemma {:induction false} ObjectTrip(kind: Kind, refs: Refs, name: Str, sorted: seq<Entry>, suffix: seq<byte>)
    requires |name| < 0x1000_0000 && |sorted| < 0x200_0000 && EntriesSized(sorted)
    ensures Comes(Decode(kind, refs, [0x0a] + EncObject(name, sorted) + suffix), kind, suffix,
                  ObjectEndsEmpty(name, sorted), Object(Fields(map[], sorted, true)))
    decreases TotalSize(sorted), 1
  {
    var more := EncValues(sorted) + suffix;
    var traits := Utf8(name) + (EncKeys(sorted) + more);
    HeaderRead(kind, refs, name, sorted, suffix);
    EncValuesNotEmpty(sorted);
    TraitTrip(kind, refs, name, sorted, more);
    hide Decode, Utf8, EncKeys, EncObject, TraitWord;
    var t := TraitBody(kind, refs, traits, |sorted|);
    hide TraitBody;
    if sorted == [] {
      assert more == suffix;
    } else {
      SealedTrip(kind, t.refs.(objects := t.refs.objects + [Null]), sorted, map[], suffix);
    }
    hide DecodeSealed, EncValues;
  }

  /** The marker and the flags lead the decoder to the traits. */
  lemma HeaderRead(kind: Kind, refs: Refs, name: Str, sorted: seq<Entry>, suffix: seq<byte>)
    requires |name| < 0x1000_0000 && |sorted| < 0x200_0000 && EntriesSized(sorted)
    ensures Decode(kind, refs, [0x0a] + EncObject(name, sorted) + suffix) ==
            var traits := Utf8(name) + (EncKeys(sorted) + (EncValues(sorted) + suffix));
            var t := TraitBody(kind, refs, traits, |sorted|);
            if !t.out.Ok? then Decoding(Pass(t.out), t.rest, t.refs)
            else DecodeFields(kind, t.refs.(objects := t.refs.objects + [Null]), t.rest, t.out.value)
  {
    hide TraitWord, EncU29, Utf8, EncKeys, EncValues, TraitBody, DecodeFields, EncObject, Decode;
    TraitBits(|sorted|);
    EntriesSizedEncodable(sorted);
    NameFits(name);
    ObjectUnfold(name, sorted, suffix);
    HeaderDecode(kind, refs, |sorted|, Utf8(name) + (EncKeys(sorted) + (EncValues(sorted) + suffix)));
  }

  lemma NameFits(name: Str)
    requires |name| < 0x1000_0000
    ensures Utf8Ok(name)
  {
  }

  lemma HeaderDecode(kind: Kind, refs: Refs, n: nat, traits: seq<byte>)
    requires n < 0x200_0000
    ensures Decode(kind, refs, [0x0a] + (EncU29(TraitWord(n)) + traits)) ==
            var t := TraitBody(kind, refs, traits, n);
            if !t.out.Ok? then Decoding(Pass(t.out), t.rest, t.refs)
            else DecodeFields(kind, t.refs.(objects := t.refs.objects + [Null]), t.rest, t.out.value)
  {
    TraitBits(n);
    U29RoundTrip(kind, TraitWord(n), traits);
    TraitRead(kind, refs, traits, n);
    hide TraitWord, U29Ok, EncU29, DecU29, DecodeTrait, TraitBody, DecodeFields;
    MarkerRead(kind, refs, 0x0a, EncU29(TraitWord(n)) + traits);
    hide Decode, DecodeString, DecodeXml, DecodeDate, DecodeArray, DecodeByteArray, DecodeInteger, DecodeDouble;
  }

  lemma TraitBits(n: nat)
    requires n < 0x200_0000
    ensures var word := TraitWord(n); word / 2 == 8 * n + 1 && word % 2 == 1 && U29Ok(word)
    ensures var half := 8 * n + 1; half % 2 == 1 && half / 8 == n && half / 2 % 2 == 0 && half / 4 % 2 == 0
  {
    assert (8 * n + 1) / 2 == 4 * n && (8 * n + 1) / 4 == 2 * n;
  }

  lemma ObjectUnfold(name: Str, sorted: seq<Entry>, suffix: seq<byte>)
    requires U29Ok(TraitWord(|sorted|)) && Utf8Ok(name) && KeysEncodable(sorted)
    ensures [0x0a] + EncObject(name, sorted) + suffix ==
            [0x0a] + (EncU29(TraitWord(|sorted|)) + (Utf8(name) + (EncKeys(sorted) + (EncValues(sorted) + suffix))))
  {
    hide TraitWord, U29Ok, EncU29, Utf8, EncKeys, EncValues, Utf8Ok, KeysEncodable;
  }

  lemma TraitTrip(kind: Kind, refs: Refs, name: Str, sorted: seq<Entry>, more: seq<byte>)
    requires |name| < 0x1000_0000 && EntriesSized(sorted) && (more != [] || sorted == [])
    ensures Comes(TraitBody(kind, refs, Utf8(name) + (EncKeys(sorted) + more), |sorted|), kind, more,
                  sorted == [] && name == [], Trait(name, false, false, KeysOf(sorted)))
  {
    hide DecodeString, DecodeKeys, Utf8, EncKeys, KeysOf, EntriesSized, Sized;
    var after := EncKeys(sorted) + more;
    KeysEnd(sorted, more);
    Utf8Trip(kind, refs, name, after);
    var d := DecodeString(kind, refs, Utf8(name) + after);
    if d.out.Ok? {
      KeysTrip(kind, d.refs, sorted, [], more);
      NothingBefore(KeysOf(sorted));
    }
  }

  lemma NothingBefore<T>(s: seq<T>)
    ensures [] + s == s
  {
  }

  /** Announced traits, with the flags the encoder sets. */
  function TraitBody(kind: Kind, refs: Refs, s: seq<byte>, n: nat): Decoding<Trait> {
    var name := DecodeString(kind, refs, s);
    if !name.out.Ok? then Decoding(Pass(name.out), name.rest, name.refs)
    else
      var keys := DecodeKeys(kind, name.refs, name.rest, n, []);
      if !keys.out.Ok? then Decoding(Pass(keys.out), keys.rest, keys.refs)
      else
        var t := Trait(name.out.value, false, false, keys.out.value);
        Decoding(Ok(t), keys.rest, keys.refs.(traits := keys.refs.traits + [t]))
  }

  lemma TraitRead(kind: Kind, refs: Refs, s: seq<byte>, n: nat)
    requires n < 0x200_0000
    ensures DecodeTrait(kind, refs, s, 8 * n + 1) == TraitBody(kind, refs, s, n)
  {
    TraitBits(n);
    hide DecodeString, DecodeKeys, TraitWord, U29Ok;
  }

  lemma KeysEnd(sorted: seq<Entry>, more: seq<byte>)
    ensures sorted == [] ==> EncKeys(sorted) + more == more
    ensures more != [] ==> EncKeys(sorted) + more != []
  {
    hide Utf8, Utf8Ok;
  }

  lemma {:induction false} KeysTrip(kind: Kind, refs: Refs, sorted: seq<Entry>, sofar: seq<Str>, more: seq<byte>)
    requires EntriesSized(sorted) && (more != [] || sorted == [])
    ensures var d := DecodeKeys(kind, refs, EncKeys(sorted) + more, |sorted|, sofar);
            d.out == Ok(sofar + KeysOf(sorted)) && d.rest == more
    decreases |sorted|
  {
    hide DecodeString, Utf8, EncKeys, Sized, LengthWord, DecodeKeys, KeysOf;
    if sorted == [] {
      KeysEnd(sorted, more);
      KeysOfUnfold(sorted, sofar);
      DecodeKeysStep(kind, refs, more, 0, sofar);
    } else {
      var key := sorted[0].key;
      var after := EncKeys(sorted[1..]) + more;
      KeysEnd(sorted[1..], more);
      KeysUnfold(sorted, more);
      Utf8Trip(kind, refs, key, after);
      DecodeKeysStep(kind, refs, Utf8(key) + after, |sorted|, sofar);
      var d := DecodeString(kind, refs, Utf8(key) + after);
      KeysTrip(kind, d.refs, sorted[1..], sofar + [key], more);
      KeysOfUnfold(sorted, sofar);
    }
  }

  lemma DecodeKeysStep(kind: Kind, refs: Refs, s: seq<byte>, n: nat, sofar: seq<Str>)
    ensures n == 0 ==> DecodeKeys(kind, refs, s, n, sofar) == Decoding(Ok(sofar), s, refs)
    ensures var key := DecodeString(kind, refs, s);
            n > 0 && key.out.Ok? ==>
            DecodeKeys(kind, refs, s, n, sofar) == DecodeKeys(kind, key.refs, key.rest, n - 1, sofar + [key.out.value])
  {
    hide DecodeString;
  }

  lemma KeysOfUnfold(sorted: seq<Entry>, sofar: seq<Str>)
    ensures sorted == [] ==> sofar + KeysOf(sorted) == sofar
    ensures sorted != [] ==> sofar + KeysOf(sorted) == sofar + [sorted[0].key] + KeysOf(sorted[1..])
  {
  }

  lemma KeysUnfold(sorted: seq<Entry>, more: seq<byte>)
    requires sorted != [] && |sorted[0].key| < 0x1000_0000
    ensures EncKeys(sorted) + more == Utf8(sorted[0].key) + (EncKeys(sorted[1..]) + more)
  {
    hide Utf8, Utf8Ok;
    NameFits(sorted[0].key);
  }

  lemma {:induction false} SealedTrip(kind: Kind, refs: Refs, sorted: seq<Entry>, sofar: map<Str, Value>, suffix: seq<byte>)
    requires EntriesSized(sorted) && sorted != []
    ensures Comes(DecodeSealed(kind, refs, EncValues(sorted) + suffix, KeysOf(sorted), sofar), kind, suffix,
                  LastValueEndsEmpty(sorted), Fields(sofar, sorted, true))
    decreases TotalSize(sorted), 0
  {
    var e := sorted[0];
    var after := EncValues(sorted[1..]) + suffix;
    SizedIsEncodable(e.value);
    ValuesUnfold(sorted, suffix);
    RoundTrip(kind, refs, e.value, after);
    hide Decode, Enc, Encodable, Sized, Size, Image, EndsEmpty, EncValues;
    var v := Decode(kind, refs, Enc(e.value) + after);
    assert KeysOf(sorted)[1..] == KeysOf(sorted[1..]);
    if |sorted| > 1 {
      EncValuesNotEmpty(sorted[1..]);
      SealedTrip(kind, v.refs, sorted[1..], sofar[e.key := Image(e.value, true)], suffix);
    }
  }

  lemma ValuesUnfold(sorted: seq<Entry>, suffix: seq<byte>)
    requires sorted != [] && Encodable(sorted[0].value)
    ensures EncValues(sorted) + suffix == Enc(sorted[0].value) + (EncValues(sorted[1..]) + suffix)
    ensures |sorted| == 1 ==> EncValues(sorted[1..]) + suffix == suffix
  {
    hide Enc, Encodable, EncValues;
    FirstValue(sorted);
    NoValues(suffix);
    PlusAssoc(Enc(sorted[0].value), EncValues(sorted[1..]), suffix);
  }

  lemma FirstValue(sorted: seq<Entry>)
    requires sorted != [] && Encodable(sorted[0].value)
    ensures EncValues(sorted) == Enc(sorted[0].value) + EncValues(sorted[1..])
    ensures |sorted| == 1 ==> sorted[1..] == []
  {
    hide Enc, Encodable;
  }

  lemma NoValues(suffix: seq<byte>)
    ensures EncValues([]) + suffix == suffix
  {
  }

  lemma EncValuesNotEmpty(sorted: seq<Entry>)
    requires EntriesSized(sorted)
    ensures EncValues(sorted) == [] <==> sorted == []
  {
    if sorted != [] {
      MarkerFirst(sorted[0].value);
    }
  }

  lemma {:induction false} SizedIsEncodable(t: Term)
    requires Sized(t)
    ensures Encodable(t)
    decreases t
  {
    match t
    case Slice(items) => AllSizedEncodable(items);
    case Map(entries) => EntriesSizedEncodable(entries);
    case Typed(name, entries) => EntriesSizedEncodable(entries);
    case _ =>
  }

  lemma {:induction false} AllSizedEncodable(items: seq<Term>)
    requires AllSized(items)
    ensures AllEncodable(items)
    decreases items
  {
    if items != [] {
      SizedIsEncodable(items[0]);
      AllSizedEncodable(items[1..]);
    }
  }

  lemma {:induction false} EntriesSizedEncodable(entries: seq<Entry>)
    requires EntriesSized(entries)
    ensures KeysEncodable(entries) && ValuesEncodable(entries)
    decreases entries
  {
    if entries != [] {
      SizedIsEncodable(entries[0].value);
      EntriesSizedEncodable(entries[1..]);
    }
  }

  // -------------------------------------------------------------- sorting

  /** Sorting keeps every entry, and so what an object holds. */
  lemma {:induction false} SortKeeps(sofar: map<Str, Value>, entries: seq<Entry>)
    requires EntriesSized(entries) && Distinct(entries)
    ensures EntriesSized(Sort(entries)) && multiset(Sort(entries)) == multiset(entries)
    ensures Fields(sofar, Sort(entries), true) == Fields(sofar, entries, true)
    decreases |entries|
  {
    if entries != [] {
      var e, more := entries[0], entries[1..];
      assert entries == [e] + more;
      SortKeeps(sofar[e.key := Image(e.value, true)], more);
      var sorted := Sort(more);
      FirstKeyIsFresh(entries, sorted);
      InsertPermutes(e, sorted);
      InsertKeeps(sofar, e, sorted);
    }
  }

  lemma FirstKeyIsFresh(entries: seq<Entry>, sorted: seq<Entry>)
    requires entries != [] && Distinct(entries) && multiset(sorted) == multiset(entries[1..])
    ensures forall x :: x in sorted ==> x.key != entries[0].key
  {
    forall x | x in sorted ensures x.key != entries[0].key {
      assert x in multiset(entries[1..]);
      var i :| 0 <= i < |entries| - 1 && entries[1..][i] == x;
      assert entries[i + 1] == x;
    }
  }

  lemma {:induction false} InsertKeeps(sofar: map<Str, Value>, e: Entry, sorted: seq<Entry>)
    requires |e.key| < 0x1000_0000 && Sized(e.value) && EntriesSized(sorted)
    requires forall x :: x in sorted ==> x.key != e.key
    ensures EntriesSized(Insert(e, sorted))
    ensures Fields(sofar, Insert(e, sorted), true) == Fields(sofar[e.key := Image(e.value, true)], sorted, true)
    decreases |sorted|
  {
    hide Image, Sized, Less, Size, TotalSize;
    var r := Insert(e, sorted);
    if r == [e] + sorted {
      assert r[1..] == sorted;
    } else {
      var first, more := sorted[0], sorted[1..];
      assert first in sorted && forall x :: x in more ==> x in sorted;
      assert r[0] == first && r[1..] == Insert(e, more);
      var v, w := Image(first.value, true), Image(e.value, true);
      InsertKeeps(sofar[first.key := v], e, more);
      PutsCommute(sofar, first.key, v, e.key, w);
      hide Insert;
    }
  }

  lemma PutsCommute(m: map<Str, Value>, k: Str, v: Value, l: Str, w: Value)
    requires k != l
    ensures m[k := v][l := w] == m[l := w][k := v]
  {
  }

  lemma {:induction false} InsertPermutes(e: Entry, sorted: seq<Entry>)
    ensures multiset(Insert(e, sorted)) == multiset([e] + sorted)
    decreases |sorted|
  {
    hide Less, Size, TotalSize;
    if Insert(e, sorted) != [e] + sorted {
      InsertPermutes(e, sorted[1..]);
      assert sorted == [sorted[0]] + sorted[1..];
    }
  }
}
