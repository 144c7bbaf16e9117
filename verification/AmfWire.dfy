/**
  Both Action Message Formats as they stand on the wire: for each kind of value its
  marker, its length and where its parts are.
 */
module AmfWire {
  import opened Bytes
  import opened AmfIo
  import opened Uint29
  import Wire = ChunkWire
  import Amf0
  import Amf3
  import Meaning = Amf3Meaning

  // -------------------------------------------------------------------- AMF0

  /** The length of a string takes two bytes, or four behind another marker where two are too few. */
  lemma Amf0StringIs(s: Str)
    requires |s| < 0x1_0000_0000
    ensures var n := |s|;
            Amf0.Enc(String(s)) ==
            (if n <= 65535 then [0x02, n / 256, n % 256]
             else [0x0c, n / 16777216, n / 65536 % 256, n / 256 % 256, n % 256]) + s
  {
    hide BE;
    if |s| <= 65535 {
      BE2(|s|);
      assert [0x02] + ([|s| / 256, |s| % 256] + s) == [0x02, |s| / 256, |s| % 256] + s;
    } else {
      Wire.BE4(|s|);
    }
  }

  lemma BE2(v: nat)
    ensures BE(v, 2) == [v / 256 % 256, v % 256]
  {
    Wire.OneLow(v / 256);
  }

  lemma Amf0LeafIs(t: Term)
    ensures t.Nil? ==> Amf0.Enc(t) == [0x05]
    ensures t.Flag? ==> Amf0.Enc(t) == [0x01, if t.b then 1 else 0]
    ensures t.Float? || t.Int? ==> Amf0.Enc(t) == [0x00] + t.double
    ensures t.Typed? || t.Moment? || t.Other? ==> !Amf0.Encodable(t)
  {
  }

  /** The values of an array one behind the other, behind their number in four bytes. */
  lemma Amf0ArrayIs(items: seq<Term>, k: nat)
    requires |items| < 0x1_0000_0000 && Amf0.AllEncodable(items) && k <= |items|
    ensures var n := |items|;
            Amf0.Enc(Slice(items)) == [0x0a, n / 16777216, n / 65536 % 256, n / 256 % 256, n % 256] +
                                      (Amf0Items(items, k) + Amf0.EncItems(items[k..])) &&
            Amf0.EncItems(items[|items|..]) == []
  {
    Wire.BE4(|items|);
    ItemsSplit(items, k);
    NoItems(items[|items|..]);
    ArrayMarked(items);
    hide BE, Amf0.Enc, Amf0.EncItems, Amf0Items, Amf0.AllEncodable;
  }

  lemma ArrayMarked(items: seq<Term>)
    requires |items| < 0x1_0000_0000
    ensures var n := |items|;
            Amf0.Enc(Slice(items)) ==
            [0x0a, n / 16777216, n / 65536 % 256, n / 256 % 256, n % 256] + Amf0.EncItems(items)
  {
    hide BE, Amf0.Enc, Amf0.EncItems;
    ArrayBehindMarker(items);
    Wire.BE4(|items|);
    OneMore(0x0a, BE(|items|, 4));
  }

  lemma ArrayBehindMarker(items: seq<Term>)
    ensures Amf0.Enc(Slice(items)) == [0x0a] + BE(|items|, 4) + Amf0.EncItems(items)
  {
    hide BE, Amf0.EncItems, Amf0.EncEntries, Amf0.EncString;
  }

  lemma OneMore(marker: byte, length: seq<byte>)
    requires |length| == 4
    ensures [marker] + length == [marker, length[0], length[1], length[2], length[3]]
  {
  }

  lemma NoItems(items: seq<Term>)
    requires items == []
    ensures Amf0.EncItems(items) == []
  {
  }

  /** The first `k` values one behind the other. */
  function Amf0Items(items: seq<Term>, k: nat): seq<byte>
    requires k <= |items|
  {
    if k == 0 then [] else Amf0Items(items, k - 1) + Amf0.Enc(items[k - 1])
  }

  lemma {:induction false} ItemsSplit(items: seq<Term>, k: nat)
    requires Amf0.AllEncodable(items) && k <= |items|
    ensures Amf0.EncItems(items) == Amf0Items(items, k) + Amf0.EncItems(items[k..]) && Amf0.AllEncodable(items[k..])
  {
    hide Amf0.Enc, Amf0.Encodable;
    if k == 0 {
      assert items[0..] == items;
    } else {
      ItemsSplit(items, k - 1);
      var rest := items[k - 1..];
      assert rest[0] == items[k - 1] && rest[1..] == items[k..];
      assert Amf0.EncItems(rest) == Amf0.Enc(rest[0]) + Amf0.EncItems(rest[1..]);
      PlusAssoc(Amf0Items(items, k - 1), Amf0.Enc(items[k - 1]), Amf0.EncItems(items[k..]));
    }
  }

  /** The first `k` entries one behind the other: the length of the key in two bytes, the key, the value. */
  function Amf0Entries(entries: seq<Entry>, k: nat): seq<byte>
    requires k <= |entries|
  {
    if k == 0 then []
    else
      var key := entries[k - 1].key;
      Amf0Entries(entries, k - 1) + ([|key| / 256 % 256, |key| % 256] + key + Amf0.Enc(entries[k - 1].value))
  }

  /** The entries of a map behind its marker, and behind them the empty key and the end marker. */
  lemma Amf0MapIs(entries: seq<Entry>)
    requires Amf0.AllValuesEncodable(entries)
    ensures Amf0.Enc(Map(entries)) == [0x03] + (Amf0Entries(entries, |entries|) + [0x00, 0x00, 0x09])
  {
    EntriesSplit(entries, |entries|);
    hide Amf0Entries;
    BE2(0);
    assert BE(0, 2) + [] + [0x09] == [0x00, 0x00, 0x09];
  }

  lemma {:induction false} EntriesSplit(entries: seq<Entry>, k: nat)
    requires Amf0.AllValuesEncodable(entries) && k <= |entries|
    ensures Amf0.EncEntries(entries) == Amf0Entries(entries, k) + Amf0.EncEntries(entries[k..])
    ensures Amf0.AllValuesEncodable(entries[k..])
  {
    hide Amf0.Enc, Amf0.Encodable, BE;
    if k == 0 {
      assert entries[0..] == entries;
    } else {
      EntriesSplit(entries, k - 1);
      var rest := entries[k - 1..];
      assert rest[0] == entries[k - 1] && rest[1..] == entries[k..];
      BE2(|rest[0].key|);
      var one, more := Amf0.EncString(rest[0].key) + Amf0.Enc(rest[0].value), Amf0.EncEntries(entries[k..]);
      assert Amf0.EncEntries(rest) == one + more;
      PlusAssoc(Amf0Entries(entries, k - 1), one, more);
    }
  }

  // -------------------------------------------------------------------- AMF3

  /** Seven bits to a byte, the highest first, and all eight in the fourth. */
  lemma U29Is(v: nat)
    ensures EncU29(v) ==
            if v < 0x80 then [v]
            else if v < 0x4000 then [v / 128 + 128, v % 128]
            else if v < 0x20_0000 then [v / 16384 + 128, v / 128 % 128 + 128, v % 128]
            else if v < 0x2000_0000 then [v / 4194304 + 128, v / 32768 % 128 + 128, v / 256 % 128 + 128, v % 256]
            else []
  {
    if v < 0x2000_0000 {
      TopDigit(v);
      assert Digit(v, 1) == v % 128;
    }
  }

  lemma TopDigit(v: nat)
    ensures v < 0x4000 ==> Digit(v, 0x80) == v / 128
    ensures v < 0x20_0000 ==> Digit(v, 0x4000) == v / 16384
    ensures v < 0x2000_0000 ==> Digit(v, 0x40_0000) == v / 4194304
  {
  }

  lemma Amf3LeafIs(t: Term)
    ensures t.Nil? ==> Amf3.Enc(t) == [0x01]
    ensures t.Flag? ==> Amf3.Enc(t) == [if t.b then 0x03 else 0x02]
    ensures t.Float? ==> Amf3.Enc(t) == [0x05] + t.double
    ensures t.Int? ==> Amf3.Enc(t) == if 0 <= t.n < 0x2000_0000 then [0x04] + EncU29(t.n) else [0x05] + t.double
    ensures t.String? && |t.s| < 0x1000_0000 ==> Amf3.Enc(t) == [0x06] + (EncU29(2 * |t.s| + 1) + t.s)
    ensures t.String? && 0x1000_0000 <= |t.s| < 0x8000_0000 ==> !Amf3.Encodable(t)
    ensures t.Moment? ==> Amf3.Enc(t) == [0x08, 0x01] + t.ms
    ensures t.Other? ==> !Amf3.Encodable(t)
  {
    hide EncU29;
  }

  /** The number of values, the empty string that stands for no keys, and the values. */
  lemma Amf3ArrayIs(items: seq<Term>)
    requires |items| < 0x1000_0000 && Amf3.AllEncodable(items)
    ensures Amf3.Enc(Slice(items)) == [0x09] + (EncU29(2 * |items| + 1) + ([0x01] + Amf3Items(items, |items|)))
  {
    ArrayParts(items);
    Amf3ItemsSplit(items, |items|);
    assert Amf3.EncItems(items[|items|..]) == [];
    hide EncU29, Amf3Items, Amf3.EncItems, Amf3.Enc, Amf3.AllEncodable;
    assert Amf3Items(items, |items|) + [] == Amf3Items(items, |items|);
    PlusAssoc([0x09], EncU29(2 * |items| + 1), [0x01] + Amf3.EncItems(items));
  }

  lemma ArrayParts(items: seq<Term>)
    requires |items| < 0x1000_0000
    ensures Amf3.Enc(Slice(items)) == [0x09] + EncU29(2 * |items| + 1) + ([0x01] + Amf3.EncItems(items))
  {
    hide EncU29, Amf3.EncItems, Amf3.Utf8, Amf3.LengthWord, U29Ok, Amf3.EncObject, Amf3.Sort;
    LengthIs(|items|);
    NoString();
  }

  lemma NoString()
    ensures Amf3.Utf8([]) == [0x01]
  {
    KeyIs([]);
    U29Is(1);
    hide EncU29, Amf3.Utf8;
    assert [0x01] + [] == [0x01];
  }

  lemma LengthIs(n: nat)
    requires n < 0x1000_0000
    ensures Amf3.LengthWord(n) == 2 * n + 1 && U29Ok(2 * n + 1)
    ensures n < 0x200_0000 ==> Amf3.TraitWord(n) == 16 * n + 3 && U29Ok(16 * n + 3)
  {
  }

  lemma KeyIs(s: Str)
    requires |s| < 0x1000_0000
    ensures Amf3.Utf8(s) == EncU29(2 * |s| + 1) + s && Amf3.Utf8Ok(s)
  {
    LengthIs(|s|);
    hide EncU29, Amf3.LengthWord, U29Ok;
  }

  function Amf3Items(items: seq<Term>, k: nat): seq<byte>
    requires k <= |items|
  {
    if k == 0 then [] else Amf3Items(items, k - 1) + Amf3.Enc(items[k - 1])
  }

  lemma {:induction false} Amf3ItemsSplit(items: seq<Term>, k: nat)
    requires Amf3.AllEncodable(items) && k <= |items|
    ensures Amf3.EncItems(items) == Amf3Items(items, k) + Amf3.EncItems(items[k..]) && Amf3.AllEncodable(items[k..])
  {
    hide Amf3.Enc, Amf3.Encodable;
    if k == 0 {
      assert items[0..] == items;
    } else {
      Amf3ItemsSplit(items, k - 1);
      var rest := items[k - 1..];
      assert rest[0] == items[k - 1] && rest[1..] == items[k..];
      assert Amf3.EncItems(rest) == Amf3.Enc(rest[0]) + Amf3.EncItems(rest[1..]);
      PlusAssoc(Amf3Items(items, k - 1), Amf3.Enc(items[k - 1]), Amf3.EncItems(items[k..]));
    }
  }

  /** The keys of the entries one behind the other, each a string behind its length. */
  function Amf3Keys(entries: seq<Entry>, k: nat): seq<byte>
    requires k <= |entries|
  {
    if k == 0 then [] else Amf3Keys(entries, k - 1) + (EncU29(2 * |entries[k - 1].key| + 1) + entries[k - 1].key)
  }

  function Amf3Values(entries: seq<Entry>, k: nat): seq<byte>
    requires k <= |entries|
  {
    if k == 0 then [] else Amf3Values(entries, k - 1) + Amf3.Enc(entries[k - 1].value)
  }

  predicate ShortKeys(entries: seq<Entry>) {
    forall k :: 0 <= k < |entries| ==> |entries[k].key| < 0x1000_0000
  }

  /**
    The number of properties over four bits that say they are all sealed and that their
    traits follow: the class name and the keys; then the values.
   */
  lemma Amf3ObjectIs(name: Str, e: seq<Entry>)
    requires |name| < 0x1000_0000 && |e| < 0x200_0000 && ShortKeys(e) && Amf3.ValuesEncodable(e)
    ensures Amf3.EncObject(name, e) ==
            EncU29(16 * |e| + 3) + (EncU29(2 * |name| + 1) + name + (Amf3Keys(e, |e|) + Amf3Values(e, |e|)))
  {
    hide EncU29, Amf3Keys, Amf3Values, Amf3.EncObject, Amf3.EncKeys, Amf3.EncValues;
    hide ShortKeys, Amf3.ValuesEncodable, Amf3.KeysEncodable;
    AllKeys(e);
    AllValues(e);
    ObjectParts(name, e);
  }

  lemma AllKeys(e: seq<Entry>)
    requires ShortKeys(e)
    ensures Amf3.EncKeys(e) == Amf3Keys(e, |e|) && Amf3.KeysEncodable(e)
  {
    hide EncU29, Amf3Keys, Amf3.KeysEncodable, ShortKeys;
    KeysSplit(e, |e|);
    NoEntries(e[|e|..]);
    hide Amf3.EncKeys;
    assert Amf3Keys(e, |e|) + [] == Amf3Keys(e, |e|);
  }

  lemma AllValues(e: seq<Entry>)
    requires Amf3.ValuesEncodable(e)
    ensures Amf3.EncValues(e) == Amf3Values(e, |e|)
  {
    hide Amf3Values, Amf3.ValuesEncodable, Amf3.Enc;
    ValuesSplit(e, |e|);
    NoEntries(e[|e|..]);
    hide Amf3.EncValues;
    assert Amf3Values(e, |e|) + [] == Amf3Values(e, |e|);
  }

  /** The entries of an object are sorted by their keys; a map is an object without a class name. */
  lemma Amf3ObjectMarked(name: Str, entries: seq<Entry>)
    ensures Amf3.Enc(Typed(name, entries)) == [0x0a] + Amf3.EncObject(name, Amf3.Sort(entries))
    ensures name == [] ==> Amf3.Enc(Map(entries)) == Amf3.Enc(Typed(name, entries))
  {
    hide Amf3.EncObject, Amf3.Sort, EncU29, Amf3.Utf8, Amf3.EncItems;
  }

  lemma NoEntries(entries: seq<Entry>)
    requires entries == []
    ensures Amf3.EncKeys(entries) == [] && Amf3.EncValues(entries) == []
  {
  }

  lemma ObjectParts(name: Str, e: seq<Entry>)
    requires |name| < 0x1000_0000 && |e| < 0x200_0000 && Amf3.KeysEncodable(e)
    ensures Amf3.EncObject(name, e) ==
            EncU29(16 * |e| + 3) + (EncU29(2 * |name| + 1) + name + (Amf3.EncKeys(e) + Amf3.EncValues(e)))
  {
    hide EncU29, Amf3.Utf8, Amf3.EncKeys, Amf3.EncValues, Amf3.KeysEncodable, Amf3.TraitWord, Amf3.Utf8Ok, U29Ok;
    LengthIs(|e|);
    KeyIs(name);
    var word, named, keys := EncU29(16 * |e| + 3), EncU29(2 * |name| + 1) + name, Amf3.EncKeys(e) + Amf3.EncValues(e);
    assert Amf3.EncObject(name, e) == word + (named + keys);
  }

  lemma {:induction false} KeysSplit(entries: seq<Entry>, k: nat)
    requires ShortKeys(entries) && k <= |entries|
    ensures Amf3.EncKeys(entries) == Amf3Keys(entries, k) + Amf3.EncKeys(entries[k..])
    ensures k == |entries| ==> Amf3.KeysEncodable(entries)
  {
    hide EncU29, Amf3.EncKeys, Amf3.Utf8;
    if k == 0 {
      assert entries[0..] == entries;
    } else {
      KeysSplit(entries, k - 1);
      var rest, key := entries[k - 1..], EncU29(2 * |entries[k - 1].key| + 1) + entries[k - 1].key;
      assert rest[0] == entries[k - 1] && rest[1..] == entries[k..];
      FirstKey(rest);
      PlusAssoc(Amf3Keys(entries, k - 1), key, Amf3.EncKeys(entries[k..]));
    }
    if k == |entries| {
      KeysFit(entries);
    }
  }

  lemma FirstKey(entries: seq<Entry>)
    requires entries != [] && |entries[0].key| < 0x1000_0000
    ensures Amf3.EncKeys(entries) == EncU29(2 * |entries[0].key| + 1) + entries[0].key + Amf3.EncKeys(entries[1..])
  {
    hide EncU29, Amf3.Utf8, Amf3.Utf8Ok;
    KeyIs(entries[0].key);
    FirstOfKeys(entries);
  }

  lemma FirstOfKeys(entries: seq<Entry>)
    requires entries != [] && Amf3.Utf8Ok(entries[0].key)
    ensures Amf3.EncKeys(entries) == Amf3.Utf8(entries[0].key) + Amf3.EncKeys(entries[1..])
  {
    hide Amf3.Utf8, Amf3.Utf8Ok;
  }

  lemma {:induction false} KeysFit(entries: seq<Entry>)
    requires ShortKeys(entries)
    ensures Amf3.KeysEncodable(entries)
  {
    if entries != [] {
      KeyIs(entries[0].key);
      KeysFit(entries[1..]);
    }
  }

  lemma {:induction false} ValuesSplit(entries: seq<Entry>, k: nat)
    requires Amf3.ValuesEncodable(entries) && k <= |entries|
    ensures Amf3.EncValues(entries) == Amf3Values(entries, k) + Amf3.EncValues(entries[k..])
    ensures Amf3.ValuesEncodable(entries[k..])
  {
    hide Amf3.Enc, Amf3.Encodable;
    if k == 0 {
      assert entries[0..] == entries;
    } else {
      ValuesSplit(entries, k - 1);
      var rest := entries[k - 1..];
      assert rest[0] == entries[k - 1] && rest[1..] == entries[k..];
      assert Amf3.EncValues(rest) == Amf3.Enc(rest[0].value) + Amf3.EncValues(rest[1..]);
      PlusAssoc(Amf3Values(entries, k - 1), Amf3.Enc(entries[k - 1].value), Amf3.EncValues(entries[k..]));
    }
  }

  /** The key in front is a prefix of the one behind, or the smaller at the first byte that differs. */
  lemma KeysAscend(entries: seq<Entry>, i: nat, j: nat) returns (k: nat)
    requires i < j < |entries| && Distinct(entries)
    ensures multiset(Amf3.Sort(entries)) == multiset(entries)
    ensures var a, b := Amf3.Sort(entries)[i].key, Amf3.Sort(entries)[j].key;
            k <= |a| && k < |b| && a[..k] == b[..k] && (k == |a| || a[k] < b[k])
  {
    Meaning.SortSorts(entries);
    hide Amf3.Less;
    k := FirstDifference(Amf3.Sort(entries)[i].key, Amf3.Sort(entries)[j].key);
  }

  lemma {:induction false} FirstDifference(a: Str, b: Str) returns (k: nat)
    requires Amf3.Less(a, b)
    ensures k <= |a| && k < |b| && a[..k] == b[..k] && (k == |a| || a[k] < b[k])
    decreases |a|
  {
    if a == [] || a[0] < b[0] {
      k := 0;
    } else {
      var m := FirstDifference(a[1..], b[1..]);
      k := m + 1;
      assert a[..k] == [a[0]] + a[1..][..m] && b[..k] == [b[0]] + b[1..][..m];
    }
  }
}
