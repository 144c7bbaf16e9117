/**
  When the value that comes back over AMF3 is the value that was meant, and why
  the bytes of an object do not depend on the order of its keys in memory.
 */
module Amf3Meaning {
  import opened Bytes
  import opened AmfIo
  import opened Uint29
  import opened Amf3
  import opened Amf3RoundTrip

  // -------------------------------------------------- what is kept exactly

  /** No integer in the upper half of the 29-bit range, and no class names. */
  predicate Faithful(t: Term)
    decreases t
  {
    match t
    case Int(n, _) => n <= 0xfff_ffff || n > INTEGER_MAX
    case Slice(items) => AllFaithful(items)
    case Map(entries) => EntriesFaithful(entries)
    case _ => !t.Typed?
  }

  predicate AllFaithful(items: seq<Term>)
    decreases items
  {
    items == [] || (Faithful(items[0]) && AllFaithful(items[1..]))
  }

  predicate EntriesFaithful(entries: seq<Entry>)
    decreases entries
  {
    entries == [] || (Faithful(entries[0].value) && EntriesFaithful(entries[1..]))
  }

  /** The decoded value is the one meant exactly if it is `Faithful`: the sign fold spoils the rest. */
  lemma RoundTripIff(refs: Refs, t: Term, suffix: seq<byte>)
    requires Sized(t)
    ensures var d := Decode(Buffer, refs, Enc(t) + suffix);
            d.out == Ok(Image(t, false)) && d.rest == suffix <==> Faithful(t)
  {
    RoundTrip(Buffer, refs, t, suffix);
    ImageIff(t);
    hide Decode, Enc, Image, Faithful;
  }

  lemma {:induction false} ImageIff(t: Term)
    requires Sized(t)
    ensures Image(t, true) == Image(t, false) <==> Faithful(t)
    decreases t
  {
    match t
    case Slice(items) => ImagesIff(items);
    case Map(entries) => FieldsIff(map[], map[], entries);
    case _ =>
  }

  lemma {:induction false} ImagesIff(items: seq<Term>)
    requires AllSized(items)
    ensures Images(items, true) == Images(items, false) <==> AllFaithful(items)
    decreases items
  {
    if items != [] {
      ImageIff(items[0]);
      ImagesIff(items[1..]);
      hide Image, Faithful, Sized;
      var wire, meant := Images(items, true), Images(items, false);
      assert wire == meant <==> wire[0] == meant[0] && wire[1..] == meant[1..] by {
        assert wire == [wire[0]] + wire[1..] && meant == [meant[0]] + meant[1..];
      }
      assert wire[1..] == Images(items[1..], true) && meant[1..] == Images(items[1..], false);
    }
  }

  lemma {:induction false} FieldsIff(wire: map<Str, Value>, meant: map<Str, Value>, entries: seq<Entry>)
    requires EntriesSized(entries) && Distinct(entries) && wire.Keys == meant.Keys
    requires forall e :: e in entries ==> e.key !in wire
    ensures Fields(wire, entries, true) == Fields(meant, entries, false) <==> wire == meant && EntriesFaithful(entries)
    decreases entries
  {
    if entries != [] {
      var e, more := entries[0], entries[1..];
      assert e in entries && forall x :: x in more ==> x in entries && x.key != e.key;
      var v, w := Image(e.value, true), Image(e.value, false);
      ImageIff(e.value);
      FieldsIff(wire[e.key := v], meant[e.key := w], more);
      hide Image, Faithful, Sized;
      PutIff(wire, meant, e.key, v, w);
    }
  }

  lemma PutIff(a: map<Str, Value>, b: map<Str, Value>, k: Str, v: Value, w: Value)
    requires a.Keys == b.Keys && k !in a
    ensures a[k := v] == b[k := w] <==> a == b && v == w
  {
    if a[k := v] == b[k := w] {
      assert a[k := v][k] == b[k := w][k];
      forall x | x in a ensures a[x] == b[x] {
        assert a[k := v][x] == b[k := w][x];
      }
    }
  }

  // ------------------------------------------------------- truncated input

  /**
    Where fewer bytes of a string are left than were announced, the decoder refuses
    only if there are none at all; otherwise it reads the missing ones as zeros.
   */
  lemma ShortStringIff(kind: Kind, refs: Refs, got: seq<byte>, n: nat)
    requires |got| < n < 0x1000_0000
    ensures var d := DecodeString(kind, refs, EncU29(LengthWord(n)) + got);
            (d.out.Failed? <==> got == []) && (d.out.Ok? <==> got != []) && d.rest == [] &&
            (got != [] ==> d.out.value == got + seq(n - |got|, _ => 0))
  {
    StringRead(kind, refs, n, got);
    hide DecodeString, EncU29, LengthWord;
    assert got[..|got|] == got && got[|got|..] == [];
  }

  /**
    A string cut anywhere: the decoder refuses exactly if the cut is in its length or
    right behind it, and what it reads otherwise is the string exactly if what was
    cut off was zeros.
   */
  lemma CutStringIff(kind: Kind, refs: Refs, s: Str, k: nat)
    requires |s| < 0x1000_0000 && k < |Utf8(s)|
    ensures var u := |EncU29(LengthWord(|s|))|;
            var d := DecodeString(kind, refs, Utf8(s)[..k]);
            (d.out.Failed? <==> k <= u) && (d.out.Ok? <==> k > u) && d.rest == [] &&
            (k > u ==> d.out.value == s[..k - u] + seq(u + |s| - k, _ => 0)) &&
            (d.out == Ok(s) <==> k > u && forall i :: k - u <= i < |s| ==> s[i] == 0)
  {
    hide DecodeString, EncU29, LengthWord, Utf8;
    var length := EncU29(LengthWord(|s|));
    Utf8Cut(s, k);
    if k < |length| {
      CutInLength(kind, refs, |s|, k);
    } else {
      ShortStringIff(kind, refs, s[..k - |length|], |s|);
      if k > |length| {
        ZerosFit(s, k - |length|);
      }
    }
  }

  lemma Utf8Cut(s: Str, k: nat)
    requires |s| < 0x1000_0000 && k < |Utf8(s)|
    ensures var length := EncU29(LengthWord(|s|));
            && |Utf8(s)| == |length| + |s|
            && Utf8(s)[..k] == if k < |length| then length[..k] else length + s[..k - |length|]
  {
    NameFits(s);
    hide EncU29, LengthWord;
  }

  lemma CutInLength(kind: Kind, refs: Refs, n: nat, k: nat)
    requires n < 0x1000_0000 && k < |EncU29(LengthWord(n))|
    ensures var d := DecodeString(kind, refs, EncU29(LengthWord(n))[..k]); d.out.Failed? && d.rest == []
  {
    LengthFits(n);
    U29Truncated(kind, LengthWord(n), k);
    hide EncU29, LengthWord, DecU29;
  }

  /** So it is with XML and with byte arrays. */
  lemma ShortXmlIff(kind: Kind, refs: Refs, got: seq<byte>, n: nat)
    requires |got| < n < 0x1000_0000
    ensures var d := DecodeXml(kind, refs, EncU29(LengthWord(n)) + got);
            (d.out.Failed? <==> got == []) && (d.out.Ok? <==> got != []) && d.rest == [] &&
            (got != [] ==> d.out.value == Text(got + seq(n - |got|, _ => 0)))
  {
    LengthFits(n);
    U29RoundTrip(kind, LengthWord(n), got);
    hide DecU29, EncU29, LengthWord, U29Ok;
    assert got[..|got|] == got && got[|got|..] == [];
  }

  lemma ShortByteArrayIff(kind: Kind, refs: Refs, got: seq<byte>, n: nat)
    requires |got| < n < 0x1000_0000
    ensures var d := DecodeByteArray(kind, refs, EncU29(LengthWord(n)) + got);
            (d.out.Failed? <==> got == []) && (d.out.Ok? <==> got != []) && d.rest == [] &&
            (got != [] ==> d.out.value == Blob(got + seq(n - |got|, _ => 0)))
  {
    LengthFits(n);
    U29RoundTrip(kind, LengthWord(n), got);
    hide DecU29, EncU29, LengthWord, U29Ok;
    assert got[..|got|] == got && got[|got|..] == [];
  }

  lemma ZerosFit(s: Str, j: nat)
    requires j <= |s|
    ensures s[..j] + seq(|s| - j, _ => 0) == s <==> forall i :: j <= i < |s| ==> s[i] == 0
  {
    var filled: Str := s[..j] + seq(|s| - j, _ => 0);
    if filled == s {
      forall i | j <= i < |s| ensures s[i] == 0 {
        assert filled[i] == 0;
      }
    }
  }

  // ------------------------------------------------------- order of keys

  lemma {:induction false} LessTotal(a: Str, b: Str)
    ensures a == b || Less(a, b) || Less(b, a)
    ensures !(Less(a, b) && Less(b, a)) && (a == b ==> !Less(a, b))
    decreases |a|
  {
    if a != [] && b != [] && a[0] == b[0] {
      LessTotal(a[1..], b[1..]);
      assert a == [a[0]] + a[1..] && b == [b[0]] + b[1..];
    }
  }

  lemma {:induction false} LessTransitive(a: Str, b: Str, c: Str)
    requires Less(a, b) && Less(b, c)
    ensures Less(a, c)
    decreases |a|
  {
    if a != [] && a[0] == b[0] && b[0] == c[0] {
      LessTransitive(a[1..], b[1..], c[1..]);
    }
  }

  predicate Sorted(entries: seq<Entry>) {
    forall i, j :: 0 <= i < j < |entries| ==> Less(entries[i].key, entries[j].key)
  }

  lemma {:induction false} SortSorts(entries: seq<Entry>)
    requires Distinct(entries)
    ensures Sorted(Sort(entries)) && multiset(Sort(entries)) == multiset(entries)
    decreases |entries|
  {
    if entries != [] {
      var e, more := entries[0], entries[1..];
      SortSorts(more);
      var sorted := Sort(more);
      FirstKeyIsFresh(entries, sorted);
      hide Distinct, Sorted, Insert;
      InsertSorts(e, sorted);
      InsertPermutes(e, sorted);
      assert entries == [e] + more;
    }
  }

  lemma {:induction false} InsertSorts(e: Entry, sorted: seq<Entry>)
    requires Sorted(sorted) && forall x :: x in sorted ==> x.key != e.key
    ensures Sorted(Insert(e, sorted))
    decreases |sorted|
  {
    hide Less, Size, TotalSize;
    var r := Insert(e, sorted);
    if sorted != [] {
      var first, more := sorted[0], sorted[1..];
      LessTotal(first.key, e.key);
      if Less(first.key, e.key) {
        InsertSorts(e, more);
        InsertPermutes(e, more);
        assert r == [first] + Insert(e, more);
        forall x | x in Insert(e, more) ensures Less(first.key, x.key) {
          assert x in multiset([e] + more);
        }
      } else {
        assert first in sorted && r == [e] + sorted;
        forall j | 0 < j < |sorted| ensures Less(e.key, sorted[j].key) {
          LessTransitive(e.key, first.key, sorted[j].key);
        }
      }
    }
  }

  /** Two sorted arrangements of the same entries are the same. */
  lemma {:induction false} SortedUnique(a: seq<Entry>, b: seq<Entry>)
    requires Sorted(a) && Sorted(b) && multiset(a) == multiset(b)
    ensures a == b
    decreases |a|
  {
    hide Less;
    assert |multiset(a)| == |a| && |multiset(b)| == |b|;
    if a != [] {
      FirstIsLeast(a, b);
      SameRest(a, b);
      SortedUnique(a[1..], b[1..]);
    }
  }

  lemma SameRest<T>(a: seq<T>, b: seq<T>)
    requires a != [] && b != [] && a[0] == b[0] && multiset(a) == multiset(b)
    ensures multiset(a[1..]) == multiset(b[1..])
    ensures a[1..] == b[1..] ==> a == b
  {
    assert a == [a[0]] + a[1..] && b == [b[0]] + b[1..];
    assert multiset(a[1..]) == multiset(a) - multiset{a[0]} == multiset(b[1..]);
  }

  lemma FirstIsLeast(a: seq<Entry>, b: seq<Entry>)
    requires Sorted(a) && Sorted(b) && multiset(a) == multiset(b) && a != [] && b != []
    ensures a[0] == b[0]
  {
    assert a[0] in multiset(b) && b[0] in multiset(a);
    var i :| 0 <= i < |b| && b[i] == a[0];
    var j :| 0 <= j < |a| && a[j] == b[0];
    LessTotal(a[0].key, b[0].key);
    hide Less;
  }

  /** Go walks a map in any order; the bytes come out the same. */
  lemma OrderIsNotWritten(a: seq<Entry>, b: seq<Entry>)
    requires Distinct(a) && Distinct(b) && multiset(a) == multiset(b)
    ensures Enc(Map(a)) == Enc(Map(b))
  {
    SortSorts(a);
    SortSorts(b);
    SortedUnique(Sort(a), Sort(b));
    hide Sort, EncObject;
  }
}
