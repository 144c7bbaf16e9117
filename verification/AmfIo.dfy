/**
  What both Action Message Format codecs share: the values they carry, and the
  reader and writer they work on.
 */
module AmfIo {
  import opened Bytes

  type Str = seq<byte>
  type Double = s: seq<byte> | |s| == 8 witness [0, 0, 0, 0, 0, 0, 0, 0]

  /**
    What a decoder returns. A double is the eight bytes of its IEEE 754 form; a time
    is the double of its milliseconds.
   */
  datatype Value =
    | Null
    | Bool(b: bool)
    | Number(double: Double)
    | Integer(n: int)
    | Text(s: Str)
    | Array(items: seq<Value>)
    | Object(fields: map<Str, Value>)
    | TypedObject(kind: Str, fields: map<Str, Value>)
    | Time(ms: Double)
    | Blob(bytes: Str)

  /**
    What an encoder is given. The entries of a map come in the order in which the
    encoder happens to meet them. An integer brings its conversion to a double.
    `Other` is any value of a type no encoder takes.
   */
  datatype Term =
    | Nil
    | Flag(b: bool)
    | Float(double: Double)
    | Int(n: int, double: Double)
    | String(s: Str)
    | Slice(items: seq<Term>)
    | Map(entries: seq<Entry>)
    | Typed(kind: Str, entries: seq<Entry>)
    | Moment(ms: Double)
    | Other

  datatype Entry = Entry(key: Str, value: Term)

  /** No key twice, as in any map. */
  predicate Distinct(entries: seq<Entry>) {
    forall i, j :: 0 <= i < j < |entries| ==> entries[i].key != entries[j].key
  }

  /**
    The two readers values are decoded from. At the end of its input a `Buffer`
    grants an empty read, a `Reader` does not.
   */
  datatype Kind = Buffer | Reader

  datatype Decoded<T> = Decoded(value: Option<T>, rest: seq<byte>)

  datatype Trait = Trait(name: Str, externalizable: bool, dynamic: bool, properties: seq<Str>)

  /** The strings, objects and traits that later references in AMF3 can name. */
  datatype Refs = Refs(strings: seq<Str>, objects: seq<Value>, traits: seq<Trait>)

  const NO_REFS := Refs([], [], [])

  /** A call yields a value, returns an error, or panics at a reference that its table does not have. */
  datatype Outcome<T> = Ok(value: T) | Failed | Panics

  datatype Decoding<T> = Decoding(out: Outcome<T>, rest: seq<byte>, refs: Refs)

  /** No value of one kind is no value of another. */
  function Pass<T, U>(out: Outcome<T>): Outcome<U>
    requires !out.Ok?
  {
    match out
    case Failed => Failed
    case Panics => Panics
  }

  /** A decoding that has nothing to do with references. */
  function Lift<T>(d: Decoded<T>, refs: Refs): Decoding<T> {
    Decoding(if d.value.Some? then Ok(d.value.value) else Failed, d.rest, refs)
  }

  /** What one call of Read with room for `n` bytes gets, if it is not the end of the input. */
  function Got(kind: Kind, s: seq<byte>, n: nat): Option<seq<byte>> {
    if s == [] && (n > 0 || kind == Reader) then None else Some(s[..Min(n, |s|)])
  }

  /** Exactly `n` bytes, in one call of Read. */
  function Take(kind: Kind, s: seq<byte>, n: nat): (d: Decoded<seq<byte>>)
    ensures d.value.Some? ==> |d.value.value| == n && s == d.value.value + d.rest
    ensures d.value.None? ==> d.rest == []
    ensures |d.rest| <= |s| && (d.value.Some? && n > 0 ==> |d.rest| < |s|)
  {
    var got := Got(kind, s, n);
    if got.None? || |got.value| < n then Decoded(None, []) else Decoded(Some(got.value), s[n..])
  }

  lemma TakeFront(kind: Kind, front: seq<byte>, rest: seq<byte>)
    requires front + rest != [] || kind == Buffer
    ensures Take(kind, front + rest, |front|) == Decoded(Some(front), rest)
  {
  }

  /** The input a decoder works on. */
  class Source {
    const kind: Kind
    const data: seq<byte>
    var at: nat

    constructor (kind: Kind, data: seq<byte>)
      ensures Valid() && Rest() == data && this.kind == kind && this.data == data
    {
      this.kind, this.data, at := kind, data, 0;
    }

    predicate Valid()
      reads this
    {
      at <= |data|
    }

    function Rest(): seq<byte>
      requires Valid()
      reads this
    {
      data[at..]
    }

    method Read(p: array<byte>) returns (m: nat, eof: bool)
      requires Valid()
      modifies this`at, p
      ensures Valid()
      ensures var got := Got(kind, old(Rest()), p.Length);
              eof == got.None? && m == (if eof then 0 else |got.value|) &&
              p[..] == (if eof then [] else got.value) + old(p[..])[m..] &&
              Rest() == old(Rest())[m..]
    {
      if at == |data| && (p.Length > 0 || kind == Reader) {
        assert old(p[..])[0..] == p[..];
        return 0, true;
      }
      eof := false;
      m := Min(p.Length, |data| - at);
      ghost var was := p[..];
      for k := 0 to m
        invariant at == old(at)
        invariant forall i :: 0 <= i < p.Length ==> p[i] == if i < k then data[at + i] else was[i]
      {
        p[k] := data[at + k];
      }
      assert p[..] == data[at..at + m] + was[m..];
      at := at + m;
    }

    method ReadBytes(n: nat) returns (bytes: array<byte>, ok: bool)
      requires Valid()
      modifies this`at
      ensures Valid() && fresh(bytes) && bytes.Length == n
      ensures var d := Take(kind, old(Rest()), n);
              ok == d.value.Some? && (ok ==> bytes[..] == d.value.value) && Rest() == d.rest
    {
      bytes := new byte[n];
      var m, eof := Read(bytes);
      ok := !eof && m == n;
    }

    method ReadByte() returns (b: byte, ok: bool)
      requires Valid()
      modifies this`at
      ensures Valid()
      ensures var d := Take(kind, old(Rest()), 1);
              ok == d.value.Some? && (ok ==> d.value.value == [b]) && Rest() == d.rest
    {
      var bytes, read := ReadBytes(1);
      b, ok := 0, read;
      if ok {
        b := bytes[0];
        assert bytes[..] == [b];
      }
    }

    /** Reads a marker and compares it, unless the caller has read it already. */
    method AssertMarker(checkMarker: bool, m: byte) returns (ok: bool)
      requires Valid()
      modifies this`at
      ensures Valid()
      ensures !checkMarker ==> ok && Rest() == old(Rest())
      ensures checkMarker ==>
                var d := Take(kind, old(Rest()), 1);
                ok == (d.value == Some([m])) && Rest() == d.rest
    {
      if !checkMarker {
        return true;
      }
      var marker, read := ReadByte();
      ok := read && marker == m;
    }
  }
}
