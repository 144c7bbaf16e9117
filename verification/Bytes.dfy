/**
  Bytes and the fixed-width big- and little-endian integers that every wire
  format of the server is built from.
 */
module Bytes {
  type byte = x: int | 0 <= x < 256
  type uint32 = x: int | 0 <= x < 0x1_0000_0000

  datatype Option<+T> = None | Some(value: T)

  function Min(a: int, b: int): int {
    if a <= b then a else b
  }

  function Pow256(n: nat): (p: nat)
    ensures p > 0
  {
    if n == 0 then 1 else 256 * Pow256(n - 1)
  }

  lemma PlusAssoc<T>(a: seq<T>, b: seq<T>, c: seq<T>)
    ensures a + b + c == a + (b + c)
  {
  }

  /** The low `n` bytes of `v`, most significant byte first. */
  function BE(v: nat, n: nat): (s: seq<byte>)
    ensures |s| == n
  {
    if n == 0 then [] else BE(v / 256, n - 1) + [v % 256]
  }

  /** The low `n` bytes of `v`, least significant byte first. */
  function LE(v: nat, n: nat): (s: seq<byte>)
    ensures |s| == n
  {
    if n == 0 then [] else [v % 256] + LE(v / 256, n - 1)
  }

  function FromBE(s: seq<byte>): nat {
    if s == [] then 0 else FromBE(s[..|s| - 1]) * 256 + s[|s| - 1]
  }

  function FromLE(s: seq<byte>): nat {
    if s == [] then 0 else s[0] + 256 * FromLE(s[1..])
  }

  lemma {:induction false} FromBEofBE(v: nat, n: nat)
    requires v < Pow256(n)
    ensures FromBE(BE(v, n)) == v
  {
    if n > 0 {
      FromBEofBE(v / 256, n - 1);
      assert BE(v, n)[..n - 1] == BE(v / 256, n - 1);
    }
  }

  lemma {:induction false} FromLEofLE(v: nat, n: nat)
    requires v < Pow256(n)
    ensures FromLE(LE(v, n)) == v
  {
    if n > 0 {
      FromLEofLE(v / 256, n - 1);
      assert LE(v, n)[1..] == LE(v / 256, n - 1);
    }
  }

  lemma {:induction false} FromBEBound(s: seq<byte>)
    ensures FromBE(s) < Pow256(|s|)
  {
    if s != [] {
      FromBEBound(s[..|s| - 1]);
    }
  }

  lemma {:induction false} FromLEBound(s: seq<byte>)
    ensures FromLE(s) < Pow256(|s|)
  {
    if s != [] {
      FromLEBound(s[1..]);
    }
  }

  lemma Pow256Values()
    ensures Pow256(0) == 1
    ensures Pow256(1) == 0x100
    ensures Pow256(2) == 0x1_0000
    ensures Pow256(3) == 0x100_0000
    ensures Pow256(4) == 0x1_0000_0000
  {
    assert Pow256(1) == 256 * Pow256(0);
    assert Pow256(2) == 256 * Pow256(1);
    assert Pow256(3) == 256 * Pow256(2);
  }

  /** Reading one more byte extends a big-endian value. */
  lemma FromBESnoc(s: seq<byte>, b: byte)
    ensures FromBE(s + [b]) == FromBE(s) * 256 + b
  {
    assert (s + [b])[..|s|] == s;
  }

  /** Reading one more byte extends a little-endian value. */
  lemma {:induction false} FromLESnoc(s: seq<byte>, b: byte)
    ensures FromLE(s + [b]) == FromLE(s) + b * Pow256(|s|)
  {
    if s == [] {
      assert FromLE([b]) == b + 256 * FromLE([b][1..]);
    } else {
      FromLESnoc(s[1..], b);
      assert (s + [b])[1..] == s[1..] + [b];
      TimesPow(b, |s| - 1);
    }
  }

  lemma TimesPow(b: nat, n: nat)
    ensures 256 * (b * Pow256(n)) == b * Pow256(n + 1)
  {
  }

  /** A buffer that is written to by appending. */
  class Sink {
    var data: seq<byte>

    constructor ()
      ensures data == []
    {
      data := [];
    }

    method Write(p: seq<byte>) returns (m: nat)
      modifies this
      ensures data == old(data) + p && m == |p|
    {
      data := data + p;
      m := |p|;
    }
  }
}
