/**
  The variable-length 29-bit integers of Action Message Format 3 (section 1.3.1).
 */
module Uint29 {
  import opened Bytes
  import opened AmfIo

  const INTEGER_MAX := 0x1fff_ffff

  predicate U29Ok(v: nat) {
    v <= INTEGER_MAX
  }

  /** Seven bits of `v`, from the place `unit` up. */
  function Digit(v: nat, unit: nat): (d: nat)
    requires unit > 0
    ensures d < 0x80
  {
    v / unit % 0x80
  }

  /** Nothing is written for a value out of range. */
  function EncU29(v: nat): (s: seq<byte>)
    ensures U29Ok(v) ==> 1 <= |s| <= 4
  {
    if v <= 0x7f then [v]
    else if v <= 0x3fff then [Digit(v, 0x80) + 0x80, Digit(v, 1)]
    else if v <= 0x1f_ffff then [Digit(v, 0x4000) + 0x80, Digit(v, 0x80) + 0x80, Digit(v, 1)]
    else if U29Ok(v) then [Digit(v, 0x40_0000) + 0x80, Digit(v, 0x8000) + 0x80, Digit(v, 0x100) + 0x80, v % 0x100]
    else []
  }

  /** Seven bits more, or in the fourth byte eight. */
  function Shifted(acc: nat, i: nat, bits: nat): nat {
    if i == 3 then acc * 0x100 + bits else acc * 0x80 + bits
  }

  /** The integer that goes on at byte `i`, the earlier bytes having given `acc`. */
  function DecU29(kind: Kind, s: seq<byte>, i: nat, acc: nat): (d: Decoded<nat>)
    requires i <= 3
    ensures |d.rest| <= |s| && (d.value.Some? ==> |d.rest| < |s|)
    decreases 3 - i
  {
    var next := Take(kind, s, 1);
    if next.value.None? then Decoded(None, next.rest)
    else
      var b := next.value.value[0] as int;
      if i == 3 || b < 0x80 then Decoded(Some(Shifted(acc, i, b)), next.rest)
      else DecU29(kind, next.rest, i + 1, Shifted(acc, i, b - 0x80))
  }

  lemma LastByte(kind: Kind, b: byte, i: nat, acc: nat, rest: seq<byte>)
    requires i <= 3 && (i == 3 || b < 0x80)
    ensures DecU29(kind, [b] + rest, i, acc) == Decoded(Some(Shifted(acc, i, b)), rest)
  {
    TakeFront(kind, [b], rest);
  }

  lemma MoreBytes(kind: Kind, x: nat, i: nat, acc: nat, rest: seq<byte>)
    requires i < 3 && x < 0x80
    ensures DecU29(kind, [x + 0x80] + rest, i, acc) == DecU29(kind, rest, i + 1, Shifted(acc, i, x))
  {
    TakeFront(kind, [x + 0x80], rest);
  }

  lemma TwoBytes(kind: Kind, x: nat, y: byte, i: nat, acc: nat, rest: seq<byte>)
    requires i < 3 && x < 0x80 && (i == 2 || y < 0x80)
    ensures DecU29(kind, [x + 0x80, y] + rest, i, acc)
         == Decoded(Some(Shifted(Shifted(acc, i, x), i + 1, y)), rest)
  {
    hide Shifted, DecU29;
    LastByte(kind, y, i + 1, Shifted(acc, i, x), rest);
    MoreBytes(kind, x, i, acc, [y] + rest);
    assert [x + 0x80, y] + rest == [x + 0x80] + ([y] + rest);
  }

  lemma ThreeBytes(kind: Kind, x: nat, y: nat, z: byte, i: nat, acc: nat, rest: seq<byte>)
    requires i < 2 && x < 0x80 && y < 0x80 && (i == 1 || z < 0x80)
    ensures DecU29(kind, [x + 0x80, y + 0x80, z] + rest, i, acc)
         == Decoded(Some(Shifted(Shifted(Shifted(acc, i, x), i + 1, y), i + 2, z)), rest)
  {
    hide Shifted, DecU29;
    TwoBytes(kind, y, z, i + 1, Shifted(acc, i, x), rest);
    MoreBytes(kind, x, i, acc, [y + 0x80, z] + rest);
    assert [x + 0x80, y + 0x80, z] + rest == [x + 0x80] + ([y + 0x80, z] + rest);
  }

  lemma FourBytes(kind: Kind, x: nat, y: nat, z: nat, w: byte, rest: seq<byte>)
    requires x < 0x80 && y < 0x80 && z < 0x80
    ensures DecU29(kind, [x + 0x80, y + 0x80, z + 0x80, w] + rest, 0, 0)
         == Decoded(Some(Shifted(Shifted(Shifted(Shifted(0, 0, x), 1, y), 2, z), 3, w)), rest)
  {
    hide Shifted, DecU29;
    ThreeBytes(kind, y, z, w, 1, Shifted(0, 0, x), rest);
    MoreBytes(kind, x, 0, 0, [y + 0x80, z + 0x80, w] + rest);
    assert [x + 0x80, y + 0x80, z + 0x80, w] + rest == [x + 0x80] + ([y + 0x80, z + 0x80, w] + rest);
  }

  /** Every integer of 29 bits comes back, from the one to four bytes it was given. */
  lemma U29RoundTrip(kind: Kind, v: nat, suffix: seq<byte>)
    requires U29Ok(v)
    ensures DecU29(kind, EncU29(v) + suffix, 0, 0) == Decoded(Some(v), suffix)
  {
    hide DecU29, Digit;
    if v <= 0x7f {
      LastByte(kind, v, 0, 0, suffix);
    } else {
      hide Shifted;
      Digits(v);
      if v <= 0x3fff {
        TwoBytes(kind, Digit(v, 0x80), Digit(v, 1), 0, 0, suffix);
      } else if v <= 0x1f_ffff {
        ThreeBytes(kind, Digit(v, 0x4000), Digit(v, 0x80), Digit(v, 1), 0, 0, suffix);
      } else {
        FourBytes(kind, Digit(v, 0x40_0000), Digit(v, 0x8000), Digit(v, 0x100), v % 0x100, suffix);
      }
    }
  }

  /** The digits that are written put the integer together again. */
  lemma Digits(v: nat)
    requires U29Ok(v)
    ensures v <= 0x3fff ==> Shifted(Shifted(0, 0, Digit(v, 0x80)), 1, Digit(v, 1)) == v
    ensures v <= 0x1f_ffff ==> Shifted(Shifted(Shifted(0, 0, Digit(v, 0x4000)), 1, Digit(v, 0x80)), 2, Digit(v, 1)) == v
    ensures Shifted(Shifted(Shifted(Shifted(0, 0, Digit(v, 0x40_0000)), 1, Digit(v, 0x8000)), 2, Digit(v, 0x100)), 3, v % 0x100)
         == v
  {
    if v <= 0x1f_ffff {
      ThreeDigits(v);
    }
    var u := v / 0x100;
    ThreeDigits(u);
    assert Digit(v, 0x100) == Digit(u, 1) && Digit(v, 0x8000) == Digit(u, 0x80) && Digit(v, 0x40_0000) == Digit(u, 0x4000);
  }

  lemma ThreeDigits(u: nat)
    requires u <= 0x1f_ffff
    ensures (Digit(u, 0x4000) * 0x80 + Digit(u, 0x80)) * 0x80 + Digit(u, 1) == u
  {
    assert u / 0x4000 == u / 0x80 / 0x80;
  }

  /** Whatever bytes decode to an integer, it has 29 bits, and no fewer bytes would encode it. */
  lemma U29Shortest(kind: Kind, s: seq<byte>)
    requires DecU29(kind, s, 0, 0).value.Some?
    ensures var d := DecU29(kind, s, 0, 0);
            U29Ok(d.value.value) && |EncU29(d.value.value)| <= |s| - |d.rest|
  {
    U29Bound(kind, s, 0, 0);
  }

  lemma {:induction false} U29Bound(kind: Kind, s: seq<byte>, i: nat, acc: nat)
    requires i <= 3 && DecU29(kind, s, i, acc).value.Some?
    requires acc < if i == 0 then 1 else if i == 1 then 0x80 else if i == 2 then 0x4000 else 0x20_0000
    ensures var d := DecU29(kind, s, i, acc);
            var used := i + |s| - |d.rest|;
            1 <= used <= 4 &&
            d.value.value < if used == 1 then 0x80 else if used == 2 then 0x4000 else if used == 3 then 0x20_0000 else 0x2000_0000
    decreases 3 - i
  {
    var next := Take(kind, s, 1);
    var b := next.value.value[0];
    if i < 3 && b >= 0x80 {
      U29Bound(kind, next.rest, i + 1, Shifted(acc, i, b - 0x80));
    }
  }

  // ------------------------------------------------------- truncated input

  /** Every byte but the last says that another follows. */
  lemma U29Truncated(kind: Kind, v: nat, k: nat)
    requires U29Ok(v) && k < |EncU29(v)|
    ensures DecU29(kind, EncU29(v)[..k], 0, 0) == Decoded(None, [])
  {
    Unfinished(kind, EncU29(v)[..k], 0, 0);
  }

  lemma {:induction false} Unfinished(kind: Kind, s: seq<byte>, i: nat, acc: nat)
    requires i + |s| <= 3 && forall j :: 0 <= j < |s| ==> s[j] >= 0x80
    ensures DecU29(kind, s, i, acc) == Decoded(None, [])
    decreases |s|
  {
    if s != [] {
      assert s == [s[0]] + s[1..];
      MoreBytes(kind, s[0] - 0x80, i, acc, s[1..]);
      Unfinished(kind, s[1..], i + 1, Shifted(acc, i, s[0] - 0x80));
    }
  }
}
