/** Bytes and little-endian numbers. */
module Bytes {
  import opened Basics

  type Byte = b: int | 0 <= b < 256

  function Pow256(n: nat): (p: nat)
    ensures 1 <= p
  {
    if n == 0 then 1 else 256 * Pow256(n - 1)
  }

  function Le(value: nat, width: nat): (s: seq<Byte>)
    ensures |s| == width
  {
    if width == 0 then [] else [value % 256] + Le(value / 256, width - 1)
  }

  function FromLe(s: seq<Byte>): nat {
    if s == [] then 0 else s[0] + 256 * FromLe(s[1..])
  }

  lemma {:induction false} FromLeBound(s: seq<Byte>)
    ensures FromLe(s) < Pow256(|s|)
  {
    if s != [] {
      FromLeBound(s[1..]);
    }
  }

  lemma {:induction false} DecodeEncode(value: nat, width: nat)
    requires value < Pow256(width)
    ensures FromLe(Le(value, width)) == value
  {
    if width > 0 {
      DecodeEncode(value / 256, width - 1);
    }
  }

  lemma Digits(b: Byte, rest: nat)
    ensures (b + 256 * rest) % 256 == b && (b + 256 * rest) / 256 == rest
  {
  }

  lemma {:induction false} EncodeDecode(s: seq<Byte>)
    ensures Le(FromLe(s), |s|) == s
  {
    if s != [] {
      Digits(s[0], FromLe(s[1..]));
      EncodeDecode(s[1..]);
      assert [s[0]] + s[1..] == s;
    }
  }

  lemma Widths()
    ensures Pow256(4) == 0x1_0000_0000 && Pow256(8) == 0x1_0000_0000_0000_0000
  {
    assert Pow256(4) == 256 * (256 * (256 * (256 * Pow256(0))));
    assert Pow256(8) == 256 * (256 * (256 * (256 * Pow256(4))));
  }

  /** The first byte is the least significant one. */
  lemma FromLeFour(a: Byte, b: Byte, c: Byte, d: Byte)
    ensures FromLe([a, b, c, d]) == a + 0x100 * b + 0x1_0000 * c + 0x100_0000 * d
  {
    assert [a, b, c, d][1..] == [b, c, d] && [b, c, d][1..] == [c, d] && [c, d][1..] == [d] && [d][1..] == [];
    assert FromLe([d]) == d;
    assert FromLe([c, d]) == c + 256 * d;
    assert FromLe([b, c, d]) == b + 256 * (c + 256 * d);
  }

  lemma FromLeEight(s: seq<Byte>)
    requires |s| == 8
    ensures FromLe(s) == FromLe(s[..4]) + 0x1_0000_0000 * FromLe(s[4..])
  {
    var high := s[4..];
    assert s[1..][1..][1..][1..] == high;
    assert s == [s[0], s[1], s[2], s[3]] + high && s[..4] == [s[0], s[1], s[2], s[3]];
    FromLeFour(s[0], s[1], s[2], s[3]);
    assert FromLe(s[1..][1..][1..]) == s[3] + 256 * FromLe(high);
    assert FromLe(s[1..][1..]) == s[2] + 256 * FromLe(s[1..][1..][1..]);
    assert FromLe(s[1..]) == s[1] + 256 * FromLe(s[1..][1..]);
  }

  /** The little-endian numbers in a string of bytes. */
  function Number(s: seq<Byte>, at: nat): nat
    requires at + 4 <= |s|
  {
    s[at] as int + 0x100 * s[at + 1] as int + 0x1_0000 * s[at + 2] as int + 0x100_0000 * s[at + 3] as int
  }

  function LongNumber(s: seq<Byte>, at: nat): nat
    requires at + 8 <= |s|
  {
    Number(s, at) + 0x1_0000_0000 * Number(s, at + 4)
  }

  lemma NumberIs(s: seq<Byte>, at: nat)
    requires at + 4 <= |s|
    ensures FromLe(s[at..at + 4]) == Number(s, at)
  {
    assert s[at..at + 4] == [s[at], s[at + 1], s[at + 2], s[at + 3]];
    FromLeFour(s[at], s[at + 1], s[at + 2], s[at + 3]);
  }

  lemma LongNumberIs(s: seq<Byte>, at: nat)
    requires at + 8 <= |s|
    ensures FromLe(s[at..at + 8]) == LongNumber(s, at)
  {
    hide FromLe, Number;
    var t := s[at..at + 8];
    Within(s, at, at + 8, 0, 4);
    Within(s, at, at + 8, 4, 8);
    assert t[..4] == t[0..4] && t[4..] == t[4..8];
    NumberIs(s, at);
    NumberIs(s, at + 4);
    FromLeEight(t);
  }
}
