/** The standard base64 alphabet with padding, section 4 of RFC 4648. */
module Base64 {
  import opened Bytes

  type Sextet = v: int | 0 <= v < 64

  function Digit(v: Sextet): char {
    if v < 26 then 'A' + v as char
    else if v < 52 then 'a' + (v - 26) as char
    else if v < 62 then '0' + (v - 52) as char
    else if v == 62 then '+' else '/'
  }

  predicate IsDigit(c: char) {
    'A' <= c <= 'Z' || 'a' <= c <= 'z' || '0' <= c <= '9' || c == '+' || c == '/'
  }

  function Value(c: char): Sextet
    requires IsDigit(c)
  {
    if 'A' <= c <= 'Z' then c as int - 'A' as int
    else if 'a' <= c <= 'z' then c as int - 'a' as int + 26
    else if '0' <= c <= '9' then c as int - '0' as int + 52
    else if c == '+' then 62 else 63
  }

  lemma DigitValue(v: Sextet)
    ensures IsDigit(Digit(v)) && Value(Digit(v)) == v && Digit(v) != '='
  {
  }

  /** Three bytes as four digits; a shorter last group is padded. */
  function Encode(b: seq<Byte>): string {
    if b == [] then ""
    else if |b| == 1 then [Digit(b[0] / 4), Digit(b[0] % 4 * 16), '=', '=']
    else if |b| == 2 then [Digit(b[0] / 4), Digit(b[0] % 4 * 16 + b[1] / 16), Digit(b[1] % 16 * 4), '=']
    else [Digit(b[0] / 4), Digit(b[0] % 4 * 16 + b[1] / 16), Digit(b[1] % 16 * 4 + b[2] / 64), Digit(b[2] % 64)] + Encode(b[3..])
  }

  datatype Decoded = Bytes(bytes: seq<Byte>) | Malformed

  /** The bytes of one group, as many as its padding leaves. */
  function Group(s: string): Decoded
    requires |s| == 4
  {
    if !IsDigit(s[0]) || !IsDigit(s[1]) then Malformed
    else
      var first := Value(s[0]) * 4 + Value(s[1]) / 16;
      if s[2] == '=' then
        if s[3] == '=' && Value(s[1]) % 16 == 0 then Bytes([first]) else Malformed
      else if !IsDigit(s[2]) then Malformed
      else
        var second := Value(s[1]) % 16 * 16 + Value(s[2]) / 4;
        if s[3] == '=' then
          if Value(s[2]) % 4 == 0 then Bytes([first, second]) else Malformed
        else if !IsDigit(s[3]) then Malformed
        else Bytes([first, second, Value(s[2]) % 4 * 64 + Value(s[3])])
  }

  function Decode(s: string): Decoded {
    if s == [] then Bytes([])
    else if |s| < 4 then Malformed
    else
      var head := Group(s[..4]);
      if head.Malformed? || (|s| > 4 && |head.bytes| < 3) then Malformed
      else
        var rest := Decode(s[4..]);
        if rest.Malformed? then Malformed else Bytes(head.bytes + rest.bytes)
  }

  lemma Rejoined(a: Byte, b: Byte, c: Byte)
    ensures a / 4 * 4 + (a % 4 * 16 + b / 16) / 16 == a
    ensures (a % 4 * 16 + b / 16) % 16 * 16 + (b % 16 * 4 + c / 64) / 4 == b
    ensures (b % 16 * 4 + c / 64) % 4 * 64 + c % 64 == c
  {
  }

  lemma GroupOfOne(a: Byte)
    ensures Group([Digit(a / 4), Digit(a % 4 * 16), '=', '=']) == Bytes([a])
  {
    hide Digit, Value, IsDigit;
    Rejoined(a, 0, 0);
    DigitValue(a / 4);
    DigitValue(a % 4 * 16);
  }

  lemma GroupOfTwo(a: Byte, b: Byte)
    ensures Group([Digit(a / 4), Digit(a % 4 * 16 + b / 16), Digit(b % 16 * 4), '=']) == Bytes([a, b])
  {
    hide Digit, Value, IsDigit;
    Rejoined(a, b, 0);
    DigitValue(a / 4);
    DigitValue(a % 4 * 16 + b / 16);
    DigitValue(b % 16 * 4);
  }

  lemma GroupOfThree(a: Byte, b: Byte, c: Byte)
    ensures Group([Digit(a / 4), Digit(a % 4 * 16 + b / 16), Digit(b % 16 * 4 + c / 64), Digit(c % 64)]) == Bytes([a, b, c])
  {
    hide Digit, Value, IsDigit;
    Rejoined(a, b, c);
    DigitValue(a / 4);
    DigitValue(a % 4 * 16 + b / 16);
    DigitValue(b % 16 * 4 + c / 64);
    DigitValue(c % 64);
  }

  lemma {:induction false} DecodeEncoded(b: seq<Byte>)
    ensures Decode(Encode(b)) == Bytes(b)
  {
    hide Group, Digit;
    if b == [] {
    } else if |b| == 1 {
      GroupOfOne(b[0]);
      DecodeOneGroup(Encode(b));
      assert [b[0]] == b;
    } else if |b| == 2 {
      GroupOfTwo(b[0], b[1]);
      DecodeOneGroup(Encode(b));
      assert [b[0], b[1]] == b;
    } else {
      GroupOfThree(b[0], b[1], b[2]);
      DecodeEncoded(b[3..]);
      var s := Encode(b);
      assert s[4..] == Encode(b[3..]);
      assert s[..4] == [Digit(b[0] / 4), Digit(b[0] % 4 * 16 + b[1] / 16), Digit(b[1] % 16 * 4 + b[2] / 64), Digit(b[2] % 64)];
      assert [b[0], b[1], b[2]] + b[3..] == b;
    }
  }

  lemma DecodeOneGroup(s: string)
    requires |s| == 4 && Group(s).Bytes?
    ensures Decode(s) == Group(s)
  {
    hide Group;
    assert s[..4] == s && s[4..] == [];
    assert Group(s).bytes + [] == Group(s).bytes;
  }

  predicate Encoded(c: char) { IsDigit(c) || c == '=' }

  lemma {:induction false} EncodedDigits(b: seq<Byte>)
    ensures forall k :: 0 <= k < |Encode(b)| ==> Encoded(Encode(b)[k])
  {
    hide Digit, IsDigit;
    if |b| >= 3 {
      EncodedDigits(b[3..]);
      DigitValue(b[0] / 4);
      DigitValue(b[0] % 4 * 16 + b[1] / 16);
      DigitValue(b[1] % 16 * 4 + b[2] / 64);
      DigitValue(b[2] % 64);
    } else if |b| == 2 {
      DigitValue(b[0] / 4);
      DigitValue(b[0] % 4 * 16 + b[1] / 16);
      DigitValue(b[1] % 16 * 4);
    } else if |b| == 1 {
      DigitValue(b[0] / 4);
      DigitValue(b[0] % 4 * 16);
    }
  }

  // ------------------------------------------------------------- the digits as numbers

  /** Table 1 of RFC 4648. */
  lemma DigitIs(v: Sextet)
    ensures Digit(v) as int == if v < 26 then 65 + v else if v < 52 then 71 + v else if v < 62 then v - 4 else if v == 62 then 43 else 47
  {
  }

  /** Every three bytes are one number of 24 bits, the first byte the highest, and four digits
      to the base 64; the last bytes are filled up with zeros and the digits left over with
      equals signs. */
  lemma {:induction false} EncodedIs(b: seq<Byte>, k: nat)
    requires 3 * k < |b|
    ensures |Encode(b)| == (|b| + 2) / 3 * 4
    ensures var n := b[3 * k] as int * 0x10000 + ByteOrZero(b, 3 * k + 1) * 0x100 + ByteOrZero(b, 3 * k + 2);
      && Encode(b)[4 * k] == Digit(n / 0x40000 % 64) && Encode(b)[4 * k + 1] == Digit(n / 0x1000 % 64)
      && Encode(b)[4 * k + 2] == (if 3 * k + 1 < |b| then Digit(n / 0x40 % 64) else '=')
      && Encode(b)[4 * k + 3] == (if 3 * k + 2 < |b| then Digit(n % 64) else '=')
  {
    hide Digit;
    EncodedLength(b);
    if k == 0 {
      FirstGroupIs(b);
    } else {
      hide Encode;
      EncodedIs(b[3..], k - 1);
      RestOfEncoded(b);
      ShiftedBytes(b, 3 * k);
    }
  }

  lemma RestOfEncoded(b: seq<Byte>)
    requires |b| >= 3
    ensures |Encode(b)| >= 4 && Encode(b)[4..] == Encode(b[3..])
  {
    hide Digit;
  }

  lemma ShiftedBytes(b: seq<Byte>, i: nat)
    requires 3 <= i < |b|
    ensures b[3..][i - 3] == b[i]
    ensures ByteOrZero(b[3..], i - 2) == ByteOrZero(b, i + 1) && ByteOrZero(b[3..], i - 1) == ByteOrZero(b, i + 2)
  {
  }

  lemma FirstGroupIs(b: seq<Byte>)
    requires b != []
    ensures var n := b[0] as int * 0x10000 + ByteOrZero(b, 1) * 0x100 + ByteOrZero(b, 2);
      && |Encode(b)| >= 4 && Encode(b)[0] == Digit(n / 0x40000 % 64) && Encode(b)[1] == Digit(n / 0x1000 % 64)
      && Encode(b)[2] == (if 1 < |b| then Digit(n / 0x40 % 64) else '=')
      && Encode(b)[3] == (if 2 < |b| then Digit(n % 64) else '=')
  {
    hide Digit;
    Sextets(b[0], ByteOrZero(b, 1), ByteOrZero(b, 2));
  }

  function ByteOrZero(b: seq<Byte>, i: nat): (v: int)
    ensures 0 <= v < 256 && v == if i < |b| then b[i] else 0
  {
    if i < |b| then b[i] else 0
  }

  lemma {:induction false} EncodedLength(b: seq<Byte>)
    ensures |Encode(b)| == (|b| + 2) / 3 * 4
  {
    hide Digit;
    if |b| >= 3 {
      EncodedLength(b[3..]);
      assert |Encode(b)| == 4 + |Encode(b[3..])|;
      OneGroupMore(|b| - 1);
    }
  }

  lemma OneGroupMore(n: int)
    ensures (n + 3) / 3 == n / 3 + 1
  {
  }

  lemma Sextets(a: Byte, b: int, c: int)
    requires 0 <= b < 256 && 0 <= c < 256
    ensures var n := a as int * 0x10000 + b * 0x100 + c;
      && n / 0x40000 % 64 == a / 4 && n / 0x1000 % 64 == a % 4 * 16 + b / 16
      && n / 0x40 % 64 == b % 16 * 4 + c / 64 && n % 64 == c % 64
  {
    InBase64(a / 4, a % 4 * 16 + b / 16, b % 16 * 4 + c / 64, c % 64);
    assert a == a / 4 * 4 + a % 4 && b == b / 16 * 16 + b % 16 && c == c / 64 * 64 + c % 64;
  }

  lemma InBase64(x: int, y: int, z: int, w: int)
    requires 0 <= x < 64 && 0 <= y < 64 && 0 <= z < 64 && 0 <= w < 64
    ensures var n := x * 0x40000 + y * 0x1000 + z * 0x40 + w;
      n / 0x40000 % 64 == x && n / 0x1000 % 64 == y && n / 0x40 % 64 == z && n % 64 == w
  {
    LastDigit(x * 0x1000 + y * 0x40 + z, w);
    LastDigit(x * 0x40 + y, z);
    LastDigit(x, y);
    var n := x * 0x40000 + y * 0x1000 + z * 0x40 + w;
    assert n / 0x1000 == n / 64 / 64 && n / 0x40000 == n / 64 / 64 / 64;
  }

  lemma LastDigit(m: int, d: int)
    requires 0 <= d < 64
    ensures (m * 64 + d) / 64 == m && (m * 64 + d) % 64 == d
  {
  }
}
