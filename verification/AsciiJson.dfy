/** Rewriting a UTF-8 JSON document so that it holds ASCII bytes only, with
    every other character as a \u escape (section 7 of RFC 8259). */
module AsciiJson {
  import opened Basics
  import opened Bytes

  // ------------------------------------------------------------- UTF-8 and UTF-16

  const RUNE_ERROR := 0xFFFD

  datatype Rune = Rune(value: int, size: nat)

  predicate Scalar(cp: int) {
    0 <= cp <= 0x10FFFF && !(0xD800 <= cp <= 0xDFFF)
  }

  predicate Continues(b: Byte, lo: int, hi: int) { lo <= b <= hi }

  function Low6(b: Byte): int { b as int - 0x80 }

  /** The first character of a byte string, section 3 of RFC 3629; a malformed
      start yields the replacement character with size 1. */
  function DecodeRune(s: seq<Byte>): (r: Rune)
    requires s != []
    ensures 1 <= r.size <= |s| && Scalar(r.value)
    ensures r.size > 1 || r.value == RUNE_ERROR <==> s[0] >= 0x80
  {
    var b := s[0];
    var broken := Rune(RUNE_ERROR, 1);
    if b < 0x80 then Rune(b, 1)
    else if b < 0xC2 || b > 0xF4 || |s| < 2 then broken
    else if b < 0xE0 then
      if Continues(s[1], 0x80, 0xBF) then Rune((b as int - 0xC0) * 0x40 + Low6(s[1]), 2) else broken
    else if !Continues(s[1], SecondLow(b), SecondHigh(b)) || |s| < 3 || !Continues(s[2], 0x80, 0xBF) then broken
    else if b < 0xF0 then Rune((b as int - 0xE0) * 0x1000 + Low6(s[1]) * 0x40 + Low6(s[2]), 3)
    else if |s| < 4 || !Continues(s[3], 0x80, 0xBF) then broken
    else Rune((b as int - 0xF0) * 0x40000 + Low6(s[1]) * 0x1000 + Low6(s[2]) * 0x40 + Low6(s[3]), 4)
  }

  /** The second byte is narrowed where an overlong form, a surrogate or a value
      beyond the last code point would begin. */
  function SecondLow(b: Byte): int { if b == 0xE0 then 0xA0 else if b == 0xF0 then 0x90 else 0x80 }
  function SecondHigh(b: Byte): int { if b == 0xED then 0x9F else if b == 0xF4 then 0x8F else 0xBF }

  predicate Malformed(r: Rune) { r.value == RUNE_ERROR && r.size == 1 }

  predicate High(unit: int) { 0xD800 <= unit <= 0xDBFF }
  predicate Low(unit: int) { 0xDC00 <= unit <= 0xDFFF }

  function HighOf(cp: int): int { 0xD800 + (cp - 0x10000) / 0x400 }
  function LowOf(cp: int): int { 0xDC00 + (cp - 0x10000) % 0x400 }
  function Combine(high: int, low: int): int { 0x10000 + (high - 0xD800) * 0x400 + (low - 0xDC00) }

  lemma SurrogatesRoundTrip(cp: int)
    requires 0xFFFF < cp <= 0x10FFFF
    ensures High(HighOf(cp)) && Low(LowOf(cp)) && Combine(HighOf(cp), LowOf(cp)) == cp
  {
  }

  /** The bytes of a character, by the table in section 3 of RFC 3629. */
  function Utf8(cp: int): (s: seq<Byte>)
    requires Scalar(cp)
    ensures 1 <= |s| <= 4
  {
    if cp < 0x80 then [cp]
    else if cp < 0x800 then [0xC0 + cp / 0x40, 0x80 + cp % 0x40]
    else if cp < 0x10000 then [0xE0 + cp / 0x1000, 0x80 + cp / 0x40 % 0x40, 0x80 + cp % 0x40]
    else [0xF0 + cp / 0x40000, 0x80 + cp / 0x1000 % 0x40, 0x80 + cp / 0x40 % 0x40, 0x80 + cp % 0x40]
  }

  lemma DecodeTwo(s: seq<Byte>, cp: int)
    requires 0x80 <= cp < 0x800 && |s| >= 2 && s[0] == 0xC0 + cp / 0x40 && s[1] == 0x80 + cp % 0x40
    ensures DecodeRune(s) == Rune(cp, 2)
  {
  }

  lemma DecodeThree(s: seq<Byte>, cp: int)
    requires 0x800 <= cp < 0x10000 && Scalar(cp) && |s| >= 3
    requires s[0] == 0xE0 + cp / 0x1000 && s[1] == 0x80 + cp / 0x40 % 0x40 && s[2] == 0x80 + cp % 0x40
    ensures DecodeRune(s) == Rune(cp, 3)
  {
    assert cp / 0x40 == cp / 0x1000 * 0x40 + cp / 0x40 % 0x40;
  }

  lemma DecodeFour(s: seq<Byte>, cp: int)
    requires 0x10000 <= cp <= 0x10FFFF && |s| >= 4 && s[0] == 0xF0 + cp / 0x40000
    requires s[1] == 0x80 + cp / 0x1000 % 0x40 && s[2] == 0x80 + cp / 0x40 % 0x40 && s[3] == 0x80 + cp % 0x40
    ensures DecodeRune(s) == Rune(cp, 4)
  {
    FourDigits(cp);
  }

  lemma FourDigits(cp: int)
    requires 0x10000 <= cp <= 0x10FFFF
    ensures cp == cp / 0x40000 * 0x40000 + cp / 0x1000 % 0x40 * 0x1000 + cp / 0x40 % 0x40 * 0x40 + cp % 0x40
    ensures 0 <= cp / 0x40000 <= 4
    ensures cp / 0x40000 == 0 ==> cp / 0x1000 % 0x40 >= 0x10
    ensures cp / 0x40000 == 4 ==> cp / 0x1000 % 0x40 <= 0xF
  {
    assert cp / 0x40 == cp / 0x1000 * 0x40 + cp / 0x40 % 0x40;
    assert cp / 0x1000 == cp / 0x40000 * 0x40 + cp / 0x1000 % 0x40;
  }

  /** Decoding reads every character back, whatever follows it. */
  lemma DecodeEncoded(cp: int, rest: seq<Byte>)
    requires Scalar(cp)
    ensures DecodeRune(Utf8(cp) + rest) == Rune(cp, |Utf8(cp)|) && !Malformed(DecodeRune(Utf8(cp) + rest))
  {
    hide DecodeRune;
    var s := Utf8(cp) + rest;
    if cp < 0x80 {
      DecodeOne(s);
    } else if cp < 0x800 {
      DecodeTwo(s, cp);
    } else if cp < 0x10000 {
      DecodeThree(s, cp);
    } else {
      DecodeFour(s, cp);
    }
  }

  lemma DecodeOne(s: seq<Byte>)
    requires s != [] && s[0] < 0x80
    ensures DecodeRune(s) == Rune(s[0], 1)
  {
  }

  lemma EncodedTwo(a: int, b: int)
    requires 0x02 <= a < 0x20 && 0 <= b < 0x40
    ensures Utf8(a * 0x40 + b) == [0xC0 + a, 0x80 + b]
  {
  }

  lemma EncodedThree(a: int, b: int, c: int)
    requires 0 <= a < 0x10 && 0 <= b < 0x40 && 0 <= c < 0x40 && (a == 0 ==> b >= 0x20) && (a == 0xD ==> b < 0x20)
    ensures Scalar(a * 0x1000 + b * 0x40 + c) && Utf8(a * 0x1000 + b * 0x40 + c) == [0xE0 + a, 0x80 + b, 0x80 + c]
  {
    var cp := a * 0x1000 + b * 0x40 + c;
    assert cp / 0x40 == a * 0x40 + b && cp / 0x1000 == a;
  }

  lemma EncodedFour(a: int, b: int, c: int, d: int)
    requires 0 <= a <= 4 && 0 <= b < 0x40 && 0 <= c < 0x40 && 0 <= d < 0x40 && (a == 0 ==> b >= 0x10) && (a == 4 ==> b < 0x10)
    ensures var cp := a * 0x40000 + b * 0x1000 + c * 0x40 + d;
            Scalar(cp) && Utf8(cp) == [0xF0 + a, 0x80 + b, 0x80 + c, 0x80 + d]
  {
    var cp := a * 0x40000 + b * 0x1000 + c * 0x40 + d;
    assert cp / 0x40 == a * 0x1000 + b * 0x40 + c && cp / 0x1000 == a * 0x40 + b && cp / 0x40000 == a;
  }

  /** What is decoded is what the bytes encode. */
  lemma DecodedIsEncoded(s: seq<Byte>)
    requires s != [] && !Malformed(DecodeRune(s))
    ensures var r := DecodeRune(s); Utf8(r.value) == s[..r.size]
  {
    hide Utf8;
    var r := DecodeRune(s);
    var b := s[0] as int;
    if r.size == 1 {
      EncodedOne(s[0]);
      assert s[..1] == [s[0]];
    } else if r.size == 2 {
      EncodedTwo(b - 0xC0, Low6(s[1]));
      assert s[..2] == [s[0], s[1]];
    } else if r.size == 3 {
      EncodedThree(b - 0xE0, Low6(s[1]), Low6(s[2]));
      assert s[..3] == [s[0], s[1], s[2]];
    } else {
      EncodedFour(b - 0xF0, Low6(s[1]), Low6(s[2]), Low6(s[3]));
      assert s[..4] == [s[0], s[1], s[2], s[3]];
    }
  }

  lemma EncodedOne(b: Byte)
    requires b < 0x80
    ensures Utf8(b) == [b]
  {
  }

  /** A start is malformed exactly when no character begins there. */
  lemma MalformedWhen(s: seq<Byte>)
    requires s != []
    ensures Malformed(DecodeRune(s)) <==> forall cp | Scalar(cp) :: !(Utf8(cp) <= s)
  {
    hide DecodeRune, Utf8;
    var r := DecodeRune(s);
    if Malformed(r) {
      forall cp | Scalar(cp)
        ensures !(Utf8(cp) <= s)
      {
        if Utf8(cp) <= s {
          assert s == Utf8(cp) + s[|Utf8(cp)|..];
          DecodeEncoded(cp, s[|Utf8(cp)|..]);
        }
      }
    } else {
      DecodedIsEncoded(s);
      assert Utf8(r.value) <= s;
    }
  }

  // ------------------------------------------------------------- the rewriting

  const BACKSLASH: Byte := 0x5C
  const QUOTE: Byte := 0x22
  const LETTER_U: Byte := 0x75

  function HexDigit(d: int): Byte
    requires 0 <= d < 16
  {
    if d < 10 then 0x30 + d else 0x61 + d - 10
  }

  function Escaped(unit: int): (s: seq<Byte>)
    requires 0 <= unit < 0x10000
    ensures |s| == 6
  {
    [BACKSLASH, LETTER_U, HexDigit(unit / 0x1000), HexDigit(unit / 0x100 % 0x10),
     HexDigit(unit / 0x10 % 0x10), HexDigit(unit % 0x10)]
  }

  function Written(cp: int): seq<Byte>
    requires Scalar(cp)
  {
    if cp > 0xFFFF then SurrogatesRoundTrip(cp); Escaped(HighOf(cp)) + Escaped(LowOf(cp)) else Escaped(cp)
  }

  function Ascii(s: seq<Byte>): seq<Byte>
    decreases |s|
  {
    if s == [] then []
    else if s[0] < 0x80 then [s[0]] + Ascii(s[1..])
    else
      var r := DecodeRune(s);
      if Malformed(r) then Ascii(s[1..]) else Written(r.value) + Ascii(s[r.size..])
  }

  lemma AsciiStep(data: seq<Byte>, i: nat)
    requires i < |data|
    ensures var r := DecodeRune(data[i..]);
      && i + r.size <= |data|
      && Ascii(data[i..]) ==
           if data[i] < 0x80 then [data[i]] + Ascii(data[i + 1..])
           else if Malformed(r) then Ascii(data[i + 1..])
           else Written(r.value) + Ascii(data[i + r.size..])
  {
    hide DecodeRune, Written;
    var rest := data[i..];
    var r := DecodeRune(rest);
    assert rest[1..] == data[i + 1..];
    assert rest[r.size..] == data[i + r.size..];
  }

  method ToAsciiJson(data: seq<Byte>) returns (out: seq<Byte>)
    ensures out == Ascii(data)
  {
    hide DecodeRune, Escaped, HighOf, LowOf, Ascii;
    out := [];
    var index := 0;
    assert data[0..] == data;
    while index < |data|
      invariant index <= |data|
      invariant out + Ascii(data[index..]) == Ascii(data)
    {
      AsciiStep(data, index);
      if data[index] < 0x80 {
        out := out + [data[index]];
        index := index + 1;
      } else {
        var r := DecodeRune(data[index..]);
        if r.value == RUNE_ERROR && r.size == 1 {
          index := index + 1;
        } else {
          if r.value > 0xFFFF {
            SurrogatesRoundTrip(r.value);
            out := out + (Escaped(HighOf(r.value)) + Escaped(LowOf(r.value)));
          } else {
            out := out + Escaped(r.value);
          }
          index := index + r.size;
        }
      }
    }
    AsciiOfNothing();
    assert data[index..] == [];
  }

  // "0123456789abcdef"
  const HEX: seq<Byte> := [0x30, 0x31, 0x32, 0x33, 0x34, 0x35, 0x36, 0x37, 0x38, 0x39, 0x61, 0x62, 0x63, 0x64, 0x65, 0x66]

  /** A backslash, a "u" and four lower-case hexadecimal digits. */
  function Escape(unit: int): seq<Byte>
    requires 0 <= unit < 0x10000
  {
    [0x5C, 0x75, HEX[unit / 0x1000], HEX[unit / 0x100 % 0x10], HEX[unit / 0x10 % 0x10], HEX[unit % 0x10]]
  }

  /** What a character becomes: itself, its escape, or the escapes of its two surrogates. */
  function Rewritten(cp: int): seq<Byte>
    requires Scalar(cp)
  {
    if cp < 0x80 then [cp]
    else if cp < 0x10000 then Escape(cp)
    else Escape(0xD7C0 + cp / 0x400) + Escape(0xDC00 + cp % 0x400)
  }

  lemma HexIs(d: int)
    requires 0 <= d < 16
    ensures HexDigit(d) == HEX[d]
  {
  }

  lemma EscapedIs(unit: int)
    requires 0 <= unit < 0x10000
    ensures Escaped(unit) == Escape(unit)
  {
    hide HexDigit;
    HexIs(unit / 0x1000);
    HexIs(unit / 0x100 % 0x10);
    HexIs(unit / 0x10 % 0x10);
    HexIs(unit % 0x10);
  }

  lemma WrittenIs(cp: int)
    requires Scalar(cp) && cp >= 0x80
    ensures Written(cp) == Rewritten(cp)
  {
    hide Escaped, Escape;
    if cp > 0xFFFF {
      SurrogatesRoundTrip(cp);
      assert HighOf(cp) == 0xD7C0 + cp / 0x400 && LowOf(cp) == 0xDC00 + cp % 0x400;
      EscapedIs(HighOf(cp));
      EscapedIs(LowOf(cp));
    } else {
      EscapedIs(cp);
    }
  }

  /** A text is rewritten character by character. */
  lemma AsciiOfCharacter(cp: int, rest: seq<Byte>)
    requires Scalar(cp)
    ensures Ascii(Utf8(cp) + rest) == Rewritten(cp) + Ascii(rest)
  {
    hide DecodeRune, Written;
    var s := Utf8(cp) + rest;
    DecodeEncoded(cp, rest);
    assert s[|Utf8(cp)|..] == rest;
    if cp < 0x80 {
      assert s[0] == cp && s[1..] == rest;
    } else {
      WrittenIs(cp);
      assert s[0] >= 0x80;
    }
  }

  /** A byte at which no character begins is left out, and only that byte. */
  lemma AsciiOfNonsense(s: seq<Byte>)
    requires s != [] && forall cp | Scalar(cp) :: !(Utf8(cp) <= s)
    ensures Ascii(s) == Ascii(s[1..])
  {
    hide DecodeRune, Written;
    MalformedWhen(s);
    if s[0] < 0x80 {
      AsciiBegins(s);
    }
  }

  lemma AsciiBegins(s: seq<Byte>)
    requires s != [] && s[0] < 0x80
    ensures exists cp | Scalar(cp) :: Utf8(cp) <= s
  {
    assert Utf8(s[0]) <= s;
  }

  /** Whatever the input, the output is pure ASCII. */
  lemma {:induction false} OutputIsAscii(s: seq<Byte>)
    ensures forall i | 0 <= i < |Ascii(s)| :: Ascii(s)[i] < 0x80
    decreases |s|
  {
    if s != [] {
      if s[0] < 0x80 {
        OutputIsAscii(s[1..]);
      } else {
        var r := DecodeRune(s);
        OutputIsAscii(if Malformed(r) then s[1..] else s[r.size..]);
      }
    }
  }

  // ------------------------------------------------------------- what a JSON document says

  /** The lexical items of a document. `Plain` is one unescaped character of a
      string, `Unit` a \u escape, `Short` a two-character escape. */
  datatype Item = Structural(b: Byte) | Quote | Plain(cp: int) | Unit(unit: int) | Short(b: Byte)

  function HexValue(b: Byte): int {
    if 0x30 <= b <= 0x39 then b - 0x30
    else if 0x41 <= b <= 0x46 then b - 0x41 + 10
    else if 0x61 <= b <= 0x66 then b - 0x61 + 10
    else -1
  }

  predicate IsUnit(s: seq<Byte>) {
    && 6 <= |s| && s[0] == BACKSLASH && s[1] == LETTER_U
    && HexValue(s[2]) >= 0 && HexValue(s[3]) >= 0 && HexValue(s[4]) >= 0 && HexValue(s[5]) >= 0
  }

  function UnitValue(s: seq<Byte>): int
    requires IsUnit(s)
  {
    HexValue(s[2]) * 0x1000 + HexValue(s[3]) * 0x100 + HexValue(s[4]) * 0x10 + HexValue(s[5])
  }

  predicate IsShort(b: Byte) {
    b in [0x22, 0x5C, 0x2F, 0x62, 0x66, 0x6E, 0x72, 0x74]   // " \ / b f n r t
  }

  /** The item a document starts with, and its length in bytes; None where no
      JSON document continues: a raw control character or malformed UTF-8 in a
      string, a bad escape, a byte beyond ASCII outside strings. */
  function First(s: seq<Byte>, inString: bool): Option<(Item, nat)>
    requires s != []
  {
    if s[0] == QUOTE then Some((Quote, 1))
    else if !inString then (if s[0] < 0x80 then Some((Structural(s[0]), 1)) else None)
    else if IsUnit(s) then Some((Unit(UnitValue(s)), 6))
    else if s[0] == BACKSLASH then (if |s| >= 2 && IsShort(s[1]) then Some((Short(s[1]), 2)) else None)
    else if s[0] < 0x20 then None
    else
      var r := DecodeRune(s);
      if Malformed(r) then None else Some((Plain(r.value), r.size))
  }

  function Items(s: seq<Byte>, inString: bool): Option<seq<Item>>
    decreases |s|
  {
    if s == [] then (if inString then None else Some([]))
    else match First(s, inString)
      case None => None
      case Some((item, n)) =>
        if n == 0 || n > |s| then None
        else match Items(s[n..], if item.Quote? then !inString else inString)
          case None => None
          case Some(rest) => Some([item] + rest)
  }

  /** The meaning of an item sequence: a high surrogate escape right before a low
      one is one character, every other item stands for itself. */
  datatype Token = Mark(item: Item) | Char(cp: int)

  function ShortValue(b: Byte): int {
    match b
    case 0x62 => 0x08 case 0x66 => 0x0C case 0x6E => 0x0A case 0x72 => 0x0D case 0x74 => 0x09
    case _ => b
  }

  function Single(item: Item): Token {
    match item
    case Plain(cp) => Char(cp)
    case Unit(unit) => Char(unit)
    case Short(b) => Char(ShortValue(b))
    case _ => Mark(item)
  }

  predicate Paired(items: seq<Item>) {
    |items| >= 2 && items[0].Unit? && High(items[0].unit) && items[1].Unit? && Low(items[1].unit)
  }

  function Meaning(items: seq<Item>): seq<Token>
    decreases |items|
  {
    if items == [] then []
    else if Paired(items) then [Char(Combine(items[0].unit, items[1].unit))] + Meaning(items[2..])
    else [Single(items[0])] + Meaning(items[1..])
  }

  // ------------------------------------------------------------- the meaning is kept

  function Units(item: Item): seq<Item> {
    if item.Plain? && item.cp >= 0x80 then
      if item.cp > 0xFFFF then [Unit(HighOf(item.cp)), Unit(LowOf(item.cp))] else [Unit(item.cp)]
    else [item]
  }

  function Expand(items: seq<Item>): seq<Item> {
    if items == [] then [] else Units(items[0]) + Expand(items[1..])
  }

  ghost predicate ScalarItems(items: seq<Item>) {
    forall i | 0 <= i < |items| && items[i].Plain? :: Scalar(items[i].cp)
  }

  /** Only an escape that was there before can be the low half of a pair. */
  lemma ExpandStartsAlike(items: seq<Item>)
    requires ScalarItems(items) && items != []
    ensures Expand(items) != []
    ensures Expand(items)[0].Unit? && Low(Expand(items)[0].unit) <==> items[0].Unit? && Low(items[0].unit)
  {
    if items[0].Plain? && items[0].cp > 0xFFFF {
      SurrogatesRoundTrip(items[0].cp);
    }
  }

  lemma {:induction false} ExpandKeepsMeaning(items: seq<Item>)
    requires ScalarItems(items)
    ensures Meaning(Expand(items)) == Meaning(items)
    decreases |items|
  {
    if items == [] {
    } else if Paired(items) {
      ExpandKeepsMeaning(items[2..]);
      var out := Expand(items);
      assert items[1..][1..] == items[2..];
      assert out == [items[0]] + Expand(items[1..]);
      assert Expand(items[1..]) == [items[1]] + Expand(items[2..]);
      assert out[2..] == Expand(items[2..]);
    } else {
      ExpandKeepsMeaning(items[1..]);
      SingleKeepsMeaning(items[0], items[1..]);
      assert [items[0]] + items[1..] == items;
    }
  }

  lemma SingleKeepsMeaning(item: Item, rest: seq<Item>)
    requires ScalarItems([item] + rest) && !Paired([item] + rest)
    ensures Meaning(Units(item) + Expand(rest)) == [Single(item)] + Meaning(Expand(rest))
  {
    var out := Units(item) + Expand(rest);
    assert ([item] + rest)[0] == item;
    if item.Plain? && item.cp > 0xFFFF {
      SurrogatesRoundTrip(item.cp);
      assert out[2..] == Expand(rest);
    } else {
      assert out[1..] == Expand(rest);
      if rest != [] {
        assert ([item] + rest)[1..] == rest;
        assert ScalarItems(rest);
        ExpandStartsAlike(rest);
        assert out[1] == Expand(rest)[0];
      }
      assert !Paired(out);
    }
  }

  lemma HexRoundTrip(d: int)
    requires 0 <= d < 16
    ensures HexValue(HexDigit(d)) == d
  {
  }

  lemma HexDigits(unit: int)
    requires 0 <= unit < 0x10000
    ensures unit / 0x1000 < 16
    ensures unit / 0x1000 * 0x1000 + unit / 0x100 % 0x10 * 0x100 + unit / 0x10 % 0x10 * 0x10 + unit % 0x10 == unit
  {
  }

  lemma EscapedIsUnit(unit: int, rest: seq<Byte>)
    requires 0 <= unit < 0x10000
    ensures var s := Escaped(unit) + rest;
      IsUnit(s) && UnitValue(s) == unit && s[6..] == rest
  {
    hide HexValue, HexDigit;
    HexDigits(unit);
    HexRoundTrip(unit / 0x1000);
    HexRoundTrip(unit / 0x100 % 0x10);
    HexRoundTrip(unit / 0x10 % 0x10);
    HexRoundTrip(unit % 0x10);
  }

  /** ASCII bytes are copied. */
  lemma {:induction false} AsciiCopies(s: seq<Byte>, n: nat)
    requires n <= |s| && forall i | 0 <= i < n :: s[i] < 0x80
    ensures Ascii(s) == s[..n] + Ascii(s[n..])
  {
    if n == 0 {
      assert s[0..] == s;
    } else {
      AsciiCopies(s[1..], n - 1);
      assert s[1..][n - 1..] == s[n..];
      assert [s[0]] + s[1..][..n - 1] == s[..n];
    }
  }

  predicate Copied(item: Item) { item.Plain? ==> item.cp < 0x80 }

  /** The item a document starts with, seen through the rewriting. */
  lemma {:induction false} FirstOfAscii(s: seq<Byte>, inString: bool)
    requires s != [] && First(s, inString).Some?
    ensures var (item, n) := First(s, inString).value;
      && 1 <= n <= |s| && (item.Plain? ==> Scalar(item.cp))
      && if Copied(item) then Ascii(s) == s[..n] + Ascii(s[n..])
         else inString && Ascii(s) == Written(item.cp) + Ascii(s[n..])
  {
    hide Written, Escaped;
    var (item, n) := First(s, inString).value;
    if Copied(item) {
      if item.Unit? {
        assert s[2] < 0x80 && s[3] < 0x80 && s[4] < 0x80 && s[5] < 0x80;
      }
      AsciiCopies(s, n);
    }
  }

  lemma CopiedReadsAlike(s: seq<Byte>, inString: bool, rest: seq<Byte>)
    requires s != [] && First(s, inString).Some?
    requires First(s, inString).value.1 <= |s| && Copied(First(s, inString).value.0)
    ensures var n := First(s, inString).value.1;
      First(s[..n] + rest, inString) == First(s, inString)
  {
  }

  lemma {:induction false} WrittenReads(cp: int, rest: seq<Byte>)
    requires Scalar(cp) && 0x80 <= cp && Items(rest, true).Some?
    ensures Items(Written(cp) + rest, true) == Some(Units(Plain(cp)) + Items(rest, true).value)
  {
    hide Escaped, UnitValue, IsUnit;
    if cp > 0xFFFF {
      SurrogatesRoundTrip(cp);
      var low := Escaped(LowOf(cp)) + rest;
      UnitReads(LowOf(cp), rest);
      UnitReads(HighOf(cp), low);
      assert Written(cp) + rest == Escaped(HighOf(cp)) + low;
      assert [Unit(HighOf(cp))] + ([Unit(LowOf(cp))] + Items(rest, true).value) == Units(Plain(cp)) + Items(rest, true).value;
    } else {
      UnitReads(cp, rest);
    }
  }

  lemma UnitReads(unit: int, rest: seq<Byte>)
    requires 0 <= unit < 0x10000 && Items(rest, true).Some?
    ensures Items(Escaped(unit) + rest, true) == Some([Unit(unit)] + Items(rest, true).value)
  {
    hide UnitValue;
    EscapedIsUnit(unit, rest);
    assert First(Escaped(unit) + rest, true) == Some((Unit(unit), 6));
  }

  lemma {:induction false} ItemsOfAscii(s: seq<Byte>, inString: bool)
    requires Items(s, inString).Some?
    ensures Items(Ascii(s), inString) == Some(Expand(Items(s, inString).value))
    ensures ScalarItems(Items(s, inString).value)
    decreases |s|
  {
    hide First, Ascii, Written, DecodeRune;
    if s != [] {
      var (item, n) := First(s, inString).value;
      var next := if item.Quote? then !inString else inString;
      var rest := Items(s[n..], next).value;
      FirstOfAscii(s, inString);
      ItemsOfAscii(s[n..], next);
      ExpandCons(item, rest);
      if Copied(item) {
        CopiedReadsAlike(s, inString, Ascii(s[n..]));
        assert (s[..n] + Ascii(s[n..]))[n..] == Ascii(s[n..]);
      } else {
        WrittenReads(item.cp, Ascii(s[n..]));
      }
    } else {
      AsciiOfNothing();
    }
  }

  lemma AsciiOfNothing()
    ensures Ascii([]) == []
  {
  }

  lemma ExpandCons(item: Item, rest: seq<Item>)
    ensures Expand([item] + rest) == Units(item) + Expand(rest)
    ensures ScalarItems(rest) && (item.Plain? ==> Scalar(item.cp)) ==> ScalarItems([item] + rest)
  {
    assert ([item] + rest)[1..] == rest;
  }

  /** Rewriting twice changes nothing more. */
  lemma RewritingIsIdempotent(s: seq<Byte>)
    ensures Ascii(Ascii(s)) == Ascii(s)
  {
    hide Ascii;
    var t := Ascii(s);
    OutputIsAscii(s);
    AsciiCopies(t, |t|);
    AsciiOfNothing();
    assert t[..|t|] == t && t[|t|..] == [];
  }

  /** The rewriting keeps the meaning of every document: the same structure and
      the same characters in every string, among them the ones that were already
      escaped and lone surrogate escapes. */
  lemma RewritingKeepsMeaning(s: seq<Byte>)
    requires Items(s, false).Some?
    ensures Items(Ascii(s), false).Some?
    ensures Meaning(Items(Ascii(s), false).value) == Meaning(Items(s, false).value)
  {
    ItemsOfAscii(s, false);
    ExpandKeepsMeaning(Items(s, false).value);
  }
}
