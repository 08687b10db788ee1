/** The string functions the programs lean on: trimming, splitting, joining. */
module Text {

  /** Unicode white space, as the standard library defines it. */
  predicate IsSpace(c: char) {
    || '\t' <= c <= '\r' || c == ' ' || c == '\U{85}' || c == '\U{A0}' || c == '\U{1680}'
    || '\U{2000}' <= c <= '\U{200A}' || c == '\U{2028}' || c == '\U{2029}' || c == '\U{202F}'
    || c == '\U{205F}' || c == '\U{3000}'
  }

  function TrimLeft(s: string): string {
    if s != [] && IsSpace(s[0]) then TrimLeft(s[1..]) else s
  }

  function TrimRight(s: string): string {
    if s != [] && IsSpace(s[|s| - 1]) then TrimRight(s[..|s| - 1]) else s
  }

  function TrimSpace(s: string): string { TrimRight(TrimLeft(s)) }

  predicate Tight(s: string) {
    s == [] || (!IsSpace(s[0]) && !IsSpace(s[|s| - 1]))
  }

  lemma {:induction false} TrimLeftIs(s: string)
    ensures TrimLeft(s) == [] || !IsSpace(TrimLeft(s)[0])
  {
    if s != [] && IsSpace(s[0]) {
      TrimLeftIs(s[1..]);
    }
  }

  lemma {:induction false} TrimRightIs(s: string)
    requires s == [] || !IsSpace(s[0])
    ensures Tight(TrimRight(s))
  {
    if s != [] && IsSpace(s[|s| - 1]) {
      TrimRightIs(s[..|s| - 1]);
    }
  }

  lemma TrimSpaceIs(s: string)
    ensures Tight(TrimSpace(s))
  {
    TrimLeftIs(s);
    TrimRightIs(TrimLeft(s));
  }

  lemma TrimOfTight(s: string)
    requires Tight(s)
    ensures TrimSpace(s) == s
  {
  }

  /** The 25 characters of the property White_Space. */
  lemma SpaceIs(c: char)
    ensures IsSpace(c) <==> c as int in {0x09, 0x0A, 0x0B, 0x0C, 0x0D, 0x20, 0x85, 0xA0, 0x1680, 0x2000, 0x2001, 0x2002,
              0x2003, 0x2004, 0x2005, 0x2006, 0x2007, 0x2008, 0x2009, 0x200A, 0x2028, 0x2029, 0x202F, 0x205F, 0x3000}
  {
  }

  ghost predicate Blank(s: string) {
    forall i | 0 <= i < |s| :: IsSpace(s[i])
  }

  /** What a string is without the white space around it. */
  lemma {:induction false} TrimOfPadded(a: string, t: string, b: string)
    requires Blank(a) && Tight(t) && Blank(b)
    ensures TrimSpace(a + t + b) == t
    decreases |a|
  {
    var s := a + t + b;
    if a != "" {
      assert s[1..] == a[1..] + t + b;
      TrimOfPadded(a[1..], t, b);
    } else {
      assert s == t + b;
      if t == "" {
        assert s == b;
        TrimLeftBlank(b);
      } else {
        TrimRightPadded(t, b);
      }
    }
  }

  lemma {:induction false} TrimLeftBlank(b: string)
    requires Blank(b)
    ensures TrimLeft(b) == ""
  {
    if b != "" {
      TrimLeftBlank(b[1..]);
    }
  }

  lemma {:induction false} TrimRightPadded(t: string, b: string)
    requires Blank(b) && Tight(t)
    ensures TrimRight(t + b) == t
  {
    var s := t + b;
    if b == "" {
      assert s == t;
    } else {
      assert s[..|s| - 1] == t + b[..|b| - 1];
      TrimRightPadded(t, b[..|b| - 1]);
    }
  }

  lemma {:induction false} LeftPadding(s: string) returns (a: string)
    ensures Blank(a) && s == a + TrimLeft(s)
  {
    if s != "" && IsSpace(s[0]) {
      a := LeftPadding(s[1..]);
      a := [s[0]] + a;
    } else {
      a := "";
    }
  }

  lemma {:induction false} RightPadding(s: string) returns (b: string)
    ensures Blank(b) && s == TrimRight(s) + b
  {
    if s != "" && IsSpace(s[|s| - 1]) {
      b := RightPadding(s[..|s| - 1]);
      b := b + [s[|s| - 1]];
    } else {
      b := "";
    }
  }

  /** Trimming takes white space away at both ends, all of it, and nothing else. */
  lemma TrimmedIs(s: string) returns (a: string, b: string)
    ensures Blank(a) && Blank(b) && Tight(TrimSpace(s)) && s == a + TrimSpace(s) + b
  {
    a := LeftPadding(s);
    b := RightPadding(TrimLeft(s));
    TrimSpaceIs(s);
  }

  function TrimmedEach(names: seq<string>): (t: seq<string>)
    ensures |t| == |names| && forall i | 0 <= i < |t| :: t[i] == TrimSpace(names[i])
  {
    seq(|names|, i requires 0 <= i < |names| => TrimSpace(names[i]))
  }

  /** The parts between the separators: one more part than separators. */
  function Split(s: string, sep: char): (parts: seq<string>)
    ensures 1 <= |parts|
  {
    if s == [] then [[]]
    else
      var rest := Split(s[1..], sep);
      if s[0] == sep then [[]] + rest else [[s[0]] + rest[0]] + rest[1..]
  }

  function Join(parts: seq<string>, sep: char): string {
    if parts == [] then []
    else if |parts| == 1 then parts[0]
    else parts[0] + [sep] + Join(parts[1..], sep)
  }

  lemma {:induction false} SplitPrefix(p: string, s: string, sep: char)
    requires sep !in p
    ensures Split(p + s, sep) == [p + Split(s, sep)[0]] + Split(s, sep)[1..]
  {
    if p == [] {
      var parts := Split(s, sep);
      assert p + s == s && p + parts[0] == parts[0] && [parts[0]] + parts[1..] == parts;
    } else {
      assert (p + s)[1..] == p[1..] + s;
      SplitPrefix(p[1..], s, sep);
      assert [p[0]] + (p[1..] + Split(s, sep)[0]) == p + Split(s, sep)[0];
    }
  }

  lemma {:induction false} SplitJoin(parts: seq<string>, sep: char)
    requires parts != [] && forall i | 0 <= i < |parts| :: sep !in parts[i]
    ensures Split(Join(parts, sep), sep) == parts
  {
    if |parts| == 1 {
      SplitPrefix(parts[0], [], sep);
      assert parts[0] + [] == parts[0];
    } else {
      var rest := [sep] + Join(parts[1..], sep);
      SplitJoin(parts[1..], sep);
      assert rest[1..] == Join(parts[1..], sep);
      SplitPrefix(parts[0], rest, sep);
      assert parts[0] + [sep] + Join(parts[1..], sep) == parts[0] + rest;
      assert parts[0] + [] == parts[0];
    }
  }

  lemma {:induction false} SplitIs(s: string, sep: char)
    ensures forall i | 0 <= i < |Split(s, sep)| :: sep !in Split(s, sep)[i]
  {
    if s != [] {
      SplitIs(s[1..], sep);
    }
  }

  /** Removes a character from both ends. */
  function TrimChar(s: string, c: char): string {
    if s != [] && s[0] == c then TrimChar(s[1..], c)
    else if s != [] && s[|s| - 1] == c then TrimChar(s[..|s| - 1], c)
    else s
  }

  /** Nothing but that character is taken away, and it stands at neither end any more. */
  lemma {:induction false} TrimCharIs(s: string, c: char) returns (a: string, b: string)
    ensures s == a + TrimChar(s, c) + b
    ensures (forall i | 0 <= i < |a| :: a[i] == c) && (forall i | 0 <= i < |b| :: b[i] == c)
    ensures var t := TrimChar(s, c); t == "" || (t[0] != c && t[|t| - 1] != c)
    decreases |s|
  {
    if s != [] && s[0] == c {
      a, b := TrimCharIs(s[1..], c);
      assert s == [c] + (a + TrimChar(s, c) + b);
      assert [c] + (a + TrimChar(s, c) + b) == ([c] + a) + TrimChar(s, c) + b;
      a := [c] + a;
    } else if s != [] && s[|s| - 1] == c {
      a, b := TrimCharIs(s[..|s| - 1], c);
      assert s == (a + TrimChar(s, c) + b) + [c];
      assert (a + TrimChar(s, c) + b) + [c] == a + TrimChar(s, c) + (b + [c]);
      b := b + [c];
    } else {
      a, b := "", "";
    }
  }

  lemma {:induction false} JoinEnds(parts: seq<string>, sep: char)
    requires parts != [] && forall i | 0 <= i < |parts| :: parts[i] != [] && sep !in parts[i]
    ensures var s := Join(parts, sep); s != [] && s[0] != sep && s[|s| - 1] != sep
  {
    assert parts[0][0] in parts[0];
    if |parts| == 1 {
      assert parts[0][|parts[0]| - 1] in parts[0];
    } else {
      JoinEnds(parts[1..], sep);
    }
  }

  lemma TrimAddsNothing(s: string, c: char)
    requires c !in s
    ensures c !in TrimSpace(s)
  {
    TrimLeftAddsNothing(s, c);
    TrimRightAddsNothing(TrimLeft(s), c);
  }

  lemma {:induction false} TrimLeftAddsNothing(s: string, c: char)
    requires c !in s
    ensures c !in TrimLeft(s)
  {
    if s != [] && IsSpace(s[0]) {
      TrimLeftAddsNothing(s[1..], c);
    }
  }

  lemma {:induction false} TrimRightAddsNothing(s: string, c: char)
    requires c !in s
    ensures c !in TrimRight(s)
  {
    if s != [] && IsSpace(s[|s| - 1]) {
      TrimRightAddsNothing(s[..|s| - 1], c);
    }
  }

  lemma SplitFirst(s: string, sep: char)
    requires s != ""
    ensures Split(s, sep) == Front(Split(s[1..], sep), s[0], sep)
  {
  }

  lemma SplitNothing(sep: char)
    ensures Split("", sep) == [""]
  {
  }

  lemma {:induction false} SplitLast(s: string, c: char, sep: char)
    ensures Split(s + [c], sep) == Behind(Split(s, sep), c, sep)
  {
    hide Split;
    var t := s + [c];
    SplitNothing(sep);
    SplitFirst(t, sep);
    if s == "" {
      assert t == [c] && t[1..] == "";
      assert [c] + "" == "" + [c];
    } else {
      assert t[1..] == s[1..] + [c];
      SplitLast(s[1..], c, sep);
      SplitFirst(s, sep);
      SplitGrows(Split(s[1..], sep), s[0], c, sep);
    }
  }

  /** Putting a character in front commutes with putting one behind. */
  lemma SplitGrows(rest: seq<string>, a: char, c: char, sep: char)
    requires rest != []
    ensures Front(Behind(rest, c, sep), a, sep) == Behind(Front(rest, a, sep), c, sep)
  {
    var n := |rest| - 1;
    if a != sep && c != sep {
      assert ([a] + rest[0]) + [c] == [a] + (rest[0] + [c]);
    }
  }

  function Front(parts: seq<string>, a: char, sep: char): (r: seq<string>)
    requires parts != []
    ensures r != []
  {
    if a == sep then [[]] + parts else [[a] + parts[0]] + parts[1..]
  }

  function Behind(parts: seq<string>, c: char, sep: char): (r: seq<string>)
    requires parts != []
    ensures r != []
  {
    var n := |parts| - 1;
    if c == sep then parts + [[]] else parts[..n] + [parts[n] + [c]]
  }

  lemma {:induction false} JoinSplit(s: string, sep: char)
    ensures Join(Split(s, sep), sep) == s
  {
    if s != "" {
      JoinSplit(s[1..], sep);
      var rest := Split(s[1..], sep);
      if s[0] == sep {
        assert ([[]] + rest)[1..] == rest;
      } else if |rest| > 1 {
        assert ([[s[0]] + rest[0]] + rest[1..])[1..] == rest[1..];
      }
    }
  }

  lemma {:induction false} SplitConcat(a: string, b: string, sep: char)
    ensures Split(a + ([sep] + b), sep) == Split(a, sep) + Split(b, sep)
  {
    hide Split;
    var s := a + ([sep] + b);
    SplitFirst(s, sep);
    if a == "" {
      SplitNothing(sep);
      assert s == [sep] + b && s[1..] == b;
    } else {
      assert s[1..] == a[1..] + ([sep] + b) && s[0] == a[0];
      SplitConcat(a[1..], b, sep);
      SplitFirst(a, sep);
      FrontAppended(Split(a[1..], sep), Split(b, sep), a[0], sep);
    }
  }

  lemma FrontAppended(p: seq<string>, q: seq<string>, a: char, sep: char)
    requires p != []
    ensures Front(p + q, a, sep) == Front(p, a, sep) + q
  {
    assert (p + q)[1..] == p[1..] + q;
  }

  lemma SplitOne(x: string, sep: char)
    requires sep !in x
    ensures Split(x, sep) == [x]
  {
    SplitPrefix(x, [], sep);
    assert x + [] == x;
  }

  /** A part without a separator is found again after joining, whatever the others are. */
  lemma {:induction false} FoundInJoin(parts: seq<string>, x: string, sep: char)
    requires x in parts && sep !in x
    ensures x in Split(Join(parts, sep), sep)
  {
    if |parts| == 1 {
      SplitOne(x, sep);
    } else {
      var rest := Join(parts[1..], sep);
      assert parts[0] + [sep] + rest == parts[0] + ([sep] + rest);
      SplitConcat(parts[0], rest, sep);
      if parts[0] == x {
        SplitOne(x, sep);
      } else {
        FoundInJoin(parts[1..], x, sep);
      }
    }
  }

  /** Trimming separators loses empty parts only. */
  lemma {:induction false} TrimKeepsParts(s: string, x: string, c: char)
    requires x != "" && x in Split(s, c)
    ensures x in Split(TrimChar(s, c), c)
    decreases |s|
  {
    if s != "" && s[0] == c {
      TrimKeepsParts(s[1..], x, c);
    } else if s != "" && s[|s| - 1] == c {
      var before := s[..|s| - 1];
      assert s == before + [c];
      SplitLast(before, c, c);
      TrimKeepsParts(before, x, c);
    }
  }
}
