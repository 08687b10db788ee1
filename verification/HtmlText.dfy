/** The plain text of a message, derived from its HTML. */
module HtmlText {
  import opened Text

  // ------------------------------------------------------------- replacing

  predicate At(s: string, pattern: string) {
    |pattern| <= |s| && s[..|pattern|] == pattern
  }

  /** Every occurrence, from the left and without overlaps. */
  function ReplaceAll(s: string, pattern: string, fill: string): string
    requires pattern != ""
    decreases |s|
  {
    if s == "" then ""
    else if At(s, pattern) then fill + ReplaceAll(s[|pattern|..], pattern, fill)
    else [s[0]] + ReplaceAll(s[1..], pattern, fill)
  }

  predicate Lacks(s: string, pattern: string) {
    forall i :: 0 <= i <= |s| ==> !At(s[i..], pattern)
  }

  lemma {:induction false} NothingToReplace(s: string, pattern: string, fill: string)
    requires pattern != "" && Lacks(s, pattern)
    ensures ReplaceAll(s, pattern, fill) == s
  {
    if s != "" {
      assert s[0..] == s;
      LacksTail(s, pattern);
      NothingToReplace(s[1..], pattern, fill);
    }
  }

  lemma LacksTail(s: string, pattern: string)
    requires s != "" && Lacks(s, pattern)
    ensures Lacks(s[1..], pattern)
  {
    forall i | 0 <= i <= |s| - 1
      ensures !At(s[1..][i..], pattern)
    {
      assert s[1..][i..] == s[i + 1..];
    }
  }

  lemma AtFirst(s: string, q: string)
    requires s != "" && q != ""
    ensures At(s, q) <==> s[0] == q[0] && At(s[1..], q[1..])
  {
    if |q| <= |s| {
      assert s[..|q|] == [s[0]] + s[1..][..|q| - 1];
      assert q == [q[0]] + q[1..];
      assert s[1..][..|q| - 1] == s[..|q|][1..];
    }
  }

  lemma NotAt(s: string, q: string)
    requires q != "" && q[0] !in s
    ensures !At(s, q)
  {
    if s != "" {
      assert s[0] in s;
      AtFirst(s, q);
    }
  }

  lemma LacksWithout(s: string, pattern: string)
    requires pattern != "" && pattern[0] !in s
    ensures Lacks(s, pattern)
  {
    forall i | 0 <= i <= |s|
      ensures !At(s[i..], pattern)
    {
      NotAt(s[i..], pattern);
    }
  }

  /** Replacing creates no stretch that lacks the filling and was not there before. */
  lemma {:induction false} CreatesNothing(s: string, pattern: string, fill: char, q: string)
    requires pattern != "" && fill !in q && !At(s, q)
    ensures !At(ReplaceAll(s, pattern, [fill]), q)
    decreases |q|
  {
    var r := ReplaceAll(s, pattern, [fill]);
    assert q != "" by { assert s[..0] == ""; }
    assert q[0] in q;
    if s != "" {
      AtFirst(r, q);
      AtFirst(s, q);
      if !At(s, pattern) && s[0] == q[0] {
        assert r[1..] == ReplaceAll(s[1..], pattern, [fill]);
        CreatesNothing(s[1..], pattern, fill, q[1..]);
      }
    }
  }

  lemma {:induction false} NothingLeft(s: string, pattern: string, fill: char)
    requires pattern != "" && fill !in pattern
    ensures Lacks(ReplaceAll(s, pattern, [fill]), pattern)
    decreases |s|
  {
    var r := ReplaceAll(s, pattern, [fill]);
    if s != "" {
      var rest := if At(s, pattern) then s[|pattern|..] else s[1..];
      NothingLeft(rest, pattern, fill);
      assert r[1..] == ReplaceAll(rest, pattern, [fill]);
      assert pattern[0] in pattern;
      if At(s, pattern) {
        AtFirst(r, pattern);
      } else {
        CreatesNothing(s, pattern, fill, pattern);
      }
      LacksMore(r, pattern);
    }
  }

  lemma LacksMore(s: string, pattern: string)
    requires s != "" && !At(s, pattern) && Lacks(s[1..], pattern)
    ensures Lacks(s, pattern)
  {
    forall i | 0 <= i <= |s|
      ensures !At(s[i..], pattern)
    {
      if i == 0 {
        assert s[0..] == s;
      } else {
        assert s[i..] == s[1..][i - 1..];
      }
    }
  }

  lemma {:induction false} ReplaceAddsNothing(s: string, pattern: string, fill: string, c: char)
    requires pattern != "" && c !in s && c !in fill
    ensures c !in ReplaceAll(s, pattern, fill)
    decreases |s|
  {
    if s != "" {
      ReplaceAddsNothing(if At(s, pattern) then s[|pattern|..] else s[1..], pattern, fill, c);
    }
  }

  lemma NotAtShorter(s: string, t: string, pattern: string)
    requires !At(s + t, pattern)
    ensures !At(s, pattern)
  {
    if |pattern| <= |s| {
      assert (s + t)[..|pattern|] == s[..|pattern|];
    }
  }

  lemma LacksInit(s: string, pattern: string)
    requires s != "" && Lacks(s, pattern)
    ensures Lacks(s[..|s| - 1], pattern)
  {
    var n := |s| - 1;
    forall i | 0 <= i <= n
      ensures !At(s[..n][i..], pattern)
    {
      assert s[i..] == s[..n][i..] + s[n..];
      NotAtShorter(s[..n][i..], s[n..], pattern);
    }
  }

  lemma {:induction false} TrimLeftLacks(s: string, pattern: string)
    requires Lacks(s, pattern)
    ensures Lacks(TrimLeft(s), pattern)
  {
    if s != "" && IsSpace(s[0]) {
      LacksTail(s, pattern);
      TrimLeftLacks(s[1..], pattern);
    }
  }

  lemma {:induction false} TrimRightLacks(s: string, pattern: string)
    requires Lacks(s, pattern)
    ensures Lacks(TrimRight(s), pattern)
  {
    if s != "" && IsSpace(s[|s| - 1]) {
      LacksInit(s, pattern);
      TrimRightLacks(s[..|s| - 1], pattern);
    }
  }

  // ------------------------------------------------------------- the conversion

  const BREAKS: seq<string> := ["</p>", "<br>", "<br/>", "<br />", "</div>", "</tr>", "</h1>", "</h2>", "</h3>", "</li>"]
  const ITEM: string := "<li>"
  const BULLET: string := "• "
  const NBSP: string := "&nbsp;"

  predicate AreTags(tags: seq<string>) {
    forall k :: 0 <= k < |tags| ==> tags[k] != "" && tags[k][0] == '<'
  }

  function Broken(s: string, tags: seq<string>): string
    requires AreTags(tags)
  {
    if tags == [] then s else ReplaceAll(Broken(s, tags[..|tags| - 1]), tags[|tags| - 1], "\n")
  }

  /** The characters outside all angle brackets, which may nest. */
  function Stripped(s: string, depth: nat): string {
    if s == "" then ""
    else if s[0] == '<' then Stripped(s[1..], depth + 1)
    else if s[0] == '>' then Stripped(s[1..], if depth > 0 then depth - 1 else 0)
    else (if depth == 0 then [s[0]] else "") + Stripped(s[1..], depth)
  }

  function CleanLine(line: string): string { TrimSpace(ReplaceAll(line, NBSP, " ")) }

  /** Clean lines, and never two blank ones in a row. */
  function Cleaned(lines: seq<string>, previousBlank: bool): seq<string> {
    if lines == [] then []
    else
      var line := CleanLine(lines[0]);
      if line != "" then [line] + Cleaned(lines[1..], false)
      else (if previousBlank then [] else [""]) + Cleaned(lines[1..], true)
  }

  function Unbracketed(document: string): string {
    Stripped(ReplaceAll(Broken(document, BREAKS), ITEM, BULLET), 0)
  }

  function PlainText(document: string): string {
    TrimSpace(Join(Cleaned(Split(Unbracketed(document), '\n'), false), '\n'))
  }

  method ReplaceBreaks(document: string) returns (replaced: string)
    ensures replaced == Broken(document, BREAKS)
  {
    replaced := document;
    for i := 0 to |BREAKS|
      invariant replaced == Broken(document, BREAKS[..i])
    {
      assert BREAKS[..i + 1][..i] == BREAKS[..i];
      replaced := ReplaceAll(replaced, BREAKS[i], "\n");
    }
    assert BREAKS[..|BREAKS|] == BREAKS;
  }

  method StripTags(s: string) returns (text: string)
    ensures text == Stripped(s, 0)
  {
    text := "";
    var depth: nat := 0;
    for i := 0 to |s|
      invariant text + Stripped(s[i..], depth) == Stripped(s, 0)
    {
      assert s[i..][1..] == s[i + 1..];
      match s[i]
      case '<' =>
        depth := depth + 1;
      case '>' =>
        if depth > 0 {
          depth := depth - 1;
        }
      case _ =>
        if depth == 0 {
          assert text + [s[i]] + Stripped(s[i + 1..], 0) == text + ([s[i]] + Stripped(s[i + 1..], 0));
          text := text + [s[i]];
        }
    }
    assert text + Stripped(s[|s|..], depth) == text;
  }

  method CleanLines(lines: seq<string>) returns (cleaned: seq<string>)
    ensures cleaned == Cleaned(lines, false)
  {
    hide CleanLine;
    cleaned := [];
    var previousBlank := false;
    for i := 0 to |lines|
      invariant cleaned + Cleaned(lines[i..], previousBlank) == Cleaned(lines, false)
    {
      var line := CleanLine(lines[i]);
      CleanedStep(cleaned, lines, i, previousBlank);
      if line == "" {
        if previousBlank {
          continue;
        }
        previousBlank := true;
        cleaned := cleaned + [""];
        continue;
      }
      previousBlank := false;
      cleaned := cleaned + [line];
    }
    assert cleaned + Cleaned(lines[|lines|..], previousBlank) == cleaned;
  }

  lemma CleanedStep(done: seq<string>, lines: seq<string>, i: nat, previousBlank: bool)
    requires i < |lines|
    ensures var line := CleanLine(lines[i]);
            done + Cleaned(lines[i..], previousBlank)
            == (if line != "" then done + [line] else if previousBlank then done else done + [""])
               + Cleaned(lines[i + 1..], line == "")
  {
    hide CleanLine;
    var rest := lines[i..];
    assert rest[0] == lines[i] && rest[1..] == lines[i + 1..];
    var next := Cleaned(lines[i + 1..], CleanLine(lines[i]) == "");
    if CleanLine(lines[i]) != "" {
      assert done + ([CleanLine(lines[i])] + next) == done + [CleanLine(lines[i])] + next;
    } else if previousBlank {
      assert [] + next == next;
    } else {
      assert done + ([""] + next) == done + [""] + next;
    }
  }

  method HtmlToText(document: string) returns (r: string)
    ensures r == PlainText(document)
  {
    hide Broken, Stripped, Cleaned, ReplaceAll, Split, Join, TrimSpace;
    var replaced := ReplaceBreaks(document);
    replaced := ReplaceAll(replaced, ITEM, BULLET);
    var text := StripTags(replaced);
    var cleaned := CleanLines(Split(text, '\n'));
    r := TrimSpace(Join(cleaned, '\n'));
  }

  // ------------------------------------------------------------- no angle brackets

  lemma {:induction false} StrippedHasNone(s: string, depth: nat)
    ensures '<' !in Stripped(s, depth) && '>' !in Stripped(s, depth)
  {
    if s != "" {
      StrippedHasNone(s[1..], depth + 1);
      StrippedHasNone(s[1..], if depth > 0 then depth - 1 else 0);
      StrippedHasNone(s[1..], depth);
    }
  }

  lemma {:induction false} SplitAddsNothing(s: string, sep: char, c: char)
    requires c !in s
    ensures forall k :: 0 <= k < |Split(s, sep)| ==> c !in Split(s, sep)[k]
  {
    if s != "" {
      SplitAddsNothing(s[1..], sep, c);
    }
  }

  lemma {:induction false} JoinAddsNothing(parts: seq<string>, sep: char, c: char)
    requires c != sep && forall k :: 0 <= k < |parts| ==> c !in parts[k]
    ensures c !in Join(parts, sep)
  {
    if |parts| > 1 {
      JoinAddsNothing(parts[1..], sep, c);
    }
  }

  lemma {:induction false} CleanedAddsNothing(lines: seq<string>, previousBlank: bool, c: char)
    requires c != ' ' && forall k :: 0 <= k < |lines| ==> c !in lines[k]
    ensures forall k :: 0 <= k < |Cleaned(lines, previousBlank)| ==> c !in Cleaned(lines, previousBlank)[k]
  {
    hide TrimSpace, ReplaceAll;
    if lines != [] {
      ReplaceAddsNothing(lines[0], NBSP, " ", c);
      TrimAddsNothing(ReplaceAll(lines[0], NBSP, " "), c);
      CleanedAddsNothing(lines[1..], false, c);
      CleanedAddsNothing(lines[1..], true, c);
    }
  }

  lemma UnbracketedHasNone(document: string)
    ensures '<' !in Unbracketed(document) && '>' !in Unbracketed(document)
  {
    hide Broken, Stripped, ReplaceAll;
    StrippedHasNone(ReplaceAll(Broken(document, BREAKS), ITEM, BULLET), 0);
  }

  lemma PlainTextHasNone(document: string, c: char)
    requires c == '<' || c == '>'
    ensures c !in PlainText(document)
  {
    hide Unbracketed, Cleaned, Split, Join, TrimSpace;
    var text := Unbracketed(document);
    UnbracketedHasNone(document);
    SplitAddsNothing(text, '\n', c);
    var lines := Cleaned(Split(text, '\n'), false);
    CleanedAddsNothing(Split(text, '\n'), false, c);
    JoinAddsNothing(lines, '\n', c);
    TrimAddsNothing(Join(lines, '\n'), c);
  }

  // ------------------------------------------------------------- converting twice

  predicate NeatLine(line: string) { Tight(line) && Lacks(line, NBSP) }

  /** Nothing is left to clean. */
  predicate Neat(lines: seq<string>) {
    && (forall k :: 0 <= k < |lines| ==> NeatLine(lines[k]))
    && forall k :: 0 < k < |lines| ==> lines[k] != "" || lines[k - 1] != ""
  }

  lemma CleanLineIsNeat(line: string)
    ensures NeatLine(CleanLine(line))
  {
    hide ReplaceAll, Lacks, Tight;
    var r := ReplaceAll(line, NBSP, " ");
    NothingLeft(line, NBSP, ' ');
    TrimLeftLacks(r, NBSP);
    TrimRightLacks(TrimLeft(r), NBSP);
    TrimSpaceIs(r);
  }

  lemma NeatLineIsClean(line: string)
    requires NeatLine(line)
    ensures CleanLine(line) == line
  {
    hide TrimSpace, ReplaceAll;
    NothingToReplace(line, NBSP, " ");
    TrimOfTight(line);
  }

  lemma {:induction false} CleanedIsNeat(lines: seq<string>, previousBlank: bool)
    ensures Neat(Cleaned(lines, previousBlank))
    ensures previousBlank && Cleaned(lines, previousBlank) != [] ==> Cleaned(lines, previousBlank)[0] != ""
  {
    hide CleanLine, NeatLine;
    if lines != [] {
      CleanedIsNeat(lines[1..], false);
      CleanedIsNeat(lines[1..], true);
      CleanLineIsNeat(lines[0]);
    }
  }

  lemma {:induction false} NeatIsClean(lines: seq<string>, previousBlank: bool)
    requires Neat(lines) && (previousBlank && lines != [] ==> lines[0] != "")
    ensures Cleaned(lines, previousBlank) == lines
  {
    hide CleanLine, NeatLine;
    if lines != [] {
      NeatLineIsClean(lines[0]);
      if |lines| > 1 {
        assert lines[1] != "" || lines[1 - 1] != "";
      }
      NeatIsClean(lines[1..], lines[0] == "");
      assert [lines[0]] + lines[1..] == lines;
    }
  }

  lemma CleanedNotEmpty(lines: seq<string>)
    requires lines != []
    ensures Cleaned(lines, false) != []
  {
    hide CleanLine;
  }

  lemma {:induction false} TrimLeftNeat(s: string)
    requires Neat(Split(s, '\n'))
    ensures Neat(Split(TrimLeft(s), '\n'))
  {
    hide Lacks;
    if s != "" && IsSpace(s[0]) {
      var lines, rest := Split(s, '\n'), Split(s[1..], '\n');
      assert NeatLine(lines[0]);
      assert lines[1..] == rest;
      NeatParts(lines, 1, |lines|);
      assert lines[1..|lines|] == rest;
      TrimLeftNeat(s[1..]);
    }
  }

  lemma {:induction false} TrimRightNeat(s: string)
    requires Neat(Split(s, '\n'))
    ensures Neat(Split(TrimRight(s), '\n'))
  {
    hide Lacks, Split;
    if s != "" && IsSpace(s[|s| - 1]) {
      var before, c := s[..|s| - 1], s[|s| - 1];
      assert s == before + [c];
      SplitLast(before, c, '\n');
      var lines, rest := Split(s, '\n'), Split(before, '\n');
      assert NeatLine(lines[|lines| - 1]);
      NeatParts(lines, 0, |rest|);
      assert lines[0..|rest|] == rest;
      TrimRightNeat(before);
    }
  }

  lemma NeatParts(lines: seq<string>, i: nat, j: nat)
    requires i <= j <= |lines| && Neat(lines)
    ensures Neat(lines[i..j])
  {
    hide NeatLine;
    var part := lines[i..j];
    forall k | 0 < k < |part|
      ensures part[k] != "" || part[k - 1] != ""
    {
      assert part[k] == lines[i + k] && part[k - 1] == lines[i + k - 1];
    }
  }

  lemma {:induction false} BrokenNothing(s: string, tags: seq<string>)
    requires AreTags(tags) && '<' !in s
    ensures Broken(s, tags) == s
  {
    if tags != [] {
      var last := tags[|tags| - 1];
      BrokenNothing(s, tags[..|tags| - 1]);
      LacksWithout(s, last);
      NothingToReplace(s, last, "\n");
    }
  }

  lemma {:induction false} StrippedNothing(s: string)
    requires '<' !in s && '>' !in s
    ensures Stripped(s, 0) == s
  {
    if s != "" {
      StrippedNothing(s[1..]);
      assert [s[0]] + s[1..] == s;
    }
  }

  lemma UnbracketedNothing(s: string)
    requires '<' !in s && '>' !in s
    ensures Unbracketed(s) == s
  {
    hide Broken, Stripped, ReplaceAll, Lacks;
    BrokenNothing(s, BREAKS);
    LacksWithout(s, ITEM);
    NothingToReplace(s, ITEM, BULLET);
    StrippedNothing(s);
  }

  lemma PlainTextIsNeat(document: string)
    ensures Neat(Split(PlainText(document), '\n')) && Tight(PlainText(document))
  {
    hide Unbracketed, Cleaned, Split, Join, Neat, TrimLeft, TrimRight, Tight;
    var parts := Split(Unbracketed(document), '\n');
    var lines := Cleaned(parts, false);
    CleanedIsNeat(parts, false);
    CleanedNotEmpty(parts);
    SplitIs(Unbracketed(document), '\n');
    CleanedAddsNothing(parts, false, '\n');
    SplitJoin(lines, '\n');
    TrimLeftNeat(Join(lines, '\n'));
    TrimRightNeat(TrimLeft(Join(lines, '\n')));
    TrimSpaceIs(Join(lines, '\n'));
  }

  /** Converting a text that was already converted changes nothing. */
  lemma ConvertingTwice(document: string)
    ensures PlainText(PlainText(document)) == PlainText(document)
  {
    hide Unbracketed, Cleaned, Split, Join, Neat, TrimSpace, Tight;
    var r := PlainText(document);
    PlainTextHasNone(document, '<');
    PlainTextHasNone(document, '>');
    UnbracketedNothing(r);
    PlainTextIsNeat(document);
    NeatIsClean(Split(r, '\n'), false);
    JoinSplit(r, '\n');
    TrimOfTight(r);
  }

  /** Exactly the neat texts without brackets are left alone. */
  lemma UnchangedWhen(s: string)
    ensures PlainText(s) == s <==> '<' !in s && '>' !in s && Tight(s) && Neat(Split(s, '\n'))
  {
    hide Unbracketed, Cleaned, Split, Join, Neat, TrimSpace, Tight;
    PlainTextHasNone(s, '<');
    PlainTextHasNone(s, '>');
    PlainTextIsNeat(s);
    if '<' !in s && '>' !in s && Tight(s) && Neat(Split(s, '\n')) {
      UnbracketedNothing(s);
      NeatIsClean(Split(s, '\n'), false);
      JoinSplit(s, '\n');
      TrimOfTight(s);
    }
  }

  /** A tag vanishes with everything in it and nothing around it. */
  lemma TagVanishes(before: string, tag: string, rest: string)
    requires '<' !in before && '>' !in before && '<' !in tag && '>' !in tag
    ensures Stripped(before + (['<'] + (tag + (['>'] + rest))), 0) == before + Stripped(rest, 0)
  {
    var inside := tag + (['>'] + rest);
    OutsideStays(before, ['<'] + inside);
    InsideVanishes(tag, rest);
    assert (['<'] + inside)[1..] == inside;
  }

  lemma {:induction false} OutsideStays(before: string, s: string)
    requires '<' !in before && '>' !in before
    ensures Stripped(before + s, 0) == before + Stripped(s, 0)
  {
    if before == "" {
      assert before + s == s;
    } else {
      assert (before + s)[1..] == before[1..] + s;
      OutsideStays(before[1..], s);
      assert [before[0]] + (before[1..] + Stripped(s, 0)) == before + Stripped(s, 0);
    }
  }

  lemma {:induction false} InsideVanishes(tag: string, rest: string)
    requires '<' !in tag && '>' !in tag
    ensures Stripped(tag + (['>'] + rest), 1) == Stripped(rest, 0)
  {
    var s := tag + (['>'] + rest);
    if tag == "" {
      assert s[1..] == rest;
    } else {
      assert s[1..] == tag[1..] + (['>'] + rest);
      InsideVanishes(tag[1..], rest);
    }
  }
}
