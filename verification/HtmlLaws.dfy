/** What the plain text of a message is made of, tag by tag and line by line. */
module HtmlLaws {
  import opened Text
  import opened HtmlText

  // ------------------------------------------------------------- tags

  /** Brackets at both ends and none between them. */
  predicate IsTag(t: string) {
    |t| >= 2 && t[0] == '<' && t[|t| - 1] == '>' && forall i | 0 < i < |t| - 1 :: t[i] != '<' && t[i] != '>'
  }

  predicate Bare(s: string) { '<' !in s && '>' !in s }

  /** Where one tag begins no other does. */
  lemma OneTagOnly(t: string, rest: string, p: string)
    requires IsTag(t) && IsTag(p) && At(t + rest, p)
    ensures p == t
  {
    var s := t + rest;
    assert s[..|p|] == p;
    var n := if |p| <= |t| then |p| else |t|;
    assert forall i | 0 <= i < n :: p[i] == s[i] == t[i];
  }

  lemma {:induction false} ReplaceBehind(a: string, s: string, pattern: string, fill: string)
    requires pattern != "" && pattern[0] !in a
    ensures ReplaceAll(a + s, pattern, fill) == a + ReplaceAll(s, pattern, fill)
  {
    if a == "" {
      assert a + s == s;
    } else {
      var t := a + s;
      assert t[0] == a[0] && a[0] in a;
      AtFirst(t, pattern);
      assert t[1..] == a[1..] + s;
      ReplaceBehind(a[1..], s, pattern, fill);
      assert [a[0]] + (a[1..] + ReplaceAll(s, pattern, fill)) == a + ReplaceAll(s, pattern, fill);
    }
  }

  lemma ReplaceHere(pattern: string, rest: string, fill: string)
    requires pattern != ""
    ensures ReplaceAll(pattern + rest, pattern, fill) == fill + ReplaceAll(rest, pattern, fill)
  {
    assert (pattern + rest)[..|pattern|] == pattern && (pattern + rest)[|pattern|..] == rest;
  }

  lemma ReplaceOther(t: string, rest: string, p: string, fill: string)
    requires IsTag(t) && IsTag(p) && t != p
    ensures ReplaceAll(t + rest, p, fill) == t + ReplaceAll(rest, p, fill)
  {
    if At(t + rest, p) {
      OneTagOnly(t, rest, p);
    }
    assert (t + rest)[1..] == t[1..] + rest;
    ReplaceBehind(t[1..], rest, p, fill);
    assert [t[0]] + (t[1..] + ReplaceAll(rest, p, fill)) == t + ReplaceAll(rest, p, fill);
  }

  lemma {:induction false} BrokenBehind(a: string, s: string, tags: seq<string>)
    requires AreTags(tags) && '<' !in a
    ensures Broken(a + s, tags) == a + Broken(s, tags)
  {
    hide ReplaceAll;
    if tags != [] {
      BrokenBehind(a, s, tags[..|tags| - 1]);
      ReplaceBehind(a, Broken(s, tags[..|tags| - 1]), tags[|tags| - 1], "\n");
    }
  }

  lemma {:induction false} BrokenTag(t: string, rest: string, tags: seq<string>)
    requires AreTags(tags) && IsTag(t) && forall k | 0 <= k < |tags| :: IsTag(tags[k])
    ensures Broken(t + rest, tags) == (if t in tags then "\n" else t) + Broken(rest, tags)
  {
    hide ReplaceAll, IsTag;
    if tags != [] {
      var before, last := tags[..|tags| - 1], tags[|tags| - 1];
      BrokenTag(t, rest, before);
      var more := Broken(rest, before);
      if t in before {
        ReplaceBehind("\n", more, last, "\n");
      } else if t == last {
        ReplaceHere(t, more, "\n");
      } else {
        ReplaceOther(t, more, last, "\n");
      }
    }
  }

  lemma BreaksAreTags()
    ensures IsTag("<li>") && forall k | 0 <= k < |BREAKS| :: IsTag(BREAKS[k])
  {
  }

  lemma BreaksAre(t: string)
    ensures t in BREAKS <==> t in ["</p>", "<br>", "<br/>", "<br />", "</div>", "</tr>", "</h1>", "</h2>", "</h3>", "</li>"]
    ensures "<li>" !in BREAKS
  {
    assert |"<li>"| == 4 && "<li>"[1] == 'l';
  }

  /** What stands for a tag in the text: a line break for the end of a block, a bullet for an
      item of a list, nothing for any other tag. */
  function Stands(t: string): string {
    if t in ["</p>", "<br>", "<br/>", "<br />", "</div>", "</tr>", "</h1>", "</h2>", "</h3>", "</li>"] then "\n"
    else if t == "<li>" then "• " else ""
  }

  lemma {:induction false} TagStripped(t: string, rest: string)
    requires IsTag(t)
    ensures Stripped(t + rest, 0) == Stripped(rest, 0)
  {
    var inner := t[1..|t| - 1];
    assert t + rest == "" + (['<'] + (inner + (['>'] + rest)));
    TagVanishes("", inner, rest);
    assert "" + Stripped(rest, 0) == Stripped(rest, 0);
  }

  lemma ItemsReplaced(t: string, rest: string)
    requires IsTag(t) && IsTag("<li>")
    ensures ReplaceAll(t + rest, ITEM, BULLET) == (if t == "<li>" then "• " else t) + ReplaceAll(rest, ITEM, BULLET)
  {
    hide ReplaceAll, IsTag;
    if t == "<li>" {
      ReplaceHere(t, rest, BULLET);
    } else {
      ReplaceOther(t, rest, ITEM, BULLET);
    }
  }

  /** The text up to a tag stays, the tag is replaced by what stands for it, and the rest is
      converted on its own. */
  lemma TagBecomes(a: string, t: string, rest: string)
    requires Bare(a) && IsTag(t)
    ensures Unbracketed(a + (t + rest)) == a + (Stands(t) + Unbracketed(rest))
  {
    hide Broken, ReplaceAll, Stripped, IsTag;
    BreaksAreTags();
    BreaksAre(t);
    var more := Broken(rest, BREAKS);
    var items := ReplaceAll(more, ITEM, BULLET);
    BrokenBehind(a, t + rest, BREAKS);
    BrokenTag(t, rest, BREAKS);
    if t in BREAKS {
      ReplaceBehind(a, "\n" + more, ITEM, BULLET);
      ReplaceBehind("\n", more, ITEM, BULLET);
      OutsideStays(a, "\n" + items);
      OutsideStays("\n", items);
    } else {
      ReplaceBehind(a, t + more, ITEM, BULLET);
      ItemsReplaced(t, more);
      if t == "<li>" {
        OutsideStays(a, "• " + items);
        OutsideStays("• ", items);
      } else {
        OutsideStays(a, t + items);
        TagStripped(t, items);
        assert "" + Stripped(items, 0) == Stripped(items, 0);
      }
    }
  }

  lemma {:induction false} TextInside(x: string, s: string, depth: nat)
    requires Bare(x) && depth > 0
    ensures Stripped(x + s, depth) == Stripped(s, depth)
  {
    if x == "" {
      assert x + s == s;
    } else {
      assert (x + s)[1..] == x[1..] + s && x[0] in x;
      TextInside(x[1..], s, depth);
      assert "" + Stripped(s, depth) == Stripped(s, depth);
    }
  }

  /** Brackets inside brackets have to be closed, too, before anything is text again. */
  lemma NestedVanishes(x: string, y: string, z: string, rest: string)
    requires Bare(x) && Bare(y) && Bare(z)
    ensures Stripped("<" + (x + ("<" + (y + (">" + (z + (">" + rest)))))), 0) == Stripped(rest, 0)
  {
    hide Bare;
    var last := ">" + rest;
    var third := ">" + (z + last);
    var second := "<" + (y + third);
    var first := "<" + (x + second);
    assert first[1..] == x + second && second[1..] == y + third && third[1..] == z + last && last[1..] == rest;
    TextInside(x, second, 1);
    TextInside(y, third, 2);
    TextInside(z, last, 1);
  }

  /** A closing bracket without an opening one vanishes by itself. */
  lemma StrayBracket(a: string, rest: string)
    requires Bare(a)
    ensures Unbracketed(a + (">" + rest)) == a + Unbracketed(rest)
  {
    hide Broken, ReplaceAll, Stripped;
    var front := a + ">";
    assert a + (">" + rest) == front + rest;
    var more := Broken(rest, BREAKS);
    var items := ReplaceAll(more, ITEM, BULLET);
    BrokenBehind(front, rest, BREAKS);
    ReplaceBehind(front, more, ITEM, BULLET);
    assert front + items == a + (">" + items);
    OutsideStays(a, ">" + items);
    StrayStripped(items);
  }

  lemma StrayStripped(s: string)
    ensures Stripped(">" + s, 0) == Stripped(s, 0)
  {
    assert (">" + s)[1..] == s;
  }

  // ------------------------------------------------------------- lines

  /** A non-breaking space becomes a space. */
  lemma EntityBecomesSpace(a: string, rest: string)
    requires '&' !in a
    ensures ReplaceAll(a + ("&nbsp;" + rest), NBSP, " ") == a + (" " + ReplaceAll(rest, NBSP, " "))
  {
    hide ReplaceAll;
    ReplaceBehind(a, "&nbsp;" + rest, NBSP, " ");
    ReplaceHere("&nbsp;", rest, " ");
  }

  /** The lines that are not blank. */
  function Filled(lines: seq<string>): seq<string> {
    if lines == [] then [] else (if lines[0] == "" then [] else [lines[0]]) + Filled(lines[1..])
  }

  function CleanEach(lines: seq<string>): (r: seq<string>)
    ensures |r| == |lines| && forall i | 0 <= i < |r| :: r[i] == TrimSpace(ReplaceAll(lines[i], "&nbsp;", " "))
  {
    if lines == [] then [] else [CleanLine(lines[0])] + CleanEach(lines[1..])
  }

  lemma {:induction false} CleanedKeepsLines(lines: seq<string>, previousBlank: bool)
    ensures Filled(Cleaned(lines, previousBlank)) == Filled(CleanEach(lines))
  {
    hide CleanLine;
    if lines != [] {
      var line := CleanLine(lines[0]);
      CleanedKeepsLines(lines[1..], line == "");
      assert CleanEach(lines)[1..] == CleanEach(lines[1..]);
      if line != "" {
        assert Cleaned(lines, previousBlank)[1..] == Cleaned(lines[1..], false);
      } else if !previousBlank {
        assert Cleaned(lines, previousBlank)[1..] == Cleaned(lines[1..], true);
      } else {
        assert [] + Cleaned(lines[1..], true) == Cleaned(lines[1..], true);
      }
    }
  }

  ghost predicate TightEach(lines: seq<string>) {
    forall i | 0 <= i < |lines| :: Tight(lines[i])
  }

  lemma {:induction false} TrimLeftKeepsLines(s: string)
    requires TightEach(Split(s, '\n'))
    ensures Filled(Split(TrimLeft(s), '\n')) == Filled(Split(s, '\n')) && TightEach(Split(TrimLeft(s), '\n'))
  {
    if s != "" && IsSpace(s[0]) {
      var lines := Split(s, '\n');
      assert Tight(lines[0]);
      assert lines == [""] + Split(s[1..], '\n');
      hide Split;
      assert lines[1..] == Split(s[1..], '\n');
      assert forall i | 0 <= i < |lines[1..]| :: lines[1..][i] == lines[i + 1];
      TrimLeftKeepsLines(s[1..]);
    }
  }

  lemma {:induction false} FilledAppended(a: seq<string>, b: seq<string>)
    ensures Filled(a + b) == Filled(a) + Filled(b)
  {
    if a == [] {
      assert a + b == b;
    } else {
      assert (a + b)[1..] == a[1..] + b;
      FilledAppended(a[1..], b);
    }
  }

  lemma {:induction false} TrimRightKeepsLines(s: string)
    requires TightEach(Split(s, '\n'))
    ensures Filled(Split(TrimRight(s), '\n')) == Filled(Split(s, '\n'))
  {
    hide Split;
    if s != "" && IsSpace(s[|s| - 1]) {
      var before, c := s[..|s| - 1], s[|s| - 1];
      assert s == before + [c];
      SplitLast(before, c, '\n');
      var lines, rest := Split(s, '\n'), Split(before, '\n');
      assert Tight(lines[|lines| - 1]);
      assert lines == rest + [""];
      assert forall i | 0 <= i < |rest| :: rest[i] == lines[i];
      FilledAppended(rest, [""]);
      assert Filled([""]) == [];
      TrimRightKeepsLines(before);
    }
  }

  lemma NeatIsTight(lines: seq<string>)
    requires Neat(lines)
    ensures TightEach(lines)
  {
    hide Tight, Lacks;
  }

  /** No line is lost, none is added and none changes its place: the lines of the text that are
      not blank are the cleaned lines of the stripped document that are not blank. */
  lemma LinesAreKept(document: string)
    ensures Filled(Split(PlainText(document), '\n')) == Filled(CleanEach(Split(Unbracketed(document), '\n')))
  {
    hide Unbracketed, Cleaned, Split, Join, Neat, TrimLeft, TrimRight, Tight, TightEach, Filled;
    var parts := Split(Unbracketed(document), '\n');
    var lines := Cleaned(parts, false);
    CleanedKeepsLines(parts, false);
    CleanedIsNeat(parts, false);
    CleanedNotEmpty(parts);
    SplitIs(Unbracketed(document), '\n');
    CleanedAddsNothing(parts, false, '\n');
    SplitJoin(lines, '\n');
    NeatIsTight(lines);
    TrimLeftKeepsLines(Join(lines, '\n'));
    TrimRightKeepsLines(TrimLeft(Join(lines, '\n')));
  }
}
