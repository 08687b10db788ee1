/** Reading a message back: its lines, its headers and its parts. */
module MailReader {
  import opened Basics
  import opened Bytes
  import opened Base64
  import opened Text
  import opened HtmlText
  import opened MailMessage

  // ------------------------------------------------------------- lines

  /** Where the first line ends. */
  function LineEnd(s: string): (n: nat)
    ensures n <= |s|
  {
    if |s| < 2 then |s| else if s[0] == '\r' && s[1] == '\n' then 0 else 1 + LineEnd(s[1..])
  }

  function LinesOf(s: string): seq<string>
    decreases |s|
  {
    var n := LineEnd(s);
    if s == "" then [] else if n + 2 > |s| then [s] else [s[..n]] + LinesOf(s[n + 2..])
  }

  lemma {:induction false} LineEndsAt(line: string, rest: string)
    requires OneLine(line)
    ensures LineEnd(line + (CRLF + rest)) == |line|
  {
    var s := line + (CRLF + rest);
    if line != "" {
      assert s[1..] == line[1..] + (CRLF + rest);
      assert line[0] in line;
      LineEndsAt(line[1..], rest);
    }
  }

  /** The end of the first line does not depend on what follows the next line break. */
  lemma {:induction false} LineEndStays(a: string, rest: string)
    ensures var n := LineEnd(a + CRLF);
            LineEnd(a + (CRLF + rest)) == n <= |a| && (n < |a| ==> n + 2 <= |a|)
  {
    if a != "" {
      assert (a + CRLF)[1..] == a[1..] + CRLF;
      assert (a + (CRLF + rest))[1..] == a[1..] + (CRLF + rest);
      LineEndStays(a[1..], rest);
    }
  }

  lemma {:induction false} LinesOfAppended(a: string, rest: string)
    ensures LinesOf(a + (CRLF + rest)) == LinesOf(a + CRLF) + LinesOf(rest)
    decreases |a|
  {
    hide LineEnd;
    LineEndStays(a, rest);
    var s, t, n := a + (CRLF + rest), a + CRLF, LineEnd(a + CRLF);
    assert s[..n] == t[..n];
    if n == |a| {
      assert s[n + 2..] == rest && t[n + 2..] == "";
      assert [t[..n]] + LinesOf("") == [t[..n]];
    } else {
      var b := a[n + 2..];
      assert s[n + 2..] == b + (CRLF + rest) && t[n + 2..] == b + CRLF;
      LinesOfAppended(b, rest);
      assert [s[..n]] + (LinesOf(b + CRLF) + LinesOf(rest)) == [s[..n]] + LinesOf(b + CRLF) + LinesOf(rest);
    }
  }

  /** The lines a reader sees of what was written as a list of lines. */
  function Flat(lines: seq<string>): seq<string> {
    if lines == [] then [] else LinesOf(lines[0] + CRLF) + Flat(lines[1..])
  }

  lemma {:induction false} LinesOfTerminated(lines: seq<string>)
    ensures LinesOf(Terminated(lines)) == Flat(lines)
  {
    hide LinesOf;
    if lines == [] {
      NoLines();
    } else {
      LinesOfTerminated(lines[1..]);
      LinesOfAppended(lines[0], Terminated(lines[1..]));
      assert lines[0] + CRLF + Terminated(lines[1..]) == lines[0] + (CRLF + Terminated(lines[1..]));
    }
  }

  lemma NoLines()
    ensures LinesOf("") == []
  {
  }

  lemma {:induction false} FlatAppended(a: seq<string>, b: seq<string>)
    ensures Flat(a + b) == Flat(a) + Flat(b)
  {
    hide LinesOf;
    if a == [] {
      assert a + b == b;
    } else {
      assert (a + b)[1..] == a[1..] + b;
      FlatAppended(a[1..], b);
    }
  }

  lemma {:induction false} FlatOfLines(lines: seq<string>)
    requires OneLineEach(lines)
    ensures Flat(lines) == lines
  {
    if lines != [] {
      OneLineRead(lines[0]);
      hide LinesOf;
      FlatOfLines(lines[1..]);
    }
  }

  lemma OneLineRead(line: string)
    requires OneLine(line)
    ensures LinesOf(line + CRLF) == [line]
  {
    LineEndsAt(line, "");
    assert line + (CRLF + "") == line + CRLF;
    assert (line + CRLF)[..|line|] == line && (line + CRLF)[|line| + 2..] == "";
  }

  // ------------------------------------------------------------- parts

  predicate IsDelimiter(line: string, boundary: string) { At(line, Delimiter(boundary)) }

  predicate IsClose(line: string, boundary: string) { At(line, Close(boundary)) }

  predicate NoDelimiter(lines: seq<string>, boundary: string) {
    forall k :: 0 <= k < |lines| ==> !IsDelimiter(lines[k], boundary)
  }

  /** How many lines come before the next delimiter. */
  function UntilDelimiter(lines: seq<string>, boundary: string): (n: nat)
    ensures n <= |lines|
  {
    if lines == [] || IsDelimiter(lines[0], boundary) then 0 else 1 + UntilDelimiter(lines[1..], boundary)
  }

  /** The parts of a multipart body, section 5.1.1 of RFC 2046. */
  function Parts(lines: seq<string>, boundary: string): seq<seq<string>>
    decreases |lines|
  {
    if lines == [] || IsClose(lines[0], boundary) then []
    else if !IsDelimiter(lines[0], boundary) then Parts(lines[1..], boundary)
    else
      var n := UntilDelimiter(lines[1..], boundary);
      [lines[1..][..n]] + Parts(lines[1..][n..], boundary)
  }

  /** What follows the blank line after the headers, of a message or of a part. */
  function AfterBlank(lines: seq<string>): seq<string> {
    if lines == [] then [] else if lines[0] == "" then lines[1..] else AfterBlank(lines[1..])
  }

  /** Line breaks inside a base64 body are ignored, section 6.8 of RFC 2045. */
  function PartContent(part: seq<string>): Decoded { Decode(Concat(AfterBlank(part))) }

  lemma {:induction false} NextPart(delimiter: string, part: seq<string>, rest: seq<string>, boundary: string)
    requires IsDelimiter(delimiter, boundary) && !IsClose(delimiter, boundary)
    requires NoDelimiter(part, boundary) && rest != [] && IsDelimiter(rest[0], boundary)
    ensures Parts([delimiter] + part + rest, boundary) == [part] + Parts(rest, boundary)
  {
    hide IsDelimiter, IsClose;
    var lines := [delimiter] + part + rest;
    assert lines[1..] == part + rest;
    Until(part, rest, boundary);
    assert (part + rest)[..|part|] == part && (part + rest)[|part|..] == rest;
  }

  lemma {:induction false} Until(part: seq<string>, rest: seq<string>, boundary: string)
    requires NoDelimiter(part, boundary) && rest != [] && IsDelimiter(rest[0], boundary)
    ensures UntilDelimiter(part + rest, boundary) == |part|
  {
    hide IsDelimiter;
    if part != [] {
      assert (part + rest)[1..] == part[1..] + rest;
      Until(part[1..], rest, boundary);
    }
  }

  lemma {:induction false} SkipToBlank(top: seq<string>, rest: seq<string>)
    requires forall k :: 0 <= k < |top| ==> top[k] != ""
    ensures AfterBlank(top + [""] + rest) == rest
  {
    var lines := top + [""] + rest;
    if top == [] {
      assert lines[1..] == rest;
    } else {
      assert lines[1..] == top[1..] + [""] + rest;
      SkipToBlank(top[1..], rest);
    }
  }

  lemma Delimits(boundary: string)
    ensures IsDelimiter(Delimiter(boundary), boundary) && !IsClose(Delimiter(boundary), boundary)
    ensures IsDelimiter(Close(boundary), boundary) && IsClose(Close(boundary), boundary)
  {
    assert Close(boundary)[..|Delimiter(boundary)|] == Delimiter(boundary);
  }

  /** A line that does not begin with a dash cannot delimit anything. */
  lemma DashNeeded(line: string, boundary: string)
    requires line == "" || line[0] != '-'
    ensures !IsDelimiter(line, boundary)
  {
    var d := Delimiter(boundary);
    assert d[0] == '-';
    if |line| >= |d| {
      assert line[..|d|][0] == line[0];
    }
  }

  lemma BodyLinesAreSafe(body: seq<Byte>, boundary: string)
    ensures NoDelimiter(BodyLines(body), boundary) && OneLineEach(BodyLines(body))
  {
    hide BodyLines, IsDelimiter;
    BodyLinesAre(body);
    forall k | 0 <= k < |BodyLines(body)|
      ensures !IsDelimiter(BodyLines(body)[k], boundary) && OneLine(BodyLines(body)[k])
    {
      assert EncodedLine(BodyLines(body)[k]);
      DashNeeded(BodyLines(body)[k], boundary);
    }
  }

  lemma FixedLines()
    ensures OneLine(PLAIN_TYPE) && OneLine(HTML_TYPE) && OneLine(TRANSFER) && OneLine("")
    ensures PLAIN_TYPE != "" && HTML_TYPE != "" && TRANSFER != ""
    ensures PLAIN_TYPE[0] != '-' && HTML_TYPE[0] != '-' && TRANSFER[0] != '-'
  {
    PlainTypeIs();
    HtmlTypeIs();
    TransferIs();
  }

  lemma PlainTypeIs()
    ensures OneLine(PLAIN_TYPE) && PLAIN_TYPE != "" && PLAIN_TYPE[0] != '-'
  {
    TextTypeIs();
    assert OneLine("plain") && PLAIN_TYPE[0] == TEXT_TYPE[0];
  }

  lemma HtmlTypeIs()
    ensures OneLine(HTML_TYPE) && HTML_TYPE != "" && HTML_TYPE[0] != '-'
  {
    TextTypeIs();
    assert OneLine("html") && HTML_TYPE[0] == TEXT_TYPE[0];
  }

  lemma TextTypeIs()
    ensures OneLine(TEXT_TYPE) && OneLine(CHARSET) && TEXT_TYPE != "" && TEXT_TYPE[0] == 'C'
  {
  }

  lemma TransferIs()
    ensures OneLine(TRANSFER) && TRANSFER != "" && TRANSFER[0] != '-'
  {
  }

  predicate IsKind(kind: string) { OneLine(kind) && kind != "" && kind[0] != '-' }

  lemma PartReadsBack(kind: string, body: seq<Byte>, boundary: string)
    requires IsKind(kind)
    ensures NoDelimiter(PartLines(kind, body), boundary) && OneLineEach(PartLines(kind, body))
    ensures PartContent(PartLines(kind, body)) == Bytes(body)
  {
    hide BodyLines, IsDelimiter, Decode, Concat;
    var part, top, lines := PartLines(kind, body), [kind, TRANSFER], BodyLines(body);
    FixedLines();
    BodyLinesAre(body);
    BodyLinesAreSafe(body, boundary);
    assert part == top + [""] + lines;
    SkipToBlank(top, lines);
    DashNeeded(kind, boundary);
    DashNeeded(TRANSFER, boundary);
    DashNeeded("", boundary);
  }

  // ------------------------------------------------------------- the boundary

  /** The header lines: everything before the first blank line. */
  function TopOf(lines: seq<string>): seq<string> {
    if lines == [] || lines[0] == "" then [] else [lines[0]] + TopOf(lines[1..])
  }

  function LowerChar(c: char): char { if 'A' <= c <= 'Z' then (c as int + 32) as char else c }

  const CONTENT_TYPE: string := "content-type:"

  /** The name of a header does not depend on case. */
  predicate IsContentType(line: string) {
    |line| >= 13 && forall i :: 0 <= i < 13 ==> LowerChar(line[i]) == CONTENT_TYPE[i]
  }

  function AfterMark(s: string): Option<string> {
    if At(s, MARK) then Some(s[|MARK|..]) else if s == "" then None else AfterMark(s[1..])
  }

  function UntilQuote(s: string): Option<string> {
    if s == "" then None
    else if s[0] == '\"' then Some("")
    else match UntilQuote(s[1..])
      case None => None
      case Some(rest) => Some([s[0]] + rest)
  }

  /** The boundary a content type names, in quotes. */
  function BoundaryIn(line: string): Option<string> {
    match AfterMark(line)
    case None => None
    case Some(rest) => UntilQuote(rest)
  }

  predicate HasType(top: seq<string>) {
    exists k :: 0 <= k < |top| && IsContentType(top[k])
  }

  /** The first content type counts. */
  function BoundaryOf(top: seq<string>): Option<string> {
    if top == [] then None
    else if IsContentType(top[0]) then BoundaryIn(top[0])
    else BoundaryOf(top[1..])
  }

  function FoundBoundary(message: string): Option<string> { BoundaryOf(TopOf(LinesOf(message))) }

  /** What a reader makes of a message without knowing anything about it. */
  function Read(message: string): Option<seq<seq<string>>> {
    match FoundBoundary(message)
    case None => None
    case Some(boundary) => Some(Parts(AfterBlank(LinesOf(message)), boundary))
  }

  lemma {:induction false} MarkIsFound(p: string, rest: string)
    requires 'b' !in p
    ensures AfterMark(p + (MARK + rest)) == Some(rest)
  {
    var s := p + (MARK + rest);
    if p == "" {
      assert s == MARK + rest && s[..|MARK|] == MARK && s[|MARK|..] == rest;
    } else {
      assert s[0] == p[0] != MARK[0];
      AtFirst(s, MARK);
      assert s[1..] == p[1..] + (MARK + rest);
      MarkIsFound(p[1..], rest);
    }
  }

  lemma {:induction false} QuoteIsFound(b: string)
    requires '\"' !in b
    ensures UntilQuote(b + "\"") == Some(b)
  {
    var s := b + "\"";
    if b != "" {
      assert s[1..] == b[1..] + "\"";
      QuoteIsFound(b[1..]);
      assert [b[0]] + b[1..] == b;
    } else {
      assert s == "\"";
    }
  }

  lemma {:induction false} NoQuote(s: string)
    requires '\"' !in s
    ensures UntilQuote(s) == None
  {
    if s != "" {
      NoQuote(s[1..]);
    }
  }

  lemma {:induction false} MarkKeepsNone(s: string)
    requires '\"' !in s
    ensures AfterMark(s).Some? ==> '\"' !in AfterMark(s).value
  {
    if !At(s, MARK) && s != "" {
      MarkKeepsNone(s[1..]);
    }
  }

  // ------------------------------------------------------------- the headers of a built message

  function TypeLine(boundary: string): string { "Content-Type: " + TypeValue(boundary) }

  /** Nothing in it that ends a line or a quotation. */
  predicate Plain(boundary: string) { '\r' !in boundary && '\n' !in boundary && '\"' !in boundary }

  lemma {:induction false} SpacedNothing(value: string)
    requires '\r' !in value && '\n' !in value
    ensures Spaced(value) == value
  {
    if value != "" {
      SpacedNothing(value[1..]);
      assert [value[0]] + value[1..] == value;
    }
  }

  lemma KindIs()
    ensures '\r' !in KIND && '\n' !in KIND && 'b' !in KIND && KIND != "" && !IsSpace(KIND[0])
  {
  }

  lemma MarkIs()
    ensures '\r' !in MARK && '\n' !in MARK && 'b' !in "Content-Type: " && '\r' !in "Content-Type: "
  {
  }

  lemma TypeIsWritten(boundary: string)
    requires Plain(boundary)
    ensures HeaderLines(("Content-Type", TypeValue(boundary))) == [TypeLine(boundary)]
    ensures OneLine(TypeLine(boundary)) && TypeLine(boundary) != ""
  {
    hide TrimSpace, Spaced;
    KindIs();
    MarkIs();
    var value := TypeValue(boundary);
    assert value == KIND + MARK + boundary + "\"";
    assert '\r' !in value && '\n' !in value;
    SpacedNothing(value);
    assert value[0] == KIND[0] && value[|value| - 1] == '\"';
    TrimOfTight(value);
    assert "Content-Type" + ": " == "Content-Type: ";
  }

  lemma TypeIsRead(boundary: string)
    requires Plain(boundary)
    ensures IsContentType(TypeLine(boundary)) && BoundaryIn(TypeLine(boundary)) == Some(boundary)
  {
    hide AfterMark, UntilQuote;
    KindIs();
    MarkIs();
    var p := "Content-Type: " + KIND;
    assert TypeLine(boundary) == p + (MARK + (boundary + "\""));
    assert 'b' !in p;
    MarkIsFound(p, boundary + "\"");
    QuoteIsFound(boundary);
    IsAType(TypeValue(boundary));
  }

  lemma IsAType(value: string)
    ensures IsContentType("Content-Type: " + value)
  {
    var name := "Content-Type: ";
    assert forall i :: 0 <= i < 13 ==> (name + value)[i] == name[i];
    assert forall i :: 0 <= i < 13 ==> LowerChar(name[i]) == CONTENT_TYPE[i];
  }

  predicate OwnLine(line: string) { OneLine(line) && line != "" && !IsContentType(line) }

  /** A header with a name on one line that is not a content type. */
  predicate Ordinary(h: Header) { OneLine(h.0) && !IsContentType(h.0 + ":") }

  lemma NameDecides(name: string, value: string)
    ensures IsContentType(name + ": " + value) <==> IsContentType(name + ":")
  {
    var line, short := name + ": " + value, name + ":";
    assert |name| < 13 && |line| >= 13 ==> line[|name|] == ':' && LowerChar(line[|name|]) == ':';
    assert forall i :: 0 <= i < |short| ==> line[i] == short[i];
    assert |name| < 12 ==> CONTENT_TYPE[|name|] != ':';
  }

  predicate AllOwn(headers: seq<Header>) {
    forall k :: 0 <= k < |headers| ==> Ordinary(headers[k])
  }

  predicate AllOwnLines(lines: seq<string>) {
    forall k :: 0 <= k < |lines| ==> OwnLine(lines[k])
  }

  lemma {:induction false} OwnLinesOf(headers: seq<Header>)
    requires AllOwn(headers)
    ensures AllOwnLines(AllHeaderLines(headers))
  {
    hide TrimSpace;
    if headers != [] {
      OwnLinesOf(headers[..|headers| - 1]);
      var last := headers[|headers| - 1];
      var line := last.0 + ": " + Spaced(last.1);
      assert Ordinary(last);
      NameDecides(last.0, Spaced(last.1));
      hide IsContentType;
      assert OwnLine(line);
    }
  }

  lemma NotAType(name: string, value: string)
    requires OneLine(name) && name != "" && LowerChar(name[0]) != 'c'
    ensures Ordinary((name, value))
  {
    assert (name + ":")[0] == name[0];
  }

  lemma PeopleAreOwn(m: Mail, c: Setting, utf8: Utf8)
    ensures AllOwn(PeopleHeaders(m, c, utf8))
  {
    hide Ordinary, Address;
    var headers := PeopleHeaders(m, c, utf8);
    NotAType("From", headers[0].1);
    NotAType("To", headers[1].1);
    NotAType("Reply-To", Address("", m.replyTo, utf8));
  }

  lemma FixedAreOwn(m: Mail, c: Setting, id: string, utf8: Utf8)
    ensures AllOwn(FixedHeaders(m, c, id, utf8))
  {
    hide Ordinary, EncodedText;
    ShortNames(EncodedText(m.subject, utf8), c.date, id, "1.0");
    AutomaticNames("auto-generated", "OOF, AutoReply");
  }

  lemma ShortNames(a: string, b: string, c: string, d: string)
    ensures Ordinary(("Subject", a)) && Ordinary(("Date", b)) && Ordinary(("Message-ID", c)) && Ordinary(("MIME-Version", d))
  {
    hide Ordinary;
    NotAType("Subject", a);
    NotAType("Date", b);
    NotAType("Message-ID", c);
    NotAType("MIME-Version", d);
  }

  lemma AutomaticNames(a: string, b: string)
    ensures Ordinary(("Auto-Submitted", a)) && Ordinary(("X-Auto-Response-Suppress", b))
  {
    hide Ordinary;
    NotAType("Auto-Submitted", a);
    NotAType("X-Auto-Response-Suppress", b);
  }

  lemma ListNames(a: string, b: string, c: string)
    ensures Ordinary(("Precedence", a)) && Ordinary(("List-Unsubscribe", b)) && Ordinary(("List-Unsubscribe-Post", c))
  {
    hide Ordinary;
    NotAType("Precedence", a);
    NotAType("List-Unsubscribe", b);
    NotAType("List-Unsubscribe-Post", c);
  }

  lemma ListAreOwn(m: Mail)
    ensures AllOwn(ListHeaders(m))
  {
    hide Ordinary;
    ListNames("bulk", "<" + m.unsubscribe + ">", "List-Unsubscribe=One-Click");
  }

  lemma OwnHeadersAre(m: Mail, c: Setting, id: string, utf8: Utf8)
    ensures AllOwn(OwnHeaders(m, c, id, utf8))
  {
    hide Ordinary, PeopleHeaders, FixedHeaders, ListHeaders;
    PeopleAreOwn(m, c, utf8);
    FixedAreOwn(m, c, id, utf8);
    ListAreOwn(m);
  }

  lemma {:induction false} AllHeaderLinesAppended(a: seq<Header>, b: seq<Header>)
    ensures AllHeaderLines(a + b) == AllHeaderLines(a) + AllHeaderLines(b)
  {
    hide HeaderLines;
    if b == [] {
      assert a + b == a;
    } else {
      var n := |b| - 1;
      assert (a + b)[..|a + b| - 1] == a + b[..n] && (a + b)[|a + b| - 1] == b[n];
      AllHeaderLinesAppended(a, b[..n]);
    }
  }

  /** The lines a reader sees of the additional headers. Values are cleaned of line breaks,
      names are not. */
  function Additional(headers: seq<Header>): seq<string> { Flat(AllHeaderLines(headers)) }

  function Body(boundary: string, text: seq<Byte>, html: seq<Byte>): seq<string> {
    [Delimiter(boundary)] + PartLines(PLAIN_TYPE, text)
    + ([Delimiter(boundary)] + PartLines(HTML_TYPE, html) + [Close(boundary)])
  }

  lemma BodyIsLines(boundary: string, text: seq<Byte>, html: seq<Byte>)
    requires Plain(boundary)
    ensures OneLineEach(Body(boundary, text, html))
  {
    hide PartLines;
    FixedLines();
    PartReadsBack(PLAIN_TYPE, text, boundary);
    PartReadsBack(HTML_TYPE, html, boundary);
  }

  lemma OwnAreLines(lines: seq<string>)
    requires AllOwnLines(lines)
    ensures OneLineEach(lines) && "" !in lines && !HasType(lines)
  {
    hide IsContentType;
  }

  /** The lines of a built message. */
  lemma BuiltLines(m: Mail, c: Setting, id: string, utf8: Utf8, text: seq<Byte>, html: seq<Byte>)
    requires Plain(c.boundary)
    ensures LinesOf(Terminated(MessageLines(Headers(m, c, id, utf8), c.boundary, text, html)))
         == AllHeaderLines(OwnHeaders(m, c, id, utf8)) + (Additional(m.headers) + [TypeLine(c.boundary)])
            + [""] + Body(c.boundary, text, html)
  {
    hide LinesOf, Terminated, AllHeaderLines, OwnHeaders, Flat, PartLines, HeaderLines, TypeLine, TypeValue, Plain, OwnLine;
    var own, more := OwnHeaders(m, c, id, utf8), m.headers;
    var last: Header := ("Content-Type", TypeValue(c.boundary));
    var top, ours := AllHeaderLines(own), TypeLine(c.boundary);
    LinesOfTerminated(MessageLines(Headers(m, c, id, utf8), c.boundary, text, html));
    AllHeaderLinesAppended(own + more, [last]);
    AllHeaderLinesAppended(own, more);
    OneHeader(last);
    TypeIsWritten(c.boundary);
    BodyIsLines(c.boundary, text, html);
    OwnHeadersAre(m, c, id, utf8);
    OwnLinesOf(own);
    OwnAreLines(top);
    FixedLines();
    FlatPieces(top, AllHeaderLines(more), [ours], Body(c.boundary, text, html));
  }

  lemma OneHeader(h: Header)
    ensures AllHeaderLines([h]) == HeaderLines(h)
  {
    assert [h][..0] == [];
    assert AllHeaderLines([]) == [];
  }

  lemma {:induction false} FlatPieces(top: seq<string>, more: seq<string>, ours: seq<string>, body: seq<string>)
    requires OneLineEach(top) && OneLineEach(ours) && OneLineEach(body) && OneLine("")
    ensures Flat(top + more + ours + [""] + body) == top + (Flat(more) + ours) + [""] + body
  {
    hide Flat, OneLine;
    FlatAppended(top + more + ours + [""], body);
    FlatAppended(top + more + ours, [""]);
    FlatAppended(top + more, ours);
    FlatAppended(top, more);
    FlatOfLines(top);
    FlatOfLines(ours);
    FlatOfLines([""]);
    FlatOfLines(body);
    assert top + Flat(more) + ours == top + (Flat(more) + ours);
  }

  // ------------------------------------------------------------- what the reader finds

  lemma {:induction false} TopAppended(a: seq<string>, b: seq<string>)
    ensures TopOf(a + b) == if "" in a then TopOf(a) else a + TopOf(b)
  {
    if a == [] {
      assert a + b == b;
    } else {
      assert (a + b)[1..] == a[1..] + b;
      TopAppended(a[1..], b);
    }
  }

  lemma {:induction false} BoundaryAppended(a: seq<string>, b: seq<string>)
    ensures BoundaryOf(a + b) == if HasType(a) then BoundaryOf(a) else BoundaryOf(b)
  {
    hide IsContentType;
    if a == [] {
      assert a + b == b;
    } else {
      assert (a + b)[1..] == a[1..] + b;
      BoundaryAppended(a[1..], b);
      assert HasType(a) <==> IsContentType(a[0]) || HasType(a[1..]) by { TypeFirst(a); }
    }
  }

  lemma TypeFirst(a: seq<string>)
    requires a != []
    ensures HasType(a) <==> IsContentType(a[0]) || HasType(a[1..])
  {
    hide IsContentType;
    if HasType(a[1..]) {
      var k :| 0 <= k < |a[1..]| && IsContentType(a[1..][k]);
      assert a[k + 1] == a[1..][k];
    }
    forall k | 0 < k < |a| && IsContentType(a[k])
      ensures HasType(a[1..])
    {
      assert a[1..][k - 1] == a[k];
    }
  }

  /** The additional headers leave the content type to the program: before any blank line they
      bring none of their own, or one with the same boundary, and no blank line if none. */
  predicate LeavesTheType(lines: seq<string>, boundary: string) {
    if HasType(TopOf(lines)) then BoundaryOf(TopOf(lines)) == Some(boundary) else "" !in lines
  }

  lemma {:induction false} TopIs(lines: seq<string>)
    requires "" !in lines
    ensures TopOf(lines) == lines
  {
    if lines != [] {
      TopIs(lines[1..]);
    }
  }

  lemma BoundaryBehind(more: seq<string>, boundary: string, rest: seq<string>)
    requires Plain(boundary)
    ensures BoundaryOf(TopOf(more + [TypeLine(boundary)] + [""] + rest)) == Some(boundary) <==> LeavesTheType(more, boundary)
  {
    hide IsContentType, HasType, BoundaryIn, TypeLine;
    var ours := [TypeLine(boundary)];
    assert more + ours + [""] + rest == more + (ours + ([""] + rest));
    TopAppended(more, ours + ([""] + rest));
    TypeIsWritten(boundary);
    TypeIsRead(boundary);
    assert TopOf(ours + ([""] + rest)) == ours by {
      TopAppended(ours, [""] + rest);
      assert ours + [] == ours;
    }
    if "" !in more {
      TopIs(more);
      BoundaryAppended(more, ours);
    } else {
      BoundaryAppended(TopOf(more), []);
      assert TopOf(more) + [] == TopOf(more);
    }
  }

  /** A reader finds the boundary of a built message in its headers exactly when the additional
      headers leave the content type alone. */
  lemma BoundaryIsFoundWhen(m: Mail, c: Setting, id: string, utf8: Utf8, text: seq<Byte>, html: seq<Byte>)
    requires Plain(c.boundary)
    ensures FoundBoundary(Terminated(MessageLines(Headers(m, c, id, utf8), c.boundary, text, html))) == Some(c.boundary)
            <==> LeavesTheType(Additional(m.headers), c.boundary)
  {
    hide LinesOf, Terminated, MessageLines, AllHeaderLines, OwnHeaders, Additional, Body, TopOf, BoundaryOf, Plain, OwnLine,
         LeavesTheType, HasType, TypeLine;
    var top, more, ours := AllHeaderLines(OwnHeaders(m, c, id, utf8)), Additional(m.headers), [TypeLine(c.boundary)];
    var body := Body(c.boundary, text, html);
    BuiltLines(m, c, id, utf8, text, html);
    OwnHeadersAre(m, c, id, utf8);
    OwnLinesOf(OwnHeaders(m, c, id, utf8));
    OwnAreLines(top);
    assert top + (more + ours) + [""] + body == top + (more + ours + [""] + body);
    TopAppended(top, more + ours + [""] + body);
    BoundaryAppended(top, TopOf(more + ours + [""] + body));
    BoundaryBehind(more, c.boundary, body);
  }

  /** Additional headers that bring neither a blank line nor a content type of their own. */
  predicate Harmless(headers: seq<Header>, boundary: string) {
    "" !in Additional(headers) && LeavesTheType(Additional(headers), boundary)
  }

  lemma BodyReadsBack(boundary: string, text: seq<Byte>, html: seq<Byte>)
    ensures Parts(Body(boundary, text, html), boundary) == [PartLines(PLAIN_TYPE, text), PartLines(HTML_TYPE, html)]
    ensures PartContent(PartLines(PLAIN_TYPE, text)) == Bytes(text) && PartContent(PartLines(HTML_TYPE, html)) == Bytes(html)
  {
    hide PartLines, IsDelimiter, IsClose, PartContent;
    var d, c := Delimiter(boundary), Close(boundary);
    var first, second := PartLines(PLAIN_TYPE, text), PartLines(HTML_TYPE, html);
    FixedLines();
    PartReadsBack(PLAIN_TYPE, text, boundary);
    PartReadsBack(HTML_TYPE, html, boundary);
    Delimits(boundary);
    NextPart(d, first, [d] + second + [c], boundary);
    NextPart(d, second, [c], boundary);
    assert Parts([c], boundary) == [];
  }

  function ExpectedParts(m: Mail, utf8: Utf8): seq<seq<string>> {
    [PartLines(PLAIN_TYPE, utf8(Alternative(m.text, m.html))), PartLines(HTML_TYPE, utf8(m.html))]
  }

  /** When the additional headers bring no blank line, the body is what follows the headers. */
  lemma BodyFollows(m: Mail, c: Setting, utf8: Utf8)
    requires Outcome(m, c, utf8).Message? && Plain(c.boundary) && "" !in Additional(m.headers)
    ensures AfterBlank(LinesOf(Outcome(m, c, utf8).content)) == Body(c.boundary, utf8(Alternative(m.text, m.html)), utf8(m.html))
    ensures FoundBoundary(Outcome(m, c, utf8).content) == Some(c.boundary) <==> LeavesTheType(Additional(m.headers), c.boundary)
  {
    hide LinesOf, Terminated, MessageLines, AllHeaderLines, OwnHeaders, Headers, Additional, Body, TypeLine, Plain,
         LeavesTheType, OwnLine, Alternative, FoundBoundary, AfterBlank;
    var id := MessageId(c).value;
    var text, html := utf8(Alternative(m.text, m.html)), utf8(m.html);
    var top, more := AllHeaderLines(OwnHeaders(m, c, id, utf8)), Additional(m.headers);
    BoundaryIsFoundWhen(m, c, id, utf8, text, html);
    BuiltLines(m, c, id, utf8, text, html);
    OwnHeadersAre(m, c, id, utf8);
    OwnLinesOf(OwnHeaders(m, c, id, utf8));
    OwnAreLines(top);
    TypeIsWritten(c.boundary);
    SkipToBlank(top + (more + [TypeLine(c.boundary)]), Body(c.boundary, text, html));
  }

  /** Whatever the receiver, the subject, the addresses, the values of the headers and the two
      bodies are: a reader that knows nothing but the message finds exactly the two parts, and
      their contents are the bytes of the plain text and of the HTML. */
  lemma MessageReadsBack(m: Mail, c: Setting, utf8: Utf8)
    requires Outcome(m, c, utf8).Message? && Plain(c.boundary) && Harmless(m.headers, c.boundary)
    ensures Read(Outcome(m, c, utf8).content) == Some(ExpectedParts(m, utf8))
    ensures PartContent(ExpectedParts(m, utf8)[0]) == Bytes(utf8(Alternative(m.text, m.html)))
    ensures PartContent(ExpectedParts(m, utf8)[1]) == Bytes(utf8(m.html))
  {
    hide Outcome, LinesOf, Additional, Body, Parts, Plain, LeavesTheType, PartContent, PartLines, Alternative, FoundBoundary, AfterBlank;
    BodyFollows(m, c, utf8);
    BodyReadsBack(c.boundary, utf8(Alternative(m.text, m.html)), utf8(m.html));
  }

  // ------------------------------------------------------------- and when it does not

  /** No two dashes in a row, and none at the end. */
  predicate Tame(boundary: string) {
    forall i :: 0 <= i < |boundary| && boundary[i] == '-' ==> i + 1 < |boundary| && boundary[i + 1] != '-'
  }

  predicate Alphanumeric(s: string) {
    forall i :: 0 <= i < |s| ==> '0' <= s[i] <= '9' || 'A' <= s[i] <= 'Z' || 'a' <= s[i] <= 'z'
  }

  /** The boundaries the program makes of the time and a random string. */
  lemma GeneratedIsTame(time: string, random: string)
    requires Alphanumeric(time) && Alphanumeric(random) && time != "" && random != ""
    ensures var boundary := "byog-" + time + "-" + random; Plain(boundary) && Tame(boundary)
  {
    var boundary, n := "byog-" + time + "-" + random, 5 + |time|;
    assert forall i :: 0 <= i < |time| ==> boundary[5 + i] == time[i];
    assert forall i :: 0 <= i < |random| ==> boundary[n + 1 + i] == random[i];
    assert boundary[5] == time[0] && boundary[n + 1] == random[0];
    forall i | 0 <= i < |boundary|
      ensures boundary[i] == '-' ==> i == 4 || i == n
      ensures boundary[i] != '\r' && boundary[i] != '\n' && boundary[i] != '\"'
    {
      if 5 <= i < n {
        assert boundary[i] == time[i - 5];
      } else if n < i {
        assert boundary[i] == random[i - n - 1];
      }
    }
  }

  lemma CloseIsDelimiter(line: string, boundary: string)
    requires IsClose(line, boundary)
    ensures IsDelimiter(line, boundary)
  {
    var c, d := Close(boundary), Delimiter(boundary);
    assert c[..|d|] == d;
    assert line[..|d|] == line[..|c|][..|d|];
  }

  lemma {:induction false} QuietLines(lines: seq<string>, rest: seq<string>, boundary: string)
    requires NoDelimiter(lines, boundary)
    ensures Parts(lines + rest, boundary) == Parts(rest, boundary)
  {
    hide IsDelimiter, IsClose;
    if lines == [] {
      assert lines + rest == rest;
    } else {
      assert (lines + rest)[1..] == lines[1..] + rest && (lines + rest)[0] == lines[0];
      if IsClose(lines[0], boundary) {
        CloseIsDelimiter(lines[0], boundary);
      }
      QuietLines(lines[1..], rest, boundary);
    }
  }

  /** The delimiters of a message seen by a reader with another boundary. */
  lemma SeenDelimiters(x: string, b: string)
    requires Tame(b) && x != b
    ensures !IsClose(Delimiter(b), x) && !IsClose(Close(b), x)
    ensures IsDelimiter(Delimiter(b), x) <==> At(b, x)
    ensures At(b, x) ==> IsDelimiter(Close(b), x)
  {
    var d, c, e := Delimiter(b), Close(b), Close(x);
    var n := |x|;
    PrefixOfBoth("--", b, x);
    if At(b, x) {
      assert n < |b| by { assert b[..|b|] == b; }
      assert c[..2 + n] == "--" + b[..n];
      assert b[n] == '-' ==> n + 1 < |b| && b[n + 1] != '-';
      assert c[2 + n] == b[n] && (n + 1 < |b| ==> c[3 + n] == b[n + 1]);
      NotClosed(c, x);
      assert |d| >= 4 + n ==> d[2 + n] == b[n] && d[3 + n] == b[n + 1];
      NotClosed(d, x);
    } else {
      NotClosedElsewhere(b, x);
    }
  }

  lemma PrefixOfBoth(p: string, b: string, x: string)
    ensures At(p + b, p + x) <==> At(b, x)
  {
    if |x| <= |b| {
      assert (p + b)[..|p + x|] == p + b[..|x|];
      assert (p + b)[..|p + x|][|p|..] == b[..|x|] && (p + x)[|p|..] == x;
    }
  }

  /** A line without two dashes behind the boundary does not close it. */
  lemma NotClosed(line: string, x: string)
    requires |line| >= 4 + |x| ==> line[2 + |x|] != '-' || line[3 + |x|] != '-'
    ensures !IsClose(line, x)
  {
    var e := Close(x);
    assert e[2 + |x|] == '-' && e[3 + |x|] == '-';
    if |line| >= |e| {
      assert line[..|e|][2 + |x|] == line[2 + |x|] && line[..|e|][3 + |x|] == line[3 + |x|];
    }
  }

  lemma NotClosedElsewhere(b: string, x: string)
    requires !At(b, x)
    ensures !IsClose(Delimiter(b), x) && !IsClose(Close(b), x)
  {
    var d, c, e := Delimiter(b), Close(b), Close(x);
    if |x| <= |b| {
      assert e[2..2 + |x|] == x;
      assert c[2..2 + |x|] == b[..|x|] && d[2..2 + |x|] == b[..|x|];
      if |e| <= |c| {
        assert c[..|e|][2..2 + |x|] == c[2..2 + |x|];
      }
      if |e| <= |d| {
        assert d[..|e|][2..2 + |x|] == d[2..2 + |x|];
      }
    }
  }

  /** With any other boundary a reader does not find two parts. */
  lemma OtherBoundary(x: string, b: string, text: seq<Byte>, html: seq<Byte>)
    requires Tame(b) && x != b
    ensures |Parts(Body(b, text, html), x)| != 2
  {
    hide PartLines, IsDelimiter, IsClose, PartContent, Tame, At;
    var d, c := Delimiter(b), Close(b);
    var first, second := PartLines(PLAIN_TYPE, text), PartLines(HTML_TYPE, html);
    FixedLines();
    PartReadsBack(PLAIN_TYPE, text, x);
    PartReadsBack(HTML_TYPE, html, x);
    SeenDelimiters(x, b);
    assert [c][1..] == [];
    if At(b, x) {
      NextPart(d, first, [d] + second + [c], x);
      NextPart(d, second, [c], x);
      assert |Parts([c], x)| == 1;
    } else {
      var quiet := [d] + first + ([d] + second);
      assert Body(b, text, html) == quiet + [c];
      QuietLines(quiet, [c], x);
      assert |Parts([c], x)| <= 1;
    }
  }

  /** As long as the additional headers bring no blank line, a reader gets the two parts exactly
      when they leave the content type alone. */
  lemma ReadsBackWhen(m: Mail, c: Setting, utf8: Utf8)
    requires Outcome(m, c, utf8).Message? && Plain(c.boundary) && Tame(c.boundary) && "" !in Additional(m.headers)
    ensures Read(Outcome(m, c, utf8).content) == Some(ExpectedParts(m, utf8)) <==> LeavesTheType(Additional(m.headers), c.boundary)
  {
    hide Outcome, LinesOf, Additional, Body, Parts, Plain, Tame, LeavesTheType, PartContent, PartLines, Alternative, FoundBoundary, AfterBlank;
    BodyFollows(m, c, utf8);
    if LeavesTheType(Additional(m.headers), c.boundary) {
      MessageReadsBack(m, c, utf8);
    } else if FoundBoundary(Outcome(m, c, utf8).content).Some? {
      OtherBoundary(FoundBoundary(Outcome(m, c, utf8).content).value, c.boundary, utf8(Alternative(m.text, m.html)), utf8(m.html));
    }
  }

  /** Names on one line bring no blank line. */
  lemma {:induction false} OneLineNames(headers: seq<Header>)
    requires forall k :: 0 <= k < |headers| ==> OneLine(headers[k].0)
    ensures OneLineEach(AllHeaderLines(headers)) && "" !in AllHeaderLines(headers) && "" !in Additional(headers)
  {
    hide TrimSpace, Flat;
    if headers != [] {
      var last := headers[|headers| - 1];
      OneLineNames(headers[..|headers| - 1]);
      assert OneLine(last.0 + ": " + Spaced(last.1));
    }
    FlatOfLines(AllHeaderLines(headers));
  }

  /** Ordinary additional headers are harmless, whatever their values are. */
  lemma OrdinaryIsHarmless(headers: seq<Header>, boundary: string)
    requires AllOwn(headers)
    ensures Harmless(headers, boundary)
  {
    hide Ordinary, OwnLine, HasType, BoundaryOf;
    OwnLinesOf(headers);
    OwnAreLines(AllHeaderLines(headers));
    FlatOfLines(AllHeaderLines(headers));
    TopIs(AllHeaderLines(headers));
  }

  /** An additional content type without a quoted boundary hides the parts from the reader. */
  lemma AdditionalTypeHidesTheParts(m: Mail, c: Setting, utf8: Utf8, value: string)
    requires Outcome(m, c, utf8).Message? && Plain(c.boundary)
    requires m.headers == [("Content-Type", value)] && TrimSpace(value) != "" && '\"' !in value
    ensures FoundBoundary(Outcome(m, c, utf8).content) != Some(c.boundary)
  {
    hide LinesOf, Terminated, MessageLines, Headers, Alternative, FoundBoundary, TrimSpace, HasType, BoundaryOf, IsContentType;
    var line := "Content-Type: " + Spaced(value);
    TypeTakesALine(value);
    OneHeader(("Content-Type", value));
    FlatOfLines([line]);
    TopIs([line]);
    OneType(line);
    BoundaryIsFoundWhen(m, c, MessageId(c).value, utf8, utf8(Alternative(m.text, m.html)), utf8(m.html));
  }

  lemma OneType(line: string)
    requires IsContentType(line)
    ensures HasType([line]) && BoundaryOf([line]) == BoundaryIn(line)
  {
    assert IsContentType([line][0]);
  }

  lemma TypeTakesALine(value: string)
    requires TrimSpace(value) != "" && '\"' !in value
    ensures var line := "Content-Type: " + Spaced(value);
            && HeaderLines(("Content-Type", value)) == [line] && OneLine(line) && line != ""
            && IsContentType(line) && BoundaryIn(line) == None
  {
    hide TrimSpace, AfterMark, UntilQuote, Spaced, IsContentType;
    var line := "Content-Type: " + Spaced(value);
    assert "Content-Type" + ": " == "Content-Type: ";
    KindIs();
    MarkIs();
    SpacedKeepsQuotes(value);
    IsAType(Spaced(value));
    assert '\"' !in "Content-Type: ";
    assert '\"' !in line;
    MarkKeepsNone(line);
    if AfterMark(line).Some? {
      NoQuote(AfterMark(line).value);
    }
  }

  lemma {:induction false} SpacedKeepsQuotes(value: string)
    requires '\"' !in value
    ensures '\"' !in Spaced(value)
  {
    if value != "" {
      SpacedKeepsQuotes(value[1..]);
    }
  }
}
