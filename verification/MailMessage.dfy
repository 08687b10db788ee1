/** A mail with a plain text part and an HTML part, both in base64. */
module MailMessage {
  import opened Basics
  import opened Bytes
  import opened Base64
  import opened Text
  import opened HtmlText

  const CRLF: string := "\r\n"

  const WIDTH: nat := 76

  // ------------------------------------------------------------- lines

  function Terminated(lines: seq<string>): string {
    if lines == [] then "" else lines[0] + CRLF + Terminated(lines[1..])
  }

  function Joined(lines: seq<string>): string {
    if lines == [] then "" else if |lines| == 1 then lines[0] else lines[0] + CRLF + Joined(lines[1..])
  }

  function Concat(lines: seq<string>): string {
    if lines == [] then "" else lines[0] + Concat(lines[1..])
  }

  predicate OneLine(s: string) { '\r' !in s && '\n' !in s }

  predicate OneLineEach(lines: seq<string>) {
    forall k :: 0 <= k < |lines| ==> OneLine(lines[k])
  }

  lemma {:induction false} TerminatedAppends(a: seq<string>, b: seq<string>)
    ensures Terminated(a + b) == Terminated(a) + Terminated(b)
  {
    if a == [] {
      assert a + b == b;
    } else {
      assert (a + b)[1..] == a[1..] + b;
      TerminatedAppends(a[1..], b);
    }
  }

  lemma {:induction false} TerminatedJoined(lines: seq<string>)
    requires lines != []
    ensures Joined(lines) + CRLF == Terminated(lines)
  {
    if |lines| > 1 {
      TerminatedJoined(lines[1..]);
      assert lines[0] + CRLF + Joined(lines[1..]) + CRLF == lines[0] + CRLF + (Joined(lines[1..]) + CRLF);
    }
  }

  // ------------------------------------------------------------- the encoded body

  function Wrapped(encoded: string): (lines: seq<string>)
    ensures lines != []
  {
    if |encoded| > WIDTH then [encoded[..WIDTH]] + Wrapped(encoded[WIDTH..]) else [encoded]
  }

  lemma {:induction false} WrappedIs(encoded: string)
    ensures Concat(Wrapped(encoded)) == encoded
    ensures forall k :: 0 <= k < |Wrapped(encoded)| ==> |Wrapped(encoded)[k]| <= 76
    ensures forall k :: 0 <= k < |Wrapped(encoded)| - 1 ==> |Wrapped(encoded)[k]| == 76
  {
    if |encoded| > WIDTH {
      WrappedIs(encoded[WIDTH..]);
      assert encoded[..WIDTH] + encoded[WIDTH..] == encoded;
    }
  }

  /** A line of base64 digits and padding. */
  predicate EncodedLine(line: string) {
    forall k :: 0 <= k < |line| ==> Encoded(line[k])
  }

  lemma {:induction false} WrappedLines(encoded: string)
    requires EncodedLine(encoded)
    ensures forall k :: 0 <= k < |Wrapped(encoded)| ==> EncodedLine(Wrapped(encoded)[k])
  {
    if |encoded| > WIDTH {
      WrappedLines(encoded[WIDTH..]);
    }
  }

  function BodyLines(body: seq<Byte>): seq<string> { Wrapped(Encode(body)) }

  lemma BodyLinesAre(body: seq<Byte>)
    ensures forall k :: 0 <= k < |BodyLines(body)| ==> EncodedLine(BodyLines(body)[k])
    ensures Decode(Concat(BodyLines(body))) == Bytes(body)
  {
    hide Encode, Decode, Wrapped, Encoded;
    EncodedDigits(body);
    WrappedLines(Encode(body));
    WrappedIs(Encode(body));
    DecodeEncoded(body);
  }

  method EncodeBase64Body(body: seq<Byte>) returns (s: string)
    ensures s == Joined(BodyLines(body))
  {
    var encoded := Encode(body);
    var lines := [];
    while |encoded| > WIDTH
      invariant lines + Wrapped(encoded) == BodyLines(body)
      decreases |encoded|
    {
      assert lines + Wrapped(encoded) == lines + [encoded[..WIDTH]] + Wrapped(encoded[WIDTH..]);
      lines := lines + [encoded[..WIDTH]];
      encoded := encoded[WIDTH..];
    }
    lines := lines + [encoded];
    s := Joined(lines);
  }

  // ------------------------------------------------------------- the headers

  function Spaced(value: string): (r: string)
    ensures '\r' !in r && '\n' !in r && |r| == |value|
    ensures forall i | 0 <= i < |value| :: r[i] == if value[i] == '\r' || value[i] == '\n' then ' ' else value[i]
  {
    if value == "" then ""
    else [if value[0] == '\r' || value[0] == '\n' then ' ' else value[0]] + Spaced(value[1..])
  }

  /** A header takes one line, or none when its value is blank. */
  function HeaderLines(header: Header): seq<string> {
    if TrimSpace(header.1) == "" then [] else [header.0 + ": " + Spaced(header.1)]
  }

  function AllHeaderLines(headers: seq<Header>): seq<string> {
    if headers == [] then []
    else AllHeaderLines(headers[..|headers| - 1]) + HeaderLines(headers[|headers| - 1])
  }

  method WriteHeader(builder: string, name: string, value: string) returns (r: string)
    ensures r == builder + Terminated(HeaderLines((name, value)))
  {
    if TrimSpace(value) == "" {
      assert HeaderLines((name, value)) == [];
      return builder;
    }
    r := builder + (name + ": " + Spaced(value) + CRLF);
    assert HeaderLines((name, value)) == [name + ": " + Spaced(value)];
    assert Terminated(HeaderLines((name, value))) == name + ": " + Spaced(value) + CRLF;
  }

  // ------------------------------------------------------------- the message

  const TEXT_TYPE: string := "Content-Type: text/"
  const CHARSET: string := "; charset=UTF-8"
  const PLAIN_TYPE: string := TEXT_TYPE + "plain" + CHARSET
  const HTML_TYPE: string := TEXT_TYPE + "html" + CHARSET
  const TRANSFER: string := "Content-Transfer-Encoding: base64"

  function Delimiter(boundary: string): string { "--" + boundary }

  function Close(boundary: string): string { "--" + boundary + "--" }

  function PartLines(kind: string, body: seq<Byte>): seq<string> {
    [kind, TRANSFER, ""] + BodyLines(body)
  }

  function MessageLines(headers: seq<Header>, boundary: string, text: seq<Byte>, html: seq<Byte>): seq<string> {
    AllHeaderLines(headers) + [""]
    + ([Delimiter(boundary)] + PartLines(PLAIN_TYPE, text)
       + ([Delimiter(boundary)] + PartLines(HTML_TYPE, html) + [Close(boundary)]))
  }

  lemma PartWritten(kind: string, body: seq<Byte>, boundary: string)
    ensures Terminated([Delimiter(boundary)] + PartLines(kind, body))
         == Delimiter(boundary) + CRLF + (kind + CRLF) + (TRANSFER + CRLF + CRLF) + Joined(BodyLines(body)) + CRLF
  {
    hide BodyLines;
    var head, lines := [Delimiter(boundary), kind, TRANSFER, ""], BodyLines(body);
    assert [Delimiter(boundary)] + PartLines(kind, body) == head + lines;
    TerminatedAppends(head, lines);
    BodyLinesExist(body);
    TerminatedJoined(lines);
    FourLines(Delimiter(boundary), kind, TRANSFER, "");
  }

  lemma BodyLinesExist(body: seq<Byte>)
    ensures BodyLines(body) != []
  {
  }

  lemma FourLines(a: string, b: string, c: string, d: string)
    ensures Terminated([a, b, c, d]) == a + CRLF + (b + CRLF) + (c + CRLF) + (d + CRLF)
  {
    assert [a, b, c, d][1..] == [b, c, d] && [b, c, d][1..] == [c, d] && [c, d][1..] == [d] && [d][1..] == [];
    assert Terminated([d]) == d + CRLF;
    assert Terminated([c, d]) == c + CRLF + (d + CRLF);
    assert Terminated([b, c, d]) == b + CRLF + (c + CRLF + (d + CRLF));
  }

  /** The plain text part: the given text, else the text of the HTML, else a space. */
  function Alternative(text: string, html: string): (r: string)
    ensures r != ""
  {
    if TrimSpace(text) != "" then TrimSpace(text) else if PlainText(html) != "" then PlainText(html) else " "
  }

  method AlternativeText(given: string, html: string) returns (text: string)
    ensures text == Alternative(given, html)
    ensures TrimSpace(given) != "" ==> text == TrimSpace(given)
    ensures TrimSpace(given) == "" ==> text == if PlainText(html) != "" then PlainText(html) else " "
  {
    text := TrimSpace(given);
    if text == "" {
      text := HtmlToText(html);
      PlainTextIsNeat(html);
      TrimOfTight(PlainText(html));
    } else {
      TrimSpaceIs(given);
      TrimOfTight(text);
    }
    if TrimSpace(text) == "" {
      text := " ";
    }
  }

  // ------------------------------------------------------------- building

  type Header = (string, string)

  /** The additional headers are a map in the program, so they come in any order. */
  datatype Mail = Mail(to: string, toName: string, subject: string, html: string, text: string,
                       headers: seq<Header>, replyTo: string, unsubscribe: string, bulk: bool)

  /** The settings of the installation, and what clock and chance contribute. */
  datatype Setting = Setting(system: string, from: string, account: string,
                             date: string, stamp: string, boundary: string)

  type Utf8 = string -> seq<Byte>

  function EncodedText(text: string, utf8: Utf8): string { "=?UTF-8?B?" + Encode(utf8(text)) + "?=" }

  function Address(name: string, address: string, utf8: Utf8): string {
    if TrimSpace(name) == "" then "<" + TrimSpace(address) + ">"
    else EncodedText(name, utf8) + " <" + TrimSpace(address) + ">"
  }

  function Sender(c: Setting): string { if c.from == "" then c.account else c.from }

  function MessageId(c: Setting): Option<string> {
    var parts := Split(c.from, '@');
    if |parts| < 2 then None else Some("<" + c.stamp + "@" + parts[1] + ">")
  }

  function When(condition: bool, headers: seq<Header>): seq<Header> { if condition then headers else [] }

  function PeopleHeaders(m: Mail, c: Setting, utf8: Utf8): seq<Header> {
    [("From", Address(c.system, Sender(c), utf8)), ("To", Address(m.toName, m.to, utf8))]
    + When(m.replyTo != "", [("Reply-To", Address("", m.replyTo, utf8))])
  }

  function FixedHeaders(m: Mail, c: Setting, id: string, utf8: Utf8): seq<Header> {
    [("Subject", EncodedText(m.subject, utf8)), ("Date", c.date), ("Message-ID", id), ("MIME-Version", "1.0"),
     ("Auto-Submitted", "auto-generated"), ("X-Auto-Response-Suppress", "OOF, AutoReply")]
  }

  function ListHeaders(m: Mail): seq<Header> {
    When(m.bulk, [("Precedence", "bulk")])
    + When(m.unsubscribe != "", [("List-Unsubscribe", "<" + m.unsubscribe + ">"),
                                 ("List-Unsubscribe-Post", "List-Unsubscribe=One-Click")])
  }

  /** The headers the program writes before the additional ones. */
  function OwnHeaders(m: Mail, c: Setting, id: string, utf8: Utf8): seq<Header> {
    PeopleHeaders(m, c, utf8) + FixedHeaders(m, c, id, utf8) + ListHeaders(m)
  }

  const KIND: string := "multipart/alternative; "
  const MARK: string := "boundary=\""

  function TypeValue(boundary: string): string { KIND + MARK + boundary + "\"" }

  function Headers(m: Mail, c: Setting, id: string, utf8: Utf8): seq<Header> {
    OwnHeaders(m, c, id, utf8) + m.headers + [("Content-Type", TypeValue(c.boundary))]
  }

  datatype Built = Message(content: string) | ReceiverMissing | NotConfigured | InvalidAccount

  /** The outcome of building a message, as the lines it consists of. */
  function Outcome(m: Mail, c: Setting, utf8: Utf8): Built {
    if TrimSpace(m.to) == "" then ReceiverMissing
    else if Sender(c) == "" then NotConfigured
    else match MessageId(c)
      case None => InvalidAccount
      case Some(id) =>
        Message(Terminated(MessageLines(Headers(m, c, id, utf8), c.boundary, utf8(Alternative(m.text, m.html)), utf8(m.html))))
  }

  lemma HeaderGrows(headers: seq<Header>, h: Header)
    ensures Terminated(AllHeaderLines(headers + [h])) == Terminated(AllHeaderLines(headers)) + Terminated(HeaderLines(h))
  {
    hide HeaderLines, Terminated;
    var more := headers + [h];
    assert more[..|more| - 1] == headers;
    TerminatedAppends(AllHeaderLines(headers), HeaderLines(h));
  }

  /** One more header behind those in `written`. */
  method WriteNext(builder: string, ghost written: seq<Header>, name: string, value: string) returns (r: string)
    requires builder == Terminated(AllHeaderLines(written))
    ensures r == Terminated(AllHeaderLines(written + [(name, value)]))
  {
    hide Terminated, AllHeaderLines, HeaderLines;
    r := WriteHeader(builder, name, value);
    HeaderGrows(written, (name, value));
  }

  method WritePeople(m: Mail, c: Setting, utf8: Utf8) returns (builder: string)
    ensures builder == Terminated(AllHeaderLines(PeopleHeaders(m, c, utf8)))
  {
    hide Terminated, AllHeaderLines, Address;
    NothingTerminated();
    var sender, receiver := Address(c.system, Sender(c), utf8), Address(m.toName, m.to, utf8);
    builder := WriteNext("", [], "From", sender);
    builder := WriteNext(builder, [] + [("From", sender)], "To", receiver);
    ghost var both := [("From", sender), ("To", receiver)];
    assert [] + [("From", sender)] + [("To", receiver)] == both;
    if m.replyTo != "" {
      builder := WriteNext(builder, both, "Reply-To", Address("", m.replyTo, utf8));
    } else {
      assert both + [] == both;
    }
  }

  method WriteFixed(before: string, ghost w: seq<Header>, m: Mail, c: Setting, id: string, utf8: Utf8) returns (builder: string)
    requires before == Terminated(AllHeaderLines(w))
    ensures builder == Terminated(AllHeaderLines(w + FixedHeaders(m, c, id, utf8)))
  {
    hide Terminated, AllHeaderLines, EncodedText;
    ghost var all := FixedHeaders(m, c, id, utf8);
    ghost var w1, w2, w3 := w + [all[0]], w + [all[0]] + [all[1]], w + [all[0]] + [all[1]] + [all[2]];
    ghost var w4, w5 := w3 + [all[3]], w3 + [all[3]] + [all[4]];
    builder := WriteNext(before, w, "Subject", EncodedText(m.subject, utf8));
    builder := WriteNext(builder, w1, "Date", c.date);
    builder := WriteNext(builder, w2, "Message-ID", id);
    builder := WriteNext(builder, w3, "MIME-Version", "1.0");
    builder := WriteNext(builder, w4, "Auto-Submitted", "auto-generated");
    builder := WriteNext(builder, w5, "X-Auto-Response-Suppress", "OOF, AutoReply");
    SixMore(w, all[0], all[1], all[2], all[3], all[4], all[5]);
  }

  lemma SixMore<T>(w: seq<T>, a: T, b: T, c: T, d: T, e: T, f: T)
    ensures w + [a] + [b] + [c] + [d] + [e] + [f] == w + [a, b, c, d, e, f]
  {
  }

  method WriteList(before: string, ghost w: seq<Header>, m: Mail) returns (builder: string)
    requires before == Terminated(AllHeaderLines(w))
    ensures builder == Terminated(AllHeaderLines(w + ListHeaders(m)))
  {
    hide Terminated, AllHeaderLines;
    builder := before;
    ghost var bulk := When(m.bulk, [("Precedence", "bulk")]);
    if m.bulk {
      builder := WriteNext(builder, w, "Precedence", "bulk");
    } else {
      assert w + bulk == w;
    }
    if m.unsubscribe != "" {
      var link := "<" + m.unsubscribe + ">";
      builder := WriteNext(builder, w + bulk, "List-Unsubscribe", link);
      builder := WriteNext(builder, w + bulk + [("List-Unsubscribe", link)], "List-Unsubscribe-Post", "List-Unsubscribe=One-Click");
      TwoMore(w, bulk, ("List-Unsubscribe", link), ("List-Unsubscribe-Post", "List-Unsubscribe=One-Click"));
    } else {
      assert bulk + [] == bulk;
    }
  }

  lemma TwoMore<T>(w: seq<T>, v: seq<T>, a: T, b: T)
    ensures w + v + [a] + [b] == w + (v + [a, b])
  {
  }

  method WriteOwnHeaders(m: Mail, c: Setting, id: string, utf8: Utf8) returns (builder: string)
    ensures builder == Terminated(AllHeaderLines(OwnHeaders(m, c, id, utf8)))
  {
    hide Terminated, AllHeaderLines, PeopleHeaders, FixedHeaders, ListHeaders;
    builder := WritePeople(m, c, utf8);
    builder := WriteFixed(builder, PeopleHeaders(m, c, utf8), m, c, id, utf8);
    builder := WriteList(builder, PeopleHeaders(m, c, utf8) + FixedHeaders(m, c, id, utf8), m);
  }

  lemma NothingTerminated()
    ensures Terminated(AllHeaderLines([])) == ""
  {
  }

  method WriteHeaders(m: Mail, c: Setting, id: string, utf8: Utf8) returns (builder: string)
    ensures builder == Terminated(AllHeaderLines(Headers(m, c, id, utf8)))
  {
    hide Terminated, AllHeaderLines, OwnHeaders, TypeValue;
    builder := WriteOwnHeaders(m, c, id, utf8);
    ghost var own := OwnHeaders(m, c, id, utf8);
    assert own + m.headers[..0] == own;
    for k := 0 to |m.headers|
      invariant builder == Terminated(AllHeaderLines(own + m.headers[..k]))
    {
      builder := WriteNext(builder, own + m.headers[..k], m.headers[k].0, m.headers[k].1);
      assert own + m.headers[..k + 1] == own + m.headers[..k] + [(m.headers[k].0, m.headers[k].1)];
    }
    assert m.headers[..|m.headers|] == m.headers;
    builder := WriteNext(builder, own + m.headers, "Content-Type", TypeValue(c.boundary));
  }

  method BuildMailMessage(m: Mail, c: Setting, utf8: Utf8) returns (r: Built)
    ensures r == Outcome(m, c, utf8)
  {
    hide TrimSpace, Alternative, AllHeaderLines, BodyLines, Joined, Terminated, MessageLines, PartLines, Headers, Split;
    if TrimSpace(m.to) == "" {
      return ReceiverMissing;
    }
    var from := c.from;
    if from == "" {
      from := c.account;
    }
    if from == "" {
      return NotConfigured;
    }
    var split := Split(c.from, '@');
    if |split| < 2 {
      return InvalidAccount;
    }
    var id := "<" + c.stamp + "@" + split[1] + ">";
    var text := AlternativeText(m.text, m.html);
    var builder := WriteHeaders(m, c, id, utf8);
    var first := EncodeBase64Body(utf8(text));
    var second := EncodeBase64Body(utf8(m.html));
    builder := builder + CRLF;
    builder := builder + ("--" + c.boundary + CRLF);
    builder := builder + (PLAIN_TYPE + CRLF);
    builder := builder + (TRANSFER + CRLF + CRLF);
    builder := builder + first;
    builder := builder + (CRLF + "--" + c.boundary + CRLF);
    builder := builder + (HTML_TYPE + CRLF);
    builder := builder + (TRANSFER + CRLF + CRLF);
    builder := builder + second;
    builder := builder + (CRLF + "--" + c.boundary + "--" + CRLF);
    Written(Headers(m, c, id, utf8), c.boundary, utf8(text), utf8(m.html));
    return Message(builder);
  }

  lemma {:induction false} SplitWithout(s: string, sep: char)
    ensures |Split(s, sep)| >= 2 <==> sep in s
  {
    if s != "" {
      SplitWithout(s[1..], sep);
    }
  }

  /** The account is offered as a sender when none is set, but the message id is always made
      from the sender: a message is built exactly when the receiver is named and the sender
      setting contains an at sign, so the account is never used. */
  lemma AccountIsNeverUsed(m: Mail, c: Setting, utf8: Utf8)
    ensures Outcome(m, c, utf8).Message? <==> TrimSpace(m.to) != "" && '@' in c.from
    ensures Outcome(m, c, utf8).Message? ==> Sender(c) == c.from
  {
    hide TrimSpace, Split, Terminated, MessageLines, Headers, Alternative;
    SplitWithout(c.from, '@');
  }

  /** The pieces in the order they are appended make up the lines of the message. */
  lemma Written(headers: seq<Header>, boundary: string, text: seq<Byte>, html: seq<Byte>)
    ensures Terminated(AllHeaderLines(headers)) + CRLF + ("--" + boundary + CRLF) + (PLAIN_TYPE + CRLF) + (TRANSFER + CRLF + CRLF)
            + Joined(BodyLines(text)) + (CRLF + "--" + boundary + CRLF) + (HTML_TYPE + CRLF) + (TRANSFER + CRLF + CRLF)
            + Joined(BodyLines(html)) + (CRLF + "--" + boundary + "--" + CRLF)
         == Terminated(MessageLines(headers, boundary, text, html))
  {
    hide AllHeaderLines, BodyLines, Joined, Terminated, PartLines;
    var top, d := AllHeaderLines(headers), [Delimiter(boundary)];
    var first, second := d + PartLines(PLAIN_TYPE, text), d + PartLines(HTML_TYPE, html);
    TerminatedAppends(top + [""], first + (second + [Close(boundary)]));
    TerminatedAppends(top, [""]);
    TerminatedAppends(first, second + [Close(boundary)]);
    TerminatedAppends(second, [Close(boundary)]);
    PartWritten(PLAIN_TYPE, text, boundary);
    PartWritten(HTML_TYPE, html, boundary);
    OneTerminated("");
    OneTerminated(Close(boundary));
    Regroup(Terminated(top), CRLF, boundary, PLAIN_TYPE + CRLF, TRANSFER + CRLF + CRLF, Joined(BodyLines(text)),
            HTML_TYPE + CRLF, Joined(BodyLines(html)));
  }

  lemma OneTerminated(line: string)
    ensures Terminated([line]) == line + CRLF
  {
    assert [line][1..] == [];
  }

  lemma Regroup(top: string, end: string, b: string, p: string, t: string, first: string, h: string, second: string)
    ensures top + end + ("--" + b + end) + p + t + first + (end + "--" + b + end) + h + t + second + (end + "--" + b + "--" + end)
         == top + ("" + end) + (("--" + b + end + p + t + first + end) + (("--" + b + end + h + t + second + end) + ("--" + b + "--" + end)))
  {
    hide *;
    var d, c := "--" + b + end, "--" + b + "--" + end;
    var a, z := d + p + t + first, d + h + t + second;
    assert "" + end == end;
    Gather(top + end, d, p, t, first);
    assert end + "--" + b + end == end + d && end + "--" + b + "--" + end == end + c;
    Gather(top + end + a, end + d, h, t, second);
    assert end + d + h + t + second == end + z by { Gather(end, d, h, t, second); }
    Nest(top + end, a, end, z, c);
  }

  lemma Gather(x: string, d: string, p: string, t: string, f: string)
    ensures x + d + p + t + f == x + (d + p + t + f)
  {
  }

  lemma Nest(x: string, a: string, end: string, z: string, c: string)
    ensures x + a + (end + z) + (end + c) == x + ((a + end) + ((z + end) + c))
  {
  }
}
