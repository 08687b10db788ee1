/** What the headers of a built message say to somebody who reads its lines. */
module MailHeaders {
  import opened Basics
  import opened Bytes
  import opened Base64
  import opened Text
  import opened MailMessage
  import opened MailReader

  // ------------------------------------------------------------- values

  lemma SpacedAppends(a: string, b: string)
    ensures Spaced(a + b) == Spaced(a) + Spaced(b)
  {
    hide Spaced;
  }

  lemma NotBlank(value: string)
    requires value != "" && !IsSpace(value[0])
    ensures TrimSpace(value) != ""
  {
    hide TrimSpace, IsSpace;
    var a, b := TrimmedIs(value);
    assert a == "" || value[0] == a[0];
  }

  lemma EncodedIsOneLine(bytes: seq<Byte>)
    ensures OneLine(Encode(bytes))
  {
    hide Encode;
    EncodedDigits(bytes);
  }

  /** Where a name and an address can be read: the name from an encoded word, section 2 of
      RFC 2047, the address between angle brackets. */
  ghost predicate NamesAddress(value: string, name: string, address: string, utf8: Utf8) {
    if TrimSpace(name) == "" then value == "<" + Spaced(TrimSpace(address)) + ">"
    else exists e :: value == "=?UTF-8?B?" + e + "?= <" + Spaced(TrimSpace(address)) + ">" && Decode(e) == Bytes(utf8(name))
  }

  lemma AddressIsRead(name: string, address: string, utf8: Utf8)
    ensures NamesAddress(Spaced(Address(name, address, utf8)), name, address, utf8)
    ensures TrimSpace(Address(name, address, utf8)) != ""
  {
    hide TrimSpace, Spaced, Encode, Decode;
    var inner, value := TrimSpace(address), Address(name, address, utf8);
    NotBlank(value);
    SpacedNothing(">");
    SpacedAppends("<", inner);
    SpacedNothing("<");
    SpacedAppends("<" + inner, ">");
    assert Spaced("<" + inner + ">") == "<" + Spaced(inner) + ">";
    if TrimSpace(name) != "" {
      var e := Encode(utf8(name));
      DecodeEncoded(utf8(name));
      EncodedIsOneLine(utf8(name));
      WordIsOneLine(e);
      var word := "=?UTF-8?B?" + e + "?= ";
      assert value == word + ("<" + inner + ">");
      SpacedNothing(word);
      SpacedAppends(word, "<" + inner + ">");
      assert word + ("<" + Spaced(inner) + ">") == "=?UTF-8?B?" + e + "?= <" + Spaced(inner) + ">";
    }
  }

  lemma WordIsOneLine(e: string)
    requires OneLine(e)
    ensures OneLine("=?UTF-8?B?" + e + "?= ") && OneLine("=?UTF-8?B?" + e + "?=")
  {
  }

  lemma TextIsRead(text: string, utf8: Utf8)
    ensures var value := EncodedText(text, utf8);
      && TrimSpace(value) != "" && Spaced(value) == value
      && exists e :: value == "=?UTF-8?B?" + e + "?=" && Decode(e) == Bytes(utf8(text))
  {
    hide TrimSpace, Spaced, Encode, Decode;
    NotBlank(EncodedText(text, utf8));
    DecodeEncoded(utf8(text));
    EncodedIsOneLine(utf8(text));
    WordIsOneLine(Encode(utf8(text)));
    SpacedNothing(EncodedText(text, utf8));
  }

  // ------------------------------------------------------------- lines

  lemma Peel(headers: seq<Header>)
    requires headers != [] && TrimSpace(headers[0].1) != ""
    ensures AllHeaderLines(headers) == [headers[0].0 + ": " + Spaced(headers[0].1)] + AllHeaderLines(headers[1..])
  {
    hide TrimSpace, Spaced, AllHeaderLines;
    assert headers == [headers[0]] + headers[1..];
    AllHeaderLinesAppended([headers[0]], headers[1..]);
    OneHeader(headers[0]);
  }

  lemma {:induction false} LineOf(headers: seq<Header>, h: Header)
    requires h in headers && TrimSpace(h.1) != ""
    ensures h.0 + ": " + Spaced(h.1) in AllHeaderLines(headers)
  {
    hide TrimSpace, Spaced;
    if headers[|headers| - 1] != h {
      LineOf(headers[..|headers| - 1], h);
    }
  }

  /** The lines that say who writes to whom about what: sender, receiver, the address for answers if there is
      one, and the subject, in this order at the top. */
  ghost predicate Addressed(lines: seq<string>, m: Mail, c: Setting, utf8: Utf8) {
    var k := if m.replyTo != "" then 3 else 2;
    && |lines| > k
    && (exists v :: lines[0] == "From: " + v && NamesAddress(v, c.system, c.from, utf8))
    && (exists v :: lines[1] == "To: " + v && NamesAddress(v, m.toName, m.to, utf8))
    && (m.replyTo != "" ==> exists v :: lines[2] == "Reply-To: " + v && NamesAddress(v, "", m.replyTo, utf8))
    && (exists e :: lines[k] == "Subject: =?UTF-8?B?" + e + "?=" && Decode(e) == Bytes(utf8(m.subject)))
  }

  function Line(name: string, value: string): string { name + ": " + Spaced(value) }

  lemma OwnTop(m: Mail, c: Setting, id: string, utf8: Utf8)
    requires Sender(c) == c.from
    ensures var lines, k := AllHeaderLines(OwnHeaders(m, c, id, utf8)), if m.replyTo != "" then 3 else 2;
      && |lines| > k && lines[0] == Line("From", Address(c.system, c.from, utf8)) && lines[1] == Line("To", Address(m.toName, m.to, utf8))
      && (m.replyTo != "" ==> lines[2] == Line("Reply-To", Address("", m.replyTo, utf8)))
      && lines[k] == Line("Subject", EncodedText(m.subject, utf8))
  {
    hide TrimSpace, Spaced, AllHeaderLines, Address, EncodedText, NamesAddress, Decode;
    var own := OwnHeaders(m, c, id, utf8);
    AddressIsRead(c.system, c.from, utf8);
    AddressIsRead(m.toName, m.to, utf8);
    AddressIsRead("", m.replyTo, utf8);
    TextIsRead(m.subject, utf8);
    Peel(own);
    Peel(own[1..]);
    Peel(own[2..]);
    if m.replyTo != "" {
      Peel(own[3..]);
    }
    TopLines(own);
  }

  lemma OwnLinesAddress(m: Mail, c: Setting, id: string, utf8: Utf8)
    requires Sender(c) == c.from
    ensures Addressed(AllHeaderLines(OwnHeaders(m, c, id, utf8)), m, c, utf8)
  {
    hide TrimSpace, Spaced, AllHeaderLines, Address, EncodedText, NamesAddress, Decode, OwnHeaders;
    OwnTop(m, c, id, utf8);
    AddressIsRead(c.system, c.from, utf8);
    AddressIsRead(m.toName, m.to, utf8);
    AddressIsRead("", m.replyTo, utf8);
    TextIsRead(m.subject, utf8);
    SubjectLine(m.subject, utf8);
    assert "From" + ": " == "From: " && "To" + ": " == "To: " && "Reply-To" + ": " == "Reply-To: ";
  }

  lemma TopLines(own: seq<Header>)
    requires |own| > 3
    ensures own[1..][0] == own[1] && own[2..][0] == own[2] && own[3..][0] == own[3]
    ensures own[1..][1..] == own[2..] && own[2..][1..] == own[3..]
  {
  }

  lemma SubjectLine(text: string, utf8: Utf8)
    ensures exists e :: "Subject" + ": " + EncodedText(text, utf8) == "Subject: =?UTF-8?B?" + e + "?=" && Decode(e) == Bytes(utf8(text))
  {
    hide Encode, Decode;
    var e := Encode(utf8(text));
    DecodeEncoded(utf8(text));
    assert "Subject" + ": " + EncodedText(text, utf8) == "Subject: =?UTF-8?B?" + e + "?=";
  }

  /** Who a message is from, whom it is for and what it is about can be read off its first lines. */
  lemma HeadersReadBack(m: Mail, c: Setting, utf8: Utf8)
    requires Outcome(m, c, utf8).Message? && Plain(c.boundary)
    ensures Addressed(LinesOf(Outcome(m, c, utf8).content), m, c, utf8)
  {
    hide LinesOf, Terminated, MessageLines, AllHeaderLines, OwnHeaders, Headers, Additional, Body, TypeLine, Plain,
         Alternative, NamesAddress, Decode;
    AccountIsNeverUsed(m, c, utf8);
    var id := MessageId(c).value;
    BuiltLines(m, c, id, utf8, utf8(Alternative(m.text, m.html)), utf8(m.html));
    OwnLinesAddress(m, c, id, utf8);
  }

  /** The message id ends in the domain of the sender: what follows the first at sign, up to
      a second one if there is any. */
  lemma MessageIdIs(c: Setting, local: string, domain: string, rest: string)
    requires c.from == local + (['@'] + (domain + rest)) && '@' !in local && '@' !in domain && (rest == "" || rest[0] == '@')
    ensures MessageId(c) == Some("<" + c.stamp + "@" + domain + ">")
  {
    hide Split;
    SplitConcat(local, domain + rest, '@');
    SplitOne(local, '@');
    SplitPrefix(domain, rest, '@');
    NothingBefore(rest, '@');
    assert domain + "" == domain;
  }

  lemma NothingBefore(s: string, sep: char)
    requires s == "" || s[0] == sep
    ensures Split(s, sep)[0] == ""
  {
  }

  predicate NotOfAList(headers: seq<Header>) {
    forall h | h in headers :: h.0 != "Precedence" && h.0 != "List-Unsubscribe"
  }

  lemma PeopleNotOfAList(m: Mail, c: Setting, utf8: Utf8)
    ensures NotOfAList(PeopleHeaders(m, c, utf8))
  {
    hide Address;
  }

  lemma FixedNotOfAList(m: Mail, c: Setting, id: string, utf8: Utf8)
    ensures NotOfAList(FixedHeaders(m, c, id, utf8))
  {
    hide EncodedText;
    assert "Message-ID"[0] != "Precedence"[0];
  }

  lemma ListHeadersAre(m: Mail)
    ensures var list := ListHeaders(m);
      && ((exists h :: h in list && h.0 == "Precedence") <==> m.bulk) && (m.bulk ==> ("Precedence", "bulk") in list)
      && ((exists h :: h in list && h.0 == "List-Unsubscribe") <==> m.unsubscribe != "")
      && (m.unsubscribe != "" ==> ("List-Unsubscribe", "<" + m.unsubscribe + ">") in list
                                  && ("List-Unsubscribe-Post", "List-Unsubscribe=One-Click") in list)
  {
    var list := ListHeaders(m);
    if m.bulk {
      assert list[0] == ("Precedence", "bulk");
    }
    if m.unsubscribe != "" {
      assert list[|list| - 2] == ("List-Unsubscribe", "<" + m.unsubscribe + ">");
    }
  }

  lemma FixedPresent(m: Mail, c: Setting, id: string, utf8: Utf8)
    ensures var fixed := FixedHeaders(m, c, id, utf8);
      && ("Message-ID", id) in fixed && ("Date", c.date) in fixed && ("MIME-Version", "1.0") in fixed
      && ("Auto-Submitted", "auto-generated") in fixed && ("X-Auto-Response-Suppress", "OOF, AutoReply") in fixed
  {
    hide EncodedText;
    var fixed := FixedHeaders(m, c, id, utf8);
    assert fixed[1] in fixed && fixed[2] in fixed && fixed[3] in fixed && fixed[4] in fixed && fixed[5] in fixed;
  }

  /** The headers for mail programs: always those that keep automatic answers away, those of a list
      exactly when the message is sent to one. */
  lemma ListHeadersWhen(m: Mail, c: Setting, id: string, utf8: Utf8)
    ensures var own := OwnHeaders(m, c, id, utf8);
      && ("Message-ID", id) in own && ("Date", c.date) in own && ("MIME-Version", "1.0") in own
      && ("Auto-Submitted", "auto-generated") in own && ("X-Auto-Response-Suppress", "OOF, AutoReply") in own
      && ((exists h :: h in own && h.0 == "Precedence") <==> m.bulk) && (m.bulk ==> ("Precedence", "bulk") in own)
      && ((exists h :: h in own && h.0 == "List-Unsubscribe") <==> m.unsubscribe != "")
      && (m.unsubscribe != "" ==> ("List-Unsubscribe", "<" + m.unsubscribe + ">") in own
                                  && ("List-Unsubscribe-Post", "List-Unsubscribe=One-Click") in own)
  {
    hide PeopleHeaders, FixedHeaders, ListHeaders;
    PeopleNotOfAList(m, c, utf8);
    FixedNotOfAList(m, c, id, utf8);
    ListHeadersAre(m);
    FixedPresent(m, c, id, utf8);
  }

  /** Each of them is a line of the message. */
  lemma HeaderIsALine(m: Mail, c: Setting, utf8: Utf8, h: Header)
    requires Outcome(m, c, utf8).Message? && Plain(c.boundary)
    requires h in OwnHeaders(m, c, MessageId(c).value, utf8) && TrimSpace(h.1) != ""
    ensures h.0 + ": " + Spaced(h.1) in LinesOf(Outcome(m, c, utf8).content)
  {
    hide LinesOf, Terminated, MessageLines, AllHeaderLines, OwnHeaders, Headers, Additional, Body, TypeLine, Plain,
         Alternative, TrimSpace, Spaced;
    var id := MessageId(c).value;
    BuiltLines(m, c, id, utf8, utf8(Alternative(m.text, m.html)), utf8(m.html));
    LineOf(OwnHeaders(m, c, id, utf8), h);
  }

  /** The two parts of a message announce themselves as plain text and as HTML in base64. */
  lemma PartsAnnounced(m: Mail, utf8: Utf8)
    ensures var parts := ExpectedParts(m, utf8);
      && |parts| == 2 && |parts[0]| > 3 && |parts[1]| > 3
      && parts[0][0] == "Content-Type: text/plain; charset=UTF-8" && parts[1][0] == "Content-Type: text/html; charset=UTF-8"
      && parts[0][1] == parts[1][1] == "Content-Transfer-Encoding: base64" && parts[0][2] == parts[1][2] == ""
  {
    hide BodyLines, Alternative;
    BodyLinesExist(utf8(Alternative(m.text, m.html)));
    BodyLinesExist(utf8(m.html));
  }
}
