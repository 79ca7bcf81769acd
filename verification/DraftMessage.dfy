// The mail message behind a draft, before it is base64-encoded for the provider
// (src/gmail/client/drafts.rs): a header block and a body in the format of RFC 5322.
module DraftMessage {
  import opened EncodedWords
  import opened Texts
  import opened Wrappers

  const CRLF: string := "\r\n"

  // --- Newlines -----------------------------------------------------------------------------------

  // Replacing every occurrence of a pattern, from the left, without overlaps.
  function Replace(s: string, pattern: string, replacement: string): string
    requires pattern != ""
    decreases |s|
  {
    if s == "" then ""
    else if pattern <= s then replacement + Replace(s[|pattern|..], pattern, replacement)
    else [s[0]] + Replace(s[1..], pattern, replacement)
  }

  // The three passes of encode_message over the body.
  function ThreePasses(s: string): string {
    Replace(Replace(Replace(s, "\r\n", "\n"), "\r", "\n"), "\n", "\r\n")
  }

  // One pass: each CRLF, lone CR or lone LF becomes CRLF.
  function Normalized(s: string): string
    decreases |s|
  {
    if s == "" then ""
    else if CRLF <= s then CRLF + Normalized(s[2..])
    else if s[0] == '\r' || s[0] == '\n' then CRLF + Normalized(s[1..])
    else [s[0]] + Normalized(s[1..])
  }

  // Every CR is followed by an LF and every LF preceded by a CR.
  predicate NoLoneNewline(s: string) {
    && (forall i | 0 <= i < |s| :: s[i] == '\r' ==> i + 1 < |s| && s[i + 1] == '\n')
    && (forall i | 0 <= i < |s| :: s[i] == '\n' ==> i > 0 && s[i - 1] == '\r')
  }

  lemma {:induction false} ThreePassesAreOne(s: string)
    ensures ThreePasses(s) == Normalized(s)
    decreases |s|
  {
    if s != "" {
      if CRLF <= s {
        ThreePassesAreOne(s[2..]);
        ReplaceHead('\n', Replace(s[2..], "\r\n", "\n"), "\r", "\n");
        ReplaceMatch(Replace(Replace(s[2..], "\r\n", "\n"), "\r", "\n"));
      } else {
        ThreePassesAreOne(s[1..]);
        var rest := Replace(s[1..], "\r\n", "\n");
        if s[0] == '\r' {
          assert "\r" <= ['\r'] + rest && (['\r'] + rest)[1..] == rest;
          ReplaceMatch(Replace(rest, "\r", "\n"));
        } else {
          ReplaceHead(s[0], rest, "\r", "\n");
          if s[0] == '\n' {
            ReplaceMatch(Replace(rest, "\r", "\n"));
          } else {
            ReplaceHead(s[0], Replace(rest, "\r", "\n"), "\n", "\r\n");
          }
        }
      }
    }
  }

  lemma ReplaceHead(c: char, rest: string, pattern: string, replacement: string)
    requires |pattern| == 1 && pattern[0] != c
    ensures Replace([c] + rest, pattern, replacement) == [c] + Replace(rest, pattern, replacement)
  {
    assert ([c] + rest)[1..] == rest;
  }

  lemma ReplaceMatch(rest: string)
    ensures Replace("\n" + rest, "\n", "\r\n") == "\r\n" + Replace(rest, "\n", "\r\n")
  {
    assert ("\n" + rest)[1..] == rest;
  }

  lemma {:induction false} NormalizedHasNoLoneNewline(s: string)
    ensures NoLoneNewline(Normalized(s))
    ensures Normalized(s) == "" || Normalized(s)[0] != '\n'
    decreases |s|
  {
    if s != "" {
      if CRLF <= s {
        NormalizedHasNoLoneNewline(s[2..]);
        assert Normalized(s) == CRLF + Normalized(s[2..]);
      } else {
        NormalizedHasNoLoneNewline(s[1..]);
      }
    }
  }

  // The normal forms are exactly the texts without lone newlines, so normalizing twice changes nothing.
  lemma {:induction false} NormalFormIsFixed(s: string)
    requires NoLoneNewline(s)
    ensures Normalized(s) == s
    decreases |s|
  {
    if s != "" {
      if CRLF <= s {
        Dropped(s, 2);
        NormalFormIsFixed(s[2..]);
        assert s == CRLF + s[2..];
      } else {
        assert s[0] != '\r' && s[0] != '\n';
        Dropped(s, 1);
        NormalFormIsFixed(s[1..]);
      }
    }
  }

  lemma Dropped(s: string, n: nat)
    requires NoLoneNewline(s) && 0 < n <= |s| && s[n - 1] != '\r'
    ensures NoLoneNewline(s[n..])
  {
  }

  lemma {:induction false} NormalizedIffNoLoneNewline(s: string)
    ensures Normalized(s) == s <==> NoLoneNewline(s)
    ensures Normalized(Normalized(s)) == Normalized(s)
  {
    NormalizedHasNoLoneNewline(s);
    NormalFormIsFixed(Normalized(s));
    if NoLoneNewline(s) {
      NormalFormIsFixed(s);
    }
  }

  // --- Printing and parsing -----------------------------------------------------------------------

  function HeaderLine(h: Header): string {
    h.name + ": " + h.value + CRLF
  }

  function HeaderBlock(headers: seq<Header>): string {
    if headers == [] then "" else HeaderLine(headers[0]) + HeaderBlock(headers[1..])
  }

  // A message as section 2.1 of RFC 5322 lays it out.
  function Message(headers: seq<Header>, body: string): string {
    HeaderBlock(headers) + CRLF + Normalized(body)
  }

  lemma OneMoreLine(before: string, headers: seq<Header>, i: nat)
    requires i < |headers|
    ensures before + HeaderBlock(headers[i..]) == before + HeaderLine(headers[i]) + HeaderBlock(headers[i + 1..])
  {
    assert headers[i..][1..] == headers[i + 1..];
  }

  method EncodeMessage(headers: seq<Header>, body: string) returns (message: string)
    ensures message == Message(headers, body)
  {
    message := "";
    var i := 0;
    while i < |headers|
      invariant 0 <= i <= |headers|
      invariant message + HeaderBlock(headers[i..]) == HeaderBlock(headers)
    {
      ghost var before := message;
      OneMoreLine(before, headers, i);
      message := message + headers[i].name;
      message := message + ": ";
      message := message + headers[i].value;
      message := message + CRLF;
      assert message == before + HeaderLine(headers[i]);
      i := i + 1;
    }
    assert HeaderBlock(headers[i..]) == "";
    message := message + CRLF;
    ThreePassesAreOne(body);
    message := message + Replace(Replace(Replace(body, "\r\n", "\n"), "\r", "\n"), "\n", "\r\n");
  }

  // Where a line ends: the position of the first CRLF.
  function LineEnd(s: string): Option<nat> {
    if |s| < 2 then None
    else if CRLF <= s then Some(0)
    else
      var rest := LineEnd(s[1..]);
      if rest.None? then None else Some(rest.value + 1)
  }

  function ColonAt(line: string): (n: nat)
    ensures n <= |line|
  {
    if line == "" || line[0] == ':' then 0 else 1 + ColonAt(line[1..])
  }

  // A reader of messages: header lines up to the first empty line, then the body as it stands.
  function ParseMessage(s: string): Option<(seq<Header>, string)>
    decreases |s|
  {
    var end := LineEnd(s);
    if end.None? || end.value + 2 > |s| then None
    else if end.value == 0 then Some(([], s[2..]))
    else
      var line := s[..end.value];
      var colon := ColonAt(line);
      if colon == 0 || colon + 2 > |line| || line[colon + 1] != ' ' then None
      else
        var rest := ParseMessage(s[end.value + 2..]);
        if rest.None? then None
        else Some(([Header(line[..colon], line[colon + 2..])] + rest.value.0, rest.value.1))
  }

  // A field name as section 2.2 of RFC 5322 allows it.
  predicate FieldName(name: string) {
    name != "" && forall i | 0 <= i < |name| :: '!' <= name[i] <= '~' && name[i] != ':'
  }

  predicate PrintableHeader(h: Header) {
    FieldName(h.name) && NoControl(h.value)
  }

  ghost predicate Printable(headers: seq<Header>) {
    forall i | 0 <= i < |headers| :: PrintableHeader(headers[i])
  }

  lemma {:induction false} LineEndAt(line: string, rest: string)
    requires NoControl(line)
    ensures LineEnd(line + CRLF + rest) == Some(|line|)
  {
    var s := line + CRLF + rest;
    if line != "" {
      assert s[0] == line[0];
      assert s[1..] == line[1..] + CRLF + rest;
      LineEndAt(line[1..], rest);
    }
  }

  lemma {:induction false} ColonAfterName(name: string, value: string)
    requires forall i | 0 <= i < |name| :: name[i] != ':'
    ensures ColonAt(name + ": " + value) == |name|
  {
    var line := name + ": " + value;
    if name != "" {
      assert line[0] == name[0];
      assert line[1..] == name[1..] + ": " + value;
      ColonAfterName(name[1..], value);
    }
  }

  lemma HeaderReadsBack(h: Header, rest: string)
    requires PrintableHeader(h)
    ensures ParseMessage(HeaderLine(h) + rest) ==
            if ParseMessage(rest).None? then None
            else Some(([h] + ParseMessage(rest).value.0, ParseMessage(rest).value.1))
  {
    var s := HeaderLine(h) + rest;
    var line := h.name + ": " + h.value;
    assert s == line + CRLF + rest;
    LineEndAt(line, rest);
    ColonAfterName(h.name, h.value);
    assert s[..|line|] == line && s[|line| + 2..] == rest;
    assert line[..|h.name|] == h.name && line[|h.name| + 2..] == h.value;
  }

  // Reading back what was printed gives exactly the headers, and the body with its newlines normalized.
  lemma {:induction false} MessageRoundTrip(headers: seq<Header>, body: string)
    requires Printable(headers)
    ensures ParseMessage(Message(headers, body)) == Some((headers, Normalized(body)))
    decreases |headers|
  {
    var s := Message(headers, body);
    if headers == [] {
      assert s == "" + CRLF + Normalized(body);
      LineEndAt("", Normalized(body));
      assert s[2..] == Normalized(body);
    } else {
      var rest := Message(headers[1..], body);
      assert s == HeaderLine(headers[0]) + rest;
      HeaderReadsBack(headers[0], rest);
      MessageRoundTrip(headers[1..], body);
      assert [headers[0]] + headers[1..] == headers;
    }
  }

  // --- The headers of a draft ---------------------------------------------------------------------

  // Non-ASCII text travels as one encoded word (section 2 of RFC 2047), whatever its length.
  function MimeHeader(value: string): string {
    if IsAscii(value) then value else WordToken("UTF-8", "B", Base64(Utf8(value)))
  }

  function TextHeaders(to: string, subject: string): seq<Header> {
    [
      Header("To", to), Header("Subject", MimeHeader(subject)), Header("MIME-Version", "1.0"),
      Header("Content-Type", "text/plain; charset=UTF-8"), Header("Content-Transfer-Encoding", "8bit")
    ]
  }

  // The first header of that name, whatever its letter case.
  function Find(headers: seq<Header>, name: string): Option<string> {
    if headers == [] then None
    else if Lower(headers[0].name) == Lower(name) then Some(headers[0].value)
    else Find(headers[1..], name)
  }

  function ReplySubject(subject: string): string {
    if "re:" <= Lower(Trim(subject)) then subject else "Re: " + subject
  }

  // The headers of a reply, built from those of the message it answers; refused when a needed one is missing
  // or one that would be copied holds a control character.
  function ReplyHeaders(source: seq<Header>): Result<seq<Header>, string> {
    var replyTo := Find(source, "Reply-To");
    var recipient := if replyTo.Some? then replyTo else Find(source, "From");
    var found := Find(source, "Subject");
    var subject := if found.Some? then found.value else "";
    var messageId := Find(source, "Message-ID");
    var prior := Find(source, "References");
    if recipient.None? then Err("no reply recipient")
    else if !NoControl(recipient.value) || !NoControl(subject) then Err("invalid reply header")
    else if messageId.None? then Err("no Message-ID")
    else
      var references := if prior.Some? then prior.value + " " + messageId.value else messageId.value;
      if !NoControl(messageId.value) || !NoControl(references) then Err("invalid reply header")
      else Ok(TextHeaders(recipient.value, ReplySubject(subject))
              + [Header("In-Reply-To", messageId.value), Header("References", references)])
  }

  // The whole reply to a message with those headers, unless they refuse one.
  function ReplyMessage(source: seq<Header>, body: string): Option<string> {
    var headers := ReplyHeaders(source);
    if headers.Ok? then Some(Message(headers.value, body)) else None
  }

  lemma NoControlJoins(s: string, t: string)
    requires NoControl(s) && NoControl(t)
    ensures NoControl(s + t)
  {
  }

  lemma TokenHasNoControl(charset: string, encoding: string, text: string)
    requires NoControl(charset) && NoControl(encoding) && NoControl(text)
    ensures NoControl(WordToken(charset, encoding, text))
  {
    NoControlJoins(text, "?" + "=");
    NoControlJoins("?", text + ("?" + "="));
    NoControlJoins(encoding, "?" + (text + ("?" + "=")));
    NoControlJoins("?", encoding + ("?" + (text + ("?" + "="))));
    NoControlJoins(charset, "?" + (encoding + ("?" + (text + ("?" + "=")))));
    NoControlJoins("=?", charset + ("?" + (encoding + ("?" + (text + ("?" + "="))))));
  }

  lemma MimeHeaderStaysPrintable(value: string)
    requires NoControl(value)
    ensures NoControl(MimeHeader(value))
  {
    if !IsAscii(value) {
      TokenHasNoControl("UTF-8", "B", Base64(Utf8(value)));
    }
  }

  lemma VariableNames()
    ensures FieldName("To") && FieldName("Subject") && FieldName("In-Reply-To") && FieldName("References")
  {
  }

  lemma PrintableParts(name: string, value: string)
    requires FieldName(name) && NoControl(value)
    ensures PrintableHeader(Header(name, value))
  {
  }

  lemma FixedNames()
    ensures FieldName("MIME-Version") && FieldName("Content-Type") && FieldName("Content-Transfer-Encoding")
  {
  }

  lemma FixedValues()
    ensures NoControl("1.0") && NoControl("text/plain; charset=UTF-8") && NoControl("8bit")
  {
  }

  lemma FixedHeaders()
    ensures PrintableHeader(Header("MIME-Version", "1.0"))
    ensures PrintableHeader(Header("Content-Type", "text/plain; charset=UTF-8"))
    ensures PrintableHeader(Header("Content-Transfer-Encoding", "8bit"))
  {
    FixedNames();
    FixedValues();
    PrintableParts("MIME-Version", "1.0");
    PrintableParts("Content-Type", "text/plain; charset=UTF-8");
    PrintableParts("Content-Transfer-Encoding", "8bit");
  }

  lemma TextHeadersPrintable(to: string, subject: string)
    requires NoControl(to) && NoControl(subject)
    ensures Printable(TextHeaders(to, subject))
  {
    MimeHeaderStaysPrintable(subject);
    FixedHeaders();
    VariableNames();
    assert PrintableHeader(Header("To", to)) && PrintableHeader(Header("Subject", MimeHeader(subject)));
  }

  // --- What a mail reader shows of a subject ------------------------------------------------------

  lemma OwnNames()
    ensures NamesUtf8("UTF-8", "B", "b") && NamesUtf8("utf-8", "B", "b") && NamesUtf8("UTF-8", "Q", "q")
  {
  }

  lemma OwnWordSize(charset: string, encoding: string, bytes: string)
    requires IsBytes(bytes) && |charset| == 5 && |encoding| == 1
    ensures |WordToken(charset, encoding, Base64(bytes))| <= MAX_WORD <==> |bytes| <= MAX_WORD_BYTES
  {
    TokenSize(charset, encoding, Base64(bytes));
    Base64Size(bytes);
  }

  lemma OwnWordForm(charset: string, encoding: string, bytes: string)
    requires IsBytes(bytes) && NoBlank(charset) && NoBlank(encoding) && IsAscii(charset) && IsAscii(encoding)
    ensures var word := WordToken(charset, encoding, Base64(bytes)); word != "" && NoBlank(word) && IsAscii(word)
  {
    Base64Alphabet(bytes);
    TokenHasNoBlank(charset, encoding, Base64(bytes));
    TokenIsAscii(charset, encoding, Base64(bytes));
  }

  // The one word that a non-ASCII subject is sent as.
  lemma OwnWord(subject: string)
    requires !IsAscii(subject)
    ensures var word := MimeHeader(subject);
            && word != "" && NoBlank(word) && IsAscii(word)
            && (|word| <= MAX_WORD <==> |Utf8(subject)| <= MAX_WORD_BYTES)
  {
    OwnWordSize("UTF-8", "B", Utf8(subject));
    OwnWordForm("UTF-8", "B", Utf8(subject));
  }

  // When a reader shows a subject as it was given: an ASCII subject, exactly when it finds no word in it; any
  // other, exactly when it takes at most 45 bytes, so that its one word is within the limit for words, or the
  // reader decodes it regardless.
  lemma SubjectShown(subject: string, reader: Reader)
    requires Admissible(reader)
    ensures Shown(MimeHeader(subject), reader) == subject <==>
            if IsAscii(subject) then !HasWord(Pieces(subject), reader)
            else |Utf8(subject)| <= 45 || reader(MimeHeader(subject)) == Some(subject)
  {
    if IsAscii(subject) {
      ShownAsGiven(subject, reader);
    } else {
      OwnWord(subject);
      if |Utf8(subject)| <= MAX_WORD_BYTES {
        OwnNames();
        Base64WordShown("UTF-8", "B", subject, reader);
      } else {
        TokenShown(MimeHeader(subject), reader);
      }
    }
  }

  // What can be told whatever the reader: a subject in which no word begins is shown as given by all of them, one with
  // a well-formed UTF-8 word by none.
  lemma SubjectForEveryReader(subject: string, reader: Reader)
    requires Admissible(reader) && IsAscii(subject)
    ensures !HasOpening(subject) ==> Shown(MimeHeader(subject), reader) == subject
    ensures HasWord(Pieces(subject), Strict()) ==> Shown(MimeHeader(subject), reader) != subject
  {
    SubjectShown(subject, reader);
    if !HasOpening(subject) {
      NoOpeningNoWord(subject, reader);
    }
    if HasWord(Pieces(subject), Strict()) {
      var i :| 0 <= i < |Pieces(subject)| && IsWord(Pieces(subject)[i], Strict());
      assert IsWord(Pieces(subject)[i], reader);
    }
  }

  // The reader that decodes nothing else.
  function Strict(): Reader {
    _ => None
  }

  // A non-ASCII subject of more than 45 bytes is shown by such a reader as the broker's own word.
  lemma LongSubjectMisread(subject: string)
    requires !IsAscii(subject) && |Utf8(subject)| > 45
    ensures Shown(MimeHeader(subject), Strict()) == MimeHeader(subject) != subject
  {
    OwnWord(subject);
    TokenShown(MimeHeader(subject), Strict());
    assert IsAscii(MimeHeader(subject));
  }

  lemma AsciiJoins(s: string, t: string)
    requires IsAscii(s) && IsAscii(t)
    ensures IsAscii(s + t)
  {
  }

  lemma TokenIsAscii(charset: string, encoding: string, text: string)
    requires IsAscii(charset) && IsAscii(encoding) && IsAscii(text)
    ensures IsAscii(WordToken(charset, encoding, text))
  {
    AsciiJoins(text, "?" + "=");
    AsciiJoins("?", text + ("?" + "="));
    AsciiJoins(encoding, "?" + (text + ("?" + "=")));
    AsciiJoins("?", encoding + ("?" + (text + ("?" + "="))));
    AsciiJoins(charset, "?" + (encoding + ("?" + (text + ("?" + "=")))));
    AsciiJoins("=?", charset + ("?" + (encoding + ("?" + (text + ("?" + "="))))));
  }

  // Subjects that no reader shows as given: the base64 word of every nonempty text of up to 45 bytes, in any letter
  // case of its names (OwnNames has two) ...
  lemma SubjectMisread(charset: string, encoding: string, text: string, reader: Reader)
    requires NamesUtf8(charset, encoding, "b") && IsAscii(charset) && IsAscii(encoding)
    requires 0 < |Utf8(text)| <= MAX_WORD_BYTES
    ensures var subject := WordToken(charset, encoding, Base64(Utf8(text)));
            IsAscii(subject) && HasWord(Pieces(subject), reader) && Shown(MimeHeader(subject), reader) == text
  {
    Base64WordShown(charset, encoding, text, reader);
    TokenIsAscii(charset, encoding, Base64(Utf8(text)));
  }

  // ... every Q word of up to 63 letters and digits ...
  lemma QSubjectMisread(charset: string, encoding: string, text: string, reader: Reader)
    requires NamesUtf8(charset, encoding, "q") && IsAscii(charset) && IsAscii(encoding)
    requires 0 < |text| <= 63 && Alphanumeric(text)
    ensures var subject := WordToken(charset, encoding, text);
            IsAscii(subject) && HasWord(Pieces(subject), reader) && Shown(MimeHeader(subject), reader) == text
  {
    QWordShown(charset, encoding, text, reader);
    TokenIsAscii(charset, encoding, text);
  }

  // ... and the subject of the reply to a message with such a subject: the word is passed on and decoded behind
  // the prefix.
  lemma ReplyMisread(word: string, text: string, reader: Reader)
    requires Admissible(reader)
    requires IsAscii(word) && word != "" && word[0] == '=' && NoBlank(word) && WordText(word, reader) == Some(text)
    ensures var subject := ReplySubject(word);
            && IsAscii(subject) && HasWord(Pieces(subject), reader)
            && Shown(MimeHeader(subject), reader) == ReplyPrefix() + (" " + text)
  {
    ReplyToWord(word);
    PrefixIsNoWord(reader);
    WordAfterText(ReplyPrefix(), word, text, reader);
  }

  lemma ReplyToWord(word: string)
    requires IsAscii(word) && word != "" && word[0] == '='
    ensures ReplySubject(word) == ReplyPrefix() + (" " + word)
    ensures IsAscii(ReplySubject(word)) && MimeHeader(ReplySubject(word)) == ReplySubject(word)
  {
    WordIsNoReply(word);
    assert "Re: " + word == ReplyPrefix() + (" " + word);
    AsciiJoins(" ", word);
    AsciiJoins(ReplyPrefix(), " " + word);
  }

  function ReplyPrefix(): string {
    "Re:"
  }

  lemma PrefixIsNoWord(reader: Reader)
    requires Admissible(reader)
    ensures ReplyPrefix() != "" && NoBlank(ReplyPrefix()) && WordText(ReplyPrefix(), reader).None?
  {
    assert ParseWord(ReplyPrefix()).None? && !HasOpening(ReplyPrefix());
  }

  lemma WordIsNoReply(word: string)
    requires word != "" && word[0] == '='
    ensures ReplySubject(word) == "Re: " + word
  {
    assert TrimStart(word) == word;
    TrimEndKeeps(word, 1);
    assert Trim(word)[..1] == word[..1];
    assert Trim(word)[0] == '=';
    assert Lower(Trim(word))[0] == '=';
  }

  lemma Regroup(a: string, b: string, c: string)
    ensures a + (b + c) == (a + b) + c
  {
  }

  // The word's parts in one row.
  lemma TokenSpelled(charset: string, encoding: string, text: string)
    ensures WordToken(charset, encoding, text) == "=?" + charset + "?" + encoding + "?" + text + "?="
  {
    var end := "?" + "=";
    assert end == "?=";
    var word := text + end;
    Regroup("=?", charset, "?" + (encoding + ("?" + word)));
    Regroup("=?" + charset, "?", encoding + ("?" + word));
    Regroup("=?" + charset + "?", encoding, "?" + word);
    Regroup("=?" + charset + "?" + encoding, "?", word);
    Regroup("=?" + charset + "?" + encoding + "?", text, end);
  }

  // How a subject is sent: as it is if it is ASCII, else as one base64 word of its UTF-8 bytes.
  lemma SubjectSent(subject: string)
    ensures MimeHeader(subject) ==
            if forall i | 0 <= i < |subject| :: subject[i] as int <= 127 then subject
            else "=?" + "UTF-8" + "?" + "B" + "?" + Base64(Utf8(subject)) + "?="
  {
    AsciiExactly(subject);
    TokenSpelled("UTF-8", "B", Base64(Utf8(subject)));
  }

  // A new draft of validated fields reads back as exactly the intended headers, whatever the body.
  lemma CreatedDraftReadsBack(to: string, subject: string, body: string)
    requires NoControl(to) && NoControl(subject)
    ensures ParseMessage(Message(TextHeaders(to, subject), body)) ==
            Some(([Header("To", to), Header("Subject", MimeHeader(subject)), Header("MIME-Version", "1.0"),
                   Header("Content-Type", "text/plain; charset=UTF-8"),
                   Header("Content-Transfer-Encoding", "8bit")],
                  Normalized(body)))
  {
    TextHeadersPrintable(to, subject);
    MessageRoundTrip(TextHeaders(to, subject), body);
  }

  // --- The subject of a reply ---------------------------------------------------------------------

  lemma {:induction false} TrimEndKeeps(s: string, n: nat)
    requires 0 < n <= |s| && !IsWhitespace(s[n - 1])
    ensures n <= |TrimEnd(s)| && TrimEnd(s)[..n] == s[..n]
    decreases |s|
  {
    if IsWhitespace(s[|s| - 1]) {
      TrimEndKeeps(s[..|s| - 1], n);
    }
  }

  // A reply's subject is recognizably one, and replying to a reply adds no second prefix: the prefix is added
  // exactly if the subject, blanks aside, does not begin with one in any letter case.
  lemma ReplySubjectIsReply(subject: string)
    ensures ReplySubject(subject) ==
            if |Trim(subject)| >= 3 && Lower(Trim(subject)[..3]) == "re:" then subject else "Re: " + subject
    ensures "re:" <= Lower(Trim(ReplySubject(subject)))
    ensures ReplySubject(ReplySubject(subject)) == ReplySubject(subject)
  {
    var trimmed := Trim(subject);
    if |trimmed| >= 3 {
      assert Lower(trimmed)[..3] == Lower(trimmed[..3]);
    }
    if !("re:" <= Lower(trimmed)) {
      var s := "Re: " + subject;
      assert TrimStart(s) == s;
      TrimEndKeeps(s, 3);
      assert Trim(s)[..3] == "Re:";
      assert Lower(Trim(s))[..3] == "re:";
    }
  }

  lemma ReplyPrintable(source: seq<Header>)
    requires ReplyHeaders(source).Ok?
    ensures Printable(ReplyHeaders(source).value)
  {
    var headers := ReplyHeaders(source).value;
    var found := Find(source, "Subject");
    var subject := if found.Some? then found.value else "";
    TextHeadersPrintable(headers[0].value, ReplySubject(subject));
    VariableNames();
    assert headers == TextHeaders(headers[0].value, ReplySubject(subject)) + headers[5..];
  }

  // A reply, too, reads back as the intended headers, whatever headers the source message carries: none of them
  // can add a header line, end the header block or reach the body.
  lemma ReplyReadsBack(source: seq<Header>, body: string)
    requires ReplyMessage(source, body).Some?
    ensures ReplyHeaders(source).Ok?
    ensures ParseMessage(ReplyMessage(source, body).value) == Some((ReplyHeaders(source).value, Normalized(body)))
  {
    ReplyPrintable(source);
    MessageRoundTrip(ReplyHeaders(source).value, body);
  }

  lemma {:induction false} FindAt(headers: seq<Header>, i: nat)
    requires i < |headers| && forall j | 0 <= j < i :: |headers[j].name| != |headers[i].name|
    ensures Find(headers, headers[i].name) == Some(headers[i].value)
  {
    if i > 0 {
      assert |Lower(headers[0].name)| != |Lower(headers[i].name)|;
      FindAt(headers[1..], i - 1);
    }
  }

  // The header at i is the first of that name, whatever the letter case of either.
  predicate FirstNamed(headers: seq<Header>, name: string, i: int) {
    && 0 <= i < |headers| && Lower(headers[i].name) == Lower(name)
    && forall j | 0 <= j < i :: Lower(headers[j].name) != Lower(name)
  }

  // Looking a header up gives the value of the first one of that name, and nothing if there is none.
  lemma {:induction false} FindExactly(headers: seq<Header>, name: string)
    ensures forall i | FirstNamed(headers, name, i) :: Find(headers, name) == Some(headers[i].value)
    ensures Find(headers, name).None? <==> forall i | 0 <= i < |headers| :: Lower(headers[i].name) != Lower(name)
  {
    if headers != [] && Lower(headers[0].name) != Lower(name) {
      var rest := headers[1..];
      FindExactly(rest, name);
      forall i | FirstNamed(headers, name, i) ensures Find(headers, name) == Some(headers[i].value) {
        forall j | 0 <= j < i - 1 ensures Lower(rest[j].name) != Lower(name) {
          assert rest[j] == headers[j + 1];
        }
        assert FirstNamed(rest, name, i - 1);
      }
      if Find(rest, name).None? {
        forall i | 0 <= i < |headers| ensures Lower(headers[i].name) != Lower(name) {
          if i > 0 { assert headers[i] == rest[i - 1]; }
        }
      } else {
        var i :| 0 <= i < |rest| && Lower(rest[i].name) == Lower(name);
        assert headers[i + 1] == rest[i];
      }
    }
  }

  // What a reply takes over from the message it answers.
  datatype Origin = Origin(recipient: Option<string>, subject: string, messageId: Option<string>, prior: Option<string>)

  function OriginOf(source: seq<Header>): Origin {
    var replyTo, from := Find(source, "Reply-To"), Find(source, "From");
    var subject := Find(source, "Subject");
    Origin(if replyTo.Some? then replyTo else from, if subject.Some? then subject.value else "",
           Find(source, "Message-ID"), Find(source, "References"))
  }

  // There is somebody to reply to and an identifier to refer to, and nothing that is taken over holds a control
  // character.
  predicate Answerable(o: Origin) {
    && o.recipient.Some? && o.messageId.Some? && NoControl(o.recipient.value) && NoControl(o.subject)
    && NoControl(o.messageId.value) && (o.prior.Some? ==> NoControl(o.prior.value))
  }

  // The seven headers of a reply.
  predicate RepliesTo(headers: seq<Header>, o: Origin) {
    && o.recipient.Some? && o.messageId.Some?
    && headers == [
         Header("To", o.recipient.value), Header("Subject", MimeHeader(ReplySubject(o.subject))),
         Header("MIME-Version", "1.0"), Header("Content-Type", "text/plain; charset=UTF-8"),
         Header("Content-Transfer-Encoding", "8bit"), Header("In-Reply-To", o.messageId.value),
         Header("References", (if o.prior.Some? then o.prior.value + " " else "") + o.messageId.value)]
  }

  lemma ReferencesPlain(prior: string, id: string)
    ensures NoControl(prior + " " + id) <==> NoControl(prior) && NoControl(id)
  {
    var s := prior + " " + id;
    if NoControl(s) {
      forall i | 0 <= i < |prior| ensures !IsControl(prior[i]) {
        assert s[i] == prior[i];
      }
      forall i | 0 <= i < |id| ensures !IsControl(id[i]) {
        assert s[|prior| + 1 + i] == id[i];
      }
    }
  }

  // A reply is built exactly to the messages that can be answered, and with exactly those headers.
  lemma ReplyExactly(source: seq<Header>)
    ensures ReplyHeaders(source).Ok? <==> Answerable(OriginOf(source))
    ensures ReplyHeaders(source).Ok? ==> RepliesTo(ReplyHeaders(source).value, OriginOf(source))
    ensures ReplyHeaders(source) == Err("no reply recipient") <==> OriginOf(source).recipient.None?
    ensures ReplyHeaders(source) == Err("no Message-ID") <==>
            var o := OriginOf(source);
            o.recipient.Some? && NoControl(o.recipient.value) && NoControl(o.subject) && o.messageId.None?
  {
    var o := OriginOf(source);
    if o.messageId.Some? && o.prior.Some? {
      ReferencesPlain(o.prior.value, o.messageId.value);
    } else if o.messageId.Some? {
      assert "" + o.messageId.value == o.messageId.value;
    }
  }

  lemma ReplyNames(headers: seq<Header>, o: Origin)
    requires RepliesTo(headers, o)
    ensures |headers| == 7 && |headers[5].name| == 11 && |headers[6].name| == 10
    ensures (forall j | 0 <= j < 5 :: |headers[j].name| !in {11, 10}) && |headers[0].name| != |headers[1].name|
    ensures headers[0].name == "To" && headers[1].name == "Subject"
    ensures headers[5].name == "In-Reply-To" && headers[6].name == "References"
  {
  }

  // Whoever reads a reply finds it addressed to the source's Reply-To, or else its From, under a reply's subject,
  // in answer to the source's Message-ID, and with the source's own References, if any, ahead of that identifier.
  lemma ReplyThreads(source: seq<Header>, body: string)
    requires ReplyMessage(source, body).Some?
    ensures var read := ParseMessage(ReplyMessage(source, body).value);
            read.Some? &&
            var (headers, _) := read.value;
            && RepliesTo(headers, OriginOf(source))
            && Find(headers, "To") == Some(headers[0].value) && Find(headers, "Subject") == Some(headers[1].value)
            && Find(headers, "In-Reply-To") == Some(headers[5].value)
            && Find(headers, "References") == Some(headers[6].value)
  {
    ReplyReadsBack(source, body);
    ReplyExactly(source);
    ReplyNames(ReplyHeaders(source).value, OriginOf(source));
    VariableHeadersFound(ReplyHeaders(source).value);
  }

  lemma VariableHeadersFound(headers: seq<Header>)
    requires |headers| == 7 && |headers[5].name| == 11 && |headers[6].name| == 10
    requires (forall j | 0 <= j < 5 :: |headers[j].name| !in {11, 10}) && |headers[0].name| != |headers[1].name|
    ensures Find(headers, headers[0].name) == Some(headers[0].value)
    ensures Find(headers, headers[1].name) == Some(headers[1].value)
    ensures Find(headers, headers[5].name) == Some(headers[5].value)
    ensures Find(headers, headers[6].name) == Some(headers[6].value)
  {
    FindAt(headers, 0);
    FindAt(headers, 1);
    FindAt(headers, 5);
    FindAt(headers, 6);
  }
}
