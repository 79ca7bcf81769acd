// What a mail reader shows for the value of an unstructured header field: encoded words are decoded wherever they
// stand between spaces (sections 2, 4 and 6.2 of RFC 2047). All readers agree on well-formed UTF-8 words; what they
// make of any other token is a parameter.
module EncodedWords {
  import opened Texts
  import opened Wrappers

  // What a reader shows for a token that is no well-formed UTF-8 word: a word in another charset, one that is
  // ill-formed or too long (section 6.3 of RFC 2047), or a word inside other text. None is the token as it stands.
  type Reader = string -> Option<string>

  // The longest a word may be (section 2 of RFC 2047).
  const MAX_WORD: nat := 75

  // --- One encoded word ---------------------------------------------------------------------------

  // What stands before and after the first question mark.
  function CutAtMark(s: string): (r: Option<(string, string)>)
    ensures r.Some? ==> |r.value.0| + 1 + |r.value.1| == |s|
  {
    if s == "" then None
    else if s[0] == '?' then Some(("", s[1..]))
    else
      var rest := CutAtMark(s[1..]);
      if rest.None? then None else Some(([s[0]] + rest.value.0, rest.value.1))
  }

  datatype Word = Word(charset: string, encoding: string, text: string)

  // A token of the form =?charset?encoding?text?= with all three parts present.
  function ParseWord(token: string): (w: Option<Word>)
    ensures w.Some? ==> |w.value.text| + 6 <= |token|
  {
    if |token| < 2 || token[..2] != "=?" then None
    else
      var one := CutAtMark(token[2..]);
      if one.None? || one.value.0 == "" then None
      else
        var two := CutAtMark(one.value.1);
        if two.None? then None
        else
          var three := CutAtMark(two.value.1);
          if three.None? || three.value.0 == "" || three.value.1 != "=" then None
          else Some(Word(one.value.0, two.value.0, three.value.0))
  }

  // The Q encoding: an underscore is a space, =XX a byte, any other printable ASCII character itself.
  function HexDigitValue(c: char): Option<nat> {
    if '0' <= c <= '9' then Some((c - '0') as nat)
    else if 'A' <= c <= 'F' then Some((c - 'A') as nat + 10)
    else if 'a' <= c <= 'f' then Some((c - 'a') as nat + 10)
    else None
  }

  function ReadQ(text: string): (r: Option<string>)
    ensures r.Some? ==> IsBytes(r.value) && |r.value| <= |text|
    decreases |text|
  {
    if text == "" then Some("")
    else if text[0] == '=' then
      if |text| < 3 then None
      else
        var high, low, rest := HexDigitValue(text[1]), HexDigitValue(text[2]), ReadQ(text[3..]);
        if high.None? || low.None? || rest.None? then None
        else Some([(16 * high.value + low.value) as char] + rest.value)
    else if !('!' <= text[0] <= '~') then None
    else
      var rest := ReadQ(text[1..]);
      if rest.None? then None else Some([if text[0] == '_' then ' ' else text[0]] + rest.value)
  }

  // The text of a well-formed UTF-8 word.
  function StrictText(token: string): Option<string> {
    var w := ParseWord(token);
    if |token| > MAX_WORD || w.None? || Lower(w.value.charset) != "utf-8" then None
    else
      var encoding := Lower(w.value.encoding);
      var bytes := if encoding == "b" then ReadBase64(w.value.text)
                   else if encoding == "q" then ReadQ(w.value.text)
                   else None;
      if bytes.None? then None else ReadUtf8(bytes.value)
  }

  // The text that is shown instead of a token, if it is not shown as it stands.
  function WordText(token: string, reader: Reader): Option<string> {
    if StrictText(token).Some? then StrictText(token) else reader(token)
  }

  // --- A whole value ------------------------------------------------------------------------------

  datatype Piece = Blank(text: string) | Token(text: string)

  predicate IsBlank(c: char) {
    c == ' ' || c == '\t'
  }

  // How far the blanks, or the characters other than blanks, reach at the start of s.
  function RunLength(s: string): (n: nat)
    requires s != ""
    ensures 1 <= n <= |s| && forall i | 0 <= i < n :: IsBlank(s[i]) == IsBlank(s[0])
  {
    if |s| > 1 && IsBlank(s[1]) == IsBlank(s[0]) then 1 + RunLength(s[1..]) else 1
  }

  function Pieces(s: string): seq<Piece>
    decreases |s|
  {
    if s == "" then []
    else
      var n := RunLength(s);
      [if IsBlank(s[0]) then Blank(s[..n]) else Token(s[..n])] + Pieces(s[n..])
  }

  predicate IsWord(p: Piece, reader: Reader) {
    p.Token? && WordText(p.text, reader).Some?
  }

  // Blanks between two encoded words are dropped; all others stay.
  function Show(ps: seq<Piece>, reader: Reader): string
    decreases |ps|, 1
  {
    if ps == [] then ""
    else if !IsWord(ps[0], reader) then ps[0].text + Show(ps[1..], reader)
    else WordText(ps[0].text, reader).value + Rest(ps, reader)
  }

  // What stands behind the first piece, if that is a word.
  function Rest(ps: seq<Piece>, reader: Reader): string
    requires ps != []
    decreases |ps|, 0
  {
    if |ps| > 2 && ps[1].Blank? && IsWord(ps[2], reader) then Show(ps[2..], reader)
    else Show(ps[1..], reader)
  }

  function Shown(value: string, reader: Reader): string {
    Show(Pieces(value), reader)
  }

  // --- When a value is shown as given -------------------------------------------------------------

  predicate OpensAt(s: string, i: int) {
    0 <= i < |s| - 1 && s[i] == '=' && s[i + 1] == '?'
  }

  // The characters with which every word begins.
  predicate HasOpening(s: string) {
    exists i | 0 <= i < |s| :: OpensAt(s, i)
  }

  // A reader leaves alone what holds no beginning of a word, and never makes a token longer.
  ghost predicate Admissible(reader: Reader) {
    forall token :: reader(token).Some? ==> HasOpening(token) && |reader(token).value| < |token|
  }

  ghost predicate HasWord(ps: seq<Piece>, reader: Reader) {
    exists i | 0 <= i < |ps| :: IsWord(ps[i], reader)
  }

  function Joined(ps: seq<Piece>): string {
    if ps == [] then "" else ps[0].text + Joined(ps[1..])
  }

  lemma {:induction false} PiecesJoin(s: string)
    ensures Joined(Pieces(s)) == s
    decreases |s|
  {
    if s != "" {
      PiecesJoin(s[RunLength(s)..]);
      assert Pieces(s)[1..] == Pieces(s[RunLength(s)..]);
    }
  }

  // The pieces are maximal: those of blanks hold spaces and tabs only, the tokens neither.
  lemma {:induction false} PiecesApart(s: string, i: nat)
    requires i < |Pieces(s)|
    ensures Pieces(s)[i].text != ""
    ensures forall j | 0 <= j < |Pieces(s)[i].text| ::
              (Pieces(s)[i].text[j] as int in {9, 32}) <==> Pieces(s)[i].Blank?
    decreases |s|
  {
    var n := RunLength(s);
    if i > 0 {
      PiecesApart(s[n..], i - 1);
      assert Pieces(s)[i] == Pieces(s[n..])[i - 1];
    } else {
      assert Pieces(s)[0].text == s[..n];
    }
  }

  // A word is longer than its text.
  lemma WordShrinks(token: string, reader: Reader)
    requires Admissible(reader) && WordText(token, reader).Some?
    ensures |WordText(token, reader).value| < |token| && HasOpening(token)
  {
    if StrictText(token).Some? {
      assert OpensAt(token, 0);
    }
  }

  lemma WordLater(ps: seq<Piece>, reader: Reader)
    requires ps != [] && HasWord(ps, reader) && !IsWord(ps[0], reader)
    ensures HasWord(ps[1..], reader)
  {
    var i :| 0 <= i < |ps| && IsWord(ps[i], reader);
    assert ps[1..][i - 1] == ps[i];
  }

  lemma {:induction false} ShowShrinks(ps: seq<Piece>, reader: Reader)
    requires Admissible(reader)
    ensures |Show(ps, reader)| <= |Joined(ps)|
    ensures HasWord(ps, reader) ==> |Show(ps, reader)| < |Joined(ps)|
    decreases |ps|, 1
  {
    if ps != [] {
      if IsWord(ps[0], reader) {
        WordShrinks(ps[0].text, reader);
        RestShrinks(ps, reader);
      } else {
        ShowShrinks(ps[1..], reader);
        if HasWord(ps, reader) {
          WordLater(ps, reader);
        }
      }
    }
  }

  lemma {:induction false} RestShrinks(ps: seq<Piece>, reader: Reader)
    requires Admissible(reader) && ps != []
    ensures |Rest(ps, reader)| <= |Joined(ps[1..])|
    decreases |ps|, 0
  {
    ShowShrinks(ps[1..], reader);
    if |ps| > 2 {
      ShowShrinks(ps[2..], reader);
      assert ps[1..][1..] == ps[2..];
    }
  }

  lemma {:induction false} PlainIsShown(ps: seq<Piece>, reader: Reader)
    requires !HasWord(ps, reader)
    ensures Show(ps, reader) == Joined(ps)
    decreases |ps|
  {
    if ps != [] {
      assert !IsWord(ps[0], reader);
      assert !HasWord(ps[1..], reader) by {
        forall i | 0 <= i < |ps| - 1 ensures !IsWord(ps[1..][i], reader) {
          assert ps[1..][i] == ps[i + 1];
        }
      }
      PlainIsShown(ps[1..], reader);
    }
  }

  // A value is shown exactly as given if and only if none of its tokens is a word to that reader.
  lemma ShownAsGiven(value: string, reader: Reader)
    requires Admissible(reader)
    ensures Shown(value, reader) == value <==> !HasWord(Pieces(value), reader)
  {
    PiecesJoin(value);
    ShowShrinks(Pieces(value), reader);
    if !HasWord(Pieces(value), reader) {
      PlainIsShown(Pieces(value), reader);
    }
  }

  lemma {:induction false} PiecesOpen(s: string, i: nat)
    requires i < |Pieces(s)| && HasOpening(Pieces(s)[i].text)
    ensures HasOpening(s)
    decreases |s|
  {
    var n := RunLength(s);
    if i == 0 {
      var k :| 0 <= k < n && OpensAt(s[..n], k);
      assert OpensAt(s, k);
    } else {
      PiecesOpen(s[n..], i - 1);
      var k :| 0 <= k < |s[n..]| && OpensAt(s[n..], k);
      assert OpensAt(s, n + k);
    }
  }

  // No reader finds a word where none begins.
  lemma NoOpeningNoWord(s: string, reader: Reader)
    requires Admissible(reader) && !HasOpening(s)
    ensures !HasWord(Pieces(s), reader)
  {
    forall i | 0 <= i < |Pieces(s)| ensures !IsWord(Pieces(s)[i], reader) {
      if IsWord(Pieces(s)[i], reader) {
        WordShrinks(Pieces(s)[i].text, reader);
        PiecesOpen(s, i);
      }
    }
  }

  // --- Words of the broker's own making -----------------------------------------------------------

  predicate NoneOf(s: string, c: char) {
    forall i | 0 <= i < |s| :: s[i] != c
  }

  predicate NoBlank(s: string) {
    forall i | 0 <= i < |s| :: !IsBlank(s[i])
  }

  lemma {:induction false} CutFound(s: string, rest: string)
    requires NoneOf(s, '?')
    ensures CutAtMark(s + ("?" + rest)) == Some((s, rest))
  {
    var t := s + ("?" + rest);
    if s == "" {
      assert t == "?" + rest && t[1..] == rest;
    } else {
      assert t[1..] == s[1..] + ("?" + rest);
      CutFound(s[1..], rest);
      assert [s[0]] + s[1..] == s;
    }
  }

  function WordToken(charset: string, encoding: string, text: string): string {
    "=?" + (charset + ("?" + (encoding + ("?" + (text + ("?" + "="))))))
  }

  lemma TokenSize(charset: string, encoding: string, text: string)
    ensures |WordToken(charset, encoding, text)| == |charset| + |encoding| + |text| + 6
  {
  }

  // A token written in the form reads back as its parts.
  lemma WordParses(charset: string, encoding: string, text: string)
    requires charset != "" && text != "" && NoneOf(charset, '?') && NoneOf(encoding, '?') && NoneOf(text, '?')
    ensures ParseWord(WordToken(charset, encoding, text)) == Some(Word(charset, encoding, text))
  {
    var third := text + ("?" + "=");
    var second := encoding + ("?" + third);
    var token := WordToken(charset, encoding, text);
    CutFound(charset, second);
    CutFound(encoding, third);
    CutFound(text, "=");
    assert token[..2] == "=?" && token[2..] == charset + ("?" + second);
  }

  lemma {:induction false} WholeRun(s: string)
    requires s != "" && NoBlank(s)
    ensures RunLength(s) == |s|
  {
    if |s| > 1 {
      WholeRun(s[1..]);
    }
  }

  lemma OneToken(s: string)
    requires s != "" && NoBlank(s)
    ensures Pieces(s) == [Token(s)]
  {
    WholeRun(s);
    assert s[..|s|] == s && Pieces(s[|s|..]) == [];
  }

  lemma Utf8Word(charset: string, encoding: string, text: string, shown: string)
    requires charset != "" && text != "" && NoneOf(charset, '?') && NoneOf(encoding, '?') && NoneOf(text, '?')
    requires Lower(charset) == "utf-8" && |charset| + |encoding| + |text| + 6 <= MAX_WORD
    requires var bytes := if Lower(encoding) == "b" then ReadBase64(text)
                          else if Lower(encoding) == "q" then ReadQ(text) else None;
             bytes.Some? && ReadUtf8(bytes.value) == Some(shown)
    ensures StrictText(WordToken(charset, encoding, text)) == Some(shown)
  {
    WordParses(charset, encoding, text);
  }

  // A token alone is shown as its text, if it is a word, or else as it stands.
  lemma TokenShown(token: string, reader: Reader)
    requires token != "" && NoBlank(token)
    ensures var text := WordText(token, reader);
            && Shown(token, reader) == (if text.Some? then text.value else token)
            && (HasWord(Pieces(token), reader) <==> text.Some?)
  {
    OneToken(token);
    var ps := [Token(token)];
    assert ps[1..] == [];
    assert IsWord(ps[0], reader) <==> WordText(token, reader).Some?;
    assert Rest(ps, reader) == "" && Show(ps[1..], reader) == "";
    assert Show(ps, reader) == if IsWord(ps[0], reader) then WordText(token, reader).value + "" else token + "";
  }

  lemma NoBlankJoins(s: string, t: string)
    requires NoBlank(s) && NoBlank(t)
    ensures NoBlank(s + t)
  {
  }

  lemma TokenHasNoBlank(charset: string, encoding: string, text: string)
    requires NoBlank(charset) && NoBlank(encoding) && NoBlank(text)
    ensures NoBlank(WordToken(charset, encoding, text)) && WordToken(charset, encoding, text) != ""
  {
    NoBlankJoins("?", "=");
    NoBlankJoins(text, "?" + "=");
    NoBlankJoins("?", text + ("?" + "="));
    NoBlankJoins(encoding, "?" + (text + ("?" + "=")));
    NoBlankJoins("?", encoding + ("?" + (text + ("?" + "="))));
    NoBlankJoins(charset, "?" + (encoding + ("?" + (text + ("?" + "=")))));
    NoBlankJoins("=?", charset + ("?" + (encoding + ("?" + (text + ("?" + "="))))));
  }

  lemma Base64Alphabet(bytes: string)
    requires IsBytes(bytes)
    ensures NoneOf(Base64(bytes), '?') && NoBlank(Base64(bytes))
    ensures bytes != "" ==> Base64(bytes) != ""
  {
  }

  // The names a UTF-8 word may use: any letter case.
  predicate NamesUtf8(charset: string, encoding: string, kind: string) {
    && Lower(charset) == "utf-8" && Lower(encoding) == kind
    && charset != "" && NoneOf(charset, '?') && NoneOf(encoding, '?') && NoBlank(charset) && NoBlank(encoding)
  }

  lemma NameSizes(charset: string, encoding: string)
    requires NamesUtf8(charset, encoding, "b") || NamesUtf8(charset, encoding, "q")
    ensures |charset| == 5 && |encoding| == 1
  {
    assert |Lower(charset)| == |charset| && |Lower(encoding)| == |encoding|;
  }

  // The most bytes of UTF-8 whose base64 word is within the limit.
  const MAX_WORD_BYTES: nat := 45

  // A base64 word of up to 45 bytes is within the limit, and every reader shows its text.
  lemma Base64WordShown(charset: string, encoding: string, text: string, reader: Reader)
    requires NamesUtf8(charset, encoding, "b") && 0 < |Utf8(text)| <= MAX_WORD_BYTES
    ensures var token := WordToken(charset, encoding, Base64(Utf8(text)));
            && WordText(token, reader) == Some(text) && NoBlank(token) && token != ""
            && Shown(token, reader) == text && HasWord(Pieces(token), reader)
  {
    var word := Base64(Utf8(text));
    Base64Alphabet(Utf8(text));
    Base64ReadsBack(Utf8(text));
    Base64Size(Utf8(text));
    Utf8ReadsBack(text);
    NameSizes(charset, encoding);
    Utf8Word(charset, encoding, word, text);
    TokenHasNoBlank(charset, encoding, word);
    TokenShown(WordToken(charset, encoding, word), reader);
  }

  // The Q encoding (section 4.2 of RFC 2047), with everything but letters, digits and blanks as hexadecimal bytes.
  function UpperHex(n: nat): char
    requires n < 16
  {
    "0123456789ABCDEF"[n]
  }

  function QChar(c: char): string
    requires c < 0x100 as char
  {
    if c == ' ' then "_"
    else if 'a' <= c <= 'z' || 'A' <= c <= 'Z' || '0' <= c <= '9' then [c]
    else ['=', UpperHex(c as int / 16), UpperHex(c as int % 16)]
  }

  function Q(bytes: string): string
    requires IsBytes(bytes)
  {
    if bytes == "" then "" else QChar(bytes[0]) + Q(bytes[1..])
  }

  lemma UpperHexReads(n: nat)
    requires n < 16
    ensures HexDigitValue(UpperHex(n)) == Some(n)
  {
  }

  lemma EscapedQReads(c: char, rest: string)
    requires c < 0x100 as char && |QChar(c)| == 3 && ReadQ(rest).Some?
    ensures ReadQ(QChar(c) + rest) == Some([c] + ReadQ(rest).value)
  {
    var t, n := QChar(c) + rest, c as int;
    UpperHexReads(n / 16);
    UpperHexReads(n % 16);
    assert t[0] == '=' && t[1] == UpperHex(n / 16) && t[2] == UpperHex(n % 16) && t[3..] == rest;
  }

  lemma PlainQReads(c: char, rest: string)
    requires c < 0x100 as char && |QChar(c)| == 1 && ReadQ(rest).Some?
    ensures ReadQ(QChar(c) + rest) == Some([c] + ReadQ(rest).value)
  {
    assert (QChar(c) + rest)[1..] == rest;
  }

  // All bytes can be written so, and read back exactly.
  lemma {:induction false} QReadsBack(bytes: string)
    requires IsBytes(bytes)
    ensures ReadQ(Q(bytes)) == Some(bytes)
  {
    if bytes != "" {
      var c, rest := bytes[0], bytes[1..];
      QReadsBack(rest);
      if |QChar(c)| == 3 {
        EscapedQReads(c, Q(rest));
      } else {
        PlainQReads(c, Q(rest));
      }
      assert [c] + rest == bytes;
    }
  }

  // Letters and digits stand for themselves in the Q encoding.
  predicate Alphanumeric(s: string) {
    forall i | 0 <= i < |s| :: 'a' <= s[i] <= 'z' || 'A' <= s[i] <= 'Z' || '0' <= s[i] <= '9'
  }

  lemma {:induction false} PlainQ(text: string)
    requires Alphanumeric(text)
    ensures ReadQ(text) == Some(text) && Utf8(text) == text
  {
    if text != "" {
      PlainQ(text[1..]);
      assert [text[0]] + text[1..] == text;
    }
  }

  lemma QWordShown(charset: string, encoding: string, text: string, reader: Reader)
    requires NamesUtf8(charset, encoding, "q") && 0 < |text| <= 63 && Alphanumeric(text)
    ensures var token := WordToken(charset, encoding, text);
            && WordText(token, reader) == Some(text) && NoBlank(token) && token != ""
            && Shown(token, reader) == text && HasWord(Pieces(token), reader)
  {
    PlainQ(text);
    Utf8ReadsBack(text);
    NameSizes(charset, encoding);
    Utf8Word(charset, encoding, text, text);
    TokenHasNoBlank(charset, encoding, text);
    TokenShown(WordToken(charset, encoding, text), reader);
  }

  // A word is decoded behind other text, too.
  lemma WordAfterText(before: string, token: string, shown: string, reader: Reader)
    requires before != "" && NoBlank(before) && WordText(before, reader).None?
    requires token != "" && NoBlank(token) && WordText(token, reader) == Some(shown)
    ensures Shown(before + (" " + token), reader) == before + (" " + shown)
    ensures HasWord(Pieces(before + (" " + token)), reader)
  {
    var value := before + (" " + token);
    var tail := " " + token;
    RunStops(before, tail);
    assert value[..|before|] == before && value[|before|..] == tail;
    assert RunLength(tail) == 1 && tail[..1] == " " && tail[1..] == token;
    OneToken(token);
    var ps := [Token(before), Blank(" "), Token(token)];
    assert Pieces(tail) == [Blank(" "), Token(token)];
    assert Pieces(value) == ps;
    assert ps[1..] == [Blank(" "), Token(token)] && ps[1..][1..] == [Token(token)];
    assert Show([Token(token)], reader) == shown + Show([Token(token)][1..], reader);
    assert Show(ps[1..], reader) == " " + shown;
    assert IsWord(ps[2], reader);
  }

  lemma {:induction false} RunStops(s: string, rest: string)
    requires s != "" && NoBlank(s) && rest != "" && IsBlank(rest[0])
    ensures RunLength(s + rest) == |s|
  {
    if |s| > 1 {
      assert (s + rest)[1..] == s[1..] + rest;
      RunStops(s[1..], rest);
    }
  }
}
