// Text as sequences of Unicode scalar values, one char each, and its encodings as bytes.
module Texts {
  import opened Wrappers

  datatype Header = Header(name: string, value: string)

  predicate IsControl(c: char) {
    c < 0x20 as char || 0x7f as char <= c <= 0x9f as char
  }

  predicate NoControl(s: string) {
    forall i | 0 <= i < |s| :: !IsControl(s[i])
  }

  predicate IsWhitespace(c: char) {
    || 0x09 as char <= c <= 0x0d as char || c == ' ' || c == 0x85 as char || c == 0xa0 as char
    || c == 0x1680 as char || 0x2000 as char <= c <= 0x200a as char || c == 0x2028 as char || c == 0x2029 as char
    || c == 0x202f as char || c == 0x205f as char || c == 0x3000 as char
  }

  function TrimStart(s: string): string {
    if s != "" && IsWhitespace(s[0]) then TrimStart(s[1..]) else s
  }

  function TrimEnd(s: string): string {
    if s != "" && IsWhitespace(s[|s| - 1]) then TrimEnd(s[..|s| - 1]) else s
  }

  function Trim(s: string): string {
    TrimEnd(TrimStart(s))
  }

  function LowerChar(c: char): char {
    if 'A' <= c <= 'Z' then c + ('a' - 'A') else c
  }

  // ASCII letters only, as to_ascii_lowercase and eq_ignore_ascii_case do.
  function Lower(s: string): string {
    seq(|s|, i requires 0 <= i < |s| => LowerChar(s[i]))
  }

  predicate IsAscii(s: string) {
    forall i | 0 <= i < |s| :: s[i] < 0x80 as char
  }

  // --- What these classes and folds amount to -----------------------------------------------------

  // The 65 control characters, and the 25 white-space characters of Unicode.
  lemma CharClasses(c: char)
    ensures IsControl(c) <==> var n := c as int; n <= 31 || n == 127 || 128 <= n <= 159
    ensures IsWhitespace(c) <==>
            var n := c as int;
            n in {9, 10, 11, 12, 13, 32, 133, 160, 5760, 8192, 8193, 8194, 8195, 8196, 8197, 8198, 8199, 8200, 8201,
                  8202, 8232, 8233, 8239, 8287, 12288}
  {
  }

  lemma AsciiExactly(s: string)
    ensures IsAscii(s) <==> forall i | 0 <= i < |s| :: s[i] as int <= 127
  {
  }

  // Exactly the 26 capital letters are folded, each to its own small letter.
  lemma LowerExactly(s: string, i: nat)
    requires i < |s|
    ensures |Lower(s)| == |s|
    ensures var capitals, small := "ABCDEFGHIJKLMNOPQRSTUVWXYZ", "abcdefghijklmnopqrstuvwxyz";
            && (forall k | 0 <= k < 26 && s[i] == capitals[k] :: Lower(s)[i] == small[k])
            && (s[i] !in capitals ==> Lower(s)[i] == s[i])
  {
    var capitals, small := "ABCDEFGHIJKLMNOPQRSTUVWXYZ", "abcdefghijklmnopqrstuvwxyz";
    forall k | 0 <= k < 26 ensures capitals[k] == 'A' + k as char && small[k] == 'a' + k as char {
    }
    if 'A' <= s[i] <= 'Z' {
      assert capitals[(s[i] - 'A') as nat] == s[i];
    }
  }

  // What is trimmed away is all white space, and what stays neither begins nor ends with any.
  lemma TrimExactly(s: string) returns (a: nat, b: nat)
    ensures a <= b <= |s| && Trim(s) == s[a..b]
    ensures forall i | 0 <= i < a || b <= i < |s| :: IsWhitespace(s[i])
    ensures a < b ==> !IsWhitespace(s[a]) && !IsWhitespace(s[b - 1])
  {
    a := TrimStartExactly(s);
    b := TrimEndExactly(s[a..]);
    b := a + b;
    if a < b {
      assert s[a..][b - a - 1] == s[b - 1];
    }
    forall i | b <= i < |s| ensures IsWhitespace(s[i]) {
      assert s[a..][i - a] == s[i];
    }
  }

  lemma {:induction false} TrimStartExactly(s: string) returns (a: nat)
    ensures a <= |s| && TrimStart(s) == s[a..] && forall i | 0 <= i < a :: IsWhitespace(s[i])
    ensures a < |s| ==> !IsWhitespace(s[a])
  {
    a := 0;
    if s != "" && IsWhitespace(s[0]) {
      a := TrimStartExactly(s[1..]);
      a := a + 1;
    }
  }

  lemma {:induction false} TrimEndExactly(s: string) returns (b: nat)
    ensures b <= |s| && TrimEnd(s) == s[..b] && forall i | b <= i < |s| :: IsWhitespace(s[i])
    ensures b > 0 ==> !IsWhitespace(s[b - 1])
    decreases |s|
  {
    b := |s|;
    if s != "" && IsWhitespace(s[|s| - 1]) {
      b := TrimEndExactly(s[..|s| - 1]);
    }
  }

  // --- UTF-8 --------------------------------------------------------------------------------------

  predicate IsBytes(s: string) {
    forall i | 0 <= i < |s| :: s[i] < 0x100 as char
  }

  function Utf8Char(c: char): (r: string)
    ensures IsBytes(r) && 1 <= |r| <= 4
  {
    var n := c as int;
    if n < 0x80 then [c]
    else if n < 0x800 then [(0xc0 + n / 0x40) as char, (0x80 + n % 0x40) as char]
    else if n < 0x1_0000 then [(0xe0 + n / 0x1000) as char, (0x80 + n / 0x40 % 0x40) as char, (0x80 + n % 0x40) as char]
    else [(0xf0 + n / 0x4_0000) as char, (0x80 + n / 0x1000 % 0x40) as char,
          (0x80 + n / 0x40 % 0x40) as char, (0x80 + n % 0x40) as char]
  }

  function Utf8(text: string): (r: string)
    ensures IsBytes(r) && |text| <= |r| <= 4 * |text|
  {
    if text == "" then "" else Utf8Char(text[0]) + Utf8(text[1..])
  }

  // --- Base64 with padding (section 4 of RFC 4648) ------------------------------------------------

  function Base64Digit(n: nat): (c: char)
    requires n < 64
    ensures '+' <= c <= 'z' && c != '?'
  {
    if n < 26 then 'A' + n as char
    else if n < 52 then 'a' + (n - 26) as char
    else if n < 62 then '0' + (n - 52) as char
    else if n == 62 then '+' else '/'
  }

  // One group of up to three bytes.
  function Base64Group(bytes: string): (r: string)
    requires IsBytes(bytes) && 1 <= |bytes| <= 3
    ensures |r| == 4 && forall i | 0 <= i < 4 :: '+' <= r[i] <= 'z' && r[i] != '?'
  {
    var a := bytes[0] as int;
    var b := if |bytes| > 1 then bytes[1] as int else 0;
    var c := if |bytes| > 2 then bytes[2] as int else 0;
    var third := if |bytes| > 1 then Base64Digit(b % 16 * 4 + c / 64) else '=';
    var fourth := if |bytes| > 2 then Base64Digit(c % 64) else '=';
    [Base64Digit(a / 4), Base64Digit(a % 4 * 16 + b / 16), third, fourth]
  }

  function Base64(bytes: string): (r: string)
    requires IsBytes(bytes)
    ensures forall i | 0 <= i < |r| :: '+' <= r[i] <= 'z' && r[i] != '?'
    ensures NoControl(r) && IsAscii(r) && (bytes != "" ==> |r| >= 4)
    decreases |bytes|
  {
    if bytes == "" then ""
    else if |bytes| <= 3 then Base64Group(bytes)
    else Base64Group(bytes[..3]) + Base64(bytes[3..])
  }

  // --- Reading the encodings back -----------------------------------------------------------------

  predicate IsScalar(n: int) {
    0 <= n < 0xd800 || 0xe000 <= n < 0x11_0000
  }

  // How many bytes the character that begins with byte a takes; none begins with any other byte.
  function Utf8Size(a: int): nat {
    if 0 <= a < 0x80 then 1
    else if 0xc0 <= a < 0xe0 then 2
    else if 0xe0 <= a < 0xf0 then 3
    else if 0xf0 <= a < 0xf8 then 4
    else 0
  }

  predicate Continues(s: string, size: nat) {
    size <= |s| && forall i | 1 <= i < size :: 0x80 <= s[i] as int < 0xc0
  }

  // The number that size bytes stand for.
  function Utf8Number(s: string, size: nat): int
    requires 1 <= size <= 4 && size <= |s|
  {
    var a := s[0] as int;
    if size == 1 then a
    else if size == 2 then (a - 0xc0) * 0x40 + (s[1] as int - 0x80)
    else if size == 3 then (a - 0xe0) * 0x1000 + (s[1] as int - 0x80) * 0x40 + (s[2] as int - 0x80)
    else (a - 0xf0) * 0x4_0000 + (s[1] as int - 0x80) * 0x1000 + (s[2] as int - 0x80) * 0x40 + (s[3] as int - 0x80)
  }

  // The least number that needs so many bytes.
  function Utf8Least(size: nat): nat {
    if size <= 1 then 0 else if size == 2 then 0x80 else if size == 3 then 0x800 else 0x1_0000
  }

  // The first character of a UTF-8 text and the number of bytes it takes (section 3 of RFC 3629): continuation bytes
  // are checked, and overlong forms are refused.
  function Utf8First(s: string): Option<(char, nat)>
    requires s != "" && IsBytes(s)
    ensures Utf8First(s).Some? ==> 1 <= Utf8First(s).value.1 <= |s|
  {
    var size := Utf8Size(s[0] as int);
    if size == 0 || !Continues(s, size) then None
    else
      var n := Utf8Number(s, size);
      if Utf8Least(size) <= n && IsScalar(n) then Some((n as char, size)) else None
  }

  function ReadUtf8(s: string): (r: Option<string>)
    requires IsBytes(s)
    ensures r.Some? ==> |r.value| <= |s|
    decreases |s|
  {
    if s == "" then Some("")
    else
      var first := Utf8First(s);
      if first.None? then None
      else
        var rest := ReadUtf8(s[first.value.1..]);
        if rest.None? then None else Some([first.value.0] + rest.value)
  }

  lemma TwoDigits(n: nat)
    ensures n == n / 0x40 * 0x40 + n % 0x40
  {
  }

  lemma ThreeDigits(n: nat)
    ensures n == n / 0x1000 * 0x1000 + n / 0x40 % 0x40 * 0x40 + n % 0x40
  {
    TwoDigits(n);
    TwoDigits(n / 0x40);
    assert n / 0x40 / 0x40 == n / 0x1000;
  }

  lemma FourDigits(n: nat)
    ensures n == n / 0x4_0000 * 0x4_0000 + n / 0x1000 % 0x40 * 0x1000 + n / 0x40 % 0x40 * 0x40 + n % 0x40
  {
    ThreeDigits(n);
    TwoDigits(n / 0x1000);
    assert n / 0x1000 / 0x40 == n / 0x4_0000;
  }

  // The bytes of a character, one by one.
  lemma TwoBytes(c: char)
    requires 0x80 <= c as int < 0x800
    ensures var n, r := c as int, Utf8Char(c);
            && |r| == 2 && r[0] as int == 0xc0 + n / 0x40 < 0xe0 && r[1] as int == 0x80 + n % 0x40
            && Utf8Number(r, 2) == n
  {
    TwoDigits(c as int);
  }

  lemma ThreeBytes(c: char)
    requires 0x800 <= c as int < 0x1_0000
    ensures var n, r := c as int, Utf8Char(c);
            && |r| == 3 && r[0] as int == 0xe0 + n / 0x1000 < 0xf0 && r[1] as int == 0x80 + n / 0x40 % 0x40
            && r[2] as int == 0x80 + n % 0x40 && Utf8Number(r, 3) == n
  {
    ThreeDigits(c as int);
  }

  lemma FourBytes(c: char)
    requires 0x1_0000 <= c as int
    ensures var n, r := c as int, Utf8Char(c);
            && |r| == 4 && r[0] as int == 0xf0 + n / 0x4_0000 < 0xf8 && r[1] as int == 0x80 + n / 0x1000 % 0x40
            && r[2] as int == 0x80 + n / 0x40 % 0x40 && r[3] as int == 0x80 + n % 0x40 && Utf8Number(r, 4) == n
  {
    FourDigits(c as int);
  }

  lemma SameNumber(s: string, r: string, size: nat)
    requires 1 <= size <= 4 && |r| == size && r <= s
    ensures Utf8Number(s, size) == Utf8Number(r, size)
  {
    assert forall i | 0 <= i < size :: s[i] == r[i];
  }

  lemma Utf8FirstReads(c: char, rest: string)
    requires IsBytes(rest)
    ensures Utf8First(Utf8Char(c) + rest) == Some((c, |Utf8Char(c)|))
  {
    var n, r := c as int, Utf8Char(c);
    if 0x80 <= n {
      if n < 0x800 {
        TwoBytes(c);
      } else if n < 0x1_0000 {
        ThreeBytes(c);
      } else {
        FourBytes(c);
      }
      SameNumber(r + rest, r, |r|);
    }
  }

  lemma {:induction false} Utf8ReadsBack(text: string)
    ensures ReadUtf8(Utf8(text)) == Some(text)
  {
    if text != "" {
      var bytes := Utf8Char(text[0]) + Utf8(text[1..]);
      Utf8FirstReads(text[0], Utf8(text[1..]));
      assert bytes[|Utf8Char(text[0])|..] == Utf8(text[1..]);
      Utf8ReadsBack(text[1..]);
      assert [text[0]] + text[1..] == text;
    }
  }

  // --- Only the encodings are read ----------------------------------------------------------------

  lemma DigitsSplit(q: nat, r: nat)
    requires r < 0x40
    ensures (q * 0x40 + r) / 0x40 == q && (q * 0x40 + r) % 0x40 == r
  {
  }

  lemma ThreeWritten(a: nat, b: nat, c: nat)
    requires b < 0x40 && c < 0x40
    ensures var n := a * 0x1000 + b * 0x40 + c;
            n / 0x1000 == a && n / 0x40 % 0x40 == b && n % 0x40 == c
  {
    DigitsSplit(a * 0x40 + b, c);
    DigitsSplit(a, b);
    assert a * 0x1000 + b * 0x40 + c == (a * 0x40 + b) * 0x40 + c;
  }

  lemma FourWritten(a: nat, b: nat, c: nat, d: nat)
    requires b < 0x40 && c < 0x40 && d < 0x40
    ensures var n := a * 0x4_0000 + b * 0x1000 + c * 0x40 + d;
            n / 0x4_0000 == a && n / 0x1000 % 0x40 == b && n / 0x40 % 0x40 == c && n % 0x40 == d
  {
    ThreeWritten(a * 0x40 + b, c, d);
    DigitsSplit(a, b);
    assert a * 0x4_0000 + b * 0x1000 + c * 0x40 + d == (a * 0x40 + b) * 0x1000 + c * 0x40 + d;
  }

  lemma TwoBytesAre(s: string, c: char)
    requires s != "" && IsBytes(s) && Utf8First(s) == Some((c, 2))
    ensures s[..2] == Utf8Char(c)
  {
    DigitsSplit(s[0] as int - 0xc0, s[1] as int - 0x80);
  }

  lemma ThreeBytesAre(s: string, c: char)
    requires s != "" && IsBytes(s) && Utf8First(s) == Some((c, 3))
    ensures s[..3] == Utf8Char(c)
  {
    ThreeWritten(s[0] as int - 0xe0, s[1] as int - 0x80, s[2] as int - 0x80);
  }

  lemma FourBytesAre(s: string, c: char)
    requires s != "" && IsBytes(s) && Utf8First(s) == Some((c, 4))
    ensures s[..4] == Utf8Char(c)
  {
    FourWritten(s[0] as int - 0xf0, s[1] as int - 0x80, s[2] as int - 0x80, s[3] as int - 0x80);
  }

  lemma Utf8FirstWrites(s: string, c: char, size: nat)
    requires s != "" && IsBytes(s) && Utf8First(s) == Some((c, size))
    ensures size <= |s| && s[..size] == Utf8Char(c)
  {
    if size == 2 {
      TwoBytesAre(s, c);
    } else if size == 3 {
      ThreeBytesAre(s, c);
    } else if size == 4 {
      FourBytesAre(s, c);
    }
  }

  // A byte sequence reads as a text exactly if it is that text's encoding.
  lemma {:induction false} ReadUtf8Exact(s: string, text: string)
    requires IsBytes(s)
    ensures ReadUtf8(s) == Some(text) <==> s == Utf8(text)
    decreases |s|
  {
    Utf8ReadsBack(text);
    if s != "" && ReadUtf8(s) == Some(text) {
      var size := Utf8First(s).value.1;
      Utf8FirstWrites(s, text[0], size);
      ReadUtf8Exact(s[size..], text[1..]);
      assert s == s[..size] + s[size..];
    }
  }

  function Base64Value(c: char): Option<nat> {
    if 'A' <= c <= 'Z' then Some((c - 'A') as nat)
    else if 'a' <= c <= 'z' then Some((c - 'a') as nat + 26)
    else if '0' <= c <= '9' then Some((c - '0') as nat + 52)
    else if c == '+' then Some(62)
    else if c == '/' then Some(63)
    else None
  }

  lemma Base64DigitReads(n: nat)
    requires n < 64
    ensures Base64Value(Base64Digit(n)) == Some(n) && Base64Digit(n) != '='
  {
  }

  // A group, whose unused bits must be zero.
  function ReadBase64Group(g: string): (r: Option<string>)
    requires |g| == 4
    ensures r.Some? ==> IsBytes(r.value) && 1 <= |r.value| <= 3 && (|r.value| < 3 <==> g[3] == '=')
  {
    var a, b, c, d := Base64Value(g[0]), Base64Value(g[1]), Base64Value(g[2]), Base64Value(g[3]);
    if a.None? || b.None? then None
    else
      var first := (a.value * 4 + b.value / 16) as char;
      if g[2] == '=' && g[3] == '=' then if b.value % 16 == 0 then Some([first]) else None
      else if c.None? then None
      else
        var second := (b.value % 16 * 16 + c.value / 4) as char;
        if g[3] == '=' then if c.value % 4 == 0 then Some([first, second]) else None
        else if d.None? then None
        else Some([first, second, (c.value % 4 * 64 + d.value) as char])
  }

  // Padding ends the text.
  function ReadBase64(t: string): (r: Option<string>)
    ensures r.Some? ==> IsBytes(r.value) && |r.value| <= |t|
    decreases |t|
  {
    if t == "" then Some("")
    else if |t| < 4 then None
    else
      var group := ReadBase64Group(t[..4]);
      var rest := ReadBase64(t[4..]);
      if group.None? || rest.None? || (rest.value != "" && |group.value| < 3) then None
      else Some(group.value + rest.value)
  }

  lemma SixBitDigits(a: nat, b: nat, c: nat)
    requires a < 256 && b < 256 && c < 256
    ensures a / 4 * 4 + (a % 4 * 16 + b / 16) / 16 == a
    ensures (a % 4 * 16 + b / 16) % 16 * 16 + (b % 16 * 4 + c / 64) / 4 == b
    ensures (b % 16 * 4 + c / 64) % 4 * 64 + c % 64 == c
  {
    assert (a % 4 * 16 + b / 16) / 16 == a % 4 && (a % 4 * 16 + b / 16) % 16 == b / 16;
    assert (b % 16 * 4 + c / 64) / 4 == b % 16 && (b % 16 * 4 + c / 64) % 4 == c / 64;
  }

  lemma OneByteReads(x: char)
    requires IsBytes([x])
    ensures ReadBase64Group(Base64Group([x])) == Some([x])
  {
    assert [x][0] == x;
    var a := x as int;
    SixBitDigits(a, 0, 0);
    Base64DigitReads(a / 4);
    Base64DigitReads(a % 4 * 16);
    assert Base64Group([x]) == [Base64Digit(a / 4), Base64Digit(a % 4 * 16), '=', '='];
  }

  lemma TwoBytesRead(x: char, y: char)
    requires IsBytes([x, y])
    ensures ReadBase64Group(Base64Group([x, y])) == Some([x, y])
  {
    assert [x, y][0] == x && [x, y][1] == y;
    var a, b := x as int, y as int;
    SixBitDigits(a, b, 0);
    Base64DigitReads(a / 4);
    Base64DigitReads(a % 4 * 16 + b / 16);
    Base64DigitReads(b % 16 * 4);
    assert Base64Group([x, y]) == [Base64Digit(a / 4), Base64Digit(a % 4 * 16 + b / 16), Base64Digit(b % 16 * 4), '='];
  }

  lemma ThreeBytesWritten(x: char, y: char, z: char)
    requires IsBytes([x, y, z])
    ensures var a, b, c := x as int, y as int, z as int;
            && a < 256 && b < 256 && c < 256
            && Base64Group([x, y, z]) ==
               [Base64Digit(a / 4), Base64Digit(a % 4 * 16 + b / 16),
                Base64Digit(b % 16 * 4 + c / 64), Base64Digit(c % 64)]
  {
    assert [x, y, z][0] == x && [x, y, z][1] == y && [x, y, z][2] == z;
  }

  lemma ThreeBytesRead(x: char, y: char, z: char)
    requires IsBytes([x, y, z])
    ensures ReadBase64Group(Base64Group([x, y, z])) == Some([x, y, z])
  {
    ThreeBytesWritten(x, y, z);
    var a, b, c := x as int, y as int, z as int;
    SixBitDigits(a, b, c);
    Base64DigitReads(a / 4);
    Base64DigitReads(a % 4 * 16 + b / 16);
    Base64DigitReads(b % 16 * 4 + c / 64);
    Base64DigitReads(c % 64);
  }

  lemma Base64GroupReads(bytes: string)
    requires IsBytes(bytes) && 1 <= |bytes| <= 3
    ensures ReadBase64Group(Base64Group(bytes)) == Some(bytes)
  {
    if |bytes| == 1 {
      assert bytes == [bytes[0]];
      OneByteReads(bytes[0]);
    } else if |bytes| == 2 {
      assert bytes == [bytes[0], bytes[1]];
      TwoBytesRead(bytes[0], bytes[1]);
    } else {
      assert bytes == [bytes[0], bytes[1], bytes[2]];
      ThreeBytesRead(bytes[0], bytes[1], bytes[2]);
    }
  }

  lemma {:induction false} Base64ReadsBack(bytes: string)
    requires IsBytes(bytes)
    ensures ReadBase64(Base64(bytes)) == Some(bytes)
    decreases |bytes|
  {
    if bytes != "" {
      var group := if |bytes| <= 3 then bytes else bytes[..3];
      var rest := bytes[|group|..];
      Base64GroupReads(group);
      Base64ReadsBack(rest);
      var t := Base64(bytes);
      assert t == Base64Group(group) + Base64(rest);
      assert t[..4] == Base64Group(group) && t[4..] == Base64(rest);
      assert group + rest == bytes;
    }
  }

  lemma Base64DigitWrites(c: char)
    requires Base64Value(c).Some?
    ensures Base64Value(c).value < 64 && Base64Digit(Base64Value(c).value) == c
  {
  }

  lemma ThreeByteDigits(a: nat, b: nat, c: nat, d: nat)
    requires a < 64 && b < 64 && c < 64 && d < 64
    ensures var x, y, z := a * 4 + b / 16, b % 16 * 16 + c / 4, c % 4 * 64 + d;
            x / 4 == a && x % 4 * 16 + y / 16 == b && y % 16 * 4 + z / 64 == c && z % 64 == d
  {
    assert (b % 16 * 16 + c / 4) / 16 == b % 16 && (b % 16 * 16 + c / 4) % 16 == c / 4;
  }

  lemma OneByteWrites(g: string)
    requires |g| == 4 && g[2] == '=' && g[3] == '=' && ReadBase64Group(g).Some?
    ensures Base64Group(ReadBase64Group(g).value) == g
  {
    Base64DigitWrites(g[0]);
    Base64DigitWrites(g[1]);
    var a, b := Base64Value(g[0]).value, Base64Value(g[1]).value;
    ThreeByteDigits(a, b, 0, 0);
    var bytes := ReadBase64Group(g).value;
    assert bytes[0] as int == a * 4 + b / 16;
    assert Base64Group(bytes) == [Base64Digit(a), Base64Digit(b), '=', '='];
  }

  lemma TwoBytesWrite(g: string)
    requires |g| == 4 && g[2] != '=' && g[3] == '=' && ReadBase64Group(g).Some?
    ensures Base64Group(ReadBase64Group(g).value) == g
  {
    Base64DigitWrites(g[0]);
    Base64DigitWrites(g[1]);
    Base64DigitWrites(g[2]);
    var a, b, c := Base64Value(g[0]).value, Base64Value(g[1]).value, Base64Value(g[2]).value;
    ThreeByteDigits(a, b, c, 0);
    var bytes := ReadBase64Group(g).value;
    assert bytes[0] as int == a * 4 + b / 16 && bytes[1] as int == b % 16 * 16 + c / 4;
    assert Base64Group(bytes) == [Base64Digit(a), Base64Digit(b), Base64Digit(c), '='];
  }

  lemma GroupOfDigits(a: nat, b: nat, c: nat, d: nat, x: char, y: char, z: char)
    requires a < 64 && b < 64 && c < 64 && d < 64
    requires x as int == a * 4 + b / 16 && y as int == b % 16 * 16 + c / 4 && z as int == c % 4 * 64 + d
    ensures IsBytes([x, y, z])
    ensures Base64Group([x, y, z]) == [Base64Digit(a), Base64Digit(b), Base64Digit(c), Base64Digit(d)]
  {
    ThreeByteDigits(a, b, c, d);
    ThreeBytesWritten(x, y, z);
  }

  lemma ThreeBytesWrite(g: string)
    requires |g| == 4 && g[3] != '=' && ReadBase64Group(g).Some?
    ensures Base64Group(ReadBase64Group(g).value) == g
  {
    Base64DigitWrites(g[0]);
    Base64DigitWrites(g[1]);
    Base64DigitWrites(g[2]);
    Base64DigitWrites(g[3]);
    var bytes := ReadBase64Group(g).value;
    GroupOfDigits(Base64Value(g[0]).value, Base64Value(g[1]).value, Base64Value(g[2]).value, Base64Value(g[3]).value,
                  bytes[0], bytes[1], bytes[2]);
    assert bytes == [bytes[0], bytes[1], bytes[2]];
    assert g == [g[0], g[1], g[2], g[3]];
  }

  lemma Base64GroupWrites(g: string)
    requires |g| == 4 && ReadBase64Group(g).Some?
    ensures Base64Group(ReadBase64Group(g).value) == g
  {
    if g[3] != '=' {
      ThreeBytesWrite(g);
    } else if g[2] == '=' {
      OneByteWrites(g);
    } else {
      TwoBytesWrite(g);
    }
  }

  // A text reads as bytes exactly if it is their encoding.
  lemma {:induction false} ReadBase64Exact(t: string, bytes: string)
    requires IsBytes(bytes)
    ensures ReadBase64(t) == Some(bytes) <==> t == Base64(bytes)
    decreases |t|
  {
    Base64ReadsBack(bytes);
    if t != "" && ReadBase64(t) == Some(bytes) {
      var group, rest := ReadBase64Group(t[..4]).value, ReadBase64(t[4..]).value;
      Base64GroupWrites(t[..4]);
      ReadBase64Exact(t[4..], rest);
      Base64Splits(group, rest);
      assert t == t[..4] + t[4..];
    }
  }

  lemma Base64Splits(group: string, rest: string)
    requires IsBytes(group) && IsBytes(rest) && 1 <= |group| <= 3 && (rest != "" ==> |group| == 3)
    ensures Base64(group + rest) == Base64Group(group) + Base64(rest)
  {
    var bytes := group + rest;
    if rest == "" {
      assert bytes == group && Base64Group(group) + "" == Base64Group(group);
    } else {
      assert bytes[..3] == group && bytes[3..] == rest;
    }
  }

  lemma {:induction false} Base64Size(bytes: string)
    requires IsBytes(bytes)
    ensures |Base64(bytes)| == (|bytes| + 2) / 3 * 4
    decreases |bytes|
  {
    if |bytes| > 3 {
      Base64Size(bytes[3..]);
    }
  }
}
