// The JSON text the broker writes: strings are UTF-8, one char per byte, escaped as section 7 of RFC 8259
// demands and otherwise left alone, with no whitespace between tokens.
module Json {
  import opened Wrappers

  datatype Value =
    | Null
    | Bool(flag: bool)
    | Number(n: nat)
    | Text(text: string)
    | Array(items: seq<Value>)
    | Object(fields: seq<(string, Value)>)

  function HexDigit(n: nat): char
    requires n < 16
  {
    if n < 10 then '0' + n as char else 'a' + (n - 10) as char
  }

  function EscapeChar(c: char): string {
    if c == '"' then "\\\""
    else if c == '\\' then "\\\\"
    else if c == 0x08 as char then "\\b"
    else if c == 0x0c as char then "\\f"
    else if c == '\n' then "\\n"
    else if c == '\r' then "\\r"
    else if c == '\t' then "\\t"
    else if c < 0x20 as char then "\\u00" + [HexDigit(c as int / 16), HexDigit(c as int % 16)]
    else [c]
  }

  function Escape(s: string): string {
    if s == "" then "" else EscapeChar(s[0]) + Escape(s[1..])
  }

  function Quote(s: string): string {
    "\"" + Escape(s) + "\""
  }

  function Decimal(n: nat): string {
    if n < 10 then ['0' + n as char] else Decimal(n / 10) + ['0' + (n % 10) as char]
  }

  function Encode(v: Value): string
    decreases v
  {
    match v
    case Null => "null"
    case Bool(b) => if b then "true" else "false"
    case Number(n) => Decimal(n)
    case Text(s) => Quote(s)
    case Array(items) => "[" + EncodeItems(items) + "]"
    case Object(fields) => "{" + EncodeFields(fields) + "}"
  }

  function EncodeItems(items: seq<Value>): string
    decreases items
  {
    if items == [] then ""
    else if |items| == 1 then Encode(items[0])
    else Encode(items[0]) + "," + EncodeItems(items[1..])
  }

  function EncodeField(field: (string, Value)): string
    decreases field, 1
  {
    Quote(field.0) + ":" + Encode(field.1)
  }

  function EncodeFields(fields: seq<(string, Value)>): string
    decreases fields
  {
    if fields == [] then ""
    else if |fields| == 1 then EncodeField(fields[0])
    else EncodeField(fields[0]) + "," + EncodeFields(fields[1..])
  }

  // --- No byte of the text is a control character -------------------------------------------------

  predicate Printable(s: string) {
    forall i | 0 <= i < |s| :: s[i] >= 0x20 as char
  }

  lemma {:induction false} EscapePrintable(s: string)
    ensures Printable(Escape(s))
  {
    if s != "" {
      EscapePrintable(s[1..]);
    }
  }

  lemma {:induction false} DecimalPrintable(n: nat)
    ensures Printable(Decimal(n))
  {
    if n >= 10 {
      DecimalPrintable(n / 10);
    }
  }

  // In particular no newline: the frame delimiter never appears inside a frame.
  lemma {:induction false} EncodePrintable(v: Value)
    ensures Printable(Encode(v))
    decreases v
  {
    match v
    case Null =>
    case Bool(_) =>
    case Number(n) => DecimalPrintable(n);
    case Text(s) => EscapePrintable(s);
    case Array(items) => ItemsPrintable(items);
    case Object(fields) => FieldsPrintable(fields);
  }

  lemma {:induction false} ItemsPrintable(items: seq<Value>)
    ensures Printable(EncodeItems(items))
    decreases items
  {
    if items != [] {
      EncodePrintable(items[0]);
      ItemsPrintable(items[1..]);
    }
  }

  lemma {:induction false} FieldsPrintable(fields: seq<(string, Value)>)
    ensures Printable(EncodeFields(fields))
    decreases fields
  {
    if fields != [] {
      FieldPrintable(fields[0]);
      FieldsPrintable(fields[1..]);
    }
  }

  lemma {:induction false} FieldPrintable(field: (string, Value))
    ensures Printable(EncodeField(field))
    decreases field, 1
  {
    EscapePrintable(field.0);
    EncodePrintable(field.1);
  }

  // --- Strings read back --------------------------------------------------------------------------

  function HexValue(c: char): Option<nat> {
    if '0' <= c <= '9' then Some((c - '0') as nat)
    else if 'a' <= c <= 'f' then Some((c - 'a') as nat + 10)
    else None
  }

  function ShortEscape(c: char): Option<char> {
    match c
    case '"' => Some('"')
    case '\\' => Some('\\')
    case 'b' => Some(0x08 as char)
    case 'f' => Some(0x0c as char)
    case 'n' => Some('\n')
    case 'r' => Some('\r')
    case 't' => Some('\t')
    case _ => None
  }

  // One character of a string: the character and how much text it took.
  function ReadChar(t: string): Option<(char, nat)>
    requires t != ""
  {
    if t[0] != '\\' then Some((t[0], 1))
    else if |t| < 2 then None
    else if t[1] != 'u' then
      var c := ShortEscape(t[1]);
      if c.Some? then Some((c.value, 2)) else None
    else if |t| < 6 || t[2] != '0' || t[3] != '0' then None
    else
      var high, low := HexValue(t[4]), HexValue(t[5]);
      if high.Some? && low.Some? then Some(((16 * high.value + low.value) as char, 6)) else None
  }

  // The rest of a string after its opening quote: the string, and what follows the closing quote.
  function ReadString(t: string): Option<(string, string)>
    decreases |t|
  {
    if t == "" then None
    else if t[0] == '"' then Some(("", t[1..]))
    else
      var c := ReadChar(t);
      if c.None? then None
      else
        var rest := ReadString(t[c.value.1..]);
        if rest.None? then None else Some(([c.value.0] + rest.value.0, rest.value.1))
  }

  lemma EscapedCharReads(c: char, rest: string)
    ensures var t := EscapeChar(c) + rest;
            t != "" && t[0] != '"' && ReadChar(t) == Some((c, |EscapeChar(c)|))
  {
    var t := EscapeChar(c) + rest;
    if c < 0x20 as char && |EscapeChar(c)| == 6 {
      assert t[..6] == EscapeChar(c);
      assert t[4] == HexDigit(c as int / 16) && t[5] == HexDigit(c as int % 16);
      assert t[1] == 'u' && t[2] == '0' && t[3] == '0';
    }
  }

  // A quoted string reads back exactly, and where it ends does not depend on what follows.
  lemma {:induction false} QuotedStringReadsBack(s: string, rest: string)
    ensures ReadString(Escape(s) + "\"" + rest) == Some((s, rest))
  {
    var t := Escape(s) + "\"" + rest;
    if s == "" {
      assert t == "\"" + rest;
      assert t[1..] == rest;
    } else {
      var tail := Escape(s[1..]) + "\"" + rest;
      assert t == EscapeChar(s[0]) + tail;
      EscapedCharReads(s[0], tail);
      assert t[|EscapeChar(s[0])|..] == tail;
      QuotedStringReadsBack(s[1..], rest);
      assert [s[0]] + s[1..] == s;
    }
  }

  // --- Sizes --------------------------------------------------------------------------------------

  lemma {:induction false} EscapeSize(s: string)
    ensures |s| <= |Escape(s)| <= 6 * |s|
  {
    if s != "" {
      EscapeSize(s[1..]);
    }
  }

  lemma FieldsOfTwo(f: (string, Value), g: (string, Value))
    ensures EncodeFields([f, g]) == EncodeField(f) + "," + EncodeField(g)
  {
    assert [f, g][1..] == [g];
  }

  lemma FieldsOfThree(f: (string, Value), g: (string, Value), h: (string, Value))
    ensures EncodeFields([f, g, h]) == EncodeField(f) + "," + (EncodeField(g) + "," + EncodeField(h))
  {
    assert [f, g, h][1..] == [g, h];
    FieldsOfTwo(g, h);
  }

  lemma FieldsOfFour(f: (string, Value), g: (string, Value), h: (string, Value), k: (string, Value))
    ensures EncodeFields([f, g, h, k]) ==
            EncodeField(f) + "," + (EncodeField(g) + "," + (EncodeField(h) + "," + EncodeField(k)))
  {
    assert [f, g, h, k][1..] == [g, h, k];
    FieldsOfThree(g, h, k);
  }

  // The fields with one separator each.
  function FieldSizes(fields: seq<(string, Value)>): nat {
    if fields == [] then 0 else |EncodeField(fields[0])| + 1 + FieldSizes(fields[1..])
  }

  lemma {:induction false} ObjectSize(fields: seq<(string, Value)>)
    requires fields != []
    ensures |Encode(Object(fields))| == FieldSizes(fields) + 1
    decreases |fields|
  {
    if |fields| == 1 {
      assert FieldSizes(fields[1..]) == 0;
    } else {
      ObjectSize(fields[1..]);
      assert |EncodeFields(fields)| == |EncodeField(fields[0])| + 1 + |EncodeFields(fields[1..])|;
    }
  }

  predicate Plain(s: string) {
    forall i | 0 <= i < |s| :: s[i] >= 0x20 as char && s[i] != '"' && s[i] != '\\'
  }

  lemma {:induction false} PlainEscape(s: string)
    requires Plain(s)
    ensures Escape(s) == s
  {
    if s != "" {
      PlainEscape(s[1..]);
      assert [s[0]] + s[1..] == s;
    }
  }

  lemma TextFieldSize(key: string, text: string)
    ensures |EncodeField((key, Text(text)))| == |Escape(key)| + |Escape(text)| + 5
  {
  }

  // Replacing one element changes the size of an array by the difference between the elements.
  lemma {:induction false} ItemReplaced(items: seq<Value>, i: nat, v: Value)
    requires i < |items|
    ensures |EncodeItems(items[i := v])| + |Encode(items[i])| == |EncodeItems(items)| + |Encode(v)|
    decreases |items|
  {
    var now := items[i := v];
    if i == 0 {
      assert now[1..] == items[1..];
    } else {
      assert now[1..] == items[1..][i - 1 := v];
      ItemReplaced(items[1..], i - 1, v);
    }
  }

  lemma {:induction false} ItemsSize(items: seq<Value>, most: nat)
    requires forall k | 0 <= k < |items| :: |Encode(items[k])| <= most
    ensures |EncodeItems(items)| <= |items| * (most + 1)
    decreases |items|
  {
    if items != [] {
      ItemsSize(items[1..], most);
      OneMoreItem(|items| - 1, most + 1);
    }
  }

  lemma OneMoreItem(n: nat, size: nat)
    ensures (n + 1) * size == n * size + size
  {
  }
}
