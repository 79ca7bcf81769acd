// A reader of the JSON texts that module Json writes (RFC 8259, without whitespace and with numbers that are natural),
// and what makes the two inverse to each other.
module JsonReader {
  import opened Wrappers
  import opened Json

  predicate IsDigit(c: char) {
    '0' <= c <= '9'
  }

  // How many digits the text begins with.
  function DigitCount(t: string): (n: nat)
    ensures n <= |t|
  {
    if t != "" && IsDigit(t[0]) then 1 + DigitCount(t[1..]) else 0
  }

  function DigitValue(c: char): nat
    requires IsDigit(c)
  {
    (c - '0') as nat
  }

  function DecimalValue(digits: string): nat
    requires forall i | 0 <= i < |digits| :: IsDigit(digits[i])
  {
    if digits == "" then 0
    else
      var n := |digits| - 1;
      10 * DecimalValue(digits[..n]) + DigitValue(digits[n])
  }

  lemma {:induction false} DigitsAreDigits(t: string)
    ensures forall i | 0 <= i < DigitCount(t) :: IsDigit(t[i])
  {
    if t != "" && IsDigit(t[0]) {
      DigitsAreDigits(t[1..]);
    }
  }

  // A value, and what follows it.
  function ReadValue(t: string): (r: Option<(Value, string)>)
    ensures r.Some? ==> |r.value.1| < |t|
    decreases |t|, 1
  {
    if t == "" then None
    else if t[0] == '"' then
      var s := ReadText(t[1..]);
      if s.None? then None else Some((Text(s.value.0), s.value.1))
    else if t[0] == '[' then ReadArray(t)
    else if t[0] == '{' then ReadObject(t)
    else ReadPlain(t)
  }

  // A value that is neither a string, an array nor an object.
  function ReadPlain(t: string): (r: Option<(Value, string)>)
    ensures r.Some? ==> |r.value.1| < |t|
  {
    if "null" <= t then Some((Null, t[4..]))
    else if "true" <= t then Some((Bool(true), t[4..]))
    else if "false" <= t then Some((Bool(false), t[5..]))
    else if DigitCount(t) == 0 then None
    else
      DigitsAreDigits(t);
      Some((Number(DecimalValue(t[..DigitCount(t)])), t[DigitCount(t)..]))
  }

  // A string behind its opening quote.
  function ReadText(t: string): (r: Option<(string, string)>)
    ensures r.Some? ==> |r.value.1| < |t|
  {
    var r := ReadString(t);
    if r.Some? && |r.value.1| < |t| then r else None
  }

  function ReadArray(t: string): (r: Option<(Value, string)>)
    requires t != ""
    ensures r.Some? ==> |r.value.1| < |t|
    decreases |t|, 0
  {
    if |t| > 1 && t[1] == ']' then Some((Array([]), t[2..]))
    else
      var items := ReadItems(t[1..]);
      if items.None? then None else Some((Array(items.value.0), items.value.1))
  }

  function ReadObject(t: string): (r: Option<(Value, string)>)
    requires t != ""
    ensures r.Some? ==> |r.value.1| < |t|
    decreases |t|, 0
  {
    if |t| > 1 && t[1] == '}' then Some((Object([]), t[2..]))
    else
      var fields := ReadFields(t[1..]);
      if fields.None? then None else Some((Object(fields.value.0), fields.value.1))
  }

  // One or more values through the closing bracket.
  function ReadItems(t: string): (r: Option<(seq<Value>, string)>)
    ensures r.Some? ==> |r.value.1| < |t|
    decreases |t|, 2
  {
    var first := ReadValue(t);
    if first.None? || first.value.1 == "" then None
    else
      var (item, after) := first.value;
      if after[0] == ']' then Some(([item], after[1..]))
      else if after[0] != ',' then None
      else
        var rest := ReadItems(after[1..]);
        if rest.None? then None else Some(([item] + rest.value.0, rest.value.1))
  }

  // A name, a colon and a value.
  function ReadField(t: string): (r: Option<((string, Value), string)>)
    ensures r.Some? ==> |r.value.1| < |t|
    decreases |t|, 2
  {
    if t == "" || t[0] != '"' then None
    else
      var name := ReadText(t[1..]);
      if name.None? || name.value.1 == "" || name.value.1[0] != ':' then None
      else
        var v := ReadValue(name.value.1[1..]);
        if v.None? then None else Some(((name.value.0, v.value.0), v.value.1))
  }

  // One or more fields through the closing brace.
  function ReadFields(t: string): (r: Option<(seq<(string, Value)>, string)>)
    ensures r.Some? ==> |r.value.1| < |t|
    decreases |t|, 3
  {
    var first := ReadField(t);
    if first.None? || first.value.1 == "" then None
    else
      var (field, after) := first.value;
      if after[0] == '}' then Some(([field], after[1..]))
      else if after[0] != ',' then None
      else
        var rest := ReadFields(after[1..]);
        if rest.None? then None else Some(([field] + rest.value.0, rest.value.1))
  }

  // --- Reading back -------------------------------------------------------------------------------

  // A number ends where no digit follows.
  predicate NoDigitFirst(t: string) {
    t == "" || !IsDigit(t[0])
  }

  lemma {:induction false} DecimalDigits(n: nat)
    ensures Decimal(n) != "" && forall i | 0 <= i < |Decimal(n)| :: IsDigit(Decimal(n)[i])
    ensures DecimalValue(Decimal(n)) == n
  {
    if n >= 10 {
      DecimalDigits(n / 10);
      var s := Decimal(n);
      assert s[..|s| - 1] == Decimal(n / 10);
    }
  }

  lemma {:induction false} DigitsThenNone(digits: string, rest: string)
    requires NoDigitFirst(rest) && forall i | 0 <= i < |digits| :: IsDigit(digits[i])
    ensures DigitCount(digits + rest) == |digits|
  {
    var t := digits + rest;
    if digits == "" {
      assert t == rest;
    } else {
      assert t[1..] == digits[1..] + rest;
      DigitsThenNone(digits[1..], rest);
    }
  }

  lemma NumberReadsBack(n: nat, rest: string)
    requires NoDigitFirst(rest)
    ensures ReadValue(Decimal(n) + rest) == Some((Number(n), rest))
  {
    var t := Decimal(n) + rest;
    DecimalDigits(n);
    DigitsThenNone(Decimal(n), rest);
    assert t[0] == Decimal(n)[0];
    assert t[..|Decimal(n)|] == Decimal(n) && t[|Decimal(n)|..] == rest;
  }

  lemma TextReadsBack(s: string, rest: string)
    ensures ReadText(Escape(s) + "\"" + rest) == Some((s, rest))
  {
    QuotedStringReadsBack(s, rest);
  }

  lemma QuotedReadsBack(s: string, rest: string)
    ensures var t := Quote(s) + rest; t[0] == '"' && ReadText(t[1..]) == Some((s, rest))
  {
    TextReadsBack(s, rest);
    assert (Quote(s) + rest)[1..] == Escape(s) + "\"" + rest;
  }

  // Encoded values are not empty, and do not begin like the end of an array.
  lemma EncodedHead(v: Value)
    ensures Encode(v) != "" && Encode(v)[0] != ']'
  {
    if v.Number? {
      DecimalDigits(v.n);
    }
  }

  lemma PlainReadsBack(v: Value, rest: string)
    requires v.Null? || v.Bool?
    ensures ReadValue(Encode(v) + rest) == Some((v, rest))
  {
    var t := Encode(v) + rest;
    assert t[..|Encode(v)|] == Encode(v) && t[|Encode(v)|..] == rest;
  }

  lemma LastItem(t: string, item: Value, rest: string)
    requires ReadValue(t) == Some((item, "]" + rest))
    ensures ReadItems(t) == Some(([item], rest))
  {
    assert ("]" + rest)[1..] == rest;
  }

  lemma NextItem(t: string, item: Value, tail: string, items: seq<Value>, rest: string)
    requires ReadValue(t) == Some((item, "," + tail)) && ReadItems(tail) == Some((items, rest))
    ensures ReadItems(t) == Some(([item] + items, rest))
  {
    assert ("," + tail)[1..] == tail;
  }

  lemma LastField(t: string, field: (string, Value), rest: string)
    requires ReadField(t) == Some((field, "}" + rest))
    ensures ReadFields(t) == Some(([field], rest))
  {
    assert ("}" + rest)[1..] == rest;
  }

  lemma NextField(t: string, field: (string, Value), tail: string, fields: seq<(string, Value)>, rest: string)
    requires ReadField(t) == Some((field, "," + tail)) && ReadFields(tail) == Some((fields, rest))
    ensures ReadFields(t) == Some(([field] + fields, rest))
  {
    assert ("," + tail)[1..] == tail;
  }

  lemma Regrouped(a: string, b: string, c: string, d: string)
    ensures a + b + c + d == a + (b + (c + d))
    ensures a + (b + c) + d == a + (b + (c + d))
  {
  }

  // Every value reads back exactly, and where it ends does not depend on what follows.
  lemma {:induction false} ValueReadsBack(v: Value, rest: string)
    requires NoDigitFirst(rest)
    ensures ReadValue(Encode(v) + rest) == Some((v, rest))
    decreases v
  {
    match v
    case Number(n) => NumberReadsBack(n, rest);
    case Text(s) => QuotedReadsBack(s, rest);
    case Array(items) => ArrayReadsBack(items, rest);
    case Object(fields) => ObjectReadsBack(fields, rest);
    case _ => PlainReadsBack(v, rest);
  }

  lemma {:induction false} ArrayReadsBack(items: seq<Value>, rest: string)
    ensures ReadValue(Encode(Array(items)) + rest) == Some((Array(items), rest))
    decreases items, 1
  {
    var t := Encode(Array(items)) + rest;
    if items == [] {
      assert t == "[" + ("]" + rest);
      assert t[1] == ']' && t[2..] == rest;
    } else {
      var body := EncodeItems(items);
      ItemsReadBack(items, rest);
      EncodedHead(items[0]);
      assert t == "[" + (body + ("]" + rest)) && t[1..] == body + ("]" + rest);
      assert t[1] == body[0];
    }
  }

  lemma {:induction false} ObjectReadsBack(fields: seq<(string, Value)>, rest: string)
    ensures ReadValue(Encode(Object(fields)) + rest) == Some((Object(fields), rest))
    decreases fields, 1
  {
    var t := Encode(Object(fields)) + rest;
    if fields == [] {
      assert t == "{" + ("}" + rest);
      assert t[1] == '}' && t[2..] == rest;
    } else {
      var body := EncodeFields(fields);
      FieldsReadBack(fields, rest);
      assert t == "{" + (body + ("}" + rest)) && t[1..] == body + ("}" + rest);
      assert body[0] == '"' && t[1] == body[0];
    }
  }

  lemma {:induction false} ItemsReadBack(items: seq<Value>, rest: string)
    requires items != []
    ensures ReadItems(EncodeItems(items) + ("]" + rest)) == Some((items, rest))
    decreases items, 0
  {
    var t := EncodeItems(items) + ("]" + rest);
    if |items| == 1 {
      ValueReadsBack(items[0], "]" + rest);
      LastItem(t, items[0], rest);
      assert items == [items[0]];
    } else {
      var tail := EncodeItems(items[1..]) + ("]" + rest);
      Regrouped(Encode(items[0]), ",", EncodeItems(items[1..]), "]" + rest);
      assert t == Encode(items[0]) + ("," + tail);
      ValueReadsBack(items[0], "," + tail);
      ItemsReadBack(items[1..], rest);
      NextItem(t, items[0], tail, items[1..], rest);
      assert [items[0]] + items[1..] == items;
    }
  }

  lemma {:induction false} FieldReadsBack(field: (string, Value), rest: string)
    requires NoDigitFirst(rest)
    ensures ReadField(EncodeField(field) + rest) == Some((field, rest))
    decreases field, 1
  {
    var tail := ":" + (Encode(field.1) + rest);
    Regrouped(Quote(field.0), ":", Encode(field.1), rest);
    assert EncodeField(field) + rest == Quote(field.0) + tail;
    QuotedReadsBack(field.0, tail);
    assert tail[1..] == Encode(field.1) + rest;
    ValueReadsBack(field.1, rest);
  }

  lemma {:induction false} FieldsReadBack(fields: seq<(string, Value)>, rest: string)
    requires fields != []
    ensures ReadFields(EncodeFields(fields) + ("}" + rest)) == Some((fields, rest))
    decreases fields, 0
  {
    var t := EncodeFields(fields) + ("}" + rest);
    if |fields| == 1 {
      FieldReadsBack(fields[0], "}" + rest);
      LastField(t, fields[0], rest);
      assert fields == [fields[0]];
    } else {
      var tail := EncodeFields(fields[1..]) + ("}" + rest);
      Regrouped(EncodeField(fields[0]), ",", EncodeFields(fields[1..]), "}" + rest);
      assert t == EncodeField(fields[0]) + ("," + tail);
      FieldReadsBack(fields[0], "," + tail);
      FieldsReadBack(fields[1..], rest);
      NextField(t, fields[0], tail, fields[1..], rest);
      assert [fields[0]] + fields[1..] == fields;
    }
  }

  // --- Objects by name ----------------------------------------------------------------------------

  type Fields = seq<(string, Value)>

  // The first field of that name.
  function Get(fields: Fields, name: string): Option<Value> {
    if fields == [] then None
    else if fields[0].0 == name then Some(fields[0].1)
    else Get(fields[1..], name)
  }

  predicate NamedOnce(fields: Fields, k: int) {
    0 <= k < |fields| && forall j | 0 <= j < k :: fields[j].0 != fields[k].0
  }

  lemma {:induction false} GetAt(fields: Fields, k: int)
    requires NamedOnce(fields, k)
    ensures Get(fields, fields[k].0) == Some(fields[k].1)
    decreases k
  {
    if k > 0 {
      var rest := fields[1..];
      forall j | 0 <= j < k - 1 ensures rest[j].0 != rest[k - 1].0 {
        assert rest[j] == fields[j + 1];
      }
      GetAt(rest, k - 1);
    }
  }

  // Names that differ in their length or their first letter.
  predicate Apart(a: string, b: string) {
    |a| != |b| || (a != "" && a[0] != b[0])
  }

  lemma ApartOnce(f: Fields, k: int)
    requires 0 <= k < |f| && forall j | 0 <= j < k :: Apart(f[j].0, f[k].0)
    ensures NamedOnce(f, k)
  {
  }
}
