// Which requests of the single-request clients the broker's frame limit lets through (src/gmail/mod.rs,
// src/gmail/models.rs, src/gmail/validation.rs, src/mcp.rs, src/broker/client.rs). The clients send any frame that
// passes the field checks; field lengths are limited in Unicode scalar values, the frame in bytes of escaped UTF-8.
module Requests {
  import opened Wrappers
  import opened Json
  import opened Frames
  import opened Texts

  datatype Listing = Listing(
    query: Option<string>, labelIds: seq<string>, maxResults: nat, pageToken: Option<string>, spamAndTrash: bool)

  datatype Request =
    | ListEmails(emails: Listing)
    | Readiness(emails: Listing)
    | ListLabels
    | CreateLabel(name: string)
    | DeleteLabel(labelId: string)
    | ApplyLabel(messageId: string, labelId: string)
    | OnMessage(operation: string, messageId: string)
    | OnDraft(operation: string, draftId: string)
    | OnMarker(operation: string, markerId: string)
    | ListDrafts(maxResults: nat, pageToken: Option<string>)
    | CreateDraft(to: string, subject: string, body: string)
    | CreateReplyDraft(messageId: string, body: string)

  // --- The field checks that concern size ---------------------------------------------------------

  predicate ShortText(s: string, most: nat) {
    |s| <= most && NoControl(s)
  }

  predicate IsId(s: string, most: nat) {
    1 <= |s| <= most && forall i | 0 <= i < |s| ::
      'a' <= s[i] <= 'z' || 'A' <= s[i] <= 'Z' || '0' <= s[i] <= '9' || s[i] == '_' || s[i] == '-'
  }

  // 32 hexadecimal digits.
  predicate IsMarker(s: string) {
    |s| == 32 && forall i | 0 <= i < |s| :: '0' <= s[i] <= '9' || 'a' <= s[i] <= 'f'
  }

  predicate IsSpacing(c: char) {
    c == '\t' || c == '\n' || c == '\r'
  }

  predicate BodyOk(body: string) {
    |body| <= 24_576 && forall i | 0 <= i < |body| :: !IsControl(body[i]) || IsSpacing(body[i])
  }

  predicate ListingOk(l: Listing) {
    && (l.query.Some? ==> ShortText(l.query.value, 1_024))
    && |l.labelIds| <= 20 && (forall i | 0 <= i < |l.labelIds| :: l.labelIds[i] != "" && ShortText(l.labelIds[i], 256))
    && 1 <= l.maxResults <= 50
    && (l.pageToken.Some? ==> l.pageToken.value != "" && ShortText(l.pageToken.value, 4_096))
  }

  // Names and IDs of labels have no length limit.
  predicate Valid(r: Request) {
    match r
    case ListEmails(l) => ListingOk(l)
    case Readiness(l) => ListingOk(l)
    case ListLabels => true
    case CreateLabel(name) => NoControl(name) && Trim(name) != ""
    case DeleteLabel(id) => NoControl(id) && id != ""
    case ApplyLabel(messageId, id) => IsId(messageId, 256) && NoControl(id) && id != ""
    case OnMessage(operation, id) =>
      operation in {"read_email", "mark_email_read", "mark_email_unread", "mark_email_for_deletion"} && IsId(id, 256)
    case OnDraft(operation, id) => operation in {"mark_draft_for_deletion", "mark_draft_for_sending"} && IsId(id, 256)
    case OnMarker(operation, id) =>
      operation in {"delete_marked_email", "delete_marked_draft", "send_marked_draft"} && IsMarker(id)
    case ListDrafts(n, token) => 1 <= n <= 50 && (token.Some? ==> token.value != "" && ShortText(token.value, 4_096))
    case CreateDraft(to, subject, body) => ShortText(to, 320) && ShortText(subject, 998) && BodyOk(body)
    case CreateReplyDraft(id, body) => IsId(id, 256) && BodyOk(body)
  }

  function Repeated(c: char, n: nat): string {
    seq(n, _ => c)
  }

  // A listing with those lengths and that number of results.
  function Sized(query: nat, ids: nat, id: nat, results: nat, token: nat): Listing {
    Listing(Some(Repeated('x', query)), seq(ids, _ => Repeated('x', id)), results, Some(Repeated('x', token)), false)
  }

  // Where the field checks draw their lines.
  lemma ListingLimits(query: nat, ids: nat, id: nat, results: nat, token: nat)
    ensures ListingOk(Sized(query, ids, id, results, token)) <==>
            query <= 1_024 && ids <= 20 && (ids > 0 ==> 1 <= id <= 256) && 1 <= results <= 50 && 1 <= token <= 4_096
  {
    var l := Sized(query, ids, id, results, token);
    if ids > 0 {
      assert l.labelIds[0] == Repeated('x', id);
    }
  }

  lemma FieldLimits(n: nat, m: nat, k: nat)
    ensures Valid(CreateDraft(Repeated('x', n), Repeated('x', m), Repeated('x', k))) <==>
            n <= 320 && m <= 998 && k <= 24_576
    ensures Valid(CreateReplyDraft(Repeated('x', n), Repeated('x', k))) <==> 1 <= n <= 256 && k <= 24_576
    ensures Valid(OnMessage("read_email", Repeated('x', n))) <==> 1 <= n <= 256
    ensures Valid(OnDraft("mark_draft_for_sending", Repeated('x', n))) <==> 1 <= n <= 256
    ensures Valid(OnMarker("send_marked_draft", Repeated('a', n))) <==> n == 32
    ensures Valid(ListDrafts(n, Some(Repeated('x', m)))) <==> 1 <= n <= 50 && 1 <= m <= 4_096
  {
  }

  // Which characters a body and an identifier may hold.
  lemma CharLimits(c: char)
    ensures Valid(CreateReplyDraft("m", [c])) <==> var n := c as int; n in {9, 10, 13} || 32 <= n <= 126 || 160 <= n
    ensures Valid(OnMessage("read_email", [c])) <==>
            c == '-' || c == '_' || '0' <= c <= '9' || 'A' <= c <= 'Z' || 'a' <= c <= 'z'
  {
    CharClasses(c);
    assert [c][0] == c;
  }

  // A label's name must hold something other than white space, its ID something; neither any control character.
  lemma LabelLimits(s: string)
    ensures Valid(CreateLabel(s)) <==> NoControl(s) && exists i | 0 <= i < |s| :: !IsWhitespace(s[i])
    ensures Valid(DeleteLabel(s)) <==> NoControl(s) && |s| > 0
  {
    var a, b := TrimExactly(s);
    assert a < b ==> !IsWhitespace(s[a]);
  }

  // --- What is sent -------------------------------------------------------------------------------

  function TextOf(s: string): Value {
    Text(Utf8(s))
  }

  function OptionalTextOf(s: Option<string>): Value {
    if s.Some? then TextOf(s.value) else Null
  }

  function TextsOf(s: seq<string>): seq<Value> {
    seq(|s|, i requires 0 <= i < |s| => TextOf(s[i]))
  }

  function ListingFields(l: Listing): seq<(string, Value)> {
    [("query", OptionalTextOf(l.query)), ("label_ids", Array(TextsOf(l.labelIds))),
     ("max_results", Number(l.maxResults)),
     ("page_token", OptionalTextOf(l.pageToken)), ("include_spam_trash", Bool(l.spamAndTrash))]
  }

  function OperationOf(r: Request): string {
    match r
    case ListEmails(_) => "list_emails"
    case Readiness(_) => "readiness"
    case ListLabels => "list_labels"
    case CreateLabel(_) => "create_label"
    case DeleteLabel(_) => "delete_label"
    case ApplyLabel(_, _) => "apply_label"
    case OnMessage(operation, _) => operation
    case OnDraft(operation, _) => operation
    case OnMarker(operation, _) => operation
    case ListDrafts(_, _) => "list_drafts"
    case CreateDraft(_, _, _) => "create_draft"
    case CreateReplyDraft(_, _) => "create_reply_draft"
  }

  function FieldsOf(r: Request): seq<(string, Value)> {
    match r
    case ListEmails(l) => ListingFields(l)
    case Readiness(l) => ListingFields(l)
    case ListLabels => []
    case CreateLabel(name) => [("name", TextOf(name))]
    case DeleteLabel(id) => [("label_id", TextOf(id))]
    case ApplyLabel(messageId, id) => [("message_id", TextOf(messageId)), ("label_id", TextOf(id))]
    case OnMessage(_, id) => [("message_id", TextOf(id))]
    case OnDraft(_, id) => [("draft_id", TextOf(id))]
    case OnMarker(_, id) => [("marker_id", TextOf(id))]
    case ListDrafts(n, token) => [("max_results", Number(n)), ("page_token", OptionalTextOf(token))]
    case CreateDraft(to, subject, body) => [("to", TextOf(to)), ("subject", TextOf(subject)), ("body", TextOf(body))]
    case CreateReplyDraft(id, body) => [("message_id", TextOf(id)), ("body", TextOf(body))]
  }

  function RequestValue(r: Request): Value {
    Object([("operation", Text(OperationOf(r)))] + FieldsOf(r))
  }

  // The single-request clients send every valid request, whatever its length.
  method WriteRequest(r: Request) returns (sent: string)
    requires Valid(r)
    ensures ReadResult(sent, false, |sent|) == Ok(sent) && sent == Encode(RequestValue(r)) + "\n"
  {
    sent := Encode(RequestValue(r));
    sent := sent + "\n";
    FrameIsRead(RequestValue(r), "", false, |sent|);
    assert sent + "" == sent;
  }

  // The broker reads exactly this frame.
  predicate Accepted(r: Request) {
    var frame := Encode(RequestValue(r)) + "\n";
    ReadResult(frame, false, MAX_REQUEST_BYTES) == Ok(frame)
  }

  predicate Refused(r: Request) {
    ReadResult(Encode(RequestValue(r)) + "\n", false, MAX_REQUEST_BYTES) == Err(TooLarge)
  }

  lemma AcceptedIffShort(r: Request)
    ensures Accepted(r) <==> |Encode(RequestValue(r))| + 1 <= 131_072
    ensures Refused(r) <==> !Accepted(r)
  {
    var frame := Encode(RequestValue(r)) + "\n";
    FrameIsRead(RequestValue(r), "", false, MAX_REQUEST_BYTES);
    assert frame + "" == frame;
  }

  // --- Sizes --------------------------------------------------------------------------------------

  lemma {:induction false} EscapeJoins(s: string, t: string)
    ensures Escape(s + t) == Escape(s) + Escape(t)
  {
    if s == "" {
      assert s + t == t;
    } else {
      assert (s + t)[1..] == s[1..] + t;
      EscapeJoins(s[1..], t);
    }
  }

  predicate NeverEscaped(s: string) {
    forall i | 0 <= i < |s| :: s[i] >= 0x80 as char
  }

  lemma {:induction false} NeverEscapedStays(s: string)
    requires NeverEscaped(s)
    ensures Escape(s) == s
  {
    if s != "" {
      NeverEscapedStays(s[1..]);
    }
  }

  // One scalar value takes at least one byte and at most four, escaping included.
  lemma EscapedChar(c: char)
    requires !IsControl(c) || IsSpacing(c)
    ensures 1 <= |Escape(Utf8Char(c))| <= 4
  {
    if c < 0x80 as char {
      assert Utf8Char(c)[1..] == "";
    } else {
      NeverEscapedStays(Utf8Char(c));
    }
  }

  lemma {:induction false} EscapedText(text: string)
    requires forall i | 0 <= i < |text| :: !IsControl(text[i]) || IsSpacing(text[i])
    ensures |text| <= |Escape(Utf8(text))| <= 4 * |text|
  {
    if text != "" {
      EscapedChar(text[0]);
      EscapedText(text[1..]);
      EscapeJoins(Utf8Char(text[0]), Utf8(text[1..]));
    }
  }

  // An ID is sent as it is.
  lemma {:induction false} IdEscape(id: string)
    requires forall i | 0 <= i < |id| :: ' ' < id[i] < 0x7f as char && id[i] != '"' && id[i] != '\\'
    ensures Escape(Utf8(id)) == id
  {
    if id != "" {
      IdEscape(id[1..]);
      assert Utf8(id) == [id[0]] + Utf8(id[1..]);
      EscapeJoins([id[0]], Utf8(id[1..]));
      assert [id[0]][1..] == "";
      assert [id[0]] + id[1..] == id;
    }
  }

  lemma ValueSize(v: Value, text: string, most: nat)
    requires v == TextOf(text) || v == Null
    requires v != Null ==> |text| <= most && forall i | 0 <= i < |text| :: !IsControl(text[i]) || IsSpacing(text[i])
    ensures |Encode(v)| <= 4 * most + 4
  {
    if v != Null {
      EscapedText(text);
    }
  }

  // A field of a short name.
  lemma FieldBound(key: string, v: Value, most: nat)
    requires |key| <= 20 && |Encode(v)| <= most
    ensures |EncodeField((key, v))| <= most + 123
  {
    EscapeSize(key);
  }

  lemma IdsSize(ids: seq<string>)
    requires |ids| <= 20 && forall i | 0 <= i < |ids| :: ShortText(ids[i], 256)
    ensures |Encode(Array(TextsOf(ids)))| <= 22_000
  {
    var values := TextsOf(ids);
    forall k | 0 <= k < |values| ensures |Encode(values[k])| <= 1_028 {
      ValueSize(values[k], ids[k], 256);
    }
    ItemsSize(values, 1_028);
    assert |values| * 1_029 <= 20 * 1_029;
  }

  lemma OneField(f: (string, Value), rest: seq<(string, Value)>)
    ensures FieldSizes([f] + rest) == |EncodeField(f)| + 1 + FieldSizes(rest)
  {
    assert ([f] + rest)[1..] == rest;
  }

  // Up to five fields, by the bounds of their values.
  lemma FewFields(fields: seq<(string, Value)>, a: nat, b: nat, c: nat, d: nat, e: nat)
    requires |fields| <= 5 && forall i | 0 <= i < |fields| :: |fields[i].0| <= 20
    requires |fields| > 0 ==> |Encode(fields[0].1)| <= a
    requires |fields| > 1 ==> |Encode(fields[1].1)| <= b
    requires |fields| > 2 ==> |Encode(fields[2].1)| <= c
    requires |fields| > 3 ==> |Encode(fields[3].1)| <= d
    requires |fields| > 4 ==> |Encode(fields[4].1)| <= e
    ensures FieldSizes(fields) <= a + b + c + d + e + 124 * |fields|
    decreases |fields|
  {
    if fields != [] {
      FieldBound(fields[0].0, fields[0].1, a);
      var rest := fields[1..];
      assert forall i | 0 <= i < |rest| :: rest[i] == fields[i + 1];
      FewFields(rest, b, c, d, e, 0);
    }
  }

  lemma WholeSize(r: Request, most: nat)
    requires |OperationOf(r)| <= 30 && FieldSizes(FieldsOf(r)) <= most && most + 400 < MAX_REQUEST_BYTES
    ensures Accepted(r)
  {
    var f := ("operation", Text(OperationOf(r)));
    OneField(f, FieldsOf(r));
    ObjectSize([f] + FieldsOf(r));
    OperationBound(f.0, OperationOf(r));
    AcceptedIffShort(r);
  }

  lemma OperationBound(key: string, operation: string)
    requires |key| <= 20 && |operation| <= 30
    ensures |EncodeField((key, Text(operation)))| <= 305
  {
    EscapeSize(key);
    EscapeSize(operation);
  }

  // --- Which requests are accepted ----------------------------------------------------------------

  predicate NamesLabel(r: Request) {
    r.CreateLabel? || r.DeleteLabel? || r.ApplyLabel?
  }

  lemma ListingSize(l: Listing)
    requires ListingOk(l)
    ensures FieldSizes(ListingFields(l)) <= 50_000
  {
    ValueSize(OptionalTextOf(l.query), if l.query.Some? then l.query.value else "", 1_024);
    ValueSize(OptionalTextOf(l.pageToken), if l.pageToken.Some? then l.pageToken.value else "", 4_096);
    IdsSize(l.labelIds);
    assert |Decimal(l.maxResults)| <= 2;
    FewFields(ListingFields(l), 4_100, 22_000, 2, 16_388, 5);
  }

  lemma ListingFits(r: Request, l: Listing)
    requires (r == ListEmails(l) || r == Readiness(l)) && ListingOk(l)
    ensures Accepted(r)
  {
    ListingSize(l);
    WholeSize(r, 50_000);
  }

  lemma CreateDraftFits(to: string, subject: string, body: string)
    requires Valid(CreateDraft(to, subject, body))
    ensures Accepted(CreateDraft(to, subject, body))
  {
    ValueSize(TextOf(to), to, 320);
    ValueSize(TextOf(subject), subject, 998);
    ValueSize(TextOf(body), body, 24_576);
    FewFields([("to", TextOf(to)), ("subject", TextOf(subject)), ("body", TextOf(body))], 1_284, 3_996, 98_308, 0, 0);
    WholeSize(CreateDraft(to, subject, body), 110_000);
  }

  lemma CreateReplyFits(messageId: string, body: string)
    requires Valid(CreateReplyDraft(messageId, body))
    ensures Accepted(CreateReplyDraft(messageId, body))
  {
    ValueSize(TextOf(messageId), messageId, 256);
    ValueSize(TextOf(body), body, 24_576);
    FewFields([("message_id", TextOf(messageId)), ("body", TextOf(body))], 1_028, 98_308, 0, 0, 0);
    WholeSize(CreateReplyDraft(messageId, body), 110_000);
  }

  lemma IdFits(r: Request, id: string)
    requires Valid(r) && (r == ListLabels || (|FieldsOf(r)| == 1 && FieldsOf(r)[0].1 == TextOf(id) && IsId(id, 256)))
    requires |OperationOf(r)| <= 30 && (r != ListLabels ==> |FieldsOf(r)[0].0| <= 20)
    ensures Accepted(r)
  {
    if r != ListLabels {
      ValueSize(TextOf(id), id, 256);
    }
    FewFields(FieldsOf(r), 1_028, 0, 0, 0, 0);
    WholeSize(r, 2_000);
  }

  lemma DraftListFits(r: Request)
    requires Valid(r) && r.ListDrafts?
    ensures Accepted(r)
  {
    ValueSize(OptionalTextOf(r.pageToken), if r.pageToken.Some? then r.pageToken.value else "", 4_096);
    assert |Decimal(r.maxResults)| <= 2;
    FewFields(FieldsOf(r), 2, 16_388, 0, 0, 0);
    WholeSize(r, 20_000);
  }

  // Every valid request that does not name a label is accepted, escaping and four-byte characters included.
  lemma OtherRequestsFit(r: Request)
    requires Valid(r) && !NamesLabel(r)
    ensures Accepted(r)
  {
    match r
    case ListEmails(l) => ListingFits(r, l);
    case Readiness(l) => ListingFits(r, l);
    case ListLabels => IdFits(r, "");
    case OnMessage(_, id) => IdFits(r, id);
    case OnDraft(_, id) => IdFits(r, id);
    case OnMarker(_, id) => IdFits(r, id);
    case ListDrafts(_, _) => DraftListFits(r);
    case CreateDraft(to, subject, body) => CreateDraftFits(to, subject, body);
    case CreateReplyDraft(id, body) => CreateReplyFits(id, body);
  }

  // --- Requests that name a label -----------------------------------------------------------------

  lemma TwoTexts(a: string, s: string, b: string, t: string)
    requires Plain(a) && Plain(s) && Plain(b)
    ensures |Encode(Object([(a, Text(s))] + [(b, TextOf(t))]))| == |a| + |s| + |b| + |Escape(Utf8(t))| + 13
  {
    var f, g := (a, Text(s)), (b, TextOf(t));
    assert [f] + [g] == [f, g];
    FieldsOfTwo(f, g);
    PlainEscape(a);
    PlainEscape(s);
    PlainEscape(b);
    TextFieldSize(a, s);
    TextFieldSize(b, Utf8(t));
  }

  lemma ThreeTexts(a: string, s: string, b: string, t: string, c: string, u: string)
    requires Plain(a) && Plain(s) && Plain(b) && Plain(c)
    ensures |Encode(Object([(a, Text(s))] + [(b, TextOf(t)), (c, TextOf(u))]))| ==
            |a| + |s| + |b| + |Escape(Utf8(t))| + |c| + |Escape(Utf8(u))| + 19
  {
    var f, g, h := (a, Text(s)), (b, TextOf(t)), (c, TextOf(u));
    assert [f] + [g, h] == [f, g, h];
    FieldsOfThree(f, g, h);
    PlainEscape(a);
    PlainEscape(s);
    PlainEscape(b);
    PlainEscape(c);
    TextFieldSize(a, s);
    TextFieldSize(b, Utf8(t));
    TextFieldSize(c, Utf8(u));
  }

  lemma CreateLabelSize(name: string)
    ensures |Encode(RequestValue(CreateLabel(name)))| == |Escape(Utf8(name))| + 38
  {
    TwoTexts("operation", "create_label", "name", name);
  }

  lemma DeleteLabelSize(id: string)
    ensures |Encode(RequestValue(DeleteLabel(id)))| == |Escape(Utf8(id))| + 42
  {
    TwoTexts("operation", "delete_label", "label_id", id);
  }

  lemma ApplyNames()
    ensures Plain("operation") && Plain("apply_label") && Plain("message_id") && Plain("label_id")
  {
  }

  lemma IdIsPlain(id: string)
    requires IsId(id, 256)
    ensures |Escape(Utf8(id))| == |id|
  {
    IdEscape(id);
  }

  lemma ApplyLabelSize(messageId: string, id: string)
    requires IsId(messageId, 256)
    ensures |Encode(RequestValue(ApplyLabel(messageId, id)))| == |messageId| + |Escape(Utf8(id))| + 57
  {
    IdIsPlain(messageId);
    ApplyNames();
    ThreeTexts("operation", "apply_label", "message_id", messageId, "label_id", id);
  }

  // A label request is accepted exactly when the escaped name or ID leaves room for that overhead.
  lemma LabelRequestAccepted(r: Request)
    requires Valid(r) && NamesLabel(r)
    ensures Accepted(r) <==>
            match r
            case CreateLabel(name) => |Escape(Utf8(name))| + 39 <= 131_072
            case DeleteLabel(id) => |Escape(Utf8(id))| + 43 <= 131_072
            case ApplyLabel(messageId, id) => |messageId| + |Escape(Utf8(id))| + 58 <= 131_072
    ensures Refused(r) <==> !Accepted(r)
  {
    AcceptedIffShort(r);
    match r
    case CreateLabel(name) => CreateLabelSize(name);
    case DeleteLabel(id) => DeleteLabelSize(id);
    case ApplyLabel(messageId, id) => ApplyLabelSize(messageId, id);
  }

  // So valid label requests are sent that the broker refuses: every long enough name or ID makes one.
  lemma LongLabelRefused(n: nat)
    requires n >= 131_072
    ensures Valid(CreateLabel(Repeated('x', n))) && Refused(CreateLabel(Repeated('x', n)))
    ensures Valid(DeleteLabel(Repeated('x', n))) && Refused(DeleteLabel(Repeated('x', n)))
    ensures Valid(ApplyLabel("m", Repeated('x', n))) && Refused(ApplyLabel("m", Repeated('x', n)))
  {
    var name := Repeated('x', n);
    assert name[0] == 'x' && name[|name| - 1] == 'x';
    assert TrimStart(name) == name && TrimEnd(name) == name;
    EscapedText(name);
    LabelRequestAccepted(CreateLabel(name));
    LabelRequestAccepted(DeleteLabel(name));
    LabelRequestAccepted(ApplyLabel("m", name));
  }
}
