// The broker's side of a single request: the frame read back into the request, by operation and by field name
// (src/broker/protocol.rs, src/broker/client.rs).
module RequestReader {
  import opened Wrappers
  import opened Json
  import opened JsonReader
  import opened Requests
  import opened Texts

  // --- The broker ---------------------------------------------------------------------------------

  // The scalar values of a text that arrived as UTF-8.
  function Decoded(v: Value): Option<string> {
    if v.Text? && IsBytes(v.text) then ReadUtf8(v.text) else None
  }

  function TextIn(f: Fields, name: string): Option<string> {
    var v := Get(f, name);
    if v.Some? then Decoded(v.value) else None
  }

  // A text or null.
  function OptionIn(f: Fields, name: string): Option<Option<string>> {
    var v := Get(f, name);
    if v.None? then None
    else if v.value.Null? then Some(None)
    else
      var text := Decoded(v.value);
      if text.None? then None else Some(Some(text.value))
  }

  function TextsIn(f: Fields, name: string): Option<seq<string>> {
    var v := Get(f, name);
    if v.Some? && v.value.Array? && forall i | 0 <= i < |v.value.items| :: Decoded(v.value.items[i]).Some?
    then Some(seq(|v.value.items|, i requires 0 <= i < |v.value.items| => Decoded(v.value.items[i]).value))
    else None
  }

  function NumberIn(f: Fields, name: string): Option<nat> {
    var v := Get(f, name);
    if v.Some? && v.value.Number? then Some(v.value.n) else None
  }

  function FlagIn(f: Fields, name: string): Option<bool> {
    var v := Get(f, name);
    if v.Some? && v.value.Bool? then Some(v.value.flag) else None
  }

  function ListingIn(f: Fields): Option<Listing> {
    var query, ids, most := OptionIn(f, "query"), TextsIn(f, "label_ids"), NumberIn(f, "max_results");
    var token, all := OptionIn(f, "page_token"), FlagIn(f, "include_spam_trash");
    if query.None? || ids.None? || most.None? || token.None? || all.None? then None
    else Some(Listing(query.value, ids.value, most.value, token.value, all.value))
  }

  // The operations that name one message, draft or marker and nothing else come first.
  function RequestOf(operation: string, f: Fields): Option<Request> {
    if operation in {"read_email", "mark_email_read", "mark_email_unread", "mark_email_for_deletion"} then
      var id := TextIn(f, "message_id");
      if id.Some? then Some(OnMessage(operation, id.value)) else None
    else if operation in {"mark_draft_for_deletion", "mark_draft_for_sending"} then
      var id := TextIn(f, "draft_id");
      if id.Some? then Some(OnDraft(operation, id.value)) else None
    else if operation in {"delete_marked_email", "delete_marked_draft", "send_marked_draft"} then
      var id := TextIn(f, "marker_id");
      if id.Some? then Some(OnMarker(operation, id.value)) else None
    else LargerRequestOf(operation, f)
  }

  function LargerRequestOf(operation: string, f: Fields): Option<Request> {
    match operation
    case "list_emails" =>
      var l := ListingIn(f);
      if l.Some? then Some(ListEmails(l.value)) else None
    case "readiness" =>
      var l := ListingIn(f);
      if l.Some? then Some(Readiness(l.value)) else None
    case "list_labels" => Some(ListLabels)
    case "create_label" =>
      var name := TextIn(f, "name");
      if name.Some? then Some(CreateLabel(name.value)) else None
    case "delete_label" =>
      var id := TextIn(f, "label_id");
      if id.Some? then Some(DeleteLabel(id.value)) else None
    case "apply_label" =>
      var message, id := TextIn(f, "message_id"), TextIn(f, "label_id");
      if message.Some? && id.Some? then Some(ApplyLabel(message.value, id.value)) else None
    case "list_drafts" =>
      var most, token := NumberIn(f, "max_results"), OptionIn(f, "page_token");
      if most.Some? && token.Some? then Some(ListDrafts(most.value, token.value)) else None
    case "create_draft" =>
      var to, subject, body := TextIn(f, "to"), TextIn(f, "subject"), TextIn(f, "body");
      if to.Some? && subject.Some? && body.Some? then Some(CreateDraft(to.value, subject.value, body.value)) else None
    case "create_reply_draft" =>
      var id, body := TextIn(f, "message_id"), TextIn(f, "body");
      if id.Some? && body.Some? then Some(CreateReplyDraft(id.value, body.value)) else None
    case _ => None
  }

  function ReadRequest(frame: string): Option<Request> {
    var read := ReadValue(frame);
    if read.None? || read.value.1 != "\n" || !read.value.0.Object? then None
    else
      var operation := Get(read.value.0.fields, "operation");
      if operation.None? || !operation.value.Text? then None
      else RequestOf(operation.value.text, read.value.0.fields)
  }

  // --- What it reads ------------------------------------------------------------------------------

  lemma DecodedText(s: string)
    ensures Decoded(TextOf(s)) == Some(s)
  {
    Utf8ReadsBack(s);
  }

  lemma TextRead(f: Fields, k: int, s: string)
    requires NamedOnce(f, k) && f[k].1 == TextOf(s)
    ensures TextIn(f, f[k].0) == Some(s)
  {
    GetAt(f, k);
    DecodedText(s);
  }

  lemma OptionRead(f: Fields, k: int, o: Option<string>)
    requires NamedOnce(f, k) && f[k].1 == OptionalTextOf(o)
    ensures OptionIn(f, f[k].0) == Some(o)
  {
    GetAt(f, k);
    if o.Some? {
      DecodedText(o.value);
    }
  }

  lemma TextsRead(f: Fields, k: int, s: seq<string>)
    requires NamedOnce(f, k) && f[k].1 == Array(TextsOf(s))
    ensures TextsIn(f, f[k].0) == Some(s)
  {
    GetAt(f, k);
    var items := f[k].1.items;
    forall i | 0 <= i < |items| ensures Decoded(items[i]) == Some(s[i]) {
      DecodedText(s[i]);
    }
    assert seq(|items|, i requires 0 <= i < |items| => Decoded(items[i]).value) == s;
  }

  // A request's fields behind its operation.
  function SentFields(operation: string, rest: Fields): Fields {
    [("operation", Text(operation))] + rest
  }

  lemma ListingReads(operation: string, l: Listing)
    ensures ListingIn(SentFields(operation, ListingFields(l))) == Some(l)
  {
    var f := SentFields(operation, ListingFields(l));
    ApartOnce(f, 1);
    OptionRead(f, 1, l.query);
    ApartOnce(f, 2);
    TextsRead(f, 2, l.labelIds);
    ApartOnce(f, 3);
    GetAt(f, 3);
    ApartOnce(f, 4);
    OptionRead(f, 4, l.pageToken);
    ApartOnce(f, 5);
    GetAt(f, 5);
  }

  lemma LargerByLength(operation: string, f: Fields)
    requires |operation| in {9, 11, 12, 18}
    ensures RequestOf(operation, f) == LargerRequestOf(operation, f)
  {
  }

  // What the broker makes of the fields is the request they were written from.
  predicate ReadsBack(r: Request) {
    RequestOf(OperationOf(r), SentFields(OperationOf(r), FieldsOf(r))) == Some(r)
  }

  lemma CreateLabelReads(name: string)
    ensures ReadsBack(CreateLabel(name))
  {
    var f := SentFields("create_label", FieldsOf(CreateLabel(name)));
    LargerByLength("create_label", f);
    ApartOnce(f, 1);
    TextRead(f, 1, name);
  }

  lemma DeleteLabelReads(id: string)
    ensures ReadsBack(DeleteLabel(id))
  {
    var f := SentFields("delete_label", FieldsOf(DeleteLabel(id)));
    LargerByLength("delete_label", f);
    ApartOnce(f, 1);
    TextRead(f, 1, id);
  }

  lemma ApplyLabelReads(messageId: string, id: string)
    ensures ReadsBack(ApplyLabel(messageId, id))
  {
    var f := SentFields("apply_label", FieldsOf(ApplyLabel(messageId, id)));
    LargerByLength("apply_label", f);
    ApartOnce(f, 1);
    TextRead(f, 1, messageId);
    ApartOnce(f, 2);
    TextRead(f, 2, id);
  }

  lemma ListDraftsReads(most: nat, token: Option<string>)
    ensures ReadsBack(ListDrafts(most, token))
  {
    var f := SentFields("list_drafts", FieldsOf(ListDrafts(most, token)));
    LargerByLength("list_drafts", f);
    ApartOnce(f, 1);
    GetAt(f, 1);
    ApartOnce(f, 2);
    OptionRead(f, 2, token);
  }

  lemma DraftFieldsRead(operation: string, to: string, subject: string, body: string)
    ensures var f := SentFields(operation, FieldsOf(CreateDraft(to, subject, body)));
            TextIn(f, "to") == Some(to) && TextIn(f, "subject") == Some(subject) && TextIn(f, "body") == Some(body)
  {
    var f := SentFields(operation, FieldsOf(CreateDraft(to, subject, body)));
    ApartOnce(f, 1);
    TextRead(f, 1, to);
    ApartOnce(f, 2);
    TextRead(f, 2, subject);
    ApartOnce(f, 3);
    TextRead(f, 3, body);
  }

  lemma CreateDraftReads(to: string, subject: string, body: string)
    ensures ReadsBack(CreateDraft(to, subject, body))
  {
    LargerByLength("create_draft", SentFields("create_draft", FieldsOf(CreateDraft(to, subject, body))));
    DraftFieldsRead("create_draft", to, subject, body);
  }

  lemma ReplyFieldsRead(operation: string, id: string, body: string)
    ensures var f := SentFields(operation, FieldsOf(CreateReplyDraft(id, body)));
            TextIn(f, "message_id") == Some(id) && TextIn(f, "body") == Some(body)
  {
    var f := SentFields(operation, FieldsOf(CreateReplyDraft(id, body)));
    ApartOnce(f, 1);
    TextRead(f, 1, id);
    ApartOnce(f, 2);
    TextRead(f, 2, body);
  }

  lemma CreateReplyReads(id: string, body: string)
    ensures ReadsBack(CreateReplyDraft(id, body))
  {
    LargerByLength("create_reply_draft", SentFields("create_reply_draft", FieldsOf(CreateReplyDraft(id, body))));
    ReplyFieldsRead("create_reply_draft", id, body);
  }

  // A request that names one message, draft or marker: its field is the second.
  lemma OneIdReads(operation: string, name: string, id: string)
    requires Apart("operation", name)
    ensures TextIn(SentFields(operation, [(name, TextOf(id))]), name) == Some(id)
  {
    var f := SentFields(operation, [(name, TextOf(id))]);
    ApartOnce(f, 1);
    TextRead(f, 1, id);
  }

  lemma OnMessageReads(operation: string, id: string)
    requires operation in {"read_email", "mark_email_read", "mark_email_unread", "mark_email_for_deletion"}
    ensures ReadsBack(OnMessage(operation, id))
  {
    OneIdReads(operation, "message_id", id);
  }

  lemma OnDraftReads(operation: string, id: string)
    requires operation in {"mark_draft_for_deletion", "mark_draft_for_sending"}
    ensures ReadsBack(OnDraft(operation, id))
  {
    OneIdReads(operation, "draft_id", id);
  }

  lemma OnMarkerReads(operation: string, id: string)
    requires operation in {"delete_marked_email", "delete_marked_draft", "send_marked_draft"}
    ensures ReadsBack(OnMarker(operation, id))
  {
    OneIdReads(operation, "marker_id", id);
    assert |operation| in {17, 19} && operation[0] in {'d', 's'};
  }

  lemma FieldsReadBack(r: Request)
    requires Valid(r)
    ensures ReadsBack(r)
  {
    match r
    case ListEmails(l) => ListingReads("list_emails", l);
    case Readiness(l) => ListingReads("readiness", l);
    case ListLabels =>
    case CreateLabel(name) => CreateLabelReads(name);
    case DeleteLabel(id) => DeleteLabelReads(id);
    case ApplyLabel(messageId, id) => ApplyLabelReads(messageId, id);
    case OnMessage(operation, id) => OnMessageReads(operation, id);
    case OnDraft(operation, id) => OnDraftReads(operation, id);
    case OnMarker(operation, id) => OnMarkerReads(operation, id);
    case ListDrafts(n, token) => ListDraftsReads(n, token);
    case CreateDraft(to, subject, body) => CreateDraftReads(to, subject, body);
    case CreateReplyDraft(id, body) => CreateReplyReads(id, body);
  }

  lemma OperationReads(operation: string, rest: Fields)
    ensures Get(SentFields(operation, rest), "operation") == Some(Text(operation))
  {
    var f := SentFields(operation, rest);
    ApartOnce(f, 0);
    GetAt(f, 0);
  }

  // The frame of every valid request is read back as that request: its operation, and each field under its name.
  lemma FrameCarriesRequest(r: Request)
    requires Valid(r)
    ensures ReadRequest(Encode(RequestValue(r)) + "\n") == Some(r)
  {
    ValueReadsBack(RequestValue(r), "\n");
    FieldsReadBack(r);
    OperationReads(OperationOf(r), FieldsOf(r));
    assert RequestValue(r) == Object(SentFields(OperationOf(r), FieldsOf(r)));
  }

  // So no two valid requests are sent as the same frame.
  lemma FramesDiffer(r: Request, q: Request)
    requires Valid(r) && Valid(q) && Encode(RequestValue(r)) == Encode(RequestValue(q))
    ensures r == q
  {
    FrameCarriesRequest(r);
    FrameCarriesRequest(q);
  }
}
