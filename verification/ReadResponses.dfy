// The response frame of a bulk read as its receiver reads it: field by field, by name
// (src/gmail/models.rs, src/broker/protocol.rs, src/gmail/bulk/budget.rs).
module ReadResponses {
  import opened Wrappers
  import opened Json
  import opened JsonReader
  import opened ReadBudget
  import opened Frames

  // --- The receiver -------------------------------------------------------------------------------

  function TextAt(f: Fields, name: string): Option<string> {
    var v := Get(f, name);
    if v.Some? && v.value.Text? then Some(v.value.text) else None
  }

  // A text or null.
  function OptionAt(f: Fields, name: string): Option<Option<string>> {
    var v := Get(f, name);
    if v.None? then None
    else if v.value.Null? then Some(None)
    else if v.value.Text? then Some(Some(v.value.text))
    else None
  }

  function TextsAt(f: Fields, name: string): Option<seq<string>> {
    var v := Get(f, name);
    if v.Some? && v.value.Array? && forall i | 0 <= i < |v.value.items| :: v.value.items[i].Text?
    then Some(seq(|v.value.items|, i requires 0 <= i < |v.value.items| => v.value.items[i].text))
    else None
  }

  function ObjectAt(f: Fields, name: string): Option<Fields> {
    var v := Get(f, name);
    if v.Some? && v.value.Object? then Some(v.value.fields) else None
  }

  function StatusOf(name: string): Option<BodyStatus> {
    match name
    case "complete" => Some(Complete)
    case "no_readable_body" => Some(NoReadableBody)
    case "incomplete" => Some(Incomplete)
    case _ => None
  }

  function EmailOf(f: Fields): Option<Email> {
    var to := ObjectAt(f, "recipients");
    var id, thread, from := TextAt(f, "message_id"), TextAt(f, "thread_id"), OptionAt(f, "from");
    var date, subject, labels := OptionAt(f, "date"), OptionAt(f, "subject"), TextsAt(f, "labels");
    var body, status := OptionAt(f, "body_text"), TextAt(f, "body_status");
    if id.None? || thread.None? || from.None? || to.None? || date.None? || subject.None? || labels.None? || body.None?
       || status.None? || StatusOf(status.value).None?
    then None
    else
      var direct, cc, bcc := TextsAt(to.value, "to"), TextsAt(to.value, "cc"), TextsAt(to.value, "bcc");
      if direct.None? || cc.None? || bcc.None? then None
      else
        Some(Email(id.value, thread.value, from.value, direct.value, cc.value, bcc.value, date.value, subject.value,
                   labels.value, body.value, StatusOf(status.value).value))
  }

  function OutcomeOf(f: Fields): Option<Outcome> {
    var status, code, message := TextAt(f, "status"), TextAt(f, "code"), TextAt(f, "message");
    if status == Some("succeeded") then
      var result := ObjectAt(f, "result");
      if result.None? || EmailOf(result.value).None? then None else Some(Succeeded(EmailOf(result.value).value))
    else if code.None? || message.None? then None
    else if status == Some("failed") then Some(Failed(code.value, message.value))
    else if status == Some("unknown") then Some(Unknown(code.value, message.value))
    else if status == Some("not_attempted") then Some(NotAttempted(code.value, message.value))
    else None
  }

  function ItemOf(v: Value): Option<Item> {
    if !v.Object? then None
    else
      var index, outcome := Get(v.fields, "index"), OutcomeOf(v.fields);
      if index.None? || !index.value.Number? || outcome.None? then None
      else Some(Item(index.value.n, outcome.value))
  }

  function ItemsOf(values: seq<Value>): Option<seq<Item>> {
    if values == [] then Some([])
    else
      var first, rest := ItemOf(values[0]), ItemsOf(values[1..]);
      if first.None? || rest.None? then None else Some([first.value] + rest.value)
  }

  // The items of one frame: a response with the status of a bulk read, and nothing behind its newline.
  function ReadResponse(frame: string): Option<seq<Item>> {
    var read := ReadValue(frame);
    if read.None? || read.value.1 != "\n" || !read.value.0.Object? then None
    else
      var result := ObjectAt(read.value.0.fields, "result");
      if TextAt(read.value.0.fields, "status") != Some("emails_read") || result.None? then None
      else
        var items := Get(result.value, "items");
        if items.None? || !items.value.Array? then None else ItemsOf(items.value.items)
  }

  // --- What it reads ------------------------------------------------------------------------------

  lemma OptionReads(f: Fields, k: int, o: Option<string>)
    requires NamedOnce(f, k) && f[k].1 == OptionalText(o)
    ensures OptionAt(f, f[k].0) == Some(o)
  {
    GetAt(f, k);
  }

  lemma TextReads(f: Fields, k: int, s: string)
    requires NamedOnce(f, k) && f[k].1 == Text(s)
    ensures TextAt(f, f[k].0) == Some(s)
  {
    GetAt(f, k);
  }

  lemma TextsRead(f: Fields, k: int, s: seq<string>)
    requires NamedOnce(f, k) && f[k].1 == Texts(s)
    ensures TextsAt(f, f[k].0) == Some(s)
  {
    GetAt(f, k);
    var items := f[k].1.items;
    assert seq(|items|, i requires 0 <= i < |items| => items[i].text) == s;
  }

  lemma ObjectReads(f: Fields, k: int, o: Fields)
    requires NamedOnce(f, k) && f[k].1 == Object(o)
    ensures ObjectAt(f, f[k].0) == Some(o)
  {
    GetAt(f, k);
  }

  function EmailFields(e: Email): Fields {
    EmailValue(e).fields
  }

  lemma EmailIdsRead(e: Email)
    ensures TextAt(EmailFields(e), "message_id") == Some(e.messageId)
    ensures TextAt(EmailFields(e), "thread_id") == Some(e.threadId)
    ensures OptionAt(EmailFields(e), "from") == Some(e.from)
  {
    var f := EmailFields(e);
    ApartOnce(f, 0);
    TextReads(f, 0, e.messageId);
    ApartOnce(f, 1);
    TextReads(f, 1, e.threadId);
    ApartOnce(f, 2);
    OptionReads(f, 2, e.from);
  }

  lemma EmailHeadersRead(e: Email)
    ensures OptionAt(EmailFields(e), "date") == Some(e.date)
    ensures OptionAt(EmailFields(e), "subject") == Some(e.subject)
    ensures TextsAt(EmailFields(e), "labels") == Some(e.labels)
  {
    var f := EmailFields(e);
    ApartOnce(f, 4);
    OptionReads(f, 4, e.date);
    ApartOnce(f, 5);
    OptionReads(f, 5, e.subject);
    ApartOnce(f, 6);
    TextsRead(f, 6, e.labels);
  }

  lemma EmailBodyRead(e: Email)
    ensures OptionAt(EmailFields(e), "body_text") == Some(e.bodyText)
    ensures var status := TextAt(EmailFields(e), "body_status");
            status.Some? && StatusOf(status.value) == Some(e.bodyStatus)
  {
    var f := EmailFields(e);
    ApartOnce(f, 7);
    OptionReads(f, 7, e.bodyText);
    ApartOnce(f, 8);
    TextReads(f, 8, f[8].1.text);
  }

  lemma RecipientsRead(e: Email)
    ensures var to := ObjectAt(EmailFields(e), "recipients");
            && to.Some? && TextsAt(to.value, "to") == Some(e.to) && TextsAt(to.value, "cc") == Some(e.cc)
            && TextsAt(to.value, "bcc") == Some(e.bcc)
  {
    var f := EmailFields(e);
    ApartOnce(f, 3);
    var to := f[3].1.fields;
    ObjectReads(f, 3, to);
    ApartOnce(to, 0);
    TextsRead(to, 0, e.to);
    ApartOnce(to, 1);
    TextsRead(to, 1, e.cc);
    ApartOnce(to, 2);
    TextsRead(to, 2, e.bcc);
  }

  // Every field of an email arrives under its own name.
  lemma EmailReadsBack(e: Email)
    ensures EmailOf(EmailFields(e)) == Some(e)
  {
    EmailIdsRead(e);
    EmailHeadersRead(e);
    EmailBodyRead(e);
    RecipientsRead(e);
  }

  lemma SucceededReadsBack(index: nat, e: Email)
    ensures ItemOf(ItemValue(Item(index, Succeeded(e)))) == Some(Item(index, Succeeded(e)))
  {
    var f := ItemValue(Item(index, Succeeded(e))).fields;
    ApartOnce(f, 0);
    GetAt(f, 0);
    ApartOnce(f, 1);
    TextReads(f, 1, "succeeded");
    ApartOnce(f, 2);
    ObjectReads(f, 2, EmailFields(e));
    EmailReadsBack(e);
  }

  // The four fields of an item without a result.
  lemma NoticeReads(index: nat, status: string, code: string, message: string)
    ensures var f := Notice(index, status, code, message).fields;
            && Get(f, "index") == Some(Number(index)) && TextAt(f, "status") == Some(status)
            && TextAt(f, "code") == Some(code) && TextAt(f, "message") == Some(message)
  {
    var f := Notice(index, status, code, message).fields;
    ApartOnce(f, 0);
    GetAt(f, 0);
    ApartOnce(f, 1);
    TextReads(f, 1, status);
    ApartOnce(f, 2);
    TextReads(f, 2, code);
    ApartOnce(f, 3);
    TextReads(f, 3, message);
  }

  lemma ItemReadsBack(item: Item)
    ensures ItemOf(ItemValue(item)) == Some(item)
  {
    match item.outcome
    case Succeeded(e) => SucceededReadsBack(item.index, e);
    case Failed(code, message) => NoticeReads(item.index, "failed", code, message);
    case Unknown(code, message) => NoticeReads(item.index, "unknown", code, message);
    case NotAttempted(code, message) => NoticeReads(item.index, "not_attempted", code, message);
  }

  lemma {:induction false} ItemsReadBack(items: seq<Item>)
    ensures ItemsOf(ItemValues(items)) == Some(items)
    decreases |items|
  {
    if items != [] {
      ItemReadsBack(items[0]);
      ItemsReadBack(items[1..]);
      assert ItemValues(items)[1..] == ItemValues(items[1..]);
      assert [items[0]] + items[1..] == items;
    }
  }

  // The receiver of a bulk read's frame gets exactly the items that were assembled: each index, each status, each code
  // and message, and every field of every email.
  lemma FrameCarriesItems(items: seq<Item>)
    ensures ReadResponse(Encode(ResponseValue(items)) + "\n") == Some(items)
  {
    ValueReadsBack(ResponseValue(items), "\n");
    var f := ResponseValue(items).fields;
    ApartOnce(f, 0);
    TextReads(f, 0, "emails_read");
    ApartOnce(f, 1);
    ObjectReads(f, 1, ResultValue(items).fields);
    var inner := ResultValue(items).fields;
    ApartOnce(inner, 0);
    GetAt(inner, 0);
    ItemsReadBack(items);
  }

  // --- What it weighs -----------------------------------------------------------------------------

  // The escaped bodies of the items that succeeded.
  function BodySizes(items: seq<Item>): nat {
    if items == [] then 0
    else
      var o := items[0].outcome;
      (if o.Succeeded? && o.result.bodyText.Some? then |Escape(o.result.bodyText.value)| else 0) + BodySizes(items[1..])
  }

  lemma {:induction false} FieldWeighs(f: Fields, k: nat)
    requires k < |f|
    ensures |Encode(f[k].1)| <= FieldSizes(f)
    decreases |f|
  {
    if k > 0 {
      FieldWeighs(f[1..], k - 1);
    }
  }

  lemma ObjectWeighs(f: Fields, k: nat)
    requires k < |f|
    ensures |Encode(f[k].1)| <= |Encode(Object(f))|
  {
    FieldWeighs(f, k);
    ObjectSize(f);
  }

  lemma ItemWeighs(index: nat, e: Email)
    requires e.bodyText.Some?
    ensures |Encode(ItemValue(Item(index, Succeeded(e))))| >= |Escape(e.bodyText.value)|
  {
    var f, g := EmailFields(e), ItemValue(Item(index, Succeeded(e))).fields;
    ObjectWeighs(f, 7);
    ObjectWeighs(g, 2);
  }

  lemma {:induction false} ItemsWeigh(items: seq<Item>)
    ensures |EncodeItems(ItemValues(items))| >= BodySizes(items)
    decreases |items|
  {
    if items != [] {
      ItemsWeigh(items[1..]);
      var values := ItemValues(items);
      assert values[1..] == ItemValues(items[1..]);
      assert |EncodeItems(values)| >= |Encode(values[0])| + |EncodeItems(values[1..])|;
      var o := items[0].outcome;
      if o.Succeeded? && o.result.bodyText.Some? {
        ItemWeighs(items[0].index, o.result);
      }
    }
  }

  // The frame is no shorter than the escaped bodies it carries, and it fits exactly if it is no longer than one
  // mebibyte; so bodies that weigh more than that together are never all delivered.
  lemma FrameWeighs(items: seq<Item>)
    ensures |Encode(ResponseValue(items)) + "\n"| > BodySizes(items)
    ensures Fits(items) <==> |Encode(ResponseValue(items)) + "\n"| <= 1_048_576
    ensures BodySizes(items) >= 1_048_576 ==> !Fits(items)
  {
    ItemsWeigh(items);
    WrappedSize("status", "emails_read", "result", "items", ItemValues(items));
  }

  const BUDGET_CODE: string := "response_budget_exceeded"
  const BUDGET_MESSAGE: string := "retry this ID in a smaller read set or use read_email"

  // What the receiver finds at position i: what was fetched for it, or from the first body on that did not fit the
  // notice that it did not fit; behind the last window that was fetched, that nothing was attempted.
  predicate ArrivedAt(received: seq<Item>, got: seq<Outcome>, exact: nat, i: nat) {
    && i < |received| && received[i].index == i
    && var o := received[i].outcome;
       if i < |got| then o == got[i] || (exact <= i && o == Failed(BUDGET_CODE, BUDGET_MESSAGE))
       else o == NotAttempted(BUDGET_CODE, BUDGET_MESSAGE)
  }

  // Every assembled read arrives: within both limits, as one frame, every position accounted for.
  lemma AssembledReadArrives(items: seq<Item>, got: seq<Outcome>, exact: nat)
    requires AssemblyOk(items, got, exact)
    ensures var frame := Encode(ResponseValue(items)) + "\n";
            && |frame| <= 1_048_576 && ReadResult(frame, false, 4_194_304) == Ok(frame)
            && ReadResponse(frame) == Some(items)
    ensures |got| <= |items| && forall i | 0 <= i < |items| :: ArrivedAt(items, got, exact, i)
  {
    AssembledReadIsDelivered(items, got, exact);
    FrameWeighs(items);
    FrameCarriesItems(items);
    forall i | 0 <= i < |items| ensures ArrivedAt(items, got, exact, i) {
      if i < |got| {
        assert Settled(items, got, exact, i);
      } else {
        assert Untouched(items, i);
      }
    }
  }
}
