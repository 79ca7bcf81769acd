// Requests to the mail provider as one worker thread sees them: an append-only log of exchanges with an
// arbitrary provider, and the thread's counter of dispatched writes (src/gmail/client/transport.rs).
module ProviderCalls {
  import opened Texts
  import opened Wrappers

  datatype LabelKind = SystemKind | UserKind

  // A label's type field: absent, readable, or present but null or unknown.
  datatype KindField = Absent | Present(kind: LabelKind) | Unusable

  // The fields of a JSON object body that the broker reads; None where absent or not of the expected type.
  datatype Fields = Fields(
    id: Option<string>, name: Option<string>, kind: KindField, labelIds: Option<seq<string>>,
    threadId: Option<string>, messageId: Option<string>, messageThreadId: Option<string>, headers: seq<Header>)

  // Garbage is a body that is not JSON, is over the size limit, or could not be read to its end.
  datatype Body = NoBytes | EmptyObject | Object(fields: Fields) | Garbage

  // Lost: the transport failed before an HTTP status arrived.
  datatype Answer = Lost | Reply(status: nat, body: Body)

  // message is a draft's text before its base64 encoding.
  datatype Request =
    | GetMessageLabels(id: string)
    | GetLabel(id: string)
    | GetDraft(id: string)
    | GetMessage(id: string)
    | PostTrash(id: string)
    | PostLabel(name: string)
    | DeleteLabel(id: string)
    | PostDraft(message: string, threadId: Option<string>)
    | DeleteDraft(id: string)
    | PostSend(draftId: string)
    | PostBatchModify(ids: seq<string>, labelId: string, add: bool)

  datatype Exchange = Exchange(request: Request, answer: Answer)

  // Every request that is not a GET counts as a write.
  predicate IsWrite(r: Request) {
    !(r.GetMessageLabels? || r.GetLabel? || r.GetDraft? || r.GetMessage?)
  }

  predicate IsSuccess(a: Answer) {
    a.Reply? && 200 <= a.status < 300
  }

  // A 4xx answer: the provider axiom is that the request then had no effect.
  predicate IsRefusal(a: Answer) {
    a.Reply? && 400 <= a.status < 500
  }

  predicate Is401(a: Answer) {
    a.Reply? && a.status == 401
  }

  // The errors the broker tells apart; Other covers transport, decoding and identity failures.
  datatype Error = Status(code: nat) | DraftMutation | SystemLabel | WriteUncertain | RevisionChanged | Other

  predicate IsUnauthorized(e: Error) {
    e == Status(401)
  }

  const WRITE_COUNTER_RANGE: nat := 0x1_0000_0000_0000_0000

  class Connection {
    const provider: (seq<Exchange>, Request) -> Answer
    var log: seq<Exchange>
    var writes: nat

    constructor (provider: (seq<Exchange>, Request) -> Answer)
      ensures this.provider == provider && log == [] && writes == 0
    {
      this.provider := provider;
      log := [];
      writes := 0;
    }

    // The counter is bumped before the request leaves, whatever becomes of it, and wraps at 64 bits.
    method Send(r: Request) returns (a: Answer)
      modifies this
      ensures log == old(log) + [Exchange(r, a)]
      ensures a == provider(old(log), r)
      ensures writes == if IsWrite(r) then (old(writes) + 1) % 0x1_0000_0000_0000_0000 else old(writes)
    {
      if IsWrite(r) {
        writes := (writes + 1) % WRITE_COUNTER_RANGE;
      }
      a := provider(log, r);
      log := log + [Exchange(r, a)];
    }
  }

  // --- Reading answers (src/gmail/responses.rs) ---------------------------------------------------

  // A typed JSON response: the status error first, then any decoding failure.
  function ParseObject(a: Answer): Result<Fields, Error> {
    if a.Lost? then Err(Other)
    else if !IsSuccess(a) then Err(Status(a.status))
    else
      match a.body
      case Object(f) => Ok(f)
      case _ => Err(Other)
  }

  function ParseEmpty(a: Answer): Result<(), Error> {
    if a.Lost? then Err(Other)
    else if !IsSuccess(a) then Err(Status(a.status))
    else if a.body.NoBytes? || a.body.EmptyObject? then Ok(())
    else Err(Other)
  }

  function LabelsOf(f: Fields): seq<string> {
    if f.labelIds.Some? then f.labelIds.value else []
  }

  // message_labels and ensure_not_draft: the labels of exactly this message.
  function ReadLabels(a: Answer, id: string): Result<seq<string>, Error> {
    var r := ParseObject(a);
    if r.Err? then Err(r.error)
    else if r.value.id != Some(id) then Err(Other)
    else Ok(LabelsOf(r.value))
  }

  // require_custom_label and the check before a label deletion.
  function ReadCustomLabel(a: Answer, id: string): Result<(), Error> {
    var r := ParseObject(a);
    if r.Err? then Err(r.error)
    else if !(r.value.id.Some? && r.value.kind.Present?) then Err(Other)
    else if r.value.id.value != id then Err(Other)
    else if r.value.kind.kind != UserKind then Err(SystemLabel)
    else Ok(())
  }

  // draft_message_id: the current message of exactly this draft.
  function ReadRevision(a: Answer, draftId: string): Result<string, Error> {
    var r := ParseObject(a);
    if r.Err? then Err(r.error)
    else if !(r.value.messageId.Some? && r.value.messageThreadId.Some?) then Err(Other)
    else if r.value.id != Some(draftId) || r.value.messageId.value == "" then Err(Other)
    else Ok(r.value.messageId.value)
  }

  // --- What an answer shows, field by field -------------------------------------------------------

  // A readable message resource with that ID.
  predicate MessageShown(a: Answer, id: string) {
    a.Reply? && 200 <= a.status < 300 && a.body.Object? && a.body.fields.id == Some(id)
  }

  // An absent list lists nothing.
  predicate ListsLabel(a: Answer, labelId: string) {
    a.Reply? && a.body.Object? && a.body.fields.labelIds.Some? && labelId in a.body.fields.labelIds.value
  }

  // A readable label resource with that ID, of that kind.
  predicate LabelShown(a: Answer, id: string, kind: LabelKind) {
    && a.Reply? && 200 <= a.status < 300 && a.body.Object?
    && a.body.fields.id == Some(id) && a.body.fields.kind == Present(kind)
  }

  // A readable draft resource with that ID whose current message is messageId.
  predicate DraftShown(a: Answer, draftId: string, messageId: string) {
    && a.Reply? && 200 <= a.status < 300 && a.body.Object? && a.body.fields.id == Some(draftId)
    && a.body.fields.messageId == Some(messageId) && messageId != "" && a.body.fields.messageThreadId.Some?
  }

  // Why an answer carries no object: its own status if that is no success, else nothing the broker tells apart.
  function Unreadable(a: Answer): Option<Error> {
    match a
    case Lost => Some(Other)
    case Reply(status, body) =>
      if status < 200 || 300 <= status then Some(Status(status)) else if body.Object? then None else Some(Other)
  }

  // An object is read from exactly the successful answers that carry one.
  lemma ObjectRead(a: Answer)
    ensures if Unreadable(a).Some? then ParseObject(a) == Err(Unreadable(a).value)
            else a.Reply? && a.body.Object? && ParseObject(a) == Ok(a.body.fields)
    ensures forall f :: ParseObject(a) == Ok(f) <==>
                        a.Reply? && 200 <= a.status < 300 && a.body == Object(f)
    ensures ParseEmpty(a).Ok? <==> a.Reply? && 200 <= a.status < 300 && (a.body == NoBytes || a.body == EmptyObject)
    ensures a.Reply? && !(200 <= a.status < 300) ==> ParseEmpty(a) == Err(Status(a.status))
  {
  }

  // The label readers accept exactly the answers that show the message, and return the list that it shows.
  lemma LabelsRead(a: Answer, id: string)
    ensures ReadLabels(a, id).Ok? <==> MessageShown(a, id)
    ensures ReadLabels(a, id).Ok? ==> forall l :: l in ReadLabels(a, id).value <==> ListsLabel(a, l)
    ensures ReadLabels(a, id).Err? ==>
              ReadLabels(a, id) == Err(if Unreadable(a).Some? then Unreadable(a).value else Other)
  {
  }

  // A label passes exactly if it is shown as a user label, and is refused as a system label exactly if it is shown as
  // one; any other answer is an error of its own.
  lemma CustomLabelRead(a: Answer, id: string)
    ensures ReadCustomLabel(a, id).Ok? <==> LabelShown(a, id, UserKind)
    ensures ReadCustomLabel(a, id) == Err(SystemLabel) <==> LabelShown(a, id, SystemKind)
    ensures ReadCustomLabel(a, id).Err? && !LabelShown(a, id, SystemKind) ==>
              ReadCustomLabel(a, id) == Err(if Unreadable(a).Some? then Unreadable(a).value else Other)
  {
  }

  // A revision is read exactly from an answer that shows the draft with it.
  lemma RevisionRead(a: Answer, draftId: string)
    ensures forall m :: ReadRevision(a, draftId) == Ok(m) <==> DraftShown(a, draftId, m)
    ensures ReadRevision(a, draftId).Err? ==>
              ReadRevision(a, draftId) == Err(if Unreadable(a).Some? then Unreadable(a).value else Other)
  {
  }

  // Which requests count as writes, which answers as refusals, and which of those a new token may mend.
  lemma ExchangeKinds(e: Exchange)
    ensures IsWrite(e.request) <==>
            var r := e.request;
            || r.PostTrash? || r.PostLabel? || r.DeleteLabel? || r.PostDraft? || r.DeleteDraft? || r.PostSend?
            || r.PostBatchModify?
    ensures IsRefusal(e.answer) <==> e.answer.Reply? && e.answer.status / 100 == 4
    ensures IsSuccess(e.answer) <==> e.answer.Reply? && e.answer.status / 100 == 2
    ensures Is401(e.answer) <==> exists body :: e.answer == Reply(401, body)
    ensures Is401(e.answer) <==> Unreadable(e.answer) == Some(Status(401))
    ensures forall error :: IsUnauthorized(error) <==> error == Status(401)
  {
    if Is401(e.answer) {
      assert e.answer == Reply(401, e.answer.body);
    }
  }
}
