// The provider writes behind bulk items, how each attempt's result is classified, and the one retry after a
// 401 (src/gmail/client.rs, src/gmail/client/drafts.rs, src/gmail/client/bulk.rs, src/broker/handlers/bulk*.rs).
module WriteOutcomes {
  import opened Wrappers
  import opened ProviderCalls
  import opened Texts
  import opened TokenRetry
  import D = DraftMessage

  datatype WriteOp =
    | Trash(messageId: string)
    | CreateLabel(name: string)
    | RemoveLabel(labelId: string)
    | CreateDraft(message: string)
    | CreateReply(sourceId: string, body: string)
    | DeleteMarkedDraft(draftId: string, revision: string)
    | SendMarkedDraft(draftId: string, revision: string)

  datatype Outcome = Succeeded | Failed(cause: Error) | Unknown | NotAttempted

  // What one item meets before and between its attempts: the fatal flag as read, and its tokens.
  datatype Admittance = Admittance(stopped: bool, tokens: Tokens)

  // --- What the log says --------------------------------------------------------------------------

  predicate WriteAt(ex: seq<Exchange>, i: int) {
    0 <= i < |ex| && IsWrite(ex[i].request)
  }

  predicate IsWriteOf(op: WriteOp, r: Request) {
    match op
    case Trash(id) => r == PostTrash(id)
    case CreateLabel(name) => r == PostLabel(name)
    case RemoveLabel(id) => r == DeleteLabel(id)
    case CreateDraft(message) => r == PostDraft(message, None)
    case CreateReply(_, _) => r.PostDraft? && r.threadId.Some?
    case DeleteMarkedDraft(id, _) => r == DeleteDraft(id)
    case SendMarkedDraft(id, _) => r == PostSend(id)
  }

  predicate Nonempty(s: Option<string>) {
    s.Some? && s.value != ""
  }

  // A draft resource with all its identities.
  predicate CompleteDraft(a: Answer) {
    var f := ParseObject(a);
    f.Ok? && Nonempty(f.value.id) && Nonempty(f.value.messageId) && Nonempty(f.value.messageThreadId)
  }

  // The write was answered with success and names the resource it was meant for.
  predicate Acknowledges(op: WriteOp, a: Answer) {
    && IsSuccess(a)
    && match op
       case Trash(id) => a.body.Object? && a.body.fields.id == Some(id)
       case CreateLabel(name) =>
         && a.body.Object? && a.body.fields.name == Some(name) && Nonempty(a.body.fields.id)
         && NoControl(a.body.fields.id.value)
       case RemoveLabel(_) => a.body.NoBytes? || a.body.EmptyObject?
       case CreateDraft(_) => CompleteDraft(a)
       case CreateReply(_, _) => CompleteDraft(a)
       case DeleteMarkedDraft(_, _) => true
       case SendMarkedDraft(_, _) => a.body.Object? && Nonempty(a.body.fields.id) && Nonempty(a.body.fields.threadId)
  }

  // A created label is a user label: by its own answer, or by the lookup of its identifier that follows when
  // the answer carried no type.
  predicate UserLabelShown(name: string, ex: seq<Exchange>, i: int)
    requires 0 <= i < |ex| && Acknowledges(CreateLabel(name), ex[i].answer)
  {
    var made := ex[i].answer.body.fields;
    || made.kind == Present(UserKind)
    || (made.kind == Absent && i + 1 < |ex| && ex[i + 1].request == GetLabel(made.id.value)
        && var f := ParseObject(ex[i + 1].answer);
           f.Ok? && f.value.id == made.id && f.value.name == Some(name) && f.value.kind == Present(UserKind))
  }

  predicate AcknowledgedAt(op: WriteOp, ex: seq<Exchange>, i: int)
    requires 0 <= i < |ex|
  {
    Acknowledges(op, ex[i].answer) && (op.CreateLabel? ==> UserLabelShown(op.name, ex, i))
  }

  predicate NeedsPermit(op: WriteOp) {
    !(op.CreateLabel? || op.CreateDraft?)
  }

  // The read that must come directly before the write, in the same attempt.
  function PermitRead(op: WriteOp): Request
    requires NeedsPermit(op)
  {
    match op
    case Trash(id) => GetMessageLabels(id)
    case RemoveLabel(id) => GetLabel(id)
    case CreateReply(id, _) => GetMessage(id)
    case DeleteMarkedDraft(id, _) => GetDraft(id)
    case SendMarkedDraft(id, _) => GetDraft(id)
  }

  // What that read must show, or the error the attempt then ends with.
  function Permission(op: WriteOp, a: Answer): Result<(), Error>
    requires NeedsPermit(op)
  {
    match op
    case Trash(id) =>
      var labels := ReadLabels(a, id);
      if labels.Err? then Err(labels.error) else if "DRAFT" in labels.value then Err(DraftMutation) else Ok(())
    case RemoveLabel(id) => ReadCustomLabel(a, id)
    case CreateReply(_, body) =>
      var source := ParseObject(a);
      if source.Err? then Err(source.error)
      else if !Nonempty(source.value.id) || !Nonempty(source.value.threadId) then Err(Other)
      else if D.ReplyMessage(source.value.headers, body).None? then Err(Other)
      else Ok(())
    case DeleteMarkedDraft(id, revision) => SameRevision(ReadRevision(a, id), revision)
    case SendMarkedDraft(id, revision) => SameRevision(ReadRevision(a, id), revision)
  }

  function SameRevision(current: Result<string, Error>, revision: string): Result<(), Error> {
    if current.Err? then Err(current.error) else if current.value == revision then Ok(()) else Err(RevisionChanged)
  }

  predicate Permits(op: WriteOp, e: Exchange)
    requires NeedsPermit(op)
  {
    e.request == PermitRead(op) && Permission(op, e.answer).Ok?
  }

  // A reply draft carries the message built from the source just read, into that source's thread.
  predicate Answers(op: WriteOp, e: Exchange, r: Request)
    requires NeedsPermit(op) && Permits(op, e)
  {
    op.CreateReply? ==>
      var source := ParseObject(e.answer).value;
      r == PostDraft(D.ReplyMessage(source.headers, op.body).value, source.threadId)
  }

  // The write at i is the operation's own, and was permitted by the exchange just before it.
  predicate GuardedAt(op: WriteOp, ex: seq<Exchange>, i: int)
    requires 0 <= i < |ex|
  {
    && IsWriteOf(op, ex[i].request)
    && (NeedsPermit(op) ==> i > 0 && Permits(op, ex[i - 1]) && Answers(op, ex[i - 1], ex[i].request))
  }

  ghost predicate Guarded(op: WriteOp, ex: seq<Exchange>) {
    forall i {:trigger WriteAt(ex, i)} | WriteAt(ex, i) :: GuardedAt(op, ex, i)
  }

  // A readback that settles the write: the message is in the trash, or the label is gone.
  predicate Reconciles(op: WriteOp, e: Exchange) {
    match op
    case Trash(id) =>
      e.request == GetMessageLabels(id) && MessageShown(e.answer, id) && ListsLabel(e.answer, "TRASH")
    case RemoveLabel(id) => e.request == GetLabel(id) && e.answer.Reply? && e.answer.status == 404
    case _ => false
  }

  ghost predicate AllRefused(ex: seq<Exchange>) {
    forall i | WriteAt(ex, i) :: IsRefusal(ex[i].answer)
  }

  ghost predicate AllUnauthorized(ex: seq<Exchange>) {
    forall i | WriteAt(ex, i) :: Is401(ex[i].answer)
  }

  ghost predicate AtMostOneWrite(ex: seq<Exchange>) {
    forall i, j | WriteAt(ex, i) && WriteAt(ex, j) :: i == j
  }

  ghost predicate Wrote(ex: seq<Exchange>) {
    exists i :: WriteAt(ex, i)
  }

  // --- One attempt --------------------------------------------------------------------------------

  // A label created without a type in its answer is looked up by the identifier the answer gave.
  predicate LookupDue(op: WriteOp, a: Answer) {
    op.CreateLabel? && Acknowledges(op, a) && a.body.fields.kind == Absent
  }

  // The complete exchanges of one attempt: the permitting read if the operation needs one, the write if it was
  // permitted, and the lookup of a created label if that is due.
  predicate IsAttempt(op: WriteOp, ex: seq<Exchange>) {
    && ex != []
    && if NeedsPermit(op) then
         && ex[0].request == PermitRead(op)
         && (if Permits(op, ex[0]) then |ex| == 2 && IsWriteOf(op, ex[1].request) && Answers(op, ex[0], ex[1].request)
             else |ex| == 1)
       else
         && IsWriteOf(op, ex[0].request)
         && (if LookupDue(op, ex[0].answer)
             then |ex| == 2 && ex[1].request == GetLabel(ex[0].answer.body.fields.id.value)
             else |ex| == 1)
  }

  predicate Written(op: WriteOp, ex: seq<Exchange>)
    requires IsAttempt(op, ex)
  {
    NeedsPermit(op) ==> Permits(op, ex[0])
  }

  function WriteIndex(op: WriteOp): nat {
    if NeedsPermit(op) then 1 else 0
  }

  // How the attempt's write was answered.
  function WriteAnswer(op: WriteOp, ex: seq<Exchange>): Answer
    requires IsAttempt(op, ex) && Written(op, ex)
  {
    ex[WriteIndex(op)].answer
  }

  predicate Acknowledged(op: WriteOp, ex: seq<Exchange>)
    requires IsAttempt(op, ex) && Written(op, ex)
  {
    AcknowledgedAt(op, ex, WriteIndex(op))
  }

  // The attempt's result, from its exchanges: the read's own error when the write was not permitted; success
  // exactly when the write was acknowledged; a refusal exactly as it was answered; and an error that carries a
  // status carries the write's.
  predicate ResultFits(op: WriteOp, r: Result<(), Error>, ex: seq<Exchange>)
    requires IsAttempt(op, ex)
  {
    if !Written(op, ex) then r.Err? && Permission(op, ex[0].answer) == r
    else
      var a := WriteAnswer(op, ex);
      && (r.Ok? <==> Acknowledged(op, ex))
      && (IsRefusal(a) ==> r == Err(Status(a.status)))
      && (r.Err? && r.error.Status? ==> a.Reply? && r.error == Status(a.status))
  }

  predicate AttemptFits(op: WriteOp, r: Result<(), Error>, ex: seq<Exchange>) {
    IsAttempt(op, ex) && ResultFits(op, r, ex)
  }

  // Where the write of an attempt is.
  lemma AttemptWrites(op: WriteOp, ex: seq<Exchange>)
    requires IsAttempt(op, ex)
    ensures Written(op, ex) ==> WriteAt(ex, WriteIndex(op))
    ensures forall i | WriteAt(ex, i) :: Written(op, ex) && i == WriteIndex(op)
    ensures Guarded(op, ex) && AtMostOneWrite(ex)
    ensures Wrote(ex) <==> Written(op, ex)
  {
    if Written(op, ex) {
      assert WriteAt(ex, WriteIndex(op));
    }
  }

  // --- The operations -----------------------------------------------------------------------------

  // How an attempt leaves the connection: the log extended by a fitting attempt, the counter moved exactly
  // when a write was dispatched.
  ghost predicate AttemptEnds(c: Connection, log: seq<Exchange>, writes: nat, op: WriteOp, r: Result<(), Error>)
    reads c
  {
    && log <= c.log
    && AttemptFits(op, r, c.log[|log|..])
    && c.writes == if Written(op, c.log[|log|..]) then (writes + 1) % WRITE_COUNTER_RANGE else writes
  }

  method TrashEmail(c: Connection, id: string) returns (r: Result<(), Error>)
    modifies c
    ensures AttemptEnds(c, old(c.log), old(c.writes), Trash(id), r)
  {
    var check := c.Send(GetMessageLabels(id));
    ghost var e := Exchange(GetMessageLabels(id), check);
    assert c.log[|old(c.log)|..] == [e];
    var labels := ReadLabels(check, id);
    if labels.Err? || "DRAFT" in labels.value {
      r := Err(if labels.Err? then labels.error else DraftMutation);
      return;
    }
    var answer := c.Send(PostTrash(id));
    ghost var f := Exchange(PostTrash(id), answer);
    assert c.log[|old(c.log)|..] == [e, f];
    var message := ParseObject(answer);
    if message.Err? {
      r := Err(message.error);
    } else if message.value.id != Some(id) {
      r := Err(Other);
    } else {
      r := Ok(());
    }
  }

  method CreateLabelNamed(c: Connection, name: string) returns (r: Result<(), Error>)
    modifies c
    ensures AttemptEnds(c, old(c.log), old(c.writes), CreateLabel(name), r)
  {
    var answer := c.Send(PostLabel(name));
    ghost var e := Exchange(PostLabel(name), answer);
    assert c.log[|old(c.log)|..] == [e];
    if answer.Lost? {
      r := Err(WriteUncertain);
      return;
    }
    var created := ParseObject(answer);
    if created.Err? || created.value.id.None? || created.value.name.None? || created.value.kind.Unusable? {
      // A refused request keeps its status error; an unreadable success is uncertain.
      r := Err(if IsSuccess(answer) then WriteUncertain else Status(answer.status));
      return;
    }
    var id := created.value.id.value;
    if id == "" || !NoControl(id) || created.value.name.value != name {
      r := Err(WriteUncertain);
      return;
    }
    if created.value.kind.Present? {
      r := if created.value.kind.kind == UserKind then Ok(()) else Err(WriteUncertain);
      return;
    }
    // The type was absent: look the new label up. No failure of this GET, a 401 included, may look like the
    // write's own failure.
    var lookup := c.Send(GetLabel(id));
    ghost var f := Exchange(GetLabel(id), lookup);
    assert c.log[|old(c.log)|..] == [e, f];
    var found := ParseObject(lookup);
    var same := found.Ok? && found.value.id == Some(id) && found.value.name == Some(name);
    if same && found.value.kind == Present(UserKind) {
      r := Ok(());
    } else {
      r := Err(WriteUncertain);
    }
  }

  method DeleteLabelById(c: Connection, id: string) returns (r: Result<(), Error>)
    modifies c
    ensures AttemptEnds(c, old(c.log), old(c.writes), RemoveLabel(id), r)
  {
    var check := c.Send(GetLabel(id));
    ghost var e := Exchange(GetLabel(id), check);
    assert c.log[|old(c.log)|..] == [e];
    var custom := ReadCustomLabel(check, id);
    if custom.Err? {
      r := Err(custom.error);
      return;
    }
    var answer := c.Send(DeleteLabel(id));
    ghost var f := Exchange(DeleteLabel(id), answer);
    assert c.log[|old(c.log)|..] == [e, f];
    var parsed := ParseEmpty(answer);
    if answer.Lost? {
      r := Err(WriteUncertain);
    } else if parsed.Err? {
      r := Err(if IsSuccess(answer) then WriteUncertain else parsed.error);
    } else {
      r := Ok(());
    }
  }

  function DraftCreated(a: Answer): Result<(), Error> {
    if CompleteDraft(a) then Ok(())
    else if a.Reply? && !IsSuccess(a) then Err(Status(a.status))
    else Err(Other)
  }

  method CreateDraftRaw(c: Connection, message: string) returns (r: Result<(), Error>)
    modifies c
    ensures AttemptEnds(c, old(c.log), old(c.writes), CreateDraft(message), r)
  {
    var answer := c.Send(PostDraft(message, None));
    ghost var e := Exchange(PostDraft(message, None), answer);
    assert c.log[|old(c.log)|..] == [e];
    r := DraftCreated(answer);
  }

  lemma ReplyAttemptFits(sourceId: string, body: string, read: Answer, message: string, answer: Answer)
    requires Permission(CreateReply(sourceId, body), read).Ok?
    requires D.ReplyMessage(ParseObject(read).value.headers, body) == Some(message)
    ensures var post := Exchange(PostDraft(message, ParseObject(read).value.threadId), answer);
            var ex := [Exchange(GetMessage(sourceId), read), post];
            var op := CreateReply(sourceId, body);
            AttemptFits(op, DraftCreated(answer), ex) && Written(op, ex)
  {
  }

  lemma ReplyRefused(sourceId: string, body: string, read: Answer)
    requires Permission(CreateReply(sourceId, body), read).Err?
    ensures var ex := [Exchange(GetMessage(sourceId), read)];
            var op := CreateReply(sourceId, body);
            AttemptFits(op, Permission(op, read), ex) && !Written(op, ex)
  {
  }

  // The reply to the message just read, if its fields and headers allow one.
  method PrepareReply(read: Answer, sourceId: string, body: string) returns (r: Result<(string, string), Error>)
    ensures r.Err? ==> Permission(CreateReply(sourceId, body), read) == Err(r.error)
    ensures r.Ok? ==>
              && Permission(CreateReply(sourceId, body), read).Ok?
              && ParseObject(read).value.threadId == Some(r.value.1)
              && D.ReplyMessage(ParseObject(read).value.headers, body) == Some(r.value.0)
  {
    var original := ParseObject(read);
    if original.Err? {
      return Err(original.error);
    }
    var f := original.value;
    if !Nonempty(f.id) || !Nonempty(f.threadId) {
      return Err(Other);
    }
    var headers := D.ReplyHeaders(f.headers);
    if headers.Err? {
      return Err(Other);
    }
    var message := D.EncodeMessage(headers.value, body);
    r := Ok((message, f.threadId.value));
  }

  // The second half of a reply: the source has been read, and the message built from it is posted.
  method PostReply(c: Connection, sourceId: string, body: string, read: Answer, message: string, threadId: string)
    returns (r: Result<(), Error>)
    requires Permission(CreateReply(sourceId, body), read).Ok?
    requires ParseObject(read).value.threadId == Some(threadId)
    requires D.ReplyMessage(ParseObject(read).value.headers, body) == Some(message)
    modifies c
    ensures old(c.log) <= c.log && c.writes == (old(c.writes) + 1) % WRITE_COUNTER_RANGE
    ensures var ex := [Exchange(GetMessage(sourceId), read)] + c.log[|old(c.log)|..];
            var op := CreateReply(sourceId, body);
            AttemptFits(op, r, ex) && Written(op, ex)
  {
    var answer := c.Send(PostDraft(message, Some(threadId)));
    r := DraftCreated(answer);
    ghost var post := Exchange(PostDraft(message, Some(threadId)), answer);
    ghost var e := Exchange(GetMessage(sourceId), read);
    assert [e] + c.log[|old(c.log)|..] == [e, post];
    ReplyAttemptFits(sourceId, body, read, message, answer);
  }

  method CreateReplyDraft(c: Connection, sourceId: string, body: string) returns (r: Result<(), Error>)
    modifies c
    ensures AttemptEnds(c, old(c.log), old(c.writes), CreateReply(sourceId, body), r)
  {
    var read := c.Send(GetMessage(sourceId));
    ghost var first := [Exchange(GetMessage(sourceId), read)];
    assert c.log[|old(c.log)|..] == first;
    var prepared := PrepareReply(read, sourceId, body);
    if prepared.Err? {
      ReplyRefused(sourceId, body, read);
      return Err(prepared.error);
    }
    var (message, threadId) := prepared.value;
    ghost var middle := c.log;
    r := PostReply(c, sourceId, body, read, message, threadId);
    assert c.log[|old(c.log)|..] == first + c.log[|middle|..];
  }

  // The revision is checked again inside every attempt, directly before the write.
  method ExecuteDraftAction(c: Connection, draftId: string, revision: string, send: bool) returns (r: Result<(), Error>)
    modifies c
    ensures AttemptEnds(c, old(c.log), old(c.writes), DraftAction(draftId, revision, send), r)
  {
    var read := c.Send(GetDraft(draftId));
    ghost var e := Exchange(GetDraft(draftId), read);
    assert c.log[|old(c.log)|..] == [e];
    var current := ReadRevision(read, draftId);
    if current.Err? || current.value != revision {
      r := Err(if current.Err? then current.error else RevisionChanged);
      return;
    }
    var request := if send then PostSend(draftId) else DeleteDraft(draftId);
    var answer := c.Send(request);
    ghost var f := Exchange(request, answer);
    assert c.log[|old(c.log)|..] == [e, f];
    if answer.Lost? {
      r := Err(Other);
    } else if !IsSuccess(answer) {
      r := Err(Status(answer.status));
    } else if send {
      var sent := ParseObject(answer);
      r := if sent.Ok? && Nonempty(sent.value.id) && Nonempty(sent.value.threadId) then Ok(()) else Err(Other);
    } else {
      r := Ok(());
    }
  }

  function DraftAction(draftId: string, revision: string, send: bool): WriteOp {
    if send then SendMarkedDraft(draftId, revision) else DeleteMarkedDraft(draftId, revision)
  }

  method Attempt(c: Connection, op: WriteOp) returns (r: Result<(), Error>)
    modifies c
    ensures AttemptEnds(c, old(c.log), old(c.writes), op, r)
  {
    match op
    case Trash(id) => r := TrashEmail(c, id);
    case CreateLabel(name) => r := CreateLabelNamed(c, name);
    case RemoveLabel(id) => r := DeleteLabelById(c, id);
    case CreateDraft(message) => r := CreateDraftRaw(c, message);
    case CreateReply(id, body) => r := CreateReplyDraft(c, id, body);
    case DeleteMarkedDraft(id, revision) => r := ExecuteDraftAction(c, id, revision, false);
    case SendMarkedDraft(id, revision) => r := ExecuteDraftAction(c, id, revision, true);
  }

  // --- Classification -----------------------------------------------------------------------------

  // An attempt and the readback that may follow it.
  datatype Try = Try(attempt: seq<Exchange>, readback: seq<Exchange>)

  function Log(t: Try): seq<Exchange> {
    t.attempt + t.readback
  }

  // A trash that was not refused is always read back; an uncertain label deletion is looked up.
  predicate ReadbackDue(op: WriteOp, ex: seq<Exchange>)
    requires IsAttempt(op, ex)
  {
    && Written(op, ex) && !IsRefusal(WriteAnswer(op, ex))
    && (op.Trash? || (op.RemoveLabel? && !Acknowledged(op, ex)))
  }

  predicate IsTry(op: WriteOp, t: Try) {
    && IsAttempt(op, t.attempt)
    && if ReadbackDue(op, t.attempt) then |t.readback| == 1 && t.readback[0].request == PermitRead(op)
       else t.readback == []
  }

  predicate Unauthorized(op: WriteOp, ex: seq<Exchange>)
    requires IsAttempt(op, ex)
  {
    if Written(op, ex) then Is401(WriteAnswer(op, ex)) else Permission(op, ex[0].answer).error == Status(401)
  }

  // A write that was not refused is settled by its readback where there is one to go by, else by its answer.
  predicate Settled(op: WriteOp, t: Try)
    requires IsTry(op, t) && Written(op, t.attempt)
  {
    match op
    case Trash(_) => t.readback != [] && Reconciles(op, t.readback[0])
    case RemoveLabel(_) => Acknowledged(op, t.attempt) || (t.readback != [] && Reconciles(op, t.readback[0]))
    case _ => Acknowledged(op, t.attempt)
  }

  // What one try that did not end in a 401 is reported as.
  function OutcomeOf(op: WriteOp, t: Try): Outcome
    requires IsTry(op, t)
  {
    if !Written(op, t.attempt) then Failed(Permission(op, t.attempt[0].answer).error)
    else
      var a := WriteAnswer(op, t.attempt);
      if IsRefusal(a) then Failed(Status(a.status)) else if Settled(op, t) then Succeeded else Unknown
  }

  function TryResult(op: WriteOp, t: Try): Result<Outcome, Error>
    requires IsTry(op, t)
  {
    if Unauthorized(op, t.attempt) then Err(Status(401)) else Ok(OutcomeOf(op, t))
  }

  // write_outcome_mapped: the counter tells whether anything was dispatched. The outcome is final except for
  // those operations that are read back.
  method WriteOutcome(c: Connection, op: WriteOp) returns (r: Result<Outcome, Error>)
    requires c.writes < WRITE_COUNTER_RANGE
    modifies c
    ensures old(c.log) <= c.log && c.writes < WRITE_COUNTER_RANGE
    ensures var ex := c.log[|old(c.log)|..];
            && IsAttempt(op, ex)
            && r == (if Unauthorized(op, ex) then Err(Status(401))
                     else if !Written(op, ex) then Ok(Failed(Permission(op, ex[0].answer).error))
                     else if IsRefusal(WriteAnswer(op, ex)) then Ok(Failed(Status(WriteAnswer(op, ex).status)))
                     else Ok(if Acknowledged(op, ex) then Succeeded else Unknown))
  {
    var before := c.writes;
    var result := Attempt(c, op);
    match result
    case Ok(_) => r := Ok(Succeeded);
    case Err(error) =>
      if IsUnauthorized(error) {
        r := Err(error);
      } else if c.writes == before || (error.Status? && 400 <= error.code < 500) {
        r := Ok(Failed(error));
      } else {
        r := Ok(Unknown);
      }
  }

  ghost predicate TryEnds(c: Connection, log: seq<Exchange>, op: WriteOp, r: Result<Outcome, Error>, t: Try)
    reads c
  {
    log <= c.log && c.log[|log|..] == Log(t) && IsTry(op, t) && r == TryResult(op, t)
  }

  // Trash: the readback decides, whether or not the write was acknowledged.
  method TrashEmailVerified(c: Connection, id: string) returns (r: Result<Outcome, Error>, ghost t: Try)
    requires c.writes < WRITE_COUNTER_RANGE
    modifies c
    ensures TryEnds(c, old(c.log), Trash(id), r, t) && c.writes < WRITE_COUNTER_RANGE
  {
    r := WriteOutcome(c, Trash(id));
    t := Try(c.log[|old(c.log)|..], []);
    assert Log(t) == t.attempt;
    if r.Ok? && (r.value.Succeeded? || r.value.Unknown?) {
      var answer := c.Send(GetMessageLabels(id));
      t := t.(readback := [Exchange(GetMessageLabels(id), answer)]);
      assert c.log[|old(c.log)|..] == Log(t);
      var labels := ReadLabels(answer, id);
      LabelsRead(answer, id);
      r := Ok(if labels.Ok? && "TRASH" in labels.value then Succeeded else Unknown);
    }
  }

  // Label deletion in bulk: an uncertain DELETE is settled by a 404 on the lookup.
  method DeleteLabelReconciled(c: Connection, id: string) returns (r: Result<Outcome, Error>, ghost t: Try)
    requires c.writes < WRITE_COUNTER_RANGE
    modifies c
    ensures TryEnds(c, old(c.log), RemoveLabel(id), r, t) && c.writes < WRITE_COUNTER_RANGE
  {
    r := WriteOutcome(c, RemoveLabel(id));
    t := Try(c.log[|old(c.log)|..], []);
    assert Log(t) == t.attempt;
    if r == Ok(Unknown) {
      var answer := c.Send(GetLabel(id));
      t := t.(readback := [Exchange(GetLabel(id), answer)]);
      assert c.log[|old(c.log)|..] == Log(t);
      var custom := ReadCustomLabel(answer, id);
      if custom == Err(Status(404)) {
        r := Ok(Succeeded);
      }
    }
  }

  method ItemAttempt(c: Connection, op: WriteOp) returns (r: Result<Outcome, Error>, ghost t: Try)
    requires c.writes < WRITE_COUNTER_RANGE
    modifies c
    ensures TryEnds(c, old(c.log), op, r, t) && c.writes < WRITE_COUNTER_RANGE
  {
    match op
    case Trash(id) => r, t := TrashEmailVerified(c, id);
    case RemoveLabel(id) => r, t := DeleteLabelReconciled(c, id);
    case _ => r, t := PlainAttempt(c, op);
  }

  // The other operations are not read back.
  method PlainAttempt(c: Connection, op: WriteOp) returns (r: Result<Outcome, Error>, ghost t: Try)
    requires c.writes < WRITE_COUNTER_RANGE && !op.Trash? && !op.RemoveLabel?
    modifies c
    ensures TryEnds(c, old(c.log), op, r, t) && c.writes < WRITE_COUNTER_RANGE
  {
    r := WriteOutcome(c, op);
    t := Try(c.log[|old(c.log)|..], []);
    assert Log(t) == t.attempt;
  }

  // --- One bulk item ------------------------------------------------------------------------------

  function Logs(tries: seq<Try>): seq<Exchange> {
    if tries == [] then [] else Log(tries[0]) + Logs(tries[1..])
  }

  lemma LogsOfOne(one: Try)
    ensures Logs([one]) == Log(one)
  {
    assert [one][1..] == [];
  }

  lemma LogsOfTwo(one: Try, two: Try)
    ensures Logs([one, two]) == Log(one) + Log(two)
  {
    assert [one, two][1..] == [two];
    LogsOfOne(two);
  }

  function TryResults(op: WriteOp, tries: seq<Try>): seq<Result<Outcome, Error>>
    requires forall i | 0 <= i < |tries| :: IsTry(op, tries[i])
  {
    seq(|tries|, i requires 0 <= i < |tries| => TryResult(op, tries[i]))
  }

  // How run_items reports what became of an item's operation.
  function Reported(r: Result<Outcome, Failure>): Outcome {
    match r
    case Ok(outcome) => outcome
    case Err(Credential) => NotAttempted
    case Err(Gmail(error)) => Failed(error)
  }

  // Exactly what one item of run_items does: nothing when it is stopped, else its tries.
  ghost predicate TriesFit(op: WriteOp, a: Admittance, outcome: Outcome, tries: seq<Try>) {
    if a.stopped then tries == [] && outcome == NotAttempted
    else
      && (forall i | 0 <= i < |tries| :: IsTry(op, tries[i]))
      && AttemptsMade(a.tokens, TryResults(op, tries))
      && outcome == Reported(Final(a.tokens, TryResults(op, tries)))
  }

  // The item's outcome, and everything it sent.
  ghost predicate ItemFits(op: WriteOp, a: Admittance, outcome: Outcome, ex: seq<Exchange>) {
    exists tries :: TriesFit(op, a, outcome, tries) && ex == Logs(tries)
  }

  method RunItem(c: Connection, op: WriteOp, a: Admittance) returns (outcome: Outcome, credentialFailed: bool)
    requires c.writes < WRITE_COUNTER_RANGE
    modifies c
    ensures old(c.log) <= c.log && c.writes < WRITE_COUNTER_RANGE
    ensures ItemFits(op, a, outcome, c.log[|old(c.log)|..])
    ensures outcome == NotAttempted <==> a.stopped || credentialFailed
  {
    ghost var before := c.log;
    if a.stopped || !a.tokens.cached {
      assert TriesFit(op, a, NotAttempted, []);
      assert c.log[|before|..] == Logs([]);
      return NotAttempted, !a.stopped;
    }
    var r;
    ghost var one, two;
    r, one := ItemAttempt(c, op);
    if r.Ok? || !a.tokens.refreshed {
      outcome, credentialFailed := if r.Ok? then r.value else NotAttempted, r.Err?;
      OneTryFits(op, a, outcome, r, one);
      return;
    }
    ghost var middle := c.log;
    r, two := ItemAttempt(c, op);
    assert c.log[|before|..] == middle[|before|..] + c.log[|middle|..];
    outcome, credentialFailed := if r.Ok? then r.value else Failed(r.error), false;
    TwoTriesFit(op, a, outcome, one, r, two);
  }

  lemma OneTryFits(op: WriteOp, a: Admittance, outcome: Outcome, r: Result<Outcome, Error>, one: Try)
    requires !a.stopped && a.tokens.cached && IsTry(op, one) && r == TryResult(op, one)
    requires if r.Ok? then outcome == r.value else !a.tokens.refreshed && outcome == NotAttempted
    ensures ItemFits(op, a, outcome, Log(one))
    ensures r.Ok? ==> outcome != NotAttempted
  {
    assert TriesFit(op, a, outcome, [one]);
    LogsOfOne(one);
  }

  lemma TwoTriesFit(op: WriteOp, a: Admittance, outcome: Outcome, one: Try, r: Result<Outcome, Error>, two: Try)
    requires !a.stopped && a.tokens.cached && a.tokens.refreshed && IsTry(op, one) && TryResult(op, one).Err?
    requires IsTry(op, two) && r == TryResult(op, two) && outcome == if r.Ok? then r.value else Failed(r.error)
    ensures ItemFits(op, a, outcome, Log(one) + Log(two))
    ensures outcome != NotAttempted
  {
    var tries := [one, two];
    assert TriesFit(op, a, outcome, tries);
    LogsOfTwo(one, two);
  }

  // --- What an outcome means ----------------------------------------------------------------------

  // A write that was not refused, and was acknowledged, or confirmed by the exchange right after it. A trash
  // counts only when it was confirmed.
  predicate ConfirmedAt(op: WriteOp, ex: seq<Exchange>, i: int) {
    && WriteAt(ex, i) && !IsRefusal(ex[i].answer)
    && ((!op.Trash? && AcknowledgedAt(op, ex, i)) || (i + 1 < |ex| && Reconciles(op, ex[i + 1])))
  }

  ghost predicate Confirmed(op: WriteOp, ex: seq<Exchange>) {
    exists i :: ConfirmedAt(op, ex, i)
  }

  // Soundness of a reported outcome against everything the item sent.
  ghost predicate ItemSound(op: WriteOp, outcome: Outcome, ex: seq<Exchange>) {
    && Guarded(op, ex)
    // A write is repeated only after a 401, and at most once.
    && (forall i, j | WriteAt(ex, i) && WriteAt(ex, j) && i < j :: Is401(ex[i].answer))
    && (forall i, j, k | WriteAt(ex, i) && WriteAt(ex, j) && WriteAt(ex, k) :: i == j || j == k || i == k)
    // Success is acknowledged or confirmed; refusal is total; anything else is unknown.
    && (outcome.Succeeded? ==> Confirmed(op, ex))
    && (outcome.Failed? || outcome.NotAttempted? <==> AllRefused(ex))
    && (outcome.Unknown? ==> !Confirmed(op, ex))
  }

  // One try: its writes, and what its result tells about them.
  ghost predicate TryMeaning(op: WriteOp, t: Try)
    requires IsTry(op, t)
  {
    var ex := Log(t);
    && Guarded(op, ex) && AtMostOneWrite(ex)
    && match TryResult(op, t)
       case Err(_) => AllUnauthorized(ex) && AllRefused(ex) && !Confirmed(op, ex)
       case Ok(outcome) =>
         && !outcome.NotAttempted?
         && (outcome.Failed? <==> AllRefused(ex))
         && (outcome.Succeeded? <==> Confirmed(op, ex))
  }

  lemma LogWrites(op: WriteOp, t: Try, i: int)
    requires IsTry(op, t) && WriteAt(Log(t), i)
    ensures Written(op, t.attempt) && i == WriteIndex(op) < |t.attempt|
    ensures Log(t)[i] == t.attempt[i] && GuardedAt(op, Log(t), i)
  {
    AttemptWrites(op, t.attempt);
    if i < |t.attempt| {
      assert WriteAt(t.attempt, i);
      assert GuardedAt(op, t.attempt, i);
    }
  }

  lemma TryMeans(op: WriteOp, t: Try)
    requires IsTry(op, t)
    ensures TryMeaning(op, t)
  {
    var ex := Log(t);
    AttemptWrites(op, t.attempt);
    forall i | WriteAt(ex, i)
      ensures GuardedAt(op, ex, i) && Written(op, t.attempt) && i == WriteIndex(op) && ex[i] == t.attempt[i]
    {
      LogWrites(op, t, i);
    }
    if Written(op, t.attempt) {
      var w := WriteIndex(op);
      assert WriteAt(ex, w) && ex[w] == t.attempt[w];
      WrittenMeans(op, t);
    }
  }

  // An unrefused write is settled exactly when the log confirms it.
  lemma WrittenMeans(op: WriteOp, t: Try)
    requires IsTry(op, t) && Written(op, t.attempt)
    ensures Confirmed(op, Log(t)) <==> !IsRefusal(WriteAnswer(op, t.attempt)) && Settled(op, t)
  {
    var ex, w := Log(t), WriteIndex(op);
    AttemptWrites(op, t.attempt);
    assert WriteAt(ex, w) && ex[w] == t.attempt[w];
    forall i | WriteAt(ex, i) ensures i == w {
      LogWrites(op, t, i);
    }
    forall k | 0 <= k < |t.attempt| ensures ex[k] == t.attempt[k] {
    }
    assert t.readback != [] ==> ex[|t.attempt|] == t.readback[0];
    assert AcknowledgedAt(op, ex, w) <==> Acknowledged(op, t.attempt) by { SameAcknowledgement(op, t); }
    assert ConfirmedAt(op, ex, w) <==> !IsRefusal(WriteAnswer(op, t.attempt)) && Settled(op, t);
  }

  lemma SameAcknowledgement(op: WriteOp, t: Try)
    requires IsTry(op, t) && Written(op, t.attempt)
    ensures AcknowledgedAt(op, Log(t), WriteIndex(op)) <==> Acknowledged(op, t.attempt)
  {
    if op.CreateLabel? {
      assert t.readback == [] && Log(t) == t.attempt;
    }
  }

  lemma OneTrySound(op: WriteOp, t: Try, outcome: Outcome)
    requires IsTry(op, t)
    requires if TryResult(op, t).Ok? then outcome == TryResult(op, t).value
             else outcome.Failed? || outcome.NotAttempted?
    ensures ItemSound(op, outcome, Log(t))
  {
    TryMeans(op, t);
  }

  // Where a write of two joined tries comes from.
  lemma JoinedWrite(op: WriteOp, first: seq<Exchange>, second: seq<Exchange>, i: int)
    requires Guarded(op, first) && Guarded(op, second) && WriteAt(first + second, i)
    ensures var ex := first + second;
            var n := |first|;
            && (i < n ==> WriteAt(first, i) && ex[i] == first[i])
            && (i >= n ==> WriteAt(second, i - n) && ex[i] == second[i - n])
            && GuardedAt(op, ex, i)
  {
    var ex := first + second;
    var n := |first|;
    if i < n {
      assert WriteAt(first, i) && GuardedAt(op, first, i);
      if i > 0 { assert ex[i - 1] == first[i - 1]; }
    } else {
      assert WriteAt(second, i - n) && GuardedAt(op, second, i - n);
      if i > n { assert ex[i - 1] == second[i - n - 1]; }
    }
  }

  // A first part whose writes were all refused changes nothing about what the second part confirms.
  lemma SecondConfirmed(op: WriteOp, first: seq<Exchange>, second: seq<Exchange>)
    requires AllUnauthorized(first)
    ensures Confirmed(op, first + second) <==> Confirmed(op, second)
  {
    var ex := first + second;
    var n := |first|;
    if Confirmed(op, second) {
      var i :| ConfirmedAt(op, second, i);
      ConfirmedShifts(op, first, second, i);
    }
    if Confirmed(op, ex) {
      var i :| ConfirmedAt(op, ex, i);
      if i < n {
        assert WriteAt(first, i);
      }
      ConfirmedShifts(op, first, second, i - n);
    }
  }

  lemma ConfirmedShifts(op: WriteOp, first: seq<Exchange>, second: seq<Exchange>, i: int)
    requires 0 <= i < |second|
    ensures ConfirmedAt(op, first + second, |first| + i) <==> ConfirmedAt(op, second, i)
  {
    var ex := first + second;
    assert ex[|first| + i] == second[i];
    assert i + 1 < |second| ==> ex[|first| + i + 1] == second[i + 1];
  }

  lemma JoinedRefusals(first: seq<Exchange>, second: seq<Exchange>)
    requires AllUnauthorized(first)
    ensures AllRefused(first + second) <==> AllRefused(second)
  {
    var ex := first + second;
    var n := |first|;
    if AllRefused(ex) {
      forall i | WriteAt(second, i) ensures IsRefusal(second[i].answer) {
        assert WriteAt(ex, n + i) && ex[n + i] == second[i];
      }
    }
    if AllRefused(second) {
      forall i | WriteAt(ex, i) ensures IsRefusal(ex[i].answer) {
        if i < n {
          assert WriteAt(first, i);
        } else {
          assert WriteAt(second, i - n);
        }
      }
    }
  }

  lemma TwoTriesSound(op: WriteOp, one: Try, two: Try, outcome: Outcome)
    requires IsTry(op, one) && IsTry(op, two) && Unauthorized(op, one.attempt)
    requires if TryResult(op, two).Ok? then outcome == TryResult(op, two).value
             else outcome.Failed? || outcome.NotAttempted?
    ensures ItemSound(op, outcome, Log(one) + Log(two))
  {
    var first, second := Log(one), Log(two);
    TryMeans(op, one);
    TryMeans(op, two);
    OneTrySound(op, two, outcome);
    var ex := first + second;
    forall i | WriteAt(ex, i)
      ensures i < |first| ==> WriteAt(first, i) && Is401(ex[i].answer)
      ensures i >= |first| ==> WriteAt(second, i - |first|)
      ensures GuardedAt(op, ex, i)
    {
      JoinedWrite(op, first, second, i);
    }
    SecondConfirmed(op, first, second);
    JoinedRefusals(first, second);
  }

  lemma OneTryCase(op: WriteOp, a: Admittance, outcome: Outcome, one: Try)
    requires TriesFit(op, a, outcome, [one])
    ensures ItemSound(op, outcome, Logs([one]))
  {
    LogsOfOne(one);
    OneTrySound(op, one, outcome);
  }

  lemma TwoTryCase(op: WriteOp, a: Admittance, outcome: Outcome, one: Try, two: Try)
    requires TriesFit(op, a, outcome, [one, two])
    ensures ItemSound(op, outcome, Logs([one, two]))
  {
    LogsOfTwo(one, two);
    TwoTriesSound(op, one, two, outcome);
  }

  lemma NothingIsSound(op: WriteOp)
    ensures ItemSound(op, NotAttempted, [])
  {
  }

  lemma NumberOfTries(op: WriteOp, a: Admittance, outcome: Outcome, tries: seq<Try>)
    requires TriesFit(op, a, outcome, tries)
    ensures |tries| <= 2
    ensures tries == [] ==> outcome == NotAttempted
  {
  }

  // Whatever an item does, its reported outcome is sound.
  lemma ItemIsSound(op: WriteOp, a: Admittance, outcome: Outcome, ex: seq<Exchange>)
    requires ItemFits(op, a, outcome, ex)
    ensures ItemSound(op, outcome, ex)
  {
    var tries :| TriesFit(op, a, outcome, tries) && ex == Logs(tries);
    NumberOfTries(op, a, outcome, tries);
    if tries == [] {
      NothingIsSound(op);
    } else if |tries| == 1 {
      assert tries == [tries[0]];
      OneTryCase(op, a, outcome, tries[0]);
    } else {
      assert tries == [tries[0], tries[1]];
      TwoTryCase(op, a, outcome, tries[0], tries[1]);
    }
  }

  // A reply draft that an item posts reads back as the headers derived from the source message that the exchange
  // just before it showed, with the requested body, and goes into that message's thread.
  lemma ReplyPosted(sourceId: string, body: string, a: Admittance, outcome: Outcome, ex: seq<Exchange>, i: nat)
    requires ItemFits(CreateReply(sourceId, body), a, outcome, ex) && WriteAt(ex, i)
    ensures i > 0 && ex[i - 1].request == GetMessage(sourceId) && ParseObject(ex[i - 1].answer).Ok?
    ensures var source := ParseObject(ex[i - 1].answer).value;
            && ex[i].request.PostDraft? && ex[i].request.threadId == source.threadId
            && D.ReplyHeaders(source.headers).Ok?
            && D.ParseMessage(ex[i].request.message) == Some((D.ReplyHeaders(source.headers).value, D.Normalized(body)))
  {
    var op := CreateReply(sourceId, body);
    ItemIsSound(op, a, outcome, ex);
    assert GuardedAt(op, ex, i);
    D.ReplyReadsBack(ParseObject(ex[i - 1].answer).value.headers, body);
  }

  // --- Effects at the provider --------------------------------------------------------------------

  // A set of writes that may have taken effect: a refused write never does, an accepted one always does, and
  // of the rest any may have.
  ghost predicate PossibleEffects(ex: seq<Exchange>, effects: set<nat>) {
    && (forall i | i in effects :: WriteAt(ex, i) && !IsRefusal(ex[i].answer))
    && (forall i | WriteAt(ex, i) && IsSuccess(ex[i].answer) :: i in effects)
  }

  // Whatever happened at the provider, an item's write took effect at most once; never when the item is
  // reported failed or not attempted; and an item is reported unknown only when it may have.
  lemma EffectsOfItem(op: WriteOp, outcome: Outcome, ex: seq<Exchange>)
    requires ItemSound(op, outcome, ex)
    ensures forall effects | PossibleEffects(ex, effects) :: |effects| <= 1
    ensures outcome.Failed? || outcome.NotAttempted? ==> forall effects | PossibleEffects(ex, effects) :: effects == {}
    ensures outcome.Unknown? ==> exists effects :: PossibleEffects(ex, effects) && effects != {}
  {
    forall effects | PossibleEffects(ex, effects) ensures |effects| <= 1 {
      if effects != {} {
        var i :| i in effects;
        forall j | j in effects ensures j == i {
          assert WriteAt(ex, i) && WriteAt(ex, j);
        }
        assert effects == {i};
      }
    }
    if outcome.Unknown? {
      var i: nat :| WriteAt(ex, i) && !IsRefusal(ex[i].answer);
      forall j | WriteAt(ex, j) && IsSuccess(ex[j].answer) ensures j == i {
      }
      assert PossibleEffects(ex, {i});
    }
  }
}
