// What one bulk item sends and reports, said from its requests and from the fields of the answers alone
// (src/gmail/client.rs, src/gmail/client/drafts.rs, src/gmail/client/bulk.rs, src/broker/handlers/bulk*.rs).
module ItemFacts {
  import opened Wrappers
  import opened Texts
  import opened ProviderCalls
  import opened TokenRetry
  import opened WriteOutcomes
  import D = DraftMessage

  // --- The fields that count ----------------------------------------------------------------------

  predicate Changes(r: Request) {
    || r.PostTrash? || r.PostLabel? || r.DeleteLabel? || r.PostDraft? || r.DeleteDraft? || r.PostSend?
    || r.PostBatchModify?
  }

  predicate Answered4xx(a: Answer) {
    a.Reply? && 400 <= a.status <= 499
  }

  predicate Answered401(a: Answer) {
    a.Reply? && a.status == 401
  }

  predicate Accepted(a: Answer) {
    a.Reply? && 200 <= a.status <= 299
  }

  predicate Filled(s: Option<string>) {
    s.Some? && |s.value| > 0
  }

  // A message that can be replied to, in that thread.
  predicate SourceShown(a: Answer, threadId: string) {
    Accepted(a) && a.body.Object? && Filled(a.body.fields.id) && a.body.fields.threadId == Some(threadId) != Some("")
  }

  // The read allows that write: it shows a message that is no draft, a user label, the draft with the captured message
  // as its current one, or a message that can be replied to and whose reply that is.
  predicate Allows(op: WriteOp, a: Answer, write: Request) {
    match op
    case Trash(id) => MessageShown(a, id) && !ListsLabel(a, "DRAFT") && write == PostTrash(id)
    case CreateLabel(_) => false
    case RemoveLabel(id) => LabelShown(a, id, UserKind) && write == DeleteLabel(id)
    case CreateDraft(_) => false
    case CreateReply(_, body) =>
      && write.PostDraft? && write.threadId.Some? && SourceShown(a, write.threadId.value)
      && D.ReplyMessage(a.body.fields.headers, body) == Some(write.message)
    case DeleteMarkedDraft(id, revision) => DraftShown(a, id, revision) && write == DeleteDraft(id)
    case SendMarkedDraft(id, revision) => DraftShown(a, id, revision) && write == PostSend(id)
  }

  // Why a read that allows no write ends the attempt.
  ghost function Denial(op: WriteOp, a: Answer): Error {
    if Unreadable(a).Some? then Unreadable(a).value
    else
      match op
      case Trash(id) => if MessageShown(a, id) then DraftMutation else Other
      case RemoveLabel(id) => if LabelShown(a, id, SystemKind) then SystemLabel else Other
      case DeleteMarkedDraft(id, _) => if exists m :: DraftShown(a, id, m) then RevisionChanged else Other
      case SendMarkedDraft(id, _) => if exists m :: DraftShown(a, id, m) then RevisionChanged else Other
      case _ => Other
  }

  // The answer to the write, or for some the exchange right behind it, shows that the write took effect: the trashed
  // message in the trash, the new label as a user label of that name, the label gone, the new draft or the sent message
  // with all its identities, the draft's deletion accepted.
  predicate ShowsEffect(op: WriteOp, a: Answer, next: Option<Exchange>) {
    match op
    case Trash(id) =>
      next.Some? && next.value.request == GetMessageLabels(id)
      && MessageShown(next.value.answer, id) && ListsLabel(next.value.answer, "TRASH")
    case CreateLabel(name) =>
      && Accepted(a) && a.body.Object? && a.body.fields.name == Some(name) && Filled(a.body.fields.id)
      && NoControl(a.body.fields.id.value)
      && (|| a.body.fields.kind == Present(UserKind)
          || (a.body.fields.kind == Absent && next.Some? && next.value.request == GetLabel(a.body.fields.id.value)
              && LabelShown(next.value.answer, a.body.fields.id.value, UserKind)
              && next.value.answer.body.fields.name == Some(name)))
    case RemoveLabel(id) =>
      || (Accepted(a) && a.body in {NoBytes, EmptyObject})
      || (next.Some? && next.value.request == GetLabel(id) && next.value.answer.Reply?
          && next.value.answer.status == 404)
    case CreateDraft(_) => DraftMade(a)
    case CreateReply(_, _) => DraftMade(a)
    case DeleteMarkedDraft(_, _) => Accepted(a)
    case SendMarkedDraft(_, _) =>
      Accepted(a) && a.body.Object? && Filled(a.body.fields.id) && Filled(a.body.fields.threadId)
  }

  predicate DraftMade(a: Answer) {
    && Accepted(a) && a.body.Object? && Filled(a.body.fields.id) && Filled(a.body.fields.messageId)
    && Filled(a.body.fields.messageThreadId)
  }

  predicate EffectShownAt(op: WriteOp, ex: seq<Exchange>, i: int) {
    && 0 <= i < |ex| && Changes(ex[i].request) && !Answered4xx(ex[i].answer)
    && ShowsEffect(op, ex[i].answer, if i + 1 < |ex| then Some(ex[i + 1]) else None)
  }

  // --- The same conditions as the operations compute them -----------------------------------------

  lemma PermissionExact(op: WriteOp, a: Answer)
    requires NeedsPermit(op)
    ensures Permission(op, a).Ok? <==> exists write :: Allows(op, a, write)
    ensures Permission(op, a).Err? ==> Permission(op, a) == Err(Denial(op, a))
  {
    ObjectRead(a);
    match op
    case Trash(id) =>
      LabelsRead(a, id);
      assert Permission(op, a).Ok? ==> Allows(op, a, PostTrash(id));
    case RemoveLabel(id) =>
      CustomLabelRead(a, id);
      assert Permission(op, a).Ok? ==> Allows(op, a, DeleteLabel(id));
    case CreateReply(_, body) =>
      if Permission(op, a).Ok? {
        var f := a.body.fields;
        assert Allows(op, a, PostDraft(D.ReplyMessage(f.headers, body).value, f.threadId));
      }
    case DeleteMarkedDraft(id, revision) => DraftPermission(op, id, revision, a);
    case SendMarkedDraft(id, revision) => DraftPermission(op, id, revision, a);
  }

  lemma DraftPermission(op: WriteOp, id: string, revision: string, a: Answer)
    requires op == DeleteMarkedDraft(id, revision) || op == SendMarkedDraft(id, revision)
    ensures Permission(op, a).Ok? <==> exists write :: Allows(op, a, write)
    ensures Permission(op, a).Err? ==> Permission(op, a) == Err(Denial(op, a))
  {
    RevisionRead(a, id);
    if DraftShown(a, id, revision) {
      assert Allows(op, a, if op.SendMarkedDraft? then PostSend(id) else DeleteDraft(id));
    }
    if ReadRevision(a, id).Ok? {
      assert DraftShown(a, id, ReadRevision(a, id).value);
    }
  }

  lemma WriteAllowed(op: WriteOp, e: Exchange, write: Request)
    requires NeedsPermit(op) && Permits(op, e)
    ensures Allows(op, e.answer, write) <==> IsWriteOf(op, write) && Answers(op, e, write)
  {
    PermissionExact(op, e.answer);
    ObjectRead(e.answer);
  }

  lemma EffectExact(op: WriteOp, ex: seq<Exchange>, i: int)
    ensures ConfirmedAt(op, ex, i) <==> EffectShownAt(op, ex, i)
  {
    if 0 <= i < |ex| {
      ExchangeKinds(ex[i]);
      ObjectRead(ex[i].answer);
      if i + 1 < |ex| {
        ObjectRead(ex[i + 1].answer);
      }
    }
  }

  // A new draft is made exactly if its answer shows all its identities; else the attempt ends with what it lacked.
  lemma DraftCreatedExactly(a: Answer)
    ensures DraftCreated(a) ==
            if DraftMade(a) then Ok(()) else Err(if Unreadable(a).Some? then Unreadable(a).value else Other)
  {
  }

  // --- Over the whole item ------------------------------------------------------------------------

  // Every write an item sends is its operation's own; one that depends on a read comes directly behind that read, which
  // allowed exactly this write.
  lemma WritesAllowed(op: WriteOp, a: Admittance, outcome: Outcome, ex: seq<Exchange>, i: nat)
    requires ItemFits(op, a, outcome, ex) && i < |ex| && Changes(ex[i].request)
    ensures match op
            case CreateLabel(name) => ex[i].request == PostLabel(name)
            case CreateDraft(message) => ex[i].request == PostDraft(message, None)
            case _ => i > 0 && ex[i - 1].request == PermitRead(op) && Allows(op, ex[i - 1].answer, ex[i].request)
  {
    ItemIsSound(op, a, outcome, ex);
    ExchangeKinds(ex[i]);
    assert WriteAt(ex, i);
    assert GuardedAt(op, ex, i);
    if NeedsPermit(op) {
      WriteAllowed(op, ex[i - 1], ex[i].request);
    }
  }

  // An item has succeeded exactly if one of its writes was not refused and is shown to have taken effect; it has
  // failed, or was not attempted, exactly if each of its writes was answered 4xx, and is unknown otherwise.
  lemma OutcomeShown(op: WriteOp, a: Admittance, outcome: Outcome, ex: seq<Exchange>)
    requires ItemFits(op, a, outcome, ex)
    ensures outcome.Succeeded? <==> exists i :: EffectShownAt(op, ex, i)
    ensures outcome.Failed? || outcome.NotAttempted? <==>
            forall i | 0 <= i < |ex| && Changes(ex[i].request) :: Answered4xx(ex[i].answer)
  {
    ItemIsSound(op, a, outcome, ex);
    forall i ensures ConfirmedAt(op, ex, i) <==> EffectShownAt(op, ex, i) {
      EffectExact(op, ex, i);
    }
    forall i | 0 <= i < |ex|
      ensures WriteAt(ex, i) <==> Changes(ex[i].request)
      ensures IsRefusal(ex[i].answer) <==> Answered4xx(ex[i].answer)
    {
      ExchangeKinds(ex[i]);
    }
    if i :| ConfirmedAt(op, ex, i) {
      assert WriteAt(ex, i);
    }
  }

  // --- One try ------------------------------------------------------------------------------------

  lemma AllowsOne(op: WriteOp, a: Answer, first: Request, second: Request)
    requires Allows(op, a, first) && Allows(op, a, second)
    ensures first == second
  {
  }

  // A try begins with its read, and goes on to the write that the read allows.
  lemma TryStart(op: WriteOp, t: Try)
    requires IsTry(op, t) && NeedsPermit(op)
    ensures Log(t) != [] && Log(t)[0].request == PermitRead(op)
    ensures forall write | Allows(op, Log(t)[0].answer, write) :: |Log(t)| > 1 && Log(t)[1].request == write
  {
    var read := t.attempt[0];
    forall write | Allows(op, read.answer, write) ensures |t.attempt| > 1 && t.attempt[1].request == write {
      PermissionExact(op, read.answer);
      WriteAllowed(op, read, t.attempt[1].request);
      AllowsOne(op, read.answer, write, t.attempt[1].request);
    }
  }

  // What a 401 answers inside a try: the last exchange, or nothing that decides the try.
  lemma RejectionIsLast(op: WriteOp, t: Try, i: nat)
    requires IsTry(op, t) && i + 1 < |Log(t)|
    ensures !Answered401(Log(t)[i].answer)
  {
    ObjectRead(Log(t)[i].answer);
    if NeedsPermit(op) && i == 0 {
      PermissionExact(op, t.attempt[0].answer);
    }
  }

  // Whether a try asks for another token, from its last exchange: the write, or the read that should have allowed it,
  // was answered 401.
  predicate AsksForToken(ex: seq<Exchange>) {
    ex != [] && Answered401(ex[|ex| - 1].answer) && (|ex| == 1 || Changes(ex[|ex| - 1].request))
  }

  lemma RejectionExact(op: WriteOp, t: Try)
    requires IsTry(op, t)
    ensures TryResult(op, t).Err? <==> AsksForToken(Log(t))
  {
    if Written(op, t.attempt) {
      WriteRejection(op, t);
    } else {
      assert Log(t) == [t.attempt[0]];
      PermissionExact(op, t.attempt[0].answer);
      DenialOf401(op, t.attempt[0].answer);
    }
  }

  lemma WriteRejection(op: WriteOp, t: Try)
    requires IsTry(op, t) && Written(op, t.attempt)
    ensures Unauthorized(op, t.attempt) <==> AsksForToken(Log(t))
  {
    var ex, w := Log(t), WriteIndex(op);
    var last := |ex| - 1;
    AttemptWrites(op, t.attempt);
    ExchangeKinds(ex[last]);
    assert ex[w] == t.attempt[w];
    if last != w && Changes(ex[last].request) {
      assert WriteAt(ex, last);
      LogWrites(op, t, last);
    }
    if last != w && Unauthorized(op, t.attempt) {
      RejectionIsLast(op, t, w);
    }
  }

  lemma DenialOf401(op: WriteOp, a: Answer)
    ensures Denial(op, a) == Status(401) <==> Answered401(a)
  {
  }

  // Why a try failed, from its last exchange: the write's own status, or what the read denied.
  ghost predicate CauseShown(op: WriteOp, cause: Error, ex: seq<Exchange>) {
    ex != [] &&
    var e := ex[|ex| - 1];
    if Changes(e.request) then e.answer.Reply? && cause == Status(e.answer.status) else cause == Denial(op, e.answer)
  }

  lemma TryCause(op: WriteOp, t: Try, cause: Error)
    requires IsTry(op, t) && TryResult(op, t) in {Err(cause), Ok(Failed(cause))}
    ensures CauseShown(op, cause, Log(t))
  {
    var ex := Log(t);
    ExchangeKinds(ex[|ex| - 1]);
    if !Written(op, t.attempt) {
      assert ex == [t.attempt[0]];
      PermissionExact(op, t.attempt[0].answer);
    } else {
      ExchangeKinds(t.attempt[WriteIndex(op)]);
      ObjectRead(WriteAnswer(op, t.attempt));
      assert t.readback == [] && |t.attempt| == WriteIndex(op) + 1;
    }
  }

  // --- From its tries to the item -----------------------------------------------------------------

  // At most two tries make up the log, the second behind a rejection.
  ghost predicate MadeOf(op: WriteOp, ex: seq<Exchange>, tries: seq<Try>) {
    && |tries| <= 2 && (forall i | 0 <= i < |tries| :: IsTry(op, tries[i]))
    && (tries == [] ==> ex == [])
    && (|tries| == 1 ==> ex == Log(tries[0]))
    && (|tries| == 2 ==> ex == Log(tries[0]) + Log(tries[1]) && AsksForToken(Log(tries[0])))
  }

  lemma TriesMakeItem(op: WriteOp, a: Admittance, outcome: Outcome, tries: seq<Try>)
    requires TriesFit(op, a, outcome, tries)
    ensures MadeOf(op, Logs(tries), tries)
    ensures tries == [] <==> a.stopped || !a.tokens.cached
  {
    NumberOfTries(op, a, outcome, tries);
    if |tries| == 1 {
      assert tries == [tries[0]];
      LogsOfOne(tries[0]);
    } else if |tries| == 2 {
      assert tries == [tries[0], tries[1]];
      LogsOfTwo(tries[0], tries[1]);
      assert TryResults(op, tries)[0] == TryResult(op, tries[0]);
      RejectionExact(op, tries[0]);
    }
  }

  // Whether an attempt begins at exchange i: the item's first, or the one behind a rejection.
  predicate Begins(ex: seq<Exchange>, i: int) {
    0 <= i < |ex| && (i == 0 || Answered401(ex[i - 1].answer))
  }

  ghost predicate PartAt(ex: seq<Exchange>, i: int, part: seq<Exchange>) {
    0 <= i <= |ex| - |part| && forall j | 0 <= j < |part| :: ex[i + j] == part[j]
  }

  lemma SecondBegins(op: WriteOp, one: Try, two: Try, i: int)
    requires IsTry(op, one) && IsTry(op, two) && i > 0 && Begins(Log(one) + Log(two), i)
    ensures i == |Log(one)|
  {
    var n := |Log(one)|;
    if i < n {
      RejectionIsLast(op, one, i - 1);
    } else if i > n {
      RejectionIsLast(op, two, i - 1 - n);
    }
  }

  // Where an attempt begins, a try begins.
  lemma TryAt(op: WriteOp, ex: seq<Exchange>, tries: seq<Try>, i: int) returns (t: Try)
    requires MadeOf(op, ex, tries) && Begins(ex, i)
    ensures IsTry(op, t) && PartAt(ex, i, Log(t))
  {
    t := tries[0];
    if |tries| == 2 && i > 0 {
      SecondBegins(op, tries[0], tries[1], i);
      t := tries[1];
    } else if i > 0 {
      RejectionIsLast(op, t, i - 1);
    }
  }

  // In every attempt, the first and the one with another token, a read that allows a write is followed by that write.
  lemma AllowedIsWritten(
    op: WriteOp, a: Admittance, outcome: Outcome, ex: seq<Exchange>, i: nat, write: Request)
    requires ItemFits(op, a, outcome, ex) && Begins(ex, i) && NeedsPermit(op)
    ensures ex[i].request == PermitRead(op)
    ensures Allows(op, ex[i].answer, write) ==> i + 1 < |ex| && ex[i + 1].request == write
  {
    var tries :| TriesFit(op, a, outcome, tries) && ex == Logs(tries);
    TriesMakeItem(op, a, outcome, tries);
    var t := TryAt(op, ex, tries, i);
    TryStart(op, t);
    assert ex[i + 0] == Log(t)[0];
    if Allows(op, ex[i].answer, write) {
      assert ex[i + 1] == Log(t)[1];
    }
  }

  // What a whole item says about its last exchange.
  ghost predicate EndShown(op: WriteOp, a: Admittance, outcome: Outcome, ex: seq<Exchange>) {
    && (outcome.Failed? ==> CauseShown(op, outcome.cause, ex))
    && (outcome.NotAttempted? <==> a.stopped || !a.tokens.cached || (!a.tokens.refreshed && AsksForToken(ex)))
    && (a.stopped || !a.tokens.cached <==> ex == [])
  }

  lemma OneTryEnd(op: WriteOp, a: Admittance, outcome: Outcome, t: Try)
    requires TriesFit(op, a, outcome, [t])
    ensures EndShown(op, a, outcome, Log(t))
  {
    RejectionExact(op, t);
    assert TryResults(op, [t]) == [TryResult(op, t)];
    if outcome.Failed? {
      TryCause(op, t, outcome.cause);
    }
  }

  lemma TwoTryEnd(op: WriteOp, a: Admittance, outcome: Outcome, one: Try, two: Try)
    requires TriesFit(op, a, outcome, [one, two])
    ensures EndShown(op, a, outcome, Log(one) + Log(two))
  {
    assert TryResults(op, [one, two]) == [TryResult(op, one), TryResult(op, two)];
    if outcome.Failed? {
      TryCause(op, two, outcome.cause);
      CauseAtEnd(op, outcome.cause, Log(one), Log(two));
    }
  }

  lemma CauseAtEnd(op: WriteOp, cause: Error, front: seq<Exchange>, back: seq<Exchange>)
    requires CauseShown(op, cause, back)
    ensures CauseShown(op, cause, front + back)
  {
    assert (front + back)[|front + back| - 1] == back[|back| - 1];
  }

  // A failed item ends with the exchange that failed it, which shows the reported cause; one that is not attempted was
  // stopped, or lacked a token: at first, or after a rejection.
  lemma EndOfItem(op: WriteOp, a: Admittance, outcome: Outcome, ex: seq<Exchange>)
    requires ItemFits(op, a, outcome, ex)
    ensures EndShown(op, a, outcome, ex)
  {
    var tries :| TriesFit(op, a, outcome, tries) && ex == Logs(tries);
    NumberOfTries(op, a, outcome, tries);
    if |tries| == 1 {
      assert tries == [tries[0]];
      LogsOfOne(tries[0]);
      OneTryEnd(op, a, outcome, tries[0]);
    } else if |tries| == 2 {
      assert tries == [tries[0], tries[1]];
      LogsOfTwo(tries[0], tries[1]);
      TwoTryEnd(op, a, outcome, tries[0], tries[1]);
    }
  }
}
