// The bulk handlers over the action table and the provider: marking a set of drafts, and acting on a set of
// markers (src/broker/handlers/bulk_drafts.rs, src/broker/handlers/bulk_deletion.rs). Items run one after another
// here, and no other thread moves in between; MarkRuns has the interleavings.
module MarkHandlers {
  import opened Wrappers
  import opened ActionMarks
  import opened ActionMarkLaws
  import opened ActionStores
  import opened ProviderCalls
  import opened TokenRetry
  import W = WriteOutcomes
  import I = ItemFacts
  import opened LogParts

  datatype Refusal = Unresolved(cause: TokenRetry.Failure) | Marks(failure: ActionMarks.Failure)

  // --- Marking drafts -----------------------------------------------------------------------------

  // A draft's current message, or why it could not be had.
  type Found = Result<string, TokenRetry.Failure>

  datatype Lookup = Lookup(draftId: string, tokens: Tokens)

  function Revisions(draftId: string, ex: seq<Exchange>): seq<Result<string, Error>> {
    seq(|ex|, i requires 0 <= i < |ex| => ReadRevision(ex[i].answer, draftId))
  }

  // One draft's current message: one read of the draft for each attempt.
  ghost predicate LookupFits(job: Lookup, r: Found, ex: seq<Exchange>) {
    && (forall i | 0 <= i < |ex| :: ex[i].request == GetDraft(job.draftId))
    && AttemptsMade(job.tokens, Revisions(job.draftId, ex))
    && r == Final(job.tokens, Revisions(job.draftId, ex))
  }

  method ResolveDraft(c: Connection, job: Lookup) returns (r: Found)
    modifies c
    ensures old(c.log) <= c.log && LookupFits(job, r, c.log[|old(c.log)|..])
  {
    if !job.tokens.cached {
      return Err(Credential);
    }
    var answer := c.Send(GetDraft(job.draftId));
    ghost var e := Exchange(GetDraft(job.draftId), answer);
    assert c.log[|old(c.log)|..] == [e];
    var revision := ReadRevision(answer, job.draftId);
    if revision.Ok? {
      return Ok(revision.value);
    }
    if !IsUnauthorized(revision.error) {
      return Err(Gmail(revision.error));
    }
    if !job.tokens.refreshed {
      return Err(Credential);
    }
    answer := c.Send(GetDraft(job.draftId));
    assert c.log[|old(c.log)|..] == [e, Exchange(GetDraft(job.draftId), answer)];
    revision := ReadRevision(answer, job.draftId);
    r := if revision.Ok? then Ok(revision.value) else Err(Gmail(revision.error));
  }

  method ResolveDrafts(c: Connection, jobs: seq<Lookup>)
    returns (revisions: seq<Found>, ghost cuts: seq<nat>)
    modifies c
    ensures old(c.log) <= c.log && Accounted(LookupFits, jobs, revisions, c.log, cuts, |old(c.log)|, |c.log|)
  {
    revisions, cuts := [], [|c.log|];
    var i := 0;
    while i < |jobs|
      invariant 0 <= i <= |jobs| && old(c.log) <= c.log
      invariant Accounted(LookupFits, jobs[..i], revisions, c.log, cuts, |old(c.log)|, |c.log|)
    {
      ghost var before := c.log;
      var revision := ResolveDraft(c, jobs[i]);
      OneMoreItem(LookupFits, jobs[..i], revisions, before, cuts, |old(c.log)|, jobs[i], revision, c.log);
      assert jobs[..i] + [jobs[i]] == jobs[..i + 1];
      revisions, cuts := revisions + [revision], cuts + [|c.log|];
      i := i + 1;
    }
    assert jobs[..i] == jobs;
  }

  // A lookup finds exactly the message that its last answer shows for the draft; it makes a second read only after
  // a 401, and otherwise reports what the answer lacked, or that there was no token.
  lemma LookupExact(job: Lookup, r: Found, ex: seq<Exchange>)
    requires LookupFits(job, r, ex)
    ensures |ex| <= 2 && (ex == [] <==> !job.tokens.cached)
    ensures forall m :: r == Ok(m) <==> ex != [] && DraftShown(ex[|ex| - 1].answer, job.draftId, m)
    ensures |ex| == 2 <==> job.tokens.refreshed && ex != [] && Unreadable(ex[0].answer) == Some(Status(401))
    ensures r.Err? ==>
              r == if ex == [] then Err(Credential)
                   else
                     var a := ex[|ex| - 1].answer;
                     if Unreadable(a).None? then Err(Gmail(Other))
                     else if |ex| == 1 && Unreadable(a) == Some(Status(401)) then Err(Credential)
                     else Err(Gmail(Unreadable(a).value))
  {
    if ex != [] {
      RevisionRead(ex[0].answer, job.draftId);
      RevisionRead(ex[|ex| - 1].answer, job.draftId);
      assert Revisions(job.draftId, ex)[0] == ReadRevision(ex[0].answer, job.draftId);
      assert Revisions(job.draftId, ex)[|ex| - 1] == ReadRevision(ex[|ex| - 1].answer, job.draftId);
    }
  }

  // A resolved draft's message was shown for it during this call.
  lemma LookupShows(
    jobs: seq<Lookup>, revisions: seq<Found>, log: seq<Exchange>, cuts: seq<nat>, from: nat, i: nat)
    requires Accounted(LookupFits, jobs, revisions, log, cuts, from, |log|) && i < |jobs| && revisions[i].Ok?
    ensures exists k | from <= k < |log| ::
              && log[k].request == GetDraft(jobs[i].draftId)
              && DraftShown(log[k].answer, jobs[i].draftId, revisions[i].value)
  {
    var start, ex := PartOfItem(LookupFits, jobs, revisions, log, cuts, from, |log|, i);
    var last := |ex| - 1;
    assert log[start + last] == ex[last];
    assert log[start + last].request == GetDraft(jobs[i].draftId);
    RevisionRead(ex[last].answer, jobs[i].draftId);
  }

  lemma LookupsOnlyRead(
    jobs: seq<Lookup>, revisions: seq<Found>, log: seq<Exchange>, cuts: seq<nat>, from: nat, k: nat)
    requires Accounted(LookupFits, jobs, revisions, log, cuts, from, |log|) && from <= k < |log|
    ensures !IsWrite(log[k].request)
  {
    var i, ex, at := ItemOf(LookupFits, jobs, revisions, log, cuts, from, |log|, k);
    assert ex[at].request == GetDraft(jobs[i].draftId);
  }

  // The resources to register, or the first failure in request order.
  function Resources(jobs: seq<Lookup>, revisions: seq<Found>): Result<seq<Resource>, Refusal>
    requires |revisions| == |jobs|
  {
    if jobs == [] then Ok([])
    else if revisions[0].Err? then Err(Unresolved(revisions[0].error))
    else
      var rest := Resources(jobs[1..], revisions[1..]);
      if rest.Err? then rest else Ok([Resource(revisions[0].value, Some(jobs[0].draftId))] + rest.value)
  }

  method CollectResources(jobs: seq<Lookup>, revisions: seq<Found>)
    returns (r: Result<seq<Resource>, Refusal>)
    requires |revisions| == |jobs|
    ensures r == Resources(jobs, revisions)
  {
    var found: seq<Resource> := [];
    var i := 0;
    ghost var all := Resources(jobs, revisions);
    assert jobs[0..] == jobs && revisions[0..] == revisions;
    assert all.Ok? ==> found + all.value == all.value;
    while i < |jobs|
      invariant 0 <= i <= |jobs|
      invariant var rest := Resources(jobs[i..], revisions[i..]);
                Resources(jobs, revisions) == if rest.Err? then rest else Ok(found + rest.value)
    {
      assert jobs[i..][1..] == jobs[i + 1..] && revisions[i..][1..] == revisions[i + 1..];
      if revisions[i].Err? {
        return Err(Unresolved(revisions[i].error));
      }
      ghost var rest := Resources(jobs[i + 1..], revisions[i + 1..]);
      var resource := Resource(revisions[i].value, Some(jobs[i].draftId));
      assert rest.Ok? ==> found + ([resource] + rest.value) == (found + [resource]) + rest.value;
      found := found + [resource];
      i := i + 1;
    }
    assert found + [] == found;
    r := Ok(found);
  }

  // All drafts are resolved before any is registered: one that cannot be resolved leaves the table alone.
  method MarkDrafts(
    store: ActionStore, c: Connection, now: nat, subject: string, jobs: seq<Lookup>, kind: Kind, freshIds: seq<string>)
    returns (r: Result<seq<string>, Refusal>, ghost revisions: seq<Found>, ghost cuts: seq<nat>)
    requires |freshIds| == |jobs|
    modifies store, c
    ensures old(c.log) <= c.log && Accounted(LookupFits, jobs, revisions, c.log, cuts, |old(c.log)|, |c.log|)
    ensures var resources := Resources(jobs, revisions);
            if resources.Err? then store.marks == old(store.marks) && r == Err(resources.error)
            else
              |resources.value| == |freshIds| &&
              var a := RegisterAll(old(store.marks), now, subject, resources.value, kind, freshIds);
              store.marks == a.table && r == if a.result.Ok? then Ok(a.result.value) else Err(Marks(a.result.error))
  {
    var found;
    found, cuts := ResolveDrafts(c, jobs);
    revisions := found;
    var resources := CollectResources(jobs, found);
    if resources.Err? {
      return Err(resources.error), revisions, cuts;
    }
    ResourcesPair(jobs, found);
    var registered := store.RegisterActionMarks(now, subject, resources.value, kind, freshIds);
    r := if registered.Ok? then Ok(registered.value) else Err(Marks(registered.error));
  }

  // Each resource pairs a requested draft with the message found for it, in request order.
  lemma {:induction false} ResourcesPair(jobs: seq<Lookup>, revisions: seq<Found>)
    requires |revisions| == |jobs|
    ensures var r := Resources(jobs, revisions);
            && (r.Ok? <==> forall i | 0 <= i < |jobs| :: revisions[i].Ok?)
            && (r.Ok? ==> |r.value| == |jobs| && forall i | 0 <= i < |jobs| ::
                            r.value[i] == Resource(revisions[i].value, Some(jobs[i].draftId)))
    decreases |jobs|
  {
    if jobs != [] {
      ResourcesPair(jobs[1..], revisions[1..]);
      forall i | 1 <= i < |jobs| ensures jobs[i] == jobs[1..][i - 1] && revisions[i] == revisions[1..][i - 1] {
      }
      if Resources(jobs, revisions).Ok? {
        forall i | 0 <= i < |jobs| ensures revisions[i].Ok? {
          if i > 0 { assert revisions[1..][i - 1].Ok?; }
        }
      } else if revisions[0].Ok? {
        var j :| 0 <= j < |jobs| - 1 && !revisions[1..][j].Ok?;
        assert revisions[j + 1].Err?;
      }
    }
  }

  // What is registered for a draft is the message that some answer of this very call showed as the draft's current one.
  lemma RegisteredWasShown(
    jobs: seq<Lookup>, revisions: seq<Found>, log: seq<Exchange>, cuts: seq<nat>, from: nat, i: nat)
    requires Accounted(LookupFits, jobs, revisions, log, cuts, from, |log|) && i < |jobs|
    requires Resources(jobs, revisions).Ok?
    ensures var resources := Resources(jobs, revisions).value;
            && |resources| == |jobs| && resources[i].draftId == Some(jobs[i].draftId)
            && exists k | from <= k < |log| ::
                 && log[k].request == GetDraft(jobs[i].draftId)
                 && DraftShown(log[k].answer, jobs[i].draftId, resources[i].messageId)
  {
    ResourcesPair(jobs, revisions);
    LookupShows(jobs, revisions, log, cuts, from, i);
  }

  // --- Acting on a set of markers -----------------------------------------------------------------

  // The write a consumed mark stands for; a draft mark without a draft stands for none.
  function OpOf(m: Mark): Option<W.WriteOp> {
    match m.kind
    case TrashMessage => Some(W.Trash(m.resource.messageId))
    case DeleteDraft =>
      if m.resource.draftId.None? then None
      else Some(W.DeleteMarkedDraft(m.resource.draftId.value, m.resource.messageId))
    case SendDraft =>
      if m.resource.draftId.None? then None
      else Some(W.SendMarkedDraft(m.resource.draftId.value, m.resource.messageId))
  }

  datatype Job = Job(mark: Mark, admitted: W.Admittance)

  // What one mark's item reports and sends.
  ghost predicate JobFits(job: Job, outcome: W.Outcome, ex: seq<Exchange>) {
    var op := OpOf(job.mark);
    if op.Some? then W.ItemFits(op.value, job.admitted, outcome, ex)
    else
      && ex == []
      && outcome == if job.admitted.stopped || !job.admitted.tokens.cached then W.NotAttempted else W.Failed(Other)
  }

  function Jobs(marks: seq<Mark>, admitted: seq<W.Admittance>): seq<Job>
    requires |admitted| == |marks|
  {
    seq(|marks|, i requires 0 <= i < |marks| => Job(marks[i], admitted[i]))
  }

  method RunMark(c: Connection, job: Job) returns (outcome: W.Outcome)
    requires c.writes < WRITE_COUNTER_RANGE
    modifies c
    ensures old(c.log) <= c.log && c.writes < WRITE_COUNTER_RANGE
    ensures JobFits(job, outcome, c.log[|old(c.log)|..])
  {
    var op := OpOf(job.mark);
    if op.Some? {
      var credentialFailed;
      outcome, credentialFailed := W.RunItem(c, op.value, job.admitted);
    } else if job.admitted.stopped || !job.admitted.tokens.cached {
      outcome := W.NotAttempted;
    } else {
      outcome := W.Failed(Other);
    }
  }

  method RunMarks(c: Connection, jobs: seq<Job>) returns (outcomes: seq<W.Outcome>, ghost cuts: seq<nat>)
    requires c.writes < WRITE_COUNTER_RANGE
    modifies c
    ensures old(c.log) <= c.log && c.writes < WRITE_COUNTER_RANGE
    ensures Accounted(JobFits, jobs, outcomes, c.log, cuts, |old(c.log)|, |c.log|)
  {
    outcomes, cuts := [], [|c.log|];
    var i := 0;
    while i < |jobs|
      invariant 0 <= i <= |jobs| && old(c.log) <= c.log && c.writes < WRITE_COUNTER_RANGE
      invariant Accounted(JobFits, jobs[..i], outcomes, c.log, cuts, |old(c.log)|, |c.log|)
    {
      ghost var before := c.log;
      var outcome := RunMark(c, jobs[i]);
      OneMoreItem(JobFits, jobs[..i], outcomes, before, cuts, |old(c.log)|, jobs[i], outcome, c.log);
      assert jobs[..i] + [jobs[i]] == jobs[..i + 1];
      outcomes, cuts := outcomes + [outcome], cuts + [|c.log|];
      i := i + 1;
    }
    assert jobs[..i] == jobs;
  }

  // The provider request that carries out a mark.
  predicate CarriesOut(r: Request, m: Mark) {
    match m.kind
    case TrashMessage => r == PostTrash(m.resource.messageId)
    case DeleteDraft => m.resource.draftId.Some? && r == Request.DeleteDraft(m.resource.draftId.value)
    case SendDraft => m.resource.draftId.Some? && r == PostSend(m.resource.draftId.value)
  }

  // The readback that shows a mark to be still accurate: the draft's message is the captured one, or the message
  // is not a draft.
  predicate StillAccurate(e: Exchange, m: Mark) {
    var id := m.resource.messageId;
    if m.kind == TrashMessage then
      e.request == GetMessageLabels(id) && MessageShown(e.answer, id) && !ListsLabel(e.answer, "DRAFT")
    else
      m.resource.draftId.Some? &&
      var draft := m.resource.draftId.value;
      e.request == GetDraft(draft) && DraftShown(e.answer, draft, id)
  }

  lemma PermitMeans(m: Mark, op: W.WriteOp, e: Exchange)
    requires OpOf(m) == Some(op) && W.Permits(op, e)
    ensures StillAccurate(e, m)
  {
    LabelsRead(e.answer, m.resource.messageId);
    if m.resource.draftId.Some? {
      RevisionRead(e.answer, m.resource.draftId.value);
    }
  }

  lemma WriteMeans(m: Mark, op: W.WriteOp, r: Request)
    requires OpOf(m) == Some(op) && W.IsWriteOf(op, r)
    ensures CarriesOut(r, m)
  {
  }

  // A write by a mark's item carries out that mark, directly after a readback that shows it to be still accurate.
  lemma MarkGuarded(job: Job, outcome: W.Outcome, ex: seq<Exchange>, at: nat)
    requires JobFits(job, outcome, ex) && at < |ex| && IsWrite(ex[at].request)
    ensures OpOf(job.mark).Some? && W.GuardedAt(OpOf(job.mark).value, ex, at)
    ensures CarriesOut(ex[at].request, job.mark) && at > 0 && StillAccurate(ex[at - 1], job.mark)
  {
    var op := OpOf(job.mark).value;
    W.ItemIsSound(op, job.admitted, outcome, ex);
    assert W.WriteAt(ex, at);
    assert W.GuardedAt(op, ex, at);
    WriteMeans(job.mark, op, ex[at].request);
    PermitMeans(job.mark, op, ex[at - 1]);
  }

  // Conversely, whenever an attempt reads that a mark is still accurate, the write that carries it out follows. Only a
  // draft mark without a draft sends nothing although it is admitted.
  lemma AccurateIsCarriedOut(job: Job, outcome: W.Outcome, ex: seq<Exchange>, i: nat)
    requires JobFits(job, outcome, ex)
    ensures I.Begins(ex, i) && StillAccurate(ex[i], job.mark) ==>
              i + 1 < |ex| && CarriesOut(ex[i + 1].request, job.mark)
    ensures ex == [] <==>
            || job.admitted.stopped || !job.admitted.tokens.cached
            || (job.mark.kind != TrashMessage && job.mark.resource.draftId.None?)
  {
    var m := job.mark;
    if m.kind == TrashMessage || m.resource.draftId.Some? {
      var op := OpOf(m).value;
      I.EndOfItem(op, job.admitted, outcome, ex);
      if I.Begins(ex, i) {
        I.AllowedIsWritten(op, job.admitted, outcome, ex, i, MarkWrite(m));
      }
    }
  }

  // The one write that carries out a mark with all it needs.
  function MarkWrite(m: Mark): (r: Request)
    requires m.kind == TrashMessage || m.resource.draftId.Some?
    ensures forall q :: CarriesOut(q, m) <==> q == r
  {
    match m.kind
    case TrashMessage => PostTrash(m.resource.messageId)
    case DeleteDraft => Request.DeleteDraft(m.resource.draftId.value)
    case SendDraft => PostSend(m.resource.draftId.value)
  }

  // Every write of an admitted set carries out one of its marks, directly after a readback that shows the mark to
  // be still accurate, and that mark's outcome is sound against its part of the log.
  lemma WritesBelongToMarks(
    jobs: seq<Job>, outcomes: seq<W.Outcome>, log: seq<Exchange>, cuts: seq<nat>, from: nat, k: nat)
    returns (i: nat, ex: seq<Exchange>, at: nat)
    requires Accounted(JobFits, jobs, outcomes, log, cuts, from, |log|)
    requires from <= k < |log| && IsWrite(log[k].request)
    ensures i < |jobs| == |outcomes| && OpOf(jobs[i].mark).Some?
    ensures 0 < at < |ex| && ex[at] == log[k] && W.GuardedAt(OpOf(jobs[i].mark).value, ex, at)
    ensures from < k && CarriesOut(log[k].request, jobs[i].mark) && StillAccurate(log[k - 1], jobs[i].mark)
    ensures W.ItemSound(OpOf(jobs[i].mark).value, outcomes[i], ex)
  {
    i, ex, at := ItemOf(JobFits, jobs, outcomes, log, cuts, from, |log|, k);
    MarkGuarded(jobs[i], outcomes[i], ex, at);
    W.ItemIsSound(OpOf(jobs[i].mark).value, jobs[i].admitted, outcomes[i], ex);
    assert ex[at - 1] == log[k - 1];
  }

  function Without(t: Table, ids: seq<string>): Table {
    map k | k in t && t[k].markerId !in ids :: t[k]
  }

  predicate Holds(t: Table, m: Mark) {
    KeyOf(m) in t && t[KeyOf(m)] == m
  }

  ghost predicate HoldsFrom(t: Table, marks: seq<Mark>, ids: seq<string>, i: nat) {
    && |ids| == |marks|
    && forall j | i <= j < |marks| :: marks[j].markerId == ids[j] && Holds(t, marks[j])
  }

  lemma HoldsAfter(t: Table, marks: seq<Mark>, ids: seq<string>, i: nat)
    requires TableOk(t) && i < |marks| && HoldsFrom(t, marks, ids, i) && NoRepeats(ids)
    ensures TableOk(Finished(t, marks[i])) && HoldsFrom(Finished(t, marks[i]), marks, ids, i + 1)
  {
    FinishFacts(t, marks[i]);
    forall j | i + 1 <= j < |marks| ensures Holds(Finished(t, marks[i]), marks[j]) {
      assert Holds(t, marks[j]) && ids[j] != ids[i];
    }
  }

  // The finish guard: every mark of the set is removed, one by one, however its item went.
  method FinishMarks(store: ActionStore, marks: seq<Mark>, ghost ids: seq<string>)
    requires TableOk(store.marks) && HoldsFrom(store.marks, marks, ids, 0) && NoRepeats(ids)
    modifies store
    ensures store.marks == Without(old(store.marks), ids)
  {
    ghost var first := store.marks;
    var i := 0;
    assert store.marks == Without(store.marks, ids[..0]);
    while i < |marks|
      invariant 0 <= i <= |marks| && TableOk(store.marks)
      invariant store.marks == Without(first, ids[..i])
      invariant HoldsFrom(store.marks, marks, ids, i)
    {
      HoldsAfter(store.marks, marks, ids, i);
      OneLess(first, store.marks, ids[..i], ids[i], marks[i]);
      assert ids[..i] + [ids[i]] == ids[..i + 1];
      store.FinishActionMark(marks[i]);
      i := i + 1;
    }
    assert ids[..i] == ids;
  }

  lemma OneLess(first: Table, t: Table, gone: seq<string>, id: string, m: Mark)
    requires TableOk(t) && t == Without(first, gone) && Holds(t, m) && m.markerId == id
    ensures Finished(t, m) == Without(first, gone + [id])
  {
    FinishFacts(t, m);
    forall k | k in first
      ensures first[k].markerId !in gone + [id] <==> first[k].markerId !in gone && first[k].markerId != id
    {
    }
  }

  // A set is admitted whole or not at all; once admitted, each mark's item is sound against the part of the log
  // that belongs to it, and the table loses exactly the marks of the set.
  method ExecuteMarked(
    store: ActionStore, c: Connection, now: nat, subject: string, markers: seq<string>, kind: Kind,
    admittances: seq<W.Admittance>)
    returns (r: Result<seq<W.Outcome>, ActionMarks.Failure>, ghost taken: seq<Mark>, ghost cuts: seq<nat>)
    requires TableOk(store.marks) && c.writes < WRITE_COUNTER_RANGE && |admittances| == |markers|
    modifies store, c
    ensures old(c.log) <= c.log && TableOk(store.marks)
    ensures r.Ok? <==> CanConsumeAll(old(store.marks), now, markers, subject, kind)
    ensures r.Err? ==> c.log == old(c.log) && store.marks == old(store.marks) && r.error == Required
    ensures r.Ok? ==>
              && |taken| == |markers|
              && (forall i | 0 <= i < |markers| ::
                    taken[i].markerId == markers[i] && taken[i].kind == kind && taken[i].subject == subject)
              && Accounted(JobFits, Jobs(taken, admittances), r.value, c.log, cuts, |old(c.log)|, |c.log|)
              && store.marks == Without(old(store.marks), markers)
  {
    MarkersUnique(store.marks);
    ghost var first := store.marks;
    ExecutingKeepsTable(first, markers);
    var consumed := store.ConsumeActionMarks(now, markers, subject, kind);
    if consumed.Err? {
      return Err(consumed.error), [], [];
    }
    taken := consumed.value;
    ConsumedFacts(first, now, markers, subject, kind);
    ghost var begun := store.marks;
    forall i | 0 <= i < |markers|
      ensures taken[i].markerId == markers[i] && taken[i].kind == kind && taken[i].subject == subject
      ensures Holds(begun, taken[i])
    {
      assert TookOne(first, begun, now, markers[i], subject, kind, taken[i]);
    }
    var outcomes;
    outcomes, cuts := RunMarks(c, Jobs(consumed.value, admittances));
    assert HoldsFrom(begun, taken, markers, 0);
    FinishMarks(store, consumed.value, markers);
    assert Without(begun, markers) == Without(first, markers);
    WithoutOk(first, markers);
    r := Ok(outcomes);
  }

  lemma WithoutOk(t: Table, ids: seq<string>)
    requires TableOk(t)
    ensures TableOk(Without(t, ids))
  {
    SubmapSize(Without(t, ids), t);
    forall k, l | k in Without(t, ids) && l in Without(t, ids) && k != l ensures Exclusive(t[k], t[l]) {
    }
  }
}
