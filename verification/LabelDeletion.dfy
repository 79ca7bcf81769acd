// Deleting a set of labels: every label is checked before the first DELETE, a system label aborts the whole
// set, and each DELETE is classified and reconciled (src/broker/handlers/bulk_labels.rs). Within a phase the
// items are run one after another here; whether an item saw the fatal flag is an arbitrary input, so any
// order of the workers' flag reads is covered.
module LabelDeletion {
  import opened Wrappers
  import opened ProviderCalls
  import opened TokenRetry
  import opened WriteOutcomes
  import opened LogParts

  predicate ReadsLabel(e: Exchange, id: string) {
    e.request == GetLabel(id)
  }

  predicate ShowsUserLabel(e: Exchange, id: string) {
    ReadsLabel(e, id) && LabelShown(e.answer, id, UserKind)
  }

  predicate ShowsSystemLabel(e: Exchange, id: string) {
    ReadsLabel(e, id) && LabelShown(e.answer, id, SystemKind)
  }

  ghost predicate UserLabelIn(ex: seq<Exchange>, id: string) {
    exists i | 0 <= i < |ex| :: ShowsUserLabel(ex[i], id)
  }

  ghost predicate SystemLabelIn(ex: seq<Exchange>, id: string) {
    exists i | 0 <= i < |ex| :: ShowsSystemLabel(ex[i], id)
  }

  // What one answer says about the label: its outcome, or the 401 that asks for another attempt.
  function CheckResult(id: string, a: Answer): Result<Outcome, Error> {
    var custom := ReadCustomLabel(a, id);
    if custom.Ok? then Ok(Succeeded)
    else if IsUnauthorized(custom.error) then Err(custom.error)
    else Ok(Failed(custom.error))
  }

  function CheckResults(id: string, ex: seq<Exchange>): seq<Result<Outcome, Error>> {
    seq(|ex|, i requires 0 <= i < |ex| => CheckResult(id, ex[i].answer))
  }

  // One preflight item: nothing when it is stopped, else one read of the label for each attempt.
  ghost predicate PreflightFits(id: string, a: Admittance, outcome: Outcome, ex: seq<Exchange>) {
    if a.stopped then ex == [] && outcome == NotAttempted
    else
      && (forall i | 0 <= i < |ex| :: ReadsLabel(ex[i], id))
      && AttemptsMade(a.tokens, CheckResults(id, ex))
      && outcome == Reported(Final(a.tokens, CheckResults(id, ex)))
  }

  // So success means that a user label was shown, and a system label was shown exactly when it is reported.
  lemma CheckShows(id: string, a: Admittance, outcome: Outcome, ex: seq<Exchange>)
    requires PreflightFits(id, a, outcome, ex)
    ensures forall i | 0 <= i < |ex| :: ReadsLabel(ex[i], id)
    ensures outcome == Succeeded <==> UserLabelIn(ex, id)
    ensures outcome == Failed(SystemLabel) <==> SystemLabelIn(ex, id)
    ensures !outcome.Unknown?
  {
    if ex != [] {
      CustomLabelRead(ex[0].answer, id);
      CustomLabelRead(ex[|ex| - 1].answer, id);
      assert CheckResults(id, ex)[|ex| - 1] == CheckResult(id, ex[|ex| - 1].answer);
      assert CheckResults(id, ex)[0] == CheckResult(id, ex[0].answer);
      assert ShowsUserLabel(ex[|ex| - 1], id) <==> CheckResult(id, ex[|ex| - 1].answer) == Ok(Succeeded);
      assert ShowsSystemLabel(ex[|ex| - 1], id) <==> CheckResult(id, ex[|ex| - 1].answer) == Ok(Failed(SystemLabel));
    }
  }

  method PreflightItem(c: Connection, id: string, a: Admittance) returns (outcome: Outcome)
    modifies c
    ensures c.writes == old(c.writes)
    ensures old(c.log) <= c.log && PreflightFits(id, a, outcome, c.log[|old(c.log)|..])
  {
    if a.stopped || !a.tokens.cached {
      return NotAttempted;
    }
    var answer := c.Send(GetLabel(id));
    ghost var e := Exchange(GetLabel(id), answer);
    assert c.log[|old(c.log)|..] == [e];
    var custom := ReadCustomLabel(answer, id);
    if custom.Ok? {
      return Succeeded;
    }
    if !IsUnauthorized(custom.error) {
      return Failed(custom.error);
    }
    if !a.tokens.refreshed {
      return NotAttempted;
    }
    var again := c.Send(GetLabel(id));
    assert c.log[|old(c.log)|..] == [e, Exchange(GetLabel(id), again)];
    custom := ReadCustomLabel(again, id);
    outcome := if custom.Ok? then Succeeded else Failed(custom.error);
  }

  // One item of the second phase: labels whose check succeeded are deleted; for any other the check's own
  // outcome is reported and nothing is sent.
  ghost predicate DeletedFits(id: string, checked: Outcome, a: Admittance, outcome: Outcome, ex: seq<Exchange>) {
    if checked == Succeeded then ItemFits(RemoveLabel(id), a, outcome, ex)
    else ex == [] && outcome == if a.stopped || !a.tokens.cached then NotAttempted else checked
  }

  method DeleteItem(c: Connection, id: string, checked: Outcome, a: Admittance) returns (outcome: Outcome)
    requires c.writes < WRITE_COUNTER_RANGE
    modifies c
    ensures c.writes < WRITE_COUNTER_RANGE
    ensures old(c.log) <= c.log && DeletedFits(id, checked, a, outcome, c.log[|old(c.log)|..])
  {
    if checked == Succeeded {
      var credentialFailed;
      outcome, credentialFailed := RunItem(c, RemoveLabel(id), a);
    } else if a.stopped || !a.tokens.cached {
      outcome := NotAttempted;
    } else {
      outcome := checked;
    }
  }

  // --- The two phases over one log ----------------------------------------------------------------

  datatype Check = Check(id: string, admitted: Admittance)

  ghost predicate CheckFits(job: Check, outcome: Outcome, ex: seq<Exchange>) {
    PreflightFits(job.id, job.admitted, outcome, ex)
  }

  datatype Removal = Removal(id: string, checked: Outcome, admitted: Admittance)

  ghost predicate RemovalFits(job: Removal, outcome: Outcome, ex: seq<Exchange>) {
    DeletedFits(job.id, job.checked, job.admitted, outcome, ex)
  }

  function Checks(ids: seq<string>, admitted: seq<Admittance>): seq<Check>
    requires |admitted| == |ids|
  {
    seq(|ids|, i requires 0 <= i < |ids| => Check(ids[i], admitted[i]))
  }

  function Removals(ids: seq<string>, checked: seq<Outcome>, admitted: seq<Admittance>): seq<Removal>
    requires |admitted| == |checked| == |ids|
  {
    seq(|ids|, i requires 0 <= i < |ids| => Removal(ids[i], checked[i], admitted[i]))
  }

  method RunPreflights(c: Connection, jobs: seq<Check>) returns (checked: seq<Outcome>, ghost cuts: seq<nat>)
    requires c.writes < WRITE_COUNTER_RANGE
    modifies c
    ensures old(c.log) <= c.log && c.writes < WRITE_COUNTER_RANGE
    ensures Accounted(CheckFits, jobs, checked, c.log, cuts, |old(c.log)|, |c.log|)
  {
    checked, cuts := [], [|c.log|];
    var i := 0;
    while i < |jobs|
      invariant 0 <= i <= |jobs| && old(c.log) <= c.log && c.writes < WRITE_COUNTER_RANGE
      invariant Accounted(CheckFits, jobs[..i], checked, c.log, cuts, |old(c.log)|, |c.log|)
    {
      ghost var before := c.log;
      var outcome := PreflightItem(c, jobs[i].id, jobs[i].admitted);
      OneMoreItem(CheckFits, jobs[..i], checked, before, cuts, |old(c.log)|, jobs[i], outcome, c.log);
      assert jobs[..i] + [jobs[i]] == jobs[..i + 1];
      checked, cuts := checked + [outcome], cuts + [|c.log|];
      i := i + 1;
    }
    assert jobs[..i] == jobs;
  }

  method RunDeletes(c: Connection, jobs: seq<Removal>) returns (outcomes: seq<Outcome>, ghost cuts: seq<nat>)
    requires c.writes < WRITE_COUNTER_RANGE
    modifies c
    ensures old(c.log) <= c.log && c.writes < WRITE_COUNTER_RANGE
    ensures Accounted(RemovalFits, jobs, outcomes, c.log, cuts, |old(c.log)|, |c.log|)
  {
    outcomes, cuts := [], [|c.log|];
    var i := 0;
    while i < |jobs|
      invariant 0 <= i <= |jobs| && old(c.log) <= c.log && c.writes < WRITE_COUNTER_RANGE
      invariant Accounted(RemovalFits, jobs[..i], outcomes, c.log, cuts, |old(c.log)|, |c.log|)
    {
      ghost var before := c.log;
      var outcome := DeleteItem(c, jobs[i].id, jobs[i].checked, jobs[i].admitted);
      OneMoreItem(RemovalFits, jobs[..i], outcomes, before, cuts, |old(c.log)|, jobs[i], outcome, c.log);
      assert jobs[..i] + [jobs[i]] == jobs[..i + 1];
      outcomes, cuts := outcomes + [outcome], cuts + [|c.log|];
      i := i + 1;
    }
    assert jobs[..i] == jobs;
  }

  // --- The whole request --------------------------------------------------------------------------

  ghost predicate SystemLabelSeen(jobs: seq<Check>, log: seq<Exchange>, from: nat, mid: nat)
    requires mid <= |log|
  {
    exists i, k {:trigger ShowsSystemLabel(log[k], jobs[i].id)} | 0 <= i < |jobs| && from <= k < mid ::
      ShowsSystemLabel(log[k], jobs[i].id)
  }

  ghost predicate NoWriteIn(log: seq<Exchange>, from: nat, to: nat)
    requires to <= |log|
  {
    forall k | from <= k < to :: !IsWrite(log[k].request)
  }

  // The write at k deletes a requested label that the preflight saw to be a user label, and that the request
  // just before it saw to be one again.
  ghost predicate DeletesUserLabel(jobs: seq<Check>, log: seq<Exchange>, from: nat, mid: nat, k: nat)
    requires mid <= |log| && k < |log|
  {
    && mid < k && exists i, p {:trigger ShowsUserLabel(log[p], jobs[i].id)} | 0 <= i < |jobs| && from <= p < mid ::
      && ShowsUserLabel(log[p], jobs[i].id)
      && log[k].request == DeleteLabel(jobs[i].id)
      && ShowsUserLabel(log[k - 1], jobs[i].id)
  }

  lemma ChecksDoNotWrite(
    jobs: seq<Check>, checked: seq<Outcome>, log: seq<Exchange>, cuts: seq<nat>, from: nat, mid: nat)
    requires Accounted(CheckFits, jobs, checked, log, cuts, from, mid)
    ensures NoWriteIn(log, from, mid)
  {
    forall k | from <= k < mid ensures !IsWrite(log[k].request) {
      var i, ex, at := ItemOf(CheckFits, jobs, checked, log, cuts, from, mid, k);
      CheckShows(jobs[i].id, jobs[i].admitted, checked[i], ex);
      assert ReadsLabel(ex[at], jobs[i].id);
    }
  }

  // The outcome list shows a system label exactly when some check was answered with one.
  lemma SystemLabelReported(
    jobs: seq<Check>, checked: seq<Outcome>, log: seq<Exchange>, cuts: seq<nat>, from: nat, mid: nat)
    requires Accounted(CheckFits, jobs, checked, log, cuts, from, mid)
    ensures Failed(SystemLabel) in checked <==> SystemLabelSeen(jobs, log, from, mid)
  {
    if Failed(SystemLabel) in checked {
      var i :| 0 <= i < |checked| && checked[i] == Failed(SystemLabel);
      var start, ex := PartOfItem(CheckFits, jobs, checked, log, cuts, from, mid, i);
      CheckShows(jobs[i].id, jobs[i].admitted, checked[i], ex);
      var p :| 0 <= p < |ex| && ShowsSystemLabel(ex[p], jobs[i].id);
      assert ShowsSystemLabel(log[start + p], jobs[i].id);
    }
    if SystemLabelSeen(jobs, log, from, mid) {
      var i, k :| 0 <= i < |jobs| && from <= k < mid && ShowsSystemLabel(log[k], jobs[i].id);
      var j, ex, at := ItemOf(CheckFits, jobs, checked, log, cuts, from, mid, k);
      CheckShows(jobs[j].id, jobs[j].admitted, checked[j], ex);
      assert ReadsLabel(ex[at], jobs[j].id);
      assert ShowsSystemLabel(ex[at], jobs[j].id);
    }
  }

  lemma EveryDeleteIsOfAUserLabel(
    checks: seq<Check>, checked: seq<Outcome>, removals: seq<Removal>, outcomes: seq<Outcome>, log: seq<Exchange>,
    checkCuts: seq<nat>, deleteCuts: seq<nat>, from: nat, mid: nat, to: nat, k: nat)
    requires Accounted(CheckFits, checks, checked, log, checkCuts, from, mid)
    requires Accounted(RemovalFits, removals, outcomes, log, deleteCuts, mid, to)
    requires |removals| == |checks| && forall i | 0 <= i < |checks| ::
                                         removals[i].id == checks[i].id && removals[i].checked == checked[i]
    requires from <= k < to && IsWrite(log[k].request)
    ensures DeletesUserLabel(checks, log, from, mid, k)
  {
    ChecksDoNotWrite(checks, checked, log, checkCuts, from, mid);
    var i, ex, at := ItemOf(RemovalFits, removals, outcomes, log, deleteCuts, mid, to, k);
    var op := RemoveLabel(removals[i].id);
    assert removals[i].checked == Succeeded;
    ItemIsSound(op, removals[i].admitted, outcomes[i], ex);
    assert WriteAt(ex, at);
    assert GuardedAt(op, ex, at);
    CustomLabelRead(ex[at - 1].answer, removals[i].id);
    assert ex[at - 1] == log[k - 1];
    var start, check := PartOfItem(CheckFits, checks, checked, log, checkCuts, from, mid, i);
    CheckShows(checks[i].id, checks[i].admitted, checked[i], check);
    var p :| 0 <= p < |check| && ShowsUserLabel(check[p], checks[i].id);
    assert ShowsUserLabel(log[start + p], checks[i].id);
  }

  // The first phase ends at mid; an abort is decided from its outcomes alone.
  method DeleteLabels(c: Connection, ids: seq<string>, first: seq<Admittance>, second: seq<Admittance>)
    returns (r: Result<seq<Outcome>, Error>, ghost mid: nat, ghost checked: seq<Outcome>,
             ghost checkCuts: seq<nat>, ghost deleteCuts: seq<nat>)
    requires |first| == |second| == |ids| && c.writes < WRITE_COUNTER_RANGE
    modifies c
    ensures old(c.log) <= c.log && |old(c.log)| <= mid <= |c.log|
    // What was sent and reported, item by item and phase by phase.
    ensures Accounted(CheckFits, Checks(ids, first), checked, c.log, checkCuts, |old(c.log)|, mid)
    ensures r.Ok? ==> Accounted(RemovalFits, Removals(ids, checked, second), r.value, c.log, deleteCuts, mid, |c.log|)
    ensures r.Err? ==> r.error == SystemLabel && mid == |c.log|
    // What that means.
    ensures NoWriteIn(c.log, |old(c.log)|, mid)
    ensures r.Err? <==> SystemLabelSeen(Checks(ids, first), c.log, |old(c.log)|, mid)
    ensures forall k: nat | |old(c.log)| <= k < |c.log| && IsWrite(c.log[k].request) ::
              DeletesUserLabel(Checks(ids, first), c.log, |old(c.log)|, mid, k)
  {
    ghost var from := |c.log|;
    var jobs := Checks(ids, first);
    var preflight;
    preflight, checkCuts := RunPreflights(c, jobs);
    mid, checked, deleteCuts := |c.log|, preflight, [];
    ghost var between := c.log;
    ChecksDoNotWrite(jobs, checked, between, checkCuts, from, mid);
    SystemLabelReported(jobs, checked, between, checkCuts, from, mid);
    if Failed(SystemLabel) in preflight {
      return Err(SystemLabel), mid, checked, checkCuts, deleteCuts;
    }
    var removals := Removals(ids, preflight, second);
    var outcomes;
    outcomes, deleteCuts := RunDeletes(c, removals);
    r := Ok(outcomes);
    LaterLog(CheckFits, jobs, checked, between, c.log, checkCuts, from, mid);
    ChecksDoNotWrite(jobs, checked, c.log, checkCuts, from, mid);
    SystemLabelReported(jobs, checked, c.log, checkCuts, from, mid);
    forall k: nat | from <= k < |c.log| && IsWrite(c.log[k].request)
      ensures DeletesUserLabel(jobs, c.log, from, mid, k)
    {
      EveryDeleteIsOfAUserLabel(jobs, checked, removals, outcomes, c.log, checkCuts, deleteCuts, from, mid, |c.log|, k);
    }
  }
}
