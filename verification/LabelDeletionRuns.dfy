// Deleting a set of labels under every interleaving of its workers: in each phase the items' exchanges mix freely,
// and the second phase begins when the first is over and showed no system label (src/broker/handlers/bulk_labels.rs).
module LabelDeletionRuns {
  import opened Wrappers
  import opened ProviderCalls
  import opened WriteOutcomes
  import opened LabelDeletion
  import K = Workers

  // The labels, and what each item of each phase meets.
  datatype Input = Input(ids: seq<string>, first: seq<Admittance>, second: seq<Admittance>)

  datatype State = State(checks: K.State<Outcome>, deletes: Option<K.State<Outcome>>)

  predicate Valid(q: Input) {
    |q.first| == |q.second| == |q.ids|
  }

  // The checks have been joined, and none reported a system label.
  predicate MayDelete(c: K.State<Outcome>) {
    K.Over(c) && Failed(SystemLabel) !in K.Values(c)
  }

  function Deletions(q: Input, c: K.State<Outcome>): seq<Removal>
    requires Valid(q) && K.Over(c) && |c.results| == |q.ids|
  {
    Removals(q.ids, K.Values(c), q.second)
  }

  ghost predicate Step(q: Input, s: State, z: State)
    requires Valid(q)
  {
    match s.deletes
    case None =>
      || (z.deletes.None? && K.Step(CheckFits, Checks(q.ids, q.first), s.checks, z.checks))
      || (MayDelete(s.checks) && z == State(s.checks, Some(K.Fresh(|q.ids|))))
    case Some(d) =>
      && MayDelete(s.checks) && |s.checks.results| == |q.ids|
      && z.checks == s.checks && z.deletes.Some?
      && K.Step(RemovalFits, Deletions(q, s.checks), d, z.deletes.value)
  }

  ghost predicate IsRun(q: Input, run: seq<State>)
    requires Valid(q)
  {
    && |run| > 0 && run[0] == State(K.Fresh(|q.ids|), None)
    && forall k | 0 < k < |run| :: Step(q, run[k - 1], run[k])
  }

  ghost predicate Inv(q: Input, s: State)
    requires Valid(q)
  {
    && K.Inv(CheckFits, Checks(q.ids, q.first), s.checks)
    && (s.deletes.Some? ==>
          && MayDelete(s.checks) && |s.checks.results| == |q.ids|
          && K.Inv(RemovalFits, Deletions(q, s.checks), s.deletes.value))
  }

  lemma StepKeepsInv(q: Input, s: State, z: State)
    requires Valid(q) && Inv(q, s) && Step(q, s, z)
    ensures Inv(q, z)
  {
    if s.deletes.Some? {
      K.StepKeepsInv(RemovalFits, Deletions(q, s.checks), s.deletes.value, z.deletes.value);
    } else if z.deletes.None? {
      K.StepKeepsInv(CheckFits, Checks(q.ids, q.first), s.checks, z.checks);
    } else {
      K.FreshInv(RemovalFits, Deletions(q, s.checks));
    }
  }

  lemma {:induction false} RunInvariant(q: Input, run: seq<State>, k: nat)
    requires Valid(q) && IsRun(q, run) && k < |run|
    ensures Inv(q, run[k])
  {
    if k == 0 {
      K.FreshInv(CheckFits, Checks(q.ids, q.first));
    } else {
      RunInvariant(q, run, k - 1);
      assert Step(q, run[k - 1], run[k]);
      StepKeepsInv(q, run[k - 1], run[k]);
    }
  }

  // --- The checks ---------------------------------------------------------------------------------

  // The entry at p is item i's, and what it shows.
  predicate ShowsUserAt(ids: seq<string>, log: seq<K.Entry>, p: nat) {
    p < |log| && log[p].owner < |ids| && ShowsUserLabel(log[p].exchange, ids[log[p].owner])
  }

  predicate ShowsSystemAt(ids: seq<string>, log: seq<K.Entry>, p: nat) {
    p < |log| && log[p].owner < |ids| && ShowsSystemLabel(log[p].exchange, ids[log[p].owner])
  }

  // Every exchange of the first phase reads the label of its own item.
  lemma ChecksOnlyRead(q: Input, s: State, p: nat)
    requires Valid(q) && Inv(q, s) && p < |s.checks.log|
    ensures var e := s.checks.log[p]; e.owner < |q.ids| && ReadsLabel(e.exchange, q.ids[e.owner])
  {
    var jobs := Checks(q.ids, q.first);
    var i := s.checks.log[p].owner;
    K.OwnAt(s.checks.log, p);
    var outcome, whole := K.WholeOf(CheckFits, jobs, s.checks, i);
    CheckShows(q.ids[i], q.first[i], outcome, whole);
    var at := |K.Own(s.checks.log[..p], i)|;
    assert whole[at] == s.checks.log[p].exchange;
  }

  // What a finished check's outcome says about its own exchanges.
  lemma CheckReports(q: Input, s: State, i: nat)
    requires Valid(q) && Inv(q, s) && i < |q.ids| && s.checks.results[i].Some?
    ensures var own, outcome := K.Own(s.checks.log, i), s.checks.results[i].value;
            && (outcome == Succeeded <==> UserLabelIn(own, q.ids[i]))
            && (outcome == Failed(SystemLabel) <==> SystemLabelIn(own, q.ids[i]))
  {
    assert K.ItemOk(CheckFits, Checks(q.ids, q.first), s.checks, i);
    CheckShows(q.ids[i], q.first[i], s.checks.results[i].value, K.Own(s.checks.log, i));
  }

  lemma RefusalShown(q: Input, s: State) returns (p: nat)
    requires Valid(q) && Inv(q, s) && K.Over(s.checks) && !MayDelete(s.checks)
    ensures ShowsSystemAt(q.ids, s.checks.log, p)
  {
    var i :| 0 <= i < |q.ids| && K.Values(s.checks)[i] == Failed(SystemLabel);
    CheckReports(q, s, i);
    var own := K.Own(s.checks.log, i);
    var at :| 0 <= at < |own| && ShowsSystemLabel(own[at], q.ids[i]);
    p := K.EntryOf(s.checks.log, i, at);
  }

  lemma ShownRefuses(q: Input, s: State, p: nat)
    requires Valid(q) && Inv(q, s) && K.Over(s.checks) && ShowsSystemAt(q.ids, s.checks.log, p)
    ensures !MayDelete(s.checks)
  {
    var i := s.checks.log[p].owner;
    K.OwnAt(s.checks.log, p);
    var own, at := K.Own(s.checks.log, i), |K.Own(s.checks.log[..p], i)|;
    assert ShowsSystemLabel(own[at], q.ids[i]);
    CheckReports(q, s, i);
    assert K.Values(s.checks)[i] == Failed(SystemLabel);
  }

  // Once the checks are over, the set is refused exactly if some answer, to whichever worker, showed a system label.
  lemma RefusedIffSystemLabel(q: Input, run: seq<State>, k: nat)
    requires Valid(q) && IsRun(q, run) && k < |run| && K.Over(run[k].checks)
    ensures !MayDelete(run[k].checks) <==> exists p: nat :: ShowsSystemAt(q.ids, run[k].checks.log, p)
  {
    RunInvariant(q, run, k);
    if !MayDelete(run[k].checks) {
      var p := RefusalShown(q, run[k]);
    }
    if p: nat :| ShowsSystemAt(q.ids, run[k].checks.log, p) {
      ShownRefuses(q, run[k], p);
    }
  }

  // --- The deletions ------------------------------------------------------------------------------

  // Nothing is written before every check is over, and then nothing at all if a check showed a system label.
  lemma NoDeleteBeforeChecks(q: Input, run: seq<State>, k: nat)
    requires Valid(q) && IsRun(q, run) && k < |run|
    ensures forall p | 0 <= p < |run[k].checks.log| :: !IsWrite(run[k].checks.log[p].exchange.request)
    ensures run[k].deletes.Some? ==>
              K.Over(run[k].checks) && forall p: nat :: !ShowsSystemAt(q.ids, run[k].checks.log, p)
  {
    RunInvariant(q, run, k);
    forall p | 0 <= p < |run[k].checks.log| ensures !IsWrite(run[k].checks.log[p].exchange.request) {
      ChecksOnlyRead(q, run[k], p);
    }
    if run[k].deletes.Some? {
      RefusedIffSystemLabel(q, run, k);
    }
  }

  // A write of the second phase, at any moment of any run: it deletes its own item's label, the item's check had
  // shown a user label, and so did the item's own exchange before the write.
  lemma EveryDeleteIsGuarded(q: Input, run: seq<State>, k: nat, p: nat) returns (check: nat, recheck: nat)
    requires Valid(q) && IsRun(q, run) && k < |run| && run[k].deletes.Some?
    requires p < |run[k].deletes.value.log| && IsWrite(run[k].deletes.value.log[p].exchange.request)
    ensures var checks, log := run[k].checks.log, run[k].deletes.value.log;
            var i := log[p].owner;
            && i < |q.ids| && log[p].exchange.request == DeleteLabel(q.ids[i])
            && ShowsUserAt(q.ids, checks, check) && checks[check].owner == i
            && K.IsPrevious(log, recheck, p, i) && ShowsUserAt(q.ids, log, recheck)
  {
    RunInvariant(q, run, k);
    var s, jobs := run[k], Deletions(q, run[k].checks);
    var log := s.deletes.value.log;
    var i := log[p].owner;
    K.OwnAt(log, p);
    var at := |K.Own(log[..p], i)|;
    var outcome, whole := K.WholeOf(RemovalFits, jobs, s.deletes.value, i);
    assert whole[at] == log[p].exchange;
    RemovalGuarded(jobs[i], outcome, whole, at);
    recheck := K.Previous(log, p, i);
    assert whole[at - 1] == log[recheck].exchange;
    CheckReports(q, s, i);
    var own := K.Own(s.checks.log, i);
    var c :| 0 <= c < |own| && ShowsUserLabel(own[c], q.ids[i]);
    check := K.EntryOf(s.checks.log, i, c);
  }

  lemma RemovalGuarded(job: Removal, outcome: Outcome, ex: seq<Exchange>, at: nat)
    requires RemovalFits(job, outcome, ex) && at < |ex| && IsWrite(ex[at].request)
    ensures job.checked == Succeeded && ex[at].request == DeleteLabel(job.id)
    ensures at > 0 && ShowsUserLabel(ex[at - 1], job.id)
  {
    var op := RemoveLabel(job.id);
    ItemIsSound(op, job.admitted, outcome, ex);
    assert WriteAt(ex, at);
    assert GuardedAt(op, ex, at);
    CustomLabelRead(ex[at - 1].answer, job.id);
  }

  // A deletion that is over reports soundly on its own exchanges; a label that failed its check is left alone.
  lemma DeletionReports(q: Input, run: seq<State>, k: nat, i: nat)
    requires Valid(q) && IsRun(q, run) && k < |run| && run[k].deletes.Some? && i < |q.ids|
    ensures |run[k].deletes.value.results| == |run[k].checks.results| == |q.ids|
    ensures var d := run[k].deletes.value;
            d.results[i].Some? ==>
              if run[k].checks.results[i] == Some(Succeeded) then
                ItemSound(RemoveLabel(q.ids[i]), d.results[i].value, K.Own(d.log, i))
              else K.Own(d.log, i) == []
  {
    RunInvariant(q, run, k);
    var s, jobs := run[k], Deletions(q, run[k].checks);
    var d := s.deletes.value;
    assert K.ItemOk(RemovalFits, jobs, d, i);
    if d.results[i].Some? && s.checks.results[i] == Some(Succeeded) {
      ItemIsSound(RemoveLabel(q.ids[i]), q.second[i], d.results[i].value, K.Own(d.log, i));
    }
  }
}
