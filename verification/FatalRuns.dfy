// One bulk request over its workers (run_items_with_failure, src/broker/handlers/bulk.rs): a credential failure
// raises a shared flag, and an item that finds the flag raised is reported without any token or provider call.
// A step is one atomic action of one item; every interleaving of items is a run, whatever the number of workers.
module FatalRuns {
  import opened WriteOutcomes

  // Waiting: the flag has not been read. Failing: a credential failure is known, the flag not yet raised.
  datatype Item = Waiting | Calling | Failing | Done(outcome: Outcome)

  datatype Event =
    | Looked(item: nat, raised: bool)
    | Called(item: nat)
    | CredentialLost(item: nat)
    | Raised(item: nat)
    | Returned(item: nat, outcome: Outcome)

  datatype State = State(fatal: bool, items: seq<Item>, log: seq<Event>)

  ghost predicate Starts(s: State, n: nat) {
    s == State(false, seq(n, _ => Waiting), [])
  }

  // What item i does next: at most one new event, and its new phase.
  ghost predicate Acts(s: State, i: nat, now: Item, fatal: bool, e: Event)
    requires i < |s.items|
  {
    match s.items[i]
    case Waiting =>
      e == Looked(i, s.fatal) && fatal == s.fatal && now == if s.fatal then Done(NotAttempted) else Calling
    case Calling =>
      && fatal == s.fatal
      && (|| (e == Called(i) && now == Calling)
          || (e == CredentialLost(i) && now == Failing)
          || (e.Returned? && e.item == i && now == Done(e.outcome)))
    case Failing => e == Raised(i) && fatal && now == Done(NotAttempted)
    case Done(_) => false
  }

  ghost predicate StepBy(s: State, t: State, i: nat, now: Item, e: Event) {
    i < |s.items| && Acts(s, i, now, t.fatal, e) && t.items == s.items[i := now] && t.log == s.log + [e]
  }

  ghost predicate Step(s: State, t: State) {
    exists i, now, e :: StepBy(s, t, i, now, e)
  }

  ghost predicate IsRun(run: seq<State>, n: nat) {
    && |run| > 0 && Starts(run[0], n)
    && forall k | 0 < k < |run| :: Step(run[k - 1], run[k])
  }

  // --- The invariant ------------------------------------------------------------------------------

  ghost predicate Silent(s: State, i: nat) {
    forall k | 0 <= k < |s.log| :: s.log[k].item != i
  }

  // What the log says about an item in each phase.
  ghost predicate ItemOk(s: State, i: nat)
    requires i < |s.items|
  {
    && (s.items[i].Waiting? ==> Silent(s, i))
    && (Looked(i, true) in s.log ==>
          s.items[i] == Done(NotAttempted) && forall e | e in s.log && e.item == i :: e == Looked(i, true))
    && (s.items[i].Failing? ==> CredentialLost(i) in s.log)
    && (CredentialLost(i) in s.log ==> s.items[i].Failing? || Raised(i) in s.log)
    && (Raised(i) in s.log ==> CredentialLost(i) in s.log && s.items[i] == Done(NotAttempted))
    && (s.items[i].Done? ==>
          || Returned(i, s.items[i].outcome) in s.log
          || (s.items[i].outcome == NotAttempted && (Looked(i, true) in s.log || Raised(i) in s.log)))
  }

  // The flag is up exactly once some item has raised it.
  ghost predicate FlagOk(s: State) {
    && (s.fatal <==> exists k :: 0 <= k < |s.log| && s.log[k].Raised?)
    && forall k | 0 <= k < |s.log| :: s.log[k].item < |s.items|
  }

  // Each look saw whether the flag had been raised before it, and each call follows its item's look at a lowered flag.
  ghost predicate LookOk(log: seq<Event>, q: nat)
    requires q < |log|
  {
    && (log[q].Looked? ==> (log[q].raised <==> exists p :: 0 <= p < q && log[p].Raised?))
    && (log[q].Called? || log[q].CredentialLost? ==> exists p :: 0 <= p < q && log[p] == Looked(log[q].item, false))
  }

  ghost predicate CallerOk(s: State, i: nat)
    requires i < |s.items|
  {
    s.items[i].Calling? ==> exists p :: 0 <= p < |s.log| && s.log[p] == Looked(i, false)
  }

  ghost predicate Inv(s: State) {
    && FlagOk(s)
    && (forall i | 0 <= i < |s.items| :: ItemOk(s, i))
    && (forall i | 0 <= i < |s.items| :: CallerOk(s, i))
    && forall q | 0 <= q < |s.log| :: LookOk(s.log, q)
  }

  lemma StepKeepsItems(s: State, t: State, i: nat, now: Item, e: Event, j: nat)
    requires Inv(s) && StepBy(s, t, i, now, e) && j < |s.items|
    ensures ItemOk(t, j)
  {
    assert ItemOk(s, j) && ItemOk(s, i);
    forall f ensures f in t.log <==> f in s.log || f == e {
    }
    if j == i {
      if s.items[i].Waiting? {
        assert forall f | f in s.log :: f.item != i;
      }
      assert e in t.log;
    } else {
      assert e.item != j;
    }
  }

  lemma StepKeepsCallers(s: State, t: State, i: nat, now: Item, e: Event, j: nat)
    requires Inv(s) && StepBy(s, t, i, now, e) && j < |s.items|
    ensures CallerOk(t, j)
  {
    assert CallerOk(s, j);
    if t.items[j].Calling? {
      if s.items[j].Calling? {
        var p :| 0 <= p < |s.log| && s.log[p] == Looked(j, false);
        assert t.log[p] == s.log[p];
      } else {
        assert t.log[|s.log|] == e;
      }
    }
  }

  lemma StepKeepsLooks(s: State, t: State, i: nat, now: Item, e: Event, q: nat)
    requires Inv(s) && StepBy(s, t, i, now, e) && q < |t.log|
    ensures LookOk(t.log, q)
  {
    forall p | 0 <= p < |s.log| ensures t.log[p] == s.log[p] {
    }
    if q < |s.log| {
      assert LookOk(s.log, q);
      if s.log[q].Called? || s.log[q].CredentialLost? {
        var p :| 0 <= p < q && s.log[p] == Looked(s.log[q].item, false);
        assert t.log[p] == Looked(t.log[q].item, false);
      }
    } else {
      assert CallerOk(s, i);
      if s.items[i].Calling? {
        var p :| 0 <= p < |s.log| && s.log[p] == Looked(i, false);
        assert t.log[p] == Looked(i, false);
      }
    }
  }

  lemma StepKeepsInv(s: State, t: State)
    requires Inv(s) && Step(s, t)
    ensures Inv(t) && |t.items| == |s.items| && s.log <= t.log
  {
    var i, now, e :| StepBy(s, t, i, now, e);
    forall p | 0 <= p < |s.log| ensures t.log[p] == s.log[p] {
    }
    assert t.log[|s.log|] == e;
    assert FlagOk(t);
    forall j | 0 <= j < |t.items| ensures ItemOk(t, j) && CallerOk(t, j) {
      StepKeepsItems(s, t, i, now, e, j);
      StepKeepsCallers(s, t, i, now, e, j);
    }
    forall q | 0 <= q < |t.log| ensures LookOk(t.log, q) {
      StepKeepsLooks(s, t, i, now, e, q);
    }
  }

  lemma {:induction false} RunInvariant(run: seq<State>, n: nat, k: nat)
    requires IsRun(run, n) && k < |run|
    ensures Inv(run[k]) && |run[k].items| == n
  {
    if k > 0 {
      RunInvariant(run, n, k - 1);
      assert Step(run[k - 1], run[k]);
      StepKeepsInv(run[k - 1], run[k]);
    }
  }

  // --- What the flag guarantees -------------------------------------------------------------------

  // An item that looks after the flag was raised sends nothing, before or after, and ends not attempted.
  lemma LateItemSendsNothing(run: seq<State>, n: nat, k: nat, p: nat, q: nat, i: nat)
    requires IsRun(run, n) && k < |run|
    requires var log := run[k].log; p < q < |log| && log[p].Raised? && log[q].Looked? && log[q].item == i
    ensures i < n == |run[k].items| && run[k].items[i] == Done(NotAttempted)
    ensures Called(i) !in run[k].log && CredentialLost(i) !in run[k].log
  {
    RunInvariant(run, n, k);
    var s := run[k];
    assert LookOk(s.log, q) && ItemOk(s, i);
    assert s.log[q] == Looked(i, true);
  }

  // So every call made after the flag was raised belongs to an item that had looked before.
  lemma LateCallsLookedEarlier(run: seq<State>, n: nat, k: nat, p: nat, q: nat)
    requires IsRun(run, n) && k < |run|
    requires var log := run[k].log; p < q < |log| && log[p].Raised? && log[q].Called?
    ensures exists r :: 0 <= r < p && run[k].log[r] == Looked(run[k].log[q].item, false)
  {
    RunInvariant(run, n, k);
    var log := run[k].log;
    assert LookOk(log, q);
    var r :| 0 <= r < q && log[r] == Looked(log[q].item, false);
    assert LookOk(log, r);
  }

  // An item reported not attempted either was told so by its own operation, or some item lost its credential.
  lemma NotAttemptedHasACause(run: seq<State>, n: nat, k: nat, i: nat)
    requires IsRun(run, n) && k < |run| && i < n
    ensures var s := run[k];
            |s.items| == n &&
            (s.items[i] == Done(NotAttempted) ==>
               Returned(i, NotAttempted) in s.log || exists j :: CredentialLost(j) in s.log)
  {
    RunInvariant(run, n, k);
    var s := run[k];
    assert ItemOk(s, i);
    if s.items[i] == Done(NotAttempted) && Looked(i, true) in s.log {
      var q :| 0 <= q < |s.log| && s.log[q] == Looked(i, true);
      assert LookOk(s.log, q);
      var p :| 0 <= p < q && s.log[p].Raised?;
      assert s.log[p] in s.log && ItemOk(s, s.log[p].item);
    }
  }

  // When no credential is lost, every finished item reports what its operation returned; when its own is lost,
  // the item is reported not attempted.
  lemma FinishedItemsReport(run: seq<State>, n: nat, k: nat, i: nat)
    requires IsRun(run, n) && k < |run| && i < n
    ensures var s := run[k];
            && |s.items| == n
            && (s.items[i].Done? && (forall j :: CredentialLost(j) !in s.log) ==>
                  Returned(i, s.items[i].outcome) in s.log)
            && (s.items[i].Done? && CredentialLost(i) in s.log ==> s.items[i].outcome == NotAttempted)
  {
    RunInvariant(run, n, k);
    NotAttemptedHasACause(run, n, k, i);
    assert ItemOk(run[k], i);
  }
}
