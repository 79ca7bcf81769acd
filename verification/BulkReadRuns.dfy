// A bulk read over all its windows (src/broker/handlers/bulk_emails.rs, src/broker/handlers/bulk.rs): the
// credential-failure flag belongs to one call of the executor, and the read makes one such call per window of four
// IDs. Any interleaving within a window is a run; windows follow one another.
module BulkReadRuns {
  import opened Wrappers
  import F = FatalRuns
  import W = WriteOutcomes
  import B = ReadBudget

  // How an item's outcome appears in the response, by position.
  type Rendering = (nat, W.Outcome) -> B.Outcome

  // The response so far, the windows that are over, and the one being read.
  datatype State = State(items: seq<B.Item>, closed: seq<F.State>, open: Option<F.State>)

  function WindowSize(n: nat, w: nat): nat {
    if n <= w * B.WINDOW then 0 else if n - w * B.WINDOW < B.WINDOW then n - w * B.WINDOW else B.WINDOW
  }

  function FreshWindow(size: nat): F.State {
    F.State(false, seq(size, _ => F.Waiting), [])
  }

  predicate Finished(f: F.State) {
    forall i | 0 <= i < |f.items| :: f.items[i].Done?
  }

  function Rendered(render: Rendering, w: nat, f: F.State): seq<B.Outcome>
    requires Finished(f)
  {
    seq(|f.items|, i requires 0 <= i < |f.items| => render(w * B.WINDOW + i, f.items[i].outcome))
  }

  ghost predicate Starts(s: State, n: nat) {
    s == State(B.Placeholders(n), [], if n > 0 then Some(FreshWindow(WindowSize(n, 0))) else None)
  }

  // An item of the open window acts.
  ghost predicate Works(s: State, z: State) {
    && s.open.Some? && z.open.Some? && F.Step(s.open.value, z.open.value)
    && z.items == s.items && z.closed == s.closed
  }

  // The response has room for the window's items.
  predicate HasRoom(s: State) {
    s.open.Some? && |s.closed| * B.WINDOW + |s.open.value.items| <= |s.items|
  }

  // The window's outcomes did not all fit the response.
  ghost predicate Exhausts(s: State, render: Rendering)
    requires HasRoom(s) && Finished(s.open.value)
  {
    B.Overflows(s.items, |s.closed| * B.WINDOW, Rendered(render, |s.closed|, s.open.value))
  }

  // IDs remain behind the open window.
  predicate Remains(s: State) {
    (|s.closed| + 1) * B.WINDOW < |s.items|
  }

  // All items of the window are over: their outcomes are inserted, and the next window is entered if IDs remain and
  // the budget is not exhausted.
  ghost predicate Closes(s: State, z: State, render: Rendering) {
    && HasRoom(s) && Finished(s.open.value)
    && z.items == B.InsertedAll(s.items, |s.closed| * B.WINDOW, Rendered(render, |s.closed|, s.open.value))
    && z.closed == s.closed + [s.open.value]
    && z.open == if Remains(s) && !Exhausts(s, render)
                 then Some(FreshWindow(WindowSize(|s.items|, |s.closed| + 1)))
                 else None
  }

  ghost predicate Step(s: State, z: State, render: Rendering) {
    Works(s, z) || Closes(s, z, render)
  }

  ghost predicate IsRun(run: seq<State>, n: nat, render: Rendering) {
    && |run| > 0 && Starts(run[0], n)
    && forall k | 0 < k < |run| :: Step(run[k - 1], run[k], render)
  }

  // --- The invariant ------------------------------------------------------------------------------

  ghost predicate WindowOk(n: nat, w: nat, f: F.State) {
    F.Inv(f) && |f.items| == WindowSize(n, w) > 0
  }

  ghost predicate ClosedOk(s: State, w: nat) {
    w < |s.closed| && WindowOk(|s.items|, w, s.closed[w]) && Finished(s.closed[w])
  }

  ghost predicate Inv(s: State) {
    && (forall w {:trigger ClosedOk(s, w)} | 0 <= w < |s.closed| :: ClosedOk(s, w))
    && (s.open.Some? ==> WindowOk(|s.items|, |s.closed|, s.open.value) && HasRoom(s))
  }

  lemma FreshIsOk(n: nat, w: nat)
    requires w * B.WINDOW < n
    ensures WindowOk(n, w, FreshWindow(WindowSize(n, w)))
    ensures w * B.WINDOW + |FreshWindow(WindowSize(n, w)).items| <= n
  {
  }

  lemma WorksKeepsInv(s: State, z: State)
    requires Inv(s) && Works(s, z)
    ensures Inv(z) && |z.items| == |s.items|
  {
    F.StepKeepsInv(s.open.value, z.open.value);
    forall w | 0 <= w < |z.closed| ensures ClosedOk(z, w) {
      assert ClosedOk(s, w);
    }
  }

  lemma ClosesKeepsInv(s: State, z: State, render: Rendering)
    requires Inv(s) && Closes(s, z, render)
    ensures Inv(z) && |z.items| == |s.items|
  {
    if z.open.Some? {
      FreshIsOk(|s.items|, |s.closed| + 1);
    }
    forall w | 0 <= w < |z.closed| ensures ClosedOk(z, w) {
      if w < |s.closed| {
        assert ClosedOk(s, w);
      }
    }
  }

  lemma StepKeepsInv(s: State, z: State, render: Rendering)
    requires Inv(s) && Step(s, z, render)
    ensures Inv(z) && |z.items| == |s.items|
  {
    if Works(s, z) {
      WorksKeepsInv(s, z);
    } else {
      ClosesKeepsInv(s, z, render);
    }
  }

  lemma {:induction false} RunInvariant(run: seq<State>, n: nat, render: Rendering, k: nat)
    requires IsRun(run, n, render) && k < |run|
    ensures Inv(run[k]) && |run[k].items| == n
  {
    if k == 0 {
      if n > 0 {
        FreshIsOk(n, 0);
      }
    } else {
      RunInvariant(run, n, render, k - 1);
      assert Step(run[k - 1], run[k], render);
      StepKeepsInv(run[k - 1], run[k], render);
    }
  }

  // The windows entered so far, in order.
  function Windows(s: State): seq<F.State> {
    s.closed + if s.open.Some? then [s.open.value] else []
  }

  // --- Within a window the flag stops further dispatch --------------------------------------------

  // After a raise in window w, no item that looks later in w makes a call, and it is reported not attempted.
  lemma FlagStopsItsWindow(run: seq<State>, n: nat, render: Rendering, k: nat, w: nat, p: nat, q: nat, i: nat)
    requires IsRun(run, n, render) && k < |run| && w < |Windows(run[k])|
    requires var log := Windows(run[k])[w].log; p < q < |log| && log[p].Raised? && log[q].Looked? && log[q].item == i
    ensures var f := Windows(run[k])[w];
            && i < |f.items| && f.items[i] == F.Done(W.NotAttempted)
            && F.Called(i) !in f.log && F.CredentialLost(i) !in f.log
  {
    RunInvariant(run, n, render, k);
    var f := Windows(run[k])[w];
    assert F.Inv(f) by {
      if w < |run[k].closed| { assert ClosedOk(run[k], w); }
    }
    assert F.LookOk(f.log, q) && F.ItemOk(f, i);
    assert f.log[q] == F.Looked(i, true);
  }

  // A request of at most four IDs is one window, so there the flag stops everything that looks after it.
  lemma FourIdsAreOneWindow(run: seq<State>, n: nat, render: Rendering, k: nat)
    requires IsRun(run, n, render) && k < |run| && n <= 4
    ensures |Windows(run[k])| <= 1
  {
    RunInvariant(run, n, render, k);
    if |run[k].closed| > 1 {
      assert ClosedOk(run[k], 1);
      SecondWindow(n, run[k].closed[1]);
    } else if |run[k].closed| == 1 && run[k].open.Some? {
      SecondWindow(n, run[k].open.value);
    }
  }

  lemma SecondWindow(n: nat, f: F.State)
    requires WindowOk(n, 1, f)
    ensures n > B.WINDOW
  {
  }

  // --- Beyond its window it does not --------------------------------------------------------------

  ghost predicate Over(z: State, render: Rendering) {
    forall x :: !Step(z, x, render)
  }

  // Some item of the window that is open in z makes a call two steps later.
  ghost predicate CallFollows(z: State, render: Rendering) {
    exists a, b :: CallIn(z, a, b, render)
  }

  ghost predicate CallIn(z: State, a: State, b: State, render: Rendering) {
    && Step(z, a, render) && Step(a, b, render)
    && b.open.Some? && exists i :: F.Called(i) in b.open.value.log
  }

  // A later window starts with its flag lowered: any item of it may look and call.
  lemma FreshWindowCalls(z: State, render: Rendering)
    requires z.open.Some? && |z.open.value.items| > 0 && z.open.value == FreshWindow(|z.open.value.items|)
    ensures CallFollows(z, render)
  {
    var f := z.open.value;
    var g := F.State(false, f.items[0 := F.Calling], f.log + [F.Looked(0, false)]);
    var h := F.State(false, g.items[0 := F.Calling], g.log + [F.Called(0)]);
    assert F.StepBy(f, g, 0, F.Calling, F.Looked(0, false));
    assert F.StepBy(g, h, 0, F.Calling, F.Called(0));
    var a, b := z.(open := Some(g)), z.(open := Some(h));
    assert Works(z, a) && Works(a, b);
    assert F.Called(0) in h.log;
    assert CallIn(z, a, b, render);
  }

  // When a window is over, whatever happened in it, a call may still follow exactly if IDs remain and its outcomes
  // fitted the budget; otherwise nothing at all follows.
  lemma CallFollowsIff(s: State, z: State, render: Rendering)
    requires Inv(s) && Closes(s, z, render)
    ensures CallFollows(z, render) <==> Remains(s) && !Exhausts(s, render)
    ensures !(Remains(s) && !Exhausts(s, render)) ==> Over(z, render)
  {
    if Remains(s) && !Exhausts(s, render) {
      FreshIsOk(|s.items|, |s.closed| + 1);
      FreshWindowCalls(z, render);
    }
  }

  // So a credential failure in window w stops the request's further dispatch exactly if w is the last window of
  // IDs or the one that exhausts the budget.
  lemma FailureStopsRequestIff(run: seq<State>, n: nat, render: Rendering, k: nat)
    requires IsRun(run, n, render) && k + 1 < |run| && Closes(run[k], run[k + 1], render) && run[k].open.value.fatal
    ensures CallFollows(run[k + 1], render) <==>
            (|run[k].closed| + 1) * B.WINDOW < n && !Exhausts(run[k], render)
    ensures !CallFollows(run[k + 1], render) ==> Over(run[k + 1], render)
  {
    RunInvariant(run, n, render, k);
    CallFollowsIff(run[k], run[k + 1], render);
  }

  // --- A request in which it happens --------------------------------------------------------------

  // The first item of a window of four loses its credential and raises the flag; the others look and stop.
  function Failing(k: nat): F.State
    requires k <= 6
  {
    var lost := F.Done(W.NotAttempted);
    match k
    case 0 => F.State(false, [F.Waiting, F.Waiting, F.Waiting, F.Waiting], [])
    case 1 => F.State(false, [F.Calling, F.Waiting, F.Waiting, F.Waiting], [F.Looked(0, false)])
    case 2 => F.State(false, [F.Failing, F.Waiting, F.Waiting, F.Waiting], Failing(1).log + [F.CredentialLost(0)])
    case 3 => F.State(true, [lost, F.Waiting, F.Waiting, F.Waiting], Failing(2).log + [F.Raised(0)])
    case 4 => F.State(true, [lost, lost, F.Waiting, F.Waiting], Failing(3).log + [F.Looked(1, true)])
    case 5 => F.State(true, [lost, lost, lost, F.Waiting], Failing(4).log + [F.Looked(2, true)])
    case 6 => F.State(true, [lost, lost, lost, lost], Failing(5).log + [F.Looked(3, true)])
  }

  lemma FailingStep(k: nat)
    requires k < 6
    ensures F.Step(Failing(k), Failing(k + 1))
  {
    var lost := F.Done(W.NotAttempted);
    match k
    case 0 => assert F.StepBy(Failing(0), Failing(1), 0, F.Calling, F.Looked(0, false));
    case 1 => assert F.StepBy(Failing(1), Failing(2), 0, F.Failing, F.CredentialLost(0));
    case 2 => assert F.StepBy(Failing(2), Failing(3), 0, lost, F.Raised(0));
    case 3 => assert F.StepBy(Failing(3), Failing(4), 1, lost, F.Looked(1, true));
    case 4 => assert F.StepBy(Failing(4), Failing(5), 2, lost, F.Looked(2, true));
    case 5 => assert F.StepBy(Failing(5), Failing(6), 3, lost, F.Looked(3, true));
  }

  // Outcomes that leave the placeholders as they are.
  function Placeholder(): Rendering {
    (_, _) => B.BudgetOutcome(false)
  }

  function FirstWindow(n: nat, k: nat): State
    requires k <= 6
  {
    State(B.Placeholders(n), [], Some(Failing(k)))
  }

  lemma {:induction false} PlaceholdersStay(n: nat, start: nat, outcomes: seq<B.Outcome>)
    requires n <= B.MAX_READ_IDS && start + |outcomes| <= n
    requires forall i | 0 <= i < |outcomes| :: outcomes[i] == B.BudgetOutcome(false)
    ensures B.InsertedAll(B.Placeholders(n), start, outcomes) == B.Placeholders(n)
    ensures !B.Overflows(B.Placeholders(n), start, outcomes)
    decreases |outcomes|
  {
    if outcomes != [] {
      var last := |outcomes| - 1;
      PlaceholdersStay(n, start, outcomes[..last]);
      B.PlaceholdersFit(n);
      var items := B.Placeholders(n);
      assert items[start + last := items[start + last].(outcome := outcomes[last])] == items;
    }
  }

  function SecondOpened(n: nat): State {
    State(B.Placeholders(n), [Failing(6)], Some(FreshWindow(WindowSize(n, 1))))
  }

  lemma SecondOpens(n: nat)
    requires B.WINDOW < n <= B.MAX_READ_IDS
    ensures Closes(FirstWindow(n, 6), SecondOpened(n), Placeholder())
  {
    PlaceholdersStay(n, 0, Rendered(Placeholder(), 0, Failing(6)));
  }

  lemma FirstOpens(n: nat)
    requires n >= B.WINDOW
    ensures Starts(FirstWindow(n, 0), n)
  {
    assert Failing(0).items == FreshWindow(WindowSize(n, 0)).items;
  }

  // For every number of IDs beyond one window there is such a request: the flag is raised in the first window, and an
  // item of the second calls after it.
  lemma LaterWindowCalls(n: nat) returns (run: seq<State>)
    requires 4 < n <= 20
    ensures Resumes(run, n, Placeholder())
    ensures |run| == 8 && run[7] == SecondOpened(n)
  {
    run := seq(7, k requires 0 <= k < 7 => FirstWindow(n, k)) + [SecondOpened(n)];
    FirstOpens(n);
    forall k | 0 < k < |run| ensures Step(run[k - 1], run[k], Placeholder()) {
      if k < 7 {
        FailingStep(k - 1);
        assert Works(run[k - 1], run[k]);
      } else {
        SecondOpens(n);
      }
    }
    FreshWindowCalls(run[7], Placeholder());
    assert RaisedIn(run[7], 0);
  }

  predicate RaisedIn(s: State, w: nat) {
    w < |s.closed| && s.closed[w].fatal
  }

  // A window that is over has raised its flag.
  ghost predicate HasRaised(s: State) {
    exists w: nat :: RaisedIn(s, w)
  }

  // After the run a call follows all the same.
  ghost predicate Resumes(run: seq<State>, n: nat, render: Rendering) {
    IsRun(run, n, render) && HasRaised(run[|run| - 1]) && CallFollows(run[|run| - 1], render)
  }

  ghost predicate MayResume(n: nat) {
    exists run: seq<State>, render: Rendering :: Resumes(run, n, render)
  }

  lemma OneWindowEnds(run: seq<State>, n: nat, render: Rendering)
    requires n <= B.WINDOW
    ensures !Resumes(run, n, render)
  {
    if IsRun(run, n, render) && HasRaised(run[|run| - 1]) {
      FourIdsAreOneWindow(run, n, render, |run| - 1);
      assert run[|run| - 1].open.None?;
    }
  }

  // What a caller can tell beforehand: a credential failure stops all further dispatch of a read, in every run, if and
  // only if the read names at most four IDs.
  lemma MayResumeIff(n: nat)
    requires n <= 20
    ensures MayResume(n) <==> n > 4
  {
    if n > 4 {
      var run := LaterWindowCalls(n);
      assert Resumes(run, n, Placeholder());
    } else {
      forall run: seq<State>, render: Rendering ensures !Resumes(run, n, render) {
        OneWindowEnds(run, n, render);
      }
    }
  }
}
