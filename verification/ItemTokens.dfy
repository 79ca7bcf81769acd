// Which token each try of a bulk item carries: the item's tries beside its own call in the refresh protocol, which is a
// thread of TokenRuns
// (src/broker/handlers/tokens.rs, src/broker/handlers/bulk.rs).
module ItemTokens {
  import opened Wrappers
  import R = TokenRuns
  import opened TokenRetry
  import W = WriteOutcomes

  // --- What a thread was handed -------------------------------------------------------------------

  predicate Holds(s: R.State, t: nat) {
    t in s.threads && s.threads[t].phase.Holding?
  }

  // The values that a thread has been handed, one for each attempt, in the first n steps of a run.
  function Held(states: seq<R.State>, t: nat, n: nat): seq<string>
    requires n < |states|
  {
    if n == 0 then []
    else if Holds(states[n], t) && !Holds(states[n - 1], t) then
      Held(states, t, n - 1) + [states[n].threads[t].phase.value]
    else Held(states, t, n - 1)
  }

  // Whether the thread came back from an attempt with a 401.
  predicate Rejected(actions: seq<R.Action>, t: nat, n: nat)
    requires n <= |actions|
  {
    exists k | 0 <= k < n :: actions[k] == R.Unauthorized(t)
  }

  ghost predicate BackWith(r: Option<string>, held: seq<string>, rejected: bool) {
    held == (if r.Some? then [r.value] else []) && (rejected <==> r.Some?)
  }

  // What a thread's phase says about both.
  ghost predicate PhaseOk(p: R.Phase, held: seq<string>, rejected: bool) {
    match p
    case Starting => held == [] && !rejected
    case Queued(r) => BackWith(r, held, rejected)
    case Locked(r) => BackWith(r, held, rejected)
    case Compared(r) => BackWith(r, held, rejected)
    case Refreshing(r) => BackWith(r, held, rejected)
    case Minted(r, _) => BackWith(r, held, rejected)
    case Holding(value, _, r) => held == (if r.Some? then [r.value] else []) + [value] && (rejected <==> r.Some?)
    case Ended =>
      && |held| <= 2 && NoRepeats(held)
      && (held == [] ==> !rejected) && (|held| == 2 ==> rejected)
  }

  ghost predicate HeldOk(s: R.State, t: nat, held: seq<string>, rejected: bool) {
    if t !in s.threads then held == [] && !rejected else PhaseOk(s.threads[t].phase, held, rejected)
  }

  // A thread is handed a value: it stands behind the one the thread was rejected on, if any.
  lemma Obtains(r: Option<string>, held: seq<string>, rejected: bool, value: string)
    requires BackWith(r, held, rejected)
    ensures PhaseOk(R.Obtained(value, r), held + [value], rejected)
  {
  }

  lemma GivesUp(r: Option<string>, held: seq<string>, rejected: bool)
    requires BackWith(r, held, rejected)
    ensures PhaseOk(R.Ended, held, rejected)
  {
  }

  // A thread ends with the one value it held, or with two that differ.
  lemma Finishes(value: string, attempt: nat, r: Option<string>, held: seq<string>, rejected: bool)
    requires PhaseOk(R.Holding(value, attempt, r), held, rejected) && r != Some(value)
    ensures PhaseOk(R.Ended, held, rejected)
  {
  }

  lemma OwnStep(s: R.State, a: R.Action, t: nat, held: seq<string>, rejected: bool)
    requires R.Inv(s) && R.Enabled(s, a) && !a.Tick? && !a.Spawn? && a.thread == t
    requires PhaseOk(s.threads[t].phase, held, rejected)
    ensures var z := R.Step(s, a);
            var now := if Holds(z, t) && !Holds(s, t) then held + [z.threads[t].phase.value] else held;
            PhaseOk(z.threads[t].phase, now, rejected || a.Unauthorized?)
  {
    var z := R.Step(s, a);
    assert R.ThreadOk(s, t);
    match a
    case FastRead(_) =>
      if Holds(z, t) { Obtains(None, held, rejected, z.threads[t].phase.value); }
    case Recheck(_) =>
      if Holds(z, t) { Obtains(s.threads[t].phase.rejected, held, rejected, z.threads[t].phase.value); }
    case Store(_) => Obtains(s.threads[t].phase.rejected, held, rejected, z.threads[t].phase.value);
    case RefreshFails(_) => GivesUp(s.threads[t].phase.rejected, held, rejected);
    case End(_) =>
      var p := s.threads[t].phase;
      Finishes(p.value, p.attempt, p.instead, held, rejected);
    case _ =>
  }

  lemma StepKeepsHeld(s: R.State, a: R.Action, t: nat, held: seq<string>, rejected: bool)
    requires R.Inv(s) && R.Enabled(s, a) && HeldOk(s, t, held, rejected)
    ensures var z := R.Step(s, a);
            var now := if Holds(z, t) && !Holds(s, t) then held + [z.threads[t].phase.value] else held;
            HeldOk(z, t, now, rejected || a == R.Unauthorized(t))
  {
    if t in s.threads && !a.Tick? && !a.Spawn? && a.thread == t {
      OwnStep(s, a, t, held, rejected);
    } else if t in s.threads {
      assert R.Step(s, a).threads[t] == s.threads[t];
    }
  }

  lemma {:induction false} RunKeepsHeld(states: seq<R.State>, actions: seq<R.Action>, t: nat, n: nat)
    requires R.IsRun(states, actions) && n < |states|
    ensures HeldOk(states[n], t, Held(states, t, n), Rejected(actions, t, n))
  {
    if n > 0 {
      RunKeepsHeld(states, actions, t, n - 1);
      R.RunInvariant(states, actions, n - 1);
      assert R.Enabled(states[n - 1], actions[n - 1]) && states[n] == R.Step(states[n - 1], actions[n - 1]);
      StepKeepsHeld(states[n - 1], actions[n - 1], t, Held(states, t, n - 1), Rejected(actions, t, n - 1));
      assert Rejected(actions, t, n) <==> Rejected(actions, t, n - 1) || actions[n - 1] == R.Unauthorized(t);
    }
  }

  // --- The item that the thread works on ----------------------------------------------------------

  // An item that was not stopped, made by a thread that was handed these values: it has its tokens from them, and the
  // thread came back with a 401 exactly if the first try ended in one.
  ghost predicate MadeWith(op: W.WriteOp, outcome: W.Outcome, tries: seq<W.Try>, held: seq<string>, rejected: bool) {
    && W.TriesFit(op, W.Admittance(false, Tokens(held != [], |held| == 2)), outcome, tries)
    && (tries != [] ==> (rejected <==> W.Unauthorized(op, tries[0].attempt)))
  }

  // Over every run of the refresh protocol: the tries of an item are as many as the values its thread was handed, the
  // k-th try going with the k-th, and these differ. So what is sent again after a 401 carries another token, an item
  // without a token sends nothing, and one whose refresh failed is not tried again.
  lemma RetryCarriesAnotherToken(
    states: seq<R.State>, actions: seq<R.Action>, t: nat, n: nat, op: W.WriteOp, outcome: W.Outcome,
    tries: seq<W.Try>)
    requires R.IsRun(states, actions) && n < |states| && t in states[n].threads && states[n].threads[t].phase.Ended?
    requires MadeWith(op, outcome, tries, Held(states, t, n), Rejected(actions, t, n))
    ensures var held := Held(states, t, n);
            && |tries| == |held| <= 2 && NoRepeats(held)
            && (|tries| == 2 <==> |held| == 2 && W.Unauthorized(op, tries[0].attempt))
            && (|tries| == 1 && W.Unauthorized(op, tries[0].attempt) ==> outcome == W.NotAttempted)
  {
    RunKeepsHeld(states, actions, t, n);
    var held := Held(states, t, n);
    var tokens := Tokens(held != [], |held| == 2);
    assert tries != [] ==> W.TryResults(op, tries)[0] == W.TryResult(op, tries[0]);
  }

  // Each of these values was, when it was handed over, the newest minted for the thread's subject, and live.
  lemma {:induction false} HeldWereNewest(states: seq<R.State>, actions: seq<R.Action>, t: nat, n: nat, k: nat)
    returns (m: nat)
    requires R.IsRun(states, actions) && n < |states| && k < |Held(states, t, n)|
    ensures 0 < m <= n && t in states[m].threads
    ensures var ms := R.MintsOf(states[m], states[m].threads[t].subject);
            && ms != [] && ms[|ms| - 1].value == Held(states, t, n)[k]
            && ms[|ms| - 1].expiresAt > states[m].clock
  {
    if k < |Held(states, t, n - 1)| {
      m := HeldWereNewest(states, actions, t, n - 1, k);
    } else {
      m := n;
      R.HandedOutIsNewestAndLive(states, actions, n - 1, t);
    }
  }
}
