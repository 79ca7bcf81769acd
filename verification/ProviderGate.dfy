// The gate in front of the mail provider (src/gmail/concurrency.rs, src/gmail/client/transport.rs): a counter under
// a mutex and a condition variable. Each action below is one critical section of one thread.
module ProviderGate {
  const MAX_REQUESTS: nat := 8

  type Thread = nat

  // active is the counter. A holder has a permit, for its request or for the response it is still reading; a
  // waiter sleeps on the condition variable; a woken thread has left it and has yet to look at the counter.
  datatype Gate = Gate(active: nat, holders: set<Thread>, waiting: set<Thread>, woken: set<Thread>)

  datatype Action =
    | Arrive(t: Thread)          // acquire: look at the counter, take a permit or go to sleep
    | Retry(t: Thread)           // the loop in acquire, after a wakeup
    | Wake(t: Thread)            // a wakeup nobody asked for
    | Release(t: Thread, next: Thread)  // drop: decrement, notify one waiter if there is any

  predicate Involved(g: Gate, t: Thread) {
    t in g.holders || t in g.waiting || t in g.woken
  }

  // A thread asks for one permit at a time: it drops its response before it sends again.
  predicate Enabled(g: Gate, a: Action) {
    match a
    case Arrive(t) => !Involved(g, t)
    case Retry(t) => t in g.woken
    case Wake(t) => t in g.waiting
    case Release(t, next) => t in g.holders && (g.waiting != {} ==> next in g.waiting)
  }

  function Look(g: Gate, t: Thread): Gate {
    if g.active >= MAX_REQUESTS then g.(waiting := g.waiting + {t})
    else g.(active := g.active + 1, holders := g.holders + {t})
  }

  // Natural subtraction stops at zero here; UnderflowFree shows that it never has to.
  function Apply(g: Gate, a: Action): Gate {
    match a
    case Arrive(t) => Look(g, t)
    case Retry(t) => Look(g.(woken := g.woken - {t}), t)
    case Wake(t) => g.(waiting := g.waiting - {t}, woken := g.woken + {t})
    case Release(t, next) =>
      var left := g.(active := if g.active > 0 then g.active - 1 else 0, holders := g.holders - {t});
      if left.waiting == {} then left else left.(waiting := left.waiting - {next}, woken := left.woken + {next})
  }

  ghost predicate Valid(g: Gate) {
    && g.active == |g.holders| <= 8
    && g.holders !! g.waiting && g.holders !! g.woken && g.waiting !! g.woken
    // Eight permits, and no lost wakeup: threads sleep only while permits and pending wakeups together use up the
    // limit.
    && (g.waiting != {} ==> g.active + |g.woken| >= 8)
  }

  function Population(g: Gate): nat {
    |g.holders| + |g.waiting| + |g.woken|
  }

  lemma Added(s: set<Thread>, t: Thread)
    requires t !in s
    ensures |s + {t}| == |s| + 1
  {
  }

  lemma Removed(s: set<Thread>, t: Thread)
    requires t in s
    ensures |s - {t}| == |s| - 1
  {
    Added(s - {t}, t);
    assert s - {t} + {t} == s;
  }

  // A look at the counter by a thread that is neither asleep nor holding a permit.
  lemma LookKeepsValid(g: Gate, t: Thread)
    requires !Involved(g, t) && g.active == |g.holders| <= MAX_REQUESTS
    requires g.holders !! g.waiting && g.holders !! g.woken && g.waiting !! g.woken
    requires g.waiting != {} && g.active < MAX_REQUESTS ==> g.active + |g.woken| + 1 >= MAX_REQUESTS
    ensures Valid(Look(g, t))
    ensures Population(Look(g, t)) == Population(g) + 1
  {
    Added(g.holders, t);
    Added(g.waiting, t);
  }

  lemma RetryKeepsValid(g: Gate, t: Thread)
    requires Valid(g) && Enabled(g, Retry(t))
    ensures var h := Apply(g, Retry(t));
            Valid(h) && Population(h) == Population(g) && |h.woken| < |g.woken|
  {
    Removed(g.woken, t);
    LookKeepsValid(g.(woken := g.woken - {t}), t);
  }

  lemma WakeKeepsValid(g: Gate, t: Thread)
    requires Valid(g) && Enabled(g, Wake(t))
    ensures Valid(Apply(g, Wake(t)))
  {
    Added(g.woken, t);
  }

  lemma ReleaseKeepsValid(g: Gate, t: Thread, next: Thread)
    requires Valid(g) && Enabled(g, Release(t, next))
    ensures var h := Apply(g, Release(t, next));
            Valid(h) && Population(h) < Population(g)
  {
    Removed(g.holders, t);
    if g.waiting != {} {
      Removed(g.waiting, next);
      Added(g.woken, next);
    }
  }

  lemma StepKeepsValid(g: Gate, a: Action)
    requires Valid(g) && Enabled(g, a)
    ensures Valid(Apply(g, a))
  {
    match a
    case Arrive(t) => LookKeepsValid(g, t);
    case Retry(t) => RetryKeepsValid(g, t);
    case Wake(t) => WakeKeepsValid(g, t);
    case Release(t, next) => ReleaseKeepsValid(g, t, next);
  }

  // The decrement happens only while the counter is positive, whatever became of the request itself.
  lemma UnderflowFree(g: Gate, t: Thread, next: Thread)
    requires Valid(g) && Enabled(g, Release(t, next))
    ensures g.active > 0 && Apply(g, Release(t, next)).active == g.active - 1
  {
    assert t in g.holders;
  }

  ghost predicate IsRun(run: seq<Gate>, actions: seq<Action>) {
    && |run| == |actions| + 1
    && run[0] == Gate(0, {}, {}, {})
    && forall k | 0 <= k < |actions| :: Enabled(run[k], actions[k]) && run[k + 1] == Apply(run[k], actions[k])
  }

  // In every reachable state the counter is the number of live permits, at most eight, and no wakeup is lost.
  lemma {:induction false} RunStaysValid(run: seq<Gate>, actions: seq<Action>, k: nat)
    requires IsRun(run, actions) && k < |run|
    ensures Valid(run[k])
  {
    if k > 0 {
      RunStaysValid(run, actions, k - 1);
      StepKeepsValid(run[k - 1], actions[k - 1]);
    }
  }

  // --- Permits over whole runs --------------------------------------------------------------------

  predicate Takes(g: Gate, a: Action, t: Thread) {
    (a == Arrive(t) || a == Retry(t)) && g.active < MAX_REQUESTS
  }

  predicate Drops(a: Action, t: Thread) {
    a.Release? && a.t == t
  }

  ghost function TakenBy(run: seq<Gate>, actions: seq<Action>, k: nat, t: Thread): nat
    requires k <= |actions| && |actions| <= |run|
  {
    if k == 0 then 0 else TakenBy(run, actions, k - 1, t) + if Takes(run[k - 1], actions[k - 1], t) then 1 else 0
  }

  function DroppedBy(actions: seq<Action>, k: nat, t: Thread): nat
    requires k <= |actions|
  {
    if k == 0 then 0 else DroppedBy(actions, k - 1, t) + if Drops(actions[k - 1], t) then 1 else 0
  }

  // Over every run a thread has taken one permit more than it has dropped while it holds one, and otherwise as
  // many: none is lost, dropped twice or taken away by another thread.
  lemma {:induction false} PermitsBalance(run: seq<Gate>, actions: seq<Action>, k: nat, t: Thread)
    requires IsRun(run, actions) && k < |run|
    ensures TakenBy(run, actions, k, t) == DroppedBy(actions, k, t) + if t in run[k].holders then 1 else 0
  {
    if k > 0 {
      PermitsBalance(run, actions, k - 1, t);
      RunStaysValid(run, actions, k - 1);
      PermitMoves(run[k - 1], actions[k - 1], t);
    }
  }

  lemma PermitMoves(g: Gate, a: Action, t: Thread)
    requires Valid(g) && Enabled(g, a)
    ensures Takes(g, a, t) ==> t !in g.holders && t in Apply(g, a).holders
    ensures Drops(a, t) ==> t in g.holders && t !in Apply(g, a).holders
    ensures !Takes(g, a, t) && !Drops(a, t) ==> (t in Apply(g, a).holders <==> t in g.holders)
  {
  }

  // --- The counter in memory ----------------------------------------------------------------------

  // The counter is all the gate stores; who holds, sleeps or was woken is known only to the threads.
  class Semaphore {
    var active: nat
    ghost var holders: set<Thread>
    ghost var waiting: set<Thread>
    ghost var woken: set<Thread>

    ghost function View(): Gate
      reads this
    {
      Gate(active, holders, waiting, woken)
    }

    constructor ()
      ensures View() == Gate(0, {}, {}, {})
    {
      active, holders, waiting, woken := 0, {}, {}, {};
    }

    // One pass of the loop in acquire: false sends the caller to sleep.
    method TryAcquire(t: Thread) returns (taken: bool)
      requires Valid(View()) && (!Involved(View(), t) || t in woken)
      modifies this
      ensures View() == Apply(old(View()), if t in old(woken) then Retry(t) else Arrive(t))
      ensures Valid(View()) && (taken <==> t in holders)
    {
      ghost var before := View();
      ghost var a := if t in woken then Retry(t) else Arrive(t);
      woken := woken - {t};
      taken := active < MAX_REQUESTS;
      if taken {
        active := active + 1;
        holders := holders + {t};
      } else {
        waiting := waiting + {t};
      }
      assert before.woken - {t} == if t in before.woken then before.woken - {t} else before.woken;
      StepKeepsValid(before, a);
    }

    // The permit's destructor; which sleeper is notified is the system's choice.
    method Drop(t: Thread, ghost next: Thread)
      requires Valid(View()) && Enabled(View(), Release(t, next))
      modifies this
      ensures View() == Apply(old(View()), Release(t, next)) && Valid(View())
    {
      ghost var before := View();
      UnderflowFree(before, t, next);
      StepKeepsValid(before, Release(t, next));
      active := active - 1;
      holders := holders - {t};
      if waiting != {} {
        waiting, woken := waiting - {next}, woken + {next};
      }
    }
  }

  // --- Progress -----------------------------------------------------------------------------------

  predicate Pending(g: Gate) {
    g.waiting != {} || g.woken != {}
  }

  // Neither a new arrival nor a wakeup out of nothing.
  predicate Draining(a: Action) {
    a.Retry? || a.Release?
  }

  // While anyone is waiting, some thread that has a permit or was woken can move.
  lemma SomeoneCanMove(g: Gate) returns (a: Action)
    requires Valid(g) && Pending(g)
    ensures Draining(a) && Enabled(g, a)
  {
    if g.woken != {} {
      var t :| t in g.woken;
      a := Retry(t);
    } else {
      assert |g.woken| == 0;
      assert g.holders != {};
      var t :| t in g.holders;
      var next :| next in g.waiting;
      a := Release(t, next);
    }
  }

  // Every draining step lets a thread go, or settles a wakeup with nobody leaving.
  lemma DrainingSettles(g: Gate, a: Action)
    requires Valid(g) && Draining(a) && Enabled(g, a)
    ensures var h := Apply(g, a);
            || Population(h) < Population(g)
            || (Population(h) == Population(g) && |h.woken| < |g.woken|)
  {
    match a
    case Retry(t) => RetryKeepsValid(g, t);
    case Release(t, next) => ReleaseKeepsValid(g, t, next);
  }

  ghost predicate IsDrain(g: Gate, actions: seq<Action>)
    decreases |actions|
  {
    actions != [] ==>
      && Draining(actions[0]) && Enabled(g, actions[0])
      && IsDrain(Apply(g, actions[0]), actions[1..])
  }

  ghost function After(g: Gate, actions: seq<Action>): Gate
    decreases |actions|
  {
    if actions == [] then g else After(Apply(g, actions[0]), actions[1..])
  }

  // Without new arrivals every schedule of the remaining threads is finite ...
  lemma {:induction false} DrainIsBounded(g: Gate, actions: seq<Action>, p: nat)
    requires Valid(g) && IsDrain(g, actions) && Population(g) <= p
    ensures |actions| <= Population(g) * (p + 1) + |g.woken|
    decreases |actions|
  {
    if actions != [] {
      var h := Apply(g, actions[0]);
      StepKeepsValid(g, actions[0]);
      DrainingSettles(g, actions[0]);
      DrainIsBounded(h, actions[1..], p);
      if Population(h) < Population(g) {
        MulStep(Population(h), Population(g), p + 1);
      }
    }
  }

  lemma MulStep(a: nat, b: nat, c: nat)
    requires a < b
    ensures a * c + c <= b * c
  {
    assert (a + 1) * c <= b * c;
  }

  // ... and one that can go no further has served everybody.
  lemma {:induction false} DrainServesEveryone(g: Gate, actions: seq<Action>)
    requires Valid(g) && IsDrain(g, actions)
    requires forall a :: !(Draining(a) && Enabled(After(g, actions), a))
    ensures After(g, actions).waiting == {} && After(g, actions).woken == {}
    decreases |actions|
  {
    if actions == [] {
      if Pending(g) {
        var a := SomeoneCanMove(g);
      }
    } else {
      StepKeepsValid(g, actions[0]);
      DrainServesEveryone(Apply(g, actions[0]), actions[1..]);
    }
  }

  lemma AfterFirst(g: Gate, actions: seq<Action>, k: nat)
    requires k < |actions|
    ensures After(g, actions[..k + 1]) == After(Apply(g, actions[0]), actions[1..][..k])
  {
    assert actions[..k + 1][1..] == actions[1..][..k];
  }

  predicate PendingAt(g: Gate, t: Thread) {
    t in g.waiting || t in g.woken
  }

  lemma PendingUntilHeld(g: Gate, a: Action, t: Thread)
    requires PendingAt(g, t) && Draining(a) && Enabled(g, a)
    ensures PendingAt(Apply(g, a), t) || t in Apply(g, a).holders
  {
  }

  // A thread that was waiting and waits no more has held a permit on the way.
  lemma {:induction false} ServedMeansHeld(g: Gate, actions: seq<Action>, t: Thread) returns (k: nat)
    requires Valid(g) && IsDrain(g, actions) && PendingAt(g, t) && !PendingAt(After(g, actions), t)
    ensures k <= |actions| && t in After(g, actions[..k]).holders
    decreases |actions|
  {
    var h := Apply(g, actions[0]);
    StepKeepsValid(g, actions[0]);
    if t in h.holders {
      k := 1;
      AfterFirst(g, actions, 0);
    } else {
      PendingUntilHeld(g, actions[0], t);
      var later := ServedMeansHeld(h, actions[1..], t);
      k := later + 1;
      AfterFirst(g, actions, later);
    }
  }
}
