// The bounded parallel map (src/gmail/concurrency.rs): up to four workers claim indexes from one shared counter
// and fill one slot per input. One iteration of the loop is one atomic step of one worker, and which worker
// moves is an arbitrary choice, so the loop stands for every interleaving.
module BoundedExecutor {
  import opened Wrappers

  const MAX_WORKERS: nat := 4

  // Between calls, inside a call for one index, or past the end of the inputs.
  datatype Phase = Ready | Running(index: nat) | Finished

  function WorkerCount(inputs: nat): nat {
    if inputs < MAX_WORKERS then inputs else MAX_WORKERS
  }

  function FirstNats(n: nat): (s: set<nat>)
    ensures |s| == n && forall w: nat :: w in s <==> w < n
  {
    if n == 0 then {} else FirstNats(n - 1) + {n - 1}
  }

  function Values<R>(slots: seq<Option<R>>): (values: seq<R>)
    requires forall i | 0 <= i < |slots| :: slots[i].Some?
    ensures |values| == |slots| && forall i | 0 <= i < |slots| :: slots[i] == Some(values[i])
  {
    seq(|slots|, i requires 0 <= i < |slots| && slots[i].Some? => slots[i].value)
  }

  ghost function CallsInProgress(phases: seq<Phase>): set<nat> {
    set w: nat | 0 <= w < |phases| && phases[w].Running?
  }

  // A slot holds what the one call for its index returned when it ended.
  predicate Filled<T, R(==)>(inputs: seq<T>, outcome: (nat, T) -> R, ended: seq<nat>, slots: seq<Option<R>>, i: nat)
    requires i < |slots| == |inputs| == |ended|
  {
    slots[i].Some? ==> slots[i].value == outcome(ended[i], inputs[i])
  }

  // owner[i] is the worker that claimed index i; a claimed index without a result is being worked on.
  predicate Owned<R>(owner: seq<nat>, phases: seq<Phase>, slots: seq<Option<R>>, i: nat) {
    i < |owner| && i < |slots| ==>
      owner[i] < |phases| && (slots[i].None? ==> phases[owner[i]] == Running(i))
  }

  // What a worker's phase says about the claims made so far.
  predicate PhaseOk<R>(owner: seq<nat>, phases: seq<Phase>, slots: seq<Option<R>>, next: nat, w: nat)
    requires w < |phases|
  {
    match phases[w]
    case Ready => true
    case Running(i) => i < |owner| && i < |slots| && owner[i] == w && slots[i].None?
    case Finished => |slots| <= next
  }

  ghost predicate PoolOk<T, R>(
    inputs: seq<T>, outcome: (nat, T) -> R, next: nat, phases: seq<Phase>, slots: seq<Option<R>>,
    owner: seq<nat>, ended: seq<nat>, live: set<nat>)
  {
    && |slots| == |inputs| == |ended|
    && |phases| == WorkerCount(|inputs|)
    && |owner| == (if next < |inputs| then next else |inputs|)
    && (forall w: nat {:trigger w in live} :: w in live <==> w < |phases| && phases[w] != Finished)
    && (forall w {:trigger PhaseOk(owner, phases, slots, next, w)} | 0 <= w < |phases| ::
          PhaseOk(owner, phases, slots, next, w))
    && (forall i {:trigger Owned(owner, phases, slots, i)} | 0 <= i < |owner| :: Owned(owner, phases, slots, i))
    && (forall i {:trigger Filled(inputs, outcome, ended, slots, i)} | 0 <= i < |inputs| ::
          Filled(inputs, outcome, ended, slots, i))
    && (forall i | |owner| <= i < |slots| :: slots[i].None?)
  }

  // --- The three kinds of step keep the pool in order ---------------------------------------------

  lemma PoolStarts<T, R>(
    inputs: seq<T>, outcome: (nat, T) -> R, phases: seq<Phase>, slots: seq<Option<R>>, ended: seq<nat>, live: set<nat>)
    requires |slots| == |inputs| == |ended| && |phases| == WorkerCount(|inputs|)
    requires live == set w: nat | w < |phases| && phases[w] != Finished
    requires forall i | 0 <= i < |slots| :: slots[i].None?
    requires forall w | 0 <= w < |phases| :: phases[w] == Ready
    ensures PoolOk(inputs, outcome, 0, phases, slots, [], ended, live)
  {
  }

  lemma PoolClaims<T, R>(
    inputs: seq<T>, outcome: (nat, T) -> R, next: nat, phases: seq<Phase>, slots: seq<Option<R>>,
    owner: seq<nat>, ended: seq<nat>, live: set<nat>, w: nat)
    requires PoolOk(inputs, outcome, next, phases, slots, owner, ended, live)
    requires next < |inputs| && w < |phases| && phases[w] == Ready
    ensures PoolOk(inputs, outcome, next + 1, phases[w := Running(next)], slots, owner + [w], ended, live)
  {
    var p, o, after := phases[w := Running(next)], owner + [w], next + 1;
    forall v | 0 <= v < |p| ensures PhaseOk(o, p, slots, after, v) {
      assert PhaseOk(owner, phases, slots, next, v);
    }
    forall i | 0 <= i < |o| ensures Owned(o, p, slots, i) {
      assert Owned(owner, phases, slots, i);
    }
    forall v: nat ensures v in live <==> v < |p| && p[v] != Finished {
    }
  }

  lemma PoolRetires<T, R>(
    inputs: seq<T>, outcome: (nat, T) -> R, next: nat, phases: seq<Phase>, slots: seq<Option<R>>,
    owner: seq<nat>, ended: seq<nat>, live: set<nat>, w: nat)
    requires PoolOk(inputs, outcome, next, phases, slots, owner, ended, live)
    requires next >= |inputs| && w < |phases| && phases[w] == Ready
    ensures PoolOk(inputs, outcome, next + 1, phases[w := Finished], slots, owner, ended, live - {w})
  {
    var p, after := phases[w := Finished], next + 1;
    forall v | 0 <= v < |p| ensures PhaseOk(owner, p, slots, after, v) {
      assert PhaseOk(owner, phases, slots, next, v);
    }
    forall i | 0 <= i < |owner| ensures Owned(owner, p, slots, i) {
      assert Owned(owner, phases, slots, i);
    }
    forall v: nat ensures v in live - {w} <==> v < |p| && p[v] != Finished {
    }
  }

  lemma PoolFills<T, R>(
    inputs: seq<T>, outcome: (nat, T) -> R, next: nat, phases: seq<Phase>, slots: seq<Option<R>>,
    owner: seq<nat>, ended: seq<nat>, live: set<nat>, w: nat, step: nat)
    requires PoolOk(inputs, outcome, next, phases, slots, owner, ended, live)
    requires w < |phases| && phases[w].Running? && phases[w].index < |inputs|
    ensures var i := phases[w].index;
            PoolOk(inputs, outcome, next, phases[w := Ready], slots[i := Some(outcome(step, inputs[i]))],
                   owner, ended[i := step], live)
  {
    var index := phases[w].index;
    var p, s, e := phases[w := Ready], slots[index := Some(outcome(step, inputs[index]))], ended[index := step];
    assert PhaseOk(owner, phases, slots, next, w);
    forall v | 0 <= v < |p| ensures PhaseOk(owner, p, s, next, v) {
      assert PhaseOk(owner, phases, slots, next, v);
    }
    forall i | 0 <= i < |owner| ensures Owned(owner, p, s, i) {
      assert Owned(owner, phases, slots, i);
    }
    forall i | 0 <= i < |inputs| ensures Filled(inputs, outcome, e, s, i) {
      assert Filled(inputs, outcome, ended, slots, i);
    }
    forall v: nat ensures v in live <==> v < |p| && p[v] != Finished {
    }
  }

  // At the join no slot is empty: a finished worker saw the counter past the end, so every index was claimed,
  // and a claimed index without a result would have a worker still inside its call.
  lemma AllFilled<T, R>(
    inputs: seq<T>, outcome: (nat, T) -> R, next: nat, phases: seq<Phase>, slots: seq<Option<R>>,
    owner: seq<nat>, ended: seq<nat>, live: set<nat>)
    requires PoolOk(inputs, outcome, next, phases, slots, owner, ended, live) && live == {}
    ensures |owner| == |inputs|
    ensures forall i | 0 <= i < |inputs| :: slots[i] == Some(outcome(ended[i], inputs[i]))
    ensures forall i | 0 <= i < |owner| :: owner[i] < WorkerCount(|inputs|)
  {
    if |inputs| > 0 {
      assert 0 !in live;
      assert PhaseOk(owner, phases, slots, next, 0);
    }
    forall i | 0 <= i < |inputs|
      ensures slots[i] == Some(outcome(ended[i], inputs[i])) && owner[i] < WorkerCount(|inputs|)
    {
      assert Owned(owner, phases, slots, i) && Filled(inputs, outcome, ended, slots, i);
      assert owner[i] !in live;
    }
  }

  // --- Counting calls in progress -----------------------------------------------------------------

  lemma CallsWithin(phases: seq<Phase>)
    ensures |CallsInProgress(phases)| <= |phases|
  {
    SubsetSize(CallsInProgress(phases), FirstNats(|phases|));
  }

  lemma {:induction false} SubsetSize<X>(a: set<X>, b: set<X>)
    requires a <= b
    ensures |a| <= |b|
  {
    if a != {} {
      var x :| x in a;
      SubsetSize(a - {x}, b - {x});
    }
  }

  lemma CallStarts(phases: seq<Phase>, w: nat, index: nat)
    requires w < |phases| && !phases[w].Running?
    ensures |CallsInProgress(phases[w := Running(index)])| == |CallsInProgress(phases)| + 1
  {
    assert CallsInProgress(phases[w := Running(index)]) == CallsInProgress(phases) + {w};
  }

  lemma CallEnds(phases: seq<Phase>, w: nat)
    requires w < |phases| && phases[w].Running?
    ensures |CallsInProgress(phases[w := Ready])| == |CallsInProgress(phases)| - 1
  {
    assert CallsInProgress(phases) == CallsInProgress(phases[w := Ready]) + {w};
  }

  lemma NoCall(phases: seq<Phase>, w: nat)
    requires w < |phases| && !phases[w].Running?
    ensures CallsInProgress(phases[w := Finished]) == CallsInProgress(phases)
  {
  }

  // The calls that have ended, in that order: exactly one for every filled slot.
  ghost predicate CallsOk<R>(calls: seq<nat>, slots: seq<Option<R>>) {
    && (forall i: nat {:trigger i in calls} :: i in calls <==> i < |slots| && slots[i].Some?)
    && forall j, k | 0 <= j < k < |calls| :: calls[j] != calls[k]
  }

  lemma CallsGrow<R>(calls: seq<nat>, slots: seq<Option<R>>, i: nat, r: R)
    requires CallsOk(calls, slots) && i < |slots| && slots[i].None?
    ensures CallsOk(calls + [i], slots[i := Some(r)])
  {
    assert i !in calls;
    forall j: nat ensures j in calls + [i] <==> j < |slots| && slots[i := Some(r)][j].Some? {
      assert j in calls + [i] <==> j in calls || j == i;
    }
  }

  class Pool<T, R> {
    const inputs: seq<T>
    const outcome: (nat, T) -> R
    const slots: array<Option<R>>
    var next: nat
    var phases: seq<Phase>
    var step: nat
    ghost var owner: seq<nat>
    ghost var ended: seq<nat>
    ghost var calls: seq<nat>

    function Live(): set<nat>
      reads this
    {
      set w: nat | w < |phases| && phases[w] != Finished
    }

    ghost predicate Valid()
      reads this, slots
    {
      && slots.Length == |inputs|
      && PoolOk(inputs, outcome, next, phases, slots[..], owner, ended, Live())
      && CallsOk(calls, slots[..])
    }

    ghost function Measure(): nat
      reads this
      requires |owner| <= |inputs|
    {
      3 * |Live()| + 2 * (|inputs| - |owner|) + |CallsInProgress(phases)|
    }

    constructor (inputs: seq<T>, outcome: (nat, T) -> R)
      ensures this.inputs == inputs && this.outcome == outcome && Valid() && fresh(slots)
    {
      this.inputs, this.outcome := inputs, outcome;
      slots := new Option<R>[|inputs|](_ => None);
      next, step := 0, 0;
      phases := seq(WorkerCount(|inputs|), _ => Ready);
      owner, calls, ended := [], [], seq(|inputs|, _ => 0);
      new;
      PoolStarts(inputs, outcome, phases, slots[..], ended, Live());
    }

    // A worker between calls takes the next index, or finds that there is none left.
    method Claim(w: nat)
      requires Valid() && w < |phases| && phases[w] == Ready
      modifies this
      ensures Valid() && Measure() < old(Measure())
      ensures if old(next) < |inputs|
              then phases == old(phases)[w := Running(old(next))] && owner == old(owner) + [w]
              else phases == old(phases)[w := Finished] && owner == old(owner)
      ensures next == old(next) + 1 && step == old(step) && calls == old(calls) && ended == old(ended)
    {
      ghost var before := Live();
      var index := next;
      if index < |inputs| {
        CallStarts(phases, w, index);
        PoolClaims(inputs, outcome, index, phases, slots[..], owner, ended, before, w);
        phases := phases[w := Running(index)];
        owner := owner + [w];
        assert Live() == before;
      } else {
        NoCall(phases, w);
        PoolRetires(inputs, outcome, index, phases, slots[..], owner, ended, before, w);
        phases := phases[w := Finished];
        assert w in before && Live() == before - {w};
      }
      next := index + 1;
    }

    // A call returns, and its worker writes the result into the slot of its index.
    method Finish(w: nat)
      requires Valid() && w < |phases| && phases[w].Running?
      modifies this, slots
      ensures Valid() && Measure() < old(Measure())
      ensures var i := old(phases[w].index);
              && i < |inputs| && old(slots[..])[i].None?
              && slots[..] == old(slots[..])[i := Some(outcome(old(step), inputs[i]))]
              && calls == old(calls) + [i] && ended == old(ended)[i := old(step)]
      ensures phases == old(phases)[w := Ready] && owner == old(owner)
      ensures next == old(next) && step == old(step) + 1
    {
      ghost var before := Live();
      var index := phases[w].index;
      assert PhaseOk(owner, phases, slots[..], next, w);
      var result := outcome(step, inputs[index]);
      CallEnds(phases, w);
      PoolFills(inputs, outcome, next, phases, slots[..], owner, ended, before, w, step);
      CallsGrow(calls, slots[..], index, result);
      ghost var filled := slots[..][index := Some(result)];
      slots[index] := Some(result);
      assert slots[..] == filled;
      calls, ended := calls + [index], ended[index := step];
      phases := phases[w := Ready];
      step := step + 1;
      assert Live() == before;
    }
  }

  // There are four workers, or one per input if that is fewer; so at most that many calls are ever in progress.
  lemma AtMostFourCalls<T, R>(pool: Pool<T, R>)
    requires pool.Valid()
    ensures |pool.phases| == if |pool.inputs| < 4 then |pool.inputs| else 4
    ensures |CallsInProgress(pool.phases)| <= 4 && |CallsInProgress(pool.phases)| <= |pool.inputs|
  {
    CallsWithin(pool.phases);
  }

  // r is what the operation gives for x at some step.
  ghost predicate Returned<T, R>(outcome: (nat, T) -> R, x: T, r: R) {
    exists t: nat :: outcome(t, x) == r
  }

  lemma ReturnedAt<T, R>(outcome: (nat, T) -> R, x: T, t: nat)
    ensures Returned(outcome, x, outcome(t, x))
  {
  }

  method BoundedMap<T, R>(inputs: seq<T>, outcome: (nat, T) -> R)
    returns (results: seq<R>, ghost calls: seq<nat>, ghost ended: seq<nat>)
    // Output order is input order, and every result is what the one call for that input returned when it ended.
    ensures |results| == |inputs| && forall i | 0 <= i < |inputs| :: Returned(outcome, inputs[i], results[i])
    ensures |ended| == |inputs|
    ensures forall i | 0 <= i < |inputs| :: results[i] == outcome(ended[i], inputs[i])
    // There was exactly one call for every input.
    ensures forall i: nat :: i in calls <==> i < |inputs|
    ensures forall j, k | 0 <= j < k < |calls| :: calls[j] != calls[k]
  {
    var pool := new Pool(inputs, outcome);
    while pool.Live() != {}
      invariant pool.Valid() && fresh(pool) && fresh(pool.slots)
      decreases pool.Measure()
    {
      var w :| w in pool.Live();
      if pool.phases[w] == Ready {
        pool.Claim(w);
      } else {
        pool.Finish(w);
      }
    }
    AllFilled(inputs, outcome, pool.next, pool.phases, pool.slots[..], pool.owner, pool.ended, pool.Live());
    results, calls, ended := Values(pool.slots[..]), pool.calls, pool.ended;
    forall i | 0 <= i < |inputs| ensures Returned(outcome, inputs[i], results[i]) {
      ReturnedAt(outcome, inputs[i], ended[i]);
    }
  }
}
