// The items of one phase of a bulk request while its workers run (run_items in src/broker/handlers/bulk.rs over
// bounded_map in src/gmail/concurrency.rs): the exchanges of all items in one log, in any interleaving. What an item
// exchanges is given by the contract of its code, fits(job, result, exchanges).
module Workers {
  import opened Wrappers
  import opened ProviderCalls

  datatype Entry = Entry(owner: nat, exchange: Exchange)

  // results[i] is None until item i is over.
  datatype State<R> = State(results: seq<Option<R>>, log: seq<Entry>)

  // The exchanges of item i, in order.
  function Own(log: seq<Entry>, i: nat): seq<Exchange> {
    if log == [] then []
    else
      var n := |log| - 1;
      Own(log[..n], i) + if log[n].owner == i then [log[n].exchange] else []
  }

  // What an item that is not over may have exchanged so far: the beginning of what its code can exchange.
  ghost predicate Partial<J, R(!new)>(fits: (J, R, seq<Exchange>) -> bool, job: J, ex: seq<Exchange>) {
    ex == [] || exists r, rest :: fits(job, r, ex + rest)
  }

  function Fresh<R>(n: nat): State<R> {
    State(seq(n, _ => None), [])
  }

  // Every item is over.
  predicate Over<R>(s: State<R>) {
    forall i | 0 <= i < |s.results| :: s.results[i].Some?
  }

  function Values<R>(s: State<R>): (values: seq<R>)
    requires Over(s)
    ensures |values| == |s.results|
  {
    seq(|s.results|, i requires 0 <= i < |s.results| => s.results[i].value)
  }

  ghost predicate Exchanges<J, R(!new)>(
    fits: (J, R, seq<Exchange>) -> bool, jobs: seq<J>, s: State<R>, z: State<R>, i: nat, e: Exchange)
  {
    && i < |jobs| == |s.results| && s.results[i].None?
    && z == State(s.results, s.log + [Entry(i, e)])
    && Partial(fits, jobs[i], Own(s.log, i) + [e])
  }

  ghost predicate Ends<J, R(!new)>(
    fits: (J, R, seq<Exchange>) -> bool, jobs: seq<J>, s: State<R>, z: State<R>, i: nat, r: R)
  {
    && i < |jobs| == |s.results| && s.results[i].None?
    && z == State(s.results[i := Some(r)], s.log)
    && fits(jobs[i], r, Own(s.log, i))
  }

  ghost predicate Step<J, R(!new)>(fits: (J, R, seq<Exchange>) -> bool, jobs: seq<J>, s: State<R>, z: State<R>) {
    || (exists i, e :: Exchanges(fits, jobs, s, z, i, e))
    || (exists i, r :: Ends(fits, jobs, s, z, i, r))
  }

  ghost predicate ItemOk<J, R(!new)>(fits: (J, R, seq<Exchange>) -> bool, jobs: seq<J>, s: State<R>, i: nat) {
    && i < |jobs| && i < |s.results|
    && match s.results[i]
       case Some(r) => fits(jobs[i], r, Own(s.log, i))
       case None => Partial(fits, jobs[i], Own(s.log, i))
  }

  ghost predicate Inv<J, R(!new)>(fits: (J, R, seq<Exchange>) -> bool, jobs: seq<J>, s: State<R>) {
    && |s.results| == |jobs|
    && (forall i {:trigger ItemOk(fits, jobs, s, i)} | 0 <= i < |jobs| :: ItemOk(fits, jobs, s, i))
    && (forall k | 0 <= k < |s.log| :: s.log[k].owner < |jobs|)
  }

  lemma OwnAppend(log: seq<Entry>, e: Entry, i: nat)
    ensures Own(log + [e], i) == Own(log, i) + if e.owner == i then [e.exchange] else []
  {
    assert (log + [e])[..|log|] == log;
  }

  lemma FreshInv<J, R(!new)>(fits: (J, R, seq<Exchange>) -> bool, jobs: seq<J>)
    ensures Inv(fits, jobs, Fresh(|jobs|))
  {
    forall i | 0 <= i < |jobs| ensures ItemOk(fits, jobs, Fresh(|jobs|), i) {
    }
  }

  lemma ExchangesKeepsInv<J, R(!new)>(
    fits: (J, R, seq<Exchange>) -> bool, jobs: seq<J>, s: State<R>, z: State<R>, i: nat, e: Exchange)
    requires Inv(fits, jobs, s) && Exchanges(fits, jobs, s, z, i, e)
    ensures Inv(fits, jobs, z)
  {
    forall j | 0 <= j < |jobs| ensures ItemOk(fits, jobs, z, j) {
      assert ItemOk(fits, jobs, s, j);
      OwnAppend(s.log, Entry(i, e), j);
      assert j != i ==> Own(s.log, j) + [] == Own(s.log, j);
    }
  }

  lemma EndsKeepsInv<J, R(!new)>(
    fits: (J, R, seq<Exchange>) -> bool, jobs: seq<J>, s: State<R>, z: State<R>, i: nat, r: R)
    requires Inv(fits, jobs, s) && Ends(fits, jobs, s, z, i, r)
    ensures Inv(fits, jobs, z)
  {
    forall j | 0 <= j < |jobs| ensures ItemOk(fits, jobs, z, j) {
      assert ItemOk(fits, jobs, s, j);
    }
  }

  // Results stay, and the log only grows.
  lemma StepKeepsInv<J, R(!new)>(fits: (J, R, seq<Exchange>) -> bool, jobs: seq<J>, s: State<R>, z: State<R>)
    requires Inv(fits, jobs, s) && Step(fits, jobs, s, z)
    ensures Inv(fits, jobs, z) && s.log <= z.log
    ensures forall i | 0 <= i < |jobs| && s.results[i].Some? :: z.results[i] == s.results[i]
  {
    if i, e :| Exchanges(fits, jobs, s, z, i, e) {
      ExchangesKeepsInv(fits, jobs, s, z, i, e);
    } else {
      var i, r :| Ends(fits, jobs, s, z, i, r);
      EndsKeepsInv(fits, jobs, s, z, i, r);
    }
  }

  ghost predicate IsRun<J, R(!new)>(fits: (J, R, seq<Exchange>) -> bool, jobs: seq<J>, run: seq<State<R>>) {
    && |run| > 0 && run[0] == Fresh(|jobs|)
    && forall k | 0 < k < |run| :: Step(fits, jobs, run[k - 1], run[k])
  }

  lemma {:induction false} RunInvariant<J, R(!new)>(
    fits: (J, R, seq<Exchange>) -> bool, jobs: seq<J>, run: seq<State<R>>, k: nat)
    requires IsRun(fits, jobs, run) && k < |run|
    ensures Inv(fits, jobs, run[k])
  {
    if k == 0 {
      FreshInv(fits, jobs);
    } else {
      RunInvariant(fits, jobs, run, k - 1);
      StepKeepsInv(fits, jobs, run[k - 1], run[k]);
    }
  }

  // --- Single exchanges ---------------------------------------------------------------------------

  // Whatever item i has exchanged is the beginning of something its code can exchange.
  lemma WholeOf<J, R(!new)>(fits: (J, R, seq<Exchange>) -> bool, jobs: seq<J>, s: State<R>, i: nat)
    returns (r: R, whole: seq<Exchange>)
    requires Inv(fits, jobs, s) && i < |jobs| && Own(s.log, i) != []
    ensures fits(jobs[i], r, whole) && Own(s.log, i) <= whole
    ensures s.results[i].Some? ==> r == s.results[i].value && whole == Own(s.log, i)
  {
    assert ItemOk(fits, jobs, s, i);
    if s.results[i].Some? {
      r, whole := s.results[i].value, Own(s.log, i);
    } else {
      var q, rest :| fits(jobs[i], q, Own(s.log, i) + rest);
      r, whole := q, Own(s.log, i) + rest;
    }
  }

  // The exchange at k stands behind all that its item exchanged before k.
  lemma {:induction false} OwnAt(log: seq<Entry>, k: nat)
    requires k < |log|
    ensures var own, before := Own(log, log[k].owner), Own(log[..k], log[k].owner);
            before <= own && |before| < |own| && own[|before|] == log[k].exchange
    decreases |log|
  {
    var n := |log| - 1;
    if k < n {
      OwnAt(log[..n], k);
      assert log[..n][..k] == log[..k];
    }
  }

  // Every exchange of an item is some entry of the log.
  lemma {:induction false} EntryOf(log: seq<Entry>, i: nat, p: nat) returns (k: nat)
    requires p < |Own(log, i)|
    ensures k < |log| && log[k] == Entry(i, Own(log, i)[p]) && p == |Own(log[..k], i)|
    decreases |log|
  {
    var n := |log| - 1;
    if p < |Own(log[..n], i)| {
      k := EntryOf(log[..n], i, p);
      assert log[..n][..k] == log[..k];
    } else {
      k := n;
    }
  }

  // q is the last entry of item i before k.
  predicate IsPrevious(log: seq<Entry>, q: nat, k: nat, i: nat) {
    q < k <= |log| && log[q].owner == i && forall j | q < j < k :: log[j].owner != i
  }

  lemma {:induction false} Previous(log: seq<Entry>, k: nat, i: nat) returns (q: nat)
    requires k <= |log| && Own(log[..k], i) != []
    ensures IsPrevious(log, q, k, i) && log[q].exchange == Own(log[..k], i)[|Own(log[..k], i)| - 1]
    decreases k
  {
    assert log[..k][..k - 1] == log[..k - 1];
    if log[k - 1].owner == i {
      q := k - 1;
    } else {
      q := Previous(log, k - 1, i);
    }
  }
}
