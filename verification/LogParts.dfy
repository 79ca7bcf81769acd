// Cutting a connection's log into the consecutive parts that belong to the items of a request.
module LogParts {
  import opened ProviderCalls

  // cuts[i] .. cuts[i + 1] is the part of the log that belongs to item i.
  predicate Cuts(cuts: seq<nat>, n: nat, from: nat, to: nat) {
    && |cuts| == n + 1
    && cuts[0] == from && cuts[n] == to
    && forall i | 0 <= i < n :: cuts[i] <= cuts[i + 1]
  }

  function Part(log: seq<Exchange>, cuts: seq<nat>, i: nat): seq<Exchange>
    requires i + 1 < |cuts| && cuts[i] <= cuts[i + 1] <= |log|
  {
    log[cuts[i]..cuts[i + 1]]
  }

  lemma {:induction false} CutsInside(cuts: seq<nat>, n: nat, from: nat, to: nat, i: nat)
    requires Cuts(cuts, n, from, to) && i <= n
    ensures from <= cuts[i] <= to
  {
    CutsGrow(cuts, n, from, to, 0, i);
    CutsGrow(cuts, n, from, to, i, n);
  }

  lemma {:induction false} CutsGrow(cuts: seq<nat>, n: nat, from: nat, to: nat, i: nat, j: nat)
    requires Cuts(cuts, n, from, to) && i <= j <= n
    ensures cuts[i] <= cuts[j]
    decreases j
  {
    if i < j {
      CutsGrow(cuts, n, from, to, i, j - 1);
    }
  }

  // Every position of the range lies in exactly one item's part.
  lemma {:induction false} PartOf(cuts: seq<nat>, n: nat, from: nat, to: nat, k: nat) returns (i: nat)
    requires Cuts(cuts, n, from, to) && from <= k < to
    ensures i < n && cuts[i] <= k < cuts[i + 1]
  {
    i := 0;
    while cuts[i + 1] <= k
      invariant i < n && cuts[i] <= k
      decreases n - i
    {
      i := i + 1;
    }
  }

  // Item i of a request, with its result, explains its part of the log.
  ghost predicate FitsAt<J, R>(
    fits: (J, R, seq<Exchange>) -> bool, jobs: seq<J>, results: seq<R>, log: seq<Exchange>, cuts: seq<nat>, i: int)
  {
    && 0 <= i < |jobs| && i < |results| && i + 1 < |cuts| && cuts[i] <= cuts[i + 1] <= |log|
    && fits(jobs[i], results[i], Part(log, cuts, i))
  }

  // The items, in order, account for everything the log holds between from and to.
  ghost predicate Accounted<J, R>(
    fits: (J, R, seq<Exchange>) -> bool, jobs: seq<J>, results: seq<R>, log: seq<Exchange>, cuts: seq<nat>,
    from: nat, to: nat)
  {
    && |results| == |jobs| && Cuts(cuts, |jobs|, from, to) && to <= |log|
    && forall i {:trigger FitsAt(fits, jobs, results, log, cuts, i)} | 0 <= i < |jobs| ::
         FitsAt(fits, jobs, results, log, cuts, i)
  }

  lemma OneMoreItem<J, R>(
    fits: (J, R, seq<Exchange>) -> bool, jobs: seq<J>, results: seq<R>, before: seq<Exchange>, cuts: seq<nat>,
    from: nat, job: J, result: R, after: seq<Exchange>)
    requires Accounted(fits, jobs, results, before, cuts, from, |before|) && before <= after
    requires fits(job, result, after[|before|..])
    ensures Accounted(fits, jobs + [job], results + [result], after, cuts + [|after|], from, |after|)
  {
    var n := |jobs|;
    var now := cuts + [|after|];
    forall i | 0 <= i < n + 1 ensures FitsAt(fits, jobs + [job], results + [result], after, now, i) {
      if i < n {
        assert FitsAt(fits, jobs, results, before, cuts, i);
        assert Part(after, now, i) == Part(before, cuts, i);
      } else {
        assert Part(after, now, i) == after[|before|..];
      }
    }
  }

  // What is accounted for stays so in a longer log.
  lemma LaterLog<J, R>(
    fits: (J, R, seq<Exchange>) -> bool, jobs: seq<J>, results: seq<R>, log: seq<Exchange>, later: seq<Exchange>,
    cuts: seq<nat>, from: nat, to: nat)
    requires Accounted(fits, jobs, results, log, cuts, from, to) && log <= later
    ensures Accounted(fits, jobs, results, later, cuts, from, to)
  {
    forall i | 0 <= i < |jobs| ensures FitsAt(fits, jobs, results, later, cuts, i) {
      assert FitsAt(fits, jobs, results, log, cuts, i);
      assert Part(later, cuts, i) == Part(log, cuts, i);
    }
  }

  // The item that the exchange at k belongs to, and where in its part the exchange is.
  lemma ItemOf<J, R>(
    fits: (J, R, seq<Exchange>) -> bool, jobs: seq<J>, results: seq<R>, log: seq<Exchange>, cuts: seq<nat>,
    from: nat, to: nat, k: nat)
    returns (i: nat, ex: seq<Exchange>, at: nat)
    requires Accounted(fits, jobs, results, log, cuts, from, to) && from <= k < to
    ensures i < |jobs| == |results| && fits(jobs[i], results[i], ex)
    ensures at < |ex| && ex[at] == log[k] && from <= k - at && k - at + |ex| <= to
    ensures forall j | 0 <= j < |ex| :: ex[j] == log[k - at + j]
  {
    i := PartOf(cuts, |jobs|, from, to, k);
    assert FitsAt(fits, jobs, results, log, cuts, i);
    CutsInside(cuts, |jobs|, from, to, i);
    CutsInside(cuts, |jobs|, from, to, i + 1);
    ex, at := Part(log, cuts, i), k - cuts[i];
  }

  // Where an item's part lies in the log.
  lemma PartOfItem<J, R>(
    fits: (J, R, seq<Exchange>) -> bool, jobs: seq<J>, results: seq<R>, log: seq<Exchange>, cuts: seq<nat>,
    from: nat, to: nat, i: nat)
    returns (start: nat, ex: seq<Exchange>)
    requires Accounted(fits, jobs, results, log, cuts, from, to) && i < |jobs|
    ensures i < |results| && fits(jobs[i], results[i], ex)
    ensures from <= start && start + |ex| <= to && forall j | 0 <= j < |ex| :: ex[j] == log[start + j]
  {
    assert FitsAt(fits, jobs, results, log, cuts, i);
    CutsInside(cuts, |jobs|, from, to, i);
    CutsInside(cuts, |jobs|, from, to, i + 1);
    start, ex := cuts[i], Part(log, cuts, i);
  }
}
