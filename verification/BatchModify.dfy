// The native batch write with per-message preflight and readback (modify_message_set in
// src/gmail/client/bulk.rs). Reads that the source makes through its ordered parallel map are made here in
// input order, which is the order in which that map returns them.
module BatchModify {
  import opened Wrappers
  import opened ProviderCalls
  import opened TokenRetry
  import opened WriteOutcomes

  datatype Item = Item(index: nat, outcome: Outcome)

  // --- What the log of one attempt says -----------------------------------------------------------

  // ensure_not_draft, the same check as before a trash.
  function Preflight(id: string, a: Answer): Result<(), Error> {
    Permission(Trash(id), a)
  }

  predicate PreflightsOf(ids: seq<string>, ex: seq<Exchange>) {
    |ids| <= |ex| && forall i | 0 <= i < |ids| :: ex[i].request == GetMessageLabels(ids[i])
  }

  predicate IsEligible(ids: seq<string>, ex: seq<Exchange>, i: int)
    requires |ids| <= |ex|
  {
    0 <= i < |ids| && Preflight(ids[i], ex[i].answer).Ok?
  }

  // The eligible IDs among the first n, in input order.
  function EligibleUpTo(ids: seq<string>, ex: seq<Exchange>, n: nat): seq<string>
    requires n <= |ids| <= |ex|
  {
    if n == 0 then []
    else EligibleUpTo(ids, ex, n - 1) + (if IsEligible(ids, ex, n - 1) then [ids[n - 1]] else [])
  }

  function Eligible(ids: seq<string>, ex: seq<Exchange>): seq<string>
    requires |ids| <= |ex|
  {
    EligibleUpTo(ids, ex, |ids|)
  }

  // The position of item i in the batch.
  function Rank(ids: seq<string>, ex: seq<Exchange>, i: nat): nat
    requires i <= |ids| <= |ex|
  {
    |EligibleUpTo(ids, ex, i)|
  }

  // The desired label state, read back from exactly this message.
  predicate Shows(id: string, labelId: string, add: bool, a: Answer) {
    MessageShown(a, id) && (ListsLabel(a, labelId) <==> add)
  }

  predicate Refused(ids: seq<string>, ex: seq<Exchange>) {
    |ids| < |ex| && IsRefusal(ex[|ids|].answer)
  }

  // The outcome item i must have, from the exchanges alone.
  predicate ItemFits(ids: seq<string>, labelId: string, add: bool, outcome: Outcome, ex: seq<Exchange>, i: nat)
    requires i < |ids| <= |ex|
  {
    if !IsEligible(ids, ex, i) then outcome == Failed(Preflight(ids[i], ex[i].answer).error)
    else if Refused(ids, ex) then outcome == Failed(Status(ex[|ids|].answer.status))
    else
      var readback := |ids| + 1 + Rank(ids, ex, i);
      && readback < |ex|
      && ex[readback].request == GetMessageLabels(ids[i])
      && outcome == if Shows(ids[i], labelId, add, ex[readback].answer) then Succeeded else Unknown
  }

  // One attempt: every preflight first, then one batch of exactly the eligible IDs unless a preflight was
  // answered 401 or none is eligible, then one readback per batch member unless the batch was refused.
  ghost predicate AttemptFits(
    ids: seq<string>, labelId: string, add: bool, r: Result<seq<Item>, Error>, ex: seq<Exchange>)
  {
    && PreflightsOf(ids, ex)
    && (if exists i | 0 <= i < |ids| :: Is401(ex[i].answer) then
          r == Err(Status(401)) && |ex| == |ids|
        else if Eligible(ids, ex) == [] then
          r.Ok? && |ex| == |ids|
        else
          && |ids| < |ex|
          && ex[|ids|].request == PostBatchModify(Eligible(ids, ex), labelId, add)
          && (r.Err? <==> Is401(ex[|ids|].answer))
          && (r.Err? ==> r.error == Status(401))
          && (if Refused(ids, ex) then |ex| == |ids| + 1 else Readbacks(ids, ex)))
    && (r.Ok? ==> |r.value| == |ids| && forall i | 0 <= i < |ids| ::
                    r.value[i].index == i && ItemFits(ids, labelId, add, r.value[i].outcome, ex, i))
  }

  predicate Readbacks(ids: seq<string>, ex: seq<Exchange>)
    requires |ids| < |ex|
  {
    var batch := Eligible(ids, ex);
    && |ex| == |ids| + 1 + |batch|
    && forall j | 0 <= j < |batch| :: ex[|ids| + 1 + j].request == GetMessageLabels(batch[j])
  }

  // --- The subsequence and the cursor -------------------------------------------------------------

  // The batch holds each eligible ID at its rank, ranks grow with the index, and nothing else is in it: it is
  // the order-preserving subsequence of the eligible IDs.
  lemma {:induction false} RankFacts(ids: seq<string>, ex: seq<Exchange>, i: nat, n: nat)
    requires i < n <= |ids| <= |ex| && IsEligible(ids, ex, i)
    ensures Rank(ids, ex, i) < |EligibleUpTo(ids, ex, n)|
    ensures EligibleUpTo(ids, ex, n)[Rank(ids, ex, i)] == ids[i]
    ensures i + 1 < n ==> Rank(ids, ex, i) < Rank(ids, ex, n - 1)
    decreases n
  {
    if i < n - 1 {
      RankFacts(ids, ex, i, n - 1);
    }
  }

  lemma {:induction false} EveryMemberEligible(ids: seq<string>, ex: seq<Exchange>, n: nat, j: nat) returns (i: nat)
    requires n <= |ids| <= |ex| && j < |EligibleUpTo(ids, ex, n)|
    ensures i < n && IsEligible(ids, ex, i) && Rank(ids, ex, i) == j && ids[i] == EligibleUpTo(ids, ex, n)[j]
    decreases n
  {
    if j == |EligibleUpTo(ids, ex, n - 1)| {
      i := n - 1;
    } else {
      i := EveryMemberEligible(ids, ex, n - 1, j);
    }
  }

  // No draft is ever in the batch: the message's own preflight showed it was not one.
  lemma BatchHasNoDraft(
    ids: seq<string>, labelId: string, add: bool, r: Result<seq<Item>, Error>, ex: seq<Exchange>, j: nat)
    requires AttemptFits(ids, labelId, add, r, ex) && |ids| < |ex| && j < |Eligible(ids, ex)|
    ensures exists i | 0 <= i < |ids| ::
              && ids[i] == Eligible(ids, ex)[j]
              && ex[i].request == GetMessageLabels(ids[i])
              && MessageShown(ex[i].answer, ids[i]) && !ListsLabel(ex[i].answer, "DRAFT")
  {
    var i := EveryMemberEligible(ids, ex, |ids|, j);
    LabelsRead(ex[i].answer, ids[i]);
    assert ids[i] == Eligible(ids, ex)[j];
  }

  // An item succeeds exactly when it was eligible, the batch was not refused, and its own readback shows the
  // desired state; it is unknown exactly when it was in a batch that was not refused and the readback does not.
  lemma OutcomesExact(
    ids: seq<string>, labelId: string, add: bool, r: Result<seq<Item>, Error>, ex: seq<Exchange>, i: nat)
    requires AttemptFits(ids, labelId, add, r, ex) && r.Ok? && i < |ids|
    ensures var outcome := r.value[i].outcome;
            var inBatch := IsEligible(ids, ex, i) && !Refused(ids, ex);
            var readback := |ids| + 1 + Rank(ids, ex, i);
            && (inBatch ==> readback < |ex| && ex[readback].request == GetMessageLabels(ids[i]))
            && (outcome == Succeeded <==> inBatch && Shows(ids[i], labelId, add, ex[readback].answer))
            && (outcome == Unknown <==> inBatch && !Shows(ids[i], labelId, add, ex[readback].answer))
            && (outcome.Failed? <==> !inBatch)
  {
    assert r.value[i].index == i;
  }

  // --- The method ---------------------------------------------------------------------------------

  method ReadEach(c: Connection, ids: seq<string>) returns (answers: seq<Answer>)
    modifies c
    ensures |answers| == |ids|
    ensures old(c.log) <= c.log && |c.log| == |old(c.log)| + |ids|
    ensures forall i | 0 <= i < |ids| :: c.log[|old(c.log)| + i] == Exchange(GetMessageLabels(ids[i]), answers[i])
  {
    answers := [];
    var i := 0;
    while i < |ids|
      invariant 0 <= i <= |ids| && |answers| == i
      invariant old(c.log) <= c.log && |c.log| == |old(c.log)| + i
      invariant forall j | 0 <= j < i :: c.log[|old(c.log)| + j] == Exchange(GetMessageLabels(ids[j]), answers[j])
    {
      var a := c.Send(GetMessageLabels(ids[i]));
      answers := answers + [a];
      i := i + 1;
    }
  }

  method SelectEligible(ids: seq<string>, checks: seq<Answer>, ghost ex: seq<Exchange>) returns (eligible: seq<string>)
    requires |checks| == |ids| == |ex| && forall i | 0 <= i < |ids| :: ex[i].answer == checks[i]
    ensures eligible == Eligible(ids, ex)
  {
    eligible := [];
    var i := 0;
    while i < |ids|
      invariant 0 <= i <= |ids|
      invariant eligible == EligibleUpTo(ids, ex, i)
    {
      if Preflight(ids[i], checks[i]).Ok? {
        eligible := eligible + [ids[i]];
      }
      i := i + 1;
    }
  }

  lemma {:induction false} EligibleLocal(ids: seq<string>, ex: seq<Exchange>, longer: seq<Exchange>, n: nat)
    requires n <= |ids| <= |ex| && ex <= longer
    ensures EligibleUpTo(ids, ex, n) == EligibleUpTo(ids, longer, n)
    decreases n
  {
    if n > 0 {
      EligibleLocal(ids, ex, longer, n - 1);
    }
  }

  // Pairs every ID with its own answer: the cursor moves once per eligible ID, so it never runs dry.
  method Assemble(
    ids: seq<string>, labelId: string, add: bool, checks: seq<Answer>, refusal: Option<Error>, observed: seq<Answer>,
    ghost ex: seq<Exchange>)
    returns (items: seq<Item>)
    requires |checks| == |ids| <= |ex| && forall i | 0 <= i < |ids| :: ex[i].answer == checks[i]
    requires refusal == if Refused(ids, ex) then Some(Status(ex[|ids|].answer.status)) else None
    requires Eligible(ids, ex) != [] && !Refused(ids, ex) ==>
               && |ids| < |ex| && Readbacks(ids, ex) && |observed| == |Eligible(ids, ex)|
               && forall j | 0 <= j < |observed| :: ex[|ids| + 1 + j].answer == observed[j]
    ensures |items| == |ids|
    ensures forall i | 0 <= i < |ids| :: items[i].index == i && ItemFits(ids, labelId, add, items[i].outcome, ex, i)
  {
    items := [];
    var cursor := 0;
    var i := 0;
    while i < |ids|
      invariant 0 <= i <= |ids| && |items| == i
      invariant refusal.None? ==> cursor == Rank(ids, ex, i)
      invariant forall j | 0 <= j < i :: items[j].index == j && ItemFits(ids, labelId, add, items[j].outcome, ex, j)
    {
      var check := Preflight(ids[i], checks[i]);
      var outcome;
      if check.Err? {
        outcome := Failed(check.error);
      } else if refusal.Some? {
        outcome := Failed(refusal.value);
      } else {
        RankFacts(ids, ex, i, |ids|);
        assert ex[|ids| + 1 + cursor].request == GetMessageLabels(ids[i]);
        var labels := ReadLabels(observed[cursor], ids[i]);
        outcome := if labels.Ok? && (labelId in labels.value) == add then Succeeded else Unknown;
        LabelsRead(observed[cursor], ids[i]);
        cursor := cursor + 1;
      }
      items := items + [Item(i, outcome)];
      i := i + 1;
    }
  }

  // The batch itself, and the readbacks unless it was refused; before holds the preflight exchanges.
  method WriteAndVerify(
    c: Connection, ids: seq<string>, labelId: string, add: bool, checks: seq<Answer>, eligible: seq<string>,
    ghost before: seq<Exchange>)
    returns (r: Result<seq<Item>, Error>)
    requires |checks| == |ids| == |before| && PreflightsOf(ids, before)
    requires forall i | 0 <= i < |ids| :: before[i].answer == checks[i] && !Is401(checks[i])
    requires eligible == Eligible(ids, before) != []
    modifies c
    ensures old(c.log) <= c.log && AttemptFits(ids, labelId, add, r, before + c.log[|old(c.log)|..])
  {
    var request := PostBatchModify(eligible, labelId, add);
    var answer := c.Send(request);
    ghost var ex := before + [Exchange(request, answer)];
    assert before + c.log[|old(c.log)|..] == ex;
    EligibleLocal(ids, before, ex, |ids|);
    // A 401 is a definitive rejection, safe to repeat after a refresh.
    if Is401(answer) {
      return Err(Status(401));
    }
    var items;
    if IsRefusal(answer) {
      items := Assemble(ids, labelId, add, checks, Some(Status(answer.status)), [], ex);
    } else {
      var observed := ReadEach(c, eligible);
      ghost var fx := before + c.log[|old(c.log)|..];
      assert ex <= fx && fx[|ids|] == ex[|ids|];
      EligibleLocal(ids, ex, fx, |ids|);
      assert Readbacks(ids, fx) && forall j | 0 <= j < |observed| :: fx[|ids| + 1 + j].answer == observed[j];
      items := Assemble(ids, labelId, add, checks, None, observed, fx);
    }
    return Ok(items);
  }

  lemma RejectedCheck(ids: seq<string>, labelId: string, add: bool, ex: seq<Exchange>, i: nat)
    requires |ex| == |ids| && PreflightsOf(ids, ex) && i < |ids| && Is401(ex[i].answer)
    ensures AttemptFits(ids, labelId, add, Err(Status(401)), ex)
  {
  }

  lemma NothingEligible(ids: seq<string>, labelId: string, add: bool, items: seq<Item>, ex: seq<Exchange>)
    requires |ex| == |ids| == |items| && PreflightsOf(ids, ex) && Eligible(ids, ex) == []
    requires forall i | 0 <= i < |ids| :: !Is401(ex[i].answer)
    requires forall i | 0 <= i < |ids| :: items[i].index == i && ItemFits(ids, labelId, add, items[i].outcome, ex, i)
    ensures AttemptFits(ids, labelId, add, Ok(items), ex)
  {
  }

  method ModifyMessageSet(c: Connection, ids: seq<string>, labelId: string, add: bool)
    returns (r: Result<seq<Item>, Error>)
    modifies c
    ensures old(c.log) <= c.log && AttemptFits(ids, labelId, add, r, c.log[|old(c.log)|..])
  {
    var checks := ReadEach(c, ids);
    ghost var mid := c.log;
    ghost var before := c.log[|old(c.log)|..];
    assert PreflightsOf(ids, before) && forall i | 0 <= i < |ids| :: before[i].answer == checks[i];
    // Read-only so far: a 401 is reported before anything is written.
    if i :| 0 <= i < |ids| && Is401(checks[i]) {
      RejectedCheck(ids, labelId, add, before, i);
      return Err(Status(401));
    }
    var eligible := SelectEligible(ids, checks, before);
    if eligible == [] {
      var items := Assemble(ids, labelId, add, checks, None, [], before);
      NothingEligible(ids, labelId, add, items, before);
      return Ok(items);
    }
    r := WriteAndVerify(c, ids, labelId, add, checks, eligible, before);
    assert c.log[|old(c.log)|..] == before + c.log[|mid|..];
  }

  // --- The whole request --------------------------------------------------------------------------

  // One attempt of a label request first checks that the label is a custom one; a read-state request does not.
  ghost predicate OperationFits(
    ids: seq<string>, labelId: string, add: bool, checkLabel: bool, r: Result<seq<Item>, Error>, ex: seq<Exchange>)
  {
    if checkLabel && (ex == [] || ex[0].request != GetLabel(labelId) || ReadCustomLabel(ex[0].answer, labelId).Err?)
    then
      && ex != [] && ex[0].request == GetLabel(labelId) && |ex| == 1
      && r == Err(ReadCustomLabel(ex[0].answer, labelId).error)
    else AttemptFits(ids, labelId, add, r, ex[if checkLabel then 1 else 0..])
  }

  method Operation(c: Connection, ids: seq<string>, labelId: string, add: bool, checkLabel: bool)
    returns (r: Result<seq<Item>, Error>)
    modifies c
    ensures old(c.log) <= c.log && OperationFits(ids, labelId, add, checkLabel, r, c.log[|old(c.log)|..])
  {
    if checkLabel {
      var answer := c.Send(GetLabel(labelId));
      ghost var e := Exchange(GetLabel(labelId), answer);
      assert c.log[|old(c.log)|..] == [e];
      var custom := ReadCustomLabel(answer, labelId);
      if custom.Err? {
        return Err(custom.error);
      }
      ghost var start := c.log;
      r := ModifyMessageSet(c, ids, labelId, add);
      assert c.log[|old(c.log)|..] == [e] + c.log[|start|..];
    } else {
      r := ModifyMessageSet(c, ids, labelId, add);
    }
  }

  // An attempt writes at most once; one that reports an error wrote nothing that was not answered 401, and
  // only a 401 asks for another attempt after a write.
  lemma OperationWrites(
    ids: seq<string>, labelId: string, add: bool, checkLabel: bool, r: Result<seq<Item>, Error>, ex: seq<Exchange>)
    requires OperationFits(ids, labelId, add, checkLabel, r, ex)
    ensures AtMostOneWrite(ex)
    ensures r.Err? ==> AllUnauthorized(ex)
    ensures Wrote(ex) && r.Err? ==> r.error == Status(401)
    ensures r.Ok? ==> forall i | WriteAt(ex, i) :: !Is401(ex[i].answer)
  {
    var k := if checkLabel then 1 else 0;
    if !(|ex| == 1 && ex[0].request == GetLabel(labelId)) || !checkLabel || ReadCustomLabel(ex[0].answer, labelId).Ok? {
      var tail := ex[k..];
      forall i | WriteAt(ex, i) ensures i == k + |ids| && ex[i].request.PostBatchModify? {
        AttemptWrites(ids, labelId, add, r, tail, i - k);
      }
    }
  }

  lemma AttemptWrites(
    ids: seq<string>, labelId: string, add: bool, r: Result<seq<Item>, Error>, ex: seq<Exchange>, i: int)
    requires AttemptFits(ids, labelId, add, r, ex) && WriteAt(ex, i)
    ensures i == |ids| && ex[i].request.PostBatchModify?
  {
    if |ids| < |ex| && Readbacks(ids, ex) {
      ReadbacksAreReads(ids, ex);
    }
  }

  lemma ReadbacksAreReads(ids: seq<string>, ex: seq<Exchange>)
    requires |ids| < |ex| && Readbacks(ids, ex)
    ensures forall i | |ids| < i < |ex| :: !IsWrite(ex[i].request)
  {
    forall i | |ids| < i < |ex| ensures !IsWrite(ex[i].request) {
      var j := i - |ids| - 1;
      assert ex[|ids| + 1 + j].request == GetMessageLabels(Eligible(ids, ex)[j]);
    }
  }

  // The whole request: results are the attempts' own, and last is where the second attempt begins.
  ghost predicate RequestFits(
    ids: seq<string>, labelId: string, add: bool, checkLabel: bool, tokens: Tokens,
    r: Result<seq<Item>, Failure>, results: seq<Result<seq<Item>, Error>>, ex: seq<Exchange>, last: nat)
  {
    && last <= |ex| && AttemptsMade(tokens, results) && r == Final(tokens, results)
    && (results == [] ==> ex == [])
    && (results != [] ==> OperationFits(ids, labelId, add, checkLabel, results[0], ex[..last]))
    && (if |results| == 2 then OperationFits(ids, labelId, add, checkLabel, results[1], ex[last..]) else last == |ex|)
  }

  method ModifyWithRefresh(
    c: Connection, ids: seq<string>, labelId: string, add: bool, checkLabel: bool, tokens: Tokens)
    returns (r: Result<seq<Item>, Failure>, ghost results: seq<Result<seq<Item>, Error>>, ghost last: nat)
    modifies c
    ensures old(c.log) <= c.log
    ensures RequestFits(ids, labelId, add, checkLabel, tokens, r, results, c.log[|old(c.log)|..], last)
  {
    results, last := [], 0;
    if !tokens.cached {
      return Err(Credential), results, last;
    }
    var result := Operation(c, ids, labelId, add, checkLabel);
    ghost var first := c.log[|old(c.log)|..];
    results, last := [result], |first|;
    assert first[..last] == first;
    if result.Ok? {
      return Ok(result.value), results, last;
    }
    if !IsUnauthorized(result.error) {
      return Err(Gmail(result.error)), results, last;
    }
    if !tokens.refreshed {
      return Err(Credential), results, last;
    }
    result := Operation(c, ids, labelId, add, checkLabel);
    results := results + [result];
    ghost var ex := c.log[|old(c.log)|..];
    assert ex[..last] == first && ex[last..] == c.log[|old(c.log)| + |first|..];
    r := if result.Ok? then Ok(result.value) else Err(Gmail(result.error));
  }

  ghost predicate TwoWritesAtMost(ex: seq<Exchange>) {
    && (forall i, j | WriteAt(ex, i) && WriteAt(ex, j) && i < j :: Is401(ex[i].answer))
    && (forall i, j, k | WriteAt(ex, i) && WriteAt(ex, j) && WriteAt(ex, k) :: i == j || j == k || i == k)
  }

  // Over the retry: the batch is dispatched at most twice, the second time only after a 401, and a request that
  // fails leaves no batch that was not answered 401.
  lemma RequestWrites(
    ids: seq<string>, labelId: string, add: bool, checkLabel: bool, tokens: Tokens,
    r: Result<seq<Item>, Failure>, results: seq<Result<seq<Item>, Error>>, ex: seq<Exchange>, last: nat)
    requires RequestFits(ids, labelId, add, checkLabel, tokens, r, results, ex, last)
    ensures TwoWritesAtMost(ex) && (r.Err? ==> AllUnauthorized(ex))
  {
    if results != [] {
      var first, second := ex[..last], ex[last..];
      assert ex == first + second;
      OperationWrites(ids, labelId, add, checkLabel, results[0], first);
      if |results| == 2 {
        OperationWrites(ids, labelId, add, checkLabel, results[1], second);
        JoinedBatchWrites(first, second);
      } else {
        assert ex == first;
      }
    }
  }

  lemma JoinedBatchWrites(first: seq<Exchange>, second: seq<Exchange>)
    requires AllUnauthorized(first) && AtMostOneWrite(first) && AtMostOneWrite(second)
    ensures TwoWritesAtMost(first + second)
    ensures AllUnauthorized(second) ==> AllUnauthorized(first + second)
  {
    var ex := first + second;
    forall i | WriteAt(ex, i)
      ensures i < |first| ==> WriteAt(first, i) && Is401(ex[i].answer)
      ensures i >= |first| ==> WriteAt(second, i - |first|) && ex[i] == second[i - |first|]
    {
      if i < |first| { assert WriteAt(first, i); }
    }
  }
}
