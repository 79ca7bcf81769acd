// What the outcome of one item of a batch write says about the whole request, its retry included: the batches that
// named its ID, and the readback (src/gmail/client/bulk.rs, src/broker/handlers/tokens.rs).
module BatchItems {
  import opened Wrappers
  import opened ProviderCalls
  import opened TokenRetry
  import opened BatchModify
  import W = WriteOutcomes

  predicate NamesAt(ex: seq<Exchange>, k: int, id: string) {
    0 <= k < |ex| && ex[k].request.PostBatchModify? && id in ex[k].request.ids
  }

  // A batch that named the ID and was not refused: it may have taken effect.
  predicate MayTakeAt(ex: seq<Exchange>, k: int, id: string) {
    NamesAt(ex, k, id) && !IsRefusal(ex[k].answer)
  }

  ghost predicate Untouched(ex: seq<Exchange>, id: string) {
    forall k :: !MayTakeAt(ex, k, id)
  }

  // The one batch of that kind, which sets the requested state.
  ghost predicate OnceAt(ex: seq<Exchange>, k: int, id: string, labelId: string, add: bool) {
    && MayTakeAt(ex, k, id) && ex[k].request.labelId == labelId && ex[k].request.add == add
    && forall j | MayTakeAt(ex, j, id) :: j == k
  }

  ghost predicate Once(ex: seq<Exchange>, id: string, labelId: string, add: bool) {
    exists k :: OnceAt(ex, k, id, labelId, add)
  }

  // Behind such a batch the message was read back in the requested state: with the label if it was to be added, without
  // it if it was to be removed.
  predicate ConfirmedAt(ex: seq<Exchange>, k: int, j: int, id: string, labelId: string, add: bool) {
    && MayTakeAt(ex, k, id) && k < j < |ex|
    && ex[j].request == GetMessageLabels(id) && MessageShown(ex[j].answer, id)
    && (if add then ListsLabel(ex[j].answer, labelId) else !ListsLabel(ex[j].answer, labelId))
  }

  ghost predicate Confirmed(ex: seq<Exchange>, id: string, labelId: string, add: bool) {
    exists k, j :: ConfirmedAt(ex, k, j, id, labelId, add)
  }

  // A message is put in the batch exactly if its own check shows it and lists no draft label; else it fails with
  // what the check's answer lacked, or as a draft.
  lemma EligibleIff(ids: seq<string>, ex: seq<Exchange>, i: nat)
    requires i < |ids| <= |ex|
    ensures IsEligible(ids, ex, i) <==> MessageShown(ex[i].answer, ids[i]) && !ListsLabel(ex[i].answer, "DRAFT")
    ensures !IsEligible(ids, ex, i) ==>
              Preflight(ids[i], ex[i].answer) ==
              Err(if Unreadable(ex[i].answer).Some? then Unreadable(ex[i].answer).value
                  else if MessageShown(ex[i].answer, ids[i]) then DraftMutation else Other)
  {
    LabelsRead(ex[i].answer, ids[i]);
  }

  // --- One attempt --------------------------------------------------------------------------------

  lemma EligibleOnce(ids: seq<string>, ex: seq<Exchange>, i: nat, j: nat)
    requires NoRepeats(ids) && i < |ids| <= |ex| && j < |Eligible(ids, ex)| && Eligible(ids, ex)[j] == ids[i]
    ensures IsEligible(ids, ex, i) && j == Rank(ids, ex, i)
  {
    var k := EveryMemberEligible(ids, ex, |ids|, j);
  }

  lemma BatchIsAt(
    ids: seq<string>, labelId: string, add: bool, r: Result<seq<Item>, Error>, ex: seq<Exchange>, k: int, id: string)
    requires AttemptFits(ids, labelId, add, r, ex) && NamesAt(ex, k, id)
    ensures k == |ids| && ex[k].request == PostBatchModify(Eligible(ids, ex), labelId, add)
  {
    assert W.WriteAt(ex, k);
    AttemptWrites(ids, labelId, add, r, ex, k);
  }

  lemma AttemptUntouched(
    ids: seq<string>, labelId: string, add: bool, r: Result<seq<Item>, Error>, ex: seq<Exchange>, i: nat)
    requires AttemptFits(ids, labelId, add, r, ex) && r.Ok? && NoRepeats(ids) && i < |ids|
    requires !IsEligible(ids, ex, i) || Refused(ids, ex)
    ensures Untouched(ex, ids[i])
  {
    forall k ensures !MayTakeAt(ex, k, ids[i]) {
      if MayTakeAt(ex, k, ids[i]) {
        BatchIsAt(ids, labelId, add, r, ex, k, ids[i]);
        var j :| 0 <= j < |Eligible(ids, ex)| && Eligible(ids, ex)[j] == ids[i];
        EligibleOnce(ids, ex, i, j);
      }
    }
  }

  lemma AttemptOnce(
    ids: seq<string>, labelId: string, add: bool, r: Result<seq<Item>, Error>, ex: seq<Exchange>, i: nat)
    requires AttemptFits(ids, labelId, add, r, ex) && r.Ok? && i < |ids|
    requires IsEligible(ids, ex, i) && !Refused(ids, ex)
    ensures OnceAt(ex, |ids|, ids[i], labelId, add)
  {
    RankFacts(ids, ex, i, |ids|);
    forall j | MayTakeAt(ex, j, ids[i]) ensures j == |ids| {
      BatchIsAt(ids, labelId, add, r, ex, j, ids[i]);
    }
  }

  lemma AttemptConfirmed(
    ids: seq<string>, labelId: string, add: bool, r: Result<seq<Item>, Error>, ex: seq<Exchange>, i: nat)
    requires AttemptFits(ids, labelId, add, r, ex) && r.Ok? && NoRepeats(ids) && i < |ids|
    requires IsEligible(ids, ex, i) && !Refused(ids, ex)
    ensures r.value[i].outcome.Succeeded? <==> Confirmed(ex, ids[i], labelId, add)
  {
    AttemptOnce(ids, labelId, add, r, ex, i);
    RankFacts(ids, ex, i, |ids|);
    var readback := |ids| + 1 + Rank(ids, ex, i);
    if r.value[i].outcome.Succeeded? {
      assert ConfirmedAt(ex, |ids|, readback, ids[i], labelId, add);
    }
    if Confirmed(ex, ids[i], labelId, add) {
      var k, j :| ConfirmedAt(ex, k, j, ids[i], labelId, add);
      EligibleOnce(ids, ex, i, j - |ids| - 1);
    }
  }

  // What one attempt's outcome for an ID says.
  ghost predicate ItemMeans(outcome: W.Outcome, ex: seq<Exchange>, id: string, labelId: string, add: bool) {
    && !outcome.NotAttempted?
    && (outcome.Failed? <==> Untouched(ex, id))
    && (outcome.Succeeded? || outcome.Unknown? <==> Once(ex, id, labelId, add))
    && (outcome.Succeeded? <==> Confirmed(ex, id, labelId, add))
  }

  lemma AttemptMeans(
    ids: seq<string>, labelId: string, add: bool, r: Result<seq<Item>, Error>, ex: seq<Exchange>, i: nat)
    requires AttemptFits(ids, labelId, add, r, ex) && r.Ok? && NoRepeats(ids) && i < |ids|
    ensures ItemMeans(r.value[i].outcome, ex, ids[i], labelId, add)
  {
    if IsEligible(ids, ex, i) && !Refused(ids, ex) {
      AttemptOnce(ids, labelId, add, r, ex, i);
      AttemptConfirmed(ids, labelId, add, r, ex, i);
    } else {
      AttemptUntouched(ids, labelId, add, r, ex, i);
    }
  }

  // --- The whole request --------------------------------------------------------------------------

  lemma TakesShift(front: seq<Exchange>, back: seq<Exchange>, k: int, id: string)
    requires Untouched(front, id)
    ensures MayTakeAt(front + back, k, id) <==> MayTakeAt(back, k - |front|, id)
  {
    if 0 <= k < |front| {
      assert (front + back)[k] == front[k] && !MayTakeAt(front, k, id);
    } else if k < |front + back| {
      assert k >= 0 ==> (front + back)[k] == back[k - |front|];
    }
  }

  // What came before without any effect on the ID does not matter.
  lemma MeansShift(
    outcome: W.Outcome, front: seq<Exchange>, back: seq<Exchange>, id: string, labelId: string, add: bool)
    requires Untouched(front, id) && ItemMeans(outcome, back, id, labelId, add)
    ensures ItemMeans(outcome, front + back, id, labelId, add)
  {
    UntouchedShift(front, back, id);
    OnceShift(front, back, id, labelId, add);
    ConfirmedShift(front, back, id, labelId, add);
  }

  lemma UntouchedShift(front: seq<Exchange>, back: seq<Exchange>, id: string)
    requires Untouched(front, id)
    ensures Untouched(front + back, id) <==> Untouched(back, id)
  {
    if Untouched(front + back, id) {
      forall k ensures !MayTakeAt(back, k, id) {
        TakesShift(front, back, |front| + k, id);
      }
    }
    if Untouched(back, id) {
      forall k ensures !MayTakeAt(front + back, k, id) {
        TakesShift(front, back, k, id);
      }
    }
  }

  lemma OnceShift(front: seq<Exchange>, back: seq<Exchange>, id: string, labelId: string, add: bool)
    requires Untouched(front, id)
    ensures Once(front + back, id, labelId, add) <==> Once(back, id, labelId, add)
  {
    var ex, n := front + back, |front|;
    if Once(ex, id, labelId, add) {
      var k :| OnceAt(ex, k, id, labelId, add);
      TakesShift(front, back, k, id);
      forall j | MayTakeAt(back, j, id) ensures j == k - n {
        TakesShift(front, back, n + j, id);
      }
      assert OnceAt(back, k - n, id, labelId, add);
    }
    if Once(back, id, labelId, add) {
      var k :| OnceAt(back, k, id, labelId, add);
      TakesShift(front, back, n + k, id);
      forall j | MayTakeAt(ex, j, id) ensures j == n + k {
        TakesShift(front, back, j, id);
      }
      assert OnceAt(ex, n + k, id, labelId, add);
    }
  }

  lemma ConfirmedShift(front: seq<Exchange>, back: seq<Exchange>, id: string, labelId: string, add: bool)
    requires Untouched(front, id)
    ensures Confirmed(front + back, id, labelId, add) <==> Confirmed(back, id, labelId, add)
  {
    var ex, n := front + back, |front|;
    if Confirmed(ex, id, labelId, add) {
      var k, j :| ConfirmedAt(ex, k, j, id, labelId, add);
      TakesShift(front, back, k, id);
      assert ConfirmedAt(back, k - n, j - n, id, labelId, add);
    }
    if Confirmed(back, id, labelId, add) {
      var k, j :| ConfirmedAt(back, k, j, id, labelId, add);
      TakesShift(front, back, n + k, id);
      assert ConfirmedAt(ex, n + k, n + j, id, labelId, add);
    }
  }

  lemma OperationMeans(
    ids: seq<string>, labelId: string, add: bool, checkLabel: bool, r: Result<seq<Item>, Error>, ex: seq<Exchange>,
    i: nat)
    requires OperationFits(ids, labelId, add, checkLabel, r, ex) && r.Ok? && NoRepeats(ids) && i < |ids|
    ensures |r.value| == |ids| && r.value[i].index == i && ItemMeans(r.value[i].outcome, ex, ids[i], labelId, add)
  {
    if checkLabel {
      AttemptMeans(ids, labelId, add, r, ex[1..], i);
      assert Untouched(ex[..1], ids[i]);
      MeansShift(r.value[i].outcome, ex[..1], ex[1..], ids[i], labelId, add);
      assert ex == ex[..1] + ex[1..];
    } else {
      AttemptMeans(ids, labelId, add, r, ex[0..], i);
      assert ex[0..] == ex;
    }
  }

  lemma RefusedLeavesUntouched(ex: seq<Exchange>, id: string)
    requires W.AllUnauthorized(ex)
    ensures Untouched(ex, id)
  {
    forall k ensures !MayTakeAt(ex, k, id) {
      if NamesAt(ex, k, id) {
        assert W.WriteAt(ex, k);
      }
    }
  }

  // Over the whole request, its retry included: an item has failed if and only if every batch that named its ID was
  // answered 4xx; it has succeeded or is unknown if and only if exactly one batch that named it was not; and it has
  // succeeded if and only if the message was then read back in the requested state.
  lemma RequestMeans(
    ids: seq<string>, labelId: string, add: bool, checkLabel: bool, tokens: Tokens,
    r: Result<seq<Item>, TokenRetry.Failure>, results: seq<Result<seq<Item>, Error>>, ex: seq<Exchange>, last: nat,
    i: nat)
    requires RequestFits(ids, labelId, add, checkLabel, tokens, r, results, ex, last)
    requires r.Ok? && NoRepeats(ids) && i < |ids|
    ensures |r.value| == |ids| && r.value[i].index == i && ItemMeans(r.value[i].outcome, ex, ids[i], labelId, add)
  {
    LastSucceeds(tokens, results);
    if |results| == 2 {
      OperationWrites(ids, labelId, add, checkLabel, results[0], ex[..last]);
      RetryMeans(ids, labelId, add, checkLabel, results[1], ex[..last], ex[last..], i);
      assert ex == ex[..last] + ex[last..];
    } else {
      assert ex[..last] == ex;
      OperationMeans(ids, labelId, add, checkLabel, results[0], ex, i);
    }
  }

  lemma RetryMeans(
    ids: seq<string>, labelId: string, add: bool, checkLabel: bool, r: Result<seq<Item>, Error>,
    first: seq<Exchange>, second: seq<Exchange>, i: nat)
    requires W.AllUnauthorized(first) && OperationFits(ids, labelId, add, checkLabel, r, second)
    requires r.Ok? && NoRepeats(ids) && i < |ids|
    ensures |r.value| == |ids| && r.value[i].index == i
    ensures ItemMeans(r.value[i].outcome, first + second, ids[i], labelId, add)
  {
    RefusedLeavesUntouched(first, ids[i]);
    OperationMeans(ids, labelId, add, checkLabel, r, second, i);
    MeansShift(r.value[i].outcome, first, second, ids[i], labelId, add);
  }

  lemma AtMostOnce(outcome: W.Outcome, ex: seq<Exchange>, id: string, labelId: string, add: bool)
    requires ItemMeans(outcome, ex, id, labelId, add)
    ensures forall k, j | MayTakeAt(ex, k, id) && MayTakeAt(ex, j, id) :: k == j
  {
    if !outcome.Failed? {
      var k :| OnceAt(ex, k, id, labelId, add);
    }
  }

  // So whatever happened at the provider, a request changes a message at most once, and not at all if its item failed
  // or the request did.
  lemma EffectsOfRequest(
    ids: seq<string>, labelId: string, add: bool, checkLabel: bool, tokens: Tokens,
    r: Result<seq<Item>, TokenRetry.Failure>, results: seq<Result<seq<Item>, Error>>, ex: seq<Exchange>, last: nat,
    i: nat)
    requires RequestFits(ids, labelId, add, checkLabel, tokens, r, results, ex, last)
    requires NoRepeats(ids) && i < |ids|
    ensures forall k, j | MayTakeAt(ex, k, ids[i]) && MayTakeAt(ex, j, ids[i]) :: k == j
    ensures r.Err? || (i < |r.value| && r.value[i].outcome.Failed?) ==> Untouched(ex, ids[i])
  {
    if r.Ok? {
      RequestMeans(ids, labelId, add, checkLabel, tokens, r, results, ex, last, i);
      AtMostOnce(r.value[i].outcome, ex, ids[i], labelId, add);
    } else {
      RequestWrites(ids, labelId, add, checkLabel, tokens, r, results, ex, last);
      RefusedLeavesUntouched(ex, ids[i]);
    }
  }
}
