// Acting on a consumed set of marks under every interleaving of its workers (src/broker/handlers/bulk_drafts.rs,
// src/broker/handlers/bulk_deletion.rs), and resolving the drafts of a set in any order.
module MarkWorkers {
  import opened Wrappers
  import opened ProviderCalls
  import H = MarkHandlers
  import K = Workers
  import M = MarkRefinement
  import TokenRetry
  import W = WriteOutcomes

  // --- Marks --------------------------------------------------------------------------------------

  // Every write, at any moment of any run, carries out its own item's mark, and that item's exchange before it
  // showed the mark to be still accurate.
  lemma WritesBelongToMarks(jobs: seq<H.Job>, run: seq<K.State<W.Outcome>>, k: nat, p: nat) returns (readback: nat)
    requires K.IsRun(H.JobFits, jobs, run) && k < |run|
    requires p < |run[k].log| && IsWrite(run[k].log[p].exchange.request)
    ensures var log := run[k].log;
            var i := log[p].owner;
            && i < |jobs| && H.CarriesOut(log[p].exchange.request, jobs[i].mark)
            && K.IsPrevious(log, readback, p, i) && H.StillAccurate(log[readback].exchange, jobs[i].mark)
  {
    K.RunInvariant(H.JobFits, jobs, run, k);
    var log := run[k].log;
    var i := log[p].owner;
    K.OwnAt(log, p);
    var at := |K.Own(log[..p], i)|;
    var outcome, whole := K.WholeOf(H.JobFits, jobs, run[k], i);
    assert whole[at] == log[p].exchange;
    H.MarkGuarded(jobs[i], outcome, whole, at);
    readback := K.Previous(log, p, i);
    assert whole[at - 1] == log[readback].exchange;
  }

  // A mark's item that is over reports soundly on its own exchanges, and these are a whole path of its task.
  lemma MarkReports(jobs: seq<H.Job>, run: seq<K.State<W.Outcome>>, k: nat, i: nat, batch: nat)
    returns (calls: seq<M.R.Call>)
    requires K.IsRun(H.JobFits, jobs, run) && k < |run| && i < |jobs| == |run[k].results| && run[k].results[i].Some?
    ensures var own, outcome := K.Own(run[k].log, i), run[k].results[i].value;
            && (H.OpOf(jobs[i].mark).Some? ==> W.ItemSound(H.OpOf(jobs[i].mark).value, outcome, own))
            && (H.OpOf(jobs[i].mark).None? ==> own == [])
            && M.WholePath(jobs[i].mark, batch, calls, own)
  {
    K.RunInvariant(H.JobFits, jobs, run, k);
    var own, outcome := K.Own(run[k].log, i), run[k].results[i].value;
    assert K.ItemOk(H.JobFits, jobs, run[k], i);
    if H.OpOf(jobs[i].mark).Some? {
      W.ItemIsSound(H.OpOf(jobs[i].mark).value, jobs[i].admitted, outcome, own);
    }
    calls := M.ItemRefinesTask(jobs[i], outcome, own, batch);
  }

  // --- Lookups ------------------------------------------------------------------------------------

  // Resolving a set of drafts writes nothing, and a draft's message was shown to the draft's own item.
  lemma LookupsShow(jobs: seq<H.Lookup>, run: seq<K.State<H.Found>>, k: nat)
    requires K.IsRun(H.LookupFits, jobs, run) && k < |run|
    ensures |run[k].results| == |jobs|
    ensures forall p | 0 <= p < |run[k].log| :: !IsWrite(run[k].log[p].exchange.request)
    ensures forall i | 0 <= i < |jobs| && run[k].results[i].Some? && run[k].results[i].value.Ok? ::
              ShownTo(jobs[i].draftId, run[k].results[i].value.value, K.Own(run[k].log, i))
  {
    K.RunInvariant(H.LookupFits, jobs, run, k);
    forall p | 0 <= p < |run[k].log| ensures !IsWrite(run[k].log[p].exchange.request) {
      var i := run[k].log[p].owner;
      K.OwnAt(run[k].log, p);
      var r, whole := K.WholeOf(H.LookupFits, jobs, run[k], i);
      assert whole[|K.Own(run[k].log[..p], i)|].request == GetDraft(jobs[i].draftId);
    }
    forall i | 0 <= i < |jobs| && run[k].results[i].Some? && run[k].results[i].value.Ok?
      ensures ShownTo(jobs[i].draftId, run[k].results[i].value.value, K.Own(run[k].log, i))
    {
      assert K.ItemOk(H.LookupFits, jobs, run[k], i);
      var own := K.Own(run[k].log, i);
      RevisionRead(own[|own| - 1].answer, jobs[i].draftId);
    }
  }

  // The last of these exchanges is a read of the draft that names the message.
  predicate ShownTo(draftId: string, messageId: string, ex: seq<Exchange>) {
    && ex != [] && ex[|ex| - 1].request == GetDraft(draftId)
    && DraftShown(ex[|ex| - 1].answer, draftId, messageId)
  }
}
