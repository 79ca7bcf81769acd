// The two parallel read phases of a batch write (src/gmail/client/bulk.rs): however their workers interleave, the
// phase is the one that BatchModify makes in input order, up to the order of its exchanges.
module BatchPhases {
  import opened Wrappers
  import opened ProviderCalls
  import K = Workers

  // One read of a message's labels, and its answer.
  ghost predicate ReadFits(id: string, a: Answer, ex: seq<Exchange>) {
    ex == [Exchange(GetMessageLabels(id), a)]
  }

  function InputOrder(ids: seq<string>, answers: seq<Answer>): seq<Exchange>
    requires |answers| == |ids|
  {
    seq(|ids|, i requires 0 <= i < |ids| => Exchange(GetMessageLabels(ids[i]), answers[i]))
  }

  // A phase that is over made the reads it would have made in input order, in some other order: every item made its
  // own one and no more, every entry of the log is one of these, and the answers are those the items were given.
  lemma PhaseIsInputOrder(ids: seq<string>, run: seq<K.State<Answer>>, k: nat)
    requires K.IsRun(ReadFits, ids, run) && k < |run| && K.Over(run[k])
    ensures |run[k].results| == |ids|
    ensures var log, order := run[k].log, InputOrder(ids, K.Values(run[k]));
            && (forall i | 0 <= i < |ids| :: K.Own(log, i) == [order[i]])
            && (forall p | 0 <= p < |log| :: log[p].owner < |ids| && log[p].exchange == order[log[p].owner])
  {
    K.RunInvariant(ReadFits, ids, run, k);
    var log, order := run[k].log, InputOrder(ids, K.Values(run[k]));
    forall i | 0 <= i < |ids| ensures K.Own(log, i) == [order[i]] {
      assert K.ItemOk(ReadFits, ids, run[k], i);
    }
    forall p | 0 <= p < |log| ensures log[p].owner < |ids| && log[p].exchange == order[log[p].owner] {
      K.OwnAt(log, p);
    }
  }
}
