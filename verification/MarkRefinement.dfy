// The item code of a consumed mark refines a task of MarkRuns: whatever RunMark sends for a mark, against whatever
// provider, is the log of a task that goes from Waiting to Done, event for event.
module MarkRefinement {
  import opened Wrappers
  import opened ActionMarks
  import opened ProviderCalls
  import H = MarkHandlers
  import R = MarkRuns
  import T = MarkTheorems
  import TokenRetry
  import W = WriteOutcomes

  // --- Exchanges as events ------------------------------------------------------------------------

  function SeenWhenUnread(e: Error): R.ReadAnswer {
    if IsUnauthorized(e) then R.ReadUnauthorized else R.ReadFailed
  }

  // What the read before the write shows.
  function Seen(m: Mark, a: Answer): R.ReadAnswer {
    if m.kind == TrashMessage then
      var labels := ReadLabels(a, m.resource.messageId);
      if labels.Err? then SeenWhenUnread(labels.error) else if "DRAFT" in labels.value then R.IsDraft else R.NotDraft
    else if m.resource.draftId.None? then R.ReadFailed
    else
      var revision := ReadRevision(a, m.resource.draftId.value);
      if revision.Err? then SeenWhenUnread(revision.error) else R.Revision(revision.value)
  }

  function Classified(a: Answer): R.WriteAnswer {
    if Is401(a) then R.Unauthorized
    else if IsRefusal(a) then R.Rejected
    else if IsSuccess(a) then R.Accepted
    else R.Uncertain
  }

  // A write is taken for rejected exactly if it was answered 4xx, unauthorized if that was a 401, accepted if 2xx.
  lemma ClassifiedExactly(a: Answer)
    ensures Classified(a) ==
            match a
            case Lost => R.Uncertain
            case Reply(status, _) =>
              if status == 401 then R.Unauthorized
              else if status / 100 == 4 then R.Rejected
              else if status / 100 == 2 then R.Accepted
              else R.Uncertain
  {
  }

  // The events of a mark's exchanges, from its n-th attempt on. Every write is one, with its answer, and so is every
  // read but a readback: a read after a write that was not answered 401.
  function Events(m: Mark, ex: seq<Exchange>, n: nat, written: bool): seq<R.Event> {
    if ex == [] then []
    else
      var e, rest, id := ex[0], ex[1..], m.markerId;
      if IsWrite(e.request) then
        [R.Write(id, n), R.Answered(id, n, Classified(e.answer))] +
        (if Is401(e.answer) then Events(m, rest, n + 1, false) else Events(m, rest, n, true))
      else if written then Events(m, rest, n, true)
      else [R.Read(id, n, Seen(m, e.answer))] + Events(m, rest, if Is401(e.answer) then n + 1 else n, false)
  }

  lemma ReadEvent(m: Mark, e: Exchange, rest: seq<Exchange>, n: nat)
    requires !IsWrite(e.request)
    ensures Events(m, [e] + rest, n, false) ==
            [R.Read(m.markerId, n, Seen(m, e.answer))] + Events(m, rest, if Is401(e.answer) then n + 1 else n, false)
    ensures Events(m, [e] + rest, n, true) == Events(m, rest, n, true)
  {
    assert ([e] + rest)[1..] == rest;
  }

  lemma WriteEvents(m: Mark, e: Exchange, rest: seq<Exchange>, n: nat)
    requires IsWrite(e.request)
    ensures Events(m, [e] + rest, n, false) ==
            [R.Write(m.markerId, n), R.Answered(m.markerId, n, Classified(e.answer))] +
            (if Is401(e.answer) then Events(m, rest, n + 1, false) else Events(m, rest, n, true))
  {
    assert ([e] + rest)[1..] == rest;
  }

  // The read permits the write exactly when it shows what its task asks for, and is answered 401 exactly when
  // its task sees that.
  lemma SeenFacts(m: Mark, op: W.WriteOp, a: Answer)
    requires H.OpOf(m) == Some(op)
    ensures W.NeedsPermit(op)
    ensures W.Permission(op, a).Ok? <==> Seen(m, a) == R.Confirmation(m)
    ensures W.Permission(op, a) == Err(Status(401)) <==> Seen(m, a) == R.ReadUnauthorized
    ensures Seen(m, a) == R.ReadUnauthorized <==> Is401(a)
  {
  }

  // --- Paths of a task ----------------------------------------------------------------------------

  function Next(t: R.Task, c: R.Call): R.Task
    requires R.CallEnabled(t, c)
  {
    t.(progress := R.NextProgress(t, c))
  }

  // Where the calls take a task, if each is enabled when it comes.
  function End(t: R.Task, calls: seq<R.Call>): Option<R.Task>
    decreases |calls|
  {
    if calls == [] then Some(t)
    else if !R.CallEnabled(t, calls[0]) then None
    else End(Next(t, calls[0]), calls[1..])
  }

  // The events they leave.
  function Left(t: R.Task, calls: seq<R.Call>): seq<R.Event>
    decreases |calls|
  {
    if calls == [] || !R.CallEnabled(t, calls[0]) then []
    else R.NextEvents(t, calls[0]) + Left(Next(t, calls[0]), calls[1..])
  }

  lemma OneCall(t: R.Task, c: R.Call)
    requires R.CallEnabled(t, c)
    ensures End(t, [c]) == Some(Next(t, c)) && Left(t, [c]) == R.NextEvents(t, c)
  {
    assert R.NextEvents(t, c) + [] == R.NextEvents(t, c);
  }

  lemma {:induction false} EndJoin(t: R.Task, front: seq<R.Call>, mid: R.Task, back: seq<R.Call>)
    requires End(t, front) == Some(mid)
    ensures End(t, front + back) == End(mid, back)
    decreases |front|
  {
    if front == [] {
      assert front + back == back;
    } else {
      EndJoin(Next(t, front[0]), front[1..], mid, back);
      assert (front + back)[1..] == front[1..] + back;
    }
  }

  lemma Regroup<X>(a: seq<X>, b: seq<X>, c: seq<X>)
    ensures (a + b) + c == a + (b + c)
  {
  }

  lemma {:induction false} LeftJoin(t: R.Task, front: seq<R.Call>, mid: R.Task, back: seq<R.Call>)
    requires End(t, front) == Some(mid)
    ensures Left(t, front + back) == Left(t, front) + Left(mid, back)
    decreases |front|
  {
    if front == [] {
      assert front + back == back;
    } else {
      LeftJoin(Next(t, front[0]), front[1..], mid, back);
      assert (front + back)[1..] == front[1..] + back;
      Regroup(R.NextEvents(t, front[0]), Left(Next(t, front[0]), front[1..]), Left(mid, back));
    }
  }

  lemma PathJoin(t: R.Task, front: seq<R.Call>, mid: R.Task, back: seq<R.Call>)
    requires End(t, front) == Some(mid)
    ensures End(t, front + back) == End(mid, back)
    ensures Left(t, front + back) == Left(t, front) + Left(mid, back)
  {
    EndJoin(t, front, mid, back);
    LeftJoin(t, front, mid, back);
  }

  // What the log of a task looks like at its present point.
  ghost predicate Shaped(log: seq<R.Event>, t: R.Task) {
    T.AttemptInRange(t.progress) && T.Fits(log, t.mark.markerId, R.Confirmation(t.mark), t.progress)
  }

  lemma ShapedNext(log: seq<R.Event>, t: R.Task, c: R.Call)
    requires R.CallEnabled(t, c) && Shaped(log, t)
    ensures Shaped(log + R.NextEvents(t, c), Next(t, c))
  {
    T.CallFits(log, t, c);
    T.CallInRange(t, c);
  }

  // A path keeps that shape.
  lemma {:induction false} PathFits(t: R.Task, calls: seq<R.Call>, last: R.Task, before: seq<R.Event>)
    requires End(t, calls) == Some(last) && Shaped(before, t)
    ensures Shaped(before + Left(t, calls), last)
    decreases |calls|
  {
    if calls == [] {
      assert before + [] == before;
    } else {
      var now := R.NextEvents(t, calls[0]);
      ShapedNext(before, t, calls[0]);
      PathFits(Next(t, calls[0]), calls[1..], last, before + now);
      Regroup(before, now, Left(Next(t, calls[0]), calls[1..]));
    }
  }

  // --- One try ------------------------------------------------------------------------------------

  function TryCalls(m: Mark, op: W.WriteOp, t: W.Try): seq<R.Call>
    requires W.IsTry(op, t)
  {
    [R.Preflight(Seen(m, t.attempt[0].answer))] +
    if W.Written(op, t.attempt) then [R.Dispatch, R.Answer(Classified(W.WriteAnswer(op, t.attempt)))] else []
  }

  function TryEvents(m: Mark, op: W.WriteOp, t: W.Try, n: nat): seq<R.Event>
    requires W.IsTry(op, t)
  {
    var id := m.markerId;
    [R.Read(id, n, Seen(m, t.attempt[0].answer))] +
    if !W.Written(op, t.attempt) then []
    else [R.Write(id, n), R.Answered(id, n, Classified(W.WriteAnswer(op, t.attempt)))]
  }

  function AfterTry(op: W.WriteOp, t: W.Try, n: nat): R.Progress
    requires W.IsTry(op, t)
  {
    if W.Unauthorized(op, t.attempt) then R.AfterUnauthorized(n) else R.Done
  }

  lemma TryPath(m: Mark, op: W.WriteOp, t: W.Try, n: nat, batch: nat)
    requires H.OpOf(m) == Some(op) && W.IsTry(op, t)
    ensures var start := R.Task(m, R.Ready(n), batch);
            && End(start, TryCalls(m, op, t)) == Some(start.(progress := AfterTry(op, t, n)))
            && Left(start, TryCalls(m, op, t)) == TryEvents(m, op, t, n)
  {
    var start, seen := R.Task(m, R.Ready(n), batch), Seen(m, t.attempt[0].answer);
    SeenFacts(m, op, t.attempt[0].answer);
    OneCall(start, R.Preflight(seen));
    if W.Written(op, t.attempt) {
      var answer := Classified(W.WriteAnswer(op, t.attempt));
      WrittenTry(m, op, t, n);
      var checked, sent := R.Task(m, R.Checked(n), batch), R.Task(m, R.Sent(n), batch);
      OneCall(checked, R.Dispatch);
      OneCall(sent, R.Answer(answer));
      PathJoin(checked, [R.Dispatch], sent, [R.Answer(answer)]);
      PathJoin(start, [R.Preflight(seen)], checked, [R.Dispatch] + [R.Answer(answer)]);
      assert TryCalls(m, op, t) == [R.Preflight(seen)] + ([R.Dispatch] + [R.Answer(answer)]);
    }
  }

  // A try's exchanges are its events, and what follows it belongs to the next attempt.
  lemma EventsOfTry(m: Mark, op: W.WriteOp, t: W.Try, n: nat, rest: seq<Exchange>)
    requires H.OpOf(m) == Some(op) && W.IsTry(op, t) && (!W.Unauthorized(op, t.attempt) ==> rest == [])
    ensures Events(m, W.Log(t) + rest, n, false) ==
            TryEvents(m, op, t, n) + Events(m, rest, n + 1, false)
  {
    var e := t.attempt[0];
    SeenFacts(m, op, e.answer);
    if W.Written(op, t.attempt) {
      WrittenEvents(m, op, t, n, rest);
    } else {
      assert W.Log(t) + rest == [e] + rest;
      ReadEvent(m, e, rest, n);
    }
  }

  lemma ReadThenWrite(m: Mark, e: Exchange, w: Exchange, tail: seq<Exchange>, n: nat)
    requires !IsWrite(e.request) && !Is401(e.answer) && IsWrite(w.request)
    ensures var id := m.markerId;
            Events(m, [e] + ([w] + tail), n, false) ==
            [R.Read(id, n, Seen(m, e.answer)), R.Write(id, n), R.Answered(id, n, Classified(w.answer))] +
            (if Is401(w.answer) then Events(m, tail, n + 1, false) else Events(m, tail, n, true))
  {
    ReadEvent(m, e, [w] + tail, n);
    WriteEvents(m, w, tail, n);
  }

  lemma WrittenTry(m: Mark, op: W.WriteOp, t: W.Try, n: nat)
    requires H.OpOf(m) == Some(op) && W.IsTry(op, t) && W.Written(op, t.attempt)
    ensures |t.attempt| == 2 && !IsWrite(t.attempt[0].request) && !Is401(t.attempt[0].answer)
    ensures IsWrite(t.attempt[1].request) && (W.Unauthorized(op, t.attempt) <==> Is401(t.attempt[1].answer))
    ensures var id := m.markerId;
            TryEvents(m, op, t, n) == [R.Read(id, n, Seen(m, t.attempt[0].answer)), R.Write(id, n),
                                       R.Answered(id, n, Classified(t.attempt[1].answer))]
  {
    SeenFacts(m, op, t.attempt[0].answer);
  }

  lemma WrittenEvents(m: Mark, op: W.WriteOp, t: W.Try, n: nat, rest: seq<Exchange>)
    requires H.OpOf(m) == Some(op) && W.IsTry(op, t) && W.Written(op, t.attempt)
    requires !W.Unauthorized(op, t.attempt) ==> rest == []
    ensures Events(m, W.Log(t) + rest, n, false) ==
            TryEvents(m, op, t, n) + Events(m, rest, n + 1, false)
  {
    WrittenTry(m, op, t, n);
    ReadThenWrite(m, t.attempt[0], t.attempt[1], t.readback + rest, n);
    ReadbackEvents(m, op, t, n, rest);
    assert W.Log(t) + rest == [t.attempt[0]] + ([t.attempt[1]] + (t.readback + rest));
  }

  // A readback is no event, and a refused write has none.
  lemma ReadbackEvents(m: Mark, op: W.WriteOp, t: W.Try, n: nat, rest: seq<Exchange>)
    requires H.OpOf(m) == Some(op) && W.IsTry(op, t) && W.Written(op, t.attempt)
    requires !W.Unauthorized(op, t.attempt) ==> rest == []
    ensures if W.Unauthorized(op, t.attempt) then t.readback + rest == rest
            else Events(m, t.readback + rest, n, true) == [] == Events(m, rest, n + 1, false)
  {
    if t.readback == [] {
      assert t.readback + rest == rest;
    } else {
      assert t.readback + rest == [t.readback[0]] + [];
      ReadEvent(m, t.readback[0], [], n);
    }
  }

  // --- The whole item -----------------------------------------------------------------------------

  lemma OneTryPath(m: Mark, op: W.WriteOp, one: W.Try, refreshed: bool, batch: nat) returns (calls: seq<R.Call>)
    requires H.OpOf(m) == Some(op) && W.IsTry(op, one) && (W.Unauthorized(op, one.attempt) ==> !refreshed)
    ensures WholePath(m, batch, calls, W.Log(one))
  {
    var t, ready := R.Task(m, R.Waiting, batch), R.Task(m, R.Ready(1), batch);
    EventsOfTry(m, op, one, 1, []);
    assert W.Log(one) + [] == W.Log(one);
    OneCall(t, R.Start(true));
    TryPath(m, op, one, 1, batch);
    PathJoin(t, [R.Start(true)], ready, TryCalls(m, op, one));
    calls := [R.Start(true)] + TryCalls(m, op, one);
    if W.Unauthorized(op, one.attempt) {
      var refreshing := R.Task(m, R.Refreshing, batch);
      OneCall(refreshing, R.Refresh(false));
      PathJoin(t, calls, refreshing, [R.Refresh(false)]);
      calls := calls + [R.Refresh(false)];
    }
  }

  // The first attempt, answered 401, and the refresh that follows.
  lemma RejectedPath(m: Mark, op: W.WriteOp, one: W.Try, batch: nat) returns (calls: seq<R.Call>)
    requires H.OpOf(m) == Some(op) && W.IsTry(op, one) && W.Unauthorized(op, one.attempt)
    ensures var t := R.Task(m, R.Waiting, batch);
            End(t, calls) == Some(R.Task(m, R.Ready(2), batch)) && Left(t, calls) == TryEvents(m, op, one, 1)
  {
    var t, ready := R.Task(m, R.Waiting, batch), R.Task(m, R.Ready(1), batch);
    var refreshing := R.Task(m, R.Refreshing, batch);
    OneCall(t, R.Start(true));
    TryPath(m, op, one, 1, batch);
    PathJoin(t, [R.Start(true)], ready, TryCalls(m, op, one));
    calls := [R.Start(true)] + TryCalls(m, op, one);
    OneCall(refreshing, R.Refresh(true));
    PathJoin(t, calls, refreshing, [R.Refresh(true)]);
    calls := calls + [R.Refresh(true)];
  }

  lemma TwoTryPath(m: Mark, op: W.WriteOp, one: W.Try, two: W.Try, batch: nat) returns (calls: seq<R.Call>)
    requires H.OpOf(m) == Some(op) && W.IsTry(op, one) && W.IsTry(op, two) && W.Unauthorized(op, one.attempt)
    ensures WholePath(m, batch, calls, W.Log(one) + W.Log(two))
  {
    EventsOfTry(m, op, one, 1, W.Log(two));
    EventsOfTry(m, op, two, 2, []);
    assert W.Log(two) + [] == W.Log(two);
    calls := RejectedPath(m, op, one, batch);
    TryPath(m, op, two, 2, batch);
    PathJoin(R.Task(m, R.Waiting, batch), calls, R.Task(m, R.Ready(2), batch), TryCalls(m, op, two));
    calls := calls + TryCalls(m, op, two);
  }

  // The calls take the mark's task from Waiting to Done and leave exactly the events of the exchanges.
  ghost predicate WholePath(m: Mark, batch: nat, calls: seq<R.Call>, ex: seq<Exchange>) {
    var t := R.Task(m, R.Waiting, batch);
    End(t, calls) == Some(t.(progress := R.Done)) && Left(t, calls) == Events(m, ex, 1, false)
  }

  lemma NothingSent(m: Mark, batch: nat)
    ensures WholePath(m, batch, [R.Start(false)], [])
  {
    OneCall(R.Task(m, R.Waiting, batch), R.Start(false));
  }

  // Whatever a mark's item sends is a whole path of its task.
  lemma ItemRefinesTask(job: H.Job, outcome: W.Outcome, ex: seq<Exchange>, batch: nat) returns (calls: seq<R.Call>)
    requires H.JobFits(job, outcome, ex)
    ensures WholePath(job.mark, batch, calls, ex)
  {
    var m, op := job.mark, H.OpOf(job.mark);
    NothingSent(m, batch);
    if op.None? {
      return [R.Start(false)];
    }
    var tries :| W.TriesFit(op.value, job.admitted, outcome, tries) && ex == W.Logs(tries);
    W.NumberOfTries(op.value, job.admitted, outcome, tries);
    if tries == [] {
      calls := [R.Start(false)];
    } else if |tries| == 1 {
      assert tries == [tries[0]];
      OneTryCases(op.value, job.admitted, outcome, tries[0]);
      W.LogsOfOne(tries[0]);
      calls := OneTryPath(m, op.value, tries[0], job.admitted.tokens.refreshed, batch);
    } else {
      assert tries == [tries[0], tries[1]];
      TwoTryCases(op.value, job.admitted, outcome, tries[0], tries[1]);
      W.LogsOfTwo(tries[0], tries[1]);
      calls := TwoTryPath(m, op.value, tries[0], tries[1], batch);
    }
  }

  lemma OneTryCases(op: W.WriteOp, a: W.Admittance, outcome: W.Outcome, one: W.Try)
    requires W.TriesFit(op, a, outcome, [one])
    ensures W.IsTry(op, one) && (W.Unauthorized(op, one.attempt) ==> !a.tokens.refreshed)
  {
    assert [one][0] == one;
  }

  lemma TwoTryCases(op: W.WriteOp, a: W.Admittance, outcome: W.Outcome, one: W.Try, two: W.Try)
    requires W.TriesFit(op, a, outcome, [one, two])
    ensures W.IsTry(op, one) && W.IsTry(op, two) && W.Unauthorized(op, one.attempt)
  {
    assert [one, two][0] == one && [one, two][1] == two;
  }

  // So the log of an item has the shape of a finished task's log.
  lemma ItemLogFits(job: H.Job, outcome: W.Outcome, ex: seq<Exchange>)
    requires H.JobFits(job, outcome, ex)
    ensures T.Fits(Events(job.mark, ex, 1, false), job.mark.markerId, R.Confirmation(job.mark), R.Done)
  {
    var calls := ItemRefinesTask(job, outcome, ex, 0);
    var t := R.Task(job.mark, R.Waiting, 0);
    assert Shaped([], t);
    PathFits(t, calls, t.(progress := R.Done), []);
    assert [] + Left(t, calls) == Events(job.mark, ex, 1, false);
  }

  // --- In a run -----------------------------------------------------------------------------------

  // A path of a task that is in flight continues any run of the broker.
  lemma {:induction false} PathContinuesRun(
    states: seq<R.State>, actions: seq<R.Action>, j: nat, calls: seq<R.Call>, last: R.Task)
    returns (longer: seq<R.State>, more: seq<R.Action>)
    requires R.IsRun(states, actions) && j in states[|actions|].tasks
    requires End(states[|actions|].tasks[j], calls) == Some(last)
    ensures R.IsRun(longer, more) && states <= longer && |more| == |actions| + |calls|
    ensures var s, z := states[|actions|], longer[|more|];
            z == s.(tasks := s.tasks[j := last], log := s.log + Left(s.tasks[j], calls))
    decreases |calls|
  {
    var s := states[|actions|];
    if calls == [] {
      longer, more := states, actions;
      assert s.log + [] == s.log;
      assert s.tasks[j := last] == s.tasks;
    } else {
      var a := R.Advance(j, calls[0]);
      var z := R.Step(s, a);
      R.RunExtends(states, actions, a, z);
      longer, more := PathContinuesRun(states + [z], actions + [a], j, calls[1..], last);
      Regroup(s.log, R.NextEvents(s.tasks[j], calls[0]), Left(z.tasks[j], calls[1..]));
    }
  }
}
