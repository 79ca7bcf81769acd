// A consumed set of marks under every interleaving of its workers is a run of the broker: whatever the items have
// exchanged so far, finished or not, some run of MarkRuns has advanced their tasks just as far and logged, per marker,
// just these events (src/broker/handlers/bulk_drafts.rs, src/broker/handlers/bulk_deletion.rs).
module MarkInterleavings {
  import opened Wrappers
  import opened ActionMarks
  import opened ProviderCalls
  import opened MarkRefinement
  import H = MarkHandlers
  import K = Workers
  import R = MarkRuns
  import T = MarkTheorems
  import W = WriteOutcomes

  // --- One exchange of a task ---------------------------------------------------------------------

  // The attempt that a read begins.
  function AttemptOf(p: R.Progress): nat {
    if p == R.Waiting then 1 else 2
  }

  // A read begins an attempt or is a readback; a write follows the read that allowed it.
  predicate Legal(p: R.Progress, e: Exchange) {
    match p
    case Waiting => !IsWrite(e.request)
    case Refreshing => !IsWrite(e.request)
    case Checked(_) => IsWrite(e.request)
    case Done => !IsWrite(e.request)
    case _ => false
  }

  function CallsFor(m: Mark, p: R.Progress, e: Exchange): seq<R.Call> {
    match p
    case Waiting => [R.Start(true), R.Preflight(Seen(m, e.answer))]
    case Refreshing => [R.Refresh(true), R.Preflight(Seen(m, e.answer))]
    case Checked(_) => [R.Dispatch, R.Answer(Classified(e.answer))]
    case _ => []
  }

  function NextAfter(m: Mark, p: R.Progress, e: Exchange): R.Progress {
    match p
    case Checked(n) => if Is401(e.answer) then R.AfterUnauthorized(n) else R.Done
    case Done => R.Done
    case _ =>
      var n := AttemptOf(p);
      if Seen(m, e.answer) == R.Confirmation(m) then R.Checked(n)
      else if Seen(m, e.answer) == R.ReadUnauthorized then R.AfterUnauthorized(n)
      else R.Done
  }

  function EventsFor(m: Mark, p: R.Progress, e: Exchange): seq<R.Event> {
    match p
    case Checked(n) => [R.Write(m.markerId, n), R.Answered(m.markerId, n, Classified(e.answer))]
    case Done => []
    case _ => [R.Read(m.markerId, AttemptOf(p), Seen(m, e.answer))]
  }

  predicate HasOp(m: Mark) {
    H.OpOf(m).Some?
  }

  lemma ExchangePath(m: Mark, p: R.Progress, e: Exchange, batch: nat)
    requires HasOp(m) && Legal(p, e)
    ensures var t := R.Task(m, p, batch);
            && End(t, CallsFor(m, p, e)) == Some(R.Task(m, NextAfter(m, p, e), batch))
            && Left(t, CallsFor(m, p, e)) == EventsFor(m, p, e)
  {
    var t := R.Task(m, p, batch);
    if p != R.Done {
      var calls := CallsFor(m, p, e);
      var mid := Next(t, calls[0]);
      OneCall(t, calls[0]);
      OneCall(mid, calls[1]);
      PathJoin(t, [calls[0]], mid, [calls[1]]);
      assert calls == [calls[0]] + [calls[1]];
    }
  }

  // --- All exchanges of a task --------------------------------------------------------------------

  function ProgressAfter(m: Mark, ex: seq<Exchange>): R.Progress {
    if ex == [] then R.Waiting else NextAfter(m, ProgressAfter(m, ex[..|ex| - 1]), ex[|ex| - 1])
  }

  ghost predicate LegalLog(m: Mark, ex: seq<Exchange>) {
    forall k | 0 <= k < |ex| :: Legal(ProgressAfter(m, ex[..k]), ex[k])
  }

  function EventsAfter(m: Mark, ex: seq<Exchange>): seq<R.Event> {
    if ex == [] then []
    else
      var n := |ex| - 1;
      EventsAfter(m, ex[..n]) + EventsFor(m, ProgressAfter(m, ex[..n]), ex[n])
  }

  lemma OneMoreExchange(m: Mark, ex: seq<Exchange>, e: Exchange)
    ensures ProgressAfter(m, ex + [e]) == NextAfter(m, ProgressAfter(m, ex), e)
    ensures EventsAfter(m, ex + [e]) == EventsAfter(m, ex) + EventsFor(m, ProgressAfter(m, ex), e)
  {
    assert (ex + [e])[..|ex|] == ex;
  }

  lemma OneMoreLegal(m: Mark, ex: seq<Exchange>, e: Exchange)
    requires LegalLog(m, ex) && Legal(ProgressAfter(m, ex), e)
    ensures LegalLog(m, ex + [e])
  {
    forall k | 0 <= k < |ex| + 1 ensures Legal(ProgressAfter(m, (ex + [e])[..k]), (ex + [e])[k]) {
      if k < |ex| {
        assert (ex + [e])[..k] == ex[..k];
      } else {
        assert (ex + [e])[..k] == ex;
      }
    }
  }

  lemma LegalFront(m: Mark, front: seq<Exchange>, e: Exchange, rest: seq<Exchange>)
    requires LegalLog(m, front + [e] + rest)
    ensures Legal(ProgressAfter(m, front), e)
  {
    var ex := front + [e] + rest;
    assert ex[..|front|] == front && ex[|front|] == e;
  }

  // The log so far is legal, has come to that point and left those events.
  ghost predicate Ran(m: Mark, ex: seq<Exchange>, p: R.Progress, events: seq<R.Event>) {
    LegalLog(m, ex) && ProgressAfter(m, ex) == p && EventsAfter(m, ex) == events
  }

  lemma RanOneMore(m: Mark, ex: seq<Exchange>, p: R.Progress, events: seq<R.Event>, e: Exchange)
    requires Ran(m, ex, p, events) && Legal(p, e)
    ensures Ran(m, ex + [e], NextAfter(m, p, e), events + EventsFor(m, p, e))
  {
    OneMoreExchange(m, ex, e);
    OneMoreLegal(m, ex, e);
  }

  lemma WrittenRan(m: Mark, op: W.WriteOp, t: W.Try, read: seq<Exchange>, n: nat, events: seq<R.Event>)
    requires H.OpOf(m) == Some(op) && W.IsTry(op, t) && W.Written(op, t.attempt)
    requires Ran(m, read, R.Checked(n), events)
    ensures |t.attempt| == 2
    ensures Ran(m, read + ([t.attempt[1]] + t.readback), AfterTry(op, t, n),
                events + EventsFor(m, R.Checked(n), t.attempt[1]))
  {
    WrittenTry(m, op, t, n);
    var w := t.attempt[1];
    var after := events + EventsFor(m, R.Checked(n), w);
    RanOneMore(m, read, R.Checked(n), events, w);
    if t.readback == [] {
      NothingBefore([w]);
    } else {
      RanOneMore(m, read + [w], R.Done, after, t.readback[0]);
      NothingBefore(after);
      Regroup(read, [w], t.readback);
      assert t.readback == [t.readback[0]];
    }
  }

  lemma ReadRan(m: Mark, op: W.WriteOp, t: W.Try, before: seq<Exchange>, p: R.Progress, events: seq<R.Event>)
    requires H.OpOf(m) == Some(op) && W.IsTry(op, t) && Ran(m, before, p, events)
    requires p == R.Waiting || p == R.Refreshing
    ensures var e, n := t.attempt[0], AttemptOf(p);
            var now := if W.Written(op, t.attempt) then R.Checked(n) else AfterTry(op, t, n);
            Ran(m, before + [e], now, events + [R.Read(m.markerId, n, Seen(m, e.answer))])
  {
    SeenFacts(m, op, t.attempt[0].answer);
    RanOneMore(m, before, p, events, t.attempt[0]);
  }

  lemma TryParts(m: Mark, op: W.WriteOp, t: W.Try, n: nat)
    requires H.OpOf(m) == Some(op) && W.IsTry(op, t)
    ensures var read := [R.Read(m.markerId, n, Seen(m, t.attempt[0].answer))];
            if W.Written(op, t.attempt) then
              && |t.attempt| == 2 && W.Log(t) == [t.attempt[0]] + ([t.attempt[1]] + t.readback)
              && TryEvents(m, op, t, n) == read + EventsFor(m, R.Checked(n), t.attempt[1])
            else W.Log(t) == [t.attempt[0]] && TryEvents(m, op, t, n) == read
  {
    if W.Written(op, t.attempt) {
      WrittenTry(m, op, t, n);
    }
  }

  // A try runs from the point where it begins to the point that its task is at afterwards.
  lemma TryRan(m: Mark, op: W.WriteOp, t: W.Try, before: seq<Exchange>, p: R.Progress, events: seq<R.Event>)
    requires H.OpOf(m) == Some(op) && W.IsTry(op, t) && Ran(m, before, p, events)
    requires p == R.Waiting || p == R.Refreshing
    ensures Ran(m, before + W.Log(t), AfterTry(op, t, AttemptOf(p)), events + TryEvents(m, op, t, AttemptOf(p)))
  {
    var n, e := AttemptOf(p), t.attempt[0];
    var read := [R.Read(m.markerId, n, Seen(m, e.answer))];
    ReadRan(m, op, t, before, p, events);
    TryParts(m, op, t, n);
    if W.Written(op, t.attempt) {
      WrittenRan(m, op, t, before + [e], n, events + read);
      Regroup(before, [e], [t.attempt[1]] + t.readback);
      Regroup(events, read, EventsFor(m, R.Checked(n), t.attempt[1]));
    }
  }

  // What a whole item sends is legal, leaves its task at a point from which it can end, and its events are those that
  // ItemRefinesTask speaks of.
  lemma JobRan(job: H.Job, r: W.Outcome, ex: seq<Exchange>)
    requires H.JobFits(job, r, ex)
    ensures LegalLog(job.mark, ex) && EventsAfter(job.mark, ex) == Events(job.mark, ex, 1, false)
    ensures ProgressAfter(job.mark, ex) in {R.Waiting, R.Refreshing, R.Done}
    ensures ex != [] ==> HasOp(job.mark)
  {
    var m, op := job.mark, H.OpOf(job.mark);
    NothingRan(m);
    if op.Some? {
      var tries :| W.TriesFit(op.value, job.admitted, r, tries) && ex == W.Logs(tries);
      W.NumberOfTries(op.value, job.admitted, r, tries);
      if |tries| == 1 {
        assert tries == [tries[0]];
        OneTryCases(op.value, job.admitted, r, tries[0]);
        W.LogsOfOne(tries[0]);
        OneTryRan(m, op.value, tries[0]);
      } else if |tries| == 2 {
        assert tries == [tries[0], tries[1]];
        TwoTryCases(op.value, job.admitted, r, tries[0], tries[1]);
        W.LogsOfTwo(tries[0], tries[1]);
        TwoTriesRan(m, op.value, tries[0], tries[1]);
      }
    }
  }

  lemma NothingRan(m: Mark)
    ensures Ran(m, [], R.Waiting, [])
  {
  }

  lemma NothingBefore<X>(a: seq<X>)
    ensures [] + a == a == a + []
  {
  }

  lemma OneTryRan(m: Mark, op: W.WriteOp, one: W.Try)
    requires H.OpOf(m) == Some(op) && W.IsTry(op, one)
    ensures Ran(m, W.Log(one), AfterTry(op, one, 1), TryEvents(m, op, one, 1))
    ensures Events(m, W.Log(one), 1, false) == TryEvents(m, op, one, 1)
  {
    NothingRan(m);
    TryRan(m, op, one, [], R.Waiting, []);
    EventsOfTry(m, op, one, 1, []);
    NothingBefore(W.Log(one));
    NothingBefore(TryEvents(m, op, one, 1));
  }

  lemma TwoTriesRan(m: Mark, op: W.WriteOp, one: W.Try, two: W.Try)
    requires H.OpOf(m) == Some(op) && W.IsTry(op, one) && W.IsTry(op, two) && W.Unauthorized(op, one.attempt)
    ensures var ex := W.Log(one) + W.Log(two);
            Ran(m, ex, AfterTry(op, two, 2), Events(m, ex, 1, false))
  {
    OneTryRan(m, op, one);
    TryRan(m, op, two, W.Log(one), R.Refreshing, TryEvents(m, op, one, 1));
    EventsOfTry(m, op, one, 1, W.Log(two));
    EventsOfTry(m, op, two, 2, []);
    NothingBefore(W.Log(two));
    NothingBefore(TryEvents(m, op, two, 2));
  }

  // --- The broker's run beside the workers --------------------------------------------------------

  // The jobs of one consumed set, and the tasks that hold their marks.
  datatype Team = Team(jobs: seq<H.Job>, tasks: seq<nat>)

  ghost predicate WaitsFor(s: R.State, q: Team, i: nat) {
    && i < |q.jobs| && i < |q.tasks| && q.tasks[i] in s.tasks
    && s.tasks[q.tasks[i]].mark == q.jobs[i].mark && s.tasks[q.tasks[i]].progress == R.Waiting
  }

  ghost predicate Assigned(s: R.State, q: Team) {
    && |q.tasks| == |q.jobs| && NoRepeats(q.tasks)
    && (forall i, j | 0 <= i < j < |q.jobs| :: q.jobs[i].mark.markerId != q.jobs[j].mark.markerId)
    && (forall i {:trigger WaitsFor(s, q, i)} | 0 <= i < |q.jobs| :: WaitsFor(s, q, i))
  }

  // How far item i has brought its task.
  function Reached(q: Team, w: K.State<W.Outcome>, i: nat): R.Progress
    requires i < |q.jobs| && i < |w.results|
  {
    if w.results[i].Some? then R.Done else ProgressAfter(q.jobs[i].mark, K.Own(w.log, i))
  }

  // Task i has come as far as its item, and the marker's log has grown by the events of the item's exchanges.
  ghost predicate MirrorsItem(s: R.State, z: R.State, q: Team, w: K.State<W.Outcome>, i: nat)
    requires Assigned(s, q)
  {
    && i < |q.jobs| && i < |w.results|
    && (var j, m, own := q.tasks[i], q.jobs[i].mark, K.Own(w.log, i);
        && j in s.tasks && j in z.tasks && z.tasks[j] == s.tasks[j].(progress := Reached(q, w, i))
        && T.Project(z.log, m.markerId) == T.Project(s.log, m.markerId) + EventsAfter(m, own))
  }

  ghost predicate IsTeamTask(q: Team, j: nat) {
    j in q.tasks
  }

  ghost predicate IsTeamMarker(q: Team, id: string) {
    exists i | 0 <= i < |q.jobs| :: q.jobs[i].mark.markerId == id
  }

  // Nothing else has changed.
  ghost predicate LeavesRest(s: R.State, z: R.State, q: Team) {
    && z == s.(tasks := z.tasks, log := z.log) && z.tasks.Keys == s.tasks.Keys
    && (forall j | j in s.tasks && !IsTeamTask(q, j) :: z.tasks[j] == s.tasks[j])
    && (forall id | !IsTeamMarker(q, id) :: T.Project(z.log, id) == T.Project(s.log, id))
  }

  ghost predicate Mirrors(s: R.State, z: R.State, q: Team, w: K.State<W.Outcome>) {
    && Assigned(s, q) && |w.results| == |q.jobs| && LeavesRest(s, z, q)
    && (forall i {:trigger MirrorsItem(s, z, q, w, i)} | 0 <= i < |q.jobs| :: MirrorsItem(s, z, q, w, i))
  }

  ghost predicate AllOf(events: seq<R.Event>, marker: string) {
    forall k | 0 <= k < |events| :: events[k].marker == marker
  }

  lemma {:induction false} ProjectForeign(log: seq<R.Event>, events: seq<R.Event>, marker: string, id: string)
    requires AllOf(events, marker) && id != marker
    ensures T.Project(log + events, id) == T.Project(log, id)
    decreases |events|
  {
    if events == [] {
      NothingBefore(log);
    } else {
      var front, e := events[..|events| - 1], events[|events| - 1];
      ProjectForeign(log, front, marker, id);
      OneEvent(log, front, e, id);
      assert events == front + [e];
      NothingBefore(T.Project(log, id));
    }
  }

  lemma OneEvent(log: seq<R.Event>, front: seq<R.Event>, e: R.Event, id: string)
    ensures T.Project(log + (front + [e]), id) ==
            T.Project(log + front, id) + if e.marker == id then [e] else []
  {
    Regroup(log, front, [e]);
    T.ProjectAppend(log + front, e, id);
  }

  lemma {:induction false} ProjectOwn(log: seq<R.Event>, events: seq<R.Event>, marker: string)
    requires AllOf(events, marker)
    ensures T.Project(log + events, marker) == T.Project(log, marker) + events
    decreases |events|
  {
    if events == [] {
      NothingBefore(log);
      NothingBefore(T.Project(log, marker));
    } else {
      var front, e := events[..|events| - 1], events[|events| - 1];
      ProjectOwn(log, front, marker);
      OneEvent(log, front, e, marker);
      assert events == front + [e];
      Regroup(T.Project(log, marker), front, [e]);
    }
  }

  lemma MirrorsStart(s: R.State, q: Team)
    requires Assigned(s, q)
    ensures Mirrors(s, s, q, K.Fresh(|q.jobs|))
  {
    forall i | 0 <= i < |q.jobs| ensures MirrorsItem(s, s, q, K.Fresh(|q.jobs|), i) {
      assert WaitsFor(s, q, i);
      NothingBefore(T.Project(s.log, q.jobs[i].mark.markerId));
    }
  }

  // What one item's calls change: its own task, and its own marker's log.
  ghost predicate Advances(z: R.State, y: R.State, j: nat, p: R.Progress, events: seq<R.Event>)
    requires j in z.tasks
  {
    y == z.(tasks := z.tasks[j := z.tasks[j].(progress := p)], log := z.log + events)
  }

  lemma RestStays(s: R.State, z: R.State, y: R.State, q: Team, i: nat, p: R.Progress, events: seq<R.Event>)
    requires Assigned(s, q) && LeavesRest(s, z, q) && i < |q.jobs| && q.tasks[i] in z.tasks
    requires Advances(z, y, q.tasks[i], p, events)
    requires AllOf(events, q.jobs[i].mark.markerId)
    ensures LeavesRest(s, y, q)
  {
    assert IsTeamTask(q, q.tasks[i]) && IsTeamMarker(q, q.jobs[i].mark.markerId);
    forall id | !IsTeamMarker(q, id) ensures T.Project(y.log, id) == T.Project(s.log, id) {
      ProjectForeign(z.log, events, q.jobs[i].mark.markerId, id);
    }
  }

  // Another item's task and log are as they were.
  lemma OtherStays(
    s: R.State, z: R.State, y: R.State, q: Team, w: K.State<W.Outcome>, x: K.State<W.Outcome>, i: nat, j: nat,
    p: R.Progress, events: seq<R.Event>)
    requires Mirrors(s, z, q, w) && i < |q.jobs| && j < |q.jobs| && i != j && q.tasks[i] in z.tasks
    requires Advances(z, y, q.tasks[i], p, events)
    requires AllOf(events, q.jobs[i].mark.markerId)
    requires |x.results| == |w.results| && x.results[j] == w.results[j] && K.Own(x.log, j) == K.Own(w.log, j)
    ensures MirrorsItem(s, y, q, x, j)
  {
    assert MirrorsItem(s, z, q, w, j);
    var a, b := if i < j then i else j, if i < j then j else i;
    assert q.tasks[a] != q.tasks[b] && q.jobs[a].mark.markerId != q.jobs[b].mark.markerId;
    ProjectForeign(z.log, events, q.jobs[i].mark.markerId, q.jobs[j].mark.markerId);
  }

  // The item itself: its task has moved on, and its events are behind those it had.
  lemma OwnAdvances(
    s: R.State, z: R.State, y: R.State, q: Team, w: K.State<W.Outcome>, x: K.State<W.Outcome>, i: nat,
    events: seq<R.Event>)
    requires Mirrors(s, z, q, w) && i < |q.jobs| && q.tasks[i] in z.tasks && |x.results| == |w.results|
    requires Advances(z, y, q.tasks[i], Reached(q, x, i), events)
    requires AllOf(events, q.jobs[i].mark.markerId)
    requires EventsAfter(q.jobs[i].mark, K.Own(x.log, i)) == EventsAfter(q.jobs[i].mark, K.Own(w.log, i)) + events
    ensures MirrorsItem(s, y, q, x, i)
  {
    assert MirrorsItem(s, z, q, w, i);
    var id := q.jobs[i].mark.markerId;
    ProjectOwn(z.log, events, id);
    Regroup(T.Project(s.log, id), EventsAfter(q.jobs[i].mark, K.Own(w.log, i)), events);
  }

  // One item moves, and the broker's run with it.
  lemma MirrorsOn(
    s: R.State, z: R.State, y: R.State, q: Team, w: K.State<W.Outcome>, x: K.State<W.Outcome>, i: nat,
    events: seq<R.Event>)
    requires Mirrors(s, z, q, w) && i < |q.jobs| && q.tasks[i] in z.tasks && |x.results| == |w.results|
    requires forall j | 0 <= j < |q.jobs| && j != i ::
               x.results[j] == w.results[j] && K.Own(x.log, j) == K.Own(w.log, j)
    requires Advances(z, y, q.tasks[i], Reached(q, x, i), events)
    requires AllOf(events, q.jobs[i].mark.markerId)
    requires EventsAfter(q.jobs[i].mark, K.Own(x.log, i)) == EventsAfter(q.jobs[i].mark, K.Own(w.log, i)) + events
    ensures Mirrors(s, y, q, x)
  {
    RestStays(s, z, y, q, i, Reached(q, x, i), events);
    forall j | 0 <= j < |q.jobs| ensures MirrorsItem(s, y, q, x, j) {
      if j == i {
        OwnAdvances(s, z, y, q, w, x, i, events);
      } else {
        OtherStays(s, z, y, q, w, x, i, j, Reached(q, x, i), events);
      }
    }
  }

  // --- Every step of the workers ------------------------------------------------------------------

  lemma EventsAreOwn(m: Mark, p: R.Progress, e: Exchange)
    ensures AllOf(EventsFor(m, p, e), m.markerId)
  {
  }

  // What an item that is not over has exchanged can be gone on with only legally.
  lemma NextIsLegal(job: H.Job, own: seq<Exchange>, e: Exchange)
    requires K.Partial(H.JobFits, job, own + [e])
    ensures HasOp(job.mark) && Legal(ProgressAfter(job.mark, own), e)
  {
    var r, rest :| H.JobFits(job, r, own + [e] + rest);
    JobRan(job, r, own + [e] + rest);
    LegalFront(job.mark, own, e, rest);
  }

  // How a run of the broker can go on beside one step of the workers.
  lemma ExchangeMirrored(
    states: seq<R.State>, actions: seq<R.Action>, s: R.State, q: Team, w: K.State<W.Outcome>, x: K.State<W.Outcome>,
    i: nat, e: Exchange)
    returns (longer: seq<R.State>, more: seq<R.Action>)
    requires R.IsRun(states, actions) && Mirrors(s, states[|actions|], q, w)
    requires K.Exchanges(H.JobFits, q.jobs, w, x, i, e)
    ensures R.IsRun(longer, more) && states <= longer && Mirrors(s, longer[|more|], q, x)
  {
    var z, m, own := states[|actions|], q.jobs[i].mark, K.Own(w.log, i);
    assert MirrorsItem(s, z, q, w, i) && WaitsFor(s, q, i);
    NextIsLegal(q.jobs[i], own, e);
    var p := ProgressAfter(m, own);
    var t := z.tasks[q.tasks[i]];
    ExchangePath(m, p, e, t.batch);
    OneMoreExchange(m, own, e);
    EventsAreOwn(m, p, e);
    var last := t.(progress := NextAfter(m, p, e));
    longer, more := PathContinuesRun(states, actions, q.tasks[i], CallsFor(m, p, e), last);
    forall j | 0 <= j < |q.jobs| ensures K.Own(x.log, j) == K.Own(w.log, j) + if j == i then [e] else [] {
      K.OwnAppend(w.log, K.Entry(i, e), j);
    }
    forall j | 0 <= j < |q.jobs| && j != i ensures K.Own(x.log, j) == K.Own(w.log, j) {
      NothingBefore(K.Own(w.log, j));
    }
    MirrorsOn(s, z, longer[|more|], q, w, x, i, EventsFor(m, p, e));
  }

  // The call that ends a task at such a point.
  function LastCalls(p: R.Progress): seq<R.Call> {
    match p
    case Waiting => [R.Start(false)]
    case Refreshing => [R.Refresh(false)]
    case _ => []
  }

  lemma LastPath(t: R.Task)
    requires t.progress in {R.Waiting, R.Refreshing, R.Done}
    ensures End(t, LastCalls(t.progress)) == Some(t.(progress := R.Done)) && Left(t, LastCalls(t.progress)) == []
  {
    if t.progress == R.Waiting {
      OneCall(t, R.Start(false));
    } else if t.progress == R.Refreshing {
      OneCall(t, R.Refresh(false));
    }
  }

  lemma EndMirrored(
    states: seq<R.State>, actions: seq<R.Action>, s: R.State, q: Team, w: K.State<W.Outcome>, x: K.State<W.Outcome>,
    i: nat, r: W.Outcome)
    returns (longer: seq<R.State>, more: seq<R.Action>)
    requires R.IsRun(states, actions) && Mirrors(s, states[|actions|], q, w)
    requires K.Ends(H.JobFits, q.jobs, w, x, i, r)
    ensures R.IsRun(longer, more) && states <= longer && Mirrors(s, longer[|more|], q, x)
  {
    var z, own := states[|actions|], K.Own(w.log, i);
    assert MirrorsItem(s, z, q, w, i) && WaitsFor(s, q, i);
    JobRan(q.jobs[i], r, own);
    var t := z.tasks[q.tasks[i]];
    LastPath(t);
    longer, more := PathContinuesRun(states, actions, q.tasks[i], LastCalls(t.progress), t.(progress := R.Done));
    NothingBefore(EventsAfter(q.jobs[i].mark, own));
    MirrorsOn(s, z, longer[|more|], q, w, x, i, []);
  }

  // Every run of the workers over a team of waiting tasks, at every moment of it, is mirrored by a run of the broker:
  // each task has come exactly as far as its item, each marker's log has grown by exactly the events of its item's
  // exchanges, and nothing else has changed.
  lemma {:induction false} WorkersAreMirrored(
    states: seq<R.State>, actions: seq<R.Action>, q: Team, run: seq<K.State<W.Outcome>>, k: nat)
    returns (longer: seq<R.State>, more: seq<R.Action>)
    requires R.IsRun(states, actions) && Assigned(states[|actions|], q)
    requires K.IsRun(H.JobFits, q.jobs, run) && k < |run|
    ensures R.IsRun(longer, more) && states <= longer
    ensures Mirrors(states[|actions|], longer[|more|], q, run[k])
  {
    if k == 0 {
      longer, more := states, actions;
      MirrorsStart(states[|actions|], q);
    } else {
      var front, before := WorkersAreMirrored(states, actions, q, run, k - 1);
      var s, w, x := states[|actions|], run[k - 1], run[k];
      assert K.Step(H.JobFits, q.jobs, w, x);
      if i, e :| K.Exchanges(H.JobFits, q.jobs, w, x, i, e) {
        longer, more := ExchangeMirrored(front, before, s, q, w, x, i, e);
      } else {
        var i, r :| K.Ends(H.JobFits, q.jobs, w, x, i, r);
        longer, more := EndMirrored(front, before, s, q, w, x, i, r);
      }
    }
  }

  // --- The set a handler has consumed -------------------------------------------------------------

  function TeamOf(first: nat, marks: seq<Mark>, admitted: seq<W.Admittance>): Team
    requires |admitted| == |marks|
  {
    Team(H.Jobs(marks, admitted), seq(|marks|, i requires 0 <= i < |marks| => first + i))
  }

  lemma TeamWaits(
    s: R.State, z: R.State, ids: seq<string>, subject: string, kind: Kind, taken: seq<Mark>,
    admitted: seq<W.Admittance>, i: nat)
    requires R.MarksOk(s) && R.BeginsTo(s, z, ids, subject, kind, taken) && |admitted| == |taken| && i < |ids|
    ensures WaitsFor(z, TeamOf(s.nextTask, taken, admitted), i)
    ensures TeamOf(s.nextTask, taken, admitted).jobs[i].mark.markerId == ids[i]
  {
    R.BegunIsNew(s, z, ids, subject, kind, taken, i);
    assert z.tasks[s.nextTask + i] == R.TaskOf(s.nextTask, taken, s.nextTask + i);
  }

  // The tasks that a successful consumption starts are such a team, whatever its items meet.
  lemma ConsumedTeam(
    s: R.State, z: R.State, ids: seq<string>, subject: string, kind: Kind, taken: seq<Mark>,
    admitted: seq<W.Admittance>)
    requires R.MarksOk(s) && R.BeginsTo(s, z, ids, subject, kind, taken) && |admitted| == |taken|
    ensures Assigned(z, TeamOf(s.nextTask, taken, admitted))
  {
    var q := TeamOf(s.nextTask, taken, admitted);
    forall i | 0 <= i < |q.jobs| ensures WaitsFor(z, q, i) {
      TeamWaits(s, z, ids, subject, kind, taken, admitted, i);
    }
    forall i, j | 0 <= i < j < |q.jobs| ensures q.jobs[i].mark.markerId != q.jobs[j].mark.markerId {
      TeamWaits(s, z, ids, subject, kind, taken, admitted, i);
      TeamWaits(s, z, ids, subject, kind, taken, admitted, j);
    }
  }

  // So a handler that consumes a set of marks and lets its workers act on them, in whatever interleaving and up to
  // whatever moment, continues any run of the broker.
  lemma HandlerIsMirrored(
    states: seq<R.State>, actions: seq<R.Action>, ids: seq<string>, subject: string, kind: Kind, taken: seq<Mark>,
    admitted: seq<W.Admittance>, run: seq<K.State<W.Outcome>>, k: nat)
    returns (longer: seq<R.State>, more: seq<R.Action>)
    requires R.IsRun(states, actions) && |admitted| == |taken|
    requires R.BeginsTo(states[|actions|], R.Step(states[|actions|], R.Begin(ids, subject, kind)),
                        ids, subject, kind, taken)
    requires K.IsRun(H.JobFits, H.Jobs(taken, admitted), run) && k < |run|
    ensures R.IsRun(longer, more) && states <= longer
    ensures var s := states[|actions|];
            Mirrors(R.Step(s, R.Begin(ids, subject, kind)), longer[|more|], TeamOf(s.nextTask, taken, admitted), run[k])
  {
    var s, a := states[|actions|], R.Begin(ids, subject, kind);
    T.RunInvariant(states, actions, |actions|);
    R.RunExtends(states, actions, a, R.Step(s, a));
    ConsumedTeam(s, R.Step(s, a), ids, subject, kind, taken, admitted);
    var q := TeamOf(s.nextTask, taken, admitted);
    longer, more := WorkersAreMirrored(states + [R.Step(s, a)], actions + [a], q, run, k);
  }
}
