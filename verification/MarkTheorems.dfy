// What holds over every interleaving of the mark handlers: exclusive execution, one use, supersession,
// and the write discipline each marker's provider log obeys.
module MarkTheorems {
  import opened Wrappers
  import opened ActionMarks
  import opened ActionMarkLaws
  import opened MarkRuns

  // --- The provider log of one marker -------------------------------------------------------------

  function MarkerOf(e: Event): string {
    e.marker
  }

  function Project(log: seq<Event>, id: string): seq<Event>
    decreases |log|
  {
    if log == [] then []
    else
      var n := |log| - 1;
      Project(log[..n], id) + (if MarkerOf(log[n]) == id then [log[n]] else [])
  }

  lemma ProjectAppend(log: seq<Event>, e: Event, id: string)
    ensures Project(log + [e], id) == Project(log, id) + (if MarkerOf(e) == id then [e] else [])
  {
    assert (log + [e])[..|log|] == log;
  }

  predicate IsWrite(t: seq<Event>, i: int) {
    0 <= i < |t| && t[i].Write?
  }

  // A 4xx answer means the write had no effect; anything else, or no answer yet, means it may have.
  predicate MayHaveEffect(t: seq<Event>, i: int) {
    && IsWrite(t, i)
    && !(i + 1 < |t| && t[i + 1].Answered? && (t[i + 1].answer == Unauthorized || t[i + 1].answer == Rejected))
  }

  // The write discipline of one marker: each write follows at once, in the same attempt, a read that
  // confirmed the captured revision; a further write only follows a 401 answer to the first; there are
  // at most two writes, and at most one of them may have had an effect.
  ghost predicate WritesGuarded(t: seq<Event>, m: Mark) {
    && (forall i | IsWrite(t, i) ::
          i > 0 && t[i - 1].Read? && t[i - 1].attempt == t[i].attempt && t[i - 1].seen == Confirmation(m))
    && (forall i, j | IsWrite(t, i) && IsWrite(t, j) && i < j ::
          i + 1 < j && t[i + 1].Answered? && t[i + 1].answer == Unauthorized)
    && (forall i, j, k | IsWrite(t, i) && IsWrite(t, j) && IsWrite(t, k) :: i == j || j == k || i == k)
    && (forall i, j | MayHaveEffect(t, i) && MayHaveEffect(t, j) :: i == j)
  }

  // --- The shape of a marker's log at each point of its task --------------------------------------

  predicate FirstRejected(t: seq<Event>, id: string, ok: ReadAnswer) {
    || t == [Read(id, 1, ReadUnauthorized)]
    || t == [Read(id, 1, ok), Write(id, 1), Answered(id, 1, Unauthorized)]
  }

  predicate AttemptStarts(t: seq<Event>, id: string, ok: ReadAnswer, n: nat) {
    (n == 1 && t == []) || (n == 2 && FirstRejected(t, id, ok))
  }

  predicate AttemptChecked(t: seq<Event>, id: string, ok: ReadAnswer, n: nat) {
    t != [] && t[|t| - 1] == Read(id, n, ok) && AttemptStarts(t[..|t| - 1], id, ok, n)
  }

  predicate AttemptSent(t: seq<Event>, id: string, ok: ReadAnswer, n: nat) {
    t != [] && t[|t| - 1] == Write(id, n) && AttemptChecked(t[..|t| - 1], id, ok, n)
  }

  predicate AttemptOver(t: seq<Event>, id: string, ok: ReadAnswer) {
    || t == []
    || FirstRejected(t, id, ok)
    || (t[|t| - 1].Read? && (AttemptStarts(t[..|t| - 1], id, ok, 1) || AttemptStarts(t[..|t| - 1], id, ok, 2)))
    || (t[|t| - 1].Answered? && (AttemptSent(t[..|t| - 1], id, ok, 1) || AttemptSent(t[..|t| - 1], id, ok, 2)))
  }

  predicate Fits(t: seq<Event>, id: string, ok: ReadAnswer, p: Progress) {
    match p
    case Waiting => t == []
    case Ready(n) => AttemptStarts(t, id, ok, n)
    case Checked(n) => AttemptChecked(t, id, ok, n)
    case Sent(n) => AttemptSent(t, id, ok, n)
    case Refreshing => FirstRejected(t, id, ok)
    case Done => AttemptOver(t, id, ok)
  }

  lemma StartIsGuarded(t: seq<Event>, id: string, m: Mark, n: nat)
    requires AttemptStarts(t, id, Confirmation(m), n)
    ensures WritesGuarded(t, m) && (forall i | MayHaveEffect(t, i) :: false)
    ensures t == [] || (!t[|t| - 1].Write? && n == 2)
  {
  }

  lemma CheckedIsGuarded(t: seq<Event>, id: string, m: Mark, n: nat)
    requires AttemptChecked(t, id, Confirmation(m), n)
    ensures WritesGuarded(t, m)
  {
    var u := t[..|t| - 1];
    StartIsGuarded(u, id, m, n);
    SameWrites(u, t, m);
  }

  // Appending a non-write whose predecessor is not a write preserves the discipline.
  lemma SameWrites(u: seq<Event>, t: seq<Event>, m: Mark)
    requires WritesGuarded(u, m) && |t| == |u| + 1 && t[..|u|] == u && !t[|u|].Write?
    ensures WritesGuarded(t, m)
  {
    assert forall i | 0 <= i < |u| :: t[i] == u[i];
    assert forall i | IsWrite(t, i) :: IsWrite(u, i);
    assert forall i | MayHaveEffect(t, i) :: MayHaveEffect(u, i);
  }

  lemma SentIsGuarded(t: seq<Event>, id: string, m: Mark, n: nat)
    requires AttemptSent(t, id, Confirmation(m), n)
    ensures WritesGuarded(t, m)
  {
    var c := t[..|t| - 1];
    var u := c[..|c| - 1];
    StartIsGuarded(u, id, m, n);
    assert t == u + [Read(id, n, Confirmation(m)), Write(id, n)];
    if n == 1 {
      assert t == [Read(id, n, Confirmation(m)), Write(id, n)];
    } else if |u| == 1 {
      assert t == [Read(id, 1, ReadUnauthorized), Read(id, n, Confirmation(m)), Write(id, n)];
    } else {
      assert t == [Read(id, 1, Confirmation(m)), Write(id, 1), Answered(id, 1, Unauthorized),
                   Read(id, n, Confirmation(m)), Write(id, n)];
    }
  }

  lemma FitsIsGuarded(t: seq<Event>, id: string, m: Mark, p: Progress)
    requires Fits(t, id, Confirmation(m), p)
    ensures WritesGuarded(t, m)
  {
    match p
    case Waiting =>
    case Ready(n) => StartIsGuarded(t, id, m, n);
    case Checked(n) => CheckedIsGuarded(t, id, m, n);
    case Sent(n) => SentIsGuarded(t, id, m, n);
    case Refreshing => StartIsGuarded(t, id, m, 2);
    case Done =>
      if t != [] && !FirstRejected(t, id, Confirmation(m)) {
        var u := t[..|t| - 1];
        if t[|t| - 1].Read? {
          var n: nat := if AttemptStarts(u, id, Confirmation(m), 1) then 1 else 2;
          StartIsGuarded(u, id, m, n);
        } else {
          var n: nat := if AttemptSent(u, id, Confirmation(m), 1) then 1 else 2;
          SentIsGuarded(u, id, m, n);
        }
        SameWrites(u, t, m);
      } else if t != [] {
        StartIsGuarded(t, id, m, 2);
      }
  }

  predicate AttemptInRange(p: Progress) {
    p.Ready? || p.Checked? || p.Sent? ==> 1 <= p.attempt <= 2
  }

  lemma PreflightFits(t: seq<Event>, k: Task, seen: ReadAnswer)
    requires k.progress.Ready? && AttemptInRange(k.progress)
    requires Fits(t, k.mark.markerId, Confirmation(k.mark), k.progress)
    ensures var c := Preflight(seen);
            Fits(t + NextEvents(k, c), k.mark.markerId, Confirmation(k.mark), NextProgress(k, c))
    ensures AttemptInRange(NextProgress(k, Preflight(seen)))
  {
    var u := t + NextEvents(k, Preflight(seen));
    assert u[..|u| - 1] == t;
  }

  lemma DispatchFits(t: seq<Event>, k: Task)
    requires k.progress.Checked? && AttemptInRange(k.progress)
    requires Fits(t, k.mark.markerId, Confirmation(k.mark), k.progress)
    ensures Fits(t + NextEvents(k, Dispatch), k.mark.markerId, Confirmation(k.mark), NextProgress(k, Dispatch))
  {
    var u := t + NextEvents(k, Dispatch);
    assert u[..|u| - 1] == t;
  }

  lemma AnswerFits(t: seq<Event>, k: Task, answer: WriteAnswer)
    requires k.progress.Sent? && AttemptInRange(k.progress)
    requires Fits(t, k.mark.markerId, Confirmation(k.mark), k.progress)
    ensures var c := Answer(answer);
            Fits(t + NextEvents(k, c), k.mark.markerId, Confirmation(k.mark), NextProgress(k, c))
  {
    var id, ok := k.mark.markerId, Confirmation(k.mark);
    var u := t + NextEvents(k, Answer(answer));
    assert u[..|u| - 1] == t;
    if k.progress.attempt == 1 && answer == Unauthorized {
      assert t[..|t| - 1] == [Read(id, 1, ok)];
      assert t == t[..|t| - 1] + [Write(id, 1)];
      assert u == [Read(id, 1, ok), Write(id, 1), Answered(id, 1, Unauthorized)];
    }
  }

  lemma CallFits(t: seq<Event>, k: Task, c: Call)
    requires CallEnabled(k, c) && AttemptInRange(k.progress)
    requires Fits(t, k.mark.markerId, Confirmation(k.mark), k.progress)
    ensures Fits(t + NextEvents(k, c), k.mark.markerId, Confirmation(k.mark), NextProgress(k, c))
  {
    match c
    case Preflight(seen) => PreflightFits(t, k, seen);
    case Dispatch => DispatchFits(t, k);
    case Answer(answer) => AnswerFits(t, k, answer);
    case _ => assert t + [] == t;
  }

  lemma CallInRange(k: Task, c: Call)
    requires CallEnabled(k, c) && AttemptInRange(k.progress)
    ensures AttemptInRange(NextProgress(k, c))
  {
  }

  // --- The log invariant --------------------------------------------------------------------------

  ghost predicate LogOk(s: State) {
    && (forall j {:trigger TaskLogOk(s, j)} | j in s.tasks :: TaskLogOk(s, j))
    && (forall id {:trigger MarkerLogOk(s, id)} :: MarkerLogOk(s, id))
  }

  ghost predicate TaskLogOk(s: State, j: nat)
    requires j in s.tasks
  {
    var k := s.tasks[j];
    && Fits(Project(s.log, k.mark.markerId), k.mark.markerId, Confirmation(k.mark), k.progress)
    && AttemptInRange(k.progress)
  }

  ghost predicate InFlight(s: State, id: string) {
    exists j | j in s.tasks :: s.tasks[j].mark.markerId == id
  }

  // A marker never consumed has no log; one whose task is over has the log of a finished task.
  ghost predicate MarkerLogOk(s: State, id: string) {
    && (id !in s.consumed ==> Project(s.log, id) == [])
    && (id in s.consumed && id in s.issued && !InFlight(s, id)
        ==> Fits(Project(s.log, id), id, Confirmation(s.issued[id]), Done))
  }

  lemma StepKeepsLog(s: State, a: Action)
    requires MarksOk(s) && LogOk(s) && Enabled(s, a)
    ensures LogOk(Step(s, a))
  {
    var z := Step(s, a);
    forall j | j in z.tasks ensures TaskLogOk(z, j) {
      StepKeepsTaskLog(s, a, j);
    }
    forall id ensures MarkerLogOk(z, id) {
      StepKeepsMarkerLog(s, a, id);
    }
  }

  lemma StepKeepsTaskLog(s: State, a: Action, j: nat)
    requires MarksOk(s) && LogOk(s) && Enabled(s, a) && j in Step(s, a).tasks
    ensures TaskLogOk(Step(s, a), j)
  {
    match a
    case Advance(i, c) => AdvanceKeepsTaskLog(s, i, c, j);
    case Begin(ids, subject, kind) => BeginKeepsTaskLog(s, ids, subject, kind, j);
    case _ => assert TaskLogOk(s, j);
  }

  lemma AdvanceKeepsTaskLog(s: State, i: nat, c: Call, j: nat)
    requires MarksOk(s) && LogOk(s) && i in s.tasks && CallEnabled(s.tasks[i], c) && j in s.tasks
    ensures TaskLogOk(Step(s, Advance(i, c)), j)
  {
    if i == j {
      assert TaskLogOk(s, i);
      OwnLog(s.log, s.tasks[i], c);
    } else {
      assert TaskLogOk(s, j) && Apart(s, i, j);
      var id := s.tasks[j].mark.markerId;
      ProjectEvents(s.log, s.tasks[i], c, id);
      assert Project(s.log, id) + [] == Project(s.log, id);
    }
  }

  lemma OwnLog(log: seq<Event>, k: Task, c: Call)
    requires CallEnabled(k, c) && AttemptInRange(k.progress)
    requires Fits(Project(log, k.mark.markerId), k.mark.markerId, Confirmation(k.mark), k.progress)
    ensures var t := Project(log + NextEvents(k, c), k.mark.markerId);
            Fits(t, k.mark.markerId, Confirmation(k.mark), NextProgress(k, c))
    ensures AttemptInRange(NextProgress(k, c))
  {
    CallFits(Project(log, k.mark.markerId), k, c);
    CallInRange(k, c);
    ProjectEvents(log, k, c, k.mark.markerId);
  }

  // A begin step either changes nothing here or is a successful consumption.
  lemma BeginStep(s: State, ids: seq<string>, subject: string, kind: Kind) returns (taken: seq<Mark>)
    requires MarksOk(s)
    ensures var z := Step(s, Begin(ids, subject, kind));
            && z.log == s.log
            && (BeginsTo(s, z, ids, subject, kind, taken) || z == s)
  {
    var r := ConsumeAll(s.table, s.clock, ids, subject, kind);
    if r.result.Ok? {
      taken := r.result.value;
      ConsumedFacts(s.table, s.clock, ids, subject, kind);
    } else {
      taken := [];
    }
  }

  lemma BegunTasksStay(s: State, z: State, ids: seq<string>, subject: string, kind: Kind, taken: seq<Mark>, j: nat)
    requires MarksOk(s) && BeginsTo(s, z, ids, subject, kind, taken) && j in s.tasks
    ensures j in z.tasks && z.tasks[j] == s.tasks[j]
  {
    assert Owns(s, j);
  }

  lemma BegunTaskLog(
    s: State, z: State, ids: seq<string>, subject: string, kind: Kind, taken: seq<Mark>, j: nat)
    requires MarksOk(s) && LogOk(s) && BeginsTo(s, z, ids, subject, kind, taken) && z.log == s.log
    requires j in z.tasks && j !in s.tasks
    ensures TaskLogOk(z, j)
  {
    var i: nat := j - s.nextTask;
    BegunIsNew(s, z, ids, subject, kind, taken, i);
    assert MarkerLogOk(s, ids[i]);
    assert z.tasks[j] == Task(taken[i], Waiting, s.nextTask);
  }

  lemma BeginKeepsTaskLog(s: State, ids: seq<string>, subject: string, kind: Kind, j: nat)
    requires MarksOk(s) && LogOk(s) && j in Step(s, Begin(ids, subject, kind)).tasks
    ensures TaskLogOk(Step(s, Begin(ids, subject, kind)), j)
  {
    var z := Step(s, Begin(ids, subject, kind));
    var taken := BeginStep(s, ids, subject, kind);
    if j in s.tasks {
      assert TaskLogOk(s, j);
      if BeginsTo(s, z, ids, subject, kind, taken) {
        BegunTasksStay(s, z, ids, subject, kind, taken, j);
      }
    } else {
      BegunTaskLog(s, z, ids, subject, kind, taken, j);
    }
  }

  lemma ProjectEvents(log: seq<Event>, k: Task, c: Call, id: string)
    requires CallEnabled(k, c)
    ensures Project(log + NextEvents(k, c), id)
            == Project(log, id) + (if id == k.mark.markerId then NextEvents(k, c) else [])
  {
    if NextEvents(k, c) == [] {
      assert log + NextEvents(k, c) == log;
    } else {
      ProjectAppend(log, NextEvents(k, c)[0], id);
    }
  }

  lemma StepKeepsMarkerLog(s: State, a: Action, id: string)
    requires MarksOk(s) && LogOk(s) && Enabled(s, a)
    ensures MarkerLogOk(Step(s, a), id)
  {
    assert MarkerLogOk(s, id);
    match a
    case Advance(i, c) => AdvanceKeepsMarkerLog(s, i, c, id);
    case Finish(i) => FinishKeepsMarkerLog(s, i, id);
    case Begin(ids, subject, kind) => BeginKeepsMarkerLog(s, ids, subject, kind, id);
    case _ =>
  }

  lemma StillInFlight(s: State, z: State, id: string, j: nat)
    requires j in s.tasks && s.tasks[j].mark.markerId == id && j in z.tasks && z.tasks[j].mark == s.tasks[j].mark
    ensures InFlight(s, id) && InFlight(z, id)
  {
  }

  lemma AdvanceKeepsMarkerLog(s: State, i: nat, c: Call, id: string)
    requires MarksOk(s) && LogOk(s) && i in s.tasks && CallEnabled(s.tasks[i], c)
    ensures MarkerLogOk(Step(s, Advance(i, c)), id)
  {
    var z := Step(s, Advance(i, c));
    assert MarkerLogOk(s, id) && TaskOk(s, i);
    if s.tasks[i].mark.markerId == id {
      StillInFlight(s, z, id, i);
    } else {
      ProjectEvents(s.log, s.tasks[i], c, id);
      assert Project(s.log, id) + [] == Project(s.log, id);
      if InFlight(s, id) {
        var j :| j in s.tasks && s.tasks[j].mark.markerId == id;
        StillInFlight(s, z, id, j);
      }
    }
  }

  lemma FinishKeepsMarkerLog(s: State, i: nat, id: string)
    requires MarksOk(s) && LogOk(s) && Enabled(s, Finish(i))
    ensures MarkerLogOk(Step(s, Finish(i)), id)
  {
    var z := Step(s, Finish(i));
    assert MarkerLogOk(s, id) && TaskLogOk(s, i) && TaskOk(s, i);
    if id != s.tasks[i].mark.markerId && InFlight(s, id) {
      var j :| j in s.tasks && s.tasks[j].mark.markerId == id;
      StillInFlight(s, z, id, j);
    }
  }

  lemma BeginKeepsMarkerLog(s: State, ids: seq<string>, subject: string, kind: Kind, id: string)
    requires MarksOk(s) && LogOk(s)
    ensures MarkerLogOk(Step(s, Begin(ids, subject, kind)), id)
  {
    var z := Step(s, Begin(ids, subject, kind));
    var taken := BeginStep(s, ids, subject, kind);
    assert MarkerLogOk(s, id);
    if BeginsTo(s, z, ids, subject, kind, taken) {
      if id in ids {
        var i :| 0 <= i < |ids| && ids[i] == id;
        BegunInFlight(s, z, ids, subject, kind, taken, i);
      } else if InFlight(s, id) {
        var j :| j in s.tasks && s.tasks[j].mark.markerId == id;
        BegunTasksStay(s, z, ids, subject, kind, taken, j);
        StillInFlight(s, z, id, j);
      }
    }
  }

  lemma BegunInFlight(s: State, z: State, ids: seq<string>, subject: string, kind: Kind, taken: seq<Mark>, i: nat)
    requires MarksOk(s) && BeginsTo(s, z, ids, subject, kind, taken) && i < |ids|
    ensures InFlight(z, ids[i]) && ids[i] in z.consumed
  {
    BegunIsNew(s, z, ids, subject, kind, taken, i);
    assert s.nextTask + i in z.tasks && z.tasks[s.nextTask + i].mark.markerId == ids[i];
    assert z.consumed[|s.consumed| + i] == ids[i];
  }

  // --- Theorems over whole runs -------------------------------------------------------------------

  lemma {:induction false} RunInvariant(states: seq<State>, actions: seq<Action>, n: nat)
    requires IsRun(states, actions) && n < |states|
    ensures MarksOk(states[n]) && LogOk(states[n])
  {
    if n == 0 {
      InitialMarksOk();
    } else {
      RunInvariant(states, actions, n - 1);
      assert Enabled(states[n - 1], actions[n - 1]) && states[n] == Step(states[n - 1], actions[n - 1]);
      StepKeepsMarks(states[n - 1], actions[n - 1]);
      StepKeepsLog(states[n - 1], actions[n - 1]);
    }
  }

  ghost function ExecutingMarks(s: State): set<Mark> {
    set k | k in s.table && s.table[k].executing :: s.table[k]
  }

  ghost function TaskMarks(s: State): set<Mark> {
    set j | j in s.tasks :: s.tasks[j].mark
  }

  // No two handlers ever execute on the same message or the same draft at once, and the executing
  // entries of the table are exactly the marks of the tasks in flight.
  lemma ExclusiveExecution(states: seq<State>, actions: seq<Action>, n: nat)
    requires IsRun(states, actions) && n < |states|
    ensures var s := states[n];
            && (forall i, j | i in s.tasks && j in s.tasks && i != j ::
                  s.tasks[i].mark.subject == s.tasks[j].mark.subject ==>
                    !Clash(s.tasks[i].mark.resource, s.tasks[j].mark.resource))
            && ExecutingMarks(s) == TaskMarks(s)
            && (forall i, j | i in s.tasks && j in s.tasks && i != j :: s.tasks[i].mark != s.tasks[j].mark)
            && |s.table| <= 256
  {
    RunInvariant(states, actions, n);
    var s := states[n];
    forall i, j | i in s.tasks && j in s.tasks && i != j
      ensures s.tasks[i].mark != s.tasks[j].mark
      ensures s.tasks[i].mark.subject == s.tasks[j].mark.subject ==>
                !Clash(s.tasks[i].mark.resource, s.tasks[j].mark.resource)
    {
      assert Apart(s, i, j) && Owns(s, i) && Owns(s, j);
      assert Exclusive(s.table[KeyOf(s.tasks[i].mark)], s.table[KeyOf(s.tasks[j].mark)]);
    }
    forall m | m in ExecutingMarks(s) ensures m in TaskMarks(s) {
      var k :| k in s.table && s.table[k].executing && s.table[k] == m;
      assert Owned(s, k);
    }
    forall m | m in TaskMarks(s) ensures m in ExecutingMarks(s) {
      var j :| j in s.tasks && s.tasks[j].mark == m;
      assert Owns(s, j);
    }
  }

  // Every marker's provider log obeys the write discipline, and a marker never consumed has none.
  lemma WriteDiscipline(states: seq<State>, actions: seq<Action>, n: nat, id: string)
    requires IsRun(states, actions) && n < |states|
    ensures var s := states[n];
            if id in s.consumed then id in s.issued && WritesGuarded(Project(s.log, id), s.issued[id])
            else Project(s.log, id) == []
  {
    RunInvariant(states, actions, n);
    var s := states[n];
    assert MarkerLogOk(s, id);
    if id in s.consumed {
      if InFlight(s, id) {
        var j :| j in s.tasks && s.tasks[j].mark.markerId == id;
        assert TaskLogOk(s, j) && TaskOk(s, j);
        FitsIsGuarded(Project(s.log, id), id, s.issued[id], s.tasks[j].progress);
      } else {
        FitsIsGuarded(Project(s.log, id), id, s.issued[id], Done);
      }
    }
  }

  // A marker is consumed at most once in a run, and only by its own subject and kind before it expires.
  lemma OneUse(states: seq<State>, actions: seq<Action>, n: nat)
    requires IsRun(states, actions) && n < |states|
    ensures NoRepeats(states[n].consumed)
    ensures n < |actions| && states[n + 1].consumed != states[n].consumed
            ==> && actions[n].Begin?
                && states[n + 1].consumed == states[n].consumed + actions[n].ids
                && forall i | 0 <= i < |actions[n].ids| ::
                     var id := actions[n].ids[i];
                     && id in states[n].issued && id !in states[n].consumed
                     && states[n].issued[id].subject == actions[n].subject
                     && states[n].issued[id].kind == actions[n].kind
                     && states[n].clock < states[n].issued[id].expiresAt
  {
    RunInvariant(states, actions, n);
    if n < |actions| && states[n + 1].consumed != states[n].consumed {
      var s, z := states[n], states[n + 1];
      assert Enabled(s, actions[n]) && z == Step(s, actions[n]);
      var Begin(ids, subject, kind) := actions[n];
      var taken := BeginStep(s, ids, subject, kind);
      forall i | 0 <= i < |ids|
        ensures ids[i] in s.issued && ids[i] !in s.consumed && s.issued[ids[i]].subject == subject
                && s.issued[ids[i]].kind == kind && s.clock < s.issued[ids[i]].expiresAt
      {
        BegunIsNew(s, z, ids, subject, kind, taken, i);
        assert TookOne(s.table, z.table, s.clock, ids[i], subject, kind, taken[i]);
      }
    }
  }

  // An executing mark leaves the table, or changes, only when its own task finishes, and that only after all the
  // provider work of the call that consumed it is done.
  lemma OnlyOwnFinishRemoves(states: seq<State>, actions: seq<Action>, n: nat, k: Key)
    requires IsRun(states, actions) && n < |actions|
    ensures var s, z := states[n], states[n + 1];
            k in s.table && s.table[k].executing && (k !in z.table || z.table[k] != s.table[k]) ==>
              && actions[n].Finish? && actions[n].task in s.tasks && s.tasks[actions[n].task].mark == s.table[k]
              && forall i | i in s.tasks && s.tasks[i].batch == s.tasks[actions[n].task].batch ::
                   s.tasks[i].progress == Done
  {
    RunInvariant(states, actions, n);
    var s, z := states[n], states[n + 1];
    assert Enabled(s, actions[n]) && z == Step(s, actions[n]);
    match actions[n]
    case Register(subject, rs, kind, ids) => RegistrationFrame(s.table, s.clock, subject, rs, kind, ids);
    case Finish(j) => assert Owns(s, j);
    case _ =>
  }

  // --- Supersession -------------------------------------------------------------------------------

  // An issued marker that is no longer in the table.
  ghost predicate Gone(s: State, id: string) {
    id in s.issued && forall k | k in s.table :: s.table[k].markerId != id
  }

  lemma GoneStays(s: State, a: Action, id: string)
    requires MarksOk(s) && Enabled(s, a) && Gone(s, id)
    ensures Gone(Step(s, a), id)
    ensures Step(s, a).consumed == s.consumed || id !in Step(s, a).consumed[|s.consumed|..]
  {
    var z := Step(s, a);
    match a
    case Register(subject, rs, kind, ids) => RegisterKeepsGone(s, subject, rs, kind, ids, id);
    case Begin(ids, subject, kind) =>
      var taken := BeginStep(s, ids, subject, kind);
      if BeginsTo(s, z, ids, subject, kind, taken) {
        forall k | k in z.table ensures z.table[k].markerId != id {
          assert LeftAlone(s.table, z.table, ids, k);
        }
        forall i | 0 <= i < |ids| ensures ids[i] != id {
          BegunIsNew(s, z, ids, subject, kind, taken, i);
        }
        assert z.consumed[|s.consumed|..] == ids;
      }
    case Finish(j) => FinishFacts(s.table, s.tasks[j].mark);
    case _ =>
  }

  lemma RegisterKeepsGone(s: State, subject: string, rs: seq<Resource>, kind: Kind, ids: seq<string>, id: string)
    requires MarksOk(s) && Enabled(s, Register(subject, rs, kind, ids)) && Gone(s, id)
    ensures Gone(Step(s, Register(subject, rs, kind, ids)), id)
  {
    var z := Step(s, Register(subject, rs, kind, ids));
    RegistrationFrame(s.table, s.clock, subject, rs, kind, ids);
    if RegisterAll(s.table, s.clock, subject, rs, kind, ids).result.Ok? {
      RegisteredFacts(s.table, s.clock, subject, rs, kind, ids);
      forall k | k in z.table ensures z.table[k].markerId != id {
        if !(k in s.table && z.table[k] == s.table[k]) {
          var i :| 0 <= i < |rs| && k == (subject, rs[i].messageId)
            && z.table[k] == NewMark(s.clock, subject, rs[i], kind, ids[i]);
          assert ids[i] != id;
        }
      }
    }
  }

  lemma RegistrationSupersedes(s: State, subject: string, rs: seq<Resource>, kind: Kind, ids: seq<string>, id: string)
    requires MarksOk(s) && Enabled(s, Register(subject, rs, kind, ids))
    requires RegisterAll(s.table, s.clock, subject, rs, kind, ids).result.Ok?
    requires id in s.issued && TouchesAny(s.issued[id], subject, rs)
    ensures Gone(Step(s, Register(subject, rs, kind, ids)), id)
  {
    var z := Step(s, Register(subject, rs, kind, ids));
    RegisteredFacts(s.table, s.clock, subject, rs, kind, ids);
    forall k | k in z.table ensures z.table[k].markerId != id {
      if k in s.table && z.table[k] == s.table[k] && !TouchesAny(s.table[k], subject, rs) {
        assert EntryOk(s, k);
        SameResourceTouches(s.table[k], s.issued[id], subject, rs);
      } else {
        var i :| 0 <= i < |rs| && k == (subject, rs[i].messageId)
          && z.table[k] == NewMark(s.clock, subject, rs[i], kind, ids[i]);
        assert ids[i] != id;
      }
    }
  }

  lemma SameResourceTouches(a: Mark, b: Mark, subject: string, rs: seq<Resource>)
    requires a.markerId == b.markerId ==> b == a.(executing := false)
    ensures a.markerId == b.markerId ==> TouchesAny(a, subject, rs) == TouchesAny(b, subject, rs)
  {
    if a.markerId == b.markerId {
      assert forall r: Resource :: Touches(a, subject, r) == Touches(b, subject, r);
    }
  }

  lemma {:induction false} GoneForever(states: seq<State>, actions: seq<Action>, n: nat, m: nat, id: string)
    requires IsRun(states, actions) && n <= m < |states| && Gone(states[n], id)
    ensures Gone(states[m], id)
    decreases m
  {
    if n < m {
      GoneForever(states, actions, n, m - 1, id);
      GoneStaysInRun(states, actions, m - 1, id);
    }
  }

  lemma GoneStaysInRun(states: seq<State>, actions: seq<Action>, n: nat, id: string)
    requires IsRun(states, actions) && n < |actions| && Gone(states[n], id)
    ensures Gone(states[n + 1], id)
    ensures states[n + 1].consumed == states[n].consumed || id !in states[n + 1].consumed[|states[n].consumed|..]
  {
    RunInvariant(states, actions, n);
    assert Enabled(states[n], actions[n]) && states[n + 1] == Step(states[n], actions[n]);
    GoneStays(states[n], actions[n], id);
  }

  // Once a registration succeeds, no earlier marker overlapping its messages or drafts is ever consumed.
  lemma SupersededNeverConsumed(states: seq<State>, actions: seq<Action>, n: nat, m: nat, id: string)
    requires IsRun(states, actions) && n < m < |actions| && actions[n].Register?
    requires var r := actions[n];
             && RegisterAll(states[n].table, states[n].clock, r.subject, r.resources, r.kind, r.ids).result.Ok?
             && id in states[n].issued && TouchesAny(states[n].issued[id], r.subject, r.resources)
    ensures states[m + 1].consumed == states[m].consumed || id !in states[m + 1].consumed[|states[m].consumed|..]
    ensures Gone(states[m + 1], id)
  {
    RunInvariant(states, actions, n);
    assert Enabled(states[n], actions[n]) && states[n + 1] == Step(states[n], actions[n]);
    var Register(subject, rs, kind, ids) := actions[n];
    RegistrationSupersedes(states[n], subject, rs, kind, ids, id);
    GoneForever(states, actions, n + 1, m, id);
    GoneStaysInRun(states, actions, m, id);
  }
}
