// Whole runs of the broker's mark handlers: any number of connection threads register marks, consume
// them, call the provider for each consumed mark and finish them, interleaved at every lock acquisition
// and every provider request (src/broker/handlers/drafts.rs, bulk_drafts.rs, deletion.rs, bulk_deletion.rs).
module MarkRuns {
  import opened Wrappers
  import opened ActionMarks
  import opened ActionMarkLaws

  // What the read before a write may answer: the draft's current message, or whether the message is a draft.
  datatype ReadAnswer = Revision(messageId: string) | NotDraft | IsDraft | ReadUnauthorized | ReadFailed

  datatype WriteAnswer = Accepted | Unauthorized | Rejected | Uncertain

  datatype Event =
    | Read(marker: string, attempt: nat, seen: ReadAnswer)
    | Write(marker: string, attempt: nat)
    | Answered(marker: string, attempt: nat, answer: WriteAnswer)

  // How far the provider work for one consumed mark has come.
  datatype Progress =
    | Waiting | Ready(attempt: nat) | Checked(attempt: nat) | Sent(attempt: nat) | Refreshing | Done

  // One consumed mark; batch identifies the handler call that consumed it.
  datatype Task = Task(mark: Mark, progress: Progress, batch: nat)

  datatype State = State(
    clock: nat, table: Table, tasks: map<nat, Task>, nextTask: nat, log: seq<Event>,
    issued: map<string, Mark>, consumed: seq<string>)

  datatype Call =
    | Start(ok: bool) | Preflight(seen: ReadAnswer) | Dispatch | Answer(answer: WriteAnswer) | Refresh(ok: bool)

  datatype Action =
    | Tick(elapsed: nat)
    | Register(subject: string, resources: seq<Resource>, kind: Kind, ids: seq<string>)
    | Begin(ids: seq<string>, subject: string, kind: Kind)
    | Advance(task: nat, call: Call)
    | Finish(task: nat)

  const INITIAL := State(0, map[], map[], 0, [], map[], [])

  // The answer that lets the write go ahead: the captured revision, or a message that is not a draft.
  function Confirmation(m: Mark): ReadAnswer {
    if m.kind == TrashMessage then NotDraft else Revision(m.resource.messageId)
  }

  predicate CallEnabled(t: Task, c: Call) {
    match c
    case Start(ok) => t.progress == Waiting && (ok ==> t.mark.kind == TrashMessage || t.mark.resource.draftId.Some?)
    case Preflight(_) => t.progress.Ready?
    case Dispatch => t.progress.Checked?
    case Answer(_) => t.progress.Sent?
    case Refresh(_) => t.progress == Refreshing
  }

  // The first attempt alone may be repeated, and only after a 401.
  function AfterUnauthorized(attempt: nat): Progress {
    if attempt == 1 then Refreshing else Done
  }

  function NextProgress(t: Task, c: Call): Progress
    requires CallEnabled(t, c)
  {
    match c
    case Start(ok) => if ok then Ready(1) else Done
    case Preflight(seen) =>
      if seen == Confirmation(t.mark) then Checked(t.progress.attempt)
      else if seen == ReadUnauthorized then AfterUnauthorized(t.progress.attempt)
      else Done
    case Dispatch => Sent(t.progress.attempt)
    case Answer(a) => if a == Unauthorized then AfterUnauthorized(t.progress.attempt) else Done
    case Refresh(ok) => if ok then Ready(2) else Done
  }

  function NextEvents(t: Task, c: Call): seq<Event>
    requires CallEnabled(t, c)
  {
    match c
    case Preflight(seen) => [Read(t.mark.markerId, t.progress.attempt, seen)]
    case Dispatch => [Write(t.mark.markerId, t.progress.attempt)]
    case Answer(a) => [Answered(t.mark.markerId, t.progress.attempt, a)]
    case _ => []
  }

  predicate Enabled(s: State, a: Action) {
    match a
    case Tick(_) => true
    case Register(_, resources, _, ids) =>
      |ids| == |resources| && NoRepeats(ids) && forall i | 0 <= i < |ids| :: ids[i] !in s.issued
    case Begin(_, _, _) => true
    case Advance(j, c) => j in s.tasks && CallEnabled(s.tasks[j], c)
    // A handler finishes its marks after its whole set of provider work has been joined.
    case Finish(j) =>
      j in s.tasks && forall i | i in s.tasks :: s.tasks[i].batch == s.tasks[j].batch ==> s.tasks[i].progress == Done
  }

  // The marks a registration issues: of the subject and kind that were asked for, each for its own resource, pending
  // for 600 s.
  function Registered(s: State, subject: string, rs: seq<Resource>, kind: Kind, ids: seq<string>)
    : (issued: map<string, Mark>)
    requires |ids| == |rs| && NoRepeats(ids)
    ensures forall i | 0 <= i < |rs| ::
              && ids[i] in issued
              && issued[ids[i]] == Mark(ids[i], subject, rs[i], kind, s.clock + 600_000_000_000, false)
  {
    s.issued + map i | 0 <= i < |rs| ::
                 ids[i] := Mark(ids[i], subject, rs[i], kind, s.clock + 600_000_000_000, false)
  }

  function NewTasks(first: nat, marks: seq<Mark>): map<nat, Task> {
    map j {:trigger TaskOf(first, marks, j)} | first <= j < first + |marks| :: TaskOf(first, marks, j)
  }

  function TaskOf(first: nat, marks: seq<Mark>, j: nat): Task
    requires first <= j < first + |marks|
  {
    Task(marks[j - first], Waiting, first)
  }

  ghost function Step(s: State, a: Action): State
    requires Enabled(s, a)
  {
    match a
    case Tick(elapsed) => s.(clock := s.clock + elapsed)
    case Register(subject, rs, kind, ids) =>
      var r := RegisterAll(s.table, s.clock, subject, rs, kind, ids);
      if r.result.Err? then s.(table := r.table)
      else s.(table := r.table, issued := Registered(s, subject, rs, kind, ids))
    case Begin(ids, subject, kind) =>
      var r := ConsumeAll(s.table, s.clock, ids, subject, kind);
      if r.result.Err? then s.(table := r.table)
      else s.(table := r.table,
              tasks := s.tasks + NewTasks(s.nextTask, r.result.value),
              nextTask := s.nextTask + |ids|,
              consumed := s.consumed + ids)
    case Advance(j, c) =>
      var t := s.tasks[j];
      s.(tasks := s.tasks[j := t.(progress := NextProgress(t, c))], log := s.log + NextEvents(t, c))
    case Finish(j) =>
      s.(table := Finished(s.table, s.tasks[j].mark), tasks := s.tasks - {j})
  }

  ghost predicate IsRun(states: seq<State>, actions: seq<Action>) {
    && |states| == |actions| + 1
    && states[0] == INITIAL
    && forall i | 0 <= i < |actions| :: Enabled(states[i], actions[i]) && states[i + 1] == Step(states[i], actions[i])
  }

  lemma RunExtends(states: seq<State>, actions: seq<Action>, a: Action, z: State)
    requires IsRun(states, actions) && Enabled(states[|actions|], a) && z == Step(states[|actions|], a)
    ensures IsRun(states + [z], actions + [a])
  {
  }

  // --- The table, the tasks and the history agree -------------------------------------------------

  ghost predicate OwnershipOk(s: State) {
    && (forall j {:trigger Owns(s, j)} | j in s.tasks :: j < s.nextTask && Owns(s, j))
    && (forall i, j {:trigger Apart(s, i, j)} | i in s.tasks && j in s.tasks && i != j :: Apart(s, i, j))
    && (forall k {:trigger Owned(s, k)} | k in s.table && s.table[k].executing :: Owned(s, k))
  }

  // Task j's mark is the table's current entry for its message, and is executing.
  ghost predicate Owns(s: State, j: nat)
    requires j in s.tasks
  {
    var m := s.tasks[j].mark;
    m.executing && KeyOf(m) in s.table && s.table[KeyOf(m)] == m
  }

  ghost predicate Owned(s: State, k: Key)
    requires k in s.table
  {
    exists j | j in s.tasks :: s.tasks[j].mark == s.table[k]
  }

  ghost predicate Apart(s: State, i: nat, j: nat)
    requires i in s.tasks && j in s.tasks
  {
    s.tasks[i].mark.markerId != s.tasks[j].mark.markerId
  }

  // Every entry and every task is a mark once issued; a consumed marker is only ever found executing.
  ghost predicate HistoryOk(s: State) {
    && (forall k {:trigger EntryOk(s, k)} | k in s.table :: EntryOk(s, k))
    && (forall i | i in s.issued :: s.issued[i].markerId == i)
    && (forall j {:trigger TaskOk(s, j)} | j in s.tasks :: TaskOk(s, j))
    && NoRepeats(s.consumed)
    && (forall i | 0 <= i < |s.consumed| :: s.consumed[i] in s.issued)
  }

  ghost predicate EntryOk(s: State, k: Key)
    requires k in s.table
  {
    Issued(s, s.table[k]) && (s.table[k].markerId in s.consumed ==> s.table[k].executing)
  }

  ghost predicate TaskOk(s: State, j: nat)
    requires j in s.tasks
  {
    s.tasks[j].mark.markerId in s.consumed && Issued(s, s.tasks[j].mark)
  }

  ghost predicate Issued(s: State, m: Mark) {
    m.markerId in s.issued && s.issued[m.markerId] == m.(executing := false)
  }

  ghost predicate MarksOk(s: State) {
    TableOk(s.table) && OwnershipOk(s) && HistoryOk(s)
  }

  lemma InitialMarksOk()
    ensures MarksOk(INITIAL)
  {
  }

  lemma RegisterKeepsMarks(s: State, a: Action)
    requires MarksOk(s) && a.Register? && Enabled(s, a)
    ensures MarksOk(Step(s, a))
  {
    var Register(subject, rs, kind, ids) := a;
    var z := Step(s, a);
    forall k | k in s.table ensures s.table[k].markerId !in ids {
      assert EntryOk(s, k);
    }
    RegisterAllKeepsTable(s.table, s.clock, subject, rs, kind, ids);
    RegistrationFrame(s.table, s.clock, subject, rs, kind, ids);
    if RegisterAll(s.table, s.clock, subject, rs, kind, ids).result.Ok? {
      RegisteredHistory(s, z, subject, rs, kind, ids);
    } else {
      forall k | k in z.table ensures EntryOk(z, k) { assert EntryOk(s, k); }
      forall j | j in z.tasks ensures TaskOk(z, j) { assert TaskOk(s, j); }
    }
    RegisteredOwnership(s, z, subject, rs, kind, ids);
  }

  lemma RegisteredOwnership(s: State, z: State, subject: string, rs: seq<Resource>, kind: Kind, ids: seq<string>)
    requires MarksOk(s) && |ids| == |rs|
    requires z.tasks == s.tasks && z.nextTask == s.nextTask
    requires z.table == RegisterAll(s.table, s.clock, subject, rs, kind, ids).table
    ensures OwnershipOk(z)
  {
    RegistrationFrame(s.table, s.clock, subject, rs, kind, ids);
    forall j | j in z.tasks ensures j < z.nextTask && Owns(z, j) { assert Owns(s, j); }
    forall i, j | i in z.tasks && j in z.tasks && i != j ensures Apart(z, i, j) { assert Apart(s, i, j); }
    forall k | k in z.table && z.table[k].executing ensures Owned(z, k) {
      if RegisterAll(s.table, s.clock, subject, rs, kind, ids).result.Ok? {
        RegisteredFacts(s.table, s.clock, subject, rs, kind, ids);
      }
      assert k in s.table && s.table[k] == z.table[k];
      assert Owned(s, k);
      var j :| j in s.tasks && s.tasks[j].mark == s.table[k];
      assert z.tasks[j].mark == z.table[k];
    }
  }

  lemma IssuedStays(s: State, z: State, subject: string, rs: seq<Resource>, kind: Kind, ids: seq<string>, m: Mark)
    requires |ids| == |rs| && NoRepeats(ids)
    requires forall i | 0 <= i < |ids| :: ids[i] !in s.issued
    requires z.issued == Registered(s, subject, rs, kind, ids)
    requires Issued(s, m)
    ensures Issued(z, m)
  {
    assert m.markerId !in ids;
  }

  lemma RegisteredHistory(s: State, z: State, subject: string, rs: seq<Resource>, kind: Kind, ids: seq<string>)
    requires MarksOk(s) && |ids| == |rs| && NoRepeats(ids)
    requires forall i | 0 <= i < |ids| :: ids[i] !in s.issued
    requires RegisterAll(s.table, s.clock, subject, rs, kind, ids).result.Ok?
    requires z == s.(table := RegisterAll(s.table, s.clock, subject, rs, kind, ids).table,
                     issued := Registered(s, subject, rs, kind, ids))
    ensures HistoryOk(z)
  {
    forall k | k in z.table ensures EntryOk(z, k) {
      RegisteredEntry(s, z, subject, rs, kind, ids, k);
    }
    forall j | j in z.tasks ensures TaskOk(z, j) {
      RegisteredTask(s, z, subject, rs, kind, ids, j);
    }
    RegisteredIssued(s, subject, rs, kind, ids);
  }

  lemma RegisteredIssued(s: State, subject: string, rs: seq<Resource>, kind: Kind, ids: seq<string>)
    requires HistoryOk(s) && |ids| == |rs| && NoRepeats(ids)
    ensures var issued := Registered(s, subject, rs, kind, ids);
            && (forall i | i in issued :: issued[i].markerId == i)
            && (forall i | 0 <= i < |s.consumed| :: s.consumed[i] in issued)
  {
  }

  lemma RegisteredTask(
    s: State, z: State, subject: string, rs: seq<Resource>, kind: Kind, ids: seq<string>, j: nat)
    requires HistoryOk(s) && |ids| == |rs| && NoRepeats(ids) && j in s.tasks
    requires forall i | 0 <= i < |ids| :: ids[i] !in s.issued
    requires z.tasks == s.tasks && z.consumed == s.consumed && z.issued == Registered(s, subject, rs, kind, ids)
    ensures TaskOk(z, j)
  {
    assert TaskOk(s, j);
    IssuedStays(s, z, subject, rs, kind, ids, s.tasks[j].mark);
  }

  lemma RegisteredEntry(
    s: State, z: State, subject: string, rs: seq<Resource>, kind: Kind, ids: seq<string>, k: Key)
    requires MarksOk(s) && |ids| == |rs| && NoRepeats(ids)
    requires forall i | 0 <= i < |ids| :: ids[i] !in s.issued
    requires RegisterAll(s.table, s.clock, subject, rs, kind, ids).result.Ok?
    requires z == s.(table := RegisterAll(s.table, s.clock, subject, rs, kind, ids).table,
                     issued := Registered(s, subject, rs, kind, ids))
    requires k in z.table
    ensures EntryOk(z, k)
  {
    RegisteredFacts(s.table, s.clock, subject, rs, kind, ids);
    if k in s.table && z.table[k] == s.table[k] {
      assert EntryOk(s, k);
      IssuedStays(s, z, subject, rs, kind, ids, s.table[k]);
    } else {
      var i :| 0 <= i < |rs| && k == (subject, rs[i].messageId)
        && HoldsNew(z.table, s.clock, subject, rs, kind, ids, i);
      NewEntry(s, z, subject, rs, kind, ids, i);
    }
  }

  lemma NewEntry(s: State, z: State, subject: string, rs: seq<Resource>, kind: Kind, ids: seq<string>, i: nat)
    requires HistoryOk(s) && |ids| == |rs| && NoRepeats(ids) && i < |rs|
    requires forall i | 0 <= i < |ids| :: ids[i] !in s.issued
    requires z.consumed == s.consumed && z.issued == Registered(s, subject, rs, kind, ids)
    requires HoldsNew(z.table, s.clock, subject, rs, kind, ids, i)
    ensures EntryOk(z, (subject, rs[i].messageId))
  {
    assert ids[i] !in s.consumed;
  }

  ghost predicate BeginsTo(s: State, z: State, ids: seq<string>, subject: string, kind: Kind, taken: seq<Mark>) {
    && Took(s.table, z.table, s.clock, ids, subject, kind, taken)
    && z.tasks == s.tasks + NewTasks(s.nextTask, taken)
    && z.nextTask == s.nextTask + |ids|
    && z.consumed == s.consumed + ids
    && z.issued == s.issued
  }

  // A consumed marker was pending, so no earlier task or consumption used it.
  lemma BegunIsNew(s: State, z: State, ids: seq<string>, subject: string, kind: Kind, taken: seq<Mark>, i: nat)
    requires MarksOk(s) && BeginsTo(s, z, ids, subject, kind, taken) && i < |ids|
    ensures ids[i] !in s.consumed && ids[i] in s.issued
    ensures forall j | j in s.tasks :: s.tasks[j].mark.markerId != ids[i]
    ensures Issued(z, taken[i])
    ensures taken[i].markerId == ids[i] && taken[i].executing
    ensures KeyOf(taken[i]) in z.table && z.table[KeyOf(taken[i])] == taken[i]
    ensures Names(s.table, KeyOf(taken[i]), ids[i])
  {
    assert TookOne(s.table, z.table, s.clock, ids[i], subject, kind, taken[i]);
    assert EntryOk(s, KeyOf(taken[i]));
    forall j | j in s.tasks ensures s.tasks[j].mark.markerId != ids[i] {
      assert TaskOk(s, j);
    }
  }

  lemma BeginKeepsMarks(s: State, a: Action)
    requires MarksOk(s) && a.Begin? && Enabled(s, a)
    ensures MarksOk(Step(s, a))
  {
    var Begin(ids, subject, kind) := a;
    var r := ConsumeAll(s.table, s.clock, ids, subject, kind);
    if r.result.Ok? {
      var z := Step(s, a);
      ConsumedFacts(s.table, s.clock, ids, subject, kind);
      BegunOwnership(s, z, ids, subject, kind, r.result.value);
      BegunHistory(s, z, ids, subject, kind, r.result.value);
    }
  }

  lemma BegunOwnership(s: State, z: State, ids: seq<string>, subject: string, kind: Kind, taken: seq<Mark>)
    requires MarksOk(s) && BeginsTo(s, z, ids, subject, kind, taken)
    ensures OwnershipOk(z)
  {
    forall j | j in z.tasks ensures j < z.nextTask && Owns(z, j) {
      BegunOwns(s, z, ids, subject, kind, taken, j);
    }
    forall i, j | i in z.tasks && j in z.tasks && i != j ensures Apart(z, i, j) {
      BegunApart(s, z, ids, subject, kind, taken, i, j);
    }
    forall k | k in z.table && z.table[k].executing ensures Owned(z, k) {
      BegunOwned(s, z, ids, subject, kind, taken, k);
    }
  }

  lemma BegunOwns(s: State, z: State, ids: seq<string>, subject: string, kind: Kind, taken: seq<Mark>, j: nat)
    requires MarksOk(s) && BeginsTo(s, z, ids, subject, kind, taken) && j in z.tasks
    ensures j < z.nextTask && Owns(z, j)
  {
    if j in s.tasks {
      assert Owns(s, j);
      assert j < s.nextTask;
      var m := s.tasks[j].mark;
      assert LeftAlone(s.table, z.table, ids, KeyOf(m));
      if m.markerId in ids {
        var i :| 0 <= i < |ids| && ids[i] == m.markerId;
        BegunIsNew(s, z, ids, subject, kind, taken, i);
      }
    } else {
      BegunIsNew(s, z, ids, subject, kind, taken, j - s.nextTask);
    }
  }

  lemma BegunApart(s: State, z: State, ids: seq<string>, subject: string, kind: Kind, taken: seq<Mark>, i: nat, j: nat)
    requires MarksOk(s) && BeginsTo(s, z, ids, subject, kind, taken) && i in z.tasks && j in z.tasks && i != j
    ensures Apart(z, i, j)
  {
    var n := s.nextTask;
    if i in s.tasks && j in s.tasks {
      assert Apart(s, i, j) && Owns(s, i) && Owns(s, j);
    } else if i in s.tasks {
      assert Owns(s, i);
      BegunIsNew(s, z, ids, subject, kind, taken, j - n);
    } else if j in s.tasks {
      assert Owns(s, j);
      BegunIsNew(s, z, ids, subject, kind, taken, i - n);
    } else {
      BegunIsNew(s, z, ids, subject, kind, taken, i - n);
      BegunIsNew(s, z, ids, subject, kind, taken, j - n);
    }
  }

  lemma BegunOwned(s: State, z: State, ids: seq<string>, subject: string, kind: Kind, taken: seq<Mark>, k: Key)
    requires MarksOk(s) && BeginsTo(s, z, ids, subject, kind, taken) && k in z.table && z.table[k].executing
    ensures Owned(z, k)
  {
    var n := s.nextTask;
    assert LeftAlone(s.table, z.table, ids, k);
    if s.table[k].markerId in ids {
      var i :| 0 <= i < |ids| && ids[i] == s.table[k].markerId;
      BegunIsNew(s, z, ids, subject, kind, taken, i);
      MarkersUnique(s.table);
      assert Names(s.table, k, ids[i]);
      assert n + i in z.tasks && z.tasks[n + i].mark == taken[i];
    } else {
      assert Owned(s, k);
      var j :| j in s.tasks && s.tasks[j].mark == s.table[k];
      assert Owns(s, j);
      assert z.tasks[j].mark == z.table[k];
    }
  }

  lemma BegunHistory(s: State, z: State, ids: seq<string>, subject: string, kind: Kind, taken: seq<Mark>)
    requires MarksOk(s) && BeginsTo(s, z, ids, subject, kind, taken)
    ensures HistoryOk(z)
  {
    forall k | k in z.table ensures EntryOk(z, k) {
      BegunEntry(s, z, ids, subject, kind, taken, k);
    }
    forall j | j in z.tasks ensures TaskOk(z, j) {
      BegunTask(s, z, ids, subject, kind, taken, j);
    }
    BegunConsumed(s, z, ids, subject, kind, taken);
  }

  lemma BegunTask(s: State, z: State, ids: seq<string>, subject: string, kind: Kind, taken: seq<Mark>, j: nat)
    requires MarksOk(s) && BeginsTo(s, z, ids, subject, kind, taken) && j in z.tasks
    ensures TaskOk(z, j)
  {
    if j in s.tasks {
      assert TaskOk(s, j) && Owns(s, j);
    } else {
      BegunIsNew(s, z, ids, subject, kind, taken, j - s.nextTask);
      assert z.consumed[|s.consumed| + j - s.nextTask] == ids[j - s.nextTask];
    }
  }

  lemma BegunConsumed(s: State, z: State, ids: seq<string>, subject: string, kind: Kind, taken: seq<Mark>)
    requires MarksOk(s) && BeginsTo(s, z, ids, subject, kind, taken)
    ensures NoRepeats(z.consumed) && forall i | 0 <= i < |z.consumed| :: z.consumed[i] in z.issued
  {
    forall i | 0 <= i < |ids| ensures ids[i] !in s.consumed && ids[i] in s.issued {
      BegunIsNew(s, z, ids, subject, kind, taken, i);
    }
    NoRepeatsJoin(s.consumed, ids);
  }

  lemma NoRepeatsJoin(a: seq<string>, b: seq<string>)
    requires NoRepeats(a) && NoRepeats(b) && forall i | 0 <= i < |b| :: b[i] !in a
    ensures NoRepeats(a + b)
  {
  }

  lemma BegunEntry(s: State, z: State, ids: seq<string>, subject: string, kind: Kind, taken: seq<Mark>, k: Key)
    requires MarksOk(s) && BeginsTo(s, z, ids, subject, kind, taken) && k in z.table
    ensures EntryOk(z, k)
  {
    assert EntryOk(s, k);
    assert LeftAlone(s.table, z.table, ids, k);
  }

  lemma FinishKeepsMarks(s: State, a: Action)
    requires MarksOk(s) && a.Finish? && Enabled(s, a)
    ensures MarksOk(Step(s, a))
  {
    var j := a.task;
    var m := s.tasks[j].mark;
    var z := Step(s, a);
    FinishFacts(s.table, m);
    assert Owns(s, j);
    forall i | i in z.tasks ensures i < z.nextTask && Owns(z, i) && TaskOk(z, i) {
      assert Owns(s, i) && Apart(s, i, j) && TaskOk(s, i);
    }
    forall i, l | i in z.tasks && l in z.tasks && i != l ensures Apart(z, i, l) { assert Apart(s, i, l); }
    forall k | k in z.table && z.table[k].executing ensures Owned(z, k) {
      assert Owned(s, k);
      var i :| i in s.tasks && s.tasks[i].mark == s.table[k];
      assert z.tasks[i].mark == z.table[k];
    }
    forall k | k in z.table ensures EntryOk(z, k) { assert EntryOk(s, k); }
  }

  // A step that changes neither the table, nor any task's mark, nor the history keeps the invariant.
  lemma SameMarksOk(s: State, z: State)
    requires MarksOk(s)
    requires z.table == s.table && z.issued == s.issued && z.consumed == s.consumed && z.nextTask == s.nextTask
    requires z.tasks.Keys == s.tasks.Keys && forall j | j in s.tasks :: z.tasks[j].mark == s.tasks[j].mark
    ensures MarksOk(z)
  {
    forall j | j in z.tasks ensures j < z.nextTask && Owns(z, j) && TaskOk(z, j) {
      assert Owns(s, j) && TaskOk(s, j);
    }
    forall i, j | i in z.tasks && j in z.tasks && i != j ensures Apart(z, i, j) { assert Apart(s, i, j); }
    forall k | k in z.table && z.table[k].executing ensures Owned(z, k) {
      assert Owned(s, k);
      var j :| j in s.tasks && s.tasks[j].mark == s.table[k];
      assert z.tasks[j].mark == z.table[k];
    }
    forall k | k in z.table ensures EntryOk(z, k) { assert EntryOk(s, k); }
  }

  lemma StepKeepsMarks(s: State, a: Action)
    requires MarksOk(s) && Enabled(s, a)
    ensures MarksOk(Step(s, a))
  {
    match a
    case Tick(_) => SameMarksOk(s, Step(s, a));
    case Register(_, _, _, _) => RegisterKeepsMarks(s, a);
    case Begin(_, _, _) => BeginKeepsMarks(s, a);
    case Advance(_, _) => SameMarksOk(s, Step(s, a));
    case Finish(_) => FinishKeepsMarks(s, a);
  }
}
