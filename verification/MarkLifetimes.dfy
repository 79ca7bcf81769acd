// The mark table's operations entry by entry, and the life of one mark from its registration to its consumption
// (src/broker/actions.rs, src/broker/actions/bulk.rs).
module MarkLifetimes {
  import opened Wrappers
  import opened ActionMarks
  import opened ActionMarkLaws
  import opened MarkRuns
  import opened MarkTheorems

  // --- Registration, entry by entry ---------------------------------------------------------------

  // The entries that are executing or have not expired.
  function Remaining(t: Table, now: nat): Table {
    map k | k in t && (t[k].executing || now < t[k].expiresAt) :: t[k]
  }

  // The subject's entries that share a resource's message, or its draft if it has one.
  function Overlapping(t: Table, subject: string, r: Resource): set<Key> {
    set k | k in t && t[k].subject == subject &&
            (t[k].resource.messageId == r.messageId ||
             (r.draftId.Some? && t[k].resource.draftId == Some(r.draftId.value)))
  }

  function OverlappingAny(t: Table, subject: string, rs: seq<Resource>): set<Key> {
    set k, i | 0 <= i < |rs| && k in Overlapping(t, subject, rs[i]) :: k
  }

  // A single registration drops the expired entries; it is refused while an overlapping mark is executing, and when
  // 256 entries remain of which none overlaps; else the overlapping marks give way to a pending one that carries
  // exactly what was asked for and expires after 600 s.
  lemma RegisterExact(t: Table, now: nat, subject: string, r: Resource, kind: Kind, id: string)
    ensures var remaining := Remaining(t, now);
            var overlapping := Overlapping(remaining, subject, r);
            RegisterOne(t, now, subject, r, kind, id) ==
            if exists k | k in overlapping :: remaining[k].executing then Admission(remaining, Err(InProgress))
            else if overlapping == {} && |remaining| >= 256 then Admission(remaining, Err(Limit))
            else
              var mark := Mark(id, subject, r, kind, now + 600_000_000_000, false);
              Admission((remaining - overlapping)[(subject, r.messageId) := mark], Ok(id))
  {
    var remaining := Remaining(t, now);
    var overlapping := Overlapping(remaining, subject, r);
    assert Purged(t, now) == remaining;
    forall k | k in remaining ensures k in overlapping <==> Touches(remaining[k], subject, r) {
    }
    forall m: Mark ensures TouchesAny(m, subject, [r]) <==> Touches(m, subject, r) {
      TouchesAnyOne(m, subject, r);
    }
    assert Untouched(remaining, subject, [r]) == remaining - overlapping;
    assert Blocked(remaining, subject, [r]) <==> exists k | k in overlapping :: remaining[k].executing;
    assert overlapping == {} <==> forall k | k in remaining :: !Touches(remaining[k], subject, r);
  }

  // Two of the resources share their message or their draft.
  predicate SharesResource(rs: seq<Resource>, i: int, j: int) {
    && 0 <= i < j < |rs|
    && (rs[i].messageId == rs[j].messageId || (rs[i].draftId.Some? && rs[j].draftId == Some(rs[i].draftId.value)))
  }

  // Entry k is the pending mark that registers resource i, under its subject and message.
  predicate RegisteredAt(
    u: Table, k: Key, now: nat, subject: string, rs: seq<Resource>, kind: Kind, ids: seq<string>, i: int)
    requires |ids| == |rs|
  {
    && 0 <= i < |rs| && k == (subject, rs[i].messageId) && k in u
    && u[k] == Mark(ids[i], subject, rs[i], kind, now + 600_000_000_000, false)
  }

  // The table of a bulk registration: the entries that overlap nothing, unchanged, and one for each resource.
  ghost predicate HoldsRegistered(
    u: Table, kept: Table, now: nat, subject: string, rs: seq<Resource>, kind: Kind, ids: seq<string>)
    requires |ids| == |rs|
  {
    && (forall i | 0 <= i < |rs| :: RegisteredAt(u, (subject, rs[i].messageId), now, subject, rs, kind, ids, i))
    && (forall k | k in kept :: k in u && u[k] == kept[k])
    && (forall k | k in u :: k in kept || exists i :: RegisteredAt(u, k, now, subject, rs, kind, ids, i))
  }

  lemma OverlapTests(remaining: Table, subject: string, rs: seq<Resource>)
    ensures Untouched(remaining, subject, rs) == remaining - OverlappingAny(remaining, subject, rs)
    ensures Blocked(remaining, subject, rs) <==>
            exists k | k in OverlappingAny(remaining, subject, rs) :: remaining[k].executing
  {
    forall k | k in remaining
      ensures k in OverlappingAny(remaining, subject, rs) <==> TouchesAny(remaining[k], subject, rs)
    {
      forall i | 0 <= i < |rs|
        ensures k in Overlapping(remaining, subject, rs[i]) <==> Touches(remaining[k], subject, rs[i])
      {
      }
    }
  }

  lemma SharingTest(rs: seq<Resource>)
    ensures Distinct(rs) <==> forall i, j :: !SharesResource(rs, i, j)
  {
    forall i, j | 0 <= i < j < |rs| ensures SharesResource(rs, i, j) <==> Clash(rs[i], rs[j]) {
    }
    if Distinct(rs) {
      forall i, j ensures !SharesResource(rs, i, j) {
        if 0 <= i < j < |rs| {
          assert !Clash(rs[i], rs[j]);
        }
      }
    } else {
      var i, j :| 0 <= i < j < |rs| && Clash(rs[i], rs[j]);
      assert SharesResource(rs, i, j);
    }
  }

  // The same for a set: it is refused whole when two of its resources are the same or an overlapping mark is
  // executing or more than 256 entries would remain.
  lemma RegisterAllExact(t: Table, now: nat, subject: string, rs: seq<Resource>, kind: Kind, ids: seq<string>)
    requires TableOk(t) && |ids| == |rs|
    ensures var a := RegisterAll(t, now, subject, rs, kind, ids);
            var remaining := Remaining(t, now);
            var overlapping := OverlappingAny(remaining, subject, rs);
            if exists i, j :: SharesResource(rs, i, j) then a == Admission(t, Err(Required))
            else if exists k | k in overlapping :: remaining[k].executing then
              a == Admission(remaining, Err(InProgress))
            else if |remaining - overlapping| + |rs| > 256 then a == Admission(remaining, Err(Limit))
            else
              a.result == Ok(ids) && HoldsRegistered(a.table, remaining - overlapping, now, subject, rs, kind, ids)
  {
    var remaining := Remaining(t, now);
    assert Purged(t, now) == remaining;
    SharingTest(rs);
    OverlapTests(remaining, subject, rs);
    var a := RegisterAll(t, now, subject, rs, kind, ids);
    if a.result.Ok? {
      RegisteredTable(t, now, subject, rs, kind, ids);
    }
  }

  lemma RegisteredTable(t: Table, now: nat, subject: string, rs: seq<Resource>, kind: Kind, ids: seq<string>)
    requires TableOk(t) && |ids| == |rs| && RegisterAll(t, now, subject, rs, kind, ids).result.Ok?
    ensures var remaining := Remaining(t, now);
            HoldsRegistered(RegisterAll(t, now, subject, rs, kind, ids).table,
                            remaining - OverlappingAny(remaining, subject, rs), now, subject, rs, kind, ids)
  {
    var remaining := Remaining(t, now);
    assert Purged(t, now) == remaining;
    OverlapTests(remaining, subject, rs);
    RegisteredFacts(t, now, subject, rs, kind, ids);
    var u := RegisterAll(t, now, subject, rs, kind, ids).table;
    forall i | 0 <= i < |rs| ensures RegisteredAt(u, (subject, rs[i].messageId), now, subject, rs, kind, ids, i) {
      assert HoldsNew(u, now, subject, rs, kind, ids, i);
    }
    KeptOrRegistered(t, u, now, subject, rs, kind, ids);
  }

  lemma KeptOrRegistered(
    t: Table, u: Table, now: nat, subject: string, rs: seq<Resource>, kind: Kind, ids: seq<string>)
    requires |ids| == |rs|
    requires forall k | k in t :: Live(t[k], now) && !TouchesAny(t[k], subject, rs) ==> k in u && u[k] == t[k]
    requires forall k | k in u ::
               || (k in t && Live(t[k], now) && !TouchesAny(t[k], subject, rs) && u[k] == t[k])
               || (exists i | 0 <= i < |rs| ::
                     k == (subject, rs[i].messageId) && HoldsNew(u, now, subject, rs, kind, ids, i))
    ensures var kept := Untouched(Remaining(t, now), subject, rs);
            && (forall k | k in kept :: k in u && u[k] == kept[k])
            && (forall k | k in u :: k in kept || exists i :: RegisteredAt(u, k, now, subject, rs, kind, ids, i))
  {
    forall k | k in u && k !in Untouched(Remaining(t, now), subject, rs)
      ensures exists i :: RegisteredAt(u, k, now, subject, rs, kind, ids, i)
    {
      var i :| 0 <= i < |rs| && k == (subject, rs[i].messageId) && HoldsNew(u, now, subject, rs, kind, ids, i);
      assert RegisteredAt(u, k, now, subject, rs, kind, ids, i);
    }
  }

  // --- Consumption, entry by entry ----------------------------------------------------------------

  // Entry k carries that marker and is pending, for that subject and kind, at that instant.
  predicate PendingAt(t: Table, k: Key, now: nat, id: string, subject: string, kind: Kind) {
    && k in t && t[k].markerId == id && t[k].subject == subject && t[k].kind == kind && !t[k].executing
    && now < t[k].expiresAt
  }

  ghost predicate Pending(t: Table, now: nat, id: string, subject: string, kind: Kind) {
    exists k :: PendingAt(t, k, now, id, subject, kind)
  }

  lemma PendingIsConsumable(t: Table, now: nat, id: string, subject: string, kind: Kind)
    requires UniqueMarkers(t)
    ensures CanConsume(t, now, id, subject, kind) <==> Pending(t, now, id, subject, kind)
    ensures forall k | PendingAt(t, k, now, id, subject, kind) :: Names(t, k, id) && MarkNamed(t, id) == t[k]
  {
    if CanConsume(t, now, id, subject, kind) {
      var k :| k in t && Names(t, k, id) && Consumable(t[k], now, subject, kind);
      assert PendingAt(t, k, now, id, subject, kind);
    }
    forall k | PendingAt(t, k, now, id, subject, kind)
      ensures Names(t, k, id) && Consumable(t[k], now, subject, kind) && MarkNamed(t, id) == t[k]
    {
      MarkNamedIs(t, id, k);
    }
  }

  // A set is consumed exactly if it names no marker twice and each names a pending entry; then just those entries
  // turn executing, and each is returned.
  lemma ConsumeExact(t: Table, now: nat, ids: seq<string>, subject: string, kind: Kind)
    requires TableOk(t)
    ensures var a := ConsumeAll(t, now, ids, subject, kind);
            && (a.result.Ok? <==>
                  NoRepeats(ids) && forall i | 0 <= i < |ids| :: Pending(t, now, ids[i], subject, kind))
            && (a.result.Err? ==> a == Admission(t, Err(Required)))
            && (a.result.Ok? ==>
                  && |a.result.value| == |ids| && a.table.Keys == t.Keys
                  && (forall i, k | 0 <= i < |ids| && PendingAt(t, k, now, ids[i], subject, kind) ::
                        a.result.value[i] == t[k].(executing := true))
                  && forall k | k in t :: a.table[k] == t[k].(executing := t[k].executing || t[k].markerId in ids))
  {
    MarkersUnique(t);
    forall i | 0 <= i < |ids|
      ensures CanConsume(t, now, ids[i], subject, kind) <==> Pending(t, now, ids[i], subject, kind)
      ensures forall k | PendingAt(t, k, now, ids[i], subject, kind) ::
                Names(t, k, ids[i]) && MarkNamed(t, ids[i]) == t[k]
    {
      PendingIsConsumable(t, now, ids[i], subject, kind);
    }
  }

  // Finishing a mark removes at most the entry under its own subject and message, and that only if it still carries
  // the same marker.
  lemma FinishExact(t: Table, m: Mark)
    ensures var k := (m.subject, m.resource.messageId);
            Finished(t, m) == if k in t && t[k].markerId == m.markerId then t - {k} else t
  {
  }

  // --- From registration to consumption -----------------------------------------------------------

  // With nothing in between, the marker of a registered resource can be consumed at any instant earlier than 600 s
  // after its registration, by its own subject and for its own kind, and yields exactly that resource; otherwise not.
  lemma RegisteredThenConsumed(
    t: Table, now: nat, subject: string, rs: seq<Resource>, kind: Kind, ids: seq<string>, i: nat,
    later: nat, who: string, asked: Kind)
    requires TableOk(t) && |ids| == |rs| && FreshIds(t, ids) && i < |rs|
    requires RegisterAll(t, now, subject, rs, kind, ids).result.Ok?
    ensures var a := ConsumeOne(RegisterAll(t, now, subject, rs, kind, ids).table, later, ids[i], who, asked);
            if who == subject && asked == kind && later < now + 600_000_000_000
            then a.result == Ok(Mark(ids[i], subject, rs[i], kind, now + 600_000_000_000, true))
            else a.result == Err(Required)
  {
    var u := RegisterAll(t, now, subject, rs, kind, ids).table;
    RegisterAllKeepsTable(t, now, subject, rs, kind, ids);
    RegisteredTable(t, now, subject, rs, kind, ids);
    var k := (subject, rs[i].messageId);
    assert RegisteredAt(u, k, now, subject, rs, kind, ids, i);
    OnlyEntryDecides(u, k, later, who, asked);
  }

  // The entry with a marker alone decides whether the marker can be consumed.
  lemma OnlyEntryDecides(u: Table, k: Key, later: nat, who: string, asked: Kind)
    requires TableOk(u) && k in u
    ensures var a := ConsumeOne(u, later, u[k].markerId, who, asked);
            if who == u[k].subject && asked == u[k].kind && later < u[k].expiresAt && !u[k].executing
            then a.result == Ok(u[k].(executing := true))
            else a.result == Err(Required)
  {
    var id := u[k].markerId;
    MarkersUnique(u);
    assert Names(u, k, id);
    MarkNamedIs(u, id, k);
    assert forall l | Names(u, l, id) :: l == k;
  }

  // The same for a mark registered on its own.
  lemma RegisteredOneThenConsumed(
    t: Table, now: nat, subject: string, r: Resource, kind: Kind, id: string, later: nat, who: string, asked: Kind)
    requires TableOk(t) && FreshIds(t, [id]) && RegisterOne(t, now, subject, r, kind, id).result.Ok?
    ensures RegisterOne(t, now, subject, r, kind, id).result == Ok(id)
    ensures var a := ConsumeOne(RegisterOne(t, now, subject, r, kind, id).table, later, id, who, asked);
            if who == subject && asked == kind && later < now + 600_000_000_000
            then a.result == Ok(Mark(id, subject, r, kind, now + 600_000_000_000, true))
            else a.result == Err(Required)
  {
    SingletonIsRegisterOne(t, now, subject, r, kind, id);
    RegisteredThenConsumed(t, now, subject, [r], kind, [id], 0, later, who, asked);
  }

  // --- Over whole runs ----------------------------------------------------------------------------

  // Action m of a run registered resource j under that marker.
  predicate Registers(a: Action, id: string, j: nat) {
    a.Register? && j < |a.ids| == |a.resources| && a.ids[j] == id
  }

  // That action, taken at that instant, issued exactly this mark: what was asked for, good for 600 s.
  predicate StemsFrom(a: Action, clock: nat, id: string, j: nat, m: Mark) {
    Registers(a, id, j) && m == Mark(id, a.subject, a.resources[j], a.kind, clock + 600_000_000_000, false)
  }

  lemma RegisterIssues(s: State, a: Action, id: string) returns (drawn: bool, j: nat)
    requires a.Register? && Enabled(s, a) && id in Registered(s, a.subject, a.resources, a.kind, a.ids)
    ensures var issued := Registered(s, a.subject, a.resources, a.kind, a.ids);
            if drawn then StemsFrom(a, s.clock, id, j, issued[id]) else id in s.issued && issued[id] == s.issued[id]
  {
    drawn, j := id in a.ids, 0;
    if drawn {
      j :| 0 <= j < |a.ids| && a.ids[j] == id;
    }
  }

  // A step issues no mark but those it registers.
  lemma StepIssues(s: State, a: Action, id: string) returns (drawn: bool, j: nat)
    requires Enabled(s, a) && id in Step(s, a).issued
    ensures var issued := Step(s, a).issued;
            if drawn then StemsFrom(a, s.clock, id, j, issued[id]) else id in s.issued && issued[id] == s.issued[id]
  {
    drawn, j := false, 0;
    if a.Register? && RegisterAll(s.table, s.clock, a.subject, a.resources, a.kind, a.ids).result.Ok? {
      drawn, j := RegisterIssues(s, a, id);
    }
  }

  // Every issued mark is what some earlier registration asked for.
  lemma {:induction false} IssuedStems(states: seq<State>, actions: seq<Action>, n: nat, id: string)
    returns (m: nat, j: nat)
    requires IsRun(states, actions) && n < |states| && id in states[n].issued
    ensures m < n && StemsFrom(actions[m], states[m].clock, id, j, states[n].issued[id])
  {
    if n == 0 {
      assert false;
    } else {
      var drawn;
      drawn, j := StepIssuesInRun(states, actions, n - 1, id);
      m := n - 1;
      if !drawn {
        m, j := IssuedStems(states, actions, n - 1, id);
      }
    }
  }

  lemma StepIssuesInRun(states: seq<State>, actions: seq<Action>, n: nat, id: string) returns (drawn: bool, j: nat)
    requires IsRun(states, actions) && n < |actions| && id in states[n + 1].issued
    ensures if drawn then StemsFrom(actions[n], states[n].clock, id, j, states[n + 1].issued[id])
            else id in states[n].issued && states[n + 1].issued[id] == states[n].issued[id]
  {
    assert Enabled(states[n], actions[n]) && states[n + 1] == Step(states[n], actions[n]);
    drawn, j := StepIssues(states[n], actions[n], id);
  }

  // Task k executes that marker for that resource and kind.
  predicate Executes(s: State, k: nat, id: string, r: Resource, kind: Kind) {
    && k in s.tasks && s.tasks[k].mark.executing && s.tasks[k].mark.markerId == id
    && s.tasks[k].mark.resource == r && s.tasks[k].mark.kind == kind
  }

  // What the handler of a consumed marker executes is the mark that was issued.
  lemma TakenWasIssued(s: State, z: State, ids: seq<string>, subject: string, kind: Kind, taken: seq<Mark>, i: nat)
    requires MarksOk(s) && BeginsTo(s, z, ids, subject, kind, taken) && i < |ids|
    ensures var k := s.nextTask + i;
            ids[i] in s.issued && k in z.tasks && z.tasks[k].mark == s.issued[ids[i]].(executing := true)
  {
    BegunIsNew(s, z, ids, subject, kind, taken, i);
  }

  lemma TakenInStep(s: State, a: Action, i: nat)
    requires MarksOk(s) && a.Begin? && Enabled(s, a) && Step(s, a).consumed != s.consumed && i < |a.ids|
    ensures var z, k := Step(s, a), s.nextTask + i;
            a.ids[i] in s.issued && k in z.tasks && z.tasks[k].mark == s.issued[a.ids[i]].(executing := true)
  {
    var Begin(ids, subject, kind) := a;
    var taken := BeginStep(s, ids, subject, kind);
    TakenWasIssued(s, Step(s, a), ids, subject, kind, taken, i);
  }

  lemma StepOfRun(states: seq<State>, actions: seq<Action>, n: nat)
    requires IsRun(states, actions) && n < |actions|
    ensures MarksOk(states[n]) && Enabled(states[n], actions[n])
    ensures states[n + 1] == Step(states[n], actions[n])
  {
    RunInvariant(states, actions, n);
  }

  lemma ConsumedTask(states: seq<State>, actions: seq<Action>, n: nat, i: nat) returns (k: nat)
    requires IsRun(states, actions) && n < |actions| && actions[n].Begin? && i < |actions[n].ids|
    requires states[n + 1].consumed != states[n].consumed
    ensures var id := actions[n].ids[i];
            id in states[n].issued && k in states[n + 1].tasks &&
            states[n + 1].tasks[k].mark == states[n].issued[id].(executing := true)
  {
    StepOfRun(states, actions, n);
    TakenInStep(states[n], actions[n], i);
    k := states[n].nextTask + i;
  }

  // A marker that is ever consumed was returned by an earlier registration of that very subject and kind, less than
  // 600 s before, and what is executed for it is the resource that was registered.
  lemma ConsumedStems(states: seq<State>, actions: seq<Action>, n: nat, i: nat) returns (m: nat, j: nat, k: nat)
    requires IsRun(states, actions) && n < |actions| && actions[n].Begin? && i < |actions[n].ids|
    requires states[n + 1].consumed != states[n].consumed
    ensures m < n && Registers(actions[m], actions[n].ids[i], j)
    ensures actions[m].subject == actions[n].subject && actions[m].kind == actions[n].kind
    ensures states[n].clock < states[m].clock + 600_000_000_000
    ensures Executes(states[n + 1], k, actions[n].ids[i], actions[m].resources[j], actions[n].kind)
  {
    OneUse(states, actions, n);
    m, j := IssuedStems(states, actions, n, actions[n].ids[i]);
    k := ConsumedTask(states, actions, n, i);
  }
}
