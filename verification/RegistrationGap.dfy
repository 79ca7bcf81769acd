// Registering a set of distinct resources in one call is strictly more permissive than registering its members one by
// one: the set may free the places it needs with its last member, while a single call before it already meets the
// limit. Of a list with a repeat the opposite holds.
module RegistrationGap {
  import opened Wrappers
  import opened ActionMarks
  import opened ActionMarkLaws
  import opened MarkRuns

  // --- Exactly when the single calls succeed ------------------------------------------------------

  // After the first k resources are registered the table is within its bound.
  predicate HasRoom(live: Table, subject: string, rs: seq<Resource>, k: nat)
    requires k <= |rs|
  {
    |Untouched(live, subject, rs[..k])| + k <= MAX_MARKS
  }

  lemma PrefixRoom(t: Table, now: nat, subject: string, rs: seq<Resource>, kind: Kind, ids: seq<string>, k: nat)
    requires |ids| == |rs| && Distinct(rs) && k <= |rs| && !Blocked(Purged(t, now), subject, rs)
    ensures PrefixSucceeds(t, now, subject, rs, kind, ids, k) <==> HasRoom(Purged(t, now), subject, rs, k)
  {
    var p := Purged(t, now);
    forall key | key in p && p[key].executing ensures !TouchesAny(p[key], subject, rs[..k]) {
      assert !TouchesAny(p[key], subject, rs);
    }
  }

  // Registering distinct resources one by one at one instant succeeds exactly if none of their live overlaps is
  // executing and every prefix, the whole list included, leaves the table within its bound. The one bulk call asks
  // that of the whole list alone.
  lemma EachSucceedsIff(t: Table, now: nat, subject: string, rs: seq<Resource>, kind: Kind, ids: seq<string>)
    requires TableOk(t) && |ids| == |rs| && Distinct(rs)
    ensures var live := Purged(t, now);
            && (RegisterEach(t, now, subject, rs, kind, ids).result.Ok?
                <==> !Blocked(live, subject, rs) && forall k | 1 <= k <= |rs| :: HasRoom(live, subject, rs, k))
            && (RegisterAll(t, now, subject, rs, kind, ids).result.Ok?
                <==> !Blocked(live, subject, rs) && HasRoom(live, subject, rs, |rs|))
  {
    var live := Purged(t, now);
    assert rs[..|rs|] == rs && ids[..|rs|] == ids;
    EachIsBulkOnEveryPrefix(t, now, subject, rs, kind, ids);
    if Blocked(live, subject, rs) {
      var k :| k in live && live[k].executing && TouchesAny(live[k], subject, rs);
      assert |rs| >= 1 && !PrefixSucceeds(t, now, subject, rs, kind, ids, |rs|);
    } else {
      forall k | 1 <= k <= |rs|
        ensures PrefixSucceeds(t, now, subject, rs, kind, ids, k) <==> HasRoom(live, subject, rs, k)
      {
        PrefixRoom(t, now, subject, rs, kind, ids, k);
      }
    }
  }

  // --- A set that is admitted and refused ---------------------------------------------------------

  // A full table of live, pending marks; first is new to it, second overlaps exactly the marks at one and two.
  ghost predicate FullAndOverlapping(
    t: Table, now: nat, subject: string, first: Resource, second: Resource, one: Key, two: Key)
  {
    && |t| == 256 && one in t && two in t && one != two && !Clash(first, second)
    && (forall k | k in t :: !t[k].executing && t[k].expiresAt > now)
    && (forall k | k in t :: !Touches(t[k], subject, first))
    && (forall k | k in t :: Touches(t[k], subject, second) <==> k == one || k == two)
  }

  lemma OverlappedAreFreed(t: Table, now: nat, subject: string, first: Resource, second: Resource, one: Key, two: Key)
    requires FullAndOverlapping(t, now, subject, first, second, one, two)
    ensures |Untouched(t, subject, [first, second])| == MAX_MARKS - 2
  {
    var rs := [first, second];
    var kept := Untouched(t, subject, rs);
    forall k | k in t ensures k in kept <==> k != one && k != two {
      assert rs[0] == first && rs[1] == second;
      assert TouchesAny(t[k], subject, rs) <==> Touches(t[k], subject, first) || Touches(t[k], subject, second);
    }
    assert kept.Keys == t.Keys - {one, two};
    assert |t.Keys - {one, two}| == |t.Keys| - 2;
    assert |kept| == |kept.Keys| && |t| == |t.Keys|;
  }

  lemma AllLive(t: Table, now: nat)
    requires forall k | k in t :: t[k].expiresAt > now
    ensures Purged(t, now) == t
  {
  }

  lemma BulkSucceeds(
    t: Table, now: nat, subject: string, first: Resource, second: Resource, one: Key, two: Key,
    kind: Kind, ids: seq<string>)
    requires FullAndOverlapping(t, now, subject, first, second, one, two) && |ids| == 2
    ensures RegisterAll(t, now, subject, [first, second], kind, ids).result == Ok(ids)
  {
    AllLive(t, now);
    OverlappedAreFreed(t, now, subject, first, second, one, two);
    assert [first, second][0] == first && [first, second][1] == second;
  }

  lemma FirstCallFails(
    t: Table, now: nat, subject: string, first: Resource, second: Resource, one: Key, two: Key,
    kind: Kind, id: string)
    requires FullAndOverlapping(t, now, subject, first, second, one, two)
    ensures RegisterOne(t, now, subject, first, kind, id) == Admission(t, Err(Limit))
  {
    AllLive(t, now);
  }

  // For every such table and pair of resources the set is admitted and the single calls are refused.
  lemma BulkAdmitsWhatSingleCallsRefuse(
    t: Table, now: nat, subject: string, first: Resource, second: Resource, one: Key, two: Key,
    kind: Kind, ids: seq<string>)
    requires FullAndOverlapping(t, now, subject, first, second, one, two) && |ids| == 2
    ensures RegisterAll(t, now, subject, [first, second], kind, ids).result == Ok(ids)
    ensures RegisterEach(t, now, subject, [first, second], kind, ids).result == Err(Limit)
  {
    BulkSucceeds(t, now, subject, first, second, one, two, kind, ids);
    FirstCallFails(t, now, subject, first, second, one, two, kind, ids[0]);
    var front, names := [first, second][..1], ids[..1];
    assert front[..0] == [] && names[..0] == [] && front[0] == first && names[0] == ids[0];
    assert RegisterEach(t, now, subject, front[..0], kind, names[..0]) == Admission(t, Ok([]));
    assert RegisterEach(t, now, subject, front, kind, names) == Admission(t, Err(Limit));
  }

  // --- Such a table exists ------------------------------------------------------------------------

  function Name(n: nat): string {
    seq(n, _ => 'm')
  }

  function NthKey(n: nat): Key {
    ("subject", Name(n))
  }

  // The n-th mark of one subject, on its own message and draft.
  function NthMark(n: nat): Mark {
    NewMark(0, "subject", NthResource(n), SendDraft, Name(n))
  }

  function NthResource(n: nat): Resource {
    Resource(Name(n), Some(Name(n)))
  }

  function Filled(n: nat): Table {
    if n == 0 then map[] else Filled(n - 1)[NthKey(n) := NthMark(n)]
  }

  predicate IsNth(t: Table, n: nat, k: Key) {
    k in t && 1 <= |k.1| <= n && k == NthKey(|k.1|) && t[k] == NthMark(|k.1|)
  }

  lemma {:induction false} FilledHolds(n: nat)
    ensures |Filled(n)| == n
    ensures forall k {:trigger IsNth(Filled(n), n, k)} | k in Filled(n) :: IsNth(Filled(n), n, k)
  {
    if n > 0 {
      FilledHolds(n - 1);
      var key, before := NthKey(n), Filled(n - 1);
      assert |key.1| == n;
      assert !IsNth(before, n - 1, key);
      assert Filled(n).Keys == before.Keys + {key};
      assert |Filled(n)| == |Filled(n).Keys| && |before| == |before.Keys|;
      forall k | k in Filled(n) ensures IsNth(Filled(n), n, k) {
        if k != key {
          assert IsNth(before, n - 1, k);
        }
      }
    }
  }

  lemma {:induction false} FilledHasEach(n: nat, k: nat)
    requires 1 <= k <= n
    ensures NthKey(k) in Filled(n)
  {
    if k < n {
      FilledHasEach(n - 1, k);
    }
  }

  lemma FilledIsOk(n: nat)
    requires n <= MAX_MARKS
    ensures TableOk(Filled(n))
  {
    var t := Filled(n);
    FilledHolds(n);
    forall k | k in t ensures k == KeyOf(t[k]) {
      assert IsNth(t, n, k);
    }
    forall k, l | k in t && l in t && k != l ensures Exclusive(t[k], t[l]) {
      assert IsNth(t, n, k) && IsNth(t, n, l);
      assert |Name(|k.1|)| == |k.1| && |Name(|l.1|)| == |l.1|;
    }
  }

  lemma SuchATableExists(n: nat)
    requires n == MAX_MARKS
    ensures TableOk(Filled(n))
    ensures FullAndOverlapping(
              Filled(n), 0, "subject", Resource("other", None), Resource(Name(1), Some(Name(2))), NthKey(1), NthKey(2))
  {
    var t := Filled(n);
    FilledHolds(n);
    FilledHasEach(n, 1);
    FilledHasEach(n, 2);
    assert |Name(1)| == 1 && |Name(2)| == 2 && Name(1)[0] == 'm';
    FilledIsOk(n);
    forall k | k in t
      ensures k == KeyOf(t[k]) && !t[k].executing && t[k].expiresAt > 0
      ensures !Touches(t[k], "subject", Resource("other", None))
      ensures Touches(t[k], "subject", Resource(Name(1), Some(Name(2)))) <==> k == NthKey(1) || k == NthKey(2)
    {
      assert IsNth(t, n, k);
      assert |Name(|k.1|)| == |k.1| && Name(|k.1|)[0] == 'm';
    }
  }
  // --- And a run of the broker reaches it ---------------------------------------------------------

  function FillAction(n: nat): Action {
    Register("subject", [NthResource(n)], SendDraft, [Name(n)])
  }

  function FillIssued(n: nat): map<string, Mark> {
    if n == 0 then map[] else FillIssued(n - 1)[Name(n) := NthMark(n)]
  }

  lemma {:induction false} FillIssuedNames(n: nat, id: string)
    requires id in FillIssued(n)
    ensures |id| <= n
  {
    if id != Name(n) {
      FillIssuedNames(n - 1, id);
    }
  }

  function FillState(n: nat): State {
    State(0, Filled(n), map[], 0, [], FillIssued(n), [])
  }

  lemma NextIsAlone(n: nat)
    ensures var t := Filled(n); Purged(t, 0) == t && Untouched(t, "subject", [NthResource(n + 1)]) == t
    ensures !Blocked(Filled(n), "subject", [NthResource(n + 1)])
  {
    var t, r := Filled(n), NthResource(n + 1);
    FilledHolds(n);
    forall k | k in t ensures Live(t[k], 0) && !t[k].executing && !TouchesAny(t[k], "subject", [r]) {
      assert IsNth(t, n, k);
      assert |Name(|k.1|)| == |k.1| && |Name(n + 1)| == n + 1;
      TouchesAnyOne(t[k], "subject", r);
    }
  }

  lemma FillStep(n: nat)
    requires n < MAX_MARKS
    ensures Enabled(FillState(n), FillAction(n + 1)) && Step(FillState(n), FillAction(n + 1)) == FillState(n + 1)
  {
    var r, id := NthResource(n + 1), Name(n + 1);
    if id in FillIssued(n) {
      FillIssuedNames(n, id);
    }
    NextIsAlone(n);
    FilledHolds(n);
    InsertedOne(Filled(n), 0, "subject", r, SendDraft, id);
    assert Registered(FillState(n), "subject", [r], SendDraft, [id]) == FillIssued(n + 1);
  }

  lemma {:induction false} FillRun(n: nat) returns (states: seq<State>, actions: seq<Action>)
    requires n <= MAX_MARKS
    ensures IsRun(states, actions) && |states| == n + 1 && states[n] == FillState(n)
  {
    if n == 0 {
      states, actions := [INITIAL], [];
    } else {
      var front, before := FillRun(n - 1);
      FillStep(n - 1);
      RunExtends(front, before, FillAction(n), FillState(n));
      states, actions := front + [FillState(n)], before + [FillAction(n)];
    }
  }

  // The broker, started afresh, reaches such a table by registering one mark after another.
  lemma SuchATableIsReached(n: nat) returns (states: seq<State>, actions: seq<Action>)
    requires n == MAX_MARKS
    ensures IsRun(states, actions) && |states| == n + 1
    ensures FullAndOverlapping(states[n].table, states[n].clock, "subject", Resource("other", None),
                               Resource(Name(1), Some(Name(2))), NthKey(1), NthKey(2))
  {
    states, actions := FillRun(n);
    SuchATableExists(n);
  }

  // --- Lists with a repeat ------------------------------------------------------------------------

  // A list in which two resources share a message or a draft is refused as a set; one by one the later supersedes the
  // earlier, and on an empty table both calls succeed.
  lemma RepeatsAreRefused(now: nat, subject: string, a: Resource, b: Resource, kind: Kind, ids: seq<string>)
    requires |ids| == 2 && Clash(a, b)
    ensures RegisterAll(map[], now, subject, [a, b], kind, ids).result == Err(Required)
    ensures RegisterEach(map[], now, subject, [a, b], kind, ids).result == Ok(ids)
  {
    assert [a, b][0] == a && [a, b][1] == b;
    var one := RegisterOne(map[], now, subject, a, kind, ids[0]);
    EachOfTwo(map[], now, subject, a, b, kind, ids);
    assert one.result.Ok?;
    var p := Purged(one.table, now);
    forall k | k in p ensures k == (subject, a.messageId) && !p[k].executing {
    }
    assert |p| <= 1 by { SubmapSize(p, map[(subject, a.messageId) := NewMark(now, subject, a, kind, ids[0])]); }
  }

  lemma EachOfTwo(t: Table, now: nat, subject: string, a: Resource, b: Resource, kind: Kind, ids: seq<string>)
    requires |ids| == 2
    ensures var one := RegisterOne(t, now, subject, a, kind, ids[0]);
            one.result.Ok? && RegisterOne(one.table, now, subject, b, kind, ids[1]).result.Ok? ==>
              RegisterEach(t, now, subject, [a, b], kind, ids).result == Ok(ids)
  {
    var front, names := [a, b][..1], ids[..1];
    assert front[..0] == [] && names[..0] == [] && front[0] == a && names[0] == ids[0];
    assert RegisterEach(t, now, subject, front[..0], kind, names[..0]) == Admission(t, Ok([]));
    assert RegisterOne(t, now, subject, a, kind, ids[0]).result.Ok? ==>
        RegisterEach(t, now, subject, front, kind, names)
        == Admission(RegisterOne(t, now, subject, a, kind, ids[0]).table, Ok(names));
  }
}
