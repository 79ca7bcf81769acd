// The action table as the broker keeps it: one map behind a lock, updated in place.
// Each method is one critical section; the instant read inside it and the identifiers drawn are inputs.
module ActionStores {
  import opened Wrappers
  import opened ActionMarks
  import opened ActionMarkLaws

  class ActionStore {
    var marks: Table

    constructor ()
      ensures marks == map[] && TableOk(marks)
    {
      marks := map[];
    }

    method RegisterActionMark(
      now: nat, subject: string, messageId: string, draftId: Option<string>, kind: Kind, freshId: string)
      returns (r: Result<string, Failure>)
      modifies this
      ensures Admission(marks, r) == RegisterOne(old(marks), now, subject, Resource(messageId, draftId), kind, freshId)
      ensures r.Ok? ==>
                && r.value == freshId && (subject, messageId) in marks
                && marks[(subject, messageId)] ==
                   Mark(freshId, subject, Resource(messageId, draftId), kind, now + 600_000_000_000, false)
    {
      var wanted := Resource(messageId, draftId);
      marks := map k | k in marks && Live(marks[k], now) :: marks[k];
      ghost var p := marks;
      assert p == Purged(old(marks), now);
      OneResourceTests(p, subject, wanted);
      if exists k | k in marks :: Touches(marks[k], subject, wanted) && marks[k].executing {
        return Err(InProgress);
      }
      if !(exists k | k in marks :: Touches(marks[k], subject, wanted)) && |marks| >= MAX_MARKS {
        return Err(Limit);
      }
      marks := map k | k in marks && !Touches(marks[k], subject, wanted) :: marks[k];
      marks := marks[(subject, messageId) := Mark(freshId, subject, wanted, kind, now + MARK_TTL, false)];
      r := Ok(freshId);
    }

    method RegisterActionMarks(now: nat, subject: string, resources: seq<Resource>, kind: Kind, freshIds: seq<string>)
      returns (r: Result<seq<string>, Failure>)
      requires |freshIds| == |resources|
      modifies this
      ensures Admission(marks, r) == RegisterAll(old(marks), now, subject, resources, kind, freshIds)
    {
      var distinct := CheckDistinct(resources);
      if !distinct {
        return Err(Required);
      }
      marks := map k | k in marks && Live(marks[k], now) :: marks[k];
      assert marks == Purged(old(marks), now);
      if exists k | k in marks :: TouchesAny(marks[k], subject, resources) && marks[k].executing {
        return Err(InProgress);
      }
      var others := map k | k in marks && !TouchesAny(marks[k], subject, resources) :: marks[k];
      assert others == Untouched(marks, subject, resources);
      if |others| + |resources| > MAX_MARKS {
        return Err(Limit);
      }
      marks := others;
      marks := InsertMarks(others, now, subject, resources, kind, freshIds);
      r := Ok(freshIds);
    }

    method ConsumeActionMark(now: nat, markerId: string, subject: string, expected: Kind)
      returns (r: Result<Mark, Failure>)
      requires UniqueMarkers(marks)
      modifies this
      ensures Admission(marks, r) == ConsumeOne(old(marks), now, markerId, subject, expected)
    {
      if !(exists k | k in marks :: marks[k].markerId == markerId) {
        return Err(Required);
      }
      var key :| key in marks && marks[key].markerId == markerId;
      assert Names(marks, key, markerId);
      MarkNamedIs(marks, markerId, key);
      var mark := marks[key];
      assert forall k | k in marks && marks[k].markerId == markerId :: Names(marks, k, markerId) && k == key;
      if mark.subject != subject || mark.kind != expected || mark.expiresAt <= now || mark.executing {
        return Err(Required);
      }
      marks := marks[key := mark.(executing := true)];
      assert marks == Executing(old(marks), [markerId]);
      r := Ok(marks[key]);
    }

    method ConsumeActionMarks(now: nat, markers: seq<string>, subject: string, kind: Kind)
      returns (r: Result<seq<Mark>, Failure>)
      requires UniqueMarkers(marks)
      modifies this
      ensures Admission(marks, r) == ConsumeAll(old(marks), now, markers, subject, kind)
    {
      var keys := ValidateMarkers(marks, now, markers, subject, kind);
      if keys.None? {
        return Err(Required);
      }
      var taken;
      marks, taken := TakeMarks(marks, keys.value, markers);
      r := Ok(taken);
    }

    method FinishActionMark(mark: Mark)
      modifies this
      ensures marks == Finished(old(marks), mark)
    {
      var key := (mark.subject, mark.resource.messageId);
      if key in marks && marks[key].markerId == mark.markerId {
        marks := marks - {key};
      }
    }
  }

  // The single call's tests over the table are those of a list of one.
  lemma OneResourceTests(t: Table, subject: string, r: Resource)
    ensures Blocked(t, subject, [r]) <==> exists k | k in t :: Touches(t[k], subject, r) && t[k].executing
    ensures Untouched(t, subject, [r]) == map k | k in t && !Touches(t[k], subject, r) :: t[k]
  {
    forall m: Mark ensures TouchesAny(m, subject, [r]) <==> Touches(m, subject, r) {
      TouchesAnyOne(m, subject, r);
    }
  }

  method InsertMarks(
    kept: Table, now: nat, subject: string, resources: seq<Resource>, kind: Kind, freshIds: seq<string>)
    returns (marks: Table)
    requires |freshIds| == |resources|
    ensures marks == Inserted(kept, now, subject, resources, kind, freshIds)
  {
    marks := kept;
    var i := 0;
    while i < |resources|
      invariant 0 <= i <= |resources|
      invariant marks == Inserted(kept, now, subject, resources[..i], kind, freshIds[..i])
    {
      assert resources[..i + 1][..i] == resources[..i] && freshIds[..i + 1][..i] == freshIds[..i];
      var r := resources[i];
      marks := marks[(subject, r.messageId) := Mark(freshIds[i], subject, r, kind, now + MARK_TTL, false)];
      i := i + 1;
    }
    assert resources[..i] == resources && freshIds[..i] == freshIds;
  }

  // First pass of a bulk consumption: nothing is changed until every marker has been accepted.
  method ValidateMarkers(marks: Table, now: nat, markers: seq<string>, subject: string, kind: Kind)
    returns (found: Option<seq<Key>>)
    requires UniqueMarkers(marks)
    ensures found.Some? <==> CanConsumeAll(marks, now, markers, subject, kind)
    ensures found.Some? ==>
              |found.value| == |markers| && forall j | 0 <= j < |markers| :: Names(marks, found.value[j], markers[j])
  {
    var keys: seq<Key> := [];
    var seen: set<Key> := {};
    var i := 0;
    while i < |markers|
      invariant 0 <= i <= |markers| && |keys| == i
      invariant seen == set k | k in keys
      invariant forall j | 0 <= j < i ::
                  Names(marks, keys[j], markers[j]) && Consumable(marks[keys[j]], now, subject, kind)
      invariant forall j, l | 0 <= j < l < i :: markers[j] != markers[l]
    {
      if !(exists k | k in marks :: marks[k].markerId == markers[i]) {
        assert !CanConsume(marks, now, markers[i], subject, kind);
        return None;
      }
      var key :| key in marks && marks[key].markerId == markers[i];
      assert Names(marks, key, markers[i]);
      var m := marks[key];
      if m.subject != subject || m.kind != kind || m.executing || m.expiresAt <= now || key in seen {
        RefusedMember(marks, now, markers, subject, kind, i, keys, key);
        return None;
      }
      assert forall j | 0 <= j < i :: markers[j] == markers[i] ==> Names(marks, keys[j], markers[i]);
      keys := keys + [key];
      seen := seen + {key};
      i := i + 1;
    }
    found := Some(keys);
  }

  // Second pass: set every accepted mark executing and copy it out, in request order.
  method TakeMarks(table: Table, keys: seq<Key>, ghost markers: seq<string>) returns (marks: Table, taken: seq<Mark>)
    requires UniqueMarkers(table) && |keys| == |markers|
    requires forall j | 0 <= j < |markers| :: Names(table, keys[j], markers[j])
    ensures marks == Executing(table, markers)
    ensures taken == seq(|markers|, j requires 0 <= j < |markers| => Begun(MarkNamed(table, markers[j])))
  {
    marks := table;
    taken := [];
    var i := 0;
    while i < |keys|
      invariant 0 <= i <= |keys| && |taken| == i
      invariant marks == Executing(table, markers[..i])
      invariant forall j | 0 <= j < i :: taken[j] == Begun(MarkNamed(table, markers[j]))
    {
      ghost var was := marks;
      var m := marks[keys[i]].(executing := true);
      marks := marks[keys[i] := m];
      taken := taken + [m];
      assert markers[..i + 1] == markers[..i] + [markers[i]];
      ExecutingMore(table, markers[..i], markers[i]);
      ExecutingOne(was, keys[i], markers[i], markers[..i], table);
      MarkNamedIs(table, markers[i], keys[i]);
      i := i + 1;
    }
    assert markers[..i] == markers;
  }

  // The bulk call's own duplicate test: one pass with a set of messages and a set of drafts.
  method CheckDistinct(resources: seq<Resource>) returns (distinct: bool)
    ensures distinct <==> Distinct(resources)
  {
    var seen: set<string> := {};
    var drafts: set<string> := {};
    var i := 0;
    while i < |resources|
      invariant 0 <= i <= |resources|
      invariant Distinct(resources[..i])
      invariant seen == set r | r in resources[..i] :: r.messageId
      invariant drafts == set r | r in resources[..i] && r.draftId.Some? :: r.draftId.value
    {
      var r := resources[i];
      assert resources[..i + 1] == resources[..i] + [r];
      if r.messageId in seen || (r.draftId.Some? && r.draftId.value in drafts) {
        var b :| b in resources[..i] && Clash(b, r);
        var j :| 0 <= j < i && resources[..i][j] == b;
        assert Clash(resources[j], resources[i]);
        return false;
      }
      forall j | 0 <= j < i ensures !Clash(resources[j], r) {
        assert resources[..i][j] in resources[..i];
      }
      seen := seen + {r.messageId};
      drafts := if r.draftId.Some? then drafts + {r.draftId.value} else drafts;
      i := i + 1;
    }
    assert resources[..i] == resources;
    return true;
  }

  lemma RefusedMember(
    t: Table, now: nat, markers: seq<string>, subject: string, kind: Kind, i: nat, keys: seq<Key>, key: Key)
    requires UniqueMarkers(t) && i < |markers| && |keys| == i
    requires forall j | 0 <= j < i :: Names(t, keys[j], markers[j])
    requires Names(t, key, markers[i])
    requires !Consumable(t[key], now, subject, kind) || key in keys
    ensures !CanConsumeAll(t, now, markers, subject, kind)
  {
    if key in keys {
      var j :| 0 <= j < i && keys[j] == key;
      assert markers[j] == markers[i];
    } else {
      assert forall k | k in t && Names(t, k, markers[i]) :: k == key;
    }
  }

  lemma ExecutingOne(t: Table, key: Key, id: string, before: seq<string>, original: Table)
    requires UniqueMarkers(original) && t == Executing(original, before) && Names(original, key, id)
    ensures key in t && t[key := t[key].(executing := true)] == Executing(t, [id])
  {
    forall k | k in t && t[k].markerId == id ensures k == key {
      assert original[k].markerId == t[k].markerId;
      assert Names(original, k, id);
    }
  }
}
