// What the mark table promises: its invariant, atomic bulk forms against their one-by-one forms, and frames.
module ActionMarkLaws {
  import opened Wrappers
  import opened ActionMarks

  lemma SubmapSize<K, V>(a: map<K, V>, b: map<K, V>)
    requires a.Keys <= b.Keys
    ensures |a| <= |b|
    ensures a.Keys != b.Keys ==> |a| < |b|
  {
    assert b.Keys == a.Keys + (b.Keys - a.Keys);
  }

  // --- Registration: shape of the new table -------------------------------------------------------

  lemma {:induction false} InsertedFacts(
    t: Table, now: nat, subject: string, rs: seq<Resource>, kind: Kind, ids: seq<string>)
    requires |ids| == |rs| && Distinct(rs)
    requires forall i | 0 <= i < |rs| :: (subject, rs[i].messageId) !in t
    ensures var u := Inserted(t, now, subject, rs, kind, ids);
            && |u| == |t| + |rs|
            && (forall k | k in t :: k in u && u[k] == t[k])
            && (forall i | 0 <= i < |rs| :: HoldsNew(u, now, subject, rs, kind, ids, i))
            && (forall k | k in u && k !in t :: exists i | 0 <= i < |rs| :: k == (subject, rs[i].messageId))
    decreases |rs|
  {
    if rs != [] {
      var n := |rs| - 1;
      var front, frontIds := rs[..n], ids[..n];
      forall i, j | 0 <= i < j < n ensures !Clash(front[i], front[j]) {
        assert front[i] == rs[i] && front[j] == rs[j];
      }
      InsertedFacts(t, now, subject, front, kind, frontIds);
      InsertOneMore(t, Inserted(t, now, subject, front, kind, frontIds), now, subject, rs, kind, ids);
    }
  }

  // Resource i has its pending mark, of the subject and kind that were asked for, good for 600 s.
  ghost predicate HoldsNew(
    u: Table, now: nat, subject: string, rs: seq<Resource>, kind: Kind, ids: seq<string>, i: nat)
    requires |ids| == |rs| && i < |rs|
  {
    var key := (subject, rs[i].messageId);
    key in u && u[key] == Mark(ids[i], subject, rs[i], kind, now + 600_000_000_000, false)
  }

  lemma InsertOneMore(
    t: Table, before: Table, now: nat, subject: string, rs: seq<Resource>, kind: Kind, ids: seq<string>)
    requires |ids| == |rs| > 0 && Distinct(rs) && (subject, rs[|rs| - 1].messageId) !in t
    requires var n := |rs| - 1;
             && |before| == |t| + n
             && (forall k | k in t :: k in before && before[k] == t[k])
             && (forall i | 0 <= i < n :: HoldsNew(before, now, subject, rs[..n], kind, ids[..n], i))
             && (forall k | k in before && k !in t :: exists i | 0 <= i < n :: k == (subject, rs[..n][i].messageId))
    ensures var n := |rs| - 1;
            var u := before[(subject, rs[n].messageId) := NewMark(now, subject, rs[n], kind, ids[n])];
            && |u| == |t| + |rs|
            && (forall k | k in t :: k in u && u[k] == t[k])
            && (forall i | 0 <= i < |rs| :: HoldsNew(u, now, subject, rs, kind, ids, i))
            && (forall k | k in u && k !in t :: exists i | 0 <= i < |rs| :: k == (subject, rs[i].messageId))
  {
    var n := |rs| - 1;
    var key := (subject, rs[n].messageId);
    var u := before[key := NewMark(now, subject, rs[n], kind, ids[n])];
    if key in before {
      var i :| 0 <= i < n && key == (subject, rs[..n][i].messageId);
      assert Clash(rs[i], rs[n]);
    }
    forall i | 0 <= i < |rs| ensures HoldsNew(u, now, subject, rs, kind, ids, i) {
      if i < n {
        assert HoldsNew(before, now, subject, rs[..n], kind, ids[..n], i);
      }
    }
    forall k | k in u && k !in t ensures exists i | 0 <= i < |rs| :: k == (subject, rs[i].messageId) {
      if k != key {
        var i :| 0 <= i < n && k == (subject, rs[..n][i].messageId);
        assert k == (subject, rs[i].messageId);
      }
    }
  }

  lemma KeysFree(t: Table, subject: string, rs: seq<Resource>)
    requires forall k | k in t :: k == KeyOf(t[k])
    ensures forall i | 0 <= i < |rs| :: (subject, rs[i].messageId) !in Untouched(t, subject, rs)
  {
    forall i | 0 <= i < |rs| ensures (subject, rs[i].messageId) !in Untouched(t, subject, rs) {
      var k := (subject, rs[i].messageId);
      if k in t {
        assert Touches(t[k], subject, rs[i]);
      }
    }
  }

  lemma PurgedOk(t: Table, now: nat)
    requires TableOk(t)
    ensures TableOk(Purged(t, now))
  {
    SubmapSize(Purged(t, now), t);
  }

  // The table a successful bulk registration leaves, described entry by entry.
  lemma RegisteredFacts(t: Table, now: nat, subject: string, rs: seq<Resource>, kind: Kind, ids: seq<string>)
    requires TableOk(t) && |ids| == |rs|
    requires RegisterAll(t, now, subject, rs, kind, ids).result.Ok?
    ensures var u := RegisterAll(t, now, subject, rs, kind, ids).table;
            && |u| <= MAX_MARKS
            && (forall i | 0 <= i < |rs| :: HoldsNew(u, now, subject, rs, kind, ids, i))
            && (forall k | k in t :: Live(t[k], now) && !TouchesAny(t[k], subject, rs) ==> k in u && u[k] == t[k])
            && (forall k | k in u ::
                  || (k in t && Live(t[k], now) && !TouchesAny(t[k], subject, rs) && u[k] == t[k])
                  || (exists i | 0 <= i < |rs| ::
                        k == (subject, rs[i].messageId) && HoldsNew(u, now, subject, rs, kind, ids, i)))
  {
    PurgedOk(t, now);
    var kept := Untouched(Purged(t, now), subject, rs);
    KeysFree(Purged(t, now), subject, rs);
    InsertedFacts(kept, now, subject, rs, kind, ids);
    var u := RegisterAll(t, now, subject, rs, kind, ids).table;
    forall k | k in u && k !in kept
      ensures exists i | 0 <= i < |rs| ::
          k == (subject, rs[i].messageId) && HoldsNew(u, now, subject, rs, kind, ids, i)
    {
      var i :| 0 <= i < |rs| && k == (subject, rs[i].messageId);
      assert HoldsNew(u, now, subject, rs, kind, ids, i);
    }
  }

  lemma RegisterAllKeepsTable(t: Table, now: nat, subject: string, rs: seq<Resource>, kind: Kind, ids: seq<string>)
    requires TableOk(t) && |ids| == |rs| && FreshIds(t, ids)
    ensures TableOk(RegisterAll(t, now, subject, rs, kind, ids).table)
  {
    PurgedOk(t, now);
    var a := RegisterAll(t, now, subject, rs, kind, ids);
    if a.result.Ok? {
      RegisteredFacts(t, now, subject, rs, kind, ids);
      var u := a.table;
      forall k, l | k in u && l in u && k != l ensures Exclusive(u[k], u[l]) {
        OldAndNewExclusive(t, now, subject, rs, kind, ids, k, l);
      }
    }
  }

  ghost predicate KeptEntry(t: Table, u: Table, subject: string, rs: seq<Resource>, k: Key) {
    k in t && k in u && u[k] == t[k] && !TouchesAny(t[k], subject, rs)
  }

  lemma KeptAndNewExclusive(
    t: Table, u: Table, now: nat, subject: string, rs: seq<Resource>, kind: Kind, ids: seq<string>, k: Key, i: nat)
    requires |ids| == |rs| && FreshIds(t, ids) && KeptEntry(t, u, subject, rs, k) && i < |rs|
    ensures var m := NewMark(now, subject, rs[i], kind, ids[i]); Exclusive(u[k], m) && Exclusive(m, u[k])
  {
    assert !Touches(t[k], subject, rs[i]);
    assert ids[i] in ids;
  }

  lemma NewMarksExclusive(
    now: nat, subject: string, rs: seq<Resource>, kind: Kind, ids: seq<string>, i: nat, j: nat)
    requires |ids| == |rs| && NoRepeats(ids) && Distinct(rs) && i < |rs| && j < |rs| && i != j
    ensures Exclusive(NewMark(now, subject, rs[i], kind, ids[i]), NewMark(now, subject, rs[j], kind, ids[j]))
  {
    if i < j {
      assert !Clash(rs[i], rs[j]);
    } else {
      assert !Clash(rs[j], rs[i]);
    }
  }

  // An entry of the new table is one that was kept or the new mark of some resource.
  lemma KeptOrNew(
    t: Table, now: nat, subject: string, rs: seq<Resource>, kind: Kind, ids: seq<string>, k: Key)
    returns (i: nat)
    requires TableOk(t) && |ids| == |rs| && RegisterAll(t, now, subject, rs, kind, ids).result.Ok?
    requires k in RegisterAll(t, now, subject, rs, kind, ids).table
    ensures var u := RegisterAll(t, now, subject, rs, kind, ids).table;
            || KeptEntry(t, u, subject, rs, k)
            || (i < |rs| && k == (subject, rs[i].messageId) && u[k] == NewMark(now, subject, rs[i], kind, ids[i]))
  {
    RegisteredFacts(t, now, subject, rs, kind, ids);
    var u := RegisterAll(t, now, subject, rs, kind, ids).table;
    if KeptEntry(t, u, subject, rs, k) {
      i := 0;
    } else {
      i :| 0 <= i < |rs| && k == (subject, rs[i].messageId) && u[k] == NewMark(now, subject, rs[i], kind, ids[i]);
    }
  }

  lemma OldAndNewExclusive(
    t: Table, now: nat, subject: string, rs: seq<Resource>, kind: Kind, ids: seq<string>, k: Key, l: Key)
    requires TableOk(t) && |ids| == |rs| && FreshIds(t, ids)
    requires RegisterAll(t, now, subject, rs, kind, ids).result.Ok?
    requires var u := RegisterAll(t, now, subject, rs, kind, ids).table; k in u && l in u && k != l
    ensures var u := RegisterAll(t, now, subject, rs, kind, ids).table; Exclusive(u[k], u[l])
  {
    var u := RegisterAll(t, now, subject, rs, kind, ids).table;
    var i := KeptOrNew(t, now, subject, rs, kind, ids, k);
    var j := KeptOrNew(t, now, subject, rs, kind, ids, l);
    if KeptEntry(t, u, subject, rs, k) {
      if KeptEntry(t, u, subject, rs, l) {
        assert Exclusive(t[k], t[l]);
      } else {
        KeptAndNewExclusive(t, u, now, subject, rs, kind, ids, k, j);
      }
    } else if KeptEntry(t, u, subject, rs, l) {
      KeptAndNewExclusive(t, u, now, subject, rs, kind, ids, l, i);
    } else {
      NewMarksExclusive(now, subject, rs, kind, ids, i, j);
    }
  }

  // A failed registration changes no live mark, and a registration never disturbs an executing one.
  lemma RegistrationFrame(t: Table, now: nat, subject: string, rs: seq<Resource>, kind: Kind, ids: seq<string>)
    requires TableOk(t) && |ids| == |rs|
    ensures var a := RegisterAll(t, now, subject, rs, kind, ids);
            && (a.result.Err? ==> forall k | k in t && Live(t[k], now) :: k in a.table && a.table[k] == t[k])
            && (a.result.Err? ==> forall k | k in a.table :: k in t && a.table[k] == t[k])
            && (forall k | k in t && t[k].executing :: k in a.table && a.table[k] == t[k])
  {
    var a := RegisterAll(t, now, subject, rs, kind, ids);
    if a.result.Ok? {
      RegisteredFacts(t, now, subject, rs, kind, ids);
      forall k | k in t && t[k].executing ensures k in a.table && a.table[k] == t[k] {
        assert k in Purged(t, now);
      }
    }
  }

  // --- Registration: one call against many --------------------------------------------------------

  lemma TouchesAnyOne(m: Mark, subject: string, r: Resource)
    ensures TouchesAny(m, subject, [r]) <==> Touches(m, subject, r)
  {
    assert Touches(m, subject, r) ==> Touches(m, subject, [r][0]);
  }

  // The single call's capacity test and the bulk call's, on a table within its bound.
  lemma LimitTest(u: Table, subject: string, r: Resource)
    requires |u| <= MAX_MARKS
    ensures ((forall k | k in u :: !Touches(u[k], subject, r)) && |u| >= MAX_MARKS)
            <==> |Untouched(u, subject, [r])| + 1 > MAX_MARKS
  {
    var fewer := Untouched(u, subject, [r]);
    forall k | k in u ensures k in fewer <==> !Touches(u[k], subject, r) {
      TouchesAnyOne(u[k], subject, r);
    }
    SubmapSize(fewer, u);
    if forall k | k in u :: !Touches(u[k], subject, r) {
      assert fewer == u;
    } else {
      var k :| k in u && Touches(u[k], subject, r);
      assert k in u.Keys && k !in fewer.Keys;
    }
  }

  // A one-element bulk registration is the single call; this needs the size bound.
  lemma SingletonIsRegisterOne(t: Table, now: nat, subject: string, r: Resource, kind: Kind, id: string)
    requires TableOk(t)
    ensures var one := RegisterOne(t, now, subject, r, kind, id);
            var all := RegisterAll(t, now, subject, [r], kind, [id]);
            && one.table == all.table
            && all.result == (if one.result.Ok? then Ok([one.result.value]) else Err(one.result.error))
  {
    var p := Purged(t, now);
    SubmapSize(p, t);
    LimitTest(p, subject, r);
    InsertedOne(Untouched(p, subject, [r]), now, subject, r, kind, id);
  }

  lemma InsertedOne(t: Table, now: nat, subject: string, r: Resource, kind: Kind, id: string)
    ensures Inserted(t, now, subject, [r], kind, [id])
            == t[(subject, r.messageId) := NewMark(now, subject, r, kind, id)]
  {
    assert [r][..0] == [] && [id][..0] == [];
  }

  // The single call on a table of live marks within its bound.
  lemma OneOnLiveTable(u: Table, now: nat, subject: string, r: Resource, kind: Kind, id: string)
    requires Purged(u, now) == u && |u| <= MAX_MARKS
    ensures RegisterOne(u, now, subject, r, kind, id) ==
            if Blocked(u, subject, [r]) then Admission(u, Err(InProgress))
            else if |Untouched(u, subject, [r])| + 1 > MAX_MARKS then Admission(u, Err(Limit))
            else Admission(
                   Untouched(u, subject, [r])[(subject, r.messageId) := NewMark(now, subject, r, kind, id)], Ok(id))
  {
    LimitTest(u, subject, r);
  }

  lemma BulkLeavesLiveTable(
    t: Table, now: nat, subject: string, rs: seq<Resource>, kind: Kind, ids: seq<string>, r: Resource)
    requires TableOk(t) && |ids| == |rs| && Distinct(rs + [r])
    requires RegisterAll(t, now, subject, rs, kind, ids).result.Ok?
    ensures var u := RegisterAll(t, now, subject, rs, kind, ids).table;
            Purged(u, now) == u && |u| <= MAX_MARKS
  {
    NewMarksStay(t, now, subject, rs, kind, ids, r);
    RegisteredFacts(t, now, subject, rs, kind, ids);
  }

  // One more resource on top of a bulk registration that succeeded: the bulk call over the longer list
  // and the extra single call agree, on success, on the table and on the failure.
  lemma ExtendBulk(
    t: Table, now: nat, subject: string, rs: seq<Resource>, kind: Kind, ids: seq<string>, r: Resource, id: string)
    requires TableOk(t) && |ids| == |rs| && Distinct(rs + [r])
    requires RegisterAll(t, now, subject, rs, kind, ids).result.Ok?
    ensures var u := RegisterAll(t, now, subject, rs, kind, ids).table;
            var one := RegisterOne(u, now, subject, r, kind, id);
            var all := RegisterAll(t, now, subject, rs + [r], kind, ids + [id]);
            && (one.result.Ok? <==> all.result.Ok?)
            && (one.result.Ok? ==> one.table == all.table)
            && (one.result.Err? ==> one.result.error == all.result.error)
  {
    var u := RegisterAll(t, now, subject, rs, kind, ids).table;
    DistinctFront(rs, r);
    BulkLeavesLiveTable(t, now, subject, rs, kind, ids, r);
    OneOnLiveTable(u, now, subject, r, kind, id);
    BlockedExtends(t, now, subject, rs, kind, ids, r);
    TableExtends(Purged(t, now), now, subject, rs, kind, ids, r, id);
  }

  lemma TouchesAnyExtends(m: Mark, subject: string, rs: seq<Resource>, r: Resource)
    ensures TouchesAny(m, subject, rs + [r]) <==> TouchesAny(m, subject, rs) || Touches(m, subject, r)
  {
    if TouchesAny(m, subject, rs) {
      var i :| 0 <= i < |rs| && Touches(m, subject, rs[i]);
      assert (rs + [r])[i] == rs[i];
    }
    if Touches(m, subject, r) {
      assert (rs + [r])[|rs|] == r;
    }
    if TouchesAny(m, subject, rs + [r]) {
      var i :| 0 <= i < |rs| + 1 && Touches(m, subject, (rs + [r])[i]);
      assert i < |rs| ==> (rs + [r])[i] == rs[i];
    }
  }

  // Marks just registered are live and do not touch a further distinct resource.
  lemma NewMarksStay(
    t: Table, now: nat, subject: string, rs: seq<Resource>, kind: Kind, ids: seq<string>, r: Resource)
    requires TableOk(t) && |ids| == |rs| && Distinct(rs + [r])
    requires RegisterAll(t, now, subject, rs, kind, ids).result.Ok?
    ensures var u := RegisterAll(t, now, subject, rs, kind, ids).table;
            && (forall k | k in u :: Live(u[k], now))
            && (forall k | k in u && Touches(u[k], subject, r) ::
                  k in t && u[k] == t[k] && Live(t[k], now) && !TouchesAny(t[k], subject, rs))
  {
    RegisteredFacts(t, now, subject, rs, kind, ids);
    var u := RegisterAll(t, now, subject, rs, kind, ids).table;
    forall k | k in u && !(k in t && Live(t[k], now) && !TouchesAny(t[k], subject, rs) && u[k] == t[k])
      ensures Live(u[k], now) && !Touches(u[k], subject, r)
    {
      var i :| 0 <= i < |rs| && k == (subject, rs[i].messageId) && HoldsNew(u, now, subject, rs, kind, ids, i);
      NewMarkStays(u, now, subject, rs, kind, ids, i, r);
    }
  }

  lemma NewMarkStays(
    u: Table, now: nat, subject: string, rs: seq<Resource>, kind: Kind, ids: seq<string>, i: nat, r: Resource)
    requires |ids| == |rs| && i < |rs| && Distinct(rs + [r]) && HoldsNew(u, now, subject, rs, kind, ids, i)
    ensures var m := u[(subject, rs[i].messageId)]; Live(m, now) && !Touches(m, subject, r)
  {
    assert (rs + [r])[i] == rs[i] && (rs + [r])[|rs|] == r;
    assert !Clash(rs[i], r);
  }

  lemma BlockedExtends(
    t: Table, now: nat, subject: string, rs: seq<Resource>, kind: Kind, ids: seq<string>, r: Resource)
    requires TableOk(t) && |ids| == |rs| && Distinct(rs + [r])
    requires RegisterAll(t, now, subject, rs, kind, ids).result.Ok?
    ensures var u := RegisterAll(t, now, subject, rs, kind, ids).table;
            Blocked(u, subject, [r]) <==> Blocked(Purged(t, now), subject, rs + [r])
  {
    var u := RegisterAll(t, now, subject, rs, kind, ids).table;
    var p := Purged(t, now);
    RegisteredFacts(t, now, subject, rs, kind, ids);
    NewMarksStay(t, now, subject, rs, kind, ids, r);
    if Blocked(u, subject, [r]) {
      var k :| k in u && u[k].executing && TouchesAny(u[k], subject, [r]);
      TouchesAnyOne(u[k], subject, r);
      TouchesAnyExtends(u[k], subject, rs, r);
      assert k in p && p[k].executing && TouchesAny(p[k], subject, rs + [r]);
    }
    if Blocked(p, subject, rs + [r]) {
      var k :| k in p && p[k].executing && TouchesAny(p[k], subject, rs + [r]);
      TouchesAnyExtends(p[k], subject, rs, r);
      assert !TouchesAny(p[k], subject, rs);
      TouchesAnyOne(p[k], subject, r);
      assert k in u && u[k].executing && TouchesAny(u[k], subject, [r]);
    }
  }

  lemma UntouchedExtends(t: Table, subject: string, rs: seq<Resource>, r: Resource)
    ensures Untouched(t, subject, rs + [r]) == Untouched(Untouched(t, subject, rs), subject, [r])
  {
    forall k | k in t
      ensures TouchesAny(t[k], subject, rs + [r]) <==> TouchesAny(t[k], subject, rs) || TouchesAny(t[k], subject, [r])
    {
      TouchesAnyExtends(t[k], subject, rs, r);
      TouchesAnyOne(t[k], subject, r);
    }
  }

  // Dropping the marks one more resource touches commutes with inserting marks it does not touch.
  lemma {:induction false} UntouchedInserted(
    t: Table, now: nat, subject: string, rs: seq<Resource>, kind: Kind, ids: seq<string>, r: Resource)
    requires |ids| == |rs|
    requires forall k | k in t :: k == KeyOf(t[k])
    requires forall i | 0 <= i < |rs| :: !Clash(rs[i], r)
    ensures Untouched(Inserted(t, now, subject, rs, kind, ids), subject, [r])
            == Inserted(Untouched(t, subject, [r]), now, subject, rs, kind, ids)
    decreases |rs|
  {
    if rs != [] {
      var n := |rs| - 1;
      UntouchedInserted(t, now, subject, rs[..n], kind, ids[..n], r);
      var m := NewMark(now, subject, rs[n], kind, ids[n]);
      TouchesAnyOne(m, subject, r);
      var x := Inserted(t, now, subject, rs[..n], kind, ids[..n]);
      var key := (subject, rs[n].messageId);
      assert Untouched(x[key := m], subject, [r]) == Untouched(x, subject, [r])[key := m];
    }
  }

  lemma DistinctFront(rs: seq<Resource>, r: Resource)
    requires Distinct(rs + [r])
    ensures Distinct(rs) && forall i | 0 <= i < |rs| :: !Clash(rs[i], r)
  {
    forall i | 0 <= i < |rs| ensures !Clash(rs[i], r) {
      assert (rs + [r])[i] == rs[i] && (rs + [r])[|rs|] == r;
    }
    forall i, j | 0 <= i < j < |rs| ensures !Clash(rs[i], rs[j]) {
      assert (rs + [r])[i] == rs[i] && (rs + [r])[j] == rs[j];
    }
  }

  lemma TableExtends(
    t: Table, now: nat, subject: string, rs: seq<Resource>, kind: Kind, ids: seq<string>, r: Resource, id: string)
    requires (forall k | k in t :: k == KeyOf(t[k])) && |ids| == |rs| && Distinct(rs + [r])
    ensures var u := Inserted(Untouched(t, subject, rs), now, subject, rs, kind, ids);
            var fewer := Untouched(t, subject, rs + [r]);
            && |Untouched(u, subject, [r])| == |fewer| + |rs|
            && Untouched(u, subject, [r])[(subject, r.messageId) := NewMark(now, subject, r, kind, id)]
               == Inserted(fewer, now, subject, rs + [r], kind, ids + [id])
  {
    DistinctFront(rs, r);
    var kept := Untouched(t, subject, rs);
    var fewer := Untouched(t, subject, rs + [r]);
    UntouchedExtends(t, subject, rs, r);
    UntouchedInserted(kept, now, subject, rs, kind, ids, r);
    KeysFree(t, subject, rs);
    InsertedFacts(fewer, now, subject, rs, kind, ids);
    assert (rs + [r])[..|rs|] == rs && (ids + [id])[..|rs|] == ids;
  }

  // One-by-one registration of distinct resources at one instant succeeds exactly when the bulk call
  // succeeds on every nonempty prefix, and then both leave the same table and return the same markers.
  lemma {:induction false} EachIsBulkOnEveryPrefix(
    t: Table, now: nat, subject: string, rs: seq<Resource>, kind: Kind, ids: seq<string>)
    requires TableOk(t) && |ids| == |rs| && Distinct(rs)
    ensures RegisterEach(t, now, subject, rs, kind, ids).result.Ok?
            <==> forall k | 1 <= k <= |rs| :: PrefixSucceeds(t, now, subject, rs, kind, ids, k)
    ensures RegisterEach(t, now, subject, rs, kind, ids).result.Ok? && rs != []
            ==> RegisterEach(t, now, subject, rs, kind, ids) == RegisterAll(t, now, subject, rs, kind, ids)
    decreases |rs|
  {
    if rs != [] {
      var n := |rs| - 1;
      EachIsBulkOnEveryPrefix(t, now, subject, rs[..n], kind, ids[..n]);
      PrefixCheck(t, now, subject, rs, kind, ids);
      if RegisterEach(t, now, subject, rs[..n], kind, ids[..n]).result.Ok? {
        LastStep(t, now, subject, rs, kind, ids);
      }
    }
  }

  ghost predicate PrefixSucceeds(
    t: Table, now: nat, subject: string, rs: seq<Resource>, kind: Kind, ids: seq<string>, k: nat)
    requires k <= |rs| == |ids|
  {
    RegisterAll(t, now, subject, rs[..k], kind, ids[..k]).result.Ok?
  }

  lemma PrefixCheck(t: Table, now: nat, subject: string, rs: seq<Resource>, kind: Kind, ids: seq<string>)
    requires |ids| == |rs| > 0
    ensures var n := |rs| - 1;
            (forall k | 1 <= k <= |rs| :: PrefixSucceeds(t, now, subject, rs, kind, ids, k))
            <==> RegisterAll(t, now, subject, rs, kind, ids).result.Ok?
                 && forall k | 1 <= k <= n :: PrefixSucceeds(t, now, subject, rs[..n], kind, ids[..n], k)
  {
    var n := |rs| - 1;
    assert rs[..|rs|] == rs && ids[..|rs|] == ids;
    assert PrefixSucceeds(t, now, subject, rs, kind, ids, |rs|)
        == RegisterAll(t, now, subject, rs, kind, ids).result.Ok?;
    forall k | 1 <= k <= n
      ensures PrefixSucceeds(t, now, subject, rs, kind, ids, k)
              == PrefixSucceeds(t, now, subject, rs[..n], kind, ids[..n], k)
    {
      assert rs[..k] == rs[..n][..k] && ids[..k] == ids[..n][..k];
    }
  }

  lemma LastStep(t: Table, now: nat, subject: string, rs: seq<Resource>, kind: Kind, ids: seq<string>)
    requires TableOk(t) && |ids| == |rs| > 0 && Distinct(rs)
    requires var n := |rs| - 1;
             n > 0 ==> RegisterAll(t, now, subject, rs[..n], kind, ids[..n]).result.Ok?
    ensures var n := |rs| - 1;
            var u := if n == 0 then t else RegisterAll(t, now, subject, rs[..n], kind, ids[..n]).table;
            var one := RegisterOne(u, now, subject, rs[n], kind, ids[n]);
            var all := RegisterAll(t, now, subject, rs, kind, ids);
            && (one.result.Ok? <==> all.result.Ok?)
            && (one.result.Ok? ==> one.table == all.table)
            && (one.result.Err? ==> one.result.error == all.result.error)
  {
    var n := |rs| - 1;
    if n == 0 {
      SingletonIsRegisterOne(t, now, subject, rs[0], kind, ids[0]);
      assert rs == [rs[0]] && ids == [ids[0]];
    } else {
      assert rs[..n] + [rs[n]] == rs && ids[..n] + [ids[n]] == ids;
      ExtendBulk(t, now, subject, rs[..n], kind, ids[..n], rs[n], ids[n]);
    }
  }

  // --- Consumption --------------------------------------------------------------------------------

  lemma MarkersUnique(t: Table)
    requires TableOk(t)
    ensures UniqueMarkers(t)
  {
    forall k, l, id | Names(t, k, id) && Names(t, l, id) ensures k == l {
      assert k != l ==> Exclusive(t[k], t[l]);
    }
  }

  lemma MarkNamedIs(t: Table, id: string, k: Key)
    requires UniqueMarkers(t) && Names(t, k, id)
    ensures MarkNamed(t, id) == t[k]
  {
  }

  // Setting marks to executing changes no identity, so the invariant stands.
  lemma ExecutingKeepsTable(t: Table, ids: seq<string>)
    requires TableOk(t)
    ensures TableOk(Executing(t, ids))
  {
    var u := Executing(t, ids);
    assert u.Keys == t.Keys;
    forall k, l | k in u && l in u && k != l ensures Exclusive(u[k], u[l]) {
      assert Exclusive(t[k], t[l]);
    }
  }

  lemma ExecutingMore(t: Table, ids: seq<string>, id: string)
    ensures Executing(t, ids + [id]) == Executing(Executing(t, ids), [id])
  {
  }

  // Marking other marks as executing does not change whether, or as what, this marker is consumed.
  lemma OthersExecuting(t: Table, now: nat, ids: seq<string>, id: string, subject: string, kind: Kind)
    requires TableOk(t)
    ensures CanConsume(Executing(t, ids), now, id, subject, kind)
            <==> id !in ids && CanConsume(t, now, id, subject, kind)
    ensures CanConsume(Executing(t, ids), now, id, subject, kind)
            ==> (exists k :: Names(t, k, id)) && (exists k :: Names(Executing(t, ids), k, id))
                && MarkNamed(Executing(t, ids), id) == MarkNamed(t, id)
  {
    var u := Executing(t, ids);
    ExecutingKeepsTable(t, ids);
    MarkersUnique(t);
    MarkersUnique(u);
    if CanConsume(u, now, id, subject, kind) {
      var k :| k in u && Names(u, k, id) && Consumable(u[k], now, subject, kind);
      assert Names(t, k, id) && u[k] == t[k];
      MarkNamedIs(t, id, k);
      MarkNamedIs(u, id, k);
    }
    if id !in ids && CanConsume(t, now, id, subject, kind) {
      var k :| k in t && Names(t, k, id) && Consumable(t[k], now, subject, kind);
      assert Names(u, k, id) && u[k] == t[k];
    }
  }

  lemma NoRepeatsFront<T>(s: seq<T>)
    requires s != []
    ensures NoRepeats(s) <==> NoRepeats(s[..|s| - 1]) && s[|s| - 1] !in s[..|s| - 1]
  {
    var n := |s| - 1;
    if NoRepeats(s[..n]) && s[n] !in s[..n] {
      forall i, j | 0 <= i < j < |s| ensures s[i] != s[j] {
        assert s[i] == s[..n][i];
        assert j < n ==> s[j] == s[..n][j];
      }
    }
    if NoRepeats(s) {
      assert forall i | 0 <= i < n :: s[..n][i] == s[i] && s[i] != s[n];
    }
  }

  // Bulk consumption succeeds exactly when the markers could be consumed one by one at the same instant,
  // with the same final table and the same marks in request order.
  lemma {:induction false} EachIsConsumeAll(t: Table, now: nat, ids: seq<string>, subject: string, kind: Kind)
    requires TableOk(t)
    ensures ConsumeEach(t, now, ids, subject, kind).result.Ok? <==> ConsumeAll(t, now, ids, subject, kind).result.Ok?
    ensures ConsumeEach(t, now, ids, subject, kind).result.Ok?
            ==> ConsumeEach(t, now, ids, subject, kind) == ConsumeAll(t, now, ids, subject, kind)
    decreases |ids|
  {
    if ids == [] {
      assert Executing(t, []) == t;
      assert ConsumeAll(t, now, [], subject, kind).result.value == [];
    } else {
      var n := |ids| - 1;
      EachIsConsumeAll(t, now, ids[..n], subject, kind);
      OneMoreConsumed(t, now, ids, subject, kind, ConsumeAll(t, now, ids[..n], subject, kind));
    }
  }

  lemma OneMoreConsumed(
    t: Table, now: nat, ids: seq<string>, subject: string, kind: Kind, front: Admission<seq<Mark>>)
    requires TableOk(t) && ids != [] && front == ConsumeAll(t, now, ids[..|ids| - 1], subject, kind)
    ensures var n := |ids| - 1;
            var all := ConsumeAll(t, now, ids, subject, kind);
            if front.result.Err? then all.result.Err?
            else
              var last := ConsumeOne(front.table, now, ids[n], subject, kind);
              if last.result.Err? then all.result.Err?
              else all == Admission(last.table, Ok(front.result.value + [last.result.value]))
  {
    var n := |ids| - 1;
    CanConsumeFront(t, now, ids, subject, kind);
    if front.result.Ok? {
      OthersExecuting(t, now, ids[..n], ids[n], subject, kind);
      if CanConsumeAll(t, now, ids, subject, kind) {
        MarkersUnique(t);
        ConsumeAllGrows(t, now, ids, subject, kind);
      }
    }
  }

  lemma ConsumeAllGrows(t: Table, now: nat, ids: seq<string>, subject: string, kind: Kind)
    requires UniqueMarkers(t) && ids != [] && CanConsumeAll(t, now, ids, subject, kind)
    requires CanConsumeAll(t, now, ids[..|ids| - 1], subject, kind)
    requires CanConsume(t, now, ids[|ids| - 1], subject, kind)
    ensures var n := |ids| - 1;
            var front := ConsumeAll(t, now, ids[..n], subject, kind);
            ConsumeAll(t, now, ids, subject, kind)
            == Admission(Executing(front.table, [ids[n]]), Ok(front.result.value + [Begun(MarkNamed(t, ids[n]))]))
  {
    var n := |ids| - 1;
    assert ids[..n] + [ids[n]] == ids;
    ExecutingMore(t, ids[..n], ids[n]);
    assert ConsumeAll(t, now, ids, subject, kind).result.value
        == ConsumeAll(t, now, ids[..n], subject, kind).result.value + [Begun(MarkNamed(t, ids[n]))];
  }

  lemma CanConsumeFront(t: Table, now: nat, ids: seq<string>, subject: string, kind: Kind)
    requires ids != []
    ensures var n := |ids| - 1;
            CanConsumeAll(t, now, ids, subject, kind)
            <==> CanConsumeAll(t, now, ids[..n], subject, kind)
                 && ids[n] !in ids[..n] && CanConsume(t, now, ids[n], subject, kind)
  {
    var n := |ids| - 1;
    NoRepeatsFront(ids);
    assert forall i | 0 <= i < n :: ids[..n][i] == ids[i];
    if CanConsumeAll(t, now, ids[..n], subject, kind) && CanConsume(t, now, ids[n], subject, kind) {
      forall i | 0 <= i < |ids| ensures CanConsume(t, now, ids[i], subject, kind) {
        if i < n {
          assert ids[i] == ids[..n][i];
        }
      }
    }
  }

  // What a successful consumption returns: the table's own pending entries, now executing, in request order.
  ghost predicate Took(
    t: Table, u: Table, now: nat, ids: seq<string>, subject: string, kind: Kind, taken: seq<Mark>)
  {
    && |taken| == |ids|
    && NoRepeats(ids)
    && u.Keys == t.Keys
    && (forall i {:trigger TookOne(t, u, now, ids[i], subject, kind, taken[i])} | 0 <= i < |ids| ::
          TookOne(t, u, now, ids[i], subject, kind, taken[i]))
    && (forall k {:trigger LeftAlone(t, u, ids, k)} | k in t :: LeftAlone(t, u, ids, k))
  }

  ghost predicate TookOne(t: Table, u: Table, now: nat, id: string, subject: string, kind: Kind, m: Mark) {
    && m.markerId == id && m.subject == subject && m.kind == kind && m.executing && m.expiresAt > now
    && KeyOf(m) in t && t[KeyOf(m)] == m.(executing := false)
    && KeyOf(m) in u && u[KeyOf(m)] == m
  }

  ghost predicate LeftAlone(t: Table, u: Table, ids: seq<string>, k: Key)
    requires k in t && k in u
  {
    u[k] == if t[k].markerId in ids then Begun(t[k]) else t[k]
  }

  lemma ConsumedFacts(t: Table, now: nat, ids: seq<string>, subject: string, kind: Kind)
    requires TableOk(t) && ConsumeAll(t, now, ids, subject, kind).result.Ok?
    ensures var a := ConsumeAll(t, now, ids, subject, kind);
            TableOk(a.table) && Took(t, a.table, now, ids, subject, kind, a.result.value)
  {
    var a := ConsumeAll(t, now, ids, subject, kind);
    ExecutingKeepsTable(t, ids);
    MarkersUnique(t);
    forall i | 0 <= i < |ids| ensures TookOne(t, a.table, now, ids[i], subject, kind, a.result.value[i]) {
      assert CanConsume(t, now, ids[i], subject, kind);
      var k :| k in t && Names(t, k, ids[i]) && Consumable(t[k], now, subject, kind);
      MarkNamedIs(t, ids[i], k);
    }
  }

  // --- Finishing ----------------------------------------------------------------------------------

  // Finishing removes exactly the caller's own entry: a foreign mark is never removed.
  lemma FinishFacts(t: Table, m: Mark)
    requires TableOk(t)
    ensures TableOk(Finished(t, m))
    ensures forall k | k in t && t[k].markerId != m.markerId :: k in Finished(t, m) && Finished(t, m)[k] == t[k]
    ensures forall k | k in Finished(t, m) :: k in t && Finished(t, m)[k] == t[k]
    ensures KeyOf(m) in t && t[KeyOf(m)] == m ==> forall k | k in Finished(t, m) :: t[k].markerId != m.markerId
  {
    SubmapSize(Finished(t, m), t);
    MarkersUnique(t);
    if KeyOf(m) in t && t[KeyOf(m)] == m {
      forall k | k in Finished(t, m) ensures t[k].markerId != m.markerId {
        assert Names(t, KeyOf(m), m.markerId) && (t[k].markerId == m.markerId ==> Names(t, k, m.markerId));
      }
    }
  }
}
