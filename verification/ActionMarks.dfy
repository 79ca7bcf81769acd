// The broker's table of pending one-use action marks (src/broker/actions.rs, src/broker/actions/bulk.rs).
// The table is specified by functions on an immutable map; class ActionStore performs the same
// operations by the source's loops and in-place updates and is proved to agree with them.
module ActionMarks {
  import opened Wrappers

  // Instants are counted in nanoseconds; the time to live is ten minutes.
  const MARK_TTL: nat := 600_000_000_000
  const MAX_MARKS: nat := 256

  datatype Kind = TrashMessage | DeleteDraft | SendDraft

  datatype Resource = Resource(messageId: string, draftId: Option<string>)

  datatype Mark = Mark(
    markerId: string, subject: string, resource: Resource, kind: Kind, expiresAt: nat, executing: bool)

  type Key = (string, string)
  type Table = map<Key, Mark>

  datatype Failure = Limit | InProgress | Required

  // The table after a call, and what the call returned.
  datatype Admission<T> = Admission(table: Table, result: Result<T, Failure>)

  function KeyOf(m: Mark): Key {
    (m.subject, m.resource.messageId)
  }

  predicate Live(m: Mark, now: nat) {
    m.executing || m.expiresAt > now
  }

  function Purged(t: Table, now: nat): Table {
    map k | k in t && Live(t[k], now) :: t[k]
  }

  // A mark occupies a resource when it is the same subject's and shares the message or the draft.
  predicate Touches(m: Mark, subject: string, r: Resource) {
    && m.subject == subject
    && (m.resource.messageId == r.messageId || (r.draftId.Some? && m.resource.draftId == r.draftId))
  }

  predicate TouchesAny(m: Mark, subject: string, rs: seq<Resource>) {
    exists i | 0 <= i < |rs| :: Touches(m, subject, rs[i])
  }

  function Untouched(t: Table, subject: string, rs: seq<Resource>): Table {
    map k | k in t && !TouchesAny(t[k], subject, rs) :: t[k]
  }

  predicate Blocked(t: Table, subject: string, rs: seq<Resource>) {
    exists k | k in t :: t[k].executing && TouchesAny(t[k], subject, rs)
  }

  predicate Clash(a: Resource, b: Resource) {
    a.messageId == b.messageId || (a.draftId.Some? && a.draftId == b.draftId)
  }

  predicate Distinct(rs: seq<Resource>) {
    forall i, j | 0 <= i < j < |rs| :: !Clash(rs[i], rs[j])
  }

  function NewMark(now: nat, subject: string, r: Resource, kind: Kind, id: string): Mark {
    Mark(id, subject, r, kind, now + MARK_TTL, false)
  }

  function Inserted(t: Table, now: nat, subject: string, rs: seq<Resource>, kind: Kind, ids: seq<string>): Table
    requires |ids| == |rs|
    decreases |rs|
  {
    if rs == [] then t
    else
      var n := |rs| - 1;
      Inserted(t, now, subject, rs[..n], kind, ids[..n])[
      (subject, rs[n].messageId) := NewMark(now, subject, rs[n], kind, ids[n])]
  }

  // --- Registration -------------------------------------------------------------------------------

  function RegisterOne(t: Table, now: nat, subject: string, r: Resource, kind: Kind, id: string): Admission<string> {
    var p := Purged(t, now);
    if Blocked(p, subject, [r]) then Admission(p, Err(InProgress))
    else if (forall k | k in p :: !Touches(p[k], subject, r)) && |p| >= MAX_MARKS then Admission(p, Err(Limit))
    else
      Admission(
        Untouched(p, subject, [r])[(subject, r.messageId) := NewMark(now, subject, r, kind, id)],
        Ok(id))
  }

  function RegisterAll(t: Table, now: nat, subject: string, rs: seq<Resource>, kind: Kind, ids: seq<string>)
    : Admission<seq<string>>
    requires |ids| == |rs|
  {
    if !Distinct(rs) then Admission(t, Err(Required))
    else
      var p := Purged(t, now);
      var kept := Untouched(p, subject, rs);
      if Blocked(p, subject, rs) then Admission(p, Err(InProgress))
      else if |kept| + |rs| > MAX_MARKS then Admission(p, Err(Limit))
      else Admission(Inserted(kept, now, subject, rs, kind, ids), Ok(ids))
  }

  // Registering the resources one call at a time, all at the same instant, stopping at the first failure.
  function RegisterEach(t: Table, now: nat, subject: string, rs: seq<Resource>, kind: Kind, ids: seq<string>)
    : Admission<seq<string>>
    requires |ids| == |rs|
    decreases |rs|
  {
    if rs == [] then Admission(t, Ok([]))
    else
      var n := |rs| - 1;
      var before := RegisterEach(t, now, subject, rs[..n], kind, ids[..n]);
      if before.result.Err? then before
      else
        var last := RegisterOne(before.table, now, subject, rs[n], kind, ids[n]);
        if last.result.Err? then Admission(last.table, Err(last.result.error))
        else Admission(last.table, Ok(ids))
  }

  // --- Consumption --------------------------------------------------------------------------------

  predicate Consumable(m: Mark, now: nat, subject: string, kind: Kind) {
    m.subject == subject && m.kind == kind && m.expiresAt > now && !m.executing
  }

  predicate Names(t: Table, k: Key, id: string) {
    k in t && t[k].markerId == id
  }

  predicate CanConsume(t: Table, now: nat, id: string, subject: string, kind: Kind) {
    exists k | k in t :: Names(t, k, id) && Consumable(t[k], now, subject, kind)
  }

  function Begun(m: Mark): Mark {
    m.(executing := true)
  }

  // The table with every mark named in ids set to executing.
  function Executing(t: Table, ids: seq<string>): Table {
    map k | k in t :: if t[k].markerId in ids then Begun(t[k]) else t[k]
  }

  ghost function MarkNamed(t: Table, id: string): Mark
    requires exists k :: Names(t, k, id)
  {
    var k :| Names(t, k, id);
    t[k]
  }

  ghost function ConsumeOne(t: Table, now: nat, id: string, subject: string, kind: Kind): Admission<Mark> {
    if CanConsume(t, now, id, subject, kind) then Admission(Executing(t, [id]), Ok(Begun(MarkNamed(t, id))))
    else Admission(t, Err(Required))
  }

  predicate CanConsumeAll(t: Table, now: nat, ids: seq<string>, subject: string, kind: Kind) {
    NoRepeats(ids) && forall i | 0 <= i < |ids| :: CanConsume(t, now, ids[i], subject, kind)
  }

  ghost function ConsumeAll(t: Table, now: nat, ids: seq<string>, subject: string, kind: Kind): Admission<seq<Mark>> {
    if CanConsumeAll(t, now, ids, subject, kind) then
      Admission(Executing(t, ids),
        Ok(seq(|ids|, i requires 0 <= i < |ids| => Begun(MarkNamed(t, ids[i])))))
    else Admission(t, Err(Required))
  }

  // Consuming the markers one call at a time, stopping at the first failure.
  ghost function ConsumeEach(t: Table, now: nat, ids: seq<string>, subject: string, kind: Kind): Admission<seq<Mark>>
    decreases |ids|
  {
    if ids == [] then Admission(t, Ok([]))
    else
      var n := |ids| - 1;
      var before := ConsumeEach(t, now, ids[..n], subject, kind);
      if before.result.Err? then before
      else
        var last := ConsumeOne(before.table, now, ids[n], subject, kind);
        if last.result.Err? then Admission(last.table, Err(last.result.error))
        else Admission(last.table, Ok(before.result.value + [last.result.value]))
  }

  // --- Finishing ----------------------------------------------------------------------------------

  function Finished(t: Table, m: Mark): Table {
    if Names(t, KeyOf(m), m.markerId) then t - {KeyOf(m)} else t
  }

  // --- The table invariant ------------------------------------------------------------------------

  predicate Exclusive(a: Mark, b: Mark) {
    a.markerId != b.markerId && (a.subject == b.subject ==> !Clash(a.resource, b.resource))
  }

  ghost predicate UniqueMarkers(t: Table) {
    forall k, l, id | Names(t, k, id) && Names(t, l, id) :: k == l
  }

  ghost predicate TableOk(t: Table) {
    && |t| <= 256
    && (forall k | k in t :: k == KeyOf(t[k]))
    && (forall k, l {:trigger Exclusive(t[k], t[l])} | k in t && l in t && k != l :: Exclusive(t[k], t[l]))
  }

  // The identifiers drawn for a registration are unused.
  ghost predicate FreshIds(t: Table, ids: seq<string>) {
    NoRepeats(ids) && forall k | k in t :: t[k].markerId !in ids
  }
}
