// The refresh protocol over every interleaving of request threads: a cache read outside the lock, the
// per-subject lock, conditional invalidation, a second look, the refresh itself and the store, and the one
// retry after a provider 401 (src/broker/handlers/tokens.rs).
module TokenRuns {
  import opened Wrappers
  import opened TokenCaches

  datatype Phase =
    | Starting
    | Queued(rejected: Option<string>)
    | Locked(rejected: Option<string>)
    | Compared(rejected: Option<string>)
    | Refreshing(rejected: Option<string>)
    | Minted(rejected: Option<string>, answer: Refreshed)
    | Holding(value: string, attempt: nat, instead: Option<string>)
    | Ended

  datatype Thread = Thread(subject: string, phase: Phase)

  // One successful refresh: the value it minted, when it was cached and until when.
  datatype Mint = Mint(value: string, storedAt: nat, expiresAt: nat)

  // minted holds every value a refresh ever returned; presented the values threads came back with after a 401.
  datatype State = State(
    clock: nat, cache: Cache, locks: map<string, nat>, threads: map<nat, Thread>,
    mints: map<string, seq<Mint>>, minted: set<string>, presented: set<(string, string)>)

  const INITIAL := State(0, map[], map[], map[], map[], {}, {})

  datatype Action =
    | Tick(elapsed: nat)
    | Spawn(thread: nat, subject: string)
    | FastRead(thread: nat)
    | Lock(thread: nat)
    | Compare(thread: nat)
    | Recheck(thread: nat)
    | RefreshFails(thread: nat)
    | RefreshMints(thread: nat, answer: Refreshed)
    | Store(thread: nat)
    | Unauthorized(thread: nat)
    | End(thread: nat)

  function MintsOf(s: State, subject: string): seq<Mint> {
    if subject in s.mints then s.mints[subject] else []
  }

  predicate Critical(p: Phase) {
    p.Locked? || p.Compared? || p.Refreshing? || p.Minted?
  }

  predicate At(s: State, t: nat) {
    t in s.threads
  }

  predicate Enabled(s: State, a: Action) {
    match a
    case Tick(_) => true
    case Spawn(t, _) => t !in s.threads
    case FastRead(t) => At(s, t) && s.threads[t].phase == Starting
    case Lock(t) => At(s, t) && s.threads[t].phase.Queued? && s.threads[t].subject !in s.locks
    case Compare(t) => At(s, t) && s.threads[t].phase.Locked?
    case Recheck(t) => At(s, t) && s.threads[t].phase.Compared?
    case RefreshFails(t) => At(s, t) && s.threads[t].phase.Refreshing?
    // The one assumption about the token endpoint: it never returns the same value twice.
    case RefreshMints(t, answer) => At(s, t) && s.threads[t].phase.Refreshing? && answer.value !in s.minted
    case Store(t) => At(s, t) && s.threads[t].phase.Minted?
    case Unauthorized(t) => At(s, t) && s.threads[t].phase.Holding? && s.threads[t].phase.attempt == 1
    case End(t) => At(s, t) && s.threads[t].phase.Holding?
  }

  function Moved(s: State, t: nat, p: Phase): State
    requires t in s.threads
  {
    s.(threads := s.threads[t := s.threads[t].(phase := p)])
  }

  function Unlocked(s: State, t: nat): State
    requires t in s.threads
  {
    s.(locks := s.locks - {s.threads[t].subject})
  }

  // The first token a request obtains is its first attempt; one obtained after a rejection its second.
  function Obtained(value: string, rejected: Option<string>): Phase {
    Holding(value, if rejected.Some? then 2 else 1, rejected)
  }

  function Step(s: State, a: Action): State
    requires Enabled(s, a)
  {
    match a
    case Tick(elapsed) => s.(clock := s.clock + elapsed)
    case Spawn(t, subject) => s.(threads := s.threads[t := Thread(subject, Starting)])
    case FastRead(t) =>
      var subject := s.threads[t].subject;
      if IsLive(s.cache, subject, s.clock) then Moved(s, t, Obtained(s.cache[subject].value, None))
      else Moved(s, t, Queued(None))
    case Lock(t) =>
      Moved(s, t, Locked(s.threads[t].phase.rejected)).(locks := s.locks[s.threads[t].subject := t])
    case Compare(t) =>
      var rejected := s.threads[t].phase.rejected;
      Moved(s, t, Compared(rejected)).(cache := Invalidated(s.cache, s.threads[t].subject, rejected))
    case Recheck(t) =>
      var subject, rejected := s.threads[t].subject, s.threads[t].phase.rejected;
      if IsLive(s.cache, subject, s.clock) then Moved(Unlocked(s, t), t, Obtained(s.cache[subject].value, rejected))
      else Moved(s, t, Refreshing(rejected))
    case RefreshFails(t) => Moved(Unlocked(s, t), t, Ended)
    case RefreshMints(t, answer) =>
      Moved(s, t, Minted(s.threads[t].phase.rejected, answer)).(minted := s.minted + {answer.value})
    case Store(t) =>
      var subject, answer := s.threads[t].subject, s.threads[t].phase.answer;
      var cache := Stored(s.cache, subject, answer, s.clock);
      Moved(Unlocked(s, t), t, Obtained(answer.value, s.threads[t].phase.rejected)).(
        cache := cache,
        mints := s.mints[subject := MintsOf(s, subject) + [Mint(answer.value, s.clock, cache[subject].expiresAt)]])
    case Unauthorized(t) =>
      var value := s.threads[t].phase.value;
      Moved(s, t, Queued(Some(value))).(presented := s.presented + {(s.threads[t].subject, value)})
    case End(t) => Moved(s, t, Ended)
  }

  ghost predicate IsRun(states: seq<State>, actions: seq<Action>) {
    && |states| == |actions| + 1
    && states[0] == INITIAL
    && forall i | 0 <= i < |actions| :: Enabled(states[i], actions[i]) && states[i + 1] == Step(states[i], actions[i])
  }

  // --- Invariant ----------------------------------------------------------------------------------

  // A thread is in its critical section exactly when it holds its subject's lock.
  ghost predicate LockOk(s: State) {
    && (forall t {:trigger Critical(s.threads[t].phase)} | t in s.threads && Critical(s.threads[t].phase) ::
          s.threads[t].subject in s.locks && s.locks[s.threads[t].subject] == t)
    && (forall x | x in s.locks ::
          s.locks[x] in s.threads && s.threads[s.locks[x]].subject == x && Critical(s.threads[s.locks[x]].phase))
  }

  // The cache entry is the last mint, or the last mint was rejected and dropped.
  ghost predicate CacheOk(s: State, subject: string) {
    var ms := MintsOf(s, subject);
    if subject in s.cache then
      ms != [] && s.cache[subject] == CachedToken(ms[|ms| - 1].value, ms[|ms| - 1].expiresAt)
    else
      ms == [] || (subject, ms[|ms| - 1].value) in s.presented
  }

  // What a successful refresh is charged to: its predecessor had been rejected, or had expired by then.
  ghost predicate Charged(s: State, subject: string, i: nat)
    requires i + 1 < |MintsOf(s, subject)|
  {
    var ms := MintsOf(s, subject);
    (subject, ms[i].value) in s.presented || ms[i].expiresAt <= ms[i + 1].storedAt
  }

  ghost predicate MintsOk(s: State, subject: string) {
    var ms := MintsOf(s, subject);
    && (forall i | 0 <= i < |ms| :: ms[i].value in s.minted && ms[i].storedAt <= s.clock)
    && (forall i, j | 0 <= i < j < |ms| :: ms[i].value != ms[j].value)
    && (forall i {:trigger Charged(s, subject, i)} | 0 <= i < |ms| - 1 :: Charged(s, subject, i))
  }

  ghost predicate RejectedOk(s: State, subject: string, rejected: Option<string>) {
    rejected.Some? ==> (subject, rejected.value) in s.presented && rejected.value in s.minted
  }

  ghost predicate ThreadOk(s: State, t: nat)
    requires t in s.threads
  {
    var x := s.threads[t].subject;
    match s.threads[t].phase
    case Queued(r) => RejectedOk(s, x, r)
    case Locked(r) => RejectedOk(s, x, r)
    case Compared(r) => RejectedOk(s, x, r) && (x in s.cache ==> Some(s.cache[x].value) != r)
    case Refreshing(r) => RejectedOk(s, x, r) && !IsLive(s.cache, x, s.clock)
    case Minted(r, answer) =>
      && RejectedOk(s, x, r) && !IsLive(s.cache, x, s.clock)
      && answer.value in s.minted && r != Some(answer.value)
      && (forall i | 0 <= i < |MintsOf(s, x)| :: MintsOf(s, x)[i].value != answer.value)
    case Holding(value, attempt, r) => value in s.minted && r != Some(value) && attempt == (if r.Some? then 2 else 1)
    case _ => true
  }

  ghost predicate Inv(s: State) {
    && LockOk(s)
    && (forall x {:trigger CacheOk(s, x)} :: CacheOk(s, x))
    && (forall x {:trigger MintsOk(s, x)} :: MintsOk(s, x))
    && (forall t {:trigger ThreadOk(s, t)} | t in s.threads :: ThreadOk(s, t))
  }

  // Thread t moves on without entering or leaving its critical section.
  lemma StayKeepsLock(s: State, z: State, t: nat, p: Phase)
    requires LockOk(s) && t in s.threads && z.threads == Moved(s, t, p).threads && z.locks == s.locks
    requires Critical(p) <==> Critical(s.threads[t].phase)
    ensures LockOk(z)
  {
  }

  lemma EnterKeepsLock(s: State, t: nat, p: Phase)
    requires LockOk(s) && t in s.threads && s.threads[t].subject !in s.locks && Critical(p)
    ensures LockOk(Moved(s, t, p).(locks := s.locks[s.threads[t].subject := t]))
  {
  }

  lemma LeaveKeepsLock(s: State, z: State, t: nat, p: Phase)
    requires LockOk(s) && t in s.threads && Critical(s.threads[t].phase) && !Critical(p)
    requires z.threads == Moved(s, t, p).threads && z.locks == Unlocked(s, t).locks
    ensures LockOk(z)
  {
    forall u | u in z.threads && Critical(z.threads[u].phase)
      ensures z.threads[u].subject in z.locks && z.locks[z.threads[u].subject] == u
    {
      assert u != t && Critical(s.threads[u].phase);
    }
  }

  lemma StepKeepsLock(s: State, a: Action)
    requires LockOk(s) && Enabled(s, a)
    ensures LockOk(Step(s, a))
  {
    var z := Step(s, a);
    match a
    case Tick(_) =>
    case Spawn(_, _) =>
    case Lock(t) => EnterKeepsLock(s, t, z.threads[t].phase);
    case Recheck(t) =>
      if z.threads[t].phase.Holding? {
        LeaveKeepsLock(s, z, t, z.threads[t].phase);
      } else {
        StayKeepsLock(s, z, t, z.threads[t].phase);
      }
    case RefreshFails(t) => LeaveKeepsLock(s, z, t, Ended);
    case Store(t) => LeaveKeepsLock(s, z, t, z.threads[t].phase);
    case _ => StayKeepsLock(s, z, a.thread, z.threads[a.thread].phase);
  }

  // Only the holder of a subject's lock changes that subject's cache entry or mints.
  lemma StepKeepsOthers(s: State, a: Action, x: string)
    requires Inv(s) && Enabled(s, a)
    requires !((a.Compare? || a.Store?) && s.threads[a.thread].subject == x)
    ensures var z := Step(s, a);
            && (x in z.cache <==> x in s.cache) && (x in s.cache ==> z.cache[x] == s.cache[x])
            && MintsOf(z, x) == MintsOf(s, x)
    ensures s.presented <= Step(s, a).presented && s.minted <= Step(s, a).minted && s.clock <= Step(s, a).clock
  {
  }

  lemma StepKeepsCache(s: State, a: Action, x: string)
    requires Inv(s) && Enabled(s, a)
    ensures CacheOk(Step(s, a), x)
  {
    assert CacheOk(s, x);
    if a.Compare? && s.threads[a.thread].subject == x {
      assert ThreadOk(s, a.thread);
    } else if a.Store? && s.threads[a.thread].subject == x {
    } else {
      StepKeepsOthers(s, a, x);
    }
  }

  lemma StepKeepsMints(s: State, a: Action, x: string)
    requires Inv(s) && Enabled(s, a)
    ensures MintsOk(Step(s, a), x)
  {
    assert MintsOk(s, x);
    var z := Step(s, a);
    if a.Store? && s.threads[a.thread].subject == x {
      StoreKeepsMints(s, a.thread);
    } else {
      if a.Compare? && s.threads[a.thread].subject == x {
        assert MintsOf(z, x) == MintsOf(s, x);
      } else {
        StepKeepsOthers(s, a, x);
      }
      forall i | 0 <= i < |MintsOf(z, x)| - 1 ensures Charged(z, x, i) {
        assert Charged(s, x, i);
      }
    }
  }

  lemma StoreKeepsMints(s: State, t: nat)
    requires Inv(s) && Enabled(s, Store(t))
    ensures MintsOk(Step(s, Store(t)), s.threads[t].subject)
  {
    var x := s.threads[t].subject;
    var z := Step(s, Store(t));
    var ms := MintsOf(s, x);
    assert MintsOk(s, x) && CacheOk(s, x) && ThreadOk(s, t);
    forall i | 0 <= i < |ms| ensures Charged(z, x, i) {
      if i + 1 < |ms| {
        assert Charged(s, x, i);
      }
    }
  }

  lemma StepKeepsThread(s: State, a: Action, t: nat)
    requires Inv(s) && Enabled(s, a) && t in Step(s, a).threads
    ensures ThreadOk(Step(s, a), t)
  {
    if t in s.threads {
      if !(a.Tick? || a.Spawn?) && a.thread == t {
        OwnStepKeepsThread(s, a);
      } else {
        ForeignStepKeepsThread(s, a, t);
      }
    }
  }

  lemma ForeignStepKeepsThread(s: State, a: Action, t: nat)
    requires Inv(s) && Enabled(s, a) && t in s.threads && (a.Tick? || a.Spawn? || a.thread != t)
    ensures ThreadOk(Step(s, a), t)
  {
    assert ThreadOk(s, t);
    var x := s.threads[t].subject;
    assert Step(s, a).threads[t] == s.threads[t];
    if (a.Compare? || a.Store?) && s.threads[a.thread].subject == x {
      LockExcludes(s, a.thread, t);
      assert s.presented <= Step(s, a).presented && s.minted <= Step(s, a).minted;
    } else {
      StepKeepsOthers(s, a, x);
    }
  }

  lemma LockExcludes(s: State, t: nat, u: nat)
    requires Inv(s) && t in s.threads && u in s.threads && t != u
    requires Critical(s.threads[t].phase) && s.threads[t].subject == s.threads[u].subject
    ensures !Critical(s.threads[u].phase)
  {
  }

  lemma OwnStepKeepsThread(s: State, a: Action)
    requires Inv(s) && Enabled(s, a) && !a.Tick? && !a.Spawn?
    ensures ThreadOk(Step(s, a), a.thread)
  {
    var t := a.thread;
    var x := s.threads[t].subject;
    assert ThreadOk(s, t) && CacheOk(s, x) && MintsOk(s, x);
  }

  lemma StepKeepsInv(s: State, a: Action)
    requires Inv(s) && Enabled(s, a)
    ensures Inv(Step(s, a))
  {
    var z := Step(s, a);
    StepKeepsLock(s, a);
    forall x ensures CacheOk(z, x) { StepKeepsCache(s, a, x); }
    forall x ensures MintsOk(z, x) { StepKeepsMints(s, a, x); }
    forall t | t in z.threads ensures ThreadOk(z, t) { StepKeepsThread(s, a, t); }
  }

  lemma {:induction false} RunInvariant(states: seq<State>, actions: seq<Action>, n: nat)
    requires IsRun(states, actions) && n < |states|
    ensures Inv(states[n])
  {
    if n > 0 {
      RunInvariant(states, actions, n - 1);
      assert Enabled(states[n - 1], actions[n - 1]) && states[n] == Step(states[n - 1], actions[n - 1]);
      StepKeepsInv(states[n - 1], actions[n - 1]);
    }
  }

  // --- Theorems -----------------------------------------------------------------------------------

  predicate InRefresh(p: Phase) {
    p.Refreshing? || p.Minted?
  }

  // At most one refresh per subject is ever in flight.
  lemma SingleFlight(states: seq<State>, actions: seq<Action>, n: nat, t: nat, u: nat)
    requires IsRun(states, actions) && n < |states|
    requires t in states[n].threads && u in states[n].threads
    requires InRefresh(states[n].threads[t].phase) && InRefresh(states[n].threads[u].phase)
    requires states[n].threads[t].subject == states[n].threads[u].subject
    ensures t == u
  {
    RunInvariant(states, actions, n);
    assert Critical(states[n].threads[t].phase) && Critical(states[n].threads[u].phase);
  }

  // A live cached token leaves the cache only when the thread comparing was rejected on exactly that value.
  lemma LiveTokenKept(states: seq<State>, actions: seq<Action>, n: nat, x: string)
    requires IsRun(states, actions) && n < |actions|
    requires IsLive(states[n].cache, x, states[n + 1].clock)
    requires x !in states[n + 1].cache || states[n + 1].cache[x] != states[n].cache[x]
    ensures actions[n].Compare?
            && states[n].threads[actions[n].thread].subject == x
            && states[n].threads[actions[n].thread].phase.rejected == Some(states[n].cache[x].value)
  {
    RunInvariant(states, actions, n);
    var s, a := states[n], actions[n];
    assert Enabled(s, a) && states[n + 1] == Step(s, a);
    StoreOnlyReplacesDead(s, a);
  }

  lemma StoreOnlyReplacesDead(s: State, a: Action)
    requires Inv(s) && Enabled(s, a)
    ensures a.Store? ==> !IsLive(s.cache, s.threads[a.thread].subject, s.clock)
  {
    if a.Store? {
      assert ThreadOk(s, a.thread);
    }
  }

  // A thread is handed a token, by the read outside the lock or inside it or by its own refresh, only when that
  // token is the newest minted for its subject and is live at that instant.
  lemma HandedOutIsNewestAndLive(states: seq<State>, actions: seq<Action>, n: nat, t: nat)
    requires IsRun(states, actions) && n < |actions|
    ensures var s, z := states[n], states[n + 1];
            t in z.threads && z.threads[t].phase.Holding? && (t !in s.threads || !s.threads[t].phase.Holding?) ==>
              var ms := MintsOf(z, z.threads[t].subject);
              && ms != [] && ms[|ms| - 1].value == z.threads[t].phase.value
              && ms[|ms| - 1].expiresAt > z.clock
  {
    RunInvariant(states, actions, n);
    RunInvariant(states, actions, n + 1);
    var s, a, z := states[n], actions[n], states[n + 1];
    assert Enabled(s, a) && z == Step(s, a);
    if t in z.threads && z.threads[t].phase.Holding? && (t !in s.threads || !s.threads[t].phase.Holding?) {
      assert CacheOk(z, z.threads[t].subject);
      if a.Store? {
        LifetimeBounds(s.threads[t].phase.answer);
      }
    }
  }

  // A thread that comes back after a 401 is given a different token, and is never retried a third time.
  lemma RetryUsesAnotherToken(states: seq<State>, actions: seq<Action>, n: nat, t: nat)
    requires IsRun(states, actions) && n < |states|
    requires t in states[n].threads && states[n].threads[t].phase.Holding?
    ensures var p := states[n].threads[t].phase;
            && (p.instead.Some? ==>
                  p.attempt == 2 && p.value != p.instead.value && !Enabled(states[n], Unauthorized(t)))
            && (p.instead.None? ==> p.attempt == 1)
            && p.value in states[n].minted
  {
    RunInvariant(states, actions, n);
    assert ThreadOk(states[n], t);
  }

  lemma RefreshCharged(states: seq<State>, actions: seq<Action>, n: nat, x: string, i: nat)
    requires IsRun(states, actions) && n < |states| && i + 1 < |MintsOf(states[n], x)|
    ensures var ms := MintsOf(states[n], x);
            (x, ms[i].value) in states[n].presented || ms[i].expiresAt <= ms[i + 1].storedAt <= states[n].clock
  {
    RunInvariant(states, actions, n);
    assert MintsOk(states[n], x) && Charged(states[n], x, i);
  }

  // Every successful refresh but the first is charged to the rejection or the expiry of its predecessor,
  // and the minted values of a subject are distinct, so no two refreshes share a charge.
  lemma EveryRefreshCharged(states: seq<State>, actions: seq<Action>, n: nat, x: string)
    requires IsRun(states, actions) && n < |states|
    ensures var s := states[n];
            var ms := MintsOf(s, x);
            && (forall i | 0 <= i < |ms| - 1 ::
                  (x, ms[i].value) in s.presented || ms[i].expiresAt <= ms[i + 1].storedAt <= s.clock)
            && (forall i, j | 0 <= i < j < |ms| :: ms[i].value != ms[j].value)
  {
    RunInvariant(states, actions, n);
    var s := states[n];
    assert MintsOk(s, x);
    forall i | 0 <= i < |MintsOf(s, x)| - 1
      ensures || (x, MintsOf(s, x)[i].value) in s.presented
              || MintsOf(s, x)[i].expiresAt <= MintsOf(s, x)[i + 1].storedAt <= s.clock
    {
      RefreshCharged(states, actions, n, x, i);
    }
  }

  lemma StepGrowsMints(s: State, a: Action, x: string)
    requires Enabled(s, a)
    ensures MintsOf(s, x) <= MintsOf(Step(s, a), x)
  {
    if a.Store? && s.threads[a.thread].subject == x {
      assert MintsOf(Step(s, a), x)[..|MintsOf(s, x)|] == MintsOf(s, x);
    }
  }

  lemma {:induction false} MintsOnlyGrow(states: seq<State>, actions: seq<Action>, n: nat, m: nat, x: string)
    requires IsRun(states, actions) && n <= m < |states|
    ensures MintsOf(states[n], x) <= MintsOf(states[m], x)
    decreases m
  {
    if n < m {
      MintsOnlyGrow(states, actions, n, m - 1, x);
      assert Enabled(states[m - 1], actions[m - 1]) && states[m] == Step(states[m - 1], actions[m - 1]);
      StepGrowsMints(states[m - 1], actions[m - 1], x);
    }
  }

  // However many threads are rejected meanwhile, a subject sees at most one successful refresh between two
  // points of a run unless the replacement that refresh minted was itself rejected or had expired.
  lemma OneRefreshWhileReplacementLives(states: seq<State>, actions: seq<Action>, n: nat, m: nat, x: string)
    requires IsRun(states, actions) && n <= m < |states|
    requires var k := |MintsOf(states[n], x)|;
             k < |MintsOf(states[m], x)|
             ==> (x, MintsOf(states[m], x)[k].value) !in states[m].presented
                 && MintsOf(states[m], x)[k].expiresAt > states[m].clock
    ensures |MintsOf(states[m], x)| <= |MintsOf(states[n], x)| + 1
  {
    MintsOnlyGrow(states, actions, n, m, x);
    var k := |MintsOf(states[n], x)|;
    if k + 1 < |MintsOf(states[m], x)| {
      RefreshCharged(states, actions, m, x, k);
    }
  }

  // The number of successful refreshes of a subject: at most one cold start, plus the distinct values it was
  // rejected on, plus the mints that expired before their successor.
  lemma RefreshBound(states: seq<State>, actions: seq<Action>, n: nat, x: string)
    requires IsRun(states, actions) && n < |states|
    ensures var s := states[n];
            |MintsOf(s, x)| <= 1 + |RejectedValues(s, x)| + |ExpiredMints(s, x)|
  {
    EveryRefreshCharged(states, actions, n, x);
    var s := states[n];
    var ms := MintsOf(s, x);
    if ms != [] {
      CountCharges(ms, |ms| - 1, RejectedValues(s, x), ExpiredMints(s, x));
    }
  }

  function RejectedValues(s: State, x: string): set<string> {
    set p | p in s.presented && p.0 == x :: p.1
  }

  function ExpiredMints(s: State, x: string): set<nat> {
    set i: nat | i + 1 < |MintsOf(s, x)| && MintsOf(s, x)[i].expiresAt <= MintsOf(s, x)[i + 1].storedAt
  }

  lemma {:induction false} CountCharges(ms: seq<Mint>, n: nat, values: set<string>, expired: set<nat>)
    requires n <= |ms| && forall i, j | 0 <= i < j < |ms| :: ms[i].value != ms[j].value
    requires forall i: nat | i < n :: ms[i].value in values || i in expired
    ensures n <= |values| + |expired|
    decreases n
  {
    if n > 0 {
      var i := n - 1;
      if ms[i].value in values {
        CountCharges(ms, i, values - {ms[i].value}, expired);
      } else {
        CountCharges(ms, i, values, expired - {i});
      }
    }
  }

  // --- One thread's way through -------------------------------------------------------------------

  // The value a request may use at that instant: the subject's cached one, unless it has expired or is the one that the
  // request was rejected on.
  predicate Reusable(s: State, subject: string, rejected: Option<string>) {
    && subject in s.cache && s.clock < s.cache[subject].expiresAt
    && (rejected.Some? ==> s.cache[subject].value != rejected.value)
  }

  // A request takes the cached token outside the lock whenever it is usable, and queues for the lock otherwise.
  lemma LiveTokenIsUsed(s: State, t: nat)
    requires At(s, t) && s.threads[t].phase == Starting
    ensures var z := Step(s, FastRead(t));
            && z == s.(threads := z.threads)
            && z.threads[t].phase == if Reusable(s, s.threads[t].subject, None)
                                     then Holding(s.cache[s.threads[t].subject].value, 1, None)
                                     else Queued(None)
  {
  }

  // The critical section, with nothing in between: a usable token is handed out and kept; otherwise the refresh is
  // made, and its token is cached and handed out. Either way the lock is free again.
  lemma SectionAlone(s: State, t: nat, answer: Refreshed, elapsed: nat)
    requires At(s, t) && s.threads[t].phase.Locked? && answer.value !in s.minted
    ensures var x, r := s.threads[t].subject, s.threads[t].phase.rejected;
            var n := if r.Some? then 2 else 1;
            var checked := Step(Step(s, Compare(t)), Recheck(t));
            if Reusable(s, x, r) then
              && checked.threads[t].phase == Holding(s.cache[x].value, n, r)
              && checked.cache == s.cache && x !in checked.locks
            else
              && checked.threads[t].phase == Refreshing(r)
              && var waited := Step(Step(checked, RefreshMints(t, answer)), Tick(elapsed));
                 var z := Step(waited, Store(t));
                 var offered := if answer.expiresIn.Some? then answer.expiresIn.value else 3_600;
                 var seconds := if offered >= 90 then offered - 60 else 30;
                 && z.threads[t].phase == Holding(answer.value, n, r) && x !in z.locks
                 && z.cache == s.cache[x := CachedToken(answer.value, s.clock + elapsed + seconds * 1_000_000_000)]
  {
    LifetimeBounds(answer);
  }
}
