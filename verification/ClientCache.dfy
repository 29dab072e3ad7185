/**
 * The per-role client cache under any interleaving of its users: double-checked
 * locking with a probe before the store, against invalidation and clearing.
 *
 * Each shared access is one step.  A thread holding the cache lock may go on to
 * take the configuration lock; nobody takes them in the other order.
 */
module ClientCache {
  import opened Wrappers

  type Role = string
  type Client = nat
  type Tid = nat

  datatype Call = Get(role: Role) | Invalidate(role: Role) | Clear | LoadConfig

  datatype Pc =
    | Idle
    // get_s3_client
    | FastRead(role: Role)
    | WantLock(role: Role)
    | DoubleCheck(role: Role)
    | ReadConfig(role: Role)
    | WantConfig(role: Role)
    | HoldConfig(role: Role)
    | Build(role: Role)
    | Probe(role: Role, client: Client)
    | ReadShared(role: Role, client: Client)
    | WantShared(role: Role, client: Client)
    | HoldShared(role: Role, client: Client)
    | ProbeBuckets(role: Role, client: Client)
    | Store(role: Role, client: Client)
    | Release(role: Role, result: Option<Client>)
    | Returned(role: Role, client: Client)
    // invalidate_s3_client, clear_s3_clients_cache
    | WantLockToPop(role: Role)
    | Pop(role: Role)
    | WantLockToClear
    | ClearAll
    | ReleaseOnly
    // load_config on its own
    | WantConfigOnly
    | HoldConfigOnly

  datatype State = State(
    cache: map<Role, Client>,
    cacheLock: Option<Tid>,
    configLock: Option<Tid>,
    pc: map<Tid, Pc>,
    created: set<Client>,
    probed: set<Client>,
    stores: map<Role, nat>,
    removals: map<Role, nat>)

  /** What happens next: a thread starts a call, or goes on with one. */
  datatype Action = Start(call: Call) | Continue(choice: Choice)

  /** The outside world's part in a step: an answer, an error, or the slow path of load_config. */
  datatype Choice = Fine | Error | SlowConfig | Denied | NewClient(client: Client)

  function Count(m: map<Role, nat>, r: Role): nat { if r in m then m[r] else 0 }

  function AddOne(m: map<Role, nat>, r: Role): map<Role, nat> { m[r := Count(m, r) + 1] }

  predicate HoldsCacheLock(p: Pc) {
    p.DoubleCheck? || p.ReadConfig? || p.WantConfig? || p.HoldConfig? || p.Build? || p.Probe? || p.ReadShared?
    || p.WantShared? || p.HoldShared? || p.ProbeBuckets? || p.Store? || p.Release? || p.Pop? || p.ClearAll?
    || p.ReleaseOnly?
  }

  predicate HoldsConfigLock(p: Pc) {
    p.HoldConfig? || p.HoldShared? || p.HoldConfigOnly?
  }

  predicate WantsCacheLock(p: Pc) { p.WantLock? || p.WantLockToPop? || p.WantLockToClear? }

  predicate WantsConfigLock(p: Pc) { p.WantConfig? || p.WantShared? || p.WantConfigOnly? }

  predicate Enabled(s: State, t: Tid, a: Action) {
    && t in s.pc
    && match a
       case Start(_) => s.pc[t].Idle?
       case Continue(choice) =>
         && !s.pc[t].Idle?
         && (WantsCacheLock(s.pc[t]) ==> s.cacheLock == None)
         && (WantsConfigLock(s.pc[t]) ==> s.configLock == None)
         && (s.pc[t].Build? ==> choice == Error || (choice.NewClient? && choice.client !in s.created))
  }

  /** Where a thread goes from `p`, given the shared cache and the world's answer. */
  function NextPc(p: Pc, cache: map<Role, Client>, a: Action): Pc {
    match a
    case Start(call) =>
      (match call
       case Get(r) => FastRead(r)
       case Invalidate(r) => WantLockToPop(r)
       case Clear => WantLockToClear
       case LoadConfig => WantConfigOnly)
    case Continue(choice) =>
      match p
      case FastRead(r) => if r in cache then Returned(r, cache[r]) else WantLock(r)
      case WantLock(r) => DoubleCheck(r)
      case DoubleCheck(r) => if r in cache then Release(r, Some(cache[r])) else ReadConfig(r)
      case ReadConfig(r) => if choice == SlowConfig then WantConfig(r) else Build(r)
      case WantConfig(r) => HoldConfig(r)
      case HoldConfig(r) => if choice == Error then Release(r, None) else Build(r)
      case Build(r) => if choice.NewClient? then Probe(r, choice.client) else Release(r, None)
      case Probe(r, c) =>
        if choice == Fine then Store(r, c) else if choice == Denied then ReadShared(r, c) else Release(r, None)
      case ReadShared(r, c) => if choice == SlowConfig then WantShared(r, c) else ProbeBuckets(r, c)
      case WantShared(r, c) => HoldShared(r, c)
      case HoldShared(r, c) => ProbeBuckets(r, c)
      case ProbeBuckets(r, c) => if choice == Fine then Store(r, c) else Release(r, None)
      case Store(r, c) => Release(r, Some(c))
      case Release(r, result) => if result.Some? then Returned(r, result.value) else Idle
      case Returned(r, c) => Idle
      case WantLockToPop(r) => Pop(r)
      case Pop(r) => ReleaseOnly
      case WantLockToClear => ClearAll
      case ClearAll => ReleaseOnly
      case ReleaseOnly => Idle
      case WantConfigOnly => HoldConfigOnly
      case HoldConfigOnly => Idle
      case Idle => Idle
  }

  /** A lock is taken on entering its guarded region and given back on leaving it. */
  function LockAfter(was: Option<Tid>, t: Tid, held: bool, holds: bool): Option<Tid> {
    if held == holds then was else if holds then Some(t) else None
  }

  function CacheAfter(cache: map<Role, Client>, p: Pc): map<Role, Client> {
    match p
    case Store(r, c) => cache[r := c]
    case Pop(r) => cache - {r}
    case ClearAll => map[]
    case _ => cache
  }

  /** Every entry that was there counts as one effective removal. */
  function RemovalsAfter(removals: map<Role, nat>, cache: map<Role, Client>, p: Pc): map<Role, nat> {
    match p
    case Pop(r) => if r in cache then AddOne(removals, r) else removals
    case ClearAll => map r | r in removals.Keys + cache.Keys :: Count(removals, r) + if r in cache then 1 else 0
    case _ => removals
  }

  /** A client answers one of the two probes. */
  predicate Answers(p: Pc, a: Action) {
    (p.Probe? || p.ProbeBuckets?) && a == Continue(Fine)
  }

  function Next(s: State, t: Tid, a: Action): State
    requires Enabled(s, t, a)
  {
    var p := s.pc[t];
    var q := NextPc(p, s.cache, a);
    State(
      CacheAfter(s.cache, p),
      LockAfter(s.cacheLock, t, HoldsCacheLock(p), HoldsCacheLock(q)),
      LockAfter(s.configLock, t, HoldsConfigLock(p), HoldsConfigLock(q)),
      s.pc[t := q],
      if q.Probe? then s.created + {q.client} else s.created,
      if Answers(p, a) then s.probed + {p.client} else s.probed,
      if p.Store? then AddOne(s.stores, p.role) else s.stores,
      RemovalsAfter(s.removals, s.cache, p))
  }

  // ------------------------------------------------- what every step keeps

  /** Past the double check, the role is known to be missing from the cache. */
  predicate AfterMiss(p: Pc) {
    p.ReadConfig? || p.WantConfig? || p.HoldConfig? || p.Build? || p.Probe? || p.ReadShared?
    || p.WantShared? || p.HoldShared? || p.ProbeBuckets? || p.Store?
  }

  /** The role a call is about, if it is about one. */
  function RoleOf(p: Pc): Role {
    if p.Idle? || p.WantLockToClear? || p.ClearAll? || p.ReleaseOnly? || p.WantConfigOnly? || p.HoldConfigOnly?
    then "" else p.role
  }

  ghost predicate LocksHeld(s: State) {
    && (forall t :: t in s.pc ==> (HoldsCacheLock(s.pc[t]) <==> s.cacheLock == Some(t)))
    && (forall t :: t in s.pc ==> (HoldsConfigLock(s.pc[t]) <==> s.configLock == Some(t)))
    && (s.cacheLock.Some? ==> s.cacheLock.value in s.pc)
    && (s.configLock.Some? ==> s.configLock.value in s.pc)
  }

  ghost predicate CacheIsSafe(s: State) {
    && (forall r :: r in s.cache ==> s.cache[r] in s.probed)
    && (forall t :: t in s.pc && s.pc[t].Store? ==> s.pc[t].client in s.probed)
    && (forall t :: t in s.pc && AfterMiss(s.pc[t]) ==> RoleOf(s.pc[t]) !in s.cache)
  }

  ghost predicate Ledger(s: State) {
    forall r :: Count(s.stores, r) == Count(s.removals, r) + if r in s.cache then 1 else 0
  }

  ghost predicate Inv(s: State) { LocksHeld(s) && CacheIsSafe(s) && Ledger(s) }

  ghost predicate Init(s: State) {
    && s.cache == map[] && s.cacheLock == None && s.configLock == None
    && s.created == {} && s.probed == {} && s.stores == map[] && s.removals == map[]
    && forall t :: t in s.pc ==> s.pc[t].Idle?
  }

  lemma InitInv(s: State)
    requires Init(s)
    ensures Inv(s)
  {
  }

  /** A thread gets into a guarded region only from the step that waits for its lock. */
  lemma RegionsAreGuarded(p: Pc, cache: map<Role, Client>, a: Action)
    requires p.Idle? <==> a.Start?
    ensures !HoldsCacheLock(p) && HoldsCacheLock(NextPc(p, cache, a)) ==> WantsCacheLock(p)
    ensures !HoldsConfigLock(p) && HoldsConfigLock(NextPc(p, cache, a)) ==> WantsConfigLock(p)
  {
  }

  lemma StepKeepsLocks(s: State, t: Tid, a: Action)
    requires LocksHeld(s) && Enabled(s, t, a)
    ensures LocksHeld(Next(s, t, a))
  {
    hide NextPc, HoldsCacheLock, HoldsConfigLock, WantsCacheLock, WantsConfigLock, CacheAfter, RemovalsAfter;
    RegionsAreGuarded(s.pc[t], s.cache, a);
  }

  /** Nobody gets past the double check while the role is cached, and only the lock holder writes. */
  lemma MissStaysMissing(p: Pc, cache: map<Role, Client>, a: Action)
    requires p.Idle? <==> a.Start?
    requires AfterMiss(p) ==> RoleOf(p) !in cache
    ensures AfterMiss(NextPc(p, cache, a)) ==>
              CacheAfter(cache, p) == cache && RoleOf(NextPc(p, cache, a)) !in cache
    ensures CacheAfter(cache, p) != cache ==> HoldsCacheLock(p)
    ensures AfterMiss(p) ==> HoldsCacheLock(p)
  {
  }

  /** A client gets to the store only by answering a probe. */
  lemma StoredHasAnswered(p: Pc, cache: map<Role, Client>, a: Action)
    requires p.Idle? <==> a.Start?
    ensures NextPc(p, cache, a).Store? ==> Answers(p, a) && NextPc(p, cache, a).client == p.client
  {
  }

  lemma StepKeepsCache(s: State, t: Tid, a: Action)
    requires LocksHeld(s) && CacheIsSafe(s) && Enabled(s, t, a)
    ensures CacheIsSafe(Next(s, t, a))
  {
    hide NextPc, HoldsCacheLock, HoldsConfigLock, WantsCacheLock, WantsConfigLock, RemovalsAfter, AfterMiss, RoleOf;
    var s' := Next(s, t, a);
    MissStaysMissing(s.pc[t], s.cache, a);
    StoredHasAnswered(s.pc[t], s.cache, a);
    forall u | u in s'.pc && AfterMiss(s'.pc[u]) ensures RoleOf(s'.pc[u]) !in s'.cache {
      if u != t { MissStaysMissing(s.pc[u], s.cache, if s.pc[u].Idle? then Start(Clear) else Continue(Fine)); }
    }
  }

  lemma StepKeepsLedger(s: State, t: Tid, a: Action)
    requires CacheIsSafe(s) && Ledger(s) && Enabled(s, t, a)
    ensures Ledger(Next(s, t, a))
  {
    hide NextPc, HoldsCacheLock, HoldsConfigLock, WantsCacheLock, WantsConfigLock;
    var s' := Next(s, t, a);
    forall r ensures Count(s'.stores, r) == Count(s'.removals, r) + if r in s'.cache then 1 else 0 {
      assert Count(s.stores, r) == Count(s.removals, r) + if r in s.cache then 1 else 0;
    }
  }

  lemma StepKeepsInv(s: State, t: Tid, a: Action)
    requires Inv(s) && Enabled(s, t, a)
    ensures Inv(Next(s, t, a))
  {
    hide Next, Enabled, LocksHeld, CacheIsSafe, Ledger;
    StepKeepsLocks(s, t, a);
    StepKeepsCache(s, t, a);
    StepKeepsLedger(s, t, a);
  }

  // ------------------------------------------------- whole runs

  /** A run: the states passed through, and who did what in between. */
  datatype Run = Run(states: seq<State>, threads: seq<Tid>, actions: seq<Action>)

  ghost predicate IsRun(run: Run) {
    && |run.states| == |run.threads| + 1 == |run.actions| + 1
    && Init(run.states[0])
    && forall i :: 0 <= i < |run.threads| ==>
         && Enabled(run.states[i], run.threads[i], run.actions[i])
         && run.states[i + 1] == Next(run.states[i], run.threads[i], run.actions[i])
  }

  lemma {:induction false} RunKeepsInv(run: Run, i: nat)
    requires IsRun(run) && i < |run.states|
    ensures Inv(run.states[i])
  {
    hide Next, Enabled, Inv, Init;
    if i == 0 {
      InitInv(run.states[0]);
    } else {
      RunKeepsInv(run, i - 1);
      StepKeepsInv(run.states[i - 1], run.threads[i - 1], run.actions[i - 1]);
    }
  }

  /**
   * Safety over every interleaving: what is cached was probed; a store never
   * replaces a live client; stores and effective removals of a role balance.
   */
  lemma CacheSafety(run: Run, i: nat, r: Role)
    requires IsRun(run) && i < |run.threads|
    ensures r in run.states[i].cache ==> run.states[i].cache[r] in run.states[i].probed
    ensures run.states[i].pc[run.threads[i]].Store? ==>
              && run.states[i].pc[run.threads[i]].role !in run.states[i].cache
              && run.states[i].pc[run.threads[i]].client in run.states[i].probed
    ensures Count(run.states[i].stores, r) - Count(run.states[i].removals, r)
         == if r in run.states[i].cache then 1 else 0
  {
    RunKeepsInv(run, i);
  }

  /** A thread on its way out with the client `c` for role `r`. */
  predicate Bringing(p: Pc, r: Role, c: Client) {
    p == Returned(r, c) || p == Release(r, Some(c))
  }

  /** Somewhere inside a get_s3_client call for `r`. */
  predicate InGet(p: Pc, r: Role) {
    (AfterMiss(p) && RoleOf(p) == r) || p == FastRead(r) || p == WantLock(r) || p == DoubleCheck(r)
    || (p.Release? && p.role == r) || (p.Returned? && p.role == r)
  }

  lemma BringingCameFrom(p: Pc, cache: map<Role, Client>, a: Action, r: Role, c: Client)
    requires p.Idle? <==> a.Start?
    requires Bringing(NextPc(p, cache, a), r, c)
    ensures InGet(p, r) && InGet(NextPc(p, cache, a), r)
    ensures Bringing(p, r, c) || (r in cache && cache[r] == c) || p == Store(r, c)
  {
  }

  /** Every client a call returns was in the cache at some moment of that very call. */
  lemma {:induction false} ReturnedWasCached(run: Run, t: Tid, r: Role, c: Client, j: nat) returns (i: nat)
    requires IsRun(run) && j < |run.states| && t in run.states[j].pc && Bringing(run.states[j].pc[t], r, c)
    ensures i <= j && r in run.states[i].cache && run.states[i].cache[r] == c
    ensures forall k :: i <= k <= j ==> t in run.states[k].pc && InGet(run.states[k].pc[t], r)
  {
    hide NextPc, InGet, Bringing, HoldsCacheLock, HoldsConfigLock, WantsCacheLock, WantsConfigLock, RemovalsAfter;
    IdleBringsNothing(r, c);
    assert j > 0;
    var s, u, a := run.states[j - 1], run.threads[j - 1], run.actions[j - 1];
    assert Enabled(s, u, a) && run.states[j] == Next(s, u, a);
    if u == t {
      BringingCameFrom(s.pc[t], s.cache, a, r, c);
      if Bringing(s.pc[t], r, c) {
        i := ReturnedWasCached(run, t, r, c, j - 1);
      } else {
        i := if s.pc[t] == Store(r, c) then j else j - 1;
      }
    } else {
      i := ReturnedWasCached(run, t, r, c, j - 1);
      BringingIsInGet(run.states[j].pc[t], r, c);
    }
  }

  lemma IdleBringsNothing(r: Role, c: Client)
    ensures !Bringing(Idle, r, c)
  {
  }

  lemma BringingIsInGet(p: Pc, r: Role, c: Client)
    ensures Bringing(p, r, c) ==> InGet(p, r)
  {
  }

  // ------------------------------------------------- removed for good

  /** A thread that has built `c` and not stored it yet. */
  predicate Builds(p: Pc, c: Client) {
    (p.Probe? || p.ReadShared? || p.WantShared? || p.HoldShared? || p.ProbeBuckets? || p.Store?) && p.client == c
  }

  predicate Cached(s: State, r: Role, c: Client) { r in s.cache && s.cache[r] == c }

  /** A client is in one place at most: with the thread that builds it, or in the cache under one role. */
  ghost predicate OnePlace(s: State) {
    && (forall t, c :: t in s.pc && Builds(s.pc[t], c) ==> c in s.created)
    && (forall r :: r in s.cache ==> s.cache[r] in s.created)
    && (forall r, t :: r in s.cache && t in s.pc ==> !Builds(s.pc[t], s.cache[r]))
    && (forall q, r :: q in s.cache && r in s.cache && s.cache[q] == s.cache[r] ==> q == r)
  }

  /** A client that was made and is nowhere any more, so it can never be cached again. */
  ghost predicate Gone(s: State, c: Client) {
    && c in s.created
    && (forall r :: r in s.cache ==> s.cache[r] != c)
    && (forall t :: t in s.pc ==> !Builds(s.pc[t], c))
  }

  lemma BuildsCameFrom(p: Pc, cache: map<Role, Client>, a: Action, c: Client)
    requires p.Idle? <==> a.Start?
    ensures Builds(NextPc(p, cache, a), c) ==> (Builds(p, c) && !p.Store?) || (p.Build? && a == Continue(NewClient(c)))
    ensures NextPc(p, cache, a).Probe? ==> p.Build? && a == Continue(NewClient(NextPc(p, cache, a).client))
    ensures p.Build? && a.Continue? && a.choice.NewClient? ==> NextPc(p, cache, a) == Probe(p.role, a.choice.client)
  {
  }

  lemma BuildersHoldTheLock(p: Pc, c: Client)
    ensures Builds(p, c) ==> HoldsCacheLock(p) && !p.Pop? && !p.ClearAll?
    ensures p.Store? ==> Builds(p, p.client) && HoldsCacheLock(p) && AfterMiss(p) && RoleOf(p) == p.role
  {
  }

  lemma StepKeepsOnePlace(s: State, t: Tid, a: Action)
    requires LocksHeld(s) && CacheIsSafe(s) && OnePlace(s) && Enabled(s, t, a)
    ensures OnePlace(Next(s, t, a))
  {
    var p, s' := s.pc[t], Next(s, t, a);
    hide NextPc, HoldsCacheLock, HoldsConfigLock, WantsCacheLock, WantsConfigLock, RemovalsAfter;
    hide AfterMiss, RoleOf, Builds;
    forall u, c | u in s.pc ensures Builds(s.pc[u], c) ==> HoldsCacheLock(s.pc[u]) {
      BuildersHoldTheLock(s.pc[u], c);
    }
    forall c
      ensures Builds(s'.pc[t], c) ==> (Builds(p, c) && !p.Store?) || (p.Build? && a == Continue(NewClient(c)))
      ensures s'.pc[t].Probe? ==> p.Build? && a == Continue(NewClient(s'.pc[t].client))
      ensures p.Build? && a.Continue? && a.choice.NewClient? ==> s'.pc[t] == Probe(p.role, a.choice.client)
    {
      BuildsCameFrom(p, s.cache, a, c);
    }
    if p.Store? { BuildersHoldTheLock(p, p.client); }
  }

  /** What is gone stays gone: clients are made anew, and only what was built is stored. */
  lemma StepKeepsGone(s: State, t: Tid, a: Action, c: Client)
    requires Gone(s, c) && Enabled(s, t, a)
    ensures Gone(Next(s, t, a), c)
  {
    var p := s.pc[t];
    BuildsCameFrom(p, s.cache, a, c);
    if p.Store? { BuildersHoldTheLock(p, p.client); }
    hide NextPc, HoldsCacheLock, HoldsConfigLock, WantsCacheLock, WantsConfigLock, RemovalsAfter, Builds;
  }

  /** A cached client stays cached under its role or is gone. */
  lemma StepCachedOrGone(s: State, t: Tid, a: Action, r: Role, c: Client)
    requires CacheIsSafe(s) && OnePlace(s) && Enabled(s, t, a) && Cached(s, r, c)
    ensures Cached(Next(s, t, a), r, c) || Gone(Next(s, t, a), c)
  {
    var p := s.pc[t];
    BuildsCameFrom(p, s.cache, a, c);
    if p.Store? { BuildersHoldTheLock(p, p.client); }
    hide NextPc, HoldsCacheLock, HoldsConfigLock, WantsCacheLock, WantsConfigLock, RemovalsAfter;
    hide AfterMiss, RoleOf, Builds;
  }

  lemma {:induction false} RunKeepsOnePlace(run: Run, i: nat)
    requires IsRun(run) && i < |run.states|
    ensures OnePlace(run.states[i])
  {
    hide Next, Enabled, LocksHeld, CacheIsSafe, Ledger;
    if i == 0 {
      hide OnePlace;
      StartsInOnePlace(run.states[0]);
    } else {
      hide OnePlace;
      RunKeepsOnePlace(run, i - 1);
      RunKeepsInv(run, i - 1);
      StepKeepsOnePlace(run.states[i - 1], run.threads[i - 1], run.actions[i - 1]);
    }
  }

  lemma StartsInOnePlace(s: State)
    requires Init(s)
    ensures OnePlace(s)
  {
  }

  lemma {:induction false} CachedOrGone(run: Run, i: nat, j: nat, r: Role, c: Client)
    requires IsRun(run) && i <= j < |run.states| && Cached(run.states[i], r, c)
    ensures Cached(run.states[j], r, c) || Gone(run.states[j], c)
    decreases j
  {
    hide Next, Enabled, LocksHeld, CacheIsSafe, Ledger, OnePlace, Gone, Cached, Init;
    if i < j {
      CachedOrGone(run, i, j - 1, r, c);
      RunKeepsInv(run, j - 1);
      RunKeepsOnePlace(run, j - 1);
      if Gone(run.states[j - 1], c) {
        StepKeepsGone(run.states[j - 1], run.threads[j - 1], run.actions[j - 1], c);
      } else {
        StepCachedOrGone(run.states[j - 1], run.threads[j - 1], run.actions[j - 1], r, c);
      }
    }
  }

  lemma {:induction false} GoneStays(run: Run, i: nat, j: nat, c: Client)
    requires IsRun(run) && i <= j < |run.states| && Gone(run.states[i], c)
    ensures Gone(run.states[j], c)
    decreases j
  {
    hide Next, Enabled, Gone, Init;
    if i < j {
      GoneStays(run, i, j - 1, c);
      StepKeepsGone(run.states[j - 1], run.threads[j - 1], run.actions[j - 1], c);
    }
  }

  /**
   * A client that was cached and has been removed, by an invalidation, a clear
   * or anything else, is not returned by any call that starts afterwards: at
   * `removed` it is out of the cache, at `idle` the thread has no call under
   * way, at `j` it is not on its way out with that client.
   */
  lemma RemovedIsNeverReturned(run: Run, cached: nat, removed: nat, idle: nat, j: nat, t: Tid, q: Role, r: Role,
                               c: Client)
    requires IsRun(run) && cached <= removed <= idle <= j < |run.states|
    requires Cached(run.states[cached], q, c) && !Cached(run.states[removed], q, c)
    requires t in run.states[idle].pc && run.states[idle].pc[t].Idle?
    requires t in run.states[j].pc
    ensures !Bringing(run.states[j].pc[t], r, c)
  {
    CachedOrGone(run, cached, removed, q, c);
    hide IsRun, Cached, Bringing;
    if Bringing(run.states[j].pc[t], r, c) {
      var i := ReturnedWasCached(run, t, r, c, j);
      IdleIsInNoGet(r);
      assert idle < i;
      GoneStays(run, removed, i, c);
    }
  }

  lemma IdleIsInNoGet(r: Role)
    ensures !InGet(Idle, r)
  {
  }

  // ------------------------------------------------- what each call achieves

  /** Thread `t` starts `call` with step `i`. */
  predicate Begins(run: Run, i: nat, t: Tid, call: Call) {
    i < |run.threads| && i < |run.actions| && run.threads[i] == t && run.actions[i] == Start(call)
  }

  /** Thread `t` has no call under way in state `j`. */
  predicate IdleAt(run: Run, j: nat, t: Tid) {
    j < |run.states| && t in run.states[j].pc && run.states[j].pc[t].Idle?
  }

  /** Thread `t` is still where its call put it, or it is the one that moved. */
  lemma OwnStep(run: Run, m: nat, t: Tid)
    requires IsRun(run) && m < |run.threads| && t in run.states[m].pc
    ensures t in run.states[m + 1].pc
    ensures run.threads[m] != t ==> run.states[m + 1].pc[t] == run.states[m].pc[t]
    ensures run.threads[m] == t ==>
              && run.states[m + 1].pc[t] == NextPc(run.states[m].pc[t], run.states[m].cache, run.actions[m])
              && run.states[m + 1].cache == CacheAfter(run.states[m].cache, run.states[m].pc[t])
              && (run.states[m].pc[t].Idle? <==> run.actions[m].Start?)
  {
    hide NextPc, CacheAfter, RemovalsAfter, HoldsCacheLock, HoldsConfigLock, Init;
    assert Enabled(run.states[m], run.threads[m], run.actions[m]);
    assert run.states[m + 1] == Next(run.states[m], run.threads[m], run.actions[m]);
  }

  lemma Starter(run: Run, i: nat, t: Tid, call: Call)
    requires IsRun(run) && Begins(run, i, t, call)
    ensures t in run.states[i].pc && t in run.states[i + 1].pc
    ensures run.states[i + 1].pc[t] == NextPc(Idle, run.states[i].cache, Start(call))
  {
    hide NextPc, CacheAfter, RemovalsAfter, HoldsCacheLock, HoldsConfigLock, Init;
    assert Enabled(run.states[i], t, run.actions[i]);
    OwnStep(run, i, t);
  }

  lemma {:induction false} InvalidationProgress(run: Run, i: nat, m: nat, t: Tid, r: Role) returns (k: nat)
    requires IsRun(run) && Begins(run, i, t, Invalidate(r)) && i < m < |run.states|
    ensures t in run.states[m].pc
    ensures run.states[m].pc[t] in {WantLockToPop(r), Pop(r)} || (i < k <= m && r !in run.states[k].cache)
  {
    assert |run.states| == |run.threads| + 1;
    hide IsRun;
    if m == i + 1 {
      Starter(run, i, t, Invalidate(r));
      k := m;
    } else {
      k := InvalidationProgress(run, i, m - 1, t, r);
      OwnStep(run, m - 1, t);
      if run.states[m - 1].pc[t] == Pop(r) && run.threads[m - 1] == t { k := m; }
    }
  }

  /** An invalidation that is over has taken its role out of the cache. */
  lemma InvalidationRemoves(run: Run, i: nat, j: nat, t: Tid, r: Role) returns (k: nat)
    requires IsRun(run) && Begins(run, i, t, Invalidate(r)) && i < j && IdleAt(run, j, t)
    ensures i < k <= j && r !in run.states[k].cache
  {
    k := InvalidationProgress(run, i, j, t, r);
  }

  lemma {:induction false} ClearProgress(run: Run, i: nat, m: nat, t: Tid) returns (k: nat)
    requires IsRun(run) && Begins(run, i, t, Clear) && i < m < |run.states|
    ensures t in run.states[m].pc
    ensures run.states[m].pc[t] in {WantLockToClear, ClearAll} || (i < k <= m && run.states[k].cache == map[])
  {
    assert |run.states| == |run.threads| + 1;
    hide IsRun;
    if m == i + 1 {
      Starter(run, i, t, Clear);
      k := m;
    } else {
      k := ClearProgress(run, i, m - 1, t);
      OwnStep(run, m - 1, t);
      if run.states[m - 1].pc[t] == ClearAll && run.threads[m - 1] == t { k := m; }
    }
  }

  /** A clear that is over has emptied the cache. */
  lemma ClearEmpties(run: Run, i: nat, j: nat, t: Tid) returns (k: nat)
    requires IsRun(run) && Begins(run, i, t, Clear) && i < j && IdleAt(run, j, t)
    ensures i < k <= j && run.states[k].cache == map[]
  {
    k := ClearProgress(run, i, j, t);
  }

  /** Where a removing call came from. */
  lemma {:induction false} RemoverBegan(run: Run, m: nat, t: Tid) returns (i: nat)
    requires IsRun(run) && m < |run.states| && t in run.states[m].pc
    ensures var p := run.states[m].pc[t];
            && (p.WantLockToPop? || p.Pop? ==> i < m && Begins(run, i, t, Invalidate(p.role)))
            && (p.WantLockToClear? || p.ClearAll? ==> i < m && Begins(run, i, t, Clear))
  {
    i := 0;
    if m > 0 {
      var s, u, a := run.states[m - 1], run.threads[m - 1], run.actions[m - 1];
      hide NextPc, CacheAfter, RemovalsAfter, HoldsCacheLock, HoldsConfigLock, WantsCacheLock, WantsConfigLock;
      assert Enabled(s, u, a) && run.states[m] == Next(s, u, a);
      assert t in s.pc;
      OwnStep(run, m - 1, t);
      i := RemoverBegan(run, m - 1, t);
      hide IsRun;
      if u == t {
        RemoverCameFrom(s.pc[t], s.cache, a);
        if a.Start? { i := m - 1; }
      }
    }
  }

  lemma RemoverCameFrom(p: Pc, cache: map<Role, Client>, a: Action)
    requires p.Idle? <==> a.Start?
    ensures var q := NextPc(p, cache, a);
            && (q.WantLockToPop? ==> a == Start(Invalidate(q.role)))
            && (q.Pop? ==> p == WantLockToPop(q.role))
            && (q.WantLockToClear? ==> a == Start(Clear))
            && (q.ClearAll? ==> p == WantLockToClear)
  {
  }

  /** A role leaves the cache only at the hands of an invalidation of that role or of a clear. */
  lemma RemovalHasACause(run: Run, k: nat, q: Role) returns (i: nat)
    requires IsRun(run) && k < |run.threads| && q in run.states[k].cache && q !in run.states[k + 1].cache
    ensures i < k && (Begins(run, i, run.threads[k], Invalidate(q)) || Begins(run, i, run.threads[k], Clear))
  {
    var t := run.threads[k];
    assert Enabled(run.states[k], t, run.actions[k]);
    i := RemoverBegan(run, k, t);
    OwnStep(run, k, t);
    hide IsRun;
  }

  /** A step at which the world refuses a client: configuration, building or probing fails. */
  predicate Refuses(p: Pc, a: Action) {
    a.Continue? &&
    ((p.HoldConfig? && a.choice == Error) || (p.Build? && !a.choice.NewClient?)
     || (p.Probe? && a.choice != Fine && a.choice != Denied) || (p.ProbeBuckets? && a.choice != Fine))
  }

  /** Step `k` of thread `t` ends a get for `r` with a client, or is the world's refusal. */
  predicate GetSettled(run: Run, k: nat, t: Tid, r: Role) {
    && k < |run.threads| && k < |run.states| && k < |run.actions| && run.threads[k] == t && t in run.states[k].pc
    && ((run.states[k].pc[t].Returned? && run.states[k].pc[t].role == r)
        || Refuses(run.states[k].pc[t], run.actions[k]))
  }

  lemma GetGoesOn(p: Pc, cache: map<Role, Client>, a: Action, r: Role)
    requires InGet(p, r) && p != Release(r, None) && a.Continue?
    ensures (InGet(NextPc(p, cache, a), r) && NextPc(p, cache, a) != Release(r, None))
         || (p.Returned? && p.role == r) || Refuses(p, a)
  {
  }

  lemma {:induction false} GetProgress(run: Run, i: nat, m: nat, t: Tid, r: Role) returns (k: nat)
    requires IsRun(run) && Begins(run, i, t, Get(r)) && i < m < |run.states|
    ensures t in run.states[m].pc
    ensures (InGet(run.states[m].pc[t], r) && run.states[m].pc[t] != Release(r, None))
         || (i < k < m && GetSettled(run, k, t, r))
  {
    if m == i + 1 {
      Starter(run, i, t, Get(r));
      k := m;
    } else {
      k := GetProgress(run, i, m - 1, t, r);
      OwnStep(run, m - 1, t);
      assert |run.states| == |run.threads| + 1 == |run.actions| + 1;
      hide IsRun, NextPc, InGet, Refuses;
      IdleIsInNoGet(r);
      if !(i < k < m - 1 && GetSettled(run, k, t, r)) && run.threads[m - 1] == t {
        GetGoesOn(run.states[m - 1].pc[t], run.states[m - 1].cache, run.actions[m - 1], r);
        k := m - 1;
      }
    }
  }

  /** A get that is over has returned a client, unless the world refused it one. */
  lemma GetReturnsUnlessRefused(run: Run, i: nat, j: nat, t: Tid, r: Role) returns (k: nat)
    requires IsRun(run) && Begins(run, i, t, Get(r)) && i < j && IdleAt(run, j, t)
    ensures i < k < j && GetSettled(run, k, t, r)
  {
    k := GetProgress(run, i, j, t, r);
    IdleIsInNoGet(r);
  }

  /** While a client stays cached, every get of its role gives that client, and builds none. */
  lemma {:induction false} HitReturnsTheCachedClient(run: Run, i: nat, j: nat, t: Tid, r: Role, c: Client)
    requires IsRun(run) && Begins(run, i, t, Get(r)) && i < j < |run.states|
    requires forall m :: i <= m <= j ==> Cached(run.states[m], r, c)
    ensures t in run.states[j].pc
    ensures run.states[j].pc[t] == FastRead(r) || (exists k :: i < k <= j && ReturnsAt(run, k, t, r, c))
  {
    if j == i + 1 {
      Starter(run, i, t, Get(r));
    } else {
      HitReturnsTheCachedClient(run, i, j - 1, t, r, c);
      OwnStep(run, j - 1, t);
      assert Cached(run.states[j - 1], r, c);
      hide IsRun;
      if run.states[j - 1].pc[t] == FastRead(r) && run.threads[j - 1] == t { assert ReturnsAt(run, j, t, r, c); }
    }
  }

  predicate ReturnsAt(run: Run, k: nat, t: Tid, r: Role, c: Client) {
    k < |run.states| && t in run.states[k].pc && run.states[k].pc[t] == Returned(r, c)
  }

  /**
   * What the retry relies on: once an invalidation of the role has run from its
   * start at `begin` to its end at `over`, a client given out before it does not
   * come back from any call started since, the retry's included.
   */
  lemma RetryGetsAnotherClient(run: Run, given: nat, begin: nat, over: nat, idle: nat, j: nat,
                               t: Tid, v: Tid, u: Tid, q: Role, r: Role, c: Client)
    requires IsRun(run) && given <= begin < over <= idle <= j < |run.states|
    requires t in run.states[given].pc && Bringing(run.states[given].pc[t], r, c)
    requires Begins(run, begin, v, Invalidate(r)) && IdleAt(run, over, v)
    requires IdleAt(run, idle, u) && u in run.states[j].pc
    ensures !Bringing(run.states[j].pc[u], q, c)
  {
    var cached := ReturnedWasCached(run, t, r, c, given);
    var removed := InvalidationRemoves(run, begin, over, v, r);
    hide IsRun, Bringing;
    RemovedIsNeverReturned(run, cached, removed, idle, j, u, r, q, c);
  }

  // ------------------------------------------------- no deadlock

  /** How many steps a thread can still take before its call is over. */
  function Rank(p: Pc): nat {
    match p
    case FastRead(_) => 16
    case WantLock(_) => 15
    case DoubleCheck(_) => 14
    case ReadConfig(_) => 13
    case WantConfig(_) => 12
    case HoldConfig(_) => 11
    case Build(_) => 10
    case Probe(_, _) => 9
    case ReadShared(_, _) => 8
    case WantShared(_, _) => 7
    case HoldShared(_, _) => 6
    case ProbeBuckets(_, _) => 5
    case Store(_, _) => 4
    case Release(_, _) => 3
    case Returned(_, _) => 2
    case WantLockToPop(_) => 4
    case Pop(_) => 3
    case WantLockToClear => 4
    case ClearAll => 3
    case ReleaseOnly => 2
    case WantConfigOnly => 2
    case HoldConfigOnly => 1
    case Idle => 0
  }

  lemma ContinuingRanksDown(p: Pc, cache: map<Role, Client>, choice: Choice)
    requires !p.Idle?
    ensures Rank(NextPc(p, cache, Continue(choice))) < Rank(p)
    ensures p.Idle? <==> Rank(p) == 0
  {
  }

  ghost predicate AllIdle(s: State) { forall t :: t in s.pc ==> s.pc[t].Idle? }

  /** As long as some call is under way, some call can go on. */
  lemma NoDeadlock(s: State) returns (t: Tid, a: Action)
    requires Inv(s) && !AllIdle(s)
    ensures a.Continue? && Enabled(s, t, a)
  {
    hide CacheIsSafe, Ledger;
    a := Continue(Error);
    if s.configLock.Some? {
      t := s.configLock.value;
    } else if s.cacheLock.Some? {
      t := s.cacheLock.value;
    } else {
      t :| t in s.pc && !s.pc[t].Idle?;
    }
  }

  ghost function TotalRank(pc: map<Tid, Pc>): nat
    decreases |pc|
  {
    if pc == map[] then 0 else
      var t :| t in pc;
      Rank(pc[t]) + TotalRank(pc - {t})
  }

  lemma {:induction false} TotalRankWithout(pc: map<Tid, Pc>, t: Tid)
    requires t in pc
    ensures TotalRank(pc) == Rank(pc[t]) + TotalRank(pc - {t})
    decreases |pc|
  {
    hide Rank;
    var u :| u in pc && TotalRank(pc) == Rank(pc[u]) + TotalRank(pc - {u});
    if u != t {
      TotalRankWithout(pc - {u}, t);
      TotalRankWithout(pc - {t}, u);
      assert pc - {u} - {t} == pc - {t} - {u};
      assert TotalRank(pc - {u}) == Rank(pc[t]) + TotalRank(pc - {u} - {t});
      assert TotalRank(pc - {t}) == Rank(pc[u]) + TotalRank(pc - {t} - {u});
    }
  }

  lemma StepRanksDown(s: State, t: Tid, a: Action)
    requires Enabled(s, t, a) && a.Continue?
    ensures TotalRank(Next(s, t, a).pc) < TotalRank(s.pc)
  {
    hide Rank, NextPc;
    var s' := Next(s, t, a);
    ContinuingRanksDown(s.pc[t], s.cache, a.choice);
    TotalRankWithout(s.pc, t);
    TotalRankWithout(s'.pc, t);
    assert s.pc - {t} == s'.pc - {t};
  }

  /** Any schedule of the calls under way is over after a bounded number of steps. */
  lemma {:induction false} SchedulesEnd(states: seq<State>, threads: seq<Tid>, actions: seq<Action>)
    requires |states| == |threads| + 1 == |actions| + 1
    requires forall i :: 0 <= i < |threads| ==>
               && Enabled(states[i], threads[i], actions[i]) && actions[i].Continue?
               && states[i + 1] == Next(states[i], threads[i], actions[i])
    ensures |threads| + TotalRank(states[|threads|].pc) <= TotalRank(states[0].pc)
  {
    hide Next, Enabled;
    if threads != [] {
      StepRanksDown(states[0], threads[0], actions[0]);
      SchedulesEnd(states[1..], threads[1..], actions[1..]);
    }
  }

  /** And from every reachable state all calls can be brought to an end. */
  lemma {:induction false} AllCallsCanFinish(s: State) returns (threads: seq<Tid>, actions: seq<Action>, end: State)
    requires Inv(s)
    ensures |threads| == |actions| && Leads(s, threads, actions, end)
    ensures forall a :: a in actions ==> a.Continue?
    ensures AllIdle(end)
    decreases TotalRank(s.pc)
  {
    hide Next, Enabled, Inv;
    if AllIdle(s) {
      threads, actions, end := [], [], s;
    } else {
      var t, a := NoDeadlock(s);
      StepKeepsInv(s, t, a);
      StepRanksDown(s, t, a);
      threads, actions, end := AllCallsCanFinish(Next(s, t, a));
      threads, actions := [t] + threads, [a] + actions;
    }
  }

  ghost predicate Leads(s: State, threads: seq<Tid>, actions: seq<Action>, end: State)
    requires |threads| == |actions|
    decreases |threads|
  {
    if threads == [] then s == end else
      Enabled(s, threads[0], actions[0]) && Leads(Next(s, threads[0], actions[0]), threads[1..], actions[1..], end)
  }
}
