/**
 * Publishing the configuration to lock-free readers: reload, migrate and
 * persist under one lock, a flag against recursive migration, and writers that
 * save a whole configuration without taking the lock.
 *
 * Each shared access is one step; the file may be edited from outside between
 * any two of them.  The three reads of a freshness check are one step whose
 * outcome is left open, except that the last read found a non-empty cache.
 */
module ConfigPublication {
  import opened ConfigMigration
  import opened Wrappers

  type Tid = nat

  /** config.json: missing, half written, or readable. */
  datatype File = Absent | Torn | Readable(config: Config)

  datatype Call = Load | Save(config: Config)

  datatype Pc =
    | Idle
    // load_config without the lock
    | CheckExists
    | CheckSeed
    | SeedDefault
    | ReturnCache
    | StatFile
    | FreshnessCheck
    | WantLock
    // load_config with the lock
    | Recheck
    | ReturnCacheLocked
    | ReadFile
    | CheckFlag(local: Config)
    | Migrating(local: Config)
    | TearFile(local: Config)
    | WriteFile(local: Config)
    | BindSaved(local: Config)
    | StampSaved
    | ReadSaved
    | DropFlagThenReturn(result: Config)
    | DropFlagThenPublish(local: Config)
    | DropFlagThenRaise
    | Publish(local: Config)
    | StampPublished
    | ReadPublished
    | ReleaseThenReturn(result: Config)
    | ReleaseThenRaise
    | Returned(result: Config)
    // save_config
    | SaveTear(local: Config)
    | SaveWrite(local: Config)
    | SaveBind(local: Config)
    | SaveStamp

  datatype State = State(file: File, cache: Config, lock: Option<Tid>, migrating: bool, pc: map<Tid, Pc>)

  /** A thread starts a call or goes on with one, or somebody edits the file. */
  datatype Action = Start(call: Call) | Continue(choice: Choice) | Edit(file: File)

  /** What the step finds or suffers: up to date or not, writable, read-only, failing. */
  datatype Choice = Fine | Stale | ReadOnly | Error

  // ------------------------------------------------- steps

  function NextPc(p: Pc, file: File, cache: Config, migrating: bool, choice: Choice, env: Env): Pc {
    if HoldsFlag(p) then NextInMigration(p, cache, choice, env)
    else if HoldsLock(p) then NextUnderLock(p, file, cache, migrating, choice)
    else NextWithoutLock(p, file, cache, choice)
  }

  function NextWithoutLock(p: Pc, file: File, cache: Config, choice: Choice): Pc
    requires !HoldsLock(p)
  {
    match p
    case CheckExists => if file.Absent? then CheckSeed else StatFile
    case CheckSeed => if cache == map[] then SeedDefault else ReturnCache
    case SeedDefault => ReturnCache
    case ReturnCache => Returned(cache)
    case StatFile => if file.Absent? then Idle else FreshnessCheck
    case FreshnessCheck => if choice == Fine && cache != map[] then ReturnCache else WantLock
    case WantLock => Recheck
    case Returned(_) => Idle
    case SaveTear(c) => if choice == Fine then SaveWrite(c) else Idle
    case SaveWrite(c) => if choice == Fine then SaveBind(c) else Idle
    case SaveBind(c) => SaveStamp
    case SaveStamp => Idle
    case Idle => Idle
  }

  function NextUnderLock(p: Pc, file: File, cache: Config, migrating: bool, choice: Choice): Pc
    requires HoldsLock(p) && !HoldsFlag(p)
  {
    match p
    case Recheck => if choice == Fine && cache != map[] then ReturnCacheLocked else ReadFile
    case ReturnCacheLocked => ReleaseThenReturn(cache)
    case ReadFile => if file.Readable? then CheckFlag(file.config) else ReleaseThenRaise
    case CheckFlag(c) => if migrating then Publish(c) else Migrating(c)
    case Publish(c) => StampPublished
    case StampPublished => ReadPublished
    case ReadPublished => ReleaseThenReturn(cache)
    case ReleaseThenReturn(r) => Returned(r)
    case ReleaseThenRaise => Idle
  }

  function NextInMigration(p: Pc, cache: Config, choice: Choice, env: Env): Pc
    requires HoldsFlag(p)
  {
    match p
    case Migrating(c) =>
      if IsMigrated(c, env) then DropFlagThenPublish(c) else TearFile(Migrated(c, env))
    case TearFile(c) =>
      if choice == Fine then WriteFile(c) else if choice == ReadOnly then DropFlagThenPublish(c) else DropFlagThenRaise
    case WriteFile(c) => if choice == Fine then BindSaved(c) else DropFlagThenRaise
    case BindSaved(c) => StampSaved
    case StampSaved => if choice == Fine then ReadSaved else DropFlagThenRaise
    case ReadSaved => DropFlagThenReturn(cache)
    case DropFlagThenReturn(r) => ReleaseThenReturn(r)
    case DropFlagThenPublish(c) => Publish(c)
    case DropFlagThenRaise => ReleaseThenRaise
  }

  function FileAfter(file: File, p: Pc, choice: Choice): File {
    match p
    case TearFile(_) => if choice == Fine then Torn else file
    case SaveTear(_) => if choice == Fine then Torn else file
    case WriteFile(c) => if choice == Fine then Readable(c) else file
    case SaveWrite(c) => if choice == Fine then Readable(c) else file
    case _ => file
  }

  /** The cache is only ever rebound as a whole. */
  function CacheAfter(cache: Config, p: Pc, env: Env): Config {
    match p
    case SeedDefault => DefaultConfig(env)
    case BindSaved(c) => c
    case Publish(c) => c
    case SaveBind(c) => c
    case _ => cache
  }

  function FlagAfter(migrating: bool, p: Pc, q: Pc): bool {
    if p.CheckFlag? && q.Migrating? then true
    else if p.DropFlagThenReturn? || p.DropFlagThenPublish? || p.DropFlagThenRaise? then false
    else migrating
  }

  /** Inside `with _config_lock:`. */
  predicate HoldsLock(p: Pc) {
    p.Recheck? || p.ReturnCacheLocked? || p.ReadFile? || p.CheckFlag? || HoldsFlag(p) || p.Publish?
    || p.StampPublished? || p.ReadPublished? || p.ReleaseThenReturn? || p.ReleaseThenRaise?
  }

  /** Between setting and clearing `_migrating`. */
  predicate HoldsFlag(p: Pc) {
    p.Migrating? || p.TearFile? || p.WriteFile? || p.BindSaved? || p.StampSaved? || p.ReadSaved?
    || p.DropFlagThenReturn? || p.DropFlagThenPublish? || p.DropFlagThenRaise?
  }

  predicate Enabled(s: State, t: Tid, a: Action, env: Env) {
    && t in s.pc
    && match a
       case Start(Load) => s.pc[t].Idle?
       case Start(Save(c)) => s.pc[t].Idle? && IsMigrated(c, env)
       case Continue(_) => !s.pc[t].Idle? && (s.pc[t].WantLock? ==> s.lock == None)
       case Edit(_) => true
  }

  function Next(s: State, t: Tid, a: Action, env: Env): State
    requires Enabled(s, t, a, env)
  {
    match a
    case Start(Load) => s.(pc := s.pc[t := CheckExists])
    case Start(Save(c)) => s.(pc := s.pc[t := SaveTear(c)])
    case Edit(file) => s.(file := file)
    case Continue(choice) =>
      var p := s.pc[t];
      var q := NextPc(p, s.file, s.cache, s.migrating, choice, env);
      State(
        FileAfter(s.file, p, choice),
        CacheAfter(s.cache, p, env),
        if HoldsLock(p) == HoldsLock(q) then s.lock else if HoldsLock(q) then Some(t) else None,
        FlagAfter(s.migrating, p, q),
        s.pc[t := q])
  }

  // ------------------------------------------------- what every step keeps

  /** A configuration fit to be handed out. */
  predicate Good(c: Config, env: Env) { c != map[] && IsMigrated(c, env) }

  /** The lock is held exactly inside the region, and the flag is up only under the lock. */
  ghost predicate LockInv(s: State) {
    && (forall t :: t in s.pc ==> (HoldsLock(s.pc[t]) <==> s.lock == Some(t)))
    && (s.lock.Some? ==> s.lock.value in s.pc)
    && (s.migrating <==> s.lock.Some? && s.lock.value in s.pc && HoldsFlag(s.pc[s.lock.value]))
  }

  /** Every configuration a thread is about to publish or to return is migrated. */
  predicate PcGood(p: Pc, cache: Config, env: Env) {
    && (Carried(p).Some? ==> Good(Carried(p).value, env))
    && (CountsOnCache(p) ==> cache != map[])
  }

  /** The configuration a thread is about to save, publish or return. */
  function Carried(p: Pc): Option<Config> {
    match p
    case TearFile(c) => Some(c)
    case WriteFile(c) => Some(c)
    case BindSaved(c) => Some(c)
    case DropFlagThenPublish(c) => Some(c)
    case Publish(c) => Some(c)
    case SaveTear(c) => Some(c)
    case SaveWrite(c) => Some(c)
    case SaveBind(c) => Some(c)
    case DropFlagThenReturn(r) => Some(r)
    case ReleaseThenReturn(r) => Some(r)
    case Returned(r) => Some(r)
    case _ => None
  }

  /** About to return the cache, which some thread has filled before. */
  predicate CountsOnCache(p: Pc) {
    p.ReturnCache? || p.ReturnCacheLocked? || p.StampSaved? || p.ReadSaved? || p.StampPublished? || p.ReadPublished?
  }

  ghost predicate ConfigInv(s: State, env: Env) {
    && (s.cache != map[] ==> Good(s.cache, env))
    && forall t :: t in s.pc ==> PcGood(s.pc[t], s.cache, env)
  }

  ghost predicate Inv(s: State, env: Env) { LockInv(s) && ConfigInv(s, env) }

  ghost predicate Init(s: State) {
    s.cache == map[] && s.lock == None && !s.migrating && forall t :: t in s.pc ==> s.pc[t].Idle?
  }

  lemma NextPcLocks(p: Pc, file: File, cache: Config, migrating: bool, choice: Choice, env: Env)
    ensures var q := NextPc(p, file, cache, migrating, choice, env);
            && (!HoldsLock(p) && HoldsLock(q) ==> p.WantLock?)
            && (HoldsFlag(q) ==> HoldsLock(q))
            && (HoldsFlag(p) ==> FlagAfter(true, p, q) == HoldsFlag(q))
            && (!HoldsFlag(p) ==> FlagAfter(false, p, q) == HoldsFlag(q))
            && (!HoldsFlag(p) && FlagAfter(migrating, p, q) != migrating ==> HoldsLock(p))
  {
    hide IsMigrated, Migrated;
  }

  lemma StepKeepsLock(s: State, t: Tid, a: Action, env: Env)
    requires LockInv(s) && Enabled(s, t, a, env)
    ensures LockInv(Next(s, t, a, env))
  {
    hide NextPc, FileAfter, CacheAfter;
    if a.Continue? {
      NextPcLocks(s.pc[t], s.file, s.cache, s.migrating, a.choice, env);
    }
  }

  /** One thread's step: what it carries on is fit, and the cache stays fit. */
  lemma NextPcGood(p: Pc, file: File, cache: Config, choice: Choice, env: Env)
    requires PcGood(p, cache, env) && (cache != map[] ==> Good(cache, env))
    ensures var cache' := CacheAfter(cache, p, env);
            && (cache' != map[] ==> Good(cache', env))
            && (cache != map[] ==> cache' != map[])
            && PcGood(NextPc(p, file, cache, false, choice, env), cache', env)
  {
    CacheStaysGood(p, cache, env);
    hide PcGood, Good, CacheAfter;
    if HoldsFlag(p) {
      GoodInMigration(p, cache, CacheAfter(cache, p, env), choice, env);
    } else if HoldsLock(p) {
      GoodUnderLock(p, file, cache, CacheAfter(cache, p, env), choice, env);
    } else {
      GoodWithoutLock(p, file, cache, CacheAfter(cache, p, env), choice, env);
    }
  }

  /** The steps that rebind the cache to something. */
  predicate Rebinds(p: Pc) { p.SeedDefault? || p.BindSaved? || p.Publish? || p.SaveBind? }

  lemma GoodWithoutLock(p: Pc, file: File, cache: Config, cache': Config, choice: Choice, env: Env)
    requires !HoldsLock(p) && PcGood(p, cache, env) && (cache != map[] ==> Good(cache, env))
    requires cache != map[] || Rebinds(p) ==> cache' != map[]
    ensures PcGood(NextWithoutLock(p, file, cache, choice), cache', env)
  {
    hide Good;
  }

  lemma GoodUnderLock(p: Pc, file: File, cache: Config, cache': Config, choice: Choice, env: Env)
    requires HoldsLock(p) && !HoldsFlag(p) && PcGood(p, cache, env) && (cache != map[] ==> Good(cache, env))
    requires cache != map[] || Rebinds(p) ==> cache' != map[]
    ensures PcGood(NextUnderLock(p, file, cache, false, choice), cache', env)
  {
    hide Good;
  }

  lemma GoodInMigration(p: Pc, cache: Config, cache': Config, choice: Choice, env: Env)
    requires HoldsFlag(p) && PcGood(p, cache, env) && (cache != map[] ==> Good(cache, env))
    requires cache != map[] || Rebinds(p) ==> cache' != map[]
    ensures PcGood(NextInMigration(p, cache, choice, env), cache', env)
  {
    hide Good, IsMigrated, Migrated;
    if p.Migrating? { MigrationIsGood(p.local, env); }
  }

  lemma CacheStaysGood(p: Pc, cache: Config, env: Env)
    requires PcGood(p, cache, env) && (cache != map[] ==> Good(cache, env))
    ensures var cache' := CacheAfter(cache, p, env);
            && (cache' != map[] ==> Good(cache', env))
            && (cache != map[] || Rebinds(p) ==> cache' != map[])
  {
    hide IsMigrated, DefaultConfig;
    DefaultConfigIsMigrated(env, env);
  }

  lemma MigrationIsGood(c: Config, env: Env)
    ensures IsMigrated(c, env) ==> Good(c, env)
    ensures Good(Migrated(c, env), env)
  {
    hide Migrated, IsMigrated;
    MigratedIsMigrated(c, env, env);
    MigratedIsNotEmpty(c, env);
    MigratedIsNotEmpty(Migrated(c, env), env);
  }

  lemma MigratedIsNotEmpty(c: Config, env: Env)
    ensures IsMigrated(c, env) ==> c != map[]
  {
  }

  lemma GoodStaysGood(p: Pc, cache: Config, cache': Config, env: Env)
    requires PcGood(p, cache, env) && (cache != map[] ==> cache' != map[])
    ensures PcGood(p, cache', env)
  {
  }

  lemma StepKeepsConfig(s: State, t: Tid, a: Action, env: Env)
    requires LockInv(s) && ConfigInv(s, env) && Enabled(s, t, a, env)
    ensures ConfigInv(Next(s, t, a, env), env)
  {
    hide NextPc, FileAfter, CacheAfter, IsMigrated, PcGood;
    var s' := Next(s, t, a, env);
    if a.Continue? {
      FlagIsDownAtCheck(s, t, a.choice, env);
      NextPcGood(s.pc[t], s.file, s.cache, a.choice, env);
      forall u | u in s'.pc ensures PcGood(s'.pc[u], s'.cache, env) {
        if u != t { GoodStaysGood(s.pc[u], s.cache, s'.cache, env); }
      }
    } else if a.Start? {
      StartIsGood(a.call, s.cache, env);
    }
  }

  lemma StartIsGood(call: Call, cache: Config, env: Env)
    requires call.Save? ==> IsMigrated(call.config, env)
    ensures PcGood(if call.Save? then SaveTear(call.config) else CheckExists, cache, env)
  {
  }

  /** So the unmigrated branch is never taken: at the check, the flag is down. */
  lemma FlagIsDownAtCheck(s: State, t: Tid, choice: Choice, env: Env)
    requires LockInv(s) && t in s.pc
    ensures NextPc(s.pc[t], s.file, s.cache, s.migrating, choice, env)
         == NextPc(s.pc[t], s.file, s.cache, false, choice, env)
  {
  }

  // ------------------------------------------------- whole runs

  datatype Run = Run(states: seq<State>, threads: seq<Tid>, actions: seq<Action>)

  ghost predicate IsRun(run: Run, env: Env) {
    && |run.states| == |run.threads| + 1 == |run.actions| + 1
    && Init(run.states[0])
    && forall i :: 0 <= i < |run.threads| ==>
         && Enabled(run.states[i], run.threads[i], run.actions[i], env)
         && run.states[i + 1] == Next(run.states[i], run.threads[i], run.actions[i], env)
  }

  lemma {:induction false} RunKeepsInv(run: Run, env: Env, i: nat)
    requires IsRun(run, env) && i < |run.states|
    ensures Inv(run.states[i], env)
  {
    hide Next, Enabled, LockInv, ConfigInv;
    if i == 0 {
      InitInv(run.states[0], env);
    } else {
      RunKeepsInv(run, env, i - 1);
      StepKeepsLock(run.states[i - 1], run.threads[i - 1], run.actions[i - 1], env);
      StepKeepsConfig(run.states[i - 1], run.threads[i - 1], run.actions[i - 1], env);
    }
  }

  lemma InitInv(s: State, env: Env)
    requires Init(s)
    ensures Inv(s, env)
  {
  }

  /**
   * In every interleaving, whatever load_config returns is a non-empty fixed
   * point of the migration, and so is whatever lock-free readers see published.
   */
  lemma ReadersSeeMigratedConfigs(run: Run, env: Env, i: nat, t: Tid)
    requires IsRun(run, env) && i < |run.states| && t in run.states[i].pc
    ensures run.states[i].pc[t].Returned? ==>
              && run.states[i].pc[t].result != map[]
              && Migrated(run.states[i].pc[t].result, env) == run.states[i].pc[t].result
    ensures run.states[i].cache != map[] ==> Migrated(run.states[i].cache, env) == run.states[i].cache
    ensures run.states[i].lock == None ==> !run.states[i].migrating
  {
    hide Migrated, IsMigrated;
    RunKeepsInv(run, env, i);
    FixedPoints(run.states[i].cache, env);
    if run.states[i].pc[t].Returned? {
      assert PcGood(run.states[i].pc[t], run.states[i].cache, env);
      FixedPoints(run.states[i].pc[t].result, env);
    }
  }

  // ------------------------------------------------- where a configuration comes from

  /**
   * By state `i`: the migration of what the file held at some moment, something
   * a thread has started to save, or the built-in one when the file was missing.
   */
  ghost predicate Origin(run: Run, env: Env, i: nat, r: Config)
    requires |run.states| == |run.actions| + 1
  {
    || (exists c :: Held(run, i, c) && r == Migrated(c, env))
    || (exists k :: 0 <= k < i && k < |run.actions| && run.actions[k] == Start(Save(r)))
    || (r == DefaultConfig(env) && exists k :: 0 <= k <= i && k < |run.states| && run.states[k].file.Absent?)
  }

  /** The file held `c` in state `i` or before. */
  ghost predicate Held(run: Run, i: nat, c: Config) {
    exists k :: 0 <= k <= i && k < |run.states| && run.states[k].file == Readable(c)
  }

  ghost function Files(run: Run, i: nat): iset<Config> { iset c | Held(run, i, c) }

  ghost function Origins(run: Run, env: Env, i: nat): iset<Config>
    requires |run.states| == |run.actions| + 1
  {
    iset r | Origin(run, env, i, r)
  }

  lemma OriginStays(run: Run, env: Env, i: nat, r: Config)
    requires |run.states| == |run.actions| + 1 && Origin(run, env, i, r)
    ensures Origin(run, env, i + 1, r)
  {
    hide Migrated, DefaultConfig;
    if c :| Held(run, i, c) && r == Migrated(c, env) { assert Held(run, i + 1, c); }
  }

  /** Whatever a thread works with comes from `raw`, the files, or `good`, their migrations and the rest. */
  ghost predicate PcFrom(p: Pc, raw: iset<Config>, good: iset<Config>, env: Env) {
    && (Carried(p).Some? ==> Carried(p).value in good)
    && (p.CheckFlag? || p.Migrating? ==> p.local in raw)
    && (p.CheckSeed? || p.SeedDefault? ==> DefaultConfig(env) in good)
  }

  lemma NextPcFrom(p: Pc, file: File, cache: Config, choice: Choice, env: Env, raw: iset<Config>, good: iset<Config>)
    requires PcFrom(p, raw, good, env) && (cache != map[] ==> cache in good) && (CountsOnCache(p) ==> cache != map[])
    requires file.Readable? ==> file.config in raw
    requires file.Absent? ==> DefaultConfig(env) in good
    requires forall c :: c in raw ==> Migrated(c, env) in good
    ensures PcFrom(NextPc(p, file, cache, false, choice, env), raw, good, env)
    ensures CacheAfter(cache, p, env) != cache ==> CacheAfter(cache, p, env) in good
    ensures FileAfter(file, p, choice) != file && FileAfter(file, p, choice).Readable? ==>
              FileAfter(file, p, choice).config in good
  {
    if p.Migrating? { FixedPoints(p.local, env); }
    hide Migrated, IsMigrated, DefaultConfig;
    if HoldsFlag(p) {
      MigrationPcFrom(p, cache, choice, env, raw, good);
    } else if HoldsLock(p) {
      LockedPcFrom(p, file, cache, choice, env, raw, good);
    } else {
      PlainPcFrom(p, file, cache, choice, env, raw, good);
    }
    hide NextInMigration, NextUnderLock, NextWithoutLock, HoldsFlag, HoldsLock;
  }

  lemma PlainPcFrom(p: Pc, file: File, cache: Config, choice: Choice, env: Env, raw: iset<Config>, good: iset<Config>)
    requires !HoldsLock(p) && PcFrom(p, raw, good, env)
    requires (cache != map[] ==> cache in good) && (CountsOnCache(p) ==> cache != map[])
    requires file.Absent? ==> DefaultConfig(env) in good
    ensures PcFrom(NextWithoutLock(p, file, cache, choice), raw, good, env)
  {
    hide DefaultConfig;
  }

  lemma LockedPcFrom(p: Pc, file: File, cache: Config, choice: Choice, env: Env, raw: iset<Config>, good: iset<Config>)
    requires HoldsLock(p) && !HoldsFlag(p) && PcFrom(p, raw, good, env)
    requires (cache != map[] ==> cache in good) && (CountsOnCache(p) ==> cache != map[])
    requires file.Readable? ==> file.config in raw
    ensures PcFrom(NextUnderLock(p, file, cache, false, choice), raw, good, env)
  {
    hide DefaultConfig;
  }

  lemma MigrationPcFrom(p: Pc, cache: Config, choice: Choice, env: Env, raw: iset<Config>, good: iset<Config>)
    requires HoldsFlag(p) && PcFrom(p, raw, good, env)
    requires (cache != map[] ==> cache in good) && (CountsOnCache(p) ==> cache != map[])
    requires p.Migrating? ==> Migrated(p.local, env) in good && (IsMigrated(p.local, env) ==> p.local in good)
    ensures PcFrom(NextInMigration(p, cache, choice, env), raw, good, env)
  {
    hide DefaultConfig, Migrated, IsMigrated;
  }

  ghost predicate OriginInv(run: Run, env: Env, i: nat)
    requires |run.states| == |run.actions| + 1 && i < |run.states|
  {
    && (run.states[i].cache != map[] ==> Origin(run, env, i, run.states[i].cache))
    && forall t :: t in run.states[i].pc ==>
         PcFrom(run.states[i].pc[t], Files(run, i), Origins(run, env, i), env)
  }

  lemma PcFromGrows(run: Run, env: Env, i: nat, p: Pc)
    requires |run.states| == |run.actions| + 1
    requires PcFrom(p, Files(run, i), Origins(run, env, i), env)
    ensures PcFrom(p, Files(run, i + 1), Origins(run, env, i + 1), env)
  {
    if Carried(p).Some? { OriginStays(run, env, i, Carried(p).value); }
    if p.CheckSeed? || p.SeedDefault? { OriginStays(run, env, i, DefaultConfig(env)); }
    hide Origin, DefaultConfig;
    if p.CheckFlag? || p.Migrating? { HeldStays(run, i, p.local); }
  }

  lemma HeldStays(run: Run, i: nat, c: Config)
    ensures Held(run, i, c) ==> Held(run, i + 1, c)
  {
  }

  /** What step `i` of the run, a thread going on with its call, works from and leaves behind. */
  lemma StepFrom(run: Run, env: Env, i: nat)
    requires IsRun(run, env) && i < |run.actions| && OriginInv(run, env, i) && run.actions[i].Continue?
    ensures var s, s', t := run.states[i], run.states[i + 1], run.threads[i];
            && t in s'.pc
            && PcFrom(s'.pc[t], Files(run, i), Origins(run, env, i), env)
            && (s'.cache != s.cache ==> Origin(run, env, i, s'.cache))
            && (s'.file != s.file && s'.file.Readable? ==> Origin(run, env, i, s'.file.config))
  {
    var s, t, choice := run.states[i], run.threads[i], run.actions[i].choice;
    RunKeepsInv(run, env, i);
    assert Enabled(s, t, run.actions[i], env) && run.states[i + 1] == Next(s, t, run.actions[i], env);
    FlagIsDownAtCheck(s, t, choice, env);
    assert PcGood(s.pc[t], s.cache, env);
    hide NextPc, CacheAfter, FileAfter, HoldsLock, HoldsFlag, Carried, CountsOnCache, Migrated, DefaultConfig;
    var raw, good := Files(run, i), Origins(run, env, i);
    forall c | c in raw ensures Migrated(c, env) in good { assert Origin(run, env, i, Migrated(c, env)); }
    if s.file.Readable? { assert Held(run, i, s.file.config); }
    if s.file.Absent? { assert Origin(run, env, i, DefaultConfig(env)); }
    hide Origin, Held;
    NextPcFrom(s.pc[t], s.file, s.cache, choice, env, raw, good);
  }

  lemma {:induction false} RunKeepsOrigins(run: Run, env: Env, i: nat)
    requires IsRun(run, env) && i < |run.states|
    ensures OriginInv(run, env, i)
  {
    if i == 0 {
      hide Origin, Held, Carried, IsMigrated, DefaultConfig;
      assert forall t :: t in run.states[0].pc ==> run.states[0].pc[t].Idle?;
      IdleFromAnywhere(run, env);
    } else {
      hide OriginInv;
      RunKeepsOrigins(run, env, i - 1);
      StepKeepsOrigins(run, env, i - 1);
    }
  }

  lemma StepKeepsOrigins(run: Run, env: Env, i: nat)
    requires IsRun(run, env) && i < |run.actions| && OriginInv(run, env, i)
    ensures OriginInv(run, env, i + 1)
  {
    hide NextPc, CacheAfter, FileAfter, HoldsLock, HoldsFlag, PcFrom, Migrated, IsMigrated, DefaultConfig, Origin, Held;
    var s, s', u, a := run.states[i], run.states[i + 1], run.threads[i], run.actions[i];
    assert Enabled(s, u, a, env) && s' == Next(s, u, a, env);
    if a.Continue? { StepFrom(run, env, i); }
    if a.Start? { StartFrom(run, env, i); }
    hide IsRun, Init;
    if s.cache != map[] { OriginStays(run, env, i, s.cache); }
    if s'.cache != s.cache { OriginStays(run, env, i, s'.cache); }
    forall t | t in s'.pc ensures PcFrom(s'.pc[t], Files(run, i + 1), Origins(run, env, i + 1), env) {
      if t != u || !a.Start? { PcFromGrows(run, env, i, s'.pc[t]); }
    }
  }

  lemma IdleFromAnywhere(run: Run, env: Env)
    requires |run.states| == |run.actions| + 1
    ensures PcFrom(Idle, Files(run, 0), Origins(run, env, 0), env)
  {
  }

  lemma StartFrom(run: Run, env: Env, i: nat)
    requires IsRun(run, env) && i < |run.actions| && run.actions[i].Start?
    ensures run.threads[i] in run.states[i + 1].pc
    ensures PcFrom(run.states[i + 1].pc[run.threads[i]], Files(run, i + 1), Origins(run, env, i + 1), env)
    ensures run.states[i + 1].cache == run.states[i].cache
  {
    hide NextPc, IsMigrated, Migrated, DefaultConfig, FileAfter, CacheAfter, HoldsLock, HoldsFlag;
    assert Enabled(run.states[i], run.threads[i], run.actions[i], env);
    assert run.states[i + 1] == Next(run.states[i], run.threads[i], run.actions[i], env);
    if run.actions[i].call.Save? {
      assert Origin(run, env, i + 1, run.actions[i].call.config);
    }
    hide Origin, Held, IsRun;
  }

  /** Whatever is returned or published comes from somewhere: nothing is made up and nothing is lost. */
  lemma ConfigsHaveAnOrigin(run: Run, env: Env, i: nat, t: Tid)
    requires IsRun(run, env) && i < |run.states| && t in run.states[i].pc
    ensures run.states[i].pc[t].Returned? ==> Origin(run, env, i, run.states[i].pc[t].result)
    ensures run.states[i].cache != map[] ==> Origin(run, env, i, run.states[i].cache)
  {
    RunKeepsOrigins(run, env, i);
    assert |run.states| == |run.actions| + 1;
    hide IsRun;
    OriginsOf(run, env, i, t);
  }

  lemma OriginsOf(run: Run, env: Env, i: nat, t: Tid)
    requires |run.states| == |run.actions| + 1 && i < |run.states| && t in run.states[i].pc && OriginInv(run, env, i)
    ensures run.states[i].pc[t].Returned? ==> Origin(run, env, i, run.states[i].pc[t].result)
    ensures run.states[i].cache != map[] ==> Origin(run, env, i, run.states[i].cache)
  {
    hide Origin, Held, DefaultConfig;
    assert PcFrom(run.states[i].pc[t], Files(run, i), Origins(run, env, i), env);
  }

  /** And so does whatever the program itself writes to the file. */
  lemma FilesHaveAnOrigin(run: Run, env: Env, i: nat)
    requires IsRun(run, env) && i < |run.actions| && run.actions[i].Continue?
    requires run.states[i + 1].file != run.states[i].file && run.states[i + 1].file.Readable?
    ensures Origin(run, env, i, run.states[i + 1].file.config)
  {
    RunKeepsOrigins(run, env, i);
    StepFrom(run, env, i);
  }

  // ------------------------------------------------- what each call achieves

  /** Thread `t` starts `call` with step `i` and has not ended it by state `m`. */
  predicate InCall(run: Run, i: nat, m: nat, t: Tid, call: Call) {
    && i < |run.threads| && i < |run.actions| && run.threads[i] == t && run.actions[i] == Start(call)
    && i < m < |run.states|
    && forall k :: i < k <= m ==> t in run.states[k].pc && !run.states[k].pc[t].Idle?
  }

  lemma OwnStep(run: Run, env: Env, m: nat, t: Tid)
    requires IsRun(run, env) && m < |run.threads| && t in run.states[m].pc && !run.states[m].pc[t].Idle?
    ensures t in run.states[m + 1].pc
    ensures run.threads[m] != t || !run.actions[m].Continue? ==> run.states[m + 1].pc[t] == run.states[m].pc[t]
    ensures run.actions[m].Continue? ==>
              && run.threads[m] in run.states[m].pc
              && run.states[m + 1].cache == CacheAfter(run.states[m].cache, run.states[m].pc[run.threads[m]], env)
              && run.states[m + 1].file
                 == FileAfter(run.states[m].file, run.states[m].pc[run.threads[m]], run.actions[m].choice)
    ensures !run.actions[m].Continue? ==> run.states[m + 1].cache == run.states[m].cache
    ensures run.threads[m] == t && run.actions[m].Continue? ==>
              run.states[m + 1].pc[t]
              == NextPc(run.states[m].pc[t], run.states[m].file, run.states[m].cache, false, run.actions[m].choice, env)
  {
    var s, a := run.states[m], run.actions[m];
    assert Enabled(s, run.threads[m], a, env) && run.states[m + 1] == Next(s, run.threads[m], a, env);
    RunKeepsInv(run, env, m);
    if a.Continue? { FlagIsDownAtCheck(s, run.threads[m], a.choice, env); }
    hide NextPc, CacheAfter, FileAfter, HoldsLock, HoldsFlag, IsMigrated, ConfigInv, LockInv;
  }

  lemma CallStarts(run: Run, env: Env, i: nat, t: Tid, call: Call)
    requires IsRun(run, env) && InCall(run, i, i + 1, t, call)
    ensures run.states[i + 1].pc[t] == if call.Save? then SaveTear(call.config) else CheckExists
  {
    assert Enabled(run.states[i], t, run.actions[i], env);
    assert run.states[i + 1] == Next(run.states[i], t, run.actions[i], env);
    hide NextPc, CacheAfter, FileAfter, HoldsLock, HoldsFlag, IsMigrated;
  }

  /** Where a load stands that has read `c` while no other thread rebinds the cache. */
  predicate OnItsWay(p: Pc, cache: Config, c: Config, env: Env) {
    if p.CheckFlag? || p.Migrating? then p.local == c
    else if p.StampSaved? || p.ReadSaved? || p.StampPublished? || p.ReadPublished? then cache == Migrated(c, env)
    else if p.DropFlagThenRaise? || p.ReleaseThenRaise? then true
    else !p.SaveTear? && !p.SaveWrite? && !p.SaveBind? && Carried(p) == Some(Migrated(c, env))
  }

  lemma StaysOnItsWay(p: Pc, file: File, cache: Config, choice: Choice, env: Env, c: Config)
    requires OnItsWay(p, cache, c, env)
    ensures var q := NextPc(p, file, cache, false, choice, env);
            q.Idle? || OnItsWay(q, CacheAfter(cache, p, env), c, env)
  {
    FixedPoints(c, env);
    hide Migrated, IsMigrated, DefaultConfig;
    if HoldsFlag(p) {
      StaysInMigration(p, cache, choice, env, c);
      hide NextInMigration, NextUnderLock, NextWithoutLock, OnItsWay;
    } else {
      hide NextInMigration;
    }
  }

  lemma StaysInMigration(p: Pc, cache: Config, choice: Choice, env: Env, c: Config)
    requires HoldsFlag(p) && OnItsWay(p, cache, c, env) && (IsMigrated(c, env) ==> Migrated(c, env) == c)
    ensures OnItsWay(NextInMigration(p, cache, choice, env), CacheAfter(cache, p, env), c, env)
  {
    hide Migrated, IsMigrated, DefaultConfig;
  }

  lemma ReadTakesTheFile(cache: Config, choice: Choice, env: Env, c: Config)
    ensures NextPc(ReadFile, Readable(c), cache, false, choice, env) == CheckFlag(c)
    ensures OnItsWay(CheckFlag(c), cache, c, env)
    ensures CacheAfter(cache, ReadFile, env) == cache
  {
    hide Migrated, IsMigrated, DefaultConfig;
  }

  lemma ElsewhereIsTheSame(p: Pc, cache: Config, cache': Config, c: Config, env: Env)
    requires OnItsWay(p, cache, c, env) && cache == cache'
    ensures OnItsWay(p, cache', c, env)
  {
  }

  lemma {:induction false} LoadKeepsItsFile(run: Run, env: Env, i: nat, read: nat, m: nat, t: Tid, c: Config)
    requires IsRun(run, env) && i < read < m && InCall(run, i, m, t, Load)
    requires run.threads[read] == t && run.actions[read].Continue? && run.states[read].pc[t].ReadFile?
    requires run.states[read].file == Readable(c)
    requires forall k :: read < k < m && run.threads[k] != t ==> run.states[k + 1].cache == run.states[k].cache
    ensures OnItsWay(run.states[m].pc[t], run.states[m].cache, c, env)
    decreases m
  {
    hide NextPc, CacheAfter, FileAfter, OnItsWay, Enabled, Next, Init;
    var s := run.states[m - 1];
    assert t in s.pc && !s.pc[t].Idle?;
    OwnStep(run, env, m - 1, t);
    assert t in run.states[m].pc && !run.states[m].pc[t].Idle?;
    if m == read + 1 {
      ReadTakesTheFile(s.cache, run.actions[read].choice, env, c);
    } else {
      LoadKeepsItsFile(run, env, i, read, m - 1, t, c);
      hide IsRun;
      if run.threads[m - 1] == t && run.actions[m - 1].Continue? {
        StaysOnItsWay(s.pc[t], s.file, s.cache, run.actions[m - 1].choice, env, c);
      } else {
        ElsewhereIsTheSame(s.pc[t], s.cache, run.states[m].cache, c, env);
      }
    }
  }

  /** A load that reads the file and is not overtaken by another publication returns that file, migrated. */
  lemma LoadReturnsItsFile(run: Run, env: Env, i: nat, read: nat, j: nat, t: Tid, c: Config)
    requires IsRun(run, env) && i < read < j && InCall(run, i, j, t, Load)
    requires run.threads[read] == t && run.actions[read].Continue? && run.states[read].pc[t].ReadFile?
    requires run.states[read].file == Readable(c)
    requires forall k :: read < k < j && run.threads[k] != t ==> run.states[k + 1].cache == run.states[k].cache
    requires run.states[j].pc[t].Returned?
    ensures run.states[j].pc[t].result == Migrated(c, env)
  {
    LoadKeepsItsFile(run, env, i, read, j, t, c);
    hide IsRun, Migrated;
  }

  /** A load has read the file, found itself up to date, or found no file. */
  predicate Settles(p: Pc, file: File, a: Action) {
    p.ReadFile? || ((p.FreshnessCheck? || p.Recheck?) && a == Continue(Fine)) || (p.CheckExists? && file.Absent?)
  }

  predicate SettledBy(run: Run, i: nat, m: nat, t: Tid) {
    exists k :: i < k < m && k < |run.threads| && k < |run.actions| && k < |run.states| && run.threads[k] == t
             && t in run.states[k].pc && Settles(run.states[k].pc[t], run.states[k].file, run.actions[k])
  }

  predicate Undecided(p: Pc) {
    p.CheckExists? || p.StatFile? || p.FreshnessCheck? || p.WantLock? || p.Recheck? || p.ReadFile?
  }

  lemma StaysUndecided(p: Pc, file: File, cache: Config, choice: Choice, env: Env)
    requires Undecided(p)
    ensures var q := NextPc(p, file, cache, false, choice, env);
            q.Idle? || Undecided(q) || Settles(p, file, Continue(choice))
  {
    hide NextInMigration;
  }

  lemma {:induction false} LoadProgress(run: Run, env: Env, i: nat, m: nat, t: Tid)
    requires IsRun(run, env) && InCall(run, i, m, t, Load)
    ensures Undecided(run.states[m].pc[t]) || SettledBy(run, i, m, t)
    decreases m
  {
    hide NextPc, CacheAfter, FileAfter, Settles, Enabled, Next, Init;
    if m == i + 1 {
      CallStarts(run, env, i, t, Load);
    } else {
      LoadProgress(run, env, i, m - 1, t);
      var s := run.states[m - 1];
      assert t in s.pc && !s.pc[t].Idle?;
      OwnStep(run, env, m - 1, t);
      assert |run.states| == |run.threads| + 1 == |run.actions| + 1;
      hide IsRun, Undecided;
      if run.threads[m - 1] == t && run.actions[m - 1].Continue? && Undecided(s.pc[t]) {
        StaysUndecided(s.pc[t], s.file, s.cache, run.actions[m - 1].choice, env);
      }
    }
  }

  /** A load that finds itself out of date reads the file before it returns. */
  lemma StaleLoadReadsTheFile(run: Run, env: Env, i: nat, j: nat, t: Tid)
    requires IsRun(run, env) && InCall(run, i, j, t, Load) && run.states[j].pc[t].Returned?
    ensures SettledBy(run, i, j, t)
  {
    LoadProgress(run, env, i, j, t);
  }

  /** In a load, and not about to bind the built-in configuration. */
  predicate PlainLoad(p: Pc) {
    !p.SeedDefault? && !p.SaveTear? && !p.SaveWrite? && !p.SaveBind? && !p.SaveStamp? && !p.Idle?
  }

  lemma SeedsOnlyAnEmptyCache(p: Pc, file: File, cache: Config, choice: Choice, env: Env)
    requires PlainLoad(p) && cache != map[]
    ensures var q := NextPc(p, file, cache, false, choice, env); q.Idle? || PlainLoad(q)
  {
    hide Migrated, IsMigrated;
    if HoldsFlag(p) {
      hide NextUnderLock, NextWithoutLock;
    } else if HoldsLock(p) {
      hide NextInMigration, NextWithoutLock;
    } else {
      hide NextInMigration, NextUnderLock;
    }
  }

  lemma PlainLoadRebinds(p: Pc, cache: Config, env: Env)
    requires PlainLoad(p)
    ensures CacheAfter(cache, p, env) != cache ==> (p.BindSaved? || p.Publish?) && HoldsLock(p)
  {
    hide DefaultConfig;
  }

  lemma {:induction false} LoadNeverSeeds(run: Run, env: Env, i: nat, m: nat, t: Tid)
    requires IsRun(run, env) && InCall(run, i, m, t, Load)
    requires forall k :: i < k <= m ==> run.states[k].cache != map[]
    ensures PlainLoad(run.states[m].pc[t])
    decreases m
  {
    hide NextPc, CacheAfter, FileAfter, Enabled, Next, Init;
    if m == i + 1 {
      CallStarts(run, env, i, t, Load);
    } else {
      LoadNeverSeeds(run, env, i, m - 1, t);
      var s := run.states[m - 1];
      OwnStep(run, env, m - 1, t);
      assert s.cache != map[] && !run.states[m].pc[t].Idle?;
      hide IsRun;
      if run.threads[m - 1] == t && run.actions[m - 1].Continue? {
        SeedsOnlyAnEmptyCache(s.pc[t], s.file, s.cache, run.actions[m - 1].choice, env);
      }
    }
  }

  /**
   * A missing file does not cost a published configuration: while there is one,
   * a load rebinds the cache only to publish what it has read, under the lock.
   */
  lemma MissingFileKeepsTheCache(run: Run, env: Env, i: nat, k: nat, t: Tid)
    requires IsRun(run, env) && InCall(run, i, k, t, Load) && k < |run.threads| && run.threads[k] == t
    requires forall m :: i < m <= k ==> run.states[m].cache != map[]
    requires run.states[k + 1].cache != run.states[k].cache
    ensures run.states[k].pc[t].BindSaved? || run.states[k].pc[t].Publish?
    ensures run.states[k].lock == Some(t)
  {
    LoadNeverSeeds(run, env, i, k, t);
    assert t in run.states[k].pc;
    OwnStep(run, env, k, t);
    RunKeepsInv(run, env, k);
    var s := run.states[k];
    assert run.actions[k].Continue?;
    PlainLoadRebinds(s.pc[t], s.cache, env);
    hide IsRun, NextPc, CacheAfter, FileAfter;
  }

  /** Where a save stands: what it writes, what it has written and what it has published. */
  ghost predicate Saving(run: Run, i: nat, m: nat, p: Pc, c: Config) {
    || p == SaveTear(c) || p == SaveWrite(c)
    || (p == SaveBind(c) && Written(run, i, m, c))
    || (p == SaveStamp && Written(run, i, m, c) && PublishedBy(run, i, m, c))
  }

  ghost predicate Written(run: Run, i: nat, m: nat, c: Config) {
    exists k :: i < k <= m && k < |run.states| && run.states[k].file == Readable(c)
  }

  ghost predicate PublishedBy(run: Run, i: nat, m: nat, c: Config) {
    exists k :: i < k <= m && k < |run.states| && run.states[k].cache == c
  }

  lemma SaveGoesOn(p: Pc, file: File, cache: Config, choice: Choice, env: Env, c: Config)
    requires p == SaveTear(c) || p == SaveWrite(c) || p == SaveBind(c) || p == SaveStamp
    ensures var q := NextPc(p, file, cache, false, choice, env);
            || q == Idle
            || (p == SaveTear(c) && q == SaveWrite(c))
            || (p == SaveWrite(c) && q == SaveBind(c) && FileAfter(file, p, choice) == Readable(c))
            || (p == SaveBind(c) && q == SaveStamp && CacheAfter(cache, p, env) == c)
  {
    hide DefaultConfig, NextInMigration, NextUnderLock;
  }

  lemma SavingStays(run: Run, i: nat, m: nat, p: Pc, c: Config)
    requires Saving(run, i, m, p, c)
    ensures Saving(run, i, m + 1, p, c)
    ensures p == SaveTear(c) || p == SaveWrite(c) || p == SaveBind(c) || p == SaveStamp
    ensures p == SaveBind(c) ==> Written(run, i, m + 1, c)
  {
  }

  lemma {:induction false} SaveProgress(run: Run, env: Env, i: nat, m: nat, t: Tid, c: Config)
    requires IsRun(run, env) && InCall(run, i, m, t, Save(c))
    ensures Saving(run, i, m, run.states[m].pc[t], c)
    decreases m
  {
    hide NextPc, CacheAfter, FileAfter, Enabled, Next, Init;
    if m == i + 1 {
      CallStarts(run, env, i, t, Save(c));
    } else {
      SaveProgress(run, env, i, m - 1, t, c);
      var s := run.states[m - 1];
      SavingStays(run, i, m - 1, s.pc[t], c);
      assert t in s.pc && !s.pc[t].Idle?;
      OwnStep(run, env, m - 1, t);
      assert t in run.states[m].pc && !run.states[m].pc[t].Idle?;
      hide IsRun;
      if run.threads[m - 1] == t && run.actions[m - 1].Continue? {
        SaveGoesOn(s.pc[t], s.file, s.cache, run.actions[m - 1].choice, env, c);
        if s.pc[t] == SaveWrite(c) { assert run.states[m].file == Readable(c) && Written(run, i, m, c); }
        if s.pc[t] == SaveBind(c) { assert run.states[m].cache == c && PublishedBy(run, i, m, c); }
      }
    }
  }

  /** A save that gets as far as its last step has put its configuration in the file and before the readers. */
  lemma SaveIsPublished(run: Run, env: Env, i: nat, j: nat, t: Tid, c: Config)
    requires IsRun(run, env) && InCall(run, i, j, t, Save(c)) && run.states[j].pc[t] == SaveStamp
    ensures Written(run, i, j, c) && PublishedBy(run, i, j, c)
  {
    SaveProgress(run, env, i, j, t, c);
  }

  /** The world fails a load: the file is gone, unreadable, or cannot be written though it is not read-only. */
  predicate LoadFails(p: Pc, file: File, a: Action) {
    || (p.StatFile? && file.Absent?)
    || (p.ReadFile? && !file.Readable?)
    || (p.TearFile? && a != Continue(Fine) && a != Continue(ReadOnly))
    || ((p.WriteFile? || p.StampSaved?) && a != Continue(Fine))
  }

  /** In the middle of a load, which has not failed. */
  predicate LoadGoing(p: Pc) {
    !p.Idle? && !p.Returned? && !p.DropFlagThenRaise? && !p.ReleaseThenRaise?
    && !p.SaveTear? && !p.SaveWrite? && !p.SaveBind? && !p.SaveStamp?
  }

  lemma LoadGoesOn(p: Pc, file: File, cache: Config, choice: Choice, env: Env)
    requires LoadGoing(p)
    ensures var q := NextPc(p, file, cache, false, choice, env);
            LoadGoing(q) || q.Returned? || LoadFails(p, file, Continue(choice))
  {
    hide Migrated, IsMigrated;
    if HoldsFlag(p) {
      hide NextUnderLock, NextWithoutLock;
    } else if HoldsLock(p) {
      hide NextInMigration, NextWithoutLock;
    } else {
      hide NextInMigration, NextUnderLock;
    }
  }

  /** Since step `i`, thread `t` has returned a configuration or been failed by the world. */
  ghost predicate LoadSettled(run: Run, i: nat, m: nat, t: Tid) {
    exists k :: i < k <= m && k < |run.states| && t in run.states[k].pc
             && (run.states[k].pc[t].Returned?
                 || (k < m && k < |run.threads| && k < |run.actions| && run.threads[k] == t
                     && LoadFails(run.states[k].pc[t], run.states[k].file, run.actions[k])))
  }

  lemma {:induction false} LoadKeepsGoing(run: Run, env: Env, i: nat, m: nat, t: Tid)
    requires IsRun(run, env) && InCall(run, i, m, t, Load)
    ensures LoadGoing(run.states[m].pc[t]) || LoadSettled(run, i, m, t)
    decreases m
  {
    hide NextPc, CacheAfter, FileAfter, LoadFails, Enabled, Next, Init;
    if m == i + 1 {
      CallStarts(run, env, i, t, Load);
    } else {
      LoadKeepsGoing(run, env, i, m - 1, t);
      assert t in run.states[m - 1].pc && !run.states[m - 1].pc[t].Idle?;
      LoadStep(run, env, i, m - 1, t);
    }
  }

  lemma LoadStep(run: Run, env: Env, i: nat, m: nat, t: Tid)
    requires IsRun(run, env) && i < m < |run.threads| && t in run.states[m].pc && !run.states[m].pc[t].Idle?
    requires LoadGoing(run.states[m].pc[t]) || LoadSettled(run, i, m, t)
    ensures t in run.states[m + 1].pc
    ensures LoadGoing(run.states[m + 1].pc[t]) || LoadSettled(run, i, m + 1, t)
  {
    hide NextPc, CacheAfter, FileAfter, LoadFails, LoadGoing, Enabled, Next, Init;
    var s := run.states[m];
    OwnStep(run, env, m, t);
    assert |run.states| == |run.threads| + 1 == |run.actions| + 1;
    hide IsRun;
    if LoadGoing(s.pc[t]) && run.threads[m] == t && run.actions[m].Continue? {
      LoadGoesOn(s.pc[t], s.file, s.cache, run.actions[m].choice, env);
    }
  }

  /** A load that is over has returned a configuration, unless the world failed it. */
  lemma LoadReturnsUnlessFailed(run: Run, env: Env, i: nat, j: nat, t: Tid)
    requires IsRun(run, env) && InCall(run, i, j, t, Load) && j < |run.threads|
    requires t in run.states[j + 1].pc && run.states[j + 1].pc[t].Idle?
    ensures LoadSettled(run, i, j + 1, t)
  {
    LoadKeepsGoing(run, env, i, j, t);
    assert t in run.states[j].pc && !run.states[j].pc[t].Idle?;
    LoadStep(run, env, i, j, t);
  }
}
