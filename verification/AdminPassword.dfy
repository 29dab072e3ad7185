/**
 * Who governs the built-in admin's password: the environment, the web
 * interface or the reset command.
 *
 * A hash is its plaintext and a salt; it verifies exactly the plaintext it was
 * made from.
 */
module AdminPassword {
  import opened Wrappers

  const DEFAULT_ADMIN_PASSWORD: string := "change_me_pls"

  datatype Hash = Hash(plaintext: string, salt: nat)

  predicate VerifyPassword(password: string, hash: Hash) { hash.plaintext == password }

  /** `password_set_via` */
  datatype Source = Env | Ui | Cli | Unknown

  datatype Row = Row(hash: Hash, mustChange: bool, setVia: Source)

  /** ADMIN_PASSWORD and whether ADMIN_PASSWORD_FORCE is on. */
  datatype Environment = Environment(adminPassword: Option<string>, force: bool)

  function EnvPassword(e: Environment): string {
    if e.adminPassword.Some? then e.adminPassword.value else DEFAULT_ADMIN_PASSWORD
  }

  /** The environment names a password of its own: not unset, and not the built-in default. */
  predicate Informed(e: Environment) { e.adminPassword.Some? && e.adminPassword.value != "change_me_pls" }

  predicate Forced(e: Environment) { e.force && Informed(e) }

  /** `_classify_legacy_admin` */
  function ClassifyLegacyAdmin(hash: Hash, envPassword: string): (Source, bool) {
    if VerifyPassword(DEFAULT_ADMIN_PASSWORD, hash) then (Env, false)
    else if envPassword == DEFAULT_ADMIN_PASSWORD then (Unknown, false)
    else if VerifyPassword(envPassword, hash) then (Env, true)
    else (Ui, false)
  }

  // ------------------------------------------------- what a startup does to the row

  /** Whose password it is once a startup has looked at it. */
  function SourceAfter(row: Row, e: Environment): Source {
    if Forced(e) then Env
    else if row.setVia != Unknown then row.setVia
    else if row.hash.plaintext == DEFAULT_ADMIN_PASSWORD then Env
    else if Informed(e) && row.hash.plaintext == e.adminPassword.value then Env
    else if Informed(e) then Ui
    else Unknown
  }

  /** The environment decides, and decides for another password. */
  predicate Rewrites(row: Row, e: Environment) {
    Informed(e) && SourceAfter(row, e) == Env && row.hash.plaintext != e.adminPassword.value
  }

  function Synced(row: Row, e: Environment, salt: nat): Row {
    if Rewrites(row, e) then Row(Hash(e.adminPassword.value, salt), false, Env)
    else row.(setVia := SourceAfter(row, e))
  }

  /** The hash and its source after an edit: only a changed hash moves the source. */
  function Edited(row: Row, newHash: Option<Hash>, stamp: Option<Source>, mustChange: Option<bool>): Row {
    Row(if newHash.Some? then newHash.value else row.hash,
        if mustChange.Some? then mustChange.value else row.mustChange,
        if newHash.None? || newHash.value == row.hash then row.setVia
        else if stamp.Some? then stamp.value else Ui)
  }

  /** The row a first boot seeds: stamped "env" even when the environment names no password. */
  function Seeded(e: Environment, salt: nat): Row {
    Row(Hash(if e.adminPassword.Some? then e.adminPassword.value else "change_me_pls", salt), false, Env)
  }

  class AdminAccount {
    var row: Option<Row>

    constructor ()
      ensures row.None?
    {
      row := None;
    }

    /** `_seed_default_admin_if_empty`, on an empty users table. */
    method Seed(e: Environment, salt: nat)
      requires row.None?
      modifies this
      ensures row == Some(Seeded(e, salt))
    {
      var adminPassword := if e.adminPassword.Some? then e.adminPassword.value else DEFAULT_ADMIN_PASSWORD;
      row := Some(Row(Hash(adminPassword, salt), false, Env));
    }

    /** `sync_admin_password_from_env` */
    method SyncFromEnv(e: Environment, salt: nat) returns (rewritten: bool)
      modifies this
      ensures row == if old(row).None? then None else Some(Synced(old(row).value, e, salt))
      ensures rewritten <==> old(row).Some? && Rewrites(old(row).value, e)
    {
      var envPassword := EnvPassword(e);
      var force := e.force;
      if force && envPassword == DEFAULT_ADMIN_PASSWORD { force := false; }
      if row.None? { return false; }
      var admin := row.value;
      if force {
        if VerifyPassword(envPassword, admin.hash) {
          row := Some(admin.(setVia := Env));
          return false;
        }
        row := Some(Row(Hash(envPassword, salt), false, Env));
        return true;
      }
      var alreadySynced := false;
      if admin.setVia == Unknown {
        var (classified, hashMatchesEnv) := ClassifyLegacyAdmin(admin.hash, envPassword);
        if classified == Env {
          admin := admin.(setVia := Env);
          alreadySynced := hashMatchesEnv;
        } else if classified == Ui {
          admin := admin.(setVia := Ui);
        }
        row := Some(admin);
      }
      if admin.setVia != Env { return false; }
      if envPassword == DEFAULT_ADMIN_PASSWORD { return false; }
      if alreadySynced || VerifyPassword(envPassword, admin.hash) { return false; }
      admin := admin.(hash := Hash(envPassword, salt), mustChange := false);
      row := Some(admin);
      rewritten := true;
    }

    /** `reset_admin_password` */
    method ResetAdminPassword(newHash: Hash) returns (created: bool)
      modifies this
      ensures row == Some(Row(newHash, false, Cli))
      ensures created <==> old(row).None?
    {
      if row.None? {
        row := Some(Row(newHash, false, Cli));
        return true;
      }
      var admin := row.value;
      admin := admin.(hash := newHash);
      admin := admin.(mustChange := false);
      admin := admin.(setVia := Cli);
      row := Some(admin);
      created := false;
    }

    /** `update_user` on the admin: the fields that bear on the password. */
    method UpdateUser(newHash: Option<Hash>, stamp: Option<Source>, mustChange: Option<bool>) returns (found: bool)
      modifies this
      ensures found <==> old(row).Some?
      ensures row == if old(row).None? then None else Some(Edited(old(row).value, newHash, stamp, mustChange))
    {
      if row.None? { return false; }
      var user := row.value;
      if newHash.Some? {
        if newHash.value != user.hash {
          user := user.(setVia := if stamp.Some? then stamp.value else Ui);
        }
        user := user.(hash := newHash.value);
      }
      if mustChange.Some? { user := user.(mustChange := mustChange.value); }
      row := Some(user);
      found := true;
    }
  }

  // ------------------------------------------------- whole histories

  datatype Event =
    | Startup(env: Environment, salt: nat)
    | CliReset(hash: Hash)
    | Edit(newHash: Option<Hash>, stamp: Option<Source>, mustChange: Option<bool>)

  function Apply(row: Row, ev: Event): Row {
    match ev
    case Startup(e, salt) => Synced(row, e, salt)
    case CliReset(hash) => Row(hash, false, Cli)
    case Edit(newHash, stamp, mustChange) => Edited(row, newHash, stamp, mustChange)
  }

  function Run(row: Row, events: seq<Event>): Row
    decreases events
  {
    if events == [] then row else Run(Apply(row, events[0]), events[1..])
  }

  /** An event in which no one sets a password: a startup, or an edit that leaves the hash as it was. */
  predicate HandsOff(ev: Event, hash: Hash) {
    ev.Startup? || (ev.Edit? && (ev.newHash.None? || ev.newHash.value == hash))
  }

  predicate HumanSet(row: Row) { row.setVia in {Ui, Cli} }

  /** A person sets the password `hash`: a reset, or an edit that changes the hash and is stamped as a person's. */
  predicate HumanWrites(row: Row, ev: Event, hash: Hash) {
    match ev
    case Startup(_, _) => false
    case CliReset(h) => h == hash
    case Edit(newHash, stamp, _) =>
      newHash == Some(hash) && hash != row.hash && (stamp.None? || stamp.value in {Ui, Cli})
  }

  lemma {:induction false} RunConcat(row: Row, a: seq<Event>, b: seq<Event>)
    ensures Run(row, a + b) == Run(Run(row, a), b)
    decreases a
  {
    hide Apply;
    if a == [] {
      assert a + b == b;
    } else {
      RunConcat(Apply(row, a[0]), a[1..], b);
      assert (a + b)[0] == a[0] && (a + b)[1..] == a[1..] + b;
    }
  }

  /**
   * Whatever happened before, a password a person has set is in force from then
   * on, through every startup without force and every edit that leaves the hash
   * as it is: until someone sets another.
   */
  lemma HumanWriteLasts(row: Row, before: seq<Event>, ev: Event, after: seq<Event>, hash: Hash)
    requires HumanWrites(Run(row, before), ev, hash)
    requires forall x :: x in after ==> HandsOff(x, hash) && (x.Startup? ==> !Forced(x.env))
    ensures Run(row, before + [ev] + after).hash == hash
    ensures HumanSet(Run(row, before + [ev] + after))
  {
    var written := Apply(Run(row, before), ev);
    assert written.hash == hash && HumanSet(written);
    HumanPasswordSurvives(written, after);
    RunConcat(row, before + [ev], after);
    RunConcat(row, before, [ev]);
    assert Run(written, [ev][1..]) == written;
  }

  /** Exactly when a startup leaves a human's password alone. */
  lemma StartupLeavesHumanPassword(row: Row, e: Environment, salt: nat)
    requires HumanSet(row)
    ensures Synced(row, e, salt) == row <==> !Forced(e)
    ensures Synced(row, e, salt).hash == row.hash <==>
              !Forced(e) || e.adminPassword.value == row.hash.plaintext
  {
  }

  /** Without force, a human's password survives every startup and every edit that does not change it. */
  lemma {:induction false} HumanPasswordSurvives(row: Row, events: seq<Event>)
    requires HumanSet(row)
    requires forall ev :: ev in events ==> HandsOff(ev, row.hash) && (ev.Startup? ==> !Forced(ev.env))
    ensures Run(row, events).hash == row.hash && Run(row, events).setVia == row.setVia
    decreases events
  {
    if events != [] {
      assert events[0] in events;
      assert forall ev :: ev in events[1..] ==> ev in events;
      HumanPasswordSurvives(Apply(row, events[0]), events[1..]);
    }
  }

  /** No startup, forced or not, brings the built-in default in. */
  lemma {:induction false} NoStartupInstallsTheDefault(row: Row, events: seq<Event>)
    requires forall ev :: ev in events ==> ev.Startup?
    ensures Run(row, events).hash == row.hash || Run(row, events).hash.plaintext != "change_me_pls"
    decreases events
  {
    if events != [] {
      assert events[0] in events;
      assert forall ev :: ev in events[1..] ==> ev in events;
      NoStartupInstallsTheDefault(Apply(row, events[0]), events[1..]);
    }
  }

  /** Starting again in the same environment changes nothing, whatever salts are drawn. */
  lemma RestartIsIdle(row: Row, e: Environment, salt: nat, again: nat)
    ensures Synced(Synced(row, e, salt), e, again) == Synced(row, e, salt)
    ensures !Rewrites(Synced(row, e, salt), e)
  {
  }

  // ------------------------------------------------- what the environment governs

  predicate Calm(events: seq<Event>) {
    forall ev :: ev in events ==> ev.Startup? && !Forced(ev.env)
  }

  /** The first and the last password the startups name. */
  function FirstNamed(events: seq<Event>): Option<string> {
    if events == [] then None
    else if events[0].Startup? && Informed(events[0].env) then events[0].env.adminPassword
    else FirstNamed(events[1..])
  }

  function LastNamed(events: seq<Event>): Option<string> {
    if events == [] then None else
      var later := LastNamed(events[1..]);
      if later.Some? then later
      else if events[0].Startup? && Informed(events[0].env) then events[0].env.adminPassword
      else None
  }

  /** An environment-governed password is always the last one the environment named. */
  lemma {:induction false} EnvironmentGoverns(row: Row, events: seq<Event>)
    requires row.setVia == Env && forall ev :: ev in events ==> ev.Startup?
    ensures Run(row, events).setVia == Env
    ensures Run(row, events).hash.plaintext
         == if LastNamed(events).Some? then LastNamed(events).value else row.hash.plaintext
    decreases events
  {
    if events != [] {
      assert events[0] in events;
      assert forall ev :: ev in events[1..] ==> ev in events;
      EnvironmentGoverns(Apply(row, events[0]), events[1..]);
    }
  }

  /** From the first boot on: the last password any boot named, or the built-in default if none ever did. */
  lemma SeededPasswordFollowsTheEnvironment(e: Environment, salt: nat, events: seq<Event>)
    requires forall ev :: ev in events ==> ev.Startup?
    ensures Run(Seeded(e, salt), events).setVia == Env
    ensures var named := LastNamed([Startup(e, salt)] + events);
            Run(Seeded(e, salt), events).hash.plaintext == if named.Some? then named.value else DEFAULT_ADMIN_PASSWORD
  {
    EnvironmentGoverns(Seeded(e, salt), events);
    assert ([Startup(e, salt)] + events)[1..] == events;
  }

  /**
   * A legacy password that is not the built-in default: the first startup that
   * names a password decides for good.  If it names this one, the environment
   * governs from then on; otherwise the password is never overwritten.
   */
  lemma {:induction false} FirstNamedPasswordDecides(row: Row, events: seq<Event>)
    requires row.setVia == Unknown && row.hash.plaintext != DEFAULT_ADMIN_PASSWORD && Calm(events)
    ensures FirstNamed(events) == Some(row.hash.plaintext) ==>
              && Run(row, events).setVia == Env
              && LastNamed(events).Some? && Run(row, events).hash.plaintext == LastNamed(events).value
    ensures FirstNamed(events) != Some(row.hash.plaintext) ==> Run(row, events).hash == row.hash
    ensures FirstNamed(events).None? ==> Run(row, events) == row
    decreases events
  {
    if events != [] {
      assert events[0] in events;
      assert forall ev :: ev in events[1..] ==> ev in events;
      var next := Apply(row, events[0]);
      if next.setVia == Unknown {
        FirstNamedPasswordDecides(next, events[1..]);
      } else if next.setVia == Env {
        EnvironmentGoverns(next, events[1..]);
      } else {
        HumanPasswordSurvives(next, events[1..]);
      }
    }
  }

  /** A legacy password still on the built-in default passes to the environment, which may replace it. */
  lemma LegacyDefaultIsGoverned(row: Row, events: seq<Event>)
    requires row.setVia == Unknown && row.hash.plaintext == DEFAULT_ADMIN_PASSWORD && Calm(events) && events != []
    ensures Run(row, events).setVia == Env
    ensures LastNamed(events).Some? ==> Run(row, events).hash.plaintext == LastNamed(events).value
  {
    assert events[0] in events;
    assert forall ev :: ev in events[1..] ==> ev in events;
    EnvironmentGoverns(Apply(row, events[0]), events[1..]);
  }
}
