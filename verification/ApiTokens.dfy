/**
 * The API token ledger.
 *
 * A token's id is its position; rows are never deleted.  Sessions interleave:
 * every SELECT and every UPDATE or INSERT is a step of its own, and a session
 * may be given up between the two.  The partial unique index over a user's
 * active names and the CHECK on max_read_bytes are guards of the writing step.
 */
module ApiTokens {
  import opened Wrappers

  const PER_USER_TOKEN_LIMIT: nat := 10
  const MAX_READ_BYTES_CEILING: int := 10485760

  datatype Token = Token(owner: nat, name: string, readOnly: bool, maxReadBytes: int,
                         lastUsed: Option<int>, revokedAt: Option<int>)

  /** The fields an update sets. */
  datatype Change = Change(name: Option<string>, readOnly: Option<bool>, maxReadBytes: Option<int>)

  /** Who asks. */
  datatype Actor = Actor(user: nat, isAdmin: bool)

  datatype Refusal = LimitReached | NotFound | Forbidden | Revoked | NothingToUpdate | OutOfRange | Integrity

  // ------------------------------------------------- rows

  function Count<T>(s: seq<T>, p: T -> bool): (n: nat)
    ensures n <= |s|
  {
    if s == [] then 0 else Count(s[1..], p) + if p(s[0]) then 1 else 0
  }

  predicate InRange(maxReadBytes: int) { 0 < maxReadBytes <= MAX_READ_BYTES_CEILING }

  predicate ActiveOf(t: Token, user: nat) { t.owner == user && t.revokedAt.None? }

  function IsActiveOf(user: nat): Token -> bool { (t: Token) => ActiveOf(t, user) }

  /** The active tokens of a user. */
  function Active(rows: seq<Token>, user: nat): nat { Count(rows, IsActiveOf(user)) }

  /** Another active token of the same user holds the name. */
  predicate NameTaken(rows: seq<Token>, user: nat, name: string, except: int) {
    exists i :: 0 <= i < |rows| && i != except && ActiveOf(rows[i], user) && rows[i].name == name
  }

  /** What the table's constraints say to a row written at `id`. */
  predicate Accepts(rows: seq<Token>, row: Token, id: int) {
    InRange(row.maxReadBytes) && (row.revokedAt.None? ==> !NameTaken(rows, row.owner, row.name, id))
  }

  predicate Allowed(actor: Actor, t: Token) { actor.isAdmin || t.owner == actor.user }

  predicate Throttled(t: Token, now: int, throttleSeconds: nat) {
    t.lastUsed.Some? && t.lastUsed.value >= now - throttleSeconds
  }

  function Changed(t: Token, c: Change): Token {
    t.(name := if c.name.Some? then c.name.value else t.name,
       readOnly := if c.readOnly.Some? then c.readOnly.value else t.readOnly,
       maxReadBytes := if c.maxReadBytes.Some? then c.maxReadBytes.value else t.maxReadBytes)
  }

  /** The checks `update_token` makes before it writes. */
  function UpdateRefusal(rows: seq<Token>, id: nat, actor: Actor, c: Change): Option<Refusal> {
    if c == Change(None, None, None) then Some(NothingToUpdate)
    else if c.maxReadBytes.Some? && !InRange(c.maxReadBytes.value) then Some(OutOfRange)
    else if id >= |rows| then Some(NotFound)
    else if !Allowed(actor, rows[id]) then Some(Forbidden)
    else if rows[id].revokedAt.Some? then Some(Revoked)
    else None
  }

  predicate BothActive(a: Token, b: Token) {
    a.owner == b.owner && a.revokedAt.None? && b.revokedAt.None?
  }

  /** No two active tokens of a user share a name, and every row keeps the read range. */
  ghost predicate LedgerValid(rows: seq<Token>) {
    && (forall i, j :: 0 <= i < j < |rows| && BothActive(rows[i], rows[j]) ==> rows[i].name != rows[j].name)
    && forall i :: 0 <= i < |rows| ==> InRange(rows[i].maxReadBytes)
  }

  /** Rows are only added; a row keeps its owner, stays revoked once it is, and moves last-used by jumps. */
  ghost predicate Evolves(before: seq<Token>, after: seq<Token>, throttleSeconds: nat) {
    && |before| <= |after|
    && forall i :: 0 <= i < |before| ==> RowEvolves(before[i], after[i], throttleSeconds)
  }

  predicate RowEvolves(b: Token, a: Token, throttleSeconds: nat) {
    && a.owner == b.owner
    && (b.revokedAt.Some? ==> a.revokedAt.Some?)
    && (b.lastUsed.Some? ==>
          a.lastUsed == b.lastUsed || (a.lastUsed.Some? && a.lastUsed.value - b.lastUsed.value > throttleSeconds))
  }

  /** Another active token of the owner of `id` has the name. */
  ghost predicate HeldByAnother(rows: seq<Token>, id: nat, name: string)
    requires id < |rows|
  {
    exists j :: 0 <= j < |rows| && j != id && rows[j].owner == rows[id].owner && rows[j].revokedAt.None?
             && rows[j].name == name
  }

  lemma HeldIsTaken(rows: seq<Token>, id: nat, name: string)
    requires id < |rows|
    ensures HeldByAnother(rows, id, name) <==> NameTaken(rows, rows[id].owner, name, id)
  {
    if j :| 0 <= j < |rows| && j != id && rows[j].owner == rows[id].owner && rows[j].revokedAt.None?
            && rows[j].name == name {
      assert ActiveOf(rows[j], rows[id].owner);
    }
  }

  lemma TakenByAnother(rows: seq<Token>, user: nat, name: string, except: int)
    requires !(0 <= except < |rows|)
    ensures NameTaken(rows, user, name, except)
       <==> exists t :: t in rows && t.owner == user && t.revokedAt.None? && t.name == name
  {
    if t :| t in rows && t.owner == user && t.revokedAt.None? && t.name == name {
      var i :| 0 <= i < |rows| && rows[i] == t;
      assert ActiveOf(rows[i], user);
    }
  }

  /** Where the user's rows are that are not revoked. */
  ghost function ActivePositions(rows: seq<Token>, user: nat): set<int> {
    set i | 0 <= i < |rows| && rows[i].owner == user && rows[i].revokedAt.None?
  }

  lemma OneMoreRow(rows: seq<Token>, t: Token, user: nat)
    ensures ActivePositions(rows + [t], user)
         == ActivePositions(rows, user) + if t.owner == user && t.revokedAt.None? then {|rows|} else {}
    ensures |rows| !in ActivePositions(rows, user)
  {
  }

  /** What is counted against the limit. */
  lemma {:induction false} ActiveCountsRows(rows: seq<Token>, user: nat)
    ensures Active(rows, user) == |ActivePositions(rows, user)|
  {
    if rows != [] {
      var init, t := rows[..|rows| - 1], rows[|rows| - 1];
      assert rows == init + [t];
      ActiveCountsRows(init, user);
      OneMoreRow(init, t, user);
      hide ActivePositions;
      CountAppend(init, t, IsActiveOf(user));
      hide Count;
    }
  }

  // ------------------------------------------------- one session at a time

  class Ledger {
    var rows: seq<Token>
    const throttleSeconds: nat

    constructor (throttleSeconds: nat)
      ensures rows == [] && this.throttleSeconds == throttleSeconds && LedgerValid(rows)
    {
      this.throttleSeconds := throttleSeconds;
      rows := [];
    }

    /** `create_token` */
    method CreateToken(user: nat, name: string, readOnly: bool, maxReadBytes: int) returns (r: Result<nat, Refusal>)
      requires LedgerValid(rows)
      modifies this
      ensures LedgerValid(rows) && Evolves(old(rows), rows, throttleSeconds)
      ensures r.Ok? ==>
                && r.value == |old(rows)| && Active(old(rows), user) < 10
                && rows == old(rows) + [Token(user, name, readOnly, maxReadBytes, None, None)]
      ensures r.Err? ==> rows == old(rows)
      ensures r == Err(LimitReached) <==> Active(old(rows), user) >= 10
      ensures r == Err(Integrity) <==>
                && Active(old(rows), user) < 10
                && (!(0 < maxReadBytes <= 10_485_760)
                    || exists t :: t in old(rows) && t.owner == user && t.revokedAt.None? && t.name == name)
      ensures r.Err? ==> r.error in {LimitReached, Integrity}
    {
      var active := Active(rows, user);
      if active >= PER_USER_TOKEN_LIMIT { return Err(LimitReached); }
      var row := Token(user, name, readOnly, maxReadBytes, None, None);
      TakenByAnother(rows, user, name, |rows|);
      if !Accepts(rows, row, |rows|) { return Err(Integrity); }
      AppendKeeps(rows, row, throttleSeconds);
      rows := rows + [row];
      r := Ok(|rows| - 1);
    }

    /** `revoke_token` */
    method RevokeToken(id: nat, actor: Actor, now: int) returns (refusal: Option<Refusal>)
      requires LedgerValid(rows)
      modifies this
      ensures LedgerValid(rows) && Evolves(old(rows), rows, throttleSeconds)
      ensures refusal == if id >= |old(rows)| then Some(NotFound)
                         else if !actor.isAdmin && old(rows)[id].owner != actor.user then Some(Forbidden) else None
      ensures refusal.Some? ==> rows == old(rows)
      ensures refusal.None? ==> rows == old(rows)[id := old(rows)[id].(
                revokedAt := if old(rows)[id].revokedAt.Some? then old(rows)[id].revokedAt else Some(now))]
    {
      if id >= |rows| { return Some(NotFound); }
      var token := rows[id];
      if !Allowed(actor, token) { return Some(Forbidden); }
      if token.revokedAt.None? {
        WriteKeeps(rows, id, token.(revokedAt := Some(now)), throttleSeconds);
        rows := rows[id := token.(revokedAt := Some(now))];
      }
      refusal := None;
    }

    /** `update_token` */
    method UpdateToken(id: nat, actor: Actor, c: Change) returns (refusal: Option<Refusal>)
      requires LedgerValid(rows)
      modifies this
      ensures LedgerValid(rows) && Evolves(old(rows), rows, throttleSeconds)
      ensures refusal.Some? ==> rows == old(rows)
      ensures refusal.None? ==> id < |rows| == |old(rows)| && rows == old(rows)[id := rows[id]]
      ensures refusal.None? ==>
                && rows[id].name == (if c.name.Some? then c.name.value else old(rows)[id].name)
                && rows[id].readOnly == (if c.readOnly.Some? then c.readOnly.value else old(rows)[id].readOnly)
                && rows[id].maxReadBytes
                   == (if c.maxReadBytes.Some? then c.maxReadBytes.value else old(rows)[id].maxReadBytes)
                && rows[id].owner == old(rows)[id].owner && rows[id].lastUsed == old(rows)[id].lastUsed
                && rows[id].revokedAt == old(rows)[id].revokedAt
      ensures refusal
           == if c.name.None? && c.readOnly.None? && c.maxReadBytes.None? then Some(NothingToUpdate)
              else if c.maxReadBytes.Some? && !(1 <= c.maxReadBytes.value <= 10_485_760) then Some(OutOfRange)
              else if id >= |old(rows)| then Some(NotFound)
              else if !actor.isAdmin && old(rows)[id].owner != actor.user then Some(Forbidden)
              else if old(rows)[id].revokedAt.Some? then Some(Revoked)
              else if c.name.Some? && HeldByAnother(old(rows), id, c.name.value) then Some(Integrity)
              else None
    {
      if c == Change(None, None, None) { return Some(NothingToUpdate); }
      if c.maxReadBytes.Some? && !InRange(c.maxReadBytes.value) { return Some(OutOfRange); }
      if id >= |rows| { return Some(NotFound); }
      var token := rows[id];
      if !Allowed(actor, token) { return Some(Forbidden); }
      if token.revokedAt.Some? { return Some(Revoked); }
      OwnNameIsFree(rows, id);
      HeldIsTaken(rows, id, Changed(token, c).name);
      if !Accepts(rows, Changed(token, c), id) { return Some(Integrity); }
      WriteKeeps(rows, id, Changed(token, c), throttleSeconds);
      rows := rows[id := Changed(token, c)];
      refusal := None;
    }

    /** `touch_last_used` */
    method TouchLastUsed(id: nat, now: int)
      requires LedgerValid(rows)
      modifies this
      ensures LedgerValid(rows) && Evolves(old(rows), rows, throttleSeconds)
      ensures rows == if id < |old(rows)| && (old(rows)[id].lastUsed.None?
                                               || old(rows)[id].lastUsed.value < now - throttleSeconds)
                      then old(rows)[id := old(rows)[id].(lastUsed := Some(now))] else old(rows)
    {
      if id < |rows| && !Throttled(rows[id], now, throttleSeconds) {
        TouchKeeps(rows, id, now, throttleSeconds);
        rows := rows[id := rows[id].(lastUsed := Some(now))];
      }
    }
  }

  lemma AppendKeeps(rows: seq<Token>, row: Token, throttleSeconds: nat)
    requires LedgerValid(rows) && Accepts(rows, row, |rows|)
    ensures LedgerValid(rows + [row]) && Evolves(rows, rows + [row], throttleSeconds)
  {
    forall i | 0 <= i < |rows| && BothActive(rows[i], row)
      ensures rows[i].name != row.name
    {
      assert ActiveOf(rows[i], row.owner);
    }
  }

  lemma WriteKeeps(rows: seq<Token>, id: nat, row: Token, throttleSeconds: nat)
    requires LedgerValid(rows) && id < |rows| && Accepts(rows, row, id) && RowEvolves(rows[id], row, throttleSeconds)
    ensures LedgerValid(rows[id := row]) && Evolves(rows, rows[id := row], throttleSeconds)
  {
    forall i | 0 <= i < |rows| && i != id && BothActive(rows[i], row)
      ensures rows[i].name != row.name
    {
      assert ActiveOf(rows[i], row.owner);
    }
  }

  lemma OwnNameIsFree(rows: seq<Token>, id: nat)
    requires LedgerValid(rows) && id < |rows| && rows[id].revokedAt.None?
    ensures !NameTaken(rows, rows[id].owner, rows[id].name, id)
  {
  }

  lemma TouchKeeps(rows: seq<Token>, id: nat, now: int, throttleSeconds: nat)
    requires LedgerValid(rows) && id < |rows| && !Throttled(rows[id], now, throttleSeconds)
    ensures LedgerValid(rows[id := rows[id].(lastUsed := Some(now))])
    ensures Evolves(rows, rows[id := rows[id].(lastUsed := Some(now))], throttleSeconds)
  {
    if rows[id].revokedAt.None? { OwnNameIsFree(rows, id); }
    WriteKeeps(rows, id, rows[id].(lastUsed := Some(now)), throttleSeconds);
  }

  lemma {:induction false} EvolvesTransitively(a: seq<Token>, b: seq<Token>, c: seq<Token>, throttleSeconds: nat)
    requires Evolves(a, b, throttleSeconds) && Evolves(b, c, throttleSeconds)
    ensures Evolves(a, c, throttleSeconds)
  {
    forall i | 0 <= i < |a| ensures RowEvolves(a[i], c[i], throttleSeconds) {
      assert RowEvolves(a[i], b[i], throttleSeconds) && RowEvolves(b[i], c[i], throttleSeconds);
    }
  }

  // ------------------------------------------------- interleaved sessions

  /** Where a session stands: what it has checked and is about to write. */
  datatype Pc = Idle | MayInsert(row: Token) | MayRevoke(target: nat) | MayUpdate(target: nat, change: Change)

  datatype State = State(rows: seq<Token>, sessions: seq<Pc>)

  datatype Action =
    | CountActive(user: nat, name: string, readOnly: bool, maxReadBytes: int)
    | ReadForRevoke(id: nat, actor: Actor)
    | ReadForUpdate(id: nat, actor: Actor, change: Change)
    | Write(now: int)
    | Touch(id: nat, now: int)
    | GiveUp

  /** What an idle session's read lets it write. */
  function AfterRead(rows: seq<Token>, a: Action): Pc {
    match a
    case CountActive(user, name, readOnly, maxReadBytes) =>
      if Active(rows, user) >= PER_USER_TOKEN_LIMIT then Idle
      else MayInsert(Token(user, name, readOnly, maxReadBytes, None, None))
    case ReadForRevoke(id, actor) =>
      if id < |rows| && Allowed(actor, rows[id]) && rows[id].revokedAt.None? then MayRevoke(id) else Idle
    case ReadForUpdate(id, actor, change) =>
      if UpdateRefusal(rows, id, actor, change).None? then MayUpdate(id, change) else Idle
    case _ => Idle
  }

  /** The write a session makes on the rows as they are by then; a refused one changes nothing. */
  function AfterWrite(rows: seq<Token>, pc: Pc, now: int): seq<Token> {
    match pc
    case Idle => rows
    case MayInsert(row) => if Accepts(rows, row, |rows|) then rows + [row] else rows
    case MayRevoke(id) => if id < |rows| then rows[id := rows[id].(revokedAt := Some(now))] else rows
    case MayUpdate(id, change) =>
      if id < |rows| && Accepts(rows, Changed(rows[id], change), id)
      then rows[id := Changed(rows[id], change)] else rows
  }

  function AfterTouch(rows: seq<Token>, id: nat, now: int, throttleSeconds: nat): seq<Token> {
    if id < |rows| && !Throttled(rows[id], now, throttleSeconds)
    then rows[id := rows[id].(lastUsed := Some(now))] else rows
  }

  /** One step of session `i`. */
  function Next(s: State, i: nat, a: Action, throttleSeconds: nat): (t: State)
    requires i < |s.sessions|
    ensures |t.sessions| == |s.sessions|
  {
    match a
    case Touch(id, now) => s.(rows := AfterTouch(s.rows, id, now, throttleSeconds))
    case Write(now) => State(AfterWrite(s.rows, s.sessions[i], now), s.sessions[i := Idle])
    case GiveUp => s.(sessions := s.sessions[i := Idle])
    case _ => if s.sessions[i].Idle? then s.(sessions := s.sessions[i := AfterRead(s.rows, a)]) else s
  }

  datatype Move = Move(session: nat, action: Action)

  /** A schedule: who moves when. */
  predicate Fits(s: State, trace: seq<Move>) {
    forall m :: m in trace ==> m.session < |s.sessions|
  }

  function After(s: State, trace: seq<Move>, throttleSeconds: nat): (t: State)
    requires Fits(s, trace)
    ensures |t.sessions| == |s.sessions|
    decreases trace
  {
    if trace == [] then s else
      assert trace[0] in trace;
      var t := Next(s, trace[0].session, trace[0].action, throttleSeconds);
      assert forall m :: m in trace[1..] ==> m in trace;
      After(t, trace[1..], throttleSeconds)
  }

  predicate CreatesFor(pc: Pc, user: nat) { pc.MayInsert? && pc.row.owner == user }

  function IsCreateFor(user: nat): Pc -> bool { (pc: Pc) => CreatesFor(pc, user) }

  /** The creates of a user that have passed the count and have not inserted yet. */
  function Pending(sessions: seq<Pc>, user: nat): nat { Count(sessions, IsCreateFor(user)) }

  /** At no moment of the schedule do more than `k` creates of the user overlap. */
  predicate AtMostOverlap(s: State, trace: seq<Move>, user: nat, k: nat, throttleSeconds: nat)
    requires Fits(s, trace)
    decreases trace
  {
    Pending(s.sessions, user) <= k &&
    (trace == [] ||
      (assert trace[0] in trace;
       assert forall m :: m in trace[1..] ==> m in trace;
       var t := Next(s, trace[0].session, trace[0].action, throttleSeconds);
       AtMostOverlap(t, trace[1..], user, k, throttleSeconds)))
  }

  function Start(sessions: nat): State { State([], seq(sessions, _ => Idle)) }

  // ------------------------------------------------- what every step keeps

  lemma {:induction false} CountUpdate<T>(s: seq<T>, i: nat, x: T, p: T -> bool)
    requires i < |s|
    ensures Count(s[i := x], p) == Count(s, p) - (if p(s[i]) then 1 else 0) + (if p(x) then 1 else 0)
  {
    if i == 0 {
      assert s[i := x][1..] == s[1..];
    } else {
      CountUpdate(s[1..], i - 1, x, p);
      assert s[i := x][1..] == s[1..][i - 1 := x];
    }
  }

  lemma {:induction false} CountAppend<T>(s: seq<T>, x: T, p: T -> bool)
    ensures Count(s + [x], p) == Count(s, p) + (if p(x) then 1 else 0)
  {
    if s == [] {
      assert (s + [x])[1..] == [];
    } else {
      CountAppend(s[1..], x, p);
      assert (s + [x])[1..] == s[1..] + [x];
    }
  }

  lemma {:induction false} CountNone<T>(s: seq<T>, p: T -> bool)
    requires forall x :: x in s ==> !p(x)
    ensures Count(s, p) == 0
  {
    if s != [] {
      assert s[0] in s;
      CountNone(s[1..], p);
    }
  }

  /** A row that can still be written is in range, whatever the session has read. */
  lemma WriteStepKeeps(rows: seq<Token>, pc: Pc, now: int, throttleSeconds: nat)
    requires LedgerValid(rows)
    ensures LedgerValid(AfterWrite(rows, pc, now)) && Evolves(rows, AfterWrite(rows, pc, now), throttleSeconds)
  {
    match pc
    case Idle =>
    case MayInsert(row) =>
      if Accepts(rows, row, |rows|) { AppendKeeps(rows, row, throttleSeconds); }
    case MayRevoke(id) =>
      if id < |rows| { WriteKeeps(rows, id, rows[id].(revokedAt := Some(now)), throttleSeconds); }
    case MayUpdate(id, change) =>
      if id < |rows| && Accepts(rows, Changed(rows[id], change), id) {
        WriteKeeps(rows, id, Changed(rows[id], change), throttleSeconds);
      }
  }

  lemma StepKeeps(s: State, i: nat, a: Action, throttleSeconds: nat)
    requires LedgerValid(s.rows) && i < |s.sessions|
    ensures LedgerValid(Next(s, i, a, throttleSeconds).rows)
    ensures Evolves(s.rows, Next(s, i, a, throttleSeconds).rows, throttleSeconds)
  {
    hide LedgerValid, AfterWrite, AfterRead;
    match a
    case Touch(id, now) =>
      if id < |s.rows| && !Throttled(s.rows[id], now, throttleSeconds) { TouchKeeps(s.rows, id, now, throttleSeconds); }
    case Write(now) => WriteStepKeeps(s.rows, s.sessions[i], now, throttleSeconds);
    case _ =>
  }

  /**
   * Over every schedule: active names of a user stay distinct, a revoked token
   * stays revoked, and a token's last-used time moves only by more than the
   * throttle.
   */
  lemma {:induction false} RunsKeepTheLedger(s: State, trace: seq<Move>, throttleSeconds: nat)
    requires LedgerValid(s.rows) && Fits(s, trace)
    ensures LedgerValid(After(s, trace, throttleSeconds).rows)
    ensures Evolves(s.rows, After(s, trace, throttleSeconds).rows, throttleSeconds)
    decreases trace
  {
    if trace != [] {
      var m := trace[0];
      assert m in trace;
      assert forall x :: x in trace[1..] ==> x in trace;
      var t := Next(s, m.session, m.action, throttleSeconds);
      hide Next, LedgerValid, Evolves;
      StepKeeps(s, m.session, m.action, throttleSeconds);
      RunsKeepTheLedger(t, trace[1..], throttleSeconds);
      EvolvesTransitively(s.rows, t.rows, After(t, trace[1..], throttleSeconds).rows, throttleSeconds);
    } else {
      hide LedgerValid;
      EvolvesStandingStill(s.rows, throttleSeconds);
    }
  }

  lemma EvolvesStandingStill(rows: seq<Token>, throttleSeconds: nat)
    ensures Evolves(rows, rows, throttleSeconds)
  {
    forall i | 0 <= i < |rows| ensures RowEvolves(rows[i], rows[i], throttleSeconds) { }
  }

  // ------------------------------------------------- the per-user limit

  /** Tokens in force and tokens about to be: what the count bounds. */
  predicate WithinLimit(s: State, user: nat, k: nat) {
    Active(s.rows, user) + Pending(s.sessions, user) <= PER_USER_TOKEN_LIMIT - 1 + k
  }

  lemma WriteWithinLimit(s: State, i: nat, now: int, user: nat)
    requires i < |s.sessions|
    ensures Active(AfterWrite(s.rows, s.sessions[i], now), user) + Pending(s.sessions[i := Idle], user)
         <= Active(s.rows, user) + Pending(s.sessions, user)
  {
    var rows, pc := s.rows, s.sessions[i];
    CountUpdate(s.sessions, i, Idle, IsCreateFor(user));
    hide Accepts, Count, Changed;
    match pc
    case Idle =>
    case MayInsert(row) => CountAppend(rows, row, IsActiveOf(user));
    case MayRevoke(id) =>
      if id < |rows| { CountUpdate(rows, id, rows[id].(revokedAt := Some(now)), IsActiveOf(user)); }
    case MayUpdate(id, change) =>
      if id < |rows| {
        ChangedKeepsActive(rows[id], change, user);
        CountUpdate(rows, id, Changed(rows[id], change), IsActiveOf(user));
      }
  }

  lemma ChangedKeepsActive(t: Token, c: Change, user: nat)
    ensures ActiveOf(Changed(t, c), user) <==> ActiveOf(t, user)
  {
  }

  lemma StepWithinLimit(s: State, i: nat, a: Action, user: nat, k: nat, throttleSeconds: nat)
    requires i < |s.sessions| && WithinLimit(s, user, k)
    requires Pending(Next(s, i, a, throttleSeconds).sessions, user) <= k
    ensures WithinLimit(Next(s, i, a, throttleSeconds), user, k)
  {
    hide Count, AfterWrite, Throttled;
    match a
    case Touch(id, now) =>
      if id < |s.rows| { CountUpdate(s.rows, id, s.rows[id].(lastUsed := Some(now)), IsActiveOf(user)); }
    case Write(now) => WriteWithinLimit(s, i, now, user);
    case GiveUp => CountUpdate(s.sessions, i, Idle, IsCreateFor(user));
    case _ =>
      hide UpdateRefusal, Allowed;
      CountUpdate(s.sessions, i, AfterRead(s.rows, a), IsCreateFor(user));
  }

  /** With at most `k` creates of a user overlapping, the user never holds more than 10 + k - 1 active tokens. */
  lemma {:induction false} LimitHolds(s: State, trace: seq<Move>, user: nat, k: nat, throttleSeconds: nat)
    requires Fits(s, trace) && WithinLimit(s, user, k) && AtMostOverlap(s, trace, user, k, throttleSeconds)
    ensures Active(After(s, trace, throttleSeconds).rows, user) <= 9 + k
    decreases trace
  {
    if trace != [] {
      var m := trace[0];
      assert m in trace;
      assert forall x :: x in trace[1..] ==> x in trace;
      var t := Next(s, m.session, m.action, throttleSeconds);
      assert AtMostOverlap(t, trace[1..], user, k, throttleSeconds);
      hide Next, Active;
      StepWithinLimit(s, m.session, m.action, user, k, throttleSeconds);
      LimitHolds(t, trace[1..], user, k, throttleSeconds);
    }
  }

  lemma StartIsWithinLimit(sessions: nat, user: nat, k: nat)
    ensures WithinLimit(Start(sessions), user, k) && LedgerValid(Start(sessions).rows)
    ensures Pending(Start(sessions).sessions, user) == 0
  {
    CountNone(Start(sessions).sessions, IsCreateFor(user));
  }

  /** From an empty ledger: the limit over every schedule, at most ten when creates do not overlap. */
  lemma LimitFromTheStart(sessions: nat, trace: seq<Move>, user: nat, k: nat, throttleSeconds: nat)
    requires Fits(Start(sessions), trace) && AtMostOverlap(Start(sessions), trace, user, k, throttleSeconds)
    ensures Active(After(Start(sessions), trace, throttleSeconds).rows, user) <= 9 + k
  {
    StartIsWithinLimit(sessions, user, k);
    LimitHolds(Start(sessions), trace, user, k, throttleSeconds);
  }

  // ------------------------------------------------- sessions do what they are asked

  /** Nothing in between: a session that reads and writes revokes the token it was asked to, and no other. */
  lemma SessionRevokes(s: State, i: nat, id: nat, actor: Actor, now: int, throttleSeconds: nat)
    requires i < |s.sessions| && s.sessions[i].Idle? && id < |s.rows|
    ensures var t := Next(Next(s, i, ReadForRevoke(id, actor), throttleSeconds), i, Write(now), throttleSeconds);
            && t.sessions == s.sessions
            && t.rows == if (actor.isAdmin || s.rows[id].owner == actor.user) && s.rows[id].revokedAt.None?
                         then s.rows[id := s.rows[id].(revokedAt := Some(now))] else s.rows
  {
    var read := Next(s, i, ReadForRevoke(id, actor), throttleSeconds);
    assert read.sessions[i := Idle] == s.sessions;
  }

  /** Whatever happened in between, a session that writes what it may revoke leaves it revoked, for good. */
  lemma RevocationSticks(s: State, i: nat, now: int, trace: seq<Move>, throttleSeconds: nat)
    requires LedgerValid(s.rows) && i < |s.sessions| && s.sessions[i].MayRevoke? && s.sessions[i].target < |s.rows|
    requires Fits(s, trace)
    ensures var t := Next(s, i, Write(now), throttleSeconds);
            && Fits(t, trace)
            && |s.rows| <= |After(t, trace, throttleSeconds).rows|
            && After(t, trace, throttleSeconds).rows[s.sessions[i].target].revokedAt.Some?
  {
    var t := Next(s, i, Write(now), throttleSeconds);
    assert Fits(t, trace);
    StepKeeps(s, i, Write(now), throttleSeconds);
    RunsKeepTheLedger(t, trace, throttleSeconds);
    assert t.rows[s.sessions[i].target].revokedAt.Some?;
    hide After, LedgerValid;
    assert RowEvolves(t.rows[s.sessions[i].target], After(t, trace, throttleSeconds).rows[s.sessions[i].target],
                      throttleSeconds);
  }

  /** A session that counts and inserts adds the token asked for exactly when `create_token` would. */
  lemma SessionCreates(s: State, i: nat, user: nat, name: string, readOnly: bool, maxReadBytes: int, now: int,
                       throttleSeconds: nat)
    requires i < |s.sessions| && s.sessions[i].Idle?
    ensures var counted := Next(s, i, CountActive(user, name, readOnly, maxReadBytes), throttleSeconds);
            var t := Next(counted, i, Write(now), throttleSeconds);
            && t.sessions == s.sessions
            && t.rows == if && Active(s.rows, user) < 10 && 0 < maxReadBytes <= 10_485_760
                            && (forall u :: u in s.rows && u.owner == user && u.revokedAt.None? ==> u.name != name)
                         then s.rows + [Token(user, name, readOnly, maxReadBytes, None, None)] else s.rows
  {
    hide Active;
    TakenByAnother(s.rows, user, name, |s.rows|);
    hide NameTaken;
    var counted := Next(s, i, CountActive(user, name, readOnly, maxReadBytes), throttleSeconds);
    assert counted.sessions[i := Idle] == s.sessions;
  }

  /** A session that reads and updates sets the fields asked for, and no others, when all the checks pass. */
  lemma SessionUpdates(s: State, i: nat, id: nat, actor: Actor, c: Change, now: int, throttleSeconds: nat)
    requires i < |s.sessions| && s.sessions[i].Idle? && id < |s.rows|
    ensures var t := Next(Next(s, i, ReadForUpdate(id, actor, c), throttleSeconds), i, Write(now), throttleSeconds);
            var row := s.rows[id];
            var name := if c.name.Some? then c.name.value else row.name;
            var readOnly := if c.readOnly.Some? then c.readOnly.value else row.readOnly;
            var maxReadBytes := if c.maxReadBytes.Some? then c.maxReadBytes.value else row.maxReadBytes;
            var passes :=
              && (c.name.Some? || c.readOnly.Some? || c.maxReadBytes.Some?)
              && (actor.isAdmin || row.owner == actor.user) && row.revokedAt.None?
              && 1 <= maxReadBytes <= 10_485_760 && !HeldByAnother(s.rows, id, name);
            && t.sessions == s.sessions
            && t.rows == if passes
                         then s.rows[id := Token(row.owner, name, readOnly, maxReadBytes, row.lastUsed, row.revokedAt)]
                         else s.rows
  {
    HeldIsTaken(s.rows, id, if c.name.Some? then c.name.value else s.rows[id].name);
    hide NameTaken, HeldByAnother;
    var read := Next(s, i, ReadForUpdate(id, actor, c), throttleSeconds);
    assert read.sessions[i := Idle] == s.sessions;
  }

  /** A touch moves last-used exactly when it is unset or older than the throttle, and nothing else. */
  lemma SessionTouches(s: State, i: nat, id: nat, now: int, throttleSeconds: nat)
    requires i < |s.sessions| && id < |s.rows|
    ensures Next(s, i, Touch(id, now), throttleSeconds)
         == if s.rows[id].lastUsed.None? || s.rows[id].lastUsed.value < now - throttleSeconds
            then State(s.rows[id := s.rows[id].(lastUsed := Some(now))], s.sessions) else s
  {
  }

  // ------------------------------------------------- the limit is reached

  function Name(n: nat): string { seq(n, _ => 'x') }

  function NthToken(user: nat, n: nat): Token { Token(user, Name(n), true, 1, None, None) }

  function Tokens(user: nat, n: nat): seq<Token> { seq(n, i requires 0 <= i < n => NthToken(user, i)) }

  function CountNth(user: nat, n: nat): Action { CountActive(user, Name(n), true, 1) }

  /** The first `done` of `k` sessions have inserted, those up to `passed` have been counted. */
  function Halfway(user: nat, have: nat, done: nat, passed: nat, k: nat): State
    requires done <= passed <= k
  {
    State(Tokens(user, have + done),
          seq(k, i requires 0 <= i < k => if done <= i < passed then MayInsert(NthToken(user, have + i)) else Idle))
  }

  lemma TokensAreActive(user: nat, n: nat)
    ensures Active(Tokens(user, n), user) == n
  {
    if n > 0 {
      TokensAreActive(user, n - 1);
      assert Tokens(user, n) == Tokens(user, n - 1) + [NthToken(user, n - 1)];
      CountAppend(Tokens(user, n - 1), NthToken(user, n - 1), IsActiveOf(user));
    }
  }

  lemma CountStep(user: nat, have: nat, passed: nat, k: nat, throttleSeconds: nat)
    requires have < PER_USER_TOKEN_LIMIT && passed < k
    ensures Next(Halfway(user, have, 0, passed, k), passed, CountNth(user, have + passed), throttleSeconds)
         == Halfway(user, have, 0, passed + 1, k)
  {
    TokensAreActive(user, have);
    hide Active, Tokens;
    var s, t := Halfway(user, have, 0, passed, k), Halfway(user, have, 0, passed + 1, k);
    assert s.sessions[passed := MayInsert(NthToken(user, have + passed))] == t.sessions;
  }

  lemma InsertStep(user: nat, have: nat, done: nat, passed: nat, k: nat, throttleSeconds: nat)
    requires done < passed <= k
    ensures Next(Halfway(user, have, done, passed, k), done, Write(0), throttleSeconds)
         == Halfway(user, have, done + 1, passed, k)
  {
    var s, t := Halfway(user, have, done, passed, k), Halfway(user, have, done + 1, passed, k);
    assert s.sessions[done := Idle] == t.sessions;
    assert s.rows + [NthToken(user, have + done)] == t.rows;
    assert !NameTaken(s.rows, user, Name(have + done), |s.rows|) by {
      forall i | 0 <= i < |s.rows| ensures s.rows[i].name != Name(have + done) {
        assert |s.rows[i].name| == i && |Name(have + done)| == have + done;
      }
    }
  }

  /** `k` creates that all pass the count before any of them inserts. */
  lemma {:induction false} AllPass(user: nat, have: nat, passed: nat, k: nat, throttleSeconds: nat)
    returns (trace: seq<Move>)
    requires have < PER_USER_TOKEN_LIMIT && passed <= k
    ensures Fits(Halfway(user, have, 0, passed, k), trace)
    ensures After(Halfway(user, have, 0, passed, k), trace, throttleSeconds) == Halfway(user, have, k, k, k)
    decreases k - passed
  {
    if passed == k {
      trace := AllInsert(user, have, 0, k, throttleSeconds);
    } else {
      var rest := AllPass(user, have, passed + 1, k, throttleSeconds);
      CountStep(user, have, passed, k, throttleSeconds);
      trace := [Move(passed, CountNth(user, have + passed))] + rest;
      hide Halfway, Next;
      assert trace[1..] == rest;
    }
  }

  lemma {:induction false} AllInsert(user: nat, have: nat, done: nat, k: nat, throttleSeconds: nat)
    returns (trace: seq<Move>)
    requires done <= k
    ensures Fits(Halfway(user, have, done, k, k), trace)
    ensures After(Halfway(user, have, done, k, k), trace, throttleSeconds) == Halfway(user, have, k, k, k)
    decreases k - done
  {
    if done == k {
      trace := [];
    } else {
      var rest := AllInsert(user, have, done + 1, k, throttleSeconds);
      InsertStep(user, have, done, k, k, throttleSeconds);
      trace := [Move(done, Write(0))] + rest;
      hide Halfway, Next;
      assert trace[1..] == rest;
    }
  }

  /** Nine tokens one after the other, then `k` overlapping creates. */
  lemma {:induction false} Fill(user: nat, have: nat, k: nat, throttleSeconds: nat) returns (trace: seq<Move>)
    requires have < PER_USER_TOKEN_LIMIT && 1 <= k
    ensures Fits(Halfway(user, have, 0, 0, k), trace)
    ensures After(Halfway(user, have, 0, 0, k), trace, throttleSeconds)
         == Halfway(user, PER_USER_TOKEN_LIMIT - 1, k, k, k)
    decreases PER_USER_TOKEN_LIMIT - have
  {
    if have == PER_USER_TOKEN_LIMIT - 1 {
      trace := AllPass(user, have, 0, k, throttleSeconds);
    } else {
      var rest := Fill(user, have + 1, k, throttleSeconds);
      CountStep(user, have, 0, k, throttleSeconds);
      InsertStep(user, have, 0, 1, k, throttleSeconds);
      assert Halfway(user, have, 1, 1, k) == Halfway(user, have + 1, 0, 0, k);
      trace := [Move(0, CountNth(user, have)), Move(0, Write(0))] + rest;
      hide Halfway, Next;
      assert trace[1..][0] == Move(0, Write(0)) && trace[1..][1..] == rest;
    }
  }

  /** No more creates overlap than there are sessions. */
  lemma {:induction false} SessionsBoundOverlap(s: State, trace: seq<Move>, user: nat, throttleSeconds: nat)
    requires Fits(s, trace)
    ensures AtMostOverlap(s, trace, user, |s.sessions|, throttleSeconds)
    decreases trace
  {
    if trace != [] {
      var m := trace[0];
      assert m in trace;
      assert forall x :: x in trace[1..] ==> x in trace;
      hide Next;
      SessionsBoundOverlap(Next(s, m.session, m.action, throttleSeconds), trace[1..], user, throttleSeconds);
    }
  }

  /** The limit is the best there is: some schedule of `k` overlapping creates reaches it. */
  lemma LimitIsReached(user: nat, k: nat, throttleSeconds: nat) returns (trace: seq<Move>)
    requires 1 <= k
    ensures Fits(Start(k), trace) && AtMostOverlap(Start(k), trace, user, k, throttleSeconds)
    ensures Active(After(Start(k), trace, throttleSeconds).rows, user) == 9 + k
  {
    trace := Fill(user, 0, k, throttleSeconds);
    assert Start(k) == Halfway(user, 0, 0, 0, k);
    TokensAreActive(user, PER_USER_TOKEN_LIMIT - 1 + k);
    hide After, Next, Active;
    SessionsBoundOverlap(Start(k), trace, user, throttleSeconds);
  }
}
