/**
 Sessions: their two deadlines, the store operations on either backend, and
 what every run of those operations keeps. Instants are nanoseconds; sessions
 are keyed by the hash of their token.
 */
module Sessions {
  import opened Sequences

  type Instant = int

  const SECOND := 1_000_000_000
  const IDLE_TIMEOUT := 15 * 60 * SECOND
  const ABSOLUTE_TIMEOUT := 8 * 60 * 60 * SECOND

  datatype User =
    | PoliticalGroup(stream: nat, nameId: string, election: Option<nat>)
    | Committee(member: string, fixedElection: nat, paperStream: Option<nat>)

  datatype Session = Session(
    tokenHash: string, csrf: string, createdAt: Instant, lastActivity: Instant,
    agentHash: Option<string>, user: User, locale: string)

  // ----- expiry

  datatype SessionExpiry = SessionExpiry(expiresInSecs: nat, extendable: bool)

  function IdleDeadline(s: Session): Instant {
    s.lastActivity + IDLE_TIMEOUT
  }

  function AbsoluteDeadline(s: Session): Instant {
    s.createdAt + ABSOLUTE_TIMEOUT
  }

  function Deadline(s: Session): Instant {
    if IdleDeadline(s) <= AbsoluteDeadline(s) then IdleDeadline(s) else AbsoluteDeadline(s)
  }

  /** Whole seconds, truncated toward zero. */
  function WholeSeconds(d: int): int {
    if d >= 0 then d / SECOND else -(-d / SECOND)
  }

  /** Remaining whole seconds; a deadline in the past clamps to zero. */
  function ExpiryAt(s: Session, now: Instant): SessionExpiry {
    var secs := WholeSeconds(Deadline(s) - now);
    var left := if secs < 0 then 0 else secs;
    SessionExpiry(left, left > 0 && IdleDeadline(s) < AbsoluteDeadline(s))
  }

  predicate IsExpired(s: Session, now: Instant) {
    ExpiryAt(s, now).expiresInSecs == 0
  }

  /** A session is live exactly while a whole second is left before both of its
      deadlines. */
  lemma LiveMeansASecondLeft(s: Session, now: Instant)
    ensures !IsExpired(s, now)
            <==> now + SECOND <= s.createdAt + ABSOLUTE_TIMEOUT && now + SECOND <= s.lastActivity + IDLE_TIMEOUT
  {
    var left := Deadline(s) - now;
    if left >= SECOND {
      assert left / SECOND >= 1;
    } else if left >= 0 {
      assert left / SECOND == 0;
    }
  }

  /** The remaining seconds are as many as fit before both deadlines, and none when
      one has passed. */
  lemma RemainingSecondsFit(s: Session, now: Instant, n: nat)
    ensures n <= ExpiryAt(s, now).expiresInSecs
            <==> n == 0 || (now + n * SECOND <= s.createdAt + ABSOLUTE_TIMEOUT
                            && now + n * SECOND <= s.lastActivity + IDLE_TIMEOUT)
  {
    if n > 0 {
      SecondsFit(Deadline(s) - now, n);
    }
  }

  lemma SecondsFit(left: int, n: nat)
    requires n > 0
    ensures n <= WholeSeconds(left) <==> n * SECOND <= left
  {}

  /** `extendable` tells the truth: it is set exactly when the session is live
      and any later activity moves its deadline. */
  lemma ExtendableMeansActivityHelps(s: Session, now: Instant, later: Instant)
    requires later > s.lastActivity
    ensures ExpiryAt(s, now).extendable
            <==> !IsExpired(s, now) && Deadline(s.(lastActivity := later)) > Deadline(s)
  {}

  // ----- operations

  datatype Backend = Memory | Database

  /** Operations as the stores see them: of the request's own copy of a
      session only the key, the CSRF token and the activity are used. `renewed`
      is the token a switch rotates to. Dropping an expired session is a step
      of its own, since a lookup and its drop do not happen under one lock. */
  datatype Op =
    | Insert(session: Session)
    | Get(hash: string, now: Instant)
    | DropToken(hash: string)
    | SetLocale(hash: string, locale: string)
    | SetElection(hash: string, csrf: string, election: nat, renewed: string)
    | SetPaperStream(hash: string, csrf: string, paperStream: Option<nat>, renewed: string)
    | Touch(hash: string, activity: Instant)
    | Remove(hash: string)
    | Cleanup(now: Instant)

  datatype Outcome = Done | Found(session: Session) | Missing | Conflict | Unauthorised

  type Sessions = map<string, Session>

  /** The session a switch leaves behind; `None` for the wrong role. */
  function Switched(s: Session, op: Op): Option<Session>
    requires op.SetElection? || op.SetPaperStream?
  {
    match op
    case SetElection(_, _, election, renewed) =>
      if s.user.PoliticalGroup? then Some(s.(user := s.user.(election := Some(election)), csrf := renewed)) else None
    case SetPaperStream(_, _, paperStream, renewed) =>
      if s.user.Committee? then Some(s.(user := s.user.(paperStream := paperStream), csrf := renewed)) else None
  }

  /** Whether a switch finds the session with the CSRF token it was made for. */
  predicate TokenMatches(m: Sessions, op: Op)
    requires op.SetElection? || op.SetPaperStream?
  {
    op.hash in m && m[op.hash].csrf == op.csrf
  }

  predicate Switches(m: Sessions, op: Op) {
    && (op.SetElection? || op.SetPaperStream?)
    && TokenMatches(m, op) && Switched(m[op.hash], op).Some?
  }

  /** Rows deleted by `last_activity < now - idle OR created_at < now - cap`. */
  predicate PastCutoff(s: Session, now: Instant) {
    s.lastActivity < now - IDLE_TIMEOUT || s.createdAt < now - ABSOLUTE_TIMEOUT
  }

  predicate Cleans(backend: Backend, s: Session, now: Instant) {
    match backend
    case Memory => IsExpired(s, now)
    case Database => PastCutoff(s, now)
  }

  function Do(backend: Backend, m: Sessions, op: Op): Sessions {
    match op
    case Insert(s) =>
      if backend.Database? && s.tokenHash in m
      then m[s.tokenHash := s.(createdAt := m[s.tokenHash].createdAt, agentHash := m[s.tokenHash].agentHash)]
      else m[s.tokenHash := s]
    case Get(_, _) => m
    case DropToken(h) => m - {h}
    case Remove(h) => m - {h}
    case SetLocale(h, locale) => if h in m then m[h := m[h].(locale := locale)] else m
    case SetElection(h, _, _, _) => if Switches(m, op) then m[h := Switched(m[h], op).value] else m
    case SetPaperStream(h, _, _, _) => if Switches(m, op) then m[h := Switched(m[h], op).value] else m
    case Touch(h, activity) =>
      if h in m then m[h := m[h].(lastActivity := Max(m[h].lastActivity, activity))] else m
    case Cleanup(now) => map h | h in m && !Cleans(backend, m[h], now) :: m[h]
  }

  function Answer(backend: Backend, m: Sessions, op: Op): Outcome {
    match op
    case Get(h, now) => if h in m && !IsExpired(m[h], now) then Found(m[h]) else Missing
    case Remove(h) => if h in m then Found(m[h]) else Missing
    case SetLocale(h, _) => if h in m then Done else Conflict
    case SetElection(_, _, _, _) => AnswerSwitch(backend, m, op)
    case SetPaperStream(_, _, _, _) => AnswerSwitch(backend, m, op)
    case _ => Done
  }

  /** The conditional update of a row cannot tell the wrong role from a stale
      token. */
  function AnswerSwitch(backend: Backend, m: Sessions, op: Op): Outcome
    requires op.SetElection? || op.SetPaperStream?
  {
    if Switches(m, op) then Done
    else if TokenMatches(m, op) && backend.Memory? then Unauthorised
    else Conflict
  }

  function Run(backend: Backend, m: Sessions, ops: seq<Op>): Sessions {
    if ops == [] then m else Do(backend, Run(backend, m, ops[..|ops| - 1]), ops[|ops| - 1])
  }

  // ----- the stores

  /** Only the session under `h` may have changed, come or gone. */
  predicate OthersStay(before: Sessions, after: Sessions, h: string) {
    before - {h} == after - {h}
  }

  /** Nothing is revived and nothing lost. */
  predicate SameSessions(before: Sessions, after: Sessions) {
    before.Keys == after.Keys
  }

  /** A switch that succeeds used up the token it was made for; one that fails
      changes nothing. */
  predicate SwitchedOnce(before: Sessions, after: Sessions, h: string, csrf: string, renewed: string, done: bool) {
    if done then h in before && before[h].csrf == csrf && h in after && after[h].csrf == renewed
    else after == before
  }

  /** The new session is the old one but for its context and its token. */
  predicate OnlySwitched(before: Session, after: Session, renewed: string) {
    && after.csrf == renewed && SameIdentity(before.user, after.user)
    && after.tokenHash == before.tokenHash && after.createdAt == before.createdAt
    && after.lastActivity == before.lastActivity && after.agentHash == before.agentHash
    && after.locale == before.locale
  }

  /** The same person in the same role: everything of a user but the context. */
  predicate SameIdentity(a: User, b: User) {
    match (a, b)
    case (PoliticalGroup(s, n, _), PoliticalGroup(t, k, _)) => s == t && n == k
    case (Committee(u, e, _), Committee(v, f, _)) => u == v && e == f
    case _ => false
  }

  /** What a switch sets: the election of a group, or the stream a committee member
      corrects on paper. */
  function Context(u: User): Option<nat> {
    match u
    case PoliticalGroup(_, _, election) => election
    case Committee(_, _, paperStream) => paperStream
  }

  /** A switch of the election that succeeds does just that, on a group's session. */
  predicate ElectionSwitched(before: Sessions, after: Sessions, h: string, election: nat, renewed: string) {
    && h in before && h in after && before[h].user.PoliticalGroup?
    && Context(after[h].user) == Some(election) && OnlySwitched(before[h], after[h], renewed)
  }

  predicate PaperStreamSwitched(before: Sessions, after: Sessions, h: string, stream: Option<nat>, renewed: string) {
    && h in before && h in after && before[h].user.Committee?
    && Context(after[h].user) == stream && OnlySwitched(before[h], after[h], renewed)
  }

  /** Activity under `h` is at least `activity` and did not move back. */
  predicate MovedForward(before: Sessions, after: Sessions, h: string, activity: Instant) {
    h in before ==> h in after && after[h].lastActivity >= activity && after[h].lastActivity >= before[h].lastActivity
  }

  class SessionStore {
    var sessions: map<string, Session>

    constructor ()
      ensures sessions == map[]
    {
      sessions := map[];
    }

    /** An expired session is dropped on lookup. */
    method GetSession(hash: string, now: Instant) returns (found: Option<Session>)
      modifies this
      ensures match Answer(Memory, old(sessions), Get(hash, now))
              case Found(s) => found == Some(s) && sessions == old(sessions)
              case _ => found == None && sessions == Do(Memory, old(sessions), DropToken(hash))
      ensures OthersStay(old(sessions), sessions, hash)
      ensures found.None? ==> hash !in sessions
      ensures found.Some? ==> now + SECOND <= found.value.createdAt + ABSOLUTE_TIMEOUT
      ensures found.Some? ==> now + SECOND <= found.value.lastActivity + IDLE_TIMEOUT
      ensures hash in old(sessions) && !IsExpired(old(sessions)[hash], now) ==> found == Some(old(sessions)[hash])
    {
      if hash !in sessions {
        assert sessions == sessions - {hash};
        return None;
      }
      if IsExpired(sessions[hash], now) {
        sessions := sessions - {hash};
        return None;
      }
      LiveMeansASecondLeft(sessions[hash], now);
      return Some(sessions[hash]);
    }

    method InsertSession(session: Session)
      modifies this
      ensures sessions == Do(Memory, old(sessions), Insert(session))
      ensures OthersStay(old(sessions), sessions, session.tokenHash) && session.tokenHash in sessions
      ensures sessions[session.tokenHash] == session
    {
      sessions := sessions[session.tokenHash := session];
    }

    method ChangeLocale(hash: string, locale: string) returns (outcome: Outcome)
      modifies this
      ensures sessions == Do(Memory, old(sessions), SetLocale(hash, locale))
      ensures outcome == Answer(Memory, old(sessions), SetLocale(hash, locale))
      ensures OthersStay(old(sessions), sessions, hash) && SameSessions(old(sessions), sessions)
      ensures outcome == Done ==> hash in sessions && sessions[hash].locale == locale
                                    && sessions[hash].csrf == old(sessions)[hash].csrf
                                    && sessions[hash].user == old(sessions)[hash].user
    {
      if hash !in sessions {
        return Conflict;
      }
      sessions := sessions[hash := sessions[hash].(locale := locale)];
      return Done;
    }

    method ChangeElection(hash: string, csrf: string, election: nat, renewed: string) returns (outcome: Outcome)
      modifies this
      ensures sessions == Do(Memory, old(sessions), SetElection(hash, csrf, election, renewed))
      ensures outcome == Answer(Memory, old(sessions), SetElection(hash, csrf, election, renewed))
      ensures OthersStay(old(sessions), sessions, hash) && SameSessions(old(sessions), sessions)
      ensures SwitchedOnce(old(sessions), sessions, hash, csrf, renewed, outcome == Done)
      ensures outcome == Done ==> ElectionSwitched(old(sessions), sessions, hash, election, renewed)
    {
      if hash !in sessions || sessions[hash].csrf != csrf {
        return Conflict;
      }
      var existing := sessions[hash];
      match existing.user
      case Committee(_, _, _) => return Unauthorised;
      case PoliticalGroup(_, _, _) =>
        existing := existing.(user := existing.user.(election := Some(election)));
        existing := existing.(csrf := renewed);
        sessions := sessions[hash := existing];
        return Done;
    }

    method ChangePaperStream(hash: string, csrf: string, paperStream: Option<nat>, renewed: string)
      returns (outcome: Outcome)
      modifies this
      ensures sessions == Do(Memory, old(sessions), SetPaperStream(hash, csrf, paperStream, renewed))
      ensures outcome == Answer(Memory, old(sessions), SetPaperStream(hash, csrf, paperStream, renewed))
      ensures OthersStay(old(sessions), sessions, hash) && SameSessions(old(sessions), sessions)
      ensures SwitchedOnce(old(sessions), sessions, hash, csrf, renewed, outcome == Done)
      ensures outcome == Done ==> PaperStreamSwitched(old(sessions), sessions, hash, paperStream, renewed)
    {
      if hash !in sessions || sessions[hash].csrf != csrf {
        return Conflict;
      }
      var existing := sessions[hash];
      match existing.user
      case PoliticalGroup(_, _, _) => return Unauthorised;
      case Committee(_, _, _) =>
        existing := existing.(user := existing.user.(paperStream := paperStream));
        existing := existing.(csrf := renewed);
        sessions := sessions[hash := existing];
        return Done;
    }

    method TouchSession(hash: string, activity: Instant)
      modifies this
      ensures sessions == Do(Memory, old(sessions), Touch(hash, activity))
      ensures OthersStay(old(sessions), sessions, hash) && SameSessions(old(sessions), sessions)
      ensures MovedForward(old(sessions), sessions, hash, activity)
    {
      if hash in sessions {
        sessions := sessions[hash := sessions[hash].(lastActivity := Max(sessions[hash].lastActivity, activity))];
      }
    }

    method RemoveSession(hash: string) returns (removed: Option<Session>)
      modifies this
      ensures sessions == Do(Memory, old(sessions), Remove(hash))
      ensures removed == match Answer(Memory, old(sessions), Remove(hash)) case Found(s) => Some(s) case _ => None
      ensures OthersStay(old(sessions), sessions, hash) && hash !in sessions
      ensures removed.Some? <==> hash in old(sessions)
      ensures removed.Some? ==> removed.value == old(sessions)[hash]
    {
      removed := if hash in sessions then Some(sessions[hash]) else None;
      sessions := sessions - {hash};
    }

    method CleanupExpired(now: Instant)
      modifies this
      ensures sessions == Do(Memory, old(sessions), Cleanup(now))
      ensures sessions.Keys <= old(sessions).Keys && forall h :: h in sessions ==> sessions[h] == old(sessions)[h]
      ensures forall h :: h in sessions ==> !IsExpired(sessions[h], now)
      ensures forall h :: h in old(sessions) && !IsExpired(old(sessions)[h], now) ==> h in sessions
    {
      sessions := map h | h in sessions && !IsExpired(sessions[h], now) :: sessions[h];
    }
  }

  /** The `sessions` table; each method is one statement. */
  class SessionTable {
    var rows: map<string, Session>

    constructor ()
      ensures rows == map[]
    {
      rows := map[];
    }

    /** On conflict the creation time and the user agent of the row stay. */
    method UpsertRow(session: Session)
      modifies this
      ensures rows == Do(Database, old(rows), Insert(session))
      ensures OthersStay(old(rows), rows, session.tokenHash) && session.tokenHash in rows
      ensures session.tokenHash in old(rows) ==>
                rows[session.tokenHash].createdAt == old(rows)[session.tokenHash].createdAt
      ensures rows[session.tokenHash].user == session.user && rows[session.tokenHash].csrf == session.csrf
      ensures rows[session.tokenHash].locale == session.locale
      ensures rows[session.tokenHash].lastActivity == session.lastActivity
      ensures session.tokenHash !in old(rows) ==> rows[session.tokenHash] == session
      ensures session.tokenHash in old(rows) ==>
                rows[session.tokenHash].agentHash == old(rows)[session.tokenHash].agentHash
    {
      var h := session.tokenHash;
      if h !in rows {
        rows := rows[h := session];
      } else {
        rows := rows[h := rows[h].(user := session.user, locale := session.locale,
                                   lastActivity := session.lastActivity, csrf := session.csrf,
                                   tokenHash := h)];
      }
    }

    method UpdateLocale(hash: string, locale: string) returns (outcome: Outcome)
      modifies this
      ensures rows == Do(Database, old(rows), SetLocale(hash, locale))
      ensures outcome == Answer(Database, old(rows), SetLocale(hash, locale))
      ensures OthersStay(old(rows), rows, hash) && SameSessions(old(rows), rows)
      ensures outcome == Done ==> hash in rows && rows[hash].locale == locale
                                    && rows[hash].csrf == old(rows)[hash].csrf
                                    && rows[hash].user == old(rows)[hash].user
    {
      var affected := if hash in rows then 1 else 0;
      if affected == 1 {
        rows := rows[hash := rows[hash].(locale := locale)];
      }
      return if affected == 1 then Done else Conflict;
    }

    method UpdateElection(hash: string, csrf: string, election: nat, renewed: string) returns (outcome: Outcome)
      modifies this
      ensures rows == Do(Database, old(rows), SetElection(hash, csrf, election, renewed))
      ensures outcome == Answer(Database, old(rows), SetElection(hash, csrf, election, renewed))
      ensures OthersStay(old(rows), rows, hash) && SameSessions(old(rows), rows)
      ensures SwitchedOnce(old(rows), rows, hash, csrf, renewed, outcome == Done)
      ensures outcome == Done ==> ElectionSwitched(old(rows), rows, hash, election, renewed)
    {
      var affected := if hash in rows && rows[hash].csrf == csrf && rows[hash].user.PoliticalGroup? then 1 else 0;
      if affected == 1 {
        rows := rows[hash := rows[hash].(user := rows[hash].user.(election := Some(election)), csrf := renewed)];
      }
      return if affected == 1 then Done else Conflict;
    }

    method UpdatePaperStream(hash: string, csrf: string, paperStream: Option<nat>, renewed: string)
      returns (outcome: Outcome)
      modifies this
      ensures rows == Do(Database, old(rows), SetPaperStream(hash, csrf, paperStream, renewed))
      ensures outcome == Answer(Database, old(rows), SetPaperStream(hash, csrf, paperStream, renewed))
      ensures OthersStay(old(rows), rows, hash) && SameSessions(old(rows), rows)
      ensures SwitchedOnce(old(rows), rows, hash, csrf, renewed, outcome == Done)
      ensures outcome == Done ==> PaperStreamSwitched(old(rows), rows, hash, paperStream, renewed)
    {
      var affected := if hash in rows && rows[hash].csrf == csrf && rows[hash].user.Committee? then 1 else 0;
      if affected == 1 {
        rows := rows[hash := rows[hash].(user := rows[hash].user.(paperStream := paperStream), csrf := renewed)];
      }
      return if affected == 1 then Done else Conflict;
    }

    method TouchRow(hash: string, activity: Instant)
      modifies this
      ensures rows == Do(Database, old(rows), Touch(hash, activity))
      ensures OthersStay(old(rows), rows, hash) && SameSessions(old(rows), rows)
      ensures MovedForward(old(rows), rows, hash, activity)
    {
      if hash in rows {
        rows := rows[hash := rows[hash].(lastActivity := Max(rows[hash].lastActivity, activity))];
      }
    }

    method DeleteRow(hash: string) returns (removed: Option<Session>)
      modifies this
      ensures rows == Do(Database, old(rows), Remove(hash))
      ensures removed == match Answer(Database, old(rows), Remove(hash)) case Found(s) => Some(s) case _ => None
      ensures OthersStay(old(rows), rows, hash) && hash !in rows
      ensures removed.Some? <==> hash in old(rows)
      ensures removed.Some? ==> removed.value == old(rows)[hash]
    {
      removed := if hash in rows then Some(rows[hash]) else None;
      rows := rows - {hash};
    }

    method DeleteExpired(now: Instant)
      modifies this
      ensures rows == Do(Database, old(rows), Cleanup(now))
      ensures rows.Keys <= old(rows).Keys && forall h :: h in rows ==> rows[h] == old(rows)[h]
      ensures forall h :: h in old(rows) && h !in rows ==> IsExpired(old(rows)[h], now)
      ensures forall h :: h in rows ==> rows[h].lastActivity >= now - IDLE_TIMEOUT
      ensures forall h :: h in rows ==> rows[h].createdAt >= now - ABSOLUTE_TIMEOUT
    {
      forall h | h in rows && PastCutoff(rows[h], now) ensures IsExpired(rows[h], now) {
        LiveMeansASecondLeft(rows[h], now);
      }
      var idleCutoff, absoluteCutoff := now - IDLE_TIMEOUT, now - ABSOLUTE_TIMEOUT;
      rows := map h | h in rows && !(rows[h].lastActivity < idleCutoff || rows[h].createdAt < absoluteCutoff)
                   :: rows[h];
    }
  }

  // ----- logout is terminal and lifetimes are capped

  predicate InsertsNo(ops: seq<Op>, h: string) {
    forall i :: 0 <= i < |ops| && ops[i].Insert? ==> ops[i].session.tokenHash != h
  }

  /** After a removal no sequence of operations makes the session readable
      again without a new insert, on either backend. */
  lemma {:induction false} LogoutIsTerminal(backend: Backend, m: Sessions, h: string, ops: seq<Op>, now: Instant)
    requires InsertsNo(ops, h)
    ensures h !in Run(backend, Do(backend, m, Remove(h)), ops)
    ensures Answer(backend, Run(backend, Do(backend, m, Remove(h)), ops), Get(h, now)) == Missing
  {
    if ops == [] {
    } else {
      LogoutIsTerminal(backend, m, h, ops[..|ops| - 1], now);
    }
  }

  /** What a lookup hands out has a whole second left before both deadlines. */
  lemma FoundHasASecondLeft(backend: Backend, m: Sessions, h: string, now: Instant)
    requires Answer(backend, m, Get(h, now)).Found?
    ensures var s := Answer(backend, m, Get(h, now)).session;
            && now + SECOND <= s.createdAt + ABSOLUTE_TIMEOUT
            && now + SECOND <= s.lastActivity + IDLE_TIMEOUT
  {
    LiveMeansASecondLeft(m[h], now);
  }

  /** Between inserts a session keeps its role, stream or member, creation time
      and pinned agent, and its activity never moves back. */
  lemma {:induction false} SessionOnlyMovesForward(backend: Backend, m: Sessions, h: string, ops: seq<Op>)
    requires InsertsNo(ops, h)
    ensures var n := Run(backend, m, ops);
            h in n ==>
              && h in m
              && SameIdentity(m[h].user, n[h].user)
              && m[h].createdAt == n[h].createdAt && m[h].agentHash == n[h].agentHash
              && m[h].lastActivity <= n[h].lastActivity
  {
    if ops == [] {
    } else {
      SessionOnlyMovesForward(backend, m, h, ops[..|ops| - 1]);
    }
  }

  /** Lookups, drops, locale changes, touches and cleanups never undo or forge a
      switch: a session that stays keeps its context and its CSRF token. */
  lemma OnlySwitchesChangeContext(backend: Backend, m: Sessions, h: string, op: Op)
    requires !op.Insert? && !(Switches(m, op) && op.hash == h)
    ensures h in Do(backend, m, op) ==>
              h in m && Do(backend, m, op)[h].user == m[h].user && Do(backend, m, op)[h].csrf == m[h].csrf
  {}

  // ----- context switching is a compare-and-swap

  /** The CSRF token an operation brings into the store. */
  function Introduced(op: Op): Option<string> {
    match op
    case Insert(s) => Some(s.csrf)
    case SetElection(_, _, _, renewed) => Some(renewed)
    case SetPaperStream(_, _, _, renewed) => Some(renewed)
    case _ => None
  }

  /** Generated tokens never repeat. */
  predicate TokensFresh(ops: seq<Op>) {
    forall i, j :: 0 <= i < j < |ops| && Introduced(ops[i]).Some? ==> Introduced(ops[j]) != Introduced(ops[i])
  }

  /** Every stored token was introduced, and by one session only. */
  predicate TokensTraced(m: Sessions, ops: seq<Op>) {
    && (forall h :: h in m ==> exists i :: 0 <= i < |ops| && Introduced(ops[i]) == Some(m[h].csrf))
    && (forall g, h :: g in m && h in m && g != h ==> m[g].csrf != m[h].csrf)
  }

  lemma {:induction false} StoredTokensAreTraced(backend: Backend, ops: seq<Op>)
    requires TokensFresh(ops)
    ensures TokensTraced(Run(backend, map[], ops), ops)
  {
    if ops == [] {
    } else {
      var n := |ops| - 1;
      StoredTokensAreTraced(backend, ops[..n]);
      var before, after := Run(backend, map[], ops[..n]), Run(backend, map[], ops);
      forall h | h in after ensures exists i :: 0 <= i < |ops| && Introduced(ops[i]) == Some(after[h].csrf) {
        TokenOrigin(backend, before, ops[n], h);
        if Introduced(ops[n]) != Some(after[h].csrf) {
          var i :| 0 <= i < n && Introduced(ops[..n][i]) == Some(before[h].csrf);
          assert Introduced(ops[i]) == Some(after[h].csrf);
        }
      }
      forall g, h | g in after && h in after && g != h ensures after[g].csrf != after[h].csrf {
        TokenOrigin(backend, before, ops[n], g);
        TokenOrigin(backend, before, ops[n], h);
        NewTokenIsNew(backend, ops, g);
        NewTokenIsNew(backend, ops, h);
      }
    }
  }

  /** After an operation a session has the token it had, or is the one session
      the operation gave its own token to. */
  lemma TokenOrigin(backend: Backend, m: Sessions, op: Op, h: string)
    requires h in Do(backend, m, op)
    ensures var csrf := Do(backend, m, op)[h].csrf;
            || (h in m && csrf == m[h].csrf && !(op.Insert? && op.session.tokenHash == h))
            || (Introduced(op) == Some(csrf) && ((op.Insert? && op.session.tokenHash == h)
                                                 || ((op.SetElection? || op.SetPaperStream?) && op.hash == h)))
  {}

  /** A token introduced last is not in the store yet. */
  lemma NewTokenIsNew(backend: Backend, ops: seq<Op>, h: string)
    requires ops != [] && TokensFresh(ops)
    requires TokensTraced(Run(backend, map[], ops[..|ops| - 1]), ops[..|ops| - 1])
    ensures var before := Run(backend, map[], ops[..|ops| - 1]);
            h in before ==> Introduced(ops[|ops| - 1]) != Some(before[h].csrf)
  {
    var n := |ops| - 1;
    var before := Run(backend, map[], ops[..n]);
    if h in before {
      var i :| 0 <= i < n && Introduced(ops[..n][i]) == Some(before[h].csrf);
      assert Introduced(ops[i]) == Some(before[h].csrf);
    }
  }

  /** The token is in no session and was introduced already. */
  predicate Retired(m: Sessions, ops: seq<Op>, csrf: string) {
    && (forall h :: h in m ==> m[h].csrf != csrf)
    && exists i :: 0 <= i < |ops| && Introduced(ops[i]) == Some(csrf)
  }

  lemma {:induction false} RetiredStaysRetired(backend: Backend, ops: seq<Op>, n: nat, csrf: string)
    requires n <= |ops| && TokensFresh(ops) && Retired(Run(backend, map[], ops[..n]), ops[..n], csrf)
    ensures Retired(Run(backend, map[], ops), ops, csrf)
    decreases |ops|
  {
    if n == |ops| {
      assert ops[..n] == ops;
    } else {
      var k := |ops| - 1;
      assert ops[..k][..n] == ops[..n];
      RetiredStaysRetired(backend, ops[..k], n, csrf);
      var i :| 0 <= i < k && Introduced(ops[..k][i]) == Some(csrf);
      assert Introduced(ops[i]) == Some(csrf);
      var before, after := Run(backend, map[], ops[..k]), Run(backend, map[], ops);
      forall h | h in after ensures after[h].csrf != csrf {
        TokenOrigin(backend, before, ops[k], h);
      }
    }
  }

  lemma SwitchRetiresToken(backend: Backend, ops: seq<Op>)
    requires ops != [] && TokensFresh(ops)
    requires Switches(Run(backend, map[], ops[..|ops| - 1]), ops[|ops| - 1])
    ensures Retired(Run(backend, map[], ops), ops, ops[|ops| - 1].csrf)
  {
    var n := |ops| - 1;
    var before, after, op := Run(backend, map[], ops[..n]), Run(backend, map[], ops), ops[n];
    StoredTokensAreTraced(backend, ops[..n]);
    NewTokenIsNew(backend, ops, op.hash);
    var i :| 0 <= i < n && Introduced(ops[..n][i]) == Some(before[op.hash].csrf);
    assert Introduced(ops[i]) == Some(op.csrf);
    forall h | h in after ensures after[h].csrf != op.csrf {
      TokenOrigin(backend, before, op, h);
    }
  }

  /** At most one switch of a run succeeds per CSRF token: the second of two
      tabs that rendered the same form loses. */
  lemma OneSwitchPerToken(backend: Backend, ops: seq<Op>, i: nat, j: nat)
    requires TokensFresh(ops) && i < j < |ops|
    requires Switches(Run(backend, map[], ops[..i]), ops[i])
    requires Switches(Run(backend, map[], ops[..j]), ops[j])
    ensures ops[i].csrf != ops[j].csrf
  {
    assert ops[..i + 1][..i] == ops[..i];
    assert ops[..j][..i + 1] == ops[..i + 1];
    SwitchRetiresToken(backend, ops[..i + 1]);
    RetiredStaysRetired(backend, ops[..j], i + 1, ops[i].csrf);
  }

  // ----- a session holds what the last switch put there

  /** When a switch succeeds: the session is there, the token is the current one and
      the role fits. */
  lemma SwitchAnswersDone(backend: Backend, m: Sessions, op: Op)
    requires op.SetElection? || op.SetPaperStream?
    ensures Answer(backend, m, op) == Done
            <==> && op.hash in m && m[op.hash].csrf == op.csrf
                 && if op.SetElection? then m[op.hash].user.PoliticalGroup? else m[op.hash].user.Committee?
  {}

  /** The context of the last switch of `h` that was answered as done since its last
      insert, or that of the insert. */
  function LastContext(backend: Backend, ops: seq<Op>, h: string): Option<nat> {
    if ops == [] then None
    else
      var n := |ops| - 1;
      var done := Answer(backend, Run(backend, map[], ops[..n]), ops[n]) == Done;
      match ops[n]
      case Insert(s) => if s.tokenHash == h then Context(s.user) else LastContext(backend, ops[..n], h)
      case SetElection(x, _, election, _) =>
        if x == h && done then Some(election) else LastContext(backend, ops[..n], h)
      case SetPaperStream(x, _, stream, _) =>
        if x == h && done then stream else LastContext(backend, ops[..n], h)
      case _ => LastContext(backend, ops[..n], h)
  }

  lemma ContextStep(backend: Backend, m: Sessions, op: Op, h: string)
    requires h in Do(backend, m, op)
    ensures var done := Answer(backend, m, op) == Done;
            Context(Do(backend, m, op)[h].user)
            == match op
               case Insert(s) => if s.tokenHash == h then Context(s.user) else Context(m[h].user)
               case SetElection(x, _, election, _) => if x == h && done then Some(election) else Context(m[h].user)
               case SetPaperStream(x, _, stream, _) => if x == h && done then stream else Context(m[h].user)
               case _ => Context(m[h].user)
  {}

  /** On either backend, whatever happens in between, a session that is there has
      the context of its last successful switch, or the one it was inserted with. */
  lemma {:induction false} ContextIsThatOfTheLastSwitch(backend: Backend, ops: seq<Op>, h: string)
    requires h in Run(backend, map[], ops)
    ensures Context(Run(backend, map[], ops)[h].user) == LastContext(backend, ops, h)
  {
    if ops == [] {
    } else {
      hide Do, Answer, Context;
      var n := |ops| - 1;
      var before := Run(backend, map[], ops[..n]);
      ContextStep(backend, before, ops[n], h);
      if h in before {
        ContextIsThatOfTheLastSwitch(backend, ops[..n], h);
      } else {
        OnlyInsertsBring(backend, before, ops[n], h);
      }
    }
  }

  lemma OnlyInsertsBring(backend: Backend, m: Sessions, op: Op, h: string)
    requires h !in m && h in Do(backend, m, op)
    ensures op.Insert? && op.session.tokenHash == h
  {}

  // ----- the two backends

  /** In its last second a session is expired, yet not past the table's cutoff. */
  predicate InLastSecond(s: Session, now: Instant) {
    now <= Deadline(s) < now + SECOND
  }

  /** Cleanup on either backend removes only sessions a lookup would refuse;
      the memory removes all of those, the table all but those in their last
      second. */
  lemma CleanupRemovesOnlyRefused(m: Sessions, h: string, now: Instant)
    requires h in m
    ensures h !in Do(Memory, m, Cleanup(now)) <==> Answer(Memory, m, Get(h, now)) == Missing
    ensures h !in Do(Database, m, Cleanup(now))
            <==> Answer(Database, m, Get(h, now)) == Missing && !InLastSecond(m[h], now)
  {
    LiveMeansASecondLeft(m[h], now);
  }

  lemma CleanupsAgree(m: Sessions, now: Instant)
    ensures Do(Memory, m, Cleanup(now)) == Do(Database, m, Cleanup(now))
            <==> forall h :: h in m ==> !InLastSecond(m[h], now)
  {
    var a, b := Do(Memory, m, Cleanup(now)), Do(Database, m, Cleanup(now));
    forall h | h in m ensures (h in a <==> h in b) <==> !InLastSecond(m[h], now) {
      CleanupRemovesOnlyRefused(m, h, now);
    }
    if a == b {
      forall h | h in m ensures !InLastSecond(m[h], now) {
        assert h in a <==> h in b;
      }
    }
  }

  /** No step of the run tells the backends apart. */
  predicate Comparable(m: Sessions, ops: seq<Op>) {
    forall i :: 0 <= i < |ops| ==> StepComparable(Run(Memory, m, ops[..i]), ops[i])
  }

  /** An insert brings a new session, or one with the creation time and the agent
      of the one it replaces; a cleanup meets no session in its last second. */
  predicate StepComparable(m: Sessions, op: Op) {
    && (op.Insert? && op.session.tokenHash in m ==>
          && op.session.createdAt == m[op.session.tokenHash].createdAt
          && op.session.agentHash == m[op.session.tokenHash].agentHash)
    && (op.Cleanup? ==> forall h :: h in m ==> !InLastSecond(m[h], op.now))
  }

  lemma StepsAgree(m: Sessions, op: Op)
    ensures Do(Memory, m, op) == Do(Database, m, op) <==> StepComparable(m, op)
  {
    if op.Cleanup? {
      CleanupsAgree(m, op.now);
    } else if op.Insert? {
      InsertsAgree(m, op.session);
    }
  }

  lemma InsertsAgree(m: Sessions, s: Session)
    ensures Do(Memory, m, Insert(s)) == Do(Database, m, Insert(s)) <==> StepComparable(m, Insert(s))
  {
    var h := s.tokenHash;
    var a, b := Do(Memory, m, Insert(s)), Do(Database, m, Insert(s));
    assert a == b <==> a[h] == b[h];
  }

  /** The backends hold the same sessions after every prefix of the run. */
  predicate SameThroughout(m: Sessions, ops: seq<Op>) {
    forall i :: 0 <= i <= |ops| ==> Run(Memory, m, ops[..i]) == Run(Database, m, ops[..i])
  }

  lemma RunStep(backend: Backend, m: Sessions, ops: seq<Op>, i: nat)
    requires i < |ops|
    ensures Run(backend, m, ops[..i + 1]) == Do(backend, Run(backend, m, ops[..i]), ops[i])
  {
    assert ops[..i + 1][..i] == ops[..i];
  }

  lemma {:induction false} SameUpTo(m: Sessions, ops: seq<Op>, n: nat)
    requires n <= |ops| && Comparable(m, ops)
    ensures Run(Memory, m, ops[..n]) == Run(Database, m, ops[..n])
  {
    if n == 0 {
    } else {
      hide Do, Run, StepComparable;
      SameUpTo(m, ops, n - 1);
      RunStep(Memory, m, ops, n - 1);
      RunStep(Database, m, ops, n - 1);
      StepsAgree(Run(Memory, m, ops[..n - 1]), ops[n - 1]);
    }
  }

  /** The backends hold the same sessions throughout a run exactly when no step
      tells them apart: they part at the first cleanup that meets a session in
      its last second, or insert over a session of another creation. */
  lemma BackendsAgree(m: Sessions, ops: seq<Op>)
    ensures SameThroughout(m, ops) <==> Comparable(m, ops)
  {
    hide Do, Run, StepComparable;
    if Comparable(m, ops) {
      forall i | 0 <= i <= |ops| ensures Run(Memory, m, ops[..i]) == Run(Database, m, ops[..i]) {
        SameUpTo(m, ops, i);
      }
    }
    if SameThroughout(m, ops) {
      forall i | 0 <= i < |ops| ensures StepComparable(Run(Memory, m, ops[..i]), ops[i]) {
        RunStep(Memory, m, ops, i);
        RunStep(Database, m, ops, i);
        assert Run(Memory, m, ops[..i + 1]) == Run(Database, m, ops[..i + 1]);
        StepsAgree(Run(Memory, m, ops[..i]), ops[i]);
      }
    }
  }

  /** And their answers differ only in the error for the wrong role. */
  lemma AnswersDifferOnlyForWrongRole(m: Sessions, op: Op)
    ensures Answer(Memory, m, op) != Answer(Database, m, op)
            <==> && (op.SetElection? || op.SetPaperStream?)
                 && TokenMatches(m, op) && Switched(m[op.hash], op).None?
    ensures Answer(Memory, m, op) != Answer(Database, m, op)
            ==> Answer(Memory, m, op) == Unauthorised && Answer(Database, m, op) == Conflict
  {}

  /** The condition on cleanups is needed: a session cleaned up in its last
      second is gone from memory, but the table keeps it and a request already
      under way revives it. */
  lemma LastSecondShows(s: Session, now: Instant)
    requires InLastSecond(s, now) && IdleDeadline(s) < AbsoluteDeadline(s) - IDLE_TIMEOUT
    ensures var h := s.tokenHash;
            var ops := [Cleanup(now), Touch(h, now)];
            && Answer(Memory, Run(Memory, map[h := s], ops), Get(h, now)) == Missing
            && Answer(Database, Run(Database, map[h := s], ops), Get(h, now)).Found?
  {
    var h := s.tokenHash;
    var m := map[h := s];
    var ops := [Cleanup(now), Touch(h, now)];
    assert ops[..1] == [Cleanup(now)] && ops[..1][..0] == [];
    CleanupRemovesOnlyRefused(m, h, now);
    LiveMeansASecondLeft(s, now);
    LiveMeansASecondLeft(s.(lastActivity := now), now);
    assert Run(Memory, m, ops[..1]) == Do(Memory, m, Cleanup(now));
    assert Run(Database, m, ops[..1]) == Do(Database, m, Cleanup(now));
  }
}
