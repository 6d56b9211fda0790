/**
 The single-use store of outstanding login requests: the in-memory store with
 lazy sweeping, and its Postgres twin as table statements. Clock readings are
 milliseconds and arguments of the operations; under a lock the readings of
 concurrent calls need not be in order.
 */
module PendingRequests {
  import opened Sequences

  const TTL := 900_000
  const SWEEP_THRESHOLD := 1024

  /** An entry registered at `created` has outlived the TTL; a reading before
      the registration saturates to age zero. */
  predicate IsExpired(created: nat, now: nat) {
    (if now >= created then now - created else 0) >= TTL
  }

  datatype Pending = Pending(entries: map<string, nat>, sweepAt: nat) {
    predicate IsLarge() {
      |entries| >= Max(sweepAt, SWEEP_THRESHOLD)
    }

    function SweepIfLarge(now: nat): Pending {
      if IsLarge() then
        var swept := Swept(entries, now);
        Pending(swept, |swept| * 2)
      else this
    }

    /** How many entries a call's sweep visits. */
    function Visited(): nat {
      if IsLarge() then |entries| else 0
    }
  }

  function Swept(entries: map<string, nat>, now: nat): map<string, nat> {
    map id | id in entries && !IsExpired(entries[id], now) :: entries[id]
  }

  datatype Op = Register(id: string, now: nat) | Consume(id: string, now: nat)

  const EMPTY := Pending(map[], 0)

  function After(p: Pending, op: Op): Pending {
    var q := p.SweepIfLarge(op.now);
    match op
    case Register(id, now) => q.(entries := q.entries[id := now])
    case Consume(id, _) => q.(entries := q.entries - {id})
  }

  /** Whether the operation is a consume that is granted. */
  predicate Grants(p: Pending, op: Op) {
    var q := p.SweepIfLarge(op.now);
    op.Consume? && op.id in q.entries && !IsExpired(q.entries[op.id], op.now)
  }

  /** Entries other than that of `id` are kept as they are, or gone because they
      had expired; none is new. */
  predicate LosesOnlyExpired(before: map<string, nat>, after: map<string, nat>, id: string, now: nat) {
    && (forall other :: other in after && other != id ==> other in before && after[other] == before[other])
    && (forall other :: other in before && other !in after && other != id ==> IsExpired(before[other], now))
  }

  class PendingStore {
    var entries: map<string, nat>
    var sweepAt: nat

    ghost function State(): Pending
      reads this
    {
      Pending(entries, sweepAt)
    }

    constructor ()
      ensures State() == EMPTY
    {
      entries, sweepAt := map[], 0;
    }

    method SweepIfLarge(now: nat)
      modifies this
      ensures State() == old(State()).SweepIfLarge(now)
      ensures entries.Keys <= old(entries).Keys
      ensures forall id :: id in entries ==> entries[id] == old(entries)[id]
      ensures forall id :: id in old(entries) && id !in entries ==> IsExpired(old(entries)[id], now)
      ensures |old(entries)| >= 1024 && |old(entries)| >= old(sweepAt) ==>
                sweepAt == 2 * |entries| && forall id :: id in entries ==> !IsExpired(entries[id], now)
      ensures !(|old(entries)| >= 1024 && |old(entries)| >= old(sweepAt)) ==> State() == old(State())
    {
      if |entries| >= Max(sweepAt, SWEEP_THRESHOLD) {
        entries := Swept(entries, now);
        sweepAt := |entries| * 2;
      }
    }

    method RegisterRequest(id: string, now: nat)
      modifies this
      ensures State() == After(old(State()), Register(id, now))
      ensures id in entries && entries[id] == now
      ensures LosesOnlyExpired(old(entries), entries, id, now)
    {
      SweepIfLarge(now);
      entries := entries[id := now];
    }

    /** The entry is removed whether or not it is granted. */
    method ConsumeIfPending(id: string, now: nat) returns (granted: bool)
      modifies this
      ensures State() == After(old(State()), Consume(id, now))
      ensures granted == Grants(old(State()), Consume(id, now))
      ensures id !in entries && LosesOnlyExpired(old(entries), entries, id, now)
      ensures granted <==> id in old(entries) && !IsExpired(old(entries)[id], now)
    {
      SweepIfLarge(now);
      granted := id in entries && !IsExpired(entries[id], now);
      entries := entries - {id};
    }
  }

  // ----- runs

  function Run(ops: seq<Op>): Pending {
    if ops == [] then EMPTY else After(Run(ops[..|ops| - 1]), ops[|ops| - 1])
  }

  function Registrations(ops: seq<Op>, id: string): nat {
    if ops == [] then 0
    else
      var n := |ops| - 1;
      Registrations(ops[..n], id) + if ops[n].Register? && ops[n].id == id then 1 else 0
  }

  /** How often `id` is granted in a run. */
  function Granted(ops: seq<Op>, id: string): nat {
    if ops == [] then 0
    else
      var n := |ops| - 1;
      Granted(ops[..n], id) + if ops[n].id == id && Grants(Run(ops[..n]), ops[n]) then 1 else 0
  }

  /** Single use, whatever the clock: an id is never granted more often than it
      was registered. */
  lemma {:induction false} GrantedAtMostRegistered(ops: seq<Op>, id: string)
    ensures Granted(ops, id) + (if id in Run(ops).entries then 1 else 0) <= Registrations(ops, id)
  {
    if ops == [] {
    } else {
      GrantedAtMostRegistered(ops[..|ops| - 1], id);
    }
  }

  /** The store that never sweeps: an id is outstanding since its last
      registration unless it was presented after that. */
  function Outstanding(ops: seq<Op>, id: string): Option<nat> {
    if ops == [] then None
    else
      var n := |ops| - 1;
      if ops[n].id != id then Outstanding(ops[..n], id)
      else match ops[n]
        case Register(_, now) => Some(now)
        case Consume(_, _) => None
  }

  lemma {:induction false} EntriesAreOutstanding(ops: seq<Op>, id: string)
    ensures id in Run(ops).entries ==> Outstanding(ops, id) == Some(Run(ops).entries[id])
  {
    if ops == [] {
    } else {
      EntriesAreOutstanding(ops[..|ops| - 1], id);
    }
  }

  /** In every lock order a grant goes to an outstanding id younger than the
      TTL. */
  lemma GrantedIsFresh(ops: seq<Op>, id: string, now: nat)
    requires Grants(Run(ops), Consume(id, now))
    ensures Outstanding(ops, id).Some? && now - Outstanding(ops, id).value < TTL
  {
    EntriesAreOutstanding(ops, id);
  }

  /** A sweep has removed the outstanding registration: since that registration
      a call on another id met a large map at a reading by which it had
      expired. */
  predicate SweptSince(ops: seq<Op>, id: string) {
    if ops == [] then false
    else
      var n := |ops| - 1;
      var before, since := ops[..n], Outstanding(ops[..n], id);
      && ops[n].id != id
      && (SweptSince(before, id)
          || (since.Some? && Run(before).IsLarge() && IsExpired(since.value, ops[n].now)))
  }

  /** The store holds exactly the outstanding registrations no sweep has met. */
  lemma {:induction false} HeldUnlessSwept(ops: seq<Op>, id: string)
    ensures id in Run(ops).entries <==> Outstanding(ops, id).Some? && !SweptSince(ops, id)
  {
    if ops == [] {
    } else {
      var n := |ops| - 1;
      HeldUnlessSwept(ops[..n], id);
      EntriesAreOutstanding(ops[..n], id);
    }
  }

  /** What every run answers, whatever the clock: an id is granted exactly when
      the store that never sweeps would grant it and no sweep has met it. */
  lemma GrantedUnlessSwept(ops: seq<Op>, id: string, now: nat)
    ensures Grants(Run(ops), Consume(id, now))
            <==> && Outstanding(ops, id).Some? && now - Outstanding(ops, id).value < TTL
                 && !SweptSince(ops, id)
  {
    HeldUnlessSwept(ops, id);
    EntriesAreOutstanding(ops, id);
  }

  /** A sweep at a reading no later than `now` took nothing that is still
      younger than the TTL at `now`. */
  lemma {:induction false} SweptIsExpired(ops: seq<Op>, id: string, now: nat)
    requires SweptSince(ops, id) && forall i :: 0 <= i < |ops| ==> ops[i].now <= now
    ensures Outstanding(ops, id).Some? && IsExpired(Outstanding(ops, id).value, now)
  {
    var n := |ops| - 1;
    if SweptSince(ops[..n], id) {
      SweptIsExpired(ops[..n], id, now);
    }
  }

  /** With no reading later than that of the consume, when sweeps run never
      shows: an id is granted exactly when the store that never sweeps would
      grant it. */
  lemma SweepingIsInvisible(ops: seq<Op>, id: string, now: nat)
    requires forall i :: 0 <= i < |ops| ==> ops[i].now <= now
    ensures Grants(Run(ops), Consume(id, now))
            <==> Outstanding(ops, id).Some? && now - Outstanding(ops, id).value < TTL
  {
    GrantedUnlessSwept(ops, id, now);
    if SweptSince(ops, id) {
      SweptIsExpired(ops, id, now);
    }
  }

  // ----- a reading that loses the race for the lock does show

  function Name(k: nat): string {
    seq(k, _ => 'a')
  }

  function Burst(n: nat): seq<Op> {
    seq(n, k requires 0 <= k < n => Register(Name(k), 0))
  }

  lemma NewEntry(p: Pending, id: string, now: nat)
    requires !p.IsLarge() && id !in p.entries
    ensures var q := After(p, Register(id, now));
            q.sweepAt == p.sweepAt && q.entries == p.entries[id := now] && |q.entries| == |p.entries| + 1
  {
    assert p.entries[id := now].Keys == p.entries.Keys + {id};
  }

  lemma BurstStep(n: nat)
    requires n > 0
    ensures Run(Burst(n)) == After(Run(Burst(n - 1)), Register(Name(n - 1), 0))
  {
    assert Burst(n)[..n - 1] == Burst(n - 1);
  }

  lemma {:induction false} BurstFills(n: nat)
    requires n <= SWEEP_THRESHOLD
    ensures var p := Run(Burst(n));
            && p.sweepAt == 0 && |p.entries| == n
            && forall id :: id in p.entries ==> p.entries[id] == 0 && |id| < n
  {
    if n == 0 {
      assert Run(Burst(0)) == EMPTY;
    } else {
      hide Run, After, Burst;
      BurstFills(n - 1);
      BurstStep(n);
      NewEntry(Run(Burst(n - 1)), Name(n - 1), 0);
    }
  }

  /** The clock is read before the lock is taken. A call that read the TTL sweeps
      first; the consume that read one millisecond less comes after it, and is
      refused though its id is younger than the TTL. */
  lemma RaceForTheLockShows()
    ensures var ops := Burst(SWEEP_THRESHOLD) + [Consume("b", TTL)];
            && Outstanding(ops, Name(0)) == Some(0) && !IsExpired(0, TTL - 1)
            && SweptSince(ops, Name(0))
            && !Grants(Run(ops), Consume(Name(0), TTL - 1))
  {
    hide Run, Burst;
    var burst := Burst(SWEEP_THRESHOLD);
    var ops := burst + [Consume("b", TTL)];
    BurstFills(SWEEP_THRESHOLD);
    BurstOutstanding(SWEEP_THRESHOLD);
    assert ops[..|ops| - 1] == burst;
    GrantedUnlessSwept(ops, Name(0), TTL - 1);
  }

  lemma {:induction false} BurstOutstanding(n: nat)
    requires n > 0
    ensures Outstanding(Burst(n), Name(0)) == Some(0)
  {
    assert Burst(n)[..n - 1] == Burst(n - 1);
    if n == 1 {
    } else {
      BurstOutstanding(n - 1);
      assert |Name(n - 1)| != |Name(0)|;
    }
  }

  // ----- the cost of sweeping

  function TotalRegistrations(ops: seq<Op>): nat {
    if ops == [] then 0
    else TotalRegistrations(ops[..|ops| - 1]) + if ops[|ops| - 1].Register? then 1 else 0
  }

  /** All entries visited by all sweeps of a run. */
  function TotalVisited(ops: seq<Op>): nat {
    if ops == [] then 0
    else TotalVisited(ops[..|ops| - 1]) + Run(ops[..|ops| - 1]).Visited()
  }

  function Potential(p: Pending): nat {
    if 2 * |p.entries| >= p.sweepAt then 2 * |p.entries| - p.sweepAt else 0
  }

  lemma {:induction false} SubmapSize(a: map<string, nat>, b: map<string, nat>)
    requires a.Keys <= b.Keys
    ensures |a| <= |b|
  {
    if a.Keys == {} {
    } else {
      var id :| id in a.Keys;
      assert (a - {id}).Keys == a.Keys - {id} && (b - {id}).Keys == b.Keys - {id};
      SubmapSize(a - {id}, b - {id});
    }
  }

  lemma InsertSize(entries: map<string, nat>, id: string, now: nat)
    ensures |entries[id := now]| <= |entries| + 1
  {
    assert entries[id := now].Keys == entries.Keys + {id};
  }

  /** A call pays for its sweep out of the potential, which only registering
      raises, by at most two. */
  lemma StepIsPaid(p: Pending, op: Op)
    ensures p.Visited() + Potential(After(p, op)) <= Potential(p) + if op.Register? then 2 else 0
    ensures |p.entries| <= Max(p.sweepAt, SWEEP_THRESHOLD) ==>
              |After(p, op).entries| <= Max(After(p, op).sweepAt, SWEEP_THRESHOLD)
  {
    var q := p.SweepIfLarge(op.now);
    match op
    case Register(id, now) => InsertSize(q.entries, id, now);
    case Consume(id, now) => SubmapSize(q.entries - {id}, q.entries);
  }

  /** Sweeps are amortised: over every run they visit at most two entries per
      registration, and the map never outgrows its next sweep. */
  lemma {:induction false} SweepsAreAmortised(ops: seq<Op>)
    ensures TotalVisited(ops) + Potential(Run(ops)) <= 2 * TotalRegistrations(ops)
    ensures |Run(ops).entries| <= Max(Run(ops).sweepAt, SWEEP_THRESHOLD)
  {
    if ops == [] {
    } else {
      SweepsAreAmortised(ops[..|ops| - 1]);
      StepIsPaid(Run(ops[..|ops| - 1]), ops[|ops| - 1]);
    }
  }

  // ----- the Postgres twin

  /** The statements: registering is a delete of expired rows followed by an
      upsert, not in one transaction; consuming is a single delete. */
  datatype Statement =
    | DeleteExpired(now: nat)
    | Upsert(id: string, now: nat)
    | DeleteReturning(id: string, now: nat)

  /** A row older than the cutoff `now - TTL`. */
  predicate BeforeCutoff(created: nat, now: nat) {
    created < now - TTL
  }

  function Execute(rows: map<string, nat>, statement: Statement): map<string, nat> {
    match statement
    case DeleteExpired(now) => map id | id in rows && !BeforeCutoff(rows[id], now) :: rows[id]
    case Upsert(id, now) => rows[id := now]
    case DeleteReturning(id, now) => if id in rows && !BeforeCutoff(rows[id], now) then rows - {id} else rows
  }

  predicate Returns(rows: map<string, nat>, statement: Statement) {
    && statement.DeleteReturning?
    && statement.id in rows && !BeforeCutoff(rows[statement.id], statement.now)
  }

  class PendingTable {
    var rows: map<string, nat>

    constructor ()
      ensures rows == map[]
    {
      rows := map[];
    }

    /** Two readings of the clock, one per statement. */
    method RegisterRequest(id: string, cutoff: nat, now: nat)
      modifies this
      ensures rows == Execute(Execute(old(rows), DeleteExpired(cutoff)), Upsert(id, now))
      ensures id in rows && rows[id] == now
      ensures forall other :: other in rows && other != id ==> other in old(rows) && rows[other] == old(rows)[other]
      ensures forall other :: other in old(rows) && other !in rows ==> BeforeCutoff(old(rows)[other], cutoff)
    {
      rows := map other | other in rows && rows[other] >= cutoff - TTL :: rows[other];
      rows := rows[id := now];
    }

    method ConsumeIfPending(id: string, now: nat) returns (granted: bool)
      modifies this
      ensures rows == Execute(old(rows), DeleteReturning(id, now))
      ensures granted == Returns(old(rows), DeleteReturning(id, now))
      ensures rows - {id} == old(rows) - {id}
      ensures granted ==> id !in rows
      ensures !granted ==> rows == old(rows)
    {
      granted := id in rows && rows[id] >= now - TTL;
      if granted {
        rows := rows - {id};
      }
    }
  }

  function Table(statements: seq<Statement>): map<string, nat> {
    if statements == [] then map[]
    else Execute(Table(statements[..|statements| - 1]), statements[|statements| - 1])
  }

  /** The operations a sequence of statements amounts to. */
  function Ops(statements: seq<Statement>): seq<Op> {
    if statements == [] then []
    else
      var n := |statements| - 1;
      Ops(statements[..n])
      + match statements[n]
        case DeleteExpired(_) => []
        case Upsert(id, now) => [Register(id, now)]
        case DeleteReturning(id, now) => [Consume(id, now)]
  }

  predicate InOrder(statements: seq<Statement>) {
    forall i, j :: 0 <= i < j < |statements| ==> statements[i].now <= statements[j].now
  }

  /** A row is the outstanding registration, or too old to be granted again;
      an outstanding registration without a row is too old. */
  predicate RowFits(rows: map<string, nat>, since: Option<nat>, id: string, now: nat) {
    && (id in rows ==> since == Some(rows[id]) || BeforeCutoff(rows[id], now))
    && (since.Some? ==> (id in rows && rows[id] == since.value) || BeforeCutoff(since.value, now))
  }

  /** What a statement makes of the outstanding registration of an id. */
  function Since(since: Option<nat>, id: string, statement: Statement): Option<nat> {
    match statement
    case DeleteExpired(_) => since
    case Upsert(x, now) => if x == id then Some(now) else since
    case DeleteReturning(x, _) => if x == id then None else since
  }

  lemma RowStaysFitting(rows: map<string, nat>, since: Option<nat>, id: string, statement: Statement, now: nat)
    requires RowFits(rows, since, id, statement.now) && statement.now <= now
    ensures RowFits(Execute(rows, statement), Since(since, id, statement), id, now)
  {}

  lemma OutstandingAppend(ops: seq<Op>, op: Op, id: string)
    ensures Outstanding(ops + [op], id)
            == if op.id != id then Outstanding(ops, id) else if op.Register? then Some(op.now) else None
  {
    assert (ops + [op])[..|ops|] == ops;
  }

  lemma OutstandingStep(statements: seq<Statement>, id: string)
    requires statements != []
    ensures var n := |statements| - 1;
            Outstanding(Ops(statements), id) == Since(Outstanding(Ops(statements[..n]), id), id, statements[n])
  {
    hide Outstanding;
    var n := |statements| - 1;
    var before := Ops(statements[..n]);
    match statements[n]
    case DeleteExpired(_) => assert Ops(statements) == before;
    case Upsert(x, t) => OutstandingAppend(before, Register(x, t), id);
    case DeleteReturning(x, t) => OutstandingAppend(before, Consume(x, t), id);
  }

  lemma {:induction false} RowsAreRight(statements: seq<Statement>, id: string, now: nat)
    requires InOrder(statements) && forall i :: 0 <= i < |statements| ==> statements[i].now <= now
    ensures RowFits(Table(statements), Outstanding(Ops(statements), id), id, now)
  {
    if statements == [] {
    } else {
      hide RowFits, Outstanding, Ops, Execute, Since;
      var n := |statements| - 1;
      RowsAreRight(statements[..n], id, statements[n].now);
      OutstandingStep(statements, id);
      RowStaysFitting(Table(statements[..n]), Outstanding(Ops(statements[..n]), id), id, statements[n], now);
    }
  }

  // ----- the table, whatever the clock

  function LastUpsert(statements: seq<Statement>, id: string): Option<nat> {
    if statements == [] then None
    else
      var n := |statements| - 1;
      match statements[n]
      case Upsert(x, now) => if x == id then Some(now) else LastUpsert(statements[..n], id)
      case _ => LastUpsert(statements[..n], id)
  }

  /** Since the last upsert of `id` its row was deleted: it was past the cutoff of
      a delete of expired rows, or it was presented while it was not. */
  predicate GoneSince(statements: seq<Statement>, id: string) {
    if statements == [] then false
    else
      var n := |statements| - 1;
      var since := LastUpsert(statements[..n], id);
      match statements[n]
      case Upsert(x, _) => x != id && GoneSince(statements[..n], id)
      case DeleteExpired(now) =>
        GoneSince(statements[..n], id) || (since.Some? && BeforeCutoff(since.value, now))
      case DeleteReturning(x, now) =>
        GoneSince(statements[..n], id) || (x == id && since.Some? && !BeforeCutoff(since.value, now))
  }

  lemma {:induction false} RowIsLastUpsert(statements: seq<Statement>, id: string)
    ensures id in Table(statements) <==> LastUpsert(statements, id).Some? && !GoneSince(statements, id)
    ensures id in Table(statements) ==> LastUpsert(statements, id) == Some(Table(statements)[id])
  {
    if statements == [] {
    } else {
      RowIsLastUpsert(statements[..|statements| - 1], id);
    }
  }

  /** What the table answers to every sequence of statements, whatever the clock:
      an id is granted exactly when its last registration is not past the cutoff
      and was not deleted since. */
  lemma TableGrantsUnlessGone(statements: seq<Statement>, id: string, now: nat)
    ensures Returns(Table(statements), DeleteReturning(id, now))
            <==> && LastUpsert(statements, id).Some? && now - LastUpsert(statements, id).value <= TTL
                 && !GoneSince(statements, id)
  {
    RowIsLastUpsert(statements, id);
  }

  /** A refused row stays: presented once too late, it is granted to a call with an
      earlier reading. The memory removes what it refuses, and refuses both. */
  lemma RefusedRowIsGrantedLater(id: string)
    ensures var statements := [Upsert(id, 0), DeleteReturning(id, TTL + 1)];
            && !Returns(Table(statements[..1]), statements[1])
            && Returns(Table(statements), DeleteReturning(id, TTL - 1))
            && !Grants(Run(Ops(statements)), Consume(id, TTL - 1))
  {
    var statements := [Upsert(id, 0), DeleteReturning(id, TTL + 1)];
    assert statements[..1] == [Upsert(id, 0)] && statements[..1][..0] == [];
    TableGrantsUnlessGone(statements[..1], id, TTL + 1);
    TableGrantsUnlessGone(statements, id, TTL - 1);
    OutstandingStep(statements, id);
    GrantedUnlessSwept(Ops(statements), id, TTL - 1);
  }

  // ----- the table, with readings in order

  /** With readings in order, the table grants an id exactly when it is
      outstanding and its age does not exceed the TTL, wherever the deletes of
      expired rows fall. */
  lemma TableGrantsOutstanding(statements: seq<Statement>, id: string, now: nat)
    requires InOrder(statements + [DeleteReturning(id, now)])
    ensures var since := Outstanding(Ops(statements), id);
            Returns(Table(statements), DeleteReturning(id, now)) <==> since.Some? && now - since.value <= TTL
  {
    var all := statements + [DeleteReturning(id, now)];
    assert forall i :: 0 <= i < |statements| ==> all[i] == statements[i];
    assert all[|statements|].now == now;
    RowsAreRight(statements, id, now);
  }

  lemma {:induction false} OpsReadNoLater(statements: seq<Statement>, now: nat)
    requires forall i :: 0 <= i < |statements| ==> statements[i].now <= now
    ensures forall i :: 0 <= i < |Ops(statements)| ==> Ops(statements)[i].now <= now
  {
    if statements == [] {
    } else {
      OpsReadNoLater(statements[..|statements| - 1], now);
    }
  }

  /** The two stores give the same answer to the same history, except for an id
      presented at exactly the TTL: the table grants it, the memory does not. */
  lemma StoresAgreeButAtTheLimit(statements: seq<Statement>, id: string, now: nat)
    requires InOrder(statements + [DeleteReturning(id, now)])
    ensures var since := Outstanding(Ops(statements), id);
            var table := Returns(Table(statements), DeleteReturning(id, now));
            var memory := Grants(Run(Ops(statements)), Consume(id, now));
            && (table != memory <==> since.Some? && now - since.value == TTL)
            && (memory ==> table)
  {
    var all := statements + [DeleteReturning(id, now)];
    assert forall i :: 0 <= i < |statements| ==> all[i] == statements[i];
    assert all[|statements|].now == now;
    OpsReadNoLater(statements, now);
    TableGrantsOutstanding(statements, id, now);
    SweepingIsInvisible(Ops(statements), id, now);
  }

  /** And at that age they do differ: registered at zero, presented at the TTL. */
  lemma LimitShows(id: string)
    ensures var statements := [Upsert(id, 0)];
            && Returns(Table(statements), DeleteReturning(id, TTL))
            && !Grants(Run(Ops(statements)), Consume(id, TTL))
  {
    var statements := [Upsert(id, 0)];
    assert statements[..0] == [] && Ops(statements) == [Register(id, 0)];
    StoresAgreeButAtTheLimit(statements, id, TTL);
  }

  function TableGranted(statements: seq<Statement>, id: string): nat {
    if statements == [] then 0
    else
      var n := |statements| - 1;
      TableGranted(statements[..n], id)
      + if !statements[n].DeleteExpired? && statements[n].id == id && Returns(Table(statements[..n]), statements[n])
        then 1 else 0
  }

  /** Single use holds for the table too, however the statements of concurrent
      callers interleave and whatever the clock. */
  lemma {:induction false} TableGrantsAtMostRegistered(statements: seq<Statement>, id: string)
    ensures TableGranted(statements, id) + (if id in Table(statements) then 1 else 0)
            <= Registrations(Ops(statements), id)
  {
    hide Registrations;
    if statements == [] {
    } else {
      var n := |statements| - 1;
      TableGrantsAtMostRegistered(statements[..n], id);
      var ops := Ops(statements[..n]);
      match statements[n]
      case DeleteExpired(_) => assert Ops(statements) == ops;
      case Upsert(x, t) => RegistrationsAppend(ops, Register(x, t), id);
      case DeleteReturning(x, t) => RegistrationsAppend(ops, Consume(x, t), id);
    }
  }

  lemma RegistrationsAppend(ops: seq<Op>, op: Op, id: string)
    ensures Registrations(ops + [op], id)
            == Registrations(ops, id) + if op.Register? && op.id == id then 1 else 0
  {
    assert (ops + [op])[..|ops|] == ops;
  }
}
