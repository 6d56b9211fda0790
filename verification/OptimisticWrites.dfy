/**
 The optimistic write protocol of `PgStore::update`, as interleaved atomic steps.

 One append-only log is shared by any number of processes. A process keeps a
 projection, which is a prefix of the log and is represented by its length. A
 handle remembers the last event id it has seen; clones of a handle share that
 cell, so several writes can be in flight on one handle. A write runs through
 load, rate check, collection check, commit, apply and publish, and every other
 write may run any number of its own steps in between. It may also be dropped
 at any point.
 */
module OptimisticWrites {
  import opened Sequences
  import opened RateLimits

  datatype Phase = Loaded | RateChecked | Checked | Appended | Applied

  /** A write in flight. `now` is the clock reading of the rate check. */
  datatype Write = Write(handle: nat, event: PgEvent, expected: nat, now: Instant, phase: Phase)

  datatype Handle = Handle(process: nat, limits: RateLimits, seen: nat)

  datatype State = State(
    log: seq<Entry>,
    clock: Instant,
    projections: map<nat, nat>,
    handles: map<nat, Handle>,
    writes: map<nat, Write>)

  datatype Step =
    | Tick(elapsed: nat)
    | Start(process: nat)                               // an empty projection
    | CatchUp(process: nat, events: nat)                // replay some missing events
    | Own(handle: nat, process: nat, limits: RateLimits)
    | Load(write: nat, handle: nat, event: PgEvent)
    | CheckRate(write: nat)
    | CheckCollections(write: nat)
    | Commit(write: nat)
    | ApplyEvent(write: nat)
    | Publish(write: nat)
    | Drop(write: nat)

  function LastEventId(log: seq<Entry>): nat {
    if log == [] then 0 else log[|log| - 1].eventId
  }

  /** The guard under which `update_if_unchanged` appends. */
  predicate Accepts(s: State, step: Step) {
    && step.Commit?
    && step.write in s.writes
    && s.writes[step.write].phase == Checked
    && s.writes[step.write].expected == LastEventId(s.log)
  }

  /** The projection a write's handle reads from. */
  function Projected(s: State, w: Write): (r: Option<seq<Entry>>) {
    if w.handle in s.handles && s.handles[w.handle].process in s.projections
       && s.projections[s.handles[w.handle].process] <= |s.log|
    then Some(s.log[..s.projections[s.handles[w.handle].process]])
    else None
  }

  /** A step that is not enabled leaves the state alone. */
  function Do(s: State, step: Step): State {
    match step
    case Tick(elapsed) => s.(clock := s.clock + elapsed)
    case Start(p) =>
      if p in s.projections then s else s.(projections := s.projections[p := 0])
    case CatchUp(p, n) =>
      if p in s.projections && s.projections[p] + n <= |s.log|
      then s.(projections := s.projections[p := s.projections[p] + n]) else s
    case Own(h, p, limits) =>
      if h !in s.handles && p in s.projections && s.projections[p] <= |s.log|
      then s.(handles := s.handles[h := Handle(p, limits, LastEventId(s.log[..s.projections[p]]))]) else s
    case Load(w, h, event) =>
      if w !in s.writes && h in s.handles
      then s.(writes := s.writes[w := Write(h, event, s.handles[h].seen, s.clock, Loaded)]) else s
    case Drop(w) => s.(writes := s.writes - {w})
    case CheckRate(w) => if w in s.writes then DoCheckRate(s, w) else s
    case CheckCollections(w) => if w in s.writes then DoCheckCollections(s, w) else s
    case Commit(w) => if w in s.writes then DoCommit(s, w) else s
    case ApplyEvent(w) => if w in s.writes then DoApply(s, w) else s
    case Publish(w) => if w in s.writes then DoPublish(s, w) else s
  }

  function DoCheckRate(s: State, w: nat): State
    requires w in s.writes
  {
    var write := s.writes[w];
    match Projected(s, write)
    case None => s
    case Some(data) =>
      if write.phase != Loaded then s
      else if CheckLimits(data, s.handles[write.handle].limits, s.clock, write.event.DownloadFile?).Some?
      then s.(writes := s.writes - {w})
      else s.(writes := s.writes[w := write.(now := s.clock, phase := RateChecked)])
  }

  function DoCheckCollections(s: State, w: nat): State
    requires w in s.writes
  {
    var write := s.writes[w];
    match Projected(s, write)
    case None => s
    case Some(data) =>
      if write.phase != RateChecked then s
      else if CheckCollectionLimits(data, write.event).Some? then s.(writes := s.writes - {w})
      else s.(writes := s.writes[w := write.(phase := Checked)])
  }

  /** Catches the projection up, then appends or refuses with a conflict. */
  function DoCommit(s: State, w: nat): State
    requires w in s.writes
  {
    var write := s.writes[w];
    if write.phase != Checked || write.handle !in s.handles then s
    else
      var caughtUp := s.(projections := s.projections[s.handles[write.handle].process := |s.log|]);
      if write.expected != LastEventId(s.log) then caughtUp.(writes := s.writes - {w})
      else caughtUp.(
           log := s.log + [Entry(LastEventId(s.log) + 1, write.event, s.clock)],
           writes := s.writes[w := write.(phase := Appended)])
  }

  /** A no-op when the projection is at or past the event already. */
  function DoApply(s: State, w: nat): State
    requires w in s.writes
  {
    var write := s.writes[w];
    if write.phase != Appended || write.handle !in s.handles
       || s.handles[write.handle].process !in s.projections then s
    else
      var p := s.handles[write.handle].process;
      var applied := if s.projections[p] >= write.expected + 1 then s.projections[p] else write.expected + 1;
      s.(projections := s.projections[p := applied], writes := s.writes[w := write.(phase := Applied)])
  }

  function DoPublish(s: State, w: nat): State
    requires w in s.writes
  {
    var write := s.writes[w];
    if write.phase != Applied || write.handle !in s.handles then s
    else
      s.(handles := s.handles[write.handle := s.handles[write.handle].(seen := write.expected + 1)],
         writes := s.writes - {w})
  }

  function Run(s: State, steps: seq<Step>): State {
    if steps == [] then s else Do(Run(s, steps[..|steps| - 1]), steps[|steps| - 1])
  }

  // ----- what every step keeps

  predicate GoodLog(log: seq<Entry>, clock: Instant) {
    && (forall i :: 0 <= i < |log| ==> log[i].eventId == i + 1)
    && Sorted(log)
    && (forall i :: 0 <= i < |log| ==> MIN_UTC < log[i].createdAt <= clock)
  }

  predicate GoodHandle(s: State, h: nat)
    requires h in s.handles
  {
    && s.handles[h].process in s.projections
    && s.handles[h].seen <= s.projections[s.handles[h].process]
  }

  predicate Landed(w: Write) {
    w.phase == Appended || w.phase == Applied
  }

  predicate GoodWrite(s: State, write: Write) {
    && write.handle in s.handles
    && GoodHandle(s, write.handle)
    && write.expected <= s.handles[write.handle].seen
    && write.now <= s.clock
    && (write.phase == RateChecked || write.phase == Checked ==> RatePassed(s, write))
    && (write.phase == Checked ==> CollectionsPassed(s, write))
    && (Landed(write) ==> write.expected == s.handles[write.handle].seen && write.expected < |s.log|)
    && (write.phase == Applied ==> write.expected < s.projections[s.handles[write.handle].process])
  }

  /** If the stream has not moved, the rate check passed on the whole log. */
  predicate RatePassed(s: State, write: Write)
    requires write.handle in s.handles
  {
    write.expected == |s.log| ==>
      CheckLimits(s.log, s.handles[write.handle].limits, write.now, write.event.DownloadFile?).None?
  }

  predicate CollectionsPassed(s: State, write: Write) {
    write.expected == |s.log| ==> CheckCollectionLimits(s.log, write.event).None?
  }

  predicate Inv(s: State) {
    && GoodLog(s.log, s.clock)
    && MIN_UTC < s.clock
    && (forall p :: p in s.projections ==> s.projections[p] <= |s.log|)
    && (forall h :: h in s.handles ==> GoodHandle(s, h))
    && (forall w :: w in s.writes ==> GoodWrite(s, s.writes[w]))
    && (forall v, w :: v in s.writes && w in s.writes && v != w && Landed(s.writes[v]) && Landed(s.writes[w])
         ==> s.writes[v].expected != s.writes[w].expected)
  }

  lemma LastEventIdIsLength(log: seq<Entry>, clock: Instant)
    requires GoodLog(log, clock)
    ensures LastEventId(log) == |log|
    ensures forall n :: 0 <= n <= |log| ==> LastEventId(log[..n]) == n
  {}

  lemma StepKeepsInv(s: State, step: Step)
    requires Inv(s)
    ensures Inv(Do(s, step))
  {
    hide Inv, DoCommit, DoApply, DoPublish, DoCheckRate, DoCheckCollections;
    match step
    case CheckRate(w) => if w in s.writes { CheckRateKeepsInv(s, w); }
    case CheckCollections(w) => if w in s.writes { CheckCollectionsKeepsInv(s, w); }
    case Commit(w) => if w in s.writes { CommitKeepsInv(s, w); }
    case ApplyEvent(w) => if w in s.writes { ApplyKeepsInv(s, w); }
    case Publish(w) => if w in s.writes { PublishKeepsInv(s, w); }
    case Own(_, _, _) => OwnKeepsInv(s, step);
    case Load(_, _, _) => LoadKeepsInv(s, step);
    case Drop(w) => DropKeepsInv(s, w);
    case _ => ProjectionStepsKeepInv(s, step);
  }

  /** A write stays good while the log stands still and nothing it reads from
      moves back. */
  lemma WriteStaysGood(s: State, t: State, write: Write)
    requires GoodWrite(s, write)
    requires t.log == s.log && s.clock <= t.clock
    requires write.handle in t.handles && t.handles[write.handle] == s.handles[write.handle]
    requires var p := s.handles[write.handle].process; p in t.projections && s.projections[p] <= t.projections[p]
    ensures GoodWrite(t, write)
  {}

  lemma ProjectionStepsKeepInv(s: State, step: Step)
    requires Inv(s)
    requires step.Tick? || step.Start? || step.CatchUp?
    ensures Inv(Do(s, step))
  {
    hide Inv, DoCommit, DoApply, DoPublish, DoCheckRate, DoCheckCollections;
    QuietKeepsInv(s, Do(s, step));
  }

  /** Nothing happens but time passing and projections catching up. */
  lemma QuietKeepsInv(s: State, t: State)
    requires Inv(s)
    requires t.log == s.log && s.clock <= t.clock && t.handles == s.handles && t.writes == s.writes
    requires forall p :: p in s.projections ==> p in t.projections && s.projections[p] <= t.projections[p]
    requires forall p :: p in t.projections ==>
               t.projections[p] <= |s.log| || (p in s.projections && t.projections[p] == s.projections[p])
    ensures Inv(t)
  {
    hide CheckLimits, CheckCollectionLimits;
    forall w | w in t.writes ensures GoodWrite(t, t.writes[w]) {
      WriteStaysGood(s, t, s.writes[w]);
    }
  }

  lemma OwnKeepsInv(s: State, step: Step)
    requires Inv(s) && step.Own?
    ensures Inv(Do(s, step))
  {
    hide CheckLimits, CheckCollectionLimits;
    LastEventIdIsLength(s.log, s.clock);
    var t := Do(s, step);
    forall h | h in t.handles ensures GoodHandle(t, h) {
      assert h in s.handles ==> GoodHandle(s, h);
    }
    forall w | w in t.writes ensures GoodWrite(t, t.writes[w]) {
      WriteStaysGood(s, t, s.writes[w]);
    }
  }

  lemma LoadKeepsInv(s: State, step: Step)
    requires Inv(s) && step.Load?
    ensures Inv(Do(s, step))
  {
    hide CheckLimits, CheckCollectionLimits;
    var t := Do(s, step);
    forall h | h in t.handles ensures GoodHandle(t, h) {
      assert GoodHandle(s, h);
    }
    forall w | w in t.writes ensures GoodWrite(t, t.writes[w]) {
      if w in s.writes {
        WriteStaysGood(s, t, s.writes[w]);
      }
    }
  }

  lemma DropKeepsInv(s: State, w: nat)
    requires Inv(s)
    ensures Inv(s.(writes := s.writes - {w}))
  {
    hide CheckLimits, CheckCollectionLimits;
    var t := s.(writes := s.writes - {w});
    forall h | h in t.handles ensures GoodHandle(t, h) {
      assert GoodHandle(s, h);
    }
    forall v | v in t.writes ensures GoodWrite(t, t.writes[v]) {
      WriteStaysGood(s, t, s.writes[v]);
    }
  }

  lemma MovingOnKeepsInv(s: State, w: nat, write: Write)
    requires Inv(s) && w in s.writes
    requires !Landed(write) && GoodWrite(s, write)
    ensures Inv(s.(writes := s.writes[w := write]))
  {
    hide CheckLimits, CheckCollectionLimits;
    var t := s.(writes := s.writes[w := write]);
    forall h | h in t.handles ensures GoodHandle(t, h) {
      assert GoodHandle(s, h);
    }
    forall v | v in t.writes ensures GoodWrite(t, t.writes[v]) {
      assert GoodWrite(s, t.writes[v]);
    }
  }

  lemma WritesAreGood(s: State, w: nat)
    requires Inv(s) && w in s.writes
    ensures GoodWrite(s, s.writes[w])
  {}

  /** The projection lies between the expected event and the end of the log,
      so if the log ends at the expected event a check saw all of it. */
  lemma CheckSeesTheWholeLog(s: State, write: Write)
    requires Inv(s) && GoodWrite(s, write)
    ensures Projected(s, write).Some?
    ensures write.expected == |s.log| ==> Projected(s, write).value == s.log
  {}

  lemma CheckRateKeepsInv(s: State, w: nat)
    requires Inv(s) && w in s.writes
    ensures Inv(DoCheckRate(s, w))
  {
    CheckSeesTheWholeLog(s, s.writes[w]);
    var t := DoCheckRate(s, w);
    if w !in t.writes {
      DropKeepsInv(s, w);
    } else if t != s {
      MovingOnKeepsInv(s, w, s.writes[w].(now := s.clock, phase := RateChecked));
    }
  }

  lemma CheckCollectionsKeepsInv(s: State, w: nat)
    requires Inv(s) && w in s.writes
    ensures Inv(DoCheckCollections(s, w))
  {
    CheckSeesTheWholeLog(s, s.writes[w]);
    var t := DoCheckCollections(s, w);
    if w !in t.writes {
      DropKeepsInv(s, w);
    } else if t != s {
      MovingOnKeepsInv(s, w, s.writes[w].(phase := Checked));
    }
  }

  lemma CommitKeepsInv(s: State, w: nat)
    requires Inv(s) && w in s.writes
    ensures Inv(DoCommit(s, w))
  {
    var write := s.writes[w];
    WritesAreGood(s, w);
    hide Inv, RatePassed, CollectionsPassed;
    if write.phase == Checked {
      if write.expected == LastEventId(s.log) {
        AcceptedCommitKeepsInv(s, w);
      } else {
        RefusedCommitKeepsInv(s, w);
      }
    }
  }

  lemma RefusedCommitKeepsInv(s: State, w: nat)
    requires Inv(s) && w in s.writes && s.writes[w].phase == Checked && s.writes[w].handle in s.handles
    requires s.writes[w].expected != LastEventId(s.log)
    ensures Inv(DoCommit(s, w))
  {
    var p := s.handles[s.writes[w].handle].process;
    var caughtUp := s.(projections := s.projections[p := |s.log|]);
    QuietKeepsInv(s, caughtUp);
    hide Inv;
    DropKeepsInv(caughtUp, w);
  }

  lemma AcceptedCommitKeepsInv(s: State, w: nat)
    requires Inv(s) && Accepts(s, Commit(w))
    ensures Inv(DoCommit(s, w))
  {
    hide CheckLimits, CheckCollectionLimits;
    LastEventIdIsLength(s.log, s.clock);
    var t := DoCommit(s, w);
    forall h | h in t.handles ensures GoodHandle(t, h) {
      assert GoodHandle(s, h);
    }
    forall v | v in t.writes ensures GoodWrite(t, t.writes[v]) {
      assert GoodWrite(s, s.writes[v]);
    }
  }

  lemma ApplyKeepsInv(s: State, w: nat)
    requires Inv(s) && w in s.writes
    ensures Inv(DoApply(s, w))
  {
    hide CheckLimits, CheckCollectionLimits;
    var t := DoApply(s, w);
    forall h | h in t.handles ensures GoodHandle(t, h) {
      assert GoodHandle(s, h);
    }
    forall v | v in t.writes ensures GoodWrite(t, t.writes[v]) {
      assert GoodWrite(s, s.writes[v]);
    }
  }

  /** At most one landed write per handle, so publishing never moves the seen
      cell under another landed write. */
  lemma PublishKeepsInv(s: State, w: nat)
    requires Inv(s) && w in s.writes
    ensures Inv(DoPublish(s, w))
  {
    hide CheckLimits, CheckCollectionLimits;
    var t := DoPublish(s, w);
    forall h | h in t.handles ensures GoodHandle(t, h) {
      assert GoodHandle(s, h);
    }
    forall v | v in t.writes ensures GoodWrite(t, t.writes[v]) {
      assert GoodWrite(s, s.writes[v]);
    }
  }

  // ----- whole runs

  /** A stream with some history and no process, handle or write yet. */
  predicate Initial(s: State) {
    && GoodLog(s.log, s.clock) && MIN_UTC < s.clock
    && s.projections == map[] && s.handles == map[] && s.writes == map[]
  }

  lemma {:induction false} RunKeepsInv(s0: State, steps: seq<Step>)
    requires Initial(s0)
    ensures Inv(Run(s0, steps))
  {
    if steps == [] {
    } else {
      RunKeepsInv(s0, steps[..|steps| - 1]);
      StepKeepsInv(Run(s0, steps[..|steps| - 1]), steps[|steps| - 1]);
    }
  }

  /** In every interleaving, an accepted event passed its rate and collection
      checks against exactly the log it is appended to, at a clock reading no
      later than its own timestamp, and gets the next event id. */
  lemma AcceptedPassedOnItsOwnLog(s0: State, steps: seq<Step>, step: Step)
    requires Initial(s0) && Accepts(Run(s0, steps), step)
    ensures var s := Run(s0, steps);
            var w := s.writes[step.write];
            && w.handle in s.handles
            && CheckLimits(s.log, s.handles[w.handle].limits, w.now, w.event.DownloadFile?).None?
            && CheckCollectionLimits(s.log, w.event).None?
            && w.now <= s.clock
            && Do(s, step).log == s.log + [Entry(|s.log| + 1, w.event, s.clock)]
  {
    hide CheckLimits, CheckCollectionLimits;
    var s := Run(s0, steps);
    RunKeepsInv(s0, steps);
    LastEventIdIsLength(s.log, s.clock);
    assert GoodWrite(s, s.writes[step.write]);
  }

  /** The events of the accepted writes of a run, in order of acceptance. */
  function AcceptedEvents(s0: State, steps: seq<Step>): seq<PgEvent> {
    if steps == [] then []
    else
      var before, step := Run(s0, steps[..|steps| - 1]), steps[|steps| - 1];
      AcceptedEvents(s0, steps[..|steps| - 1])
      + if Accepts(before, step) then [before.writes[step.write].event] else []
  }

  function Payloads(log: seq<Entry>): seq<PgEvent> {
    seq(|log|, i requires 0 <= i < |log| => log[i].payload)
  }

  /** Nothing is lost, reordered or written twice: the log is the history
      followed by the accepted events. */
  lemma {:induction false} LogIsHistoryPlusAccepted(s0: State, steps: seq<Step>)
    requires Initial(s0)
    ensures Payloads(Run(s0, steps).log) == Payloads(s0.log) + AcceptedEvents(s0, steps)
  {
    if steps == [] {
    } else {
      var n := |steps| - 1;
      LogIsHistoryPlusAccepted(s0, steps[..n]);
      RunKeepsInv(s0, steps[..n]);
      var before := Run(s0, steps[..n]);
      OnlyAcceptedStepsAppend(before, steps[n]);
      if Accepts(before, steps[n]) {
        PayloadsOfAppend(before.log, Do(before, steps[n]).log[|before.log|]);
      }
    }
  }

  lemma PayloadsOfAppend(log: seq<Entry>, e: Entry)
    ensures Payloads(log + [e]) == Payloads(log) + [e.payload]
  {}

  lemma OnlyAcceptedStepsAppend(s: State, step: Step)
    requires Inv(s)
    ensures Do(s, step).log == s.log
            + if Accepts(s, step) then [Entry(|s.log| + 1, s.writes[step.write].event, s.clock)] else []
  {
    hide CheckLimits, CheckCollectionLimits;
    LastEventIdIsLength(s.log, s.clock);
    if step.Commit? && step.write in s.writes {
      assert GoodWrite(s, s.writes[step.write]);
    }
  }

  /** `seen_event_id` never exceeds the last event id of the stream. */
  lemma SeenNeverPassesTheLog(s0: State, steps: seq<Step>, h: nat)
    requires Initial(s0) && h in Run(s0, steps).handles
    ensures Run(s0, steps).handles[h].seen <= LastEventId(Run(s0, steps).log)
  {
    RunKeepsInv(s0, steps);
    var s := Run(s0, steps);
    LastEventIdIsLength(s.log, s.clock);
    assert GoodHandle(s, h);
  }

  /** Neither the log nor any seen cell ever moves back, however the clones of
      a handle interleave their stores. */
  lemma {:induction false} NothingMovesBack(s0: State, steps: seq<Step>, n: nat, h: nat)
    requires Initial(s0) && n <= |steps|
    ensures var s, t := Run(s0, steps[..n]), Run(s0, steps);
            && s.log <= t.log
            && (h in s.handles ==> h in t.handles && s.handles[h].seen <= t.handles[h].seen)
    decreases |steps|
  {
    if n == |steps| {
      assert steps[..n] == steps;
    } else {
      var m := |steps| - 1;
      assert steps[..m][..n] == steps[..n];
      NothingMovesBack(s0, steps[..m], n, h);
      RunKeepsInv(s0, steps[..m]);
      StepMovesForward(Run(s0, steps[..m]), steps[m], h);
    }
  }

  lemma RunStep(s0: State, steps: seq<Step>, i: nat)
    requires i < |steps|
    ensures Run(s0, steps[..i + 1]) == Do(Run(s0, steps[..i]), steps[i])
  {
    assert steps[..i + 1][..i] == steps[..i];
  }

  lemma StepMovesForward(s: State, step: Step, h: nat)
    requires Inv(s)
    ensures s.log <= Do(s, step).log
    ensures h in s.handles ==> h in Do(s, step).handles && s.handles[h].seen <= Do(s, step).handles[h].seen
  {
    hide CheckLimits, CheckCollectionLimits;
    OnlyAcceptedStepsAppend(s, step);
    if step.Publish? && step.write in s.writes {
      assert GoodWrite(s, s.writes[step.write]);
    }
  }

  /** No two accepted writes of a run were decided on the same predecessor. */
  lemma AcceptedWritesHaveDistinctPredecessors(s0: State, steps: seq<Step>, i: nat, j: nat)
    requires Initial(s0) && i < j < |steps|
    requires Accepts(Run(s0, steps[..i]), steps[i])
    requires Accepts(Run(s0, steps[..j]), steps[j])
    ensures Run(s0, steps[..i]).writes[steps[i].write].expected
            < Run(s0, steps[..j]).writes[steps[j].write].expected
  {
    hide Run, Do, CheckLimits, CheckCollectionLimits;
    var before, later := Run(s0, steps[..i]), Run(s0, steps[..j]);
    RunKeepsInv(s0, steps[..i]);
    RunKeepsInv(s0, steps[..j]);
    LastEventIdIsLength(before.log, before.clock);
    LastEventIdIsLength(later.log, later.clock);
    OnlyAcceptedStepsAppend(before, steps[i]);
    assert steps[..j][..i + 1] == steps[..i + 1];
    RunStep(s0, steps, i);
    NothingMovesBack(s0, steps[..j], i + 1, 0);
  }

  /** A handle the stream has moved past, with nothing of its own landed. */
  predicate Stale(s: State, h: nat) {
    && h in s.handles
    && s.handles[h].seen < |s.log|
    && forall w :: w in s.writes && s.writes[w].handle == h ==> !Landed(s.writes[w])
  }

  lemma StaysStale(s: State, h: nat, step: Step)
    requires Inv(s) && Stale(s, h)
    ensures Stale(Do(s, step), h)
  {
    hide CheckLimits, CheckCollectionLimits;
    LastEventIdIsLength(s.log, s.clock);
    StepMovesForward(s, step, h);
    if (step.Commit? || step.Publish?) && step.write in s.writes {
      assert GoodWrite(s, s.writes[step.write]);
    }
  }

  /** A handle that fell behind never writes again: whatever the steps, none
      of its writes is accepted, so a decision made on an outdated snapshot is
      never persisted. */
  lemma {:induction false} StaleHandleNeverWrites(s: State, h: nat, steps: seq<Step>, step: Step)
    requires Inv(s) && Stale(s, h)
    ensures Inv(Run(s, steps)) && Stale(Run(s, steps), h)
    ensures Accepts(Run(s, steps), step) ==> Run(s, steps).writes[step.write].handle != h
  {
    if steps == [] {
    } else {
      var n := |steps| - 1;
      StaleHandleNeverWrites(s, h, steps[..n], step);
      StepKeepsInv(Run(s, steps[..n]), steps[n]);
      StaysStale(Run(s, steps[..n]), h, steps[n]);
    }
    var t := Run(s, steps);
    LastEventIdIsLength(t.log, t.clock);
    if Accepts(t, step) {
      assert GoodWrite(t, t.writes[step.write]);
    }
  }

  /** A process that starts, catches up and takes a handle is up to date. */
  lemma OwnedHandleIsCurrent(s: State, p: nat, h: nat, limits: RateLimits)
    requires Inv(s) && p !in s.projections && h !in s.handles
    ensures var t := Do(Do(Do(s, Start(p)), CatchUp(p, |s.log|)), Own(h, p, limits));
            && t.log == s.log && t.clock == s.clock && t.writes == s.writes
            && t.projections == s.projections[p := |s.log|]
            && t.handles == s.handles[h := Handle(p, limits, |s.log|)]
  {
    hide Inv;
    LogIsGood(s);
    LastEventIdIsLength(s.log, s.clock);
    var t := Do(Do(s, Start(p)), CatchUp(p, |s.log|));
    assert t.projections == s.projections[p := |s.log|];
    assert s.log[..|s.log|] == s.log;
  }

  lemma LogIsGood(s: State)
    requires Inv(s)
    ensures GoodLog(s.log, s.clock)
  {}

  /** A handle that was taken of a projection remembers exactly its last event. */
  lemma OwnRemembersTheProjection(s: State, p: nat, h: nat, limits: RateLimits)
    requires Inv(s) && p in s.projections && h !in s.handles
    ensures var t := Do(s, Own(h, p, limits));
            h in t.handles && t.handles[h] == Handle(p, limits, s.projections[p])
  {
    LastEventIdIsLength(s.log, s.clock);
  }

  /** A check that refuses ends the write and changes nothing else. */
  lemma RefusedCheckEndsTheWrite(s: State, w: nat)
    requires Inv(s) && w in s.writes
    ensures var write := s.writes[w];
            var data := s.log[..s.projections[s.handles[write.handle].process]];
            && (write.phase == Loaded && CheckLimits(data, s.handles[write.handle].limits, s.clock,
                                                     write.event.DownloadFile?).Some?
                ==> Do(s, CheckRate(w)) == s.(writes := s.writes - {w}))
            && (write.phase == RateChecked && CheckCollectionLimits(data, write.event).Some?
                ==> Do(s, CheckCollections(w)) == s.(writes := s.writes - {w}))
  {
    hide CheckLimits, CheckCollectionLimits;
    WritesAreGood(s, w);
    CheckSeesTheWholeLog(s, s.writes[w]);
  }

  /** A commit on a stream that has moved appends nothing, catches the projection up
      and ends the write; every other write and every handle stays. */
  lemma RefusedCommitCatchesUp(s: State, w: nat)
    requires Inv(s) && w in s.writes && s.writes[w].phase == Checked && s.writes[w].expected != |s.log|
    ensures var t := Do(s, Commit(w));
            && t.log == s.log && t.handles == s.handles && t.writes == s.writes - {w}
            && t.projections == s.projections[s.handles[s.writes[w].handle].process := |s.log|]
  {
    WritesAreGood(s, w);
    LogIsGood(s);
    hide Inv;
    LastEventIdIsLength(s.log, s.clock);
  }

  /** The protocol is not vacuous: an up-to-date handle whose checks pass lands
      its write when nothing intervenes, and is up to date again. */
  lemma SoloWriteLands(s: State, w: nat, h: nat, event: PgEvent)
    requires Inv(s) && w !in s.writes && h in s.handles && s.handles[h].seen == |s.log|
    requires CheckLimits(s.log, s.handles[h].limits, s.clock, event.DownloadFile?).None?
    requires CheckCollectionLimits(s.log, event).None?
    ensures var t := Run(s, [Load(w, h, event), CheckRate(w), CheckCollections(w),
                             Commit(w), ApplyEvent(w), Publish(w)]);
            && t.log == s.log + [Entry(|s.log| + 1, event, s.clock)]
            && h in t.handles && t.handles[h].seen == |t.log|
  {
    hide CheckLimits, CheckCollectionLimits, Inv, Do, Run;
    var steps := [Load(w, h, event), CheckRate(w), CheckCollections(w), Commit(w), ApplyEvent(w), Publish(w)];
    RunOfSix(s, steps);
    SoloWritePasses(s, w, h, event);
    var s3 := Do(Do(Do(s, steps[0]), steps[1]), steps[2]);
    SoloCommitLands(s3, w, h);
  }

  lemma SoloWritePasses(s: State, w: nat, h: nat, event: PgEvent)
    requires Inv(s) && w !in s.writes && h in s.handles && s.handles[h].seen == |s.log|
    requires CheckLimits(s.log, s.handles[h].limits, s.clock, event.DownloadFile?).None?
    requires CheckCollectionLimits(s.log, event).None?
    ensures var t := Do(Do(Do(s, Load(w, h, event)), CheckRate(w)), CheckCollections(w));
            && Inv(t) && t.log == s.log && t.clock == s.clock
            && w in t.writes && t.writes[w] == Write(h, event, |s.log|, s.clock, Checked)
  {
    hide CheckLimits, CheckCollectionLimits, Inv;
    var s1 := Do(s, Load(w, h, event));
    StepKeepsInv(s, Load(w, h, event));
    WritesAreGood(s1, w);
    CheckSeesTheWholeLog(s1, s1.writes[w]);
    var s2 := Do(s1, CheckRate(w));
    StepKeepsInv(s1, CheckRate(w));
    WritesAreGood(s2, w);
    CheckSeesTheWholeLog(s2, s2.writes[w]);
    StepKeepsInv(s2, CheckCollections(w));
  }

  lemma SoloCommitLands(s: State, w: nat, h: nat)
    requires Inv(s) && w in s.writes && s.writes[w].handle == h
    requires s.writes[w].phase == Checked && s.writes[w].expected == |s.log|
    ensures var t := Do(Do(Do(s, Commit(w)), ApplyEvent(w)), Publish(w));
            && t.log == s.log + [Entry(|s.log| + 1, s.writes[w].event, s.clock)]
            && h in t.handles && t.handles[h].seen == |t.log|
  {
    hide CheckLimits, CheckCollectionLimits, Projected;
    LastEventIdIsLength(s.log, s.clock);
    assert GoodWrite(s, s.writes[w]);
    var s1 := Do(s, Commit(w));
    assert s1.handles == s.handles && w in s1.writes && s1.writes[w] == s.writes[w].(phase := Appended);
    var s2 := Do(s1, ApplyEvent(w));
    assert s2.handles == s.handles && w in s2.writes && s2.writes[w] == s.writes[w].(phase := Applied);
  }

  lemma RunOfSix(s: State, steps: seq<Step>)
    requires |steps| == 6
    ensures Run(s, steps) == Do(Do(Do(Do(Do(Do(s, steps[0]), steps[1]), steps[2]), steps[3]), steps[4]), steps[5])
  {
    assert steps[..5][..4] == steps[..4];
    assert steps[..4][..3] == steps[..3];
    assert steps[..3][..2] == steps[..2];
    assert steps[..2][..1] == steps[..1];
    assert Run(s, steps[..0]) == s;
    assert Run(s, steps[..1]) == Do(s, steps[0]);
    assert Run(s, steps[..2]) == Do(Run(s, steps[..1]), steps[1]);
    assert Run(s, steps[..3]) == Do(Run(s, steps[..2]), steps[2]);
    assert Run(s, steps[..4]) == Do(Run(s, steps[..3]), steps[3]);
    assert Run(s, steps[..5]) == Do(Run(s, steps[..4]), steps[4]);
  }

  // ----- the limits over whole runs

  predicate KeepsLimits(s: State, limits: RateLimits) {
    && (forall h :: h in s.handles ==> s.handles[h].limits == limits)
    && (limits.eventsTotal > 0 ==> |s.log| <= limits.eventsTotal)
    && Spaced(s.log, limits.events)
    && Spaced(Filter(s.log, IsDownload), limits.downloads)
    && WithinCaps(Replay(s.log))
  }

  lemma StepKeepsLimits(s: State, step: Step, limits: RateLimits)
    requires Inv(s) && KeepsLimits(s, limits)
    requires step.Own? ==> step.limits == limits
    ensures KeepsLimits(Do(s, step), limits)
  {
    hide Filter, Spaced, InWindow, Replay, CheckCollectionLimits;
    OnlyAcceptedStepsAppend(s, step);
    StepKeepsHandleLimits(s, step, limits);
    hide Do;
    if Accepts(s, step) {
      LastEventIdIsLength(s.log, s.clock);
      assert GoodWrite(s, s.writes[step.write]);
      var w := s.writes[step.write];
      var entry := Entry(|s.log| + 1, w.event, s.clock);
      AcceptedKeepsSpacing(s.log, entry, limits.events, w.now);
      DownloadsKeepSpacing(s.log, entry, limits.downloads, w.now);
      AcceptedKeepsCaps(s.log, entry);
    } else {
      assert Do(s, step).log == s.log;
    }
  }

  lemma StepKeepsHandleLimits(s: State, step: Step, limits: RateLimits)
    requires forall h :: h in s.handles ==> s.handles[h].limits == limits
    requires step.Own? ==> step.limits == limits
    ensures forall h :: h in Do(s, step).handles ==> Do(s, step).handles[h].limits == limits
  {}

  lemma {:induction false} RunKeepsLimits(s0: State, steps: seq<Step>, limits: RateLimits)
    requires Initial(s0) && s0.log == []
    requires forall i :: 0 <= i < |steps| && steps[i].Own? ==> steps[i].limits == limits
    ensures KeepsLimits(Run(s0, steps), limits)
  {
    if steps == [] {
    } else {
      var n := |steps| - 1;
      RunKeepsLimits(s0, steps[..n], limits);
      RunKeepsInv(s0, steps[..n]);
      StepKeepsLimits(Run(s0, steps[..n]), steps[n], limits);
    }
  }

  /** Over every run from an empty stream with one set of limits: no half-open
      window holds more events or downloads than its maximum, the log never
      exceeds its absolute cap, and no collection exceeds its cap. */
  lemma LimitsHoldInEveryRun(s0: State, steps: seq<Step>, limits: RateLimits, to: Instant)
    requires Initial(s0) && s0.log == []
    requires forall i :: 0 <= i < |steps| && steps[i].Own? ==> steps[i].limits == limits
    ensures var log := Run(s0, steps).log;
            && (limits.events.max > 0 ==>
                  |Within(log, to - limits.events.window, to)| <= limits.events.max)
            && (limits.downloads.max > 0 ==>
                  |Within(Filter(log, IsDownload), to - limits.downloads.window, to)| <= limits.downloads.max)
            && (limits.eventsTotal > 0 ==> |log| <= limits.eventsTotal)
            && |Replay(log).persons| <= MAX_PERSONS
            && |Replay(log).lists| <= MAX_CANDIDATE_LISTS
            && |Replay(log).substitutes| <= MAX_SUBSTITUTE_SUBMITTERS
  {
    RunKeepsInv(s0, steps);
    RunKeepsLimits(s0, steps, limits);
    var log := Run(s0, steps).log;
    if limits.events.max > 0 {
      SpacedBoundsEveryWindow(log, limits.events, to);
    }
    if limits.downloads.max > 0 {
      DownloadsKeepOrder(log);
      SpacedBoundsEveryWindow(Filter(log, IsDownload), limits.downloads, to);
    }
  }
}
