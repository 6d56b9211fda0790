/**
 Per-stream limits and what one event does to the three capped collections.
 Instants are nanoseconds since the epoch.
 */
module RateLimits {
  import opened Sequences

  type Instant = int

  /** The earliest representable instant: midnight on 1 January of year -262143. */
  const MIN_UTC: Instant := -8_334_601_228_800_000_000_000

  const MAX_PERSONS := 1000
  const MAX_CANDIDATE_LISTS := 25
  const MAX_SUBSTITUTE_SUBMITTERS := 20

  datatype RateLimit = RateLimit(max: nat, window: nat) {
    /** Whether `count` occurrences fill the limit; a zero maximum disables it. */
    predicate IsReached(count: nat) {
      max > 0 && count >= max
    }

    /** Start of the window ending at `now`, saturating at the earliest instant. */
    function WindowStart(now: Instant): Instant {
      if now - window < MIN_UTC then MIN_UTC else now - window
    }
  }

  datatype RateLimits = RateLimits(downloads: RateLimit, events: RateLimit, eventsTotal: nat)

  /** Events of a stream. Only what the limits look at is kept: identifiers of
      inserted and deleted entities. `Other` stands for every event that
      inserts and deletes nothing. */
  datatype PgEvent =
    | CreatePerson(person: nat)
    | CreatePersonPersonalData(person: nat)
    | DeletePerson(person: nat)
    | ImportCandidates(createdPersons: seq<nat>)
    | CreateCandidateList(list: nat)
    | DeleteCandidateList(list: nat)
    | CreateSubstituteSubmitter(submitter: nat)
    | DeleteSubstituteSubmitter(submitter: nat)
    | DownloadFile
    | Other
  {
    function CreatedPersonCount(): nat {
      match this
      case CreatePerson(_) => 1
      case CreatePersonPersonalData(_) => 1
      case ImportCandidates(created) => |created|
      case _ => 0
    }
  }

  datatype Entry = Entry(eventId: nat, payload: PgEvent, createdAt: Instant)

  predicate IsDownload(e: Entry) {
    e.payload.DownloadFile?
  }

  /** The capped collections of the projection: two keyed maps, of which the
      keys matter here, and a list. */
  datatype Collections = Collections(persons: set<nat>, lists: set<nat>, substitutes: seq<nat>)

  function OtherThan(s: nat): nat -> bool {
    x => x != s
  }

  function Apply(c: Collections, e: PgEvent): Collections {
    match e
    case CreatePerson(p) => c.(persons := c.persons + {p})
    case CreatePersonPersonalData(p) => c.(persons := c.persons + {p})
    case DeletePerson(p) => c.(persons := c.persons - {p})
    case ImportCandidates(created) => c.(persons := c.persons + (set p | p in created))
    case CreateCandidateList(l) => c.(lists := c.lists + {l})
    case DeleteCandidateList(l) => c.(lists := c.lists - {l})
    case CreateSubstituteSubmitter(s) => c.(substitutes := c.substitutes + [s])
    case DeleteSubstituteSubmitter(s) => c.(substitutes := Filter(c.substitutes, OtherThan(s)))
    case DownloadFile => c
    case Other => c
  }

  /** The projection: the log replayed from nothing. */
  function Replay(log: seq<Entry>): Collections {
    if log == [] then Collections({}, {}, [])
    else Apply(Replay(log[..|log| - 1]), log[|log| - 1].payload)
  }

  datatype Refusal =
    | EventLimitReached
    | TooManyEvents
    | TooManyDownloads
    | TooManyPersons
    | TooManyCandidateLists
    | TooManySubstituteSubmitters

  predicate Sorted(log: seq<Entry>) {
    forall i, j :: 0 <= i < j < |log| ==> log[i].createdAt <= log[j].createdAt
  }

  /** Binary search for the first entry created after `start`. */
  function PartitionPoint(log: seq<Entry>, start: Instant, lo: nat, hi: nat): (r: nat)
    requires lo <= hi <= |log|
    ensures lo <= r <= hi
    decreases hi - lo
  {
    if lo == hi then lo
    else
      var mid := lo + (hi - lo) / 2;
      if log[mid].createdAt <= start then PartitionPoint(log, start, mid + 1, hi)
      else PartitionPoint(log, start, lo, mid)
  }

  /** The tail of the log the limit checks count. */
  function InWindow(log: seq<Entry>, limit: RateLimit, now: Instant): seq<Entry> {
    log[PartitionPoint(log, limit.WindowStart(now), 0, |log|)..]
  }

  function CheckLimits(log: seq<Entry>, limits: RateLimits, now: Instant, isDownload: bool): Option<Refusal> {
    if limits.eventsTotal > 0 && |log| >= limits.eventsTotal then Some(EventLimitReached)
    else if limits.events.IsReached(|InWindow(log, limits.events, now)|) then Some(TooManyEvents)
    else if isDownload
         && limits.downloads.IsReached(|Filter(InWindow(log, limits.downloads, now), IsDownload)|)
    then Some(TooManyDownloads)
    else None
  }

  function CheckCollectionLimits(log: seq<Entry>, event: PgEvent): Option<Refusal> {
    var data := Replay(log);
    var created := event.CreatedPersonCount();
    if created > 0 && |data.persons| + created > MAX_PERSONS then Some(TooManyPersons)
    else if event.CreateCandidateList? && |data.lists| >= MAX_CANDIDATE_LISTS then Some(TooManyCandidateLists)
    else if event.CreateSubstituteSubmitter? && |data.substitutes| >= MAX_SUBSTITUTE_SUBMITTERS
    then Some(TooManySubstituteSubmitters)
    else None
  }

  // ----- the window is a tail of the log

  /** No entry created at or before `start` stands behind one created after it. */
  predicate SplitBy(log: seq<Entry>, start: Instant) {
    forall i, j :: 0 <= i < j < |log| && log[j].createdAt <= start ==> log[i].createdAt <= start
  }

  lemma SortedSplits(log: seq<Entry>, start: Instant)
    requires Sorted(log)
    ensures SplitBy(log, start)
  {}

  lemma SplitsAt(log: seq<Entry>, start: Instant, mid: nat)
    requires SplitBy(log, start) && mid < |log|
    ensures log[mid].createdAt <= start ==> forall i :: 0 <= i < mid + 1 ==> log[i].createdAt <= start
    ensures start < log[mid].createdAt ==> forall i :: mid <= i < |log| ==> start < log[i].createdAt
  {}

  lemma {:induction false} PartitionPointSplits(log: seq<Entry>, start: Instant, lo: nat, hi: nat)
    requires lo <= hi <= |log|
    requires SplitBy(log, start)
    requires forall i :: 0 <= i < lo ==> log[i].createdAt <= start
    requires forall i :: hi <= i < |log| ==> start < log[i].createdAt
    ensures var p := PartitionPoint(log, start, lo, hi);
            && (forall i :: 0 <= i < p ==> log[i].createdAt <= start)
            && (forall i :: p <= i < |log| ==> start < log[i].createdAt)
    decreases hi - lo
  {
    hide SplitBy;
    if lo == hi {
    } else {
      var mid := lo + (hi - lo) / 2;
      SplitsAt(log, start, mid);
      if log[mid].createdAt <= start {
        PartitionPointSplits(log, start, mid + 1, hi);
      } else {
        PartitionPointSplits(log, start, lo, mid);
      }
    }
  }

  function CreatedAfter(start: Instant): Entry -> bool {
    (e: Entry) => start < e.createdAt
  }

  /** Only a log that is split can be cut into what a filter drops and keeps. */
  lemma TailIsFilterMeansSplit(log: seq<Entry>, start: Instant, p: nat)
    requires p <= |log| && log[p..] == Filter(log, CreatedAfter(start))
    ensures SplitBy(log, start)
  {
    hide Filter;
    var keep, front := CreatedAfter(start), Filter(log[..p], CreatedAfter(start));
    assert log == log[..p] + log[p..];
    FilterConcat(log[..p], log[p..], keep);
    forall i | p <= i < |log| ensures start < log[i].createdAt {
      assert log[i] == log[p..][i - p];
      FilterMember(log, keep, log[i]);
    }
    FilterAllOrNothing(log[p..], keep, true);
    assert |front| == 0;
    forall i | 0 <= i < p ensures log[i].createdAt <= start {
      assert log[i] == log[..p][i];
      FilterMember(log[..p], keep, log[i]);
    }
  }

  /** The binary-searched tail is the filter "created after the start of the
      window" exactly when the log is split by that start. */
  lemma WindowIsFilter(log: seq<Entry>, limit: RateLimit, now: Instant)
    ensures InWindow(log, limit, now) == Filter(log, CreatedAfter(limit.WindowStart(now)))
            <==> SplitBy(log, limit.WindowStart(now))
  {
    hide Filter, PartitionPoint;
    var start := limit.WindowStart(now);
    var p := PartitionPoint(log, start, 0, |log|);
    if SplitBy(log, start) {
      PartitionPointSplits(log, start, 0, |log|);
      FilterIsSlice(log, CreatedAfter(start), p, |log|);
    }
    if InWindow(log, limit, now) == Filter(log, CreatedAfter(start)) {
      TailIsFilterMeansSplit(log, start, p);
    }
  }

  /** On a log in time order it always is. */
  lemma WindowIsFilterInOrder(log: seq<Entry>, limit: RateLimit, now: Instant)
    requires Sorted(log)
    ensures InWindow(log, limit, now) == Filter(log, CreatedAfter(limit.WindowStart(now)))
  {
    SortedSplits(log, limit.WindowStart(now));
    WindowIsFilter(log, limit, now);
  }

  // ----- when the checks refuse

  /** The entries created within `window` before `now`. */
  function Recent(log: seq<Entry>, window: nat, now: Instant): set<nat> {
    set i | 0 <= i < |log| && now - window < log[i].createdAt && MIN_UTC < log[i].createdAt
  }

  /** The downloads among them. */
  function RecentDownloads(log: seq<Entry>, window: nat, now: Instant): set<nat> {
    set i | && 0 <= i < |log| && now - window < log[i].createdAt && MIN_UTC < log[i].createdAt
            && log[i].payload.DownloadFile?
  }

  lemma WindowCounts(log: seq<Entry>, limit: RateLimit, now: Instant)
    requires Sorted(log)
    ensures |InWindow(log, limit, now)| == |Recent(log, limit.window, now)|
    ensures |Filter(InWindow(log, limit, now), IsDownload)| == |RecentDownloads(log, limit.window, now)|
  {
    hide Filter, InWindow, Sorted;
    var after := CreatedAfter(limit.WindowStart(now));
    WindowIsFilterInOrder(log, limit, now);
    FilterCount(log, after);
    assert Indices(log, after) == Recent(log, limit.window, now);
    FilterTwice(log, after, IsDownload);
    FilterCount(log, Both(after, IsDownload));
    assert Indices(log, Both(after, IsDownload)) == RecentDownloads(log, limit.window, now);
  }

  /** Exactly when the rate check refuses, and with which refusal: the total comes
      first, then the window of events, then for a download that of downloads. A
      maximum of zero never refuses. */
  lemma CheckLimitsMeans(log: seq<Entry>, limits: RateLimits, now: Instant, isDownload: bool)
    requires Sorted(log)
    ensures var full := limits.eventsTotal > 0 && |log| >= limits.eventsTotal;
            var busy := limits.events.max > 0 && |Recent(log, limits.events.window, now)| >= limits.events.max;
            var drained := && isDownload && limits.downloads.max > 0
                           && |RecentDownloads(log, limits.downloads.window, now)| >= limits.downloads.max;
            var r := CheckLimits(log, limits, now, isDownload);
            && (r.None? <==> !full && !busy && !drained)
            && (r == Some(EventLimitReached) <==> full)
            && (r == Some(TooManyEvents) <==> !full && busy)
            && (r == Some(TooManyDownloads) <==> !full && !busy && drained)
  {
    hide InWindow, Filter, Recent, RecentDownloads;
    WindowCounts(log, limits.events, now);
    WindowCounts(log, limits.downloads, now);
  }

  /** The entries created in the half-open window `(from, to]`. */
  function Within(log: seq<Entry>, from: Instant, to: Instant): seq<Entry> {
    Filter(log, (e: Entry) => from < e.createdAt <= to)
  }

  /** Any `max` entries apart, a whole window lies between: what a full window
      limit leaves behind on a log in time order. */
  predicate Spaced(log: seq<Entry>, limit: RateLimit) {
    limit.max > 0 ==>
      forall i :: 0 <= i < |log| - limit.max ==>
        log[i].createdAt + limit.window <= log[i + limit.max].createdAt
  }

  lemma WithinIsSlice(log: seq<Entry>, from: Instant, to: Instant) returns (lo: nat, hi: nat)
    requires Sorted(log) && from <= to
    ensures lo <= hi <= |log| && Within(log, from, to) == log[lo..hi]
    ensures forall i :: lo <= i < hi ==> from < log[i].createdAt <= to
  {
    lo, hi := PartitionPoint(log, from, 0, |log|), PartitionPoint(log, to, 0, |log|);
    SortedSplits(log, from);
    PartitionPointSplits(log, from, 0, |log|);
    SortedSplits(log, to);
    PartitionPointSplits(log, to, 0, |log|);
    assert hi < |log| ==> from < log[hi].createdAt;
    FilterIsSlice(log, (e: Entry) => from < e.createdAt <= to, lo, hi);
  }

  /** Spacing is the sliding-window promise: no half-open window holds more
      than the maximum. */
  lemma SpacedBoundsEveryWindow(log: seq<Entry>, limit: RateLimit, to: Instant)
    requires Sorted(log) && Spaced(log, limit) && limit.max > 0
    ensures |Within(log, to - limit.window, to)| <= limit.max
  {
    var lo, hi := WithinIsSlice(log, to - limit.window, to);
    assert lo + limit.max < |log| ==> log[lo].createdAt + limit.window <= log[lo + limit.max].createdAt;
  }

  /** An accepted append keeps the spacing, because the check saw fewer than
      `max` entries in the window. */
  lemma AcceptedKeepsSpacing(log: seq<Entry>, entry: Entry, limit: RateLimit, now: Instant)
    requires Sorted(log) && Spaced(log, limit)
    requires forall i :: 0 <= i < |log| ==> MIN_UTC < log[i].createdAt
    requires now <= entry.createdAt
    requires !limit.IsReached(|InWindow(log, limit, now)|)
    ensures Spaced(log + [entry], limit)
  {
    SortedSplits(log, limit.WindowStart(now));
    PartitionPointSplits(log, limit.WindowStart(now), 0, |log|);
  }

  /** An event that counts towards the windows and nothing else. */
  function Edit(id: nat, at: Instant): Entry {
    Entry(id, Other, at)
  }

  /** At most two events in any ten nanoseconds, and no other limit. */
  const TWO_IN_TEN := RateLimits(RateLimit(0, 0), RateLimit(2, 10), 0)

  const OUT_OF_ORDER := [Edit(1, 100), Edit(2, 5), Edit(3, 101), Edit(4, 102)]

  lemma PartitionStep(log: seq<Entry>, start: Instant, lo: nat, hi: nat)
    requires lo < hi <= |log|
    ensures var mid := lo + (hi - lo) / 2;
            PartitionPoint(log, start, lo, hi)
            == if log[mid].createdAt <= start then PartitionPoint(log, start, mid + 1, hi)
               else PartitionPoint(log, start, lo, mid)
  {}

  lemma PassesAt(n: nat)
    requires n < |OUT_OF_ORDER|
    ensures CheckLimits(OUT_OF_ORDER[..n], TWO_IN_TEN, OUT_OF_ORDER[n].createdAt, false).None?
  {
    hide PartitionPoint;
    var log, start := OUT_OF_ORDER[..n], TWO_IN_TEN.events.WindowStart(OUT_OF_ORDER[n].createdAt);
    if n == 2 {
      PartitionStep(log, start, 0, 2);
    } else if n == 3 {
      PartitionStep(log, start, 0, 3);
    }
  }

  lemma ThreeInTheWindow()
    ensures |Within(OUT_OF_ORDER, 92, 102)| == 3
  {
    hide Within;
    var log := OUT_OF_ORDER;
    assert log[..3][..2] == log[..2] && log[..2][..1] == log[..1] && log[..1][..0] == [];
    WithinStep(log, 92, 102);
    WithinStep(log[..3], 92, 102);
    WithinStep(log[..2], 92, 102);
    WithinStep(log[..1], 92, 102);
  }

  /** The order of the readings is needed: each of these events passes the check
      on the log before it, at its own reading, and the window of ten up to 102
      then holds three where two are allowed. */
  lemma ReadingsOutOfOrderShow()
    ensures forall n :: 0 <= n < |OUT_OF_ORDER| ==>
              CheckLimits(OUT_OF_ORDER[..n], TWO_IN_TEN, OUT_OF_ORDER[n].createdAt, false).None?
    ensures |Within(OUT_OF_ORDER, 92, 102)| == 3 > TWO_IN_TEN.events.max
    ensures !SplitBy(OUT_OF_ORDER[..3], 92)
  {
    hide CheckLimits, Within;
    forall n | 0 <= n < |OUT_OF_ORDER|
      ensures CheckLimits(OUT_OF_ORDER[..n], TWO_IN_TEN, OUT_OF_ORDER[n].createdAt, false).None?
    {
      PassesAt(n);
    }
    ThreeInTheWindow();
    var log := OUT_OF_ORDER[..3];
    assert log[1].createdAt <= 92 < log[0].createdAt;
  }

  lemma WithinStep(log: seq<Entry>, from: Instant, to: Instant)
    requires log != []
    ensures var n := |log| - 1;
            |Within(log, from, to)| == |Within(log[..n], from, to)| + if from < log[n].createdAt <= to then 1 else 0
    ensures |Within([], from, to)| == 0
  {
    var keep := (e: Entry) => from < e.createdAt <= to;
    FilterSame(log, (e: Entry) => from < e.createdAt <= to, keep);
  }

  lemma {:induction false} DownloadsKeepOrder(log: seq<Entry>)
    requires Sorted(log)
    ensures Sorted(Filter(log, IsDownload))
  {
    if log == [] {
    } else {
      var n := |log| - 1;
      DownloadsKeepOrder(log[..n]);
      var d := Filter(log[..n], IsDownload);
      forall i | 0 <= i < |d| ensures d[i].createdAt <= log[n].createdAt {
        FilterMember(log[..n], IsDownload, d[i]);
      }
    }
  }

  /** The downloads in the window are a tail of all downloads, so the one
      `max` from the end was made before the window when the tail is short. */
  lemma DownloadBeforeWindow(log: seq<Entry>, limit: RateLimit, now: Instant)
    requires Sorted(log) && 0 < limit.max <= |Filter(log, IsDownload)|
    requires forall i :: 0 <= i < |log| ==> MIN_UTC < log[i].createdAt
    requires !limit.IsReached(|Filter(InWindow(log, limit, now), IsDownload)|)
    ensures var all := Filter(log, IsDownload);
            all[|all| - limit.max].createdAt + limit.window <= now
  {
    hide Filter, PartitionPoint;
    var start := limit.WindowStart(now);
    var p := PartitionPoint(log, start, 0, |log|);
    var all, before := Filter(log, IsDownload), Filter(log[..p], IsDownload);
    var e := all[|all| - limit.max];
    FilterConcat(log[..p], log[p..], IsDownload);
    assert log == log[..p] + log[p..];
    assert e == before[|all| - limit.max];
    FilterMember(log[..p], IsDownload, e);
    SortedSplits(log, start);
    PartitionPointSplits(log, start, 0, |log|);
  }

  lemma DownloadsKeepSpacing(log: seq<Entry>, entry: Entry, limit: RateLimit, now: Instant)
    requires Sorted(log) && Spaced(Filter(log, IsDownload), limit)
    requires forall i :: 0 <= i < |log| ==> MIN_UTC < log[i].createdAt
    requires now <= entry.createdAt
    requires IsDownload(entry) ==> !limit.IsReached(|Filter(InWindow(log, limit, now), IsDownload)|)
    ensures Spaced(Filter(log + [entry], IsDownload), limit)
  {
    assert (log + [entry])[..|log|] == log;
    var all := Filter(log, IsDownload);
    if IsDownload(entry) && 0 < limit.max <= |all| {
      DownloadBeforeWindow(log, limit, now);
    }
  }

  // ----- the collection caps

  predicate WithinCaps(c: Collections) {
    && |c.persons| <= MAX_PERSONS
    && |c.lists| <= MAX_CANDIDATE_LISTS
    && |c.substitutes| <= MAX_SUBSTITUTE_SUBMITTERS
  }

  lemma {:induction false} UnionSize(a: set<nat>, xs: seq<nat>)
    ensures |a + (set p | p in xs)| <= |a| + |xs|
  {
    if xs == [] {
      assert a + (set p | p in xs) == a;
    } else {
      var n := |xs| - 1;
      UnionSize(a, xs[..n]);
      assert xs == xs[..n] + [xs[n]];
      assert a + (set p | p in xs) == a + (set p | p in xs[..n]) + {xs[n]};
    }
  }

  /** An accepted event never takes a collection past its cap, and one that
      is over a cap already never grows: a full stream stays editable. */
  lemma AcceptedKeepsCaps(log: seq<Entry>, entry: Entry)
    requires CheckCollectionLimits(log, entry.payload).None?
    ensures var before, after := Replay(log), Replay(log + [entry]);
            && (|after.persons| <= MAX_PERSONS || |after.persons| <= |before.persons|)
            && (|after.lists| <= MAX_CANDIDATE_LISTS || |after.lists| <= |before.lists|)
            && (|after.substitutes| <= MAX_SUBSTITUTE_SUBMITTERS || |after.substitutes| <= |before.substitutes|)
  {
    assert (log + [entry])[..|log|] == log;
    var before := Replay(log);
    match entry.payload
    case ImportCandidates(created) =>
      UnionSize(before.persons, created);
    case DeletePerson(p) => SubsetSize(before.persons - {p}, before.persons);
    case DeleteCandidateList(l) => SubsetSize(before.lists - {l}, before.lists);
    case _ =>
  }

  lemma {:induction false} SubsetSize(a: set<nat>, b: set<nat>)
    requires a <= b
    ensures |a| <= |b|
  {
    if a == {} {
    } else {
      var x :| x in a;
      SubsetSize(a - {x}, b - {x});
    }
  }

  // ----- what the projection holds, read off the log

  predicate CreatesPerson(e: PgEvent, p: nat) {
    match e
    case CreatePerson(x) => x == p
    case CreatePersonPersonalData(x) => x == p
    case ImportCandidates(created) => p in created
    case _ => false
  }

  /** Created by the event at `i` and not deleted by a later one. */
  predicate PersonStays(log: seq<Entry>, p: nat, i: nat) {
    && i < |log| && CreatesPerson(log[i].payload, p)
    && forall j :: i < j < |log| ==> log[j].payload != DeletePerson(p)
  }

  predicate ListStays(log: seq<Entry>, l: nat, i: nat) {
    && i < |log| && log[i].payload == CreateCandidateList(l)
    && forall j :: i < j < |log| ==> log[j].payload != DeleteCandidateList(l)
  }

  predicate SubstituteStays(log: seq<Entry>, i: nat) {
    && i < |log| && log[i].payload.CreateSubstituteSubmitter?
    && forall j :: i < j < |log| ==> log[j].payload != DeleteSubstituteSubmitter(log[i].payload.submitter)
  }

  lemma PersonStaysStep(log: seq<Entry>, e: Entry, p: nat)
    ensures (exists i :: PersonStays(log + [e], p, i))
            <==> CreatesPerson(e.payload, p) || (e.payload != DeletePerson(p) && exists i :: PersonStays(log, p, i))
  {
    var more := log + [e];
    if i: nat :| PersonStays(more, p, i) {
      if i < |log| {
        assert more[|log|].payload != DeletePerson(p);
        assert PersonStays(log, p, i) by {
          assert forall j :: i < j < |log| ==> more[j] == log[j];
        }
      }
    }
    if CreatesPerson(e.payload, p) {
      assert PersonStays(more, p, |log|);
    } else if e.payload != DeletePerson(p) {
      if i: nat :| PersonStays(log, p, i) {
        assert PersonStays(more, p, i);
      }
    }
  }

  lemma ListStaysStep(log: seq<Entry>, e: Entry, l: nat)
    ensures (exists i :: ListStays(log + [e], l, i))
            <==> || e.payload == CreateCandidateList(l)
                 || (e.payload != DeleteCandidateList(l) && exists i :: ListStays(log, l, i))
  {
    var more := log + [e];
    if i: nat :| ListStays(more, l, i) {
      if i < |log| {
        assert more[|log|].payload != DeleteCandidateList(l);
        assert ListStays(log, l, i) by {
          assert forall j :: i < j < |log| ==> more[j] == log[j];
        }
      }
    }
    if e.payload == CreateCandidateList(l) {
      assert ListStays(more, l, |log|);
    } else if e.payload != DeleteCandidateList(l) {
      if i: nat :| ListStays(log, l, i) {
        assert ListStays(more, l, i);
      }
    }
  }

  /** A person or list is held exactly when some event created it and none deleted
      it since. */
  lemma {:induction false} ReplayMeans(log: seq<Entry>, x: nat)
    ensures x in Replay(log).persons <==> exists i :: PersonStays(log, x, i)
    ensures x in Replay(log).lists <==> exists i :: ListStays(log, x, i)
  {
    if log == [] {
    } else {
      var n := |log| - 1;
      ReplayMeans(log[..n], x);
      assert log == log[..n] + [log[n]];
      PersonStaysStep(log[..n], log[n], x);
      ListStaysStep(log[..n], log[n], x);
      hide PersonStays, ListStays;
    }
  }

  /** The ids of the substitutes that stay, in order of creation. */
  function Substitutes(log: seq<Entry>, n: nat): seq<nat>
    requires n <= |log|
  {
    if n == 0 then []
    else if SubstituteStays(log, n - 1) then Substitutes(log, n - 1) + [log[n - 1].payload.submitter]
    else Substitutes(log, n - 1)
  }

  lemma SubstituteStaysStep(log: seq<Entry>, e: Entry, i: nat)
    requires i < |log|
    ensures SubstituteStays(log + [e], i)
            <==> && SubstituteStays(log, i)
                 && e.payload != DeleteSubstituteSubmitter(log[i].payload.submitter)
  {
    var more := log + [e];
    assert more[|log|] == e && forall j :: 0 <= j < |log| ==> more[j] == log[j];
  }

  lemma {:induction false} SubstitutesStep(log: seq<Entry>, e: Entry, n: nat)
    requires n <= |log|
    ensures Substitutes(log + [e], n)
            == if e.payload.DeleteSubstituteSubmitter?
               then Filter(Substitutes(log, n), OtherThan(e.payload.submitter)) else Substitutes(log, n)
  {
    if n == 0 {
    } else {
      hide SubstituteStays, Filter;
      var i := n - 1;
      SubstitutesStep(log, e, i);
      SubstituteStaysStep(log, e, i);
      assert (log + [e])[i] == log[i];
      if SubstituteStays(log, i) && e.payload.DeleteSubstituteSubmitter? {
        FilterAppend(Substitutes(log, i), log[i].payload.submitter, OtherThan(e.payload.submitter));
      }
    }
  }

  /** Substitutes are held in order of creation, each creation once. */
  lemma {:induction false} ReplaySubstitutes(log: seq<Entry>)
    ensures Replay(log).substitutes == Substitutes(log, |log|)
  {
    if log == [] {
    } else {
      var n := |log| - 1;
      ReplaySubstitutes(log[..n]);
      assert log == log[..n] + [log[n]];
      SubstitutesStep(log[..n], log[n], n);
    }
  }

  /** Exactly when the collection check refuses: an event that creates persons, a
      list or a substitute past the cap. Everything else passes, so a full stream
      stays editable. */
  lemma CheckCollectionLimitsMeans(log: seq<Entry>, event: PgEvent)
    ensures var r, data := CheckCollectionLimits(log, event), Replay(log);
            && (r == Some(TooManyPersons) <==>
                  match event
                  case CreatePerson(_) => |data.persons| >= 1000
                  case CreatePersonPersonalData(_) => |data.persons| >= 1000
                  case ImportCandidates(created) => created != [] && |data.persons| + |created| > 1000
                  case _ => false)
            && (r == Some(TooManyCandidateLists) <==> event.CreateCandidateList? && |data.lists| >= 25)
            && (r == Some(TooManySubstituteSubmitters) <==>
                  event.CreateSubstituteSubmitter? && |data.substitutes| >= 20)
            && (r.None? <==> r != Some(TooManyPersons) && r != Some(TooManyCandidateLists)
                             && r != Some(TooManySubstituteSubmitters))
  {}
}
