/**
 A group's established lists, one per district, and their sets of equal lists:
 how districts are batched, ordered, numbered and classified.
 */
module EstablishedLists {
  import opened Sequences
  import opened Ordering
  import opened Nominations

  const U64_MAX := 0xFFFF_FFFF_FFFF_FFFF

  /** An established list: its district and its remaining candidates. */
  datatype Entry = Entry(district: District, list: CandidateList, candidates: seq<PersonId>)

  datatype Contest = Contest(id: nat, name: string)

  datatype ListData = ListData(belongsToSet: Option<nat>, contests: seq<Contest>)

  datatype AffiliationType = StandAloneList | SetOfEqualLists | GroupOfLists

  datatype Established = Established(lists: seq<(District, CandidateList)>, sets: seq<ListData>)

  // ----- batching districts by equal candidates

  datatype Batch = Batch(candidates: seq<PersonId>, districts: seq<District>)

  /** The position of the batch with these candidates, or the number of batches. */
  function FindBatch(batches: seq<Batch>, candidates: seq<PersonId>): (k: nat)
    ensures k <= |batches|
    ensures k < |batches| ==> batches[k].candidates == candidates
    ensures forall i :: 0 <= i < k ==> batches[i].candidates != candidates
  {
    if batches == [] || batches[0].candidates == candidates then 0
    else 1 + FindBatch(batches[1..], candidates)
  }

  function AddToBatch(batches: seq<Batch>, e: Entry): seq<Batch> {
    var k := FindBatch(batches, e.candidates);
    if k < |batches| then batches[k := batches[k].(districts := batches[k].districts + [e.district])]
    else batches + [Batch(e.candidates, [e.district])]
  }

  function Batches(entries: seq<Entry>): seq<Batch> {
    if entries == [] then [] else AddToBatch(Batches(entries[..|entries| - 1]), entries[|entries| - 1])
  }

  function DistrictsOf(batches: seq<Batch>): (r: seq<seq<District>>)
    ensures |r| == |batches| && forall k :: 0 <= k < |batches| ==> r[k] == batches[k].districts
  {
    seq(|batches|, k requires 0 <= k < |batches| => batches[k].districts)
  }

  // ----- ordering the sets

  function FirstRegion(districts: seq<District>): int {
    if districts == [] then -1 else districts[0].region
  }

  predicate NonEmpty(districts: seq<District>) {
    districts != []
  }

  function SortEach(batches: seq<seq<District>>): (r: seq<seq<District>>)
    ensures |r| == |batches| && forall k :: 0 <= k < |batches| ==> r[k] == Sort(batches[k], KeyLe(Region))
  {
    seq(|batches|, k requires 0 <= k < |batches| => Sort(batches[k], KeyLe(Region)))
  }

  /** Districts in region order within a set, sets by their lowest region. */
  function OrderedSets(batches: seq<seq<District>>): seq<seq<District>> {
    Sort(SortEach(Filter(batches, NonEmpty)), KeyLe(FirstRegion))
  }

  // ----- numbering

  function Contests(districts: seq<District>): (r: seq<Contest>)
    ensures |r| == |districts|
    ensures forall k :: 0 <= k < |districts| ==> r[k] == Contest(districts[k].region, districts[k].title)
  {
    seq(|districts|, k requires 0 <= k < |districts| => Contest(districts[k].region, districts[k].title))
  }

  /** How many of the sets span several districts. */
  function MultiCount(sets: seq<seq<District>>): nat {
    if sets == [] then 0 else MultiCount(sets[..|sets| - 1]) + if |sets[|sets| - 1]| > 1 then 1 else 0
  }

  function Saturated(n: nat): nat {
    if n < U64_MAX then n else U64_MAX
  }

  function Numbered(sets: seq<seq<District>>): (r: seq<ListData>)
    ensures |r| == |sets|
  {
    if sets == [] then []
    else
      var n := |sets| - 1;
      var number := if |sets[n]| > 1 then Some(Saturated(1 + MultiCount(sets[..n]))) else None;
      Numbered(sets[..n]) + [ListData(number, Contests(sets[n]))]
  }

  function ListSetsOf(batches: seq<seq<District>>): Option<seq<ListData>> {
    var sets := OrderedSets(batches);
    if sets == [] then None else Some(Numbered(sets))
  }

  method NewListSets(input: seq<seq<District>>) returns (r: Option<seq<ListData>>)
    ensures r == ListSetsOf(input)
  {
    hide Filter, Sort;
    var batches := SortEach(Filter(input, NonEmpty));
    if batches == [] {
      return None;
    }
    batches := Sort(batches, KeyLe(FirstRegion));
    var next: nat, sets: seq<ListData> := 1, [];
    for i := 0 to |batches|
      invariant next == Saturated(1 + MultiCount(batches[..i]))
      invariant sets == Numbered(batches[..i])
    {
      assert batches[..i + 1][..i] == batches[..i];
      var number := None;
      if |batches[i]| > 1 {
        number := Some(next);
        next := if next < U64_MAX then next + 1 else next;
      }
      var contests := [];
      for j := 0 to |batches[i]|
        invariant contests == Contests(batches[i])[..j]
      {
        contests := contests + [Contest(batches[i][j].region, batches[i][j].title)];
      }
      assert contests == Contests(batches[i]);
      sets := sets + [ListData(number, contests)];
    }
    assert batches[..|batches|] == batches;
    return Some(sets);
  }

  method FromLists(entries: seq<Entry>) returns (r: Option<Established>)
    ensures r == EstablishedOf(entries)
  {
    var batches: seq<Batch> := [];
    for i := 0 to |entries|
      invariant batches == Batches(entries[..i])
    {
      assert entries[..i + 1][..i] == entries[..i];
      var e := entries[i];
      var k := FindBatch(batches, e.candidates);
      if k < |batches| {
        batches := batches[k := batches[k].(districts := batches[k].districts + [e.district])];
      } else {
        batches := batches + [Batch(e.candidates, [e.district])];
      }
    }
    assert entries[..|entries|] == entries;
    var sets := NewListSets(DistrictsOf(batches));
    match sets
    case None => return None;
    case Some(numbered) => return Some(Established(ListsOf(entries), numbered));
  }

  function ListsOf(entries: seq<Entry>): (r: seq<(District, CandidateList)>)
    ensures |r| == |entries| && forall k :: 0 <= k < |entries| ==> r[k] == (entries[k].district, entries[k].list)
  {
    seq(|entries|, k requires 0 <= k < |entries| => (entries[k].district, entries[k].list))
  }

  function SetsOf(entries: seq<Entry>): seq<seq<District>> {
    OrderedSets(DistrictsOf(Batches(entries)))
  }

  function EstablishedOf(entries: seq<Entry>): Option<Established> {
    match ListSetsOf(DistrictsOf(Batches(entries)))
    case None => None
    case Some(numbered) => Some(Established(ListsOf(entries), numbered))
  }

  // ----- what the sets are

  predicate DistinctRegions(entries: seq<Entry>) {
    forall i, j :: 0 <= i < j < |entries| ==> entries[i].district.region != entries[j].district.region
  }

  /** `d` is established with these remaining candidates. */
  predicate InClass(entries: seq<Entry>, c: seq<PersonId>, d: District) {
    exists k :: 0 <= k < |entries| && entries[k].district == d && entries[k].candidates == c
  }

  ghost predicate IsClass(entries: seq<Entry>, s: seq<District>, c: seq<PersonId>) {
    forall d :: d in s <==> InClass(entries, c, d)
  }

  /** The sets of equal lists, told without reference to how they are built:
      each is all districts established with one sequence of candidates, in
      region order; the sets ascend by their lowest region; and every
      established district is in one. */
  ghost predicate AreSetsOf(entries: seq<Entry>, sets: seq<seq<District>>) {
    && (forall i :: 0 <= i < |sets| ==> IsSetOf(entries, sets[i]))
    && Ascending(sets, FirstRegion)
    && (forall k :: 0 <= k < |entries| ==> InSomeSet(sets, entries[k].district))
  }

  predicate InSomeSet(sets: seq<seq<District>>, d: District) {
    exists i :: 0 <= i < |sets| && d in sets[i]
  }

  ghost predicate IsSetOf(entries: seq<Entry>, s: seq<District>) {
    s != [] && Ascending(s, Region) && exists c :: IsClass(entries, s, c)
  }

  // ----- the batches are the classes

  function DistrictsWith(entries: seq<Entry>, c: seq<PersonId>): seq<District> {
    if entries == [] then []
    else
      var n := |entries| - 1;
      DistrictsWith(entries[..n], c) + if entries[n].candidates == c then [entries[n].district] else []
  }

  lemma {:induction false} DistrictsWithIsClass(entries: seq<Entry>, c: seq<PersonId>, d: District)
    ensures d in DistrictsWith(entries, c) <==> InClass(entries, c, d)
  {
    if entries == [] {
    } else {
      var n := |entries| - 1;
      DistrictsWithIsClass(entries[..n], c, d);
      ClassGrows(entries, c, d);
    }
  }

  lemma ClassGrows(entries: seq<Entry>, c: seq<PersonId>, d: District)
    requires entries != []
    ensures var n := |entries| - 1;
            InClass(entries, c, d)
            <==> InClass(entries[..n], c, d) || (entries[n].district == d && entries[n].candidates == c)
  {
    var n := |entries| - 1;
    if InClass(entries[..n], c, d) {
      var k :| 0 <= k < n && entries[..n][k].district == d && entries[..n][k].candidates == c;
      assert entries[k].district == d;
    }
    if InClass(entries, c, d) {
      var k :| 0 <= k < |entries| && entries[k].district == d && entries[k].candidates == c;
      assert k < n ==> entries[..n][k] == entries[k];
    }
  }

  lemma {:induction false} DistrictsWithDiffer(entries: seq<Entry>, c: seq<PersonId>, i: nat, j: nat)
    requires DistinctRegions(entries) && i < j < |DistrictsWith(entries, c)|
    ensures DistrictsWith(entries, c)[i].region != DistrictsWith(entries, c)[j].region
  {
    var n := |entries| - 1;
    var before := DistrictsWith(entries[..n], c);
    if j < |before| {
      DistrictsWithDiffer(entries[..n], c, i, j);
    } else {
      DistrictsWithIsClass(entries[..n], c, before[i]);
    }
  }

  predicate HasBatch(batches: seq<Batch>, c: seq<PersonId>) {
    exists i :: 0 <= i < |batches| && batches[i].candidates == c
  }

  predicate DistinctBatches(batches: seq<Batch>) {
    forall i, j :: 0 <= i < j < |batches| ==> batches[i].candidates != batches[j].candidates
  }

  predicate AreBatchesOf(entries: seq<Entry>, batches: seq<Batch>) {
    && DistinctBatches(batches)
    && (forall i :: 0 <= i < |batches| ==>
          batches[i].districts != [] && batches[i].districts == DistrictsWith(entries, batches[i].candidates))
    && (forall k :: 0 <= k < |entries| ==> HasBatch(batches, entries[k].candidates))
  }

  lemma {:induction false} NoBatchNoDistricts(entries: seq<Entry>, batches: seq<Batch>, c: seq<PersonId>)
    requires forall k :: 0 <= k < |entries| ==> HasBatch(batches, entries[k].candidates)
    requires !HasBatch(batches, c)
    ensures DistrictsWith(entries, c) == []
  {
    if entries == [] {
    } else {
      NoBatchNoDistricts(entries[..|entries| - 1], batches, c);
      assert HasBatch(batches, entries[|entries| - 1].candidates);
    }
  }

  lemma {:induction false} BatchesAreClasses(entries: seq<Entry>)
    ensures AreBatchesOf(entries, Batches(entries))
  {
    if entries == [] {
    } else {
      var n := |entries| - 1;
      BatchesAreClasses(entries[..n]);
      AddKeepsClasses(entries, Batches(entries[..n]));
    }
  }

  lemma LastDistrict(entries: seq<Entry>, c: seq<PersonId>)
    requires entries != []
    ensures var n := |entries| - 1;
            DistrictsWith(entries, c)
            == if entries[n].candidates == c then DistrictsWith(entries[..n], c) + [entries[n].district]
               else DistrictsWith(entries[..n], c)
  {}

  lemma HasBatchStays(batches: seq<Batch>, e: Entry, c: seq<PersonId>)
    requires HasBatch(batches, c) || c == e.candidates
    ensures HasBatch(AddToBatch(batches, e), c)
  {
    var after, k := AddToBatch(batches, e), FindBatch(batches, e.candidates);
    assert after[k].candidates == e.candidates;
    if HasBatch(batches, c) {
      var i :| 0 <= i < |batches| && batches[i].candidates == c;
      assert after[i].candidates == c;
    }
  }

  /** The batch of `e` gains its district; the others stay. */
  lemma AddToBatchAt(batches: seq<Batch>, e: Entry, i: nat)
    requires i < |AddToBatch(batches, e)|
    requires DistinctBatches(batches)
    ensures var after, k := AddToBatch(batches, e), FindBatch(batches, e.candidates);
            if i != k then i < |batches| && after[i] == batches[i] && after[i].candidates != e.candidates
            else after[i] == Batch(e.candidates, (if k < |batches| then batches[k].districts else []) + [e.district])
  {}

  lemma AddKeepsDistinct(batches: seq<Batch>, e: Entry)
    requires DistinctBatches(batches)
    ensures DistinctBatches(AddToBatch(batches, e))
  {
    hide FindBatch;
  }

  lemma AddedBatchIsRight(entries: seq<Entry>, batches: seq<Batch>, i: nat)
    requires entries != [] && AreBatchesOf(entries[..|entries| - 1], batches)
    requires i < |AddToBatch(batches, entries[|entries| - 1])|
    ensures var b := AddToBatch(batches, entries[|entries| - 1])[i];
            b.districts != [] && b.districts == DistrictsWith(entries, b.candidates)
  {
    var n := |entries| - 1;
    var x := entries[n];
    var k := FindBatch(batches, x.candidates);
    AddToBatchAt(batches, x, i);
    LastDistrict(entries, AddToBatch(batches, x)[i].candidates);
    assert k == |batches| ==> !HasBatch(batches, x.candidates);
    hide FindBatch, DistrictsWith, HasBatch, AddToBatch, DistinctBatches;
    if k == |batches| {
      NoBatchNoDistricts(entries[..n], batches, x.candidates);
    }
  }

  lemma AddKeepsClasses(entries: seq<Entry>, batches: seq<Batch>)
    requires entries != [] && AreBatchesOf(entries[..|entries| - 1], batches)
    ensures AreBatchesOf(entries, AddToBatch(batches, entries[|entries| - 1]))
  {
    hide FindBatch, DistrictsWith, HasBatch, AddToBatch, DistinctBatches;
    var n := |entries| - 1;
    var x, after := entries[n], AddToBatch(batches, entries[n]);
    AddKeepsDistinct(batches, x);
    forall i | 0 <= i < |after|
      ensures after[i].districts != [] && after[i].districts == DistrictsWith(entries, after[i].candidates)
    {
      AddedBatchIsRight(entries, batches, i);
    }
    forall j | 0 <= j < |entries| ensures HasBatch(after, entries[j].candidates) {
      assert j < n ==> entries[..n][j] == entries[j];
      HasBatchStays(batches, x, entries[j].candidates);
    }
  }

  // ----- the sets are right, and there is only one right answer

  lemma SameRegionSameEntry(entries: seq<Entry>, d: District, e: District, b: seq<PersonId>, c: seq<PersonId>)
    requires DistinctRegions(entries) && d.region == e.region
    requires InClass(entries, b, d) && InClass(entries, c, e)
    ensures b == c && d == e
  {
    var i :| 0 <= i < |entries| && entries[i].district == d && entries[i].candidates == b;
    var j :| 0 <= j < |entries| && entries[j].district == e && entries[j].candidates == c;
    assert i == j;
  }

  lemma SortedBatchIsSet(entries: seq<Entry>, batch: Batch)
    requires DistinctRegions(entries)
    requires batch.districts != [] && batch.districts == DistrictsWith(entries, batch.candidates)
    ensures IsSetOf(entries, Sort(batch.districts, KeyLe(Region)))
    ensures IsClass(entries, Sort(batch.districts, KeyLe(Region)), batch.candidates)
  {
    var s := Sort(batch.districts, KeyLe(Region));
    forall i, j | 0 <= i < j < |batch.districts|
      ensures Region(batch.districts[i]) != Region(batch.districts[j])
    {
      DistrictsWithDiffer(entries, batch.candidates, i, j);
    }
    SortAscends(batch.districts, Region);
    forall d ensures d in s <==> InClass(entries, batch.candidates, d) {
      SortKeepsMembers(batch.districts, KeyLe(Region), d);
      DistrictsWithIsClass(entries, batch.candidates, d);
    }
    assert IsClass(entries, s, batch.candidates);
  }

  lemma SortedBatchIs(entries: seq<Entry>, batches: seq<Batch>, k: nat)
    requires DistinctRegions(entries) && AreBatchesOf(entries, batches) && k < |batches|
    ensures var inner := SortEach(DistrictsOf(batches));
            inner[k] != [] && IsSetOf(entries, inner[k]) && IsClass(entries, inner[k], batches[k].candidates)
  {
    SortedBatchIsSet(entries, batches[k]);
  }

  lemma SortedBatchesDiffer(entries: seq<Entry>, batches: seq<Batch>, i: nat, j: nat)
    requires DistinctRegions(entries) && AreBatchesOf(entries, batches) && i < j < |batches|
    ensures var inner := SortEach(DistrictsOf(batches)); FirstRegion(inner[i]) != FirstRegion(inner[j])
  {
    hide Sort;
    SortedBatchIs(entries, batches, i);
    SortedBatchIs(entries, batches, j);
    var inner: seq<seq<District>> := SortEach(DistrictsOf(batches));
    assert inner[i][0] in inner[i] && inner[j][0] in inner[j];
    if inner[i][0].region == inner[j][0].region {
      SameRegionSameEntry(entries, inner[i][0], inner[j][0], batches[i].candidates, batches[j].candidates);
    }
  }

  lemma SetsAreSorted(entries: seq<Entry>)
    ensures SetsOf(entries) == Sort(SortEach(DistrictsOf(Batches(entries))), KeyLe(FirstRegion))
  {
    var batches := Batches(entries);
    BatchesAreClasses(entries);
    FilterIsSlice(DistrictsOf(batches), NonEmpty, 0, |batches|);
    assert DistrictsOf(batches)[0..|batches|] == DistrictsOf(batches);
  }

  lemma EntryIsInSet(entries: seq<Entry>, k: nat)
    requires DistinctRegions(entries) && k < |entries|
    ensures InSomeSet(SetsOf(entries), entries[k].district)
  {
    hide Sort, Batches, DistrictsWith, SetsOf, IsSetOf;
    SetsAreSorted(entries);
    BatchesAreClasses(entries);
    var batches, sets := Batches(entries), SetsOf(entries);
    var inner := SortEach(DistrictsOf(batches));
    assert HasBatch(batches, entries[k].candidates);
    var j :| 0 <= j < |batches| && batches[j].candidates == entries[k].candidates;
    SortedBatchIs(entries, batches, j);
    assert InClass(entries, batches[j].candidates, entries[k].district);
    assert entries[k].district in inner[j];
    SortKeepsMembers(inner, KeyLe(FirstRegion), inner[j]);
    var i :| 0 <= i < |sets| && sets[i] == inner[j];
  }

  /** The computed sets are the sets of equal lists. */
  lemma SetsAreRight(entries: seq<Entry>)
    requires DistinctRegions(entries)
    ensures AreSetsOf(entries, SetsOf(entries))
  {
    hide Sort, Batches, DistrictsWith, IsSetOf, SetsOf, IsClass;
    SetsAreSorted(entries);
    BatchesAreClasses(entries);
    var batches, sets := Batches(entries), SetsOf(entries);
    var inner := SortEach(DistrictsOf(batches));
    forall i, j | 0 <= i < j < |inner| ensures FirstRegion(inner[i]) != FirstRegion(inner[j]) {
      SortedBatchesDiffer(entries, batches, i, j);
    }
    SortAscends(inner, FirstRegion);
    forall i | 0 <= i < |sets| ensures IsSetOf(entries, sets[i]) {
      SortKeepsMembers(inner, KeyLe(FirstRegion), sets[i]);
      var k :| 0 <= k < |inner| && inner[k] == sets[i];
      SortedBatchIs(entries, batches, k);
    }
    forall k | 0 <= k < |entries| ensures InSomeSet(sets, entries[k].district) {
      EntryIsInSet(entries, k);
    }
  }

  ghost predicate SameEntries(a: seq<Entry>, b: seq<Entry>) {
    forall e :: e in a <==> e in b
  }

  lemma ClassMoves(a: seq<Entry>, b: seq<Entry>, c: seq<PersonId>, d: District)
    requires SameEntries(a, b) && InClass(a, c, d)
    ensures InClass(b, c, d)
  {
    var i :| 0 <= i < |a| && a[i].district == d && a[i].candidates == c;
    assert a[i] in b;
  }

  lemma SetIsFound(a: seq<Entry>, s: seq<District>, b: seq<Entry>, sets: seq<seq<District>>)
    requires DistinctRegions(b) && SameEntries(a, b) && IsSetOf(a, s) && AreSetsOf(b, sets)
    ensures s in sets
  {
    var c :| IsClass(a, s, c);
    assert s[0] in s;
    ClassMoves(a, b, c, s[0]);
    var k :| 0 <= k < |b| && b[k].district == s[0] && b[k].candidates == c;
    assert InSomeSet(sets, b[k].district);
    var i :| 0 <= i < |sets| && b[k].district in sets[i];
    assert IsSetOf(b, sets[i]);
    var c' :| IsClass(b, sets[i], c');
    SameRegionSameEntry(b, s[0], s[0], c, c');
    forall d ensures d in s <==> d in sets[i] {
      if InClass(a, c, d) { ClassMoves(a, b, c, d); }
      if InClass(b, c, d) { ClassMoves(b, a, c, d); }
    }
    AscendingIsUnique(s, sets[i], Region);
  }

  /** The description fixes the sets, from the entries in any order. */
  lemma SetsAreUnique(a: seq<Entry>, sets: seq<seq<District>>, b: seq<Entry>, others: seq<seq<District>>)
    requires DistinctRegions(a) && DistinctRegions(b) && SameEntries(a, b)
    requires AreSetsOf(a, sets) && AreSetsOf(b, others)
    ensures sets == others
  {
    forall s | s in sets ensures s in others {
      SetIsFound(a, s, b, others);
    }
    forall s | s in others ensures s in sets {
      SetIsFound(b, s, a, sets);
    }
    AscendingIsUnique(sets, others, FirstRegion);
  }

  lemma {:induction false} DistinctOccurOnce(a: seq<Entry>, x: Entry)
    requires DistinctRegions(a)
    ensures multiset(a)[x] <= 1
  {
    if a == [] {
    } else {
      var n := |a| - 1;
      DistinctOccurOnce(a[..n], x);
      assert a == a[..n] + [a[n]];
      if x == a[n] {
        assert x !in a[..n];
      }
    }
  }

  lemma RepeatOccursTwice(b: seq<Entry>, i: nat, j: nat)
    requires i < j < |b| && b[i] == b[j]
    ensures multiset(b)[b[i]] >= 2
  {
    var front, back := b[..j], b[j..];
    assert b == front + back;
    assert front[i] == b[i] && back[0] == b[i];
    assert b[i] in multiset(front) && b[i] in multiset(back);
  }

  lemma PermutationStaysDistinct(a: seq<Entry>, b: seq<Entry>)
    requires DistinctRegions(a) && multiset(a) == multiset(b)
    ensures DistinctRegions(b) && SameEntries(a, b)
  {
    forall e ensures e in a <==> e in b {
      assert e in a <==> e in multiset(a);
      assert e in b <==> e in multiset(b);
    }
    forall i, j | 0 <= i < j < |b| ensures b[i].district.region != b[j].district.region {
      assert b[i] in a && b[j] in a;
      if b[i] == b[j] {
        DistinctOccurOnce(a, b[i]);
        RepeatOccursTwice(b, i, j);
      }
    }
  }

  /** Sets, their order and their numbers do not depend on the order in which
      the lists come. */
  lemma SetsIgnoreListOrder(a: seq<Entry>, b: seq<Entry>)
    requires DistinctRegions(a) && multiset(a) == multiset(b)
    ensures SetsOf(a) == SetsOf(b)
    ensures ListSetsOf(DistrictsOf(Batches(a))) == ListSetsOf(DistrictsOf(Batches(b)))
  {
    PermutationStaysDistinct(a, b);
    SetsAreRight(a);
    SetsAreRight(b);
    SetsAreUnique(a, SetsOf(a), b, SetsOf(b));
  }

  /** Two established districts are in the same set exactly when their remaining
      candidates are equal, and no district is in two sets. */
  lemma SameSetMeansEqualCandidates(entries: seq<Entry>, sets: seq<seq<District>>, i: nat, j: nat, k: nat, l: nat)
    requires DistinctRegions(entries) && AreSetsOf(entries, sets)
    requires i < |entries| && j < |entries| && k < |sets| && l < |sets|
    requires entries[i].district in sets[k] && entries[j].district in sets[l]
    ensures k == l <==> entries[i].candidates == entries[j].candidates
  {
    var e, f := entries[i], entries[j];
    assert IsSetOf(entries, sets[k]) && IsSetOf(entries, sets[l]);
    var b :| IsClass(entries, sets[k], b);
    var c :| IsClass(entries, sets[l], c);
    assert InClass(entries, e.candidates, e.district) && InClass(entries, f.candidates, f.district);
    SameRegionSameEntry(entries, e.district, e.district, b, e.candidates);
    SameRegionSameEntry(entries, f.district, f.district, c, f.candidates);
    if b == c {
      AscendingIsUnique(sets[k], sets[l], Region);
    }
    if k == l && b != c {
      SameRegionSameEntry(entries, e.district, e.district, b, c);
    }
  }

  // ----- numbers

  lemma {:induction false} NumberedAt(sets: seq<seq<District>>, k: nat)
    requires k < |sets|
    ensures Numbered(sets)[k] == ListData(
              if |sets[k]| > 1 then Some(Saturated(1 + MultiCount(sets[..k]))) else None, Contests(sets[k]))
  {
    var n := |sets| - 1;
    if k < n {
      NumberedAt(sets[..n], k);
      assert sets[..n][..k] == sets[..k];
    }
  }

  lemma {:induction false} MultiCountGrows(sets: seq<seq<District>>, i: nat, j: nat)
    requires i <= j <= |sets|
    ensures MultiCount(sets[..i]) <= MultiCount(sets[..j])
    ensures i < j && |sets[i]| > 1 ==> MultiCount(sets[..i]) < MultiCount(sets[..j])
    decreases j
  {
    if i < j {
      assert sets[..j][..j - 1] == sets[..j - 1];
      MultiCountGrows(sets, i, j - 1);
    }
  }

  /** Sets of one district carry no number; the others are numbered in order. */
  lemma NumbersAscend(sets: seq<seq<District>>, i: nat, j: nat)
    requires i < j < |sets| && MultiCount(sets) < U64_MAX
    ensures Numbered(sets)[i].belongsToSet.None? <==> |sets[i]| <= 1
    ensures |sets[i]| > 1 && |sets[j]| > 1 ==>
              && Numbered(sets)[i].belongsToSet.Some? && Numbered(sets)[j].belongsToSet.Some?
              && Numbered(sets)[i].belongsToSet.value < Numbered(sets)[j].belongsToSet.value
  {
    NumberedAt(sets, i);
    NumberedAt(sets, j);
    MultiCountGrows(sets, i, j);
    MultiCountGrows(sets, i, |sets|);
    MultiCountGrows(sets, j, |sets|);
    assert sets[..|sets|] == sets;
  }

  predicate IsUsed(sets: seq<seq<District>>, m: nat) {
    exists k :: 0 <= k < |sets| && Numbered(sets)[k].belongsToSet == Some(m)
  }

  lemma UsedStep(sets: seq<seq<District>>, m: nat)
    requires sets != []
    ensures var n := |sets| - 1;
            IsUsed(sets, m) <==> IsUsed(sets[..n], m) || Numbered(sets)[n].belongsToSet == Some(m)
  {
    var n := |sets| - 1;
    var front, all := Numbered(sets[..n]), Numbered(sets);
    NumberedFront(sets);
    hide Numbered;
    if IsUsed(sets[..n], m) {
      var k :| 0 <= k < n && front[k].belongsToSet == Some(m);
      assert all[k].belongsToSet == Some(m);
    }
    if IsUsed(sets, m) {
      var k :| 0 <= k < |sets| && all[k].belongsToSet == Some(m);
      assert k < n ==> front[k].belongsToSet == Some(m);
    }
  }

  lemma NumberedFront(sets: seq<seq<District>>)
    requires sets != []
    ensures var n := |sets| - 1;
            forall k :: 0 <= k < n ==> Numbered(sets)[k] == Numbered(sets[..n])[k]
  {}

  /** The numbers used are exactly 1 to the number of sets that span several
      districts: none is skipped and none is out of range. */
  lemma {:induction false} NumbersAreOneToCount(sets: seq<seq<District>>, m: nat)
    requires MultiCount(sets) < U64_MAX
    ensures 1 <= m <= MultiCount(sets) <==> IsUsed(sets, m)
  {
    hide IsUsed, Numbered;
    if sets == [] {
      NoneUsed(sets, m);
    } else {
      var n := |sets| - 1;
      NumbersAreOneToCount(sets[..n], m);
      NumberedAt(sets, n);
      UsedStep(sets, m);
    }
  }

  lemma NoneUsed(sets: seq<seq<District>>, m: nat)
    requires sets == []
    ensures !IsUsed(sets, m)
  {}

  // ----- looking up a district

  predicate HasContest(data: ListData, region: nat) {
    exists k :: 0 <= k < |data.contests| && data.contests[k].id == region
  }

  /** The position of the set with a contest for the region, or the length. */
  function FindSet(sets: seq<ListData>, region: nat): (k: nat)
    ensures k <= |sets|
    ensures k < |sets| ==> HasContest(sets[k], region)
    ensures forall i :: 0 <= i < k ==> !HasContest(sets[i], region)
  {
    if sets == [] || HasContest(sets[0], region) then 0 else 1 + FindSet(sets[1..], region)
  }

  predicate Contains(sets: seq<ListData>, d: District) {
    FindSet(sets, d.region) < |sets|
  }

  function SetNumber(sets: seq<ListData>, d: District): Option<nat> {
    var k := FindSet(sets, d.region);
    if k < |sets| then sets[k].belongsToSet else None
  }

  lemma ContestsAreDistricts(entries: seq<Entry>, sets: seq<seq<District>>, k: nat, i: nat)
    requires DistinctRegions(entries) && AreSetsOf(entries, sets) && k < |sets| && i < |entries|
    ensures HasContest(Numbered(sets)[k], entries[i].district.region) <==> entries[i].district in sets[k]
  {
    hide Numbered;
    NumberedAt(sets, k);
    assert IsSetOf(entries, sets[k]);
    var c :| IsClass(entries, sets[k], c);
    var d := entries[i].district;
    if HasContest(Numbered(sets)[k], d.region) {
      var j :| 0 <= j < |sets[k]| && sets[k][j].region == d.region;
      assert sets[k][j] in sets[k];
      assert InClass(entries, entries[i].candidates, d);
      SameRegionSameEntry(entries, sets[k][j], d, c, entries[i].candidates);
    }
    if d in sets[k] {
      var j :| 0 <= j < |sets[k]| && sets[k][j] == d;
      assert Contests(sets[k])[j].id == d.region;
    }
  }

  /** Looking up an established district finds its set: equal numbers of
      lookups mean equal candidates. */
  lemma LookupFindsTheSet(entries: seq<Entry>, i: nat, j: nat)
    requires DistinctRegions(entries) && i < |entries| && j < |entries|
    ensures var sets := Numbered(SetsOf(entries));
            && Contains(sets, entries[i].district)
            && (FindSet(sets, entries[i].district.region) == FindSet(sets, entries[j].district.region)
                <==> entries[i].candidates == entries[j].candidates)
  {
    hide SetsOf, Numbered;
    SetsAreRight(entries);
    var sets := SetsOf(entries);
    var k := LookupIndex(entries, i);
    var l := LookupIndex(entries, j);
    SameSetMeansEqualCandidates(entries, sets, i, j, k, l);
  }

  lemma LookupIndex(entries: seq<Entry>, i: nat) returns (k: nat)
    requires DistinctRegions(entries) && i < |entries|
    ensures k < |SetsOf(entries)| && entries[i].district in SetsOf(entries)[k]
    ensures FindSet(Numbered(SetsOf(entries)), entries[i].district.region) == k
  {
    hide SetsOf, Numbered;
    SetsAreRight(entries);
    var sets, e := SetsOf(entries), entries[i];
    var found := FindSet(Numbered(sets), e.district.region);
    assert InSomeSet(sets, e.district);
    k :| 0 <= k < |sets| && e.district in sets[k];
    ContestsAreDistricts(entries, sets, k, i);
    if found < |sets| {
      ContestsAreDistricts(entries, sets, found, i);
      SameSetMeansEqualCandidates(entries, sets, i, i, k, found);
    }
  }

  /** Some other district is established with the same candidates. */
  predicate SharesCandidates(entries: seq<Entry>, i: nat)
    requires i < |entries|
  {
    exists j :: 0 <= j < |entries| && j != i && entries[j].candidates == entries[i].candidates
  }

  lemma SetSpansSeveral(entries: seq<Entry>, sets: seq<seq<District>>, k: nat, i: nat)
    requires DistinctRegions(entries) && AreSetsOf(entries, sets) && k < |sets| && i < |entries|
    requires entries[i].district in sets[k]
    ensures |sets[k]| > 1 <==> SharesCandidates(entries, i)
  {
    var mine, e := sets[k], entries[i];
    assert IsSetOf(entries, mine);
    var c :| IsClass(entries, mine, c);
    SameRegionSameEntry(entries, e.district, e.district, c, e.candidates);
    if |mine| > 1 {
      var d := if mine[0] == e.district then mine[1] else mine[0];
      assert Region(mine[0]) < Region(mine[1]);
      assert d in mine && InClass(entries, c, d);
    }
    if SharesCandidates(entries, i) {
      var j :| 0 <= j < |entries| && j != i && entries[j].candidates == e.candidates;
      assert InClass(entries, c, entries[j].district);
      assert entries[j].district in mine && entries[j].district != e.district;
    }
  }

  /** Two established districts have the same number exactly when they have equal
      candidates and the set spans several districts; a district that stands
      alone has none. */
  lemma NumbersSayWhichListsAreEqual(entries: seq<Entry>, i: nat, j: nat)
    requires DistinctRegions(entries) && i < |entries| && j < |entries|
    requires MultiCount(SetsOf(entries)) < U64_MAX
    ensures var sets := Numbered(SetsOf(entries));
            var a, b := SetNumber(sets, entries[i].district), SetNumber(sets, entries[j].district);
            && (a.Some? <==> SharesCandidates(entries, i))
            && (a.Some? && a == b <==> SharesCandidates(entries, i) && entries[i].candidates == entries[j].candidates)
  {
    hide SetsOf, Numbered, FindSet, SharesCandidates, AreSetsOf, MultiCount;
    SetsAreRight(entries);
    var sets := SetsOf(entries);
    var k := LookupIndex(entries, i);
    var l := LookupIndex(entries, j);
    SameSetMeansEqualCandidates(entries, sets, i, j, k, l);
    SetSpansSeveral(entries, sets, k, i);
    NumberedAt(sets, k);
    NumberedAt(sets, l);
    if k < l {
      NumbersAscend(sets, k, l);
    } else if l < k {
      NumbersAscend(sets, l, k);
    }
  }

  /** `Contains` holds exactly for the regions of established districts. */
  lemma ContainsMeansEstablished(entries: seq<Entry>, d: District)
    requires DistinctRegions(entries)
    ensures Contains(Numbered(SetsOf(entries)), d)
            <==> exists i :: 0 <= i < |entries| && entries[i].district.region == d.region
  {
    hide SetsOf, Numbered;
    SetsAreRight(entries);
    var sets := SetsOf(entries);
    if Contains(Numbered(sets), d) {
      var k := FindSet(Numbered(sets), d.region);
      NumberedAt(sets, k);
      var j :| 0 <= j < |sets[k]| && sets[k][j].region == d.region;
      assert sets[k][j] in sets[k] && IsSetOf(entries, sets[k]);
      var c :| IsClass(entries, sets[k], c);
      var i :| 0 <= i < |entries| && entries[i].district == sets[k][j] && entries[i].candidates == c;
    }
    if i :| 0 <= i < |entries| && entries[i].district.region == d.region {
      var k := LookupIndex(entries, i);
    }
  }

  // ----- classification

  function AffiliationTypeOf(sets: seq<ListData>): AffiliationType {
    if |sets| == 1 && |sets[0].contests| == 1 then StandAloneList
    else if |sets| == 1 then SetOfEqualLists
    else GroupOfLists
  }

  /** One established district, several with equal candidates, or two that
      differ: that is what the type says. */
  lemma TypeSaysHowListsCompare(entries: seq<Entry>)
    requires DistinctRegions(entries) && entries != []
    ensures var t := AffiliationTypeOf(Numbered(SetsOf(entries)));
            && (t == StandAloneList <==> |entries| == 1)
            && (t == SetOfEqualLists <==> |entries| > 1 && AllEqual(entries))
            && (t == GroupOfLists <==> !AllEqual(entries))
  {
    hide SetsOf, Numbered;
    SetsAreRight(entries);
    var sets := SetsOf(entries);
    var k := LookupIndex(entries, 0);
    OneSetMeansAllEqual(entries, sets);
    NumberedAt(sets, 0);
    if |sets| == 1 {
      OneDistrictMeansOneEntry(entries, sets);
    }
  }

  predicate AllEqual(entries: seq<Entry>) {
    forall i, j :: 0 <= i < j < |entries| ==> entries[i].candidates == entries[j].candidates
  }

  lemma SetHasEntry(entries: seq<Entry>, sets: seq<seq<District>>, k: nat) returns (i: nat)
    requires AreSetsOf(entries, sets) && k < |sets|
    ensures i < |entries| && entries[i].district == sets[k][0] && entries[i].district in sets[k]
  {
    assert IsSetOf(entries, sets[k]) && sets[k][0] in sets[k];
    var c :| IsClass(entries, sets[k], c);
    assert InClass(entries, c, sets[k][0]);
    i :| 0 <= i < |entries| && entries[i].district == sets[k][0] && entries[i].candidates == c;
  }

  lemma OneSetMeansAllEqual(entries: seq<Entry>, sets: seq<seq<District>>)
    requires DistinctRegions(entries) && entries != [] && AreSetsOf(entries, sets)
    ensures |sets| == 1 <==> AllEqual(entries)
  {
    assert InSomeSet(sets, entries[0].district);
    if |sets| == 1 {
      forall i, j | 0 <= i < j < |entries| ensures entries[i].candidates == entries[j].candidates {
        SameSetMeansEqualCandidates(entries, sets, i, j, 0, 0);
      }
    } else {
      var i := SetHasEntry(entries, sets, 0);
      var j := SetHasEntry(entries, sets, 1);
      SameSetMeansEqualCandidates(entries, sets, i, j, 0, 1);
      assert i < j || j < i;
    }
  }

  lemma OneDistrictMeansOneEntry(entries: seq<Entry>, sets: seq<seq<District>>)
    requires DistinctRegions(entries) && entries != [] && AreSetsOf(entries, sets) && |sets| == 1
    ensures |sets[0]| == 1 <==> |entries| == 1
  {
    assert IsSetOf(entries, sets[0]);
    if |entries| > 1 {
      assert InSomeSet(sets, entries[0].district) && InSomeSet(sets, entries[1].district);
      assert entries[0].district != entries[1].district;
    } else {
      var c :| IsClass(entries, sets[0], c);
      forall k | 0 <= k < |sets[0]| ensures sets[0][k] == entries[0].district {
        assert sets[0][k] in sets[0];
      }
      assert |sets[0]| > 1 ==> Region(sets[0][0]) < Region(sets[0][1]);
    }
  }

  // ----- which lists are established

  predicate HasDistrict(entries: seq<Entry>, d: District) {
    exists k :: 0 <= k < |entries| && entries[k].district == d
  }

  /** A district keeps its first list; a list without a remaining candidate is
      passed over. */
  function AddList(g: Group, entries: seq<Entry>, pair: (District, CandidateList)): seq<Entry> {
    var remaining := Remaining(g, pair.1);
    if HasDistrict(entries, pair.0) || remaining == [] then entries
    else entries + [Entry(pair.0, pair.1, remaining)]
  }

  function Establish(g: Group, pairs: seq<(District, CandidateList)>): seq<Entry> {
    if pairs == [] then [] else AddList(g, Establish(g, pairs[..|pairs| - 1]), pairs[|pairs| - 1])
  }

  /** The entries of a group: its established districts. */
  function EntriesOf(g: Group): seq<Entry> {
    Establish(g, ValidPairs(g, g.lists))
  }

  predicate RegionsTellApart(g: Group) {
    forall i, j, d, e ::
      (&& 0 <= i < |g.lists| && 0 <= j < |g.lists|
       && d in g.lists[i].districts && e in g.lists[j].districts && d.region == e.region)
      ==> d == e
  }

  /** The answer for a group: nothing when no district is established, and
      otherwise its lists with the sets of equal lists, numbered. */
  ghost predicate AreEstablished(g: Group, r: Option<Established>) {
    match r
    case None => EntriesOf(g) == []
    case Some(e) =>
      && EntriesOf(g) != [] && e.lists == ListsOf(EntriesOf(g))
      && exists sets :: AreSetsOf(EntriesOf(g), sets) && e.sets == Numbered(sets)
  }

  method NewEstablishedLists(g: Group) returns (r: Option<Established>)
    ensures r == EstablishedOf(EntriesOf(g))
    ensures RegionsTellApart(g) ==> AreEstablished(g, r)
  {
    hide EstablishedOf, Remaining;
    var pairs := ValidListsByDistrict(g);
    var lists: seq<Entry> := [];
    for i := 0 to |pairs|
      invariant lists == Establish(g, pairs[..i])
    {
      assert pairs[..i + 1][..i] == pairs[..i];
      var (district, list) := pairs[i];
      if HasDistrict(lists, district) {
        continue;
      }
      var candidates := Remaining(g, list);
      if candidates != [] {
        lists := lists + [Entry(district, list, candidates)];
      }
    }
    assert pairs[..|pairs|] == pairs;
    r := FromLists(lists);
    if RegionsTellApart(g) {
      EstablishedIsRight(g);
    }
  }

  /** The list in a district. */
  function ListIn(lists: seq<(District, CandidateList)>, d: District): Option<CandidateList> {
    if lists == [] then None
    else if lists[0].0 == d then Some(lists[0].1)
    else ListIn(lists[1..], d)
  }

  /** `l` is the first list made for `d` that is valid there and has a
      candidate left. */
  predicate IsFirstList(g: Group, pairs: seq<(District, CandidateList)>, d: District, l: CandidateList) {
    exists i ::
      && 0 <= i < |pairs| && pairs[i] == (d, l) && Remaining(g, l) != []
      && forall j :: 0 <= j < i && pairs[j].0 == d ==> Remaining(g, pairs[j].1) == []
  }

  lemma {:induction false} ListInAppend(lists: seq<(District, CandidateList)>, x: (District, CandidateList),
                                        d: District)
    ensures ListIn(lists + [x], d)
            == if ListIn(lists, d).Some? then ListIn(lists, d) else if x.0 == d then Some(x.1) else None
    ensures ListIn(lists, d).Some? <==> exists k :: 0 <= k < |lists| && lists[k].0 == d
  {
    if lists == [] {
    } else {
      ListInAppend(lists[1..], x, d);
      assert (lists + [x])[1..] == lists[1..] + [x];
      if ListIn(lists[1..], d).Some? {
        var k :| 0 <= k < |lists[1..]| && lists[1..][k].0 == d;
        assert lists[k + 1].0 == d;
      }
      if k :| 0 <= k < |lists| && lists[k].0 == d {
        assert k > 0 ==> lists[1..][k - 1].0 == d;
      }
    }
  }

  lemma FirstListAppend(g: Group, pairs: seq<(District, CandidateList)>, x: (District, CandidateList),
                        d: District, l: CandidateList)
    ensures IsFirstList(g, pairs + [x], d, l)
            <==> || IsFirstList(g, pairs, d, l)
                 || (x == (d, l) && Remaining(g, l) != []
                     && forall j :: 0 <= j < |pairs| && pairs[j].0 == d ==> Remaining(g, pairs[j].1) == [])
  {
    hide Remaining;
    var more := pairs + [x];
    assert forall j :: 0 <= j < |pairs| ==> more[j] == pairs[j];
    if IsFirstList(g, pairs, d, l) {
      var i :| && 0 <= i < |pairs| && pairs[i] == (d, l) && Remaining(g, l) != []
               && forall j :: 0 <= j < i && pairs[j].0 == d ==> Remaining(g, pairs[j].1) == [];
      assert more[i] == (d, l);
    }
    if x == (d, l) {
      assert more[|pairs|] == (d, l);
    }
  }

  lemma {:induction false} EstablishedInPairs(g: Group, pairs: seq<(District, CandidateList)>,
                                              d: District, l: CandidateList)
    ensures ListIn(ListsOf(Establish(g, pairs)), d) == Some(l) <==> IsFirstList(g, pairs, d, l)
    ensures ListIn(ListsOf(Establish(g, pairs)), d).Some?
            <==> exists j :: 0 <= j < |pairs| && pairs[j].0 == d && Remaining(g, pairs[j].1) != []
  {
    hide Remaining;
    if pairs == [] {
    } else {
      var n := |pairs| - 1;
      var before, x := Establish(g, pairs[..n]), pairs[n];
      EstablishedInPairs(g, pairs[..n], d, l);
      FirstListAppend(g, pairs[..n], x, d, l);
      assert pairs == pairs[..n] + [x];
      ListInAppend(ListsOf(before), x, d);
      ListInAppend(ListsOf(before), x, x.0);
      HasDistrictMeansList(before, x.0);
      if Establish(g, pairs) != before {
        assert ListsOf(Establish(g, pairs)) == ListsOf(before) + [x];
      }
    }
  }

  /** Nothing remains of any of the pairs for a district. */
  predicate NoneRemains(g: Group, pairs: seq<(District, CandidateList)>, d: District) {
    forall j :: 0 <= j < |pairs| && pairs[j].0 == d ==> Remaining(g, pairs[j].1) == []
  }

  lemma NoneRemainsAppend(g: Group, pairs: seq<(District, CandidateList)>, x: (District, CandidateList), d: District)
    ensures NoneRemains(g, pairs + [x], d)
            <==> NoneRemains(g, pairs, d) && (x.0 == d ==> Remaining(g, x.1) == [])
  {
    hide Remaining;
    var more := pairs + [x];
    assert forall j :: 0 <= j < |pairs| ==> more[j] == pairs[j];
    assert more[|pairs|] == x;
  }

  /** Going through the districts of one more list. */
  lemma {:induction false} FirstInOneMore(g: Group, pairs: seq<(District, CandidateList)>, more: CandidateList,
                                          districts: seq<District>, d: District, l: CandidateList)
    ensures var all := pairs + ListPairs(g, more, districts);
            var has := d in districts && !IsDistrictScrapped(g, d);
            && (IsFirstList(g, all, d, l)
                <==> IsFirstList(g, pairs, d, l)
                     || (l == more && has && Remaining(g, l) != [] && NoneRemains(g, pairs, d)))
            && (NoneRemains(g, all, d) <==> NoneRemains(g, pairs, d) && (has ==> Remaining(g, more) == []))
  {
    hide Remaining, IsDistrictScrapped, IsFirstList, NoneRemains;
    if districts == [] {
      assert pairs + ListPairs(g, more, districts) == pairs;
    } else {
      var n := |districts| - 1;
      var last := districts[n];
      FirstInOneMore(g, pairs, more, districts[..n], d, l);
      assert districts == districts[..n] + [last];
      var before := pairs + ListPairs(g, more, districts[..n]);
      if IsDistrictScrapped(g, last) {
        assert ListPairs(g, more, districts) == ListPairs(g, more, districts[..n]);
      } else {
        FirstListNext(g, before, (last, more), d, l);
        NoneRemainsAppend(g, before, (last, more), d);
        assert pairs + ListPairs(g, more, districts) == before + [(last, more)];
      }
    }
  }

  lemma FirstListNext(g: Group, pairs: seq<(District, CandidateList)>, x: (District, CandidateList),
                      d: District, l: CandidateList)
    ensures IsFirstList(g, pairs + [x], d, l)
            <==> IsFirstList(g, pairs, d, l) || (x == (d, l) && Remaining(g, l) != [] && NoneRemains(g, pairs, d))
  {
    hide Remaining, IsFirstList;
    FirstListAppend(g, pairs, x, d, l);
  }

  /** `l` is the first created of the lists that is valid in `d` and has a
      candidate left. */
  predicate IsFirstCreated(g: Group, lists: seq<CandidateList>, d: District, l: CandidateList) {
    exists i ::
      && 0 <= i < |lists| && lists[i] == l && IsValidIn(g, l, d) && Remaining(g, l) != []
      && forall j :: 0 <= j < i && IsValidIn(g, lists[j], d) ==> Remaining(g, lists[j]) == []
  }

  /** None of the lists is valid in `d` with a candidate left. */
  predicate NoneStands(g: Group, lists: seq<CandidateList>, d: District) {
    forall j :: 0 <= j < |lists| && IsValidIn(g, lists[j], d) ==> Remaining(g, lists[j]) == []
  }

  lemma FirstCreatedNext(g: Group, lists: seq<CandidateList>, x: CandidateList, d: District, l: CandidateList)
    ensures IsFirstCreated(g, lists + [x], d, l)
            <==> || IsFirstCreated(g, lists, d, l)
                 || (x == l && IsValidIn(g, l, d) && Remaining(g, l) != [] && NoneStands(g, lists, d))
    ensures NoneStands(g, lists + [x], d)
            <==> NoneStands(g, lists, d) && (IsValidIn(g, x, d) ==> Remaining(g, x) == [])
  {
    hide Remaining, IsValidIn;
    var more := lists + [x];
    assert forall j :: 0 <= j < |lists| ==> more[j] == lists[j];
    assert more[|lists|] == x;
    if IsFirstCreated(g, lists, d, l) {
      var i :| && 0 <= i < |lists| && lists[i] == l && IsValidIn(g, l, d) && Remaining(g, l) != []
               && forall j :: 0 <= j < i && IsValidIn(g, lists[j], d) ==> Remaining(g, lists[j]) == [];
      assert more[i] == l;
    }
    if IsFirstCreated(g, more, d, l) {
      var i :| && 0 <= i < |more| && more[i] == l && IsValidIn(g, l, d) && Remaining(g, l) != []
               && forall j :: 0 <= j < i && IsValidIn(g, more[j], d) ==> Remaining(g, more[j]) == [];
      assert i < |lists| ==> lists[i] == l;
    }
  }

  /** The pairs come in order of creation. */
  lemma {:induction false} FirstPairIsFirstCreated(g: Group, lists: seq<CandidateList>, d: District, l: CandidateList)
    ensures IsFirstList(g, ValidPairs(g, lists), d, l) <==> IsFirstCreated(g, lists, d, l)
    ensures NoneRemains(g, ValidPairs(g, lists), d) <==> NoneStands(g, lists, d)
  {
    if lists == [] {
    } else {
      hide Remaining, IsListScrapped, IsDistrictScrapped, IsFirstList, NoneRemains, IsFirstCreated, NoneStands;
      var n := |lists| - 1;
      var last, pairs := lists[n], ValidPairs(g, lists[..n]);
      FirstPairIsFirstCreated(g, lists[..n], d, l);
      FirstCreatedNext(g, lists[..n], last, d, l);
      assert lists == lists[..n] + [last];
      if IsListScrapped(g, last) {
        assert ValidPairs(g, lists) == pairs;
      } else {
        FirstInOneMore(g, pairs, last, last.districts, d, l);
      }
    }
  }

  /** The established list of a district is the first created list that is valid
      there and has a candidate left, and there is one exactly when some list
      is. */
  lemma EstablishedListIsFirst(g: Group, d: District, l: CandidateList)
    ensures ListIn(ListsOf(EntriesOf(g)), d) == Some(l) <==> IsFirstCreated(g, g.lists, d, l)
    ensures ListIn(ListsOf(EntriesOf(g)), d).None? <==> NoneStands(g, g.lists, d)
  {
    hide Remaining, IsValidIn, IsFirstList, IsFirstCreated, ListIn, Establish, ValidPairs;
    EstablishedInPairs(g, ValidPairs(g, g.lists), d, l);
    FirstPairIsFirstCreated(g, g.lists, d, l);
  }

  lemma HasDistrictMeansList(entries: seq<Entry>, d: District)
    ensures HasDistrict(entries, d) <==> exists k :: 0 <= k < |entries| && ListsOf(entries)[k].0 == d
  {
    if HasDistrict(entries, d) {
      var k :| 0 <= k < |entries| && entries[k].district == d;
      assert ListsOf(entries)[k].0 == d;
    }
  }

  predicate PairsTellApart(pairs: seq<(District, CandidateList)>) {
    forall i, j :: 0 <= i < |pairs| && 0 <= j < |pairs| && pairs[i].0.region == pairs[j].0.region ==>
      pairs[i].0 == pairs[j].0
  }

  /** One list per district, each with its remaining candidates. */
  lemma {:induction false} EstablishedOnePerDistrict(g: Group, pairs: seq<(District, CandidateList)>)
    requires PairsTellApart(pairs)
    ensures var entries := Establish(g, pairs);
            && DistinctRegions(entries)
            && (forall k :: 0 <= k < |entries| ==> entries[k].candidates == Remaining(g, entries[k].list) != [])
            && (forall k :: 0 <= k < |entries| ==> (entries[k].district, entries[k].list) in pairs)
  {
    hide Remaining;
    if pairs == [] {
    } else {
      var n := |pairs| - 1;
      EstablishedOnePerDistrict(g, pairs[..n]);
      var before := Establish(g, pairs[..n]);
      assert pairs == pairs[..n] + [pairs[n]];
      forall k | 0 <= k < |before| ensures (before[k].district, before[k].list) in pairs {
        assert (before[k].district, before[k].list) in pairs[..n];
      }
    }
  }

  lemma ValidPairsTellApart(g: Group)
    requires RegionsTellApart(g)
    ensures PairsTellApart(ValidPairs(g, g.lists))
  {
    hide ValidPairs, IsListScrapped, IsDistrictScrapped;
    var pairs := ValidPairs(g, g.lists);
    forall i | 0 <= i < |pairs| ensures pairs[i].1 in g.lists && pairs[i].0 in pairs[i].1.districts {
      assert pairs[i] == (pairs[i].0, pairs[i].1);
      ValidPairsMembers(g, g.lists, pairs[i].0, pairs[i].1);
    }
  }

  /** From a group to its sets of equal lists. */
  lemma EstablishedIsRight(g: Group)
    requires RegionsTellApart(g)
    ensures DistinctRegions(EntriesOf(g)) && AreEstablished(g, EstablishedOf(EntriesOf(g)))
  {
    hide ValidPairs, Establish, Numbered, IsSetOf;
    ValidPairsTellApart(g);
    EstablishedOnePerDistrict(g, ValidPairs(g, g.lists));
    var entries := EntriesOf(g);
    SetsAreRight(entries);
    NoSetsMeansNothing(entries, SetsOf(entries));
  }

  lemma NoSetsMeansNothing(entries: seq<Entry>, sets: seq<seq<District>>)
    requires AreSetsOf(entries, sets)
    ensures sets == [] <==> entries == []
  {
    if entries != [] {
      assert InSomeSet(sets, entries[0].district);
    }
    if sets != [] {
      assert IsSetOf(entries, sets[0]);
      var c :| IsClass(entries, sets[0], c);
      assert sets[0][0] in sets[0];
    }
  }
}
