/**
 Two views of the valid lists per district, computed independently: the I 4
 collects them in store order and sorts them by the position of their group,
 the publication walks the groups in list order.
 */
module Publications {
  import opened Sequences
  import opened Ordering
  import opened Nominations

  /** A list as printed: candidates renumbered from one, with their person. */
  datatype ValidList = ValidList(appellation: string, candidates: seq<(nat, string)>)

  datatype NumberedList = NumberedList(number: nat, list: ValidList)

  /** A list with the position of its group. */
  datatype Placed = Placed(position: nat, list: ValidList)

  datatype Failure = Conflict | PersonNotFound | DistrictNotFound

  // ----- the candidates of a list

  predicate AllKnown(g: Group, people: seq<PersonId>) {
    forall k :: 0 <= k < |people| ==> people[k] in g.persons
  }

  /** The remaining candidates, numbered; fails on an unknown person. */
  function ValidCandidates(g: Group, l: CandidateList): Option<seq<(nat, string)>> {
    var people := Remaining(g, l);
    if AllKnown(g, people)
    then Some(seq(|people|, k requires 0 <= k < |people| => (k + 1, g.persons[people[k]])))
    else None
  }

  /** Where a candidate who is not scrapped is printed: after the ones above
      that are not scrapped either. */
  function PrintedPosition(g: Group, l: CandidateList, i: nat): nat
    requires i < |l.candidates|
  {
    |Filter(l.candidates[..i], p => !IsCandidateScrapped(g, l.id, p))| + 1
  }

  /** Every candidate of a list valid in a district is either scrapped from it,
      or printed once at its own position; positions run from one without gaps
      and keep the order of the list. */
  lemma CandidateIsScrappedOrPrinted(g: Group, l: CandidateList, i: nat)
    requires i < |l.candidates| && ValidCandidates(g, l).Some?
    ensures var rows, at := ValidCandidates(g, l).value, PrintedPosition(g, l, i);
            !IsCandidateScrapped(g, l.id, l.candidates[i]) ==>
              && 1 <= at <= |rows| && l.candidates[i] in g.persons
              && rows[at - 1] == (at, g.persons[l.candidates[i]])
    ensures forall j :: 0 <= j < i && !IsCandidateScrapped(g, l.id, l.candidates[j]) ==>
              PrintedPosition(g, l, j) < PrintedPosition(g, l, i)
  {
    hide Filter, IsCandidateScrapped;
    var keep := (p: PersonId) => !IsCandidateScrapped(g, l.id, p);
    var all := l.candidates;
    PositionInFilter(all, keep, i);
    forall j | 0 <= j < i && !IsCandidateScrapped(g, l.id, all[j])
      ensures PrintedPosition(g, l, j) < PrintedPosition(g, l, i)
    {
      assert all[..i][..j] == all[..j];
      PositionInFilter(all[..i], keep, j);
    }
  }

  /** A kept element stands in the filtered sequence behind the kept elements
      before it. */
  lemma PositionInFilter<T>(s: seq<T>, keep: T -> bool, i: nat)
    requires i < |s|
    ensures var at := |Filter(s[..i], keep)|;
            keep(s[i]) ==> at < |Filter(s, keep)| && Filter(s, keep)[at] == s[i]
  {
    assert s == s[..i + 1] + s[i + 1..];
    FilterConcat(s[..i + 1], s[i + 1..], keep);
    assert s[..i + 1][..i] == s[..i];
  }

  /** Nobody else is printed: each row is a candidate that is not scrapped. */
  lemma PrintedIsNotScrapped(g: Group, l: CandidateList, k: nat)
    requires ValidCandidates(g, l).Some? && k < |ValidCandidates(g, l).value|
    ensures var p := Remaining(g, l)[k];
            && p in l.candidates && !IsCandidateScrapped(g, l.id, p) && p in g.persons
            && ValidCandidates(g, l).value[k] == (k + 1, g.persons[p])
  {
    FilterMember(l.candidates, (p: PersonId) => !IsCandidateScrapped(g, l.id, p), Remaining(g, l)[k]);
  }

  /** Every candidate of a list, in each of the list's districts, is in exactly
      one of three classes: the list or the district is gone, the candidate is
      scrapped from a list that is valid there, or the list is printed there
      with the candidate on it. */
  lemma CandidateHasOneClass(g: Group, l: CandidateList, d: District, i: nat)
    requires l in g.lists && d in l.districts && i < |l.candidates|
    ensures var gone := IsListScrapped(g, l) || IsDistrictScrapped(g, d);
            var valid := (d, l) in ValidPairs(g, g.lists);
            var struck := valid && IsCandidateScrapped(g, l.id, l.candidates[i]);
            var printed := valid && l.candidates[i] in Remaining(g, l);
            && (gone || struck || printed)
            && !(gone && struck) && !(gone && printed) && !(struck && printed)
  {
    hide IsListScrapped, IsDistrictScrapped, IsCandidateScrapped;
    ValidPairsMembers(g, g.lists, d, l);
    FilterMember(l.candidates, (p: PersonId) => !IsCandidateScrapped(g, l.id, p), l.candidates[i]);
  }

  // ----- the rows of a group

  function RowsOf(g: Group, pairs: seq<(District, CandidateList)>): Option<seq<(District, ValidList)>> {
    if pairs == [] then Some([])
    else
      var n := |pairs| - 1;
      match (RowsOf(g, pairs[..n]), ValidCandidates(g, pairs[n].1))
      case (Some(rows), Some(candidates)) => Some(rows + [(pairs[n].0, ValidList(g.appellation, candidates))])
      case _ => None
  }

  function ValidLists(g: Group): Option<seq<(District, ValidList)>> {
    RowsOf(g, ValidPairs(g, g.lists))
  }

  /** The lists among `rows` for one district, in order. */
  function ForDistrict(rows: seq<(District, ValidList)>, d: District): seq<ValidList> {
    if rows == [] then []
    else
      var n := |rows| - 1;
      ForDistrict(rows[..n], d) + if rows[n].0 == d then [rows[n].1] else []
  }

  function ListsIn(g: Group, d: District): seq<ValidList> {
    match ValidLists(g) case None => [] case Some(rows) => ForDistrict(rows, d)
  }

  // ----- what is printed

  /** `v` is the list `l` of the group as printed: the group's appellation, and the
      remaining candidates in order, numbered from one, by their person. */
  predicate IsPrintOf(g: Group, l: CandidateList, v: ValidList) {
    && v.appellation == g.appellation && |v.candidates| == |Remaining(g, l)|
    && forall j :: 0 <= j < |Remaining(g, l)| ==>
         Remaining(g, l)[j] in g.persons && v.candidates[j] == (j + 1, g.persons[Remaining(g, l)[j]])
  }

  lemma PrintMeans(g: Group, l: CandidateList)
    ensures ValidCandidates(g, l).Some? <==> forall j :: 0 <= j < |Remaining(g, l)| ==> Remaining(g, l)[j] in g.persons
    ensures ValidCandidates(g, l).Some? ==> IsPrintOf(g, l, ValidList(g.appellation, ValidCandidates(g, l).value))
  {
    hide Remaining;
  }

  lemma PrintIsUnique(g: Group, l: CandidateList, v: ValidList, w: ValidList)
    requires IsPrintOf(g, l, v) && IsPrintOf(g, l, w)
    ensures v == w
  {
    hide Remaining;
    assert v.candidates == w.candidates;
  }

  lemma {:induction false} RowsArePrints(g: Group, pairs: seq<(District, CandidateList)>)
    ensures RowsOf(g, pairs).Some? <==> forall k :: 0 <= k < |pairs| ==> ValidCandidates(g, pairs[k].1).Some?
    ensures RowsOf(g, pairs).Some? ==>
              && |RowsOf(g, pairs).value| == |pairs|
              && forall k :: 0 <= k < |pairs| ==>
                   RowsOf(g, pairs).value[k].0 == pairs[k].0 && IsPrintOf(g, pairs[k].1, RowsOf(g, pairs).value[k].1)
  {
    hide ValidCandidates, IsPrintOf;
    if pairs == [] {
    } else {
      var n := |pairs| - 1;
      RowsArePrints(g, pairs[..n]);
      PrintMeans(g, pairs[n].1);
      assert forall k :: 0 <= k < n ==> pairs[..n][k] == pairs[k];
    }
  }

  /** The lists of the pairs for one district. */
  function ListsFor(pairs: seq<(District, CandidateList)>, d: District): seq<CandidateList> {
    if pairs == [] then []
    else
      var n := |pairs| - 1;
      if pairs[n].0 == d then ListsFor(pairs[..n], d) + [pairs[n].1] else ListsFor(pairs[..n], d)
  }

  /** One after the other, the printed lists are those of the given ones. */
  predicate ArePrintsOf(g: Group, lists: seq<CandidateList>, printed: seq<ValidList>) {
    |printed| == |lists| && forall k :: 0 <= k < |lists| ==> IsPrintOf(g, lists[k], printed[k])
  }

  lemma {:induction false} DistrictPrints(g: Group, pairs: seq<(District, CandidateList)>,
                                          rows: seq<(District, ValidList)>, d: District)
    requires |rows| == |pairs|
    requires forall k :: 0 <= k < |pairs| ==> rows[k].0 == pairs[k].0 && IsPrintOf(g, pairs[k].1, rows[k].1)
    ensures ArePrintsOf(g, ListsFor(pairs, d), ForDistrict(rows, d))
  {
    hide IsPrintOf;
    if pairs == [] {
    } else {
      var n := |pairs| - 1;
      DistrictPrints(g, pairs[..n], rows[..n], d);
    }
  }

  lemma {:induction false} ListsForMember(pairs: seq<(District, CandidateList)>, d: District, l: CandidateList)
    ensures l in ListsFor(pairs, d) <==> (d, l) in pairs
  {
    if pairs == [] {
    } else {
      var n := |pairs| - 1;
      ListsForMember(pairs[..n], d, l);
      assert (d, l) in pairs <==> (d, l) in pairs[..n] || pairs[n] == (d, l);
      assert pairs[n] == (pairs[n].0, pairs[n].1);
    }
  }

  lemma ListsForConcat(a: seq<(District, CandidateList)>, x: (District, CandidateList), d: District)
    ensures ListsFor(a + [x], d) == if x.0 == d then ListsFor(a, d) + [x.1] else ListsFor(a, d)
  {
    assert (a + [x])[..|a|] == a;
  }

  predicate NamesNoDistrictTwice(g: Group) {
    forall k :: 0 <= k < |g.lists| ==> NoDistrictTwice(g.lists[k].districts)
  }

  function ValidHere(g: Group, d: District): CandidateList -> bool {
    (l: CandidateList) => IsValidIn(g, l, d)
  }

  lemma {:induction false} OneListFor(g: Group, before: seq<(District, CandidateList)>, l: CandidateList,
                                      districts: seq<District>, d: District)
    requires forall i, j :: 0 <= i < j < |districts| ==> districts[i] != districts[j]
    ensures ListsFor(before + ListPairs(g, l, districts), d)
            == if d in districts && !IsDistrictScrapped(g, d) then ListsFor(before, d) + [l] else ListsFor(before, d)
  {
    hide IsDistrictScrapped, ListsFor;
    if districts == [] {
      assert before + ListPairs(g, l, districts) == before;
    } else {
      var n := |districts| - 1;
      OneListFor(g, before, l, districts[..n], d);
      assert d in districts <==> d in districts[..n] || d == districts[n];
      var pairs := before + ListPairs(g, l, districts[..n]);
      ListsForConcat(pairs, (districts[n], l), d);
      if !IsDistrictScrapped(g, districts[n]) {
        assert before + ListPairs(g, l, districts) == pairs + [(districts[n], l)];
      } else {
        assert ListPairs(g, l, districts) == ListPairs(g, l, districts[..n]);
      }
    }
  }

  lemma ValidPairsAppend(g: Group, lists: seq<CandidateList>, l: CandidateList)
    ensures ValidPairs(g, lists + [l])
            == if IsListScrapped(g, l) then ValidPairs(g, lists)
               else ValidPairs(g, lists) + ListPairs(g, l, l.districts)
  {
    hide IsListScrapped, ListPairs;
    assert (lists + [l])[..|lists|] == lists;
  }

  predicate NoDistrictTwice(districts: seq<District>) {
    forall i, j :: 0 <= i < j < |districts| ==> districts[i] != districts[j]
  }

  lemma NextValidList(g: Group, before: seq<CandidateList>, l: CandidateList, d: District)
    requires NoDistrictTwice(l.districts)
    requires ListsFor(ValidPairs(g, before), d) == Filter(before, ValidHere(g, d))
    ensures ListsFor(ValidPairs(g, before + [l]), d) == Filter(before + [l], ValidHere(g, d))
  {
    OneListFor(g, ValidPairs(g, before), l, l.districts, d);
    hide *;
    ValidHereMeans(g, l, d);
    FilterAppend(before, l, ValidHere(g, d));
    ValidPairsAppend(g, before, l);
  }

  lemma ValidHereMeans(g: Group, l: CandidateList, d: District)
    ensures ValidHere(g, d)(l) <==> !IsListScrapped(g, l) && d in l.districts && !IsDistrictScrapped(g, d)
  {
    hide IsListScrapped, IsDistrictScrapped;
  }

  lemma {:induction false} ValidListsInOrder(g: Group, lists: seq<CandidateList>, d: District)
    requires forall k :: 0 <= k < |lists| ==> NoDistrictTwice(lists[k].districts)
    ensures ListsFor(ValidPairs(g, lists), d) == Filter(lists, ValidHere(g, d))
  {
    hide *;
    if lists == [] {
      NoValidLists(g, lists, d);
    } else {
      var n := |lists| - 1;
      ValidListsInOrder(g, lists[..n], d);
      NextValidList(g, lists[..n], lists[n], d);
      FrontAndLast(lists);
    }
  }

  lemma NoValidLists(g: Group, lists: seq<CandidateList>, d: District)
    requires lists == []
    ensures ListsFor(ValidPairs(g, lists), d) == Filter(lists, ValidHere(g, d))
  {
  }

  /** What a group prints in a district: its valid lists there and nothing else, and in
      order of creation, each once, where no list names a district twice. */
  ghost predicate IsGroupPrint(g: Group, d: District, printed: seq<ValidList>) {
    && (forall v :: v in printed <==> exists l :: l in g.lists && IsValidIn(g, l, d) && IsPrintOf(g, l, v))
    && (NamesNoDistrictTwice(g) ==> ArePrintsOf(g, Filter(g.lists, ValidHere(g, d)), printed))
  }

  /** The lists of a group in a district are what it is to print there. */
  lemma ListsInMeans(g: Group, d: District)
    requires ValidLists(g).Some?
    ensures IsGroupPrint(g, d, ListsIn(g, d))
  {
    hide ValidPairs, RowsOf, ForDistrict, IsPrintOf, IsValidIn, ListsFor, NoDistrictTwice, Filter;
    var pairs, printed := ValidPairs(g, g.lists), ListsIn(g, d);
    RowsArePrints(g, pairs);
    DistrictPrints(g, pairs, ValidLists(g).value, d);
    var lists := ListsFor(pairs, d);
    forall v ensures v in printed <==> exists l :: l in g.lists && IsValidIn(g, l, d) && IsPrintOf(g, l, v) {
      if v in printed {
        var k :| 0 <= k < |printed| && printed[k] == v;
        ListsForMember(pairs, d, lists[k]);
        ValidPairsMembers(g, g.lists, d, lists[k]);
      }
      if l :| l in g.lists && IsValidIn(g, l, d) && IsPrintOf(g, l, v) {
        ValidPairsMembers(g, g.lists, d, l);
        ListsForMember(pairs, d, l);
        var k :| 0 <= k < |lists| && lists[k] == l;
        PrintIsUnique(g, l, v, printed[k]);
      }
    }
    if NamesNoDistrictTwice(g) {
      ValidListsInOrder(g, g.lists, d);
    }
  }

  /** A group is readable when every remaining candidate of a list that is valid
      somewhere is a known person. */
  ghost predicate IsReadable(g: Group) {
    forall l, d, j :: l in g.lists && IsValidIn(g, l, d) && 0 <= j < |Remaining(g, l)| ==>
      Remaining(g, l)[j] in g.persons
  }

  lemma ReadableMeans(g: Group)
    ensures ValidLists(g).Some? <==> IsReadable(g)
  {
    hide ValidPairs, RowsOf, IsValidIn, Remaining, ValidCandidates;
    var pairs := ValidPairs(g, g.lists);
    RowsArePrints(g, pairs);
    forall k | 0 <= k < |pairs|
      ensures pairs[k].1 in g.lists && IsValidIn(g, pairs[k].1, pairs[k].0)
    {
      assert pairs[k] == (pairs[k].0, pairs[k].1);
      ValidPairsMembers(g, g.lists, pairs[k].0, pairs[k].1);
    }
    if IsReadable(g) {
      forall k | 0 <= k < |pairs| ensures ValidCandidates(g, pairs[k].1).Some? {
        PrintMeans(g, pairs[k].1);
      }
    }
    if ValidLists(g).Some? {
      forall l, d, j | l in g.lists && IsValidIn(g, l, d) && 0 <= j < |Remaining(g, l)|
        ensures Remaining(g, l)[j] in g.persons
      {
        ValidPairsMembers(g, g.lists, d, l);
        var k :| 0 <= k < |pairs| && pairs[k] == (d, l);
        assert ValidCandidates(g, pairs[k].1).Some?;
        PrintMeans(g, l);
      }
    }
  }

  /** The third class, seen on the document: a candidate who is not scrapped from a list
      valid in a district stands on a list printed there, under the own number. */
  lemma PrintedMeansOnTheDocument(g: Group, l: CandidateList, d: District, i: nat)
    requires ValidLists(g).Some? && l in g.lists && i < |l.candidates|
    ensures IsValidIn(g, l, d) && !IsCandidateScrapped(g, l.id, l.candidates[i])
            <==> exists v, j :: && v in ListsIn(g, d) && IsValidIn(g, l, d) && IsPrintOf(g, l, v)
                                && 0 <= j < |v.candidates| && Remaining(g, l)[j] == l.candidates[i]
  {
    hide ListsIn, ValidLists, IsValidIn, IsCandidateScrapped;
    FilterMember(l.candidates, (p: PersonId) => !IsCandidateScrapped(g, l.id, p), l.candidates[i]);
    hide Remaining;
    ListsInMeans(g, d);
    if IsValidIn(g, l, d) && !IsCandidateScrapped(g, l.id, l.candidates[i]) {
      var j :| 0 <= j < |Remaining(g, l)| && Remaining(g, l)[j] == l.candidates[i];
      var v := PrintOf(g, l, d);
      assert v in ListsIn(g, d) && |v.candidates| == |Remaining(g, l)|;
    }
  }

  lemma PrintOf(g: Group, l: CandidateList, d: District) returns (v: ValidList)
    requires ValidLists(g).Some? && l in g.lists && IsValidIn(g, l, d)
    ensures v in ListsIn(g, d) && IsPrintOf(g, l, v)
  {
    hide ListsIn, ValidLists, IsValidIn, Remaining;
    ReadableMeans(g);
    PrintMeans(g, l);
    v := ValidList(g.appellation, ValidCandidates(g, l).value);
    ListsInMeans(g, d);
  }

  // ----- maps of growing sequences

  /** What a map of sequences holds for a key; nothing for a missing one. */
  function At<K, V>(m: map<K, seq<V>>, k: K): seq<V> {
    if k in m then m[k] else []
  }

  // ----- the I 4

  /** The position of a stream in the order; behind everything when absent. */
  function Position(order: seq<StreamId>, s: StreamId): (p: nat)
    ensures s in order ==> p < |order| && order[p] == s
    ensures s !in order ==> p == USIZE_MAX
  {
    if s !in order then USIZE_MAX
    else if order[0] == s then 0
    else
      var p := Position(order[1..], s);
      p + 1
  }

  /** A run of lists that share a key. */
  datatype Block = Block(key: nat, lists: seq<ValidList>)

  function Tagged(key: nat, lists: seq<ValidList>): (r: seq<Placed>)
    ensures |r| == |lists| && forall k :: 0 <= k < |lists| ==> r[k] == Placed(key, lists[k])
  {
    seq(|lists|, k requires 0 <= k < |lists| => Placed(key, lists[k]))
  }

  function Flatten(blocks: seq<Block>): seq<Placed> {
    if blocks == [] then []
    else Flatten(blocks[..|blocks| - 1]) + Tagged(blocks[|blocks| - 1].key, blocks[|blocks| - 1].lists)
  }

  /** The lists of a district as the I 4 collects them, group by group in store
      order, each with the position of its group. */
  function StoreBlocks(stores: seq<Group>, order: seq<StreamId>, d: District): (r: seq<Block>)
    ensures |r| == |stores|
    ensures forall k :: 0 <= k < |stores| ==> r[k] == Block(Position(order, stores[k].stream), ListsIn(stores[k], d))
  {
    seq(|stores|, k requires 0 <= k < |stores| =>
      Block(Position(order, stores[k].stream), ListsIn(stores[k], d)))
  }

  function Key(x: Placed): int {
    x.position
  }

  function Untagged(s: seq<Placed>): (r: seq<ValidList>)
    ensures |r| == |s| && forall k :: 0 <= k < |s| ==> r[k] == s[k].list
  {
    seq(|s|, k requires 0 <= k < |s| => s[k].list)
  }

  function Collected(stores: seq<Group>, order: seq<StreamId>, d: District): seq<Placed> {
    Flatten(StoreBlocks(stores, order, d))
  }

  /** The lists of a district in the I 4. */
  function I4Lists(stores: seq<Group>, order: seq<StreamId>, d: District): seq<ValidList> {
    Untagged(Sort(Collected(stores, order, d), KeyLe(Key)))
  }

  predicate AllReadable(stores: seq<Group>) {
    forall k :: 0 <= k < |stores| ==> ValidLists(stores[k]).Some?
  }

  lemma NextStore(stores: seq<Group>, order: seq<StreamId>, n: nat, d: District)
    requires n < |stores|
    ensures Collected(stores[..n + 1], order, d)
            == Collected(stores[..n], order, d)
               + Tagged(Position(order, stores[n].stream), ListsIn(stores[n], d))
  {
    var blocks := StoreBlocks(stores[..n + 1], order, d);
    assert blocks[..n] == StoreBlocks(stores[..n], order, d);
  }

  lemma NextRow(rows: seq<(District, ValidList)>, j: nat, key: nat, d: District)
    requires j < |rows|
    ensures Tagged(key, ForDistrict(rows[..j + 1], d))
            == Tagged(key, ForDistrict(rows[..j], d)) + (if rows[j].0 == d then [Placed(key, rows[j].1)] else [])
  {
    assert rows[..j + 1][..j] == rows[..j];
  }

  lemma NothingTagged(key: nat)
    ensures Tagged(key, []) == []
  {}

  /** Pushing to one key. */
  lemma AtPush<K, V>(m: map<K, seq<V>>, key: K, x: V, k: K)
    ensures At(m[key := At(m, key) + [x]], k) == At(m, k) + if k == key then [x] else []
  {}

  /** The inner loop: each row of a group goes to its district. */
  method PushRows(before: map<District, seq<Placed>>, position: nat, rows: seq<(District, ValidList)>)
    returns (m: map<District, seq<Placed>>)
    ensures forall d :: At(m, d) == At(before, d) + Tagged(position, ForDistrict(rows, d))
    ensures (forall d :: d in before ==> before[d] != []) ==> forall d :: d in m ==> m[d] != []
  {
    hide ForDistrict, At, Tagged;
    m := before;
    NoRows(rows[..0]);
    NothingTagged(position);
    for j := 0 to |rows|
      invariant forall d :: At(m, d) == At(before, d) + Tagged(position, ForDistrict(rows[..j], d))
      invariant (forall d :: d in before ==> before[d] != []) ==> forall d :: d in m ==> m[d] != []
    {
      var district := rows[j].0;
      var next := m[district := At(m, district) + [Placed(position, rows[j].1)]];
      forall d ensures At(next, d) == At(before, d) + Tagged(position, ForDistrict(rows[..j + 1], d)) {
        NextRow(rows, j, position, d);
        AtPush(m, district, Placed(position, rows[j].1), d);
      }
      m := next;
    }
    assert rows[..|rows|] == rows;
  }

  /** Fails when a person is unknown, and otherwise holds for each district with
      a valid list the collected lists in group order. */
  method I4ValidLists(stores: seq<Group>, order: seq<StreamId>) returns (r: Option<map<District, seq<ValidList>>>)
    ensures r.Some? <==> AllReadable(stores)
    ensures r.Some? ==> forall d :: At(r.value, d) == I4Lists(stores, order, d)
    ensures r.Some? ==> forall d :: d in r.value ==> r.value[d] != []
    ensures r.Some? ==> forall d :: IsI4(stores, d, At(r.value, d))
  {
    hide IsI4, Collected, ForDistrict, ValidLists, Position, Sort;
    var byDistrict: map<District, seq<Placed>> := map[];
    NoStores(stores[..0], order);
    for i := 0 to |stores|
      invariant AllReadable(stores[..i])
      invariant forall d :: At(byDistrict, d) == Collected(stores[..i], order, d)
      invariant forall d :: d in byDistrict ==> byDistrict[d] != []
    {
      var position := Position(order, stores[i].stream);
      var valid := ValidLists(stores[i]);
      if valid.None? {
        return None;
      }
      byDistrict := PushRows(byDistrict, position, valid.value);
      forall d ensures At(byDistrict, d) == Collected(stores[..i + 1], order, d) {
        NextStore(stores, order, i, d);
      }
    }
    assert stores[..|stores|] == stores;
    var sorted := map d | d in byDistrict :: Untagged(Sort(byDistrict[d], KeyLe(Key)));
    SortOfNothing();
    forall d ensures IsI4(stores, d, At(sorted, d)) {
      I4IsI4(stores, order, d);
      assert At(sorted, d) == I4Lists(stores, order, d);
    }
    return Some(sorted);
  }

  lemma NoStores(stores: seq<Group>, order: seq<StreamId>)
    requires stores == []
    ensures forall d :: Collected(stores, order, d) == []
  {}

  lemma NoRows(rows: seq<(District, ValidList)>)
    requires rows == []
    ensures forall d :: ForDistrict(rows, d) == []
  {}

  lemma SortOfNothing()
    ensures Sort([], KeyLe(Key)) == []
  {}

  // ----- the publication

  /** The position of the store of a stream, or the number of stores. */
  function FindStore(stores: seq<Group>, s: StreamId): (k: nat)
    ensures k <= |stores|
    ensures k < |stores| ==> stores[k].stream == s
    ensures forall i :: 0 <= i < k ==> stores[i].stream != s
  {
    if stores == [] || stores[0].stream == s then 0 else 1 + FindStore(stores[1..], s)
  }

  function Numbered(number: nat, lists: seq<ValidList>): (r: seq<NumberedList>)
    ensures |r| == |lists| && forall k :: 0 <= k < |lists| ==> r[k] == NumberedList(number, lists[k])
  {
    seq(|lists|, k requires 0 <= k < |lists| => NumberedList(number, lists[k]))
  }

  /** The lists of a district in the publication: group by group in list order,
      numbered by the place of their group. */
  function PublishedLists(stores: seq<Group>, order: seq<StreamId>, d: District): seq<NumberedList> {
    if order == [] then []
    else
      var n := |order| - 1;
      var k := FindStore(stores, order[n]);
      PublishedLists(stores, order[..n], d) + if k < |stores| then Numbered(n + 1, ListsIn(stores[k], d)) else []
  }

  /** What goes wrong with one group of the order, if anything. */
  function GroupFailure(stores: seq<Group>, districts: seq<District>, s: StreamId): Option<Failure> {
    var k := FindStore(stores, s);
    if k == |stores| then Some(Conflict)
    else match ValidLists(stores[k])
      case None => Some(PersonNotFound)
      case Some(rows) => if AllWithin(rows, districts) then None else Some(DistrictNotFound)
  }

  predicate AllWithin(rows: seq<(District, ValidList)>, districts: seq<District>) {
    forall k :: 0 <= k < |rows| ==> rows[k].0 in districts
  }

  method PushNumbered(before: map<District, seq<NumberedList>>, number: nat, rows: seq<(District, ValidList)>)
    returns (m: Option<map<District, seq<NumberedList>>>)
    ensures m.Some? <==> forall k :: 0 <= k < |rows| ==> rows[k].0 in before
    ensures m.Some? ==> m.value.Keys == before.Keys
                        && forall d :: At(m.value, d) == At(before, d) + Numbered(number, ForDistrict(rows, d))
  {
    hide ForDistrict;
    var lists := before;
    NoRows(rows[..0]);
    for j := 0 to |rows|
      invariant lists.Keys == before.Keys
      invariant forall k :: 0 <= k < j ==> rows[k].0 in before
      invariant forall d :: At(lists, d) == At(before, d) + Numbered(number, ForDistrict(rows[..j], d))
    {
      var (district, list) := rows[j];
      if district !in lists {
        return None;
      }
      var next := lists[district := lists[district] + [NumberedList(number, list)]];
      forall d ensures At(next, d) == At(before, d) + Numbered(number, ForDistrict(rows[..j + 1], d)) {
        NextNumbered(rows, j, number, d);
        AtPush(lists, district, NumberedList(number, list), d);
      }
      lists := next;
    }
    assert rows[..|rows|] == rows;
    return Some(lists);
  }

  lemma NextNumbered(rows: seq<(District, ValidList)>, j: nat, number: nat, d: District)
    requires j < |rows|
    ensures Numbered(number, ForDistrict(rows[..j + 1], d))
            == Numbered(number, ForDistrict(rows[..j], d))
               + (if rows[j].0 == d then [NumberedList(number, rows[j].1)] else [])
  {
    assert rows[..j + 1][..j] == rows[..j];
  }

  /** One group of the order. */
  method PushGroup(stores: seq<Group>, districts: seq<District>, lists: map<District, seq<NumberedList>>,
                   number: nat, s: StreamId)
    returns (r: Result<map<District, seq<NumberedList>>, Failure>)
    requires lists.Keys == (set d | d in districts)
    ensures r.Ok? <==> GroupFailure(stores, districts, s).None?
    ensures r.Err? ==> GroupFailure(stores, districts, s) == Some(r.error)
    ensures r.Ok? ==> r.value.Keys == lists.Keys
    ensures r.Ok? ==> forall d :: At(r.value, d) == At(lists, d) + Numbered(number, ListsOfStream(stores, s, d))
  {
    hide ValidLists, ForDistrict, FindStore, Numbered, At;
    var k := FindStore(stores, s);
    if k == |stores| {
      return Err(Conflict);
    }
    var valid := ValidLists(stores[k]);
    if valid.None? {
      return Err(PersonNotFound);
    }
    var pushed := PushNumbered(lists, number, valid.value);
    if pushed.None? {
      return Err(DistrictNotFound);
    }
    return Ok(pushed.value);
  }

  /** The loop over the order. */
  method PublishAll(stores: seq<Group>, districts: seq<District>, order: seq<StreamId>)
    returns (r: Result<map<District, seq<NumberedList>>, Failure>)
    ensures r.Ok? <==> forall k :: 0 <= k < |order| ==> GroupFailure(stores, districts, order[k]).None?
    ensures r.Err? ==> exists k ::
              && 0 <= k < |order| && GroupFailure(stores, districts, order[k]) == Some(r.error)
              && forall j :: 0 <= j < k ==> GroupFailure(stores, districts, order[j]).None?
    ensures r.Ok? ==> && r.value.Keys == (set d | d in districts)
                      && forall d :: At(r.value, d) == PublishedLists(stores, order, d)
  {
    hide GroupFailure, PublishedLists, Numbered, ListsOfStream, At;
    var lists: map<District, seq<NumberedList>> := map d | d in districts :: [];
    NothingYet(lists);
    NoOrder(stores, order[..0]);
    for i := 0 to |order|
      invariant lists.Keys == (set d | d in districts)
      invariant forall k :: 0 <= k < i ==> GroupFailure(stores, districts, order[k]).None?
      invariant forall d :: At(lists, d) == PublishedLists(stores, order[..i], d)
    {
      var pushed := PushGroup(stores, districts, lists, i + 1, order[i]);
      if pushed.Err? {
        return Err(pushed.error);
      }
      forall d ensures At(pushed.value, d) == PublishedLists(stores, order[..i + 1], d) {
        NextPublished(stores, order, i, d);
      }
      lists := pushed.value;
    }
    assert order[..|order|] == order;
    return Ok(lists);
  }

  /** Fails with the failure of the first group in the order that has one, and
      otherwise holds for every district of the election its published lists. */
  method PublishedListsByDistrict(stores: seq<Group>, districts: seq<District>, order: seq<StreamId>)
    returns (r: Result<map<District, seq<NumberedList>>, Failure>)
    ensures r.Ok? <==> forall k :: 0 <= k < |order| ==> GroupFailure(stores, districts, order[k]).None?
    ensures r.Err? ==> exists k ::
              && 0 <= k < |order| && GroupFailure(stores, districts, order[k]) == Some(r.error)
              && forall j :: 0 <= j < k ==> GroupFailure(stores, districts, order[j]).None?
    ensures r.Ok? ==> && r.value.Keys == (set d | d in districts)
                      && forall d :: At(r.value, d) == PublishedLists(stores, order, d)
    ensures r.Ok? ==> forall d :: IsPublication(stores, order, d, At(r.value, d))
  {
    hide GroupFailure, PublishedLists, IsPublication, At;
    r := PublishAll(stores, districts, order);
    if r.Ok? {
      forall d ensures IsPublication(stores, order, d, At(r.value, d)) {
        PublishedIsPublication(stores, districts, order, d);
      }
    }
  }

  lemma NothingYet<K(!new), V>(m: map<K, seq<V>>)
    requires forall k :: k in m ==> m[k] == []
    ensures forall k :: At(m, k) == []
  {}

  lemma NoOrder(stores: seq<Group>, order: seq<StreamId>)
    requires order == []
    ensures forall d :: PublishedLists(stores, order, d) == []
  {}

  lemma NextPublished(stores: seq<Group>, order: seq<StreamId>, n: nat, d: District)
    requires n < |order|
    ensures PublishedLists(stores, order[..n + 1], d)
            == PublishedLists(stores, order[..n], d) + Numbered(n + 1, ListsOfStream(stores, order[n], d))
  {
    hide FindStore, ListsIn;
    assert order[..n + 1][..n] == order[..n];
    assert Numbered(n + 1, []) == [];
  }

  // ----- what is published

  function NumberIs(n: nat): NumberedList -> bool {
    (x: NumberedList) => x.number == n
  }

  predicate NumbersAscend(lists: seq<NumberedList>) {
    forall i, j :: 0 <= i < j < |lists| ==> lists[i].number <= lists[j].number
  }

  function WithoutNumbers(lists: seq<NumberedList>): (r: seq<ValidList>)
    ensures |r| == |lists| && forall k :: 0 <= k < |lists| ==> r[k] == lists[k].list
  {
    seq(|lists|, k requires 0 <= k < |lists| => lists[k].list)
  }

  predicate NumbersWithin(lists: seq<NumberedList>, n: nat) {
    forall k :: 0 <= k < |lists| ==> 1 <= lists[k].number <= n
  }

  lemma BlockGoesBehind(front: seq<NumberedList>, n: nat, lists: seq<ValidList>)
    requires NumbersAscend(front) && NumbersWithin(front, n)
    ensures NumbersAscend(front + Numbered(n + 1, lists)) && NumbersWithin(front + Numbered(n + 1, lists), n + 1)
  {}

  lemma {:induction false} NumbersArePlaces(stores: seq<Group>, order: seq<StreamId>, d: District)
    ensures NumbersAscend(PublishedLists(stores, order, d))
    ensures NumbersWithin(PublishedLists(stores, order, d), |order|)
  {
    if order == [] {
    } else {
      hide PublishedLists, ListsOfStream, Numbered, NumbersAscend, NumbersWithin;
      var m := |order| - 1;
      NumbersArePlaces(stores, order[..m], d);
      LastPublished(stores, order, d);
      BlockGoesBehind(PublishedLists(stores, order[..m], d), m, ListsOfStream(stores, order[m], d));
    }
  }

  lemma BlockOfNumber(front: seq<NumberedList>, m: nat, lists: seq<ValidList>, n: nat)
    ensures Filter(front + Numbered(m, lists), NumberIs(n))
            == if n == m then Filter(front, NumberIs(n)) + Numbered(m, lists) else Filter(front, NumberIs(n))
    ensures n == m && Filter(front, NumberIs(n)) == [] ==>
              Filter(front + Numbered(m, lists), NumberIs(n)) == Numbered(m, lists)
  {
    FilterConcat(front, Numbered(m, lists), NumberIs(n));
    FilterAllOrNothing(Numbered(m, lists), NumberIs(n), n == m);
  }

  lemma LastPublished(stores: seq<Group>, order: seq<StreamId>, d: District)
    requires order != []
    ensures var m := |order| - 1;
            PublishedLists(stores, order, d)
            == PublishedLists(stores, order[..m], d) + Numbered(m + 1, ListsOfStream(stores, order[m], d))
  {
    hide PublishedLists, ListsOfStream, Numbered;
    NextPublished(stores, order, |order| - 1, d);
    assert order[..|order|] == order;
  }

  lemma {:induction false} PublishedByNumber(stores: seq<Group>, order: seq<StreamId>, d: District, n: nat)
    ensures Filter(PublishedLists(stores, order, d), NumberIs(n))
            == if 1 <= n <= |order| then Numbered(n, ListsOfStream(stores, order[n - 1], d)) else []
  {
    hide *;
    if order == [] {
      NothingOfNumber(stores, order, d, n);
    } else {
      var m := |order| - 1;
      var front, lists := PublishedLists(stores, order[..m], d), ListsOfStream(stores, order[m], d);
      PublishedByNumber(stores, order[..m], d, n);
      LastPublished(stores, order, d);
      BlockOfNumber(front, m + 1, lists, n);
    }
  }

  lemma NothingOfNumber(stores: seq<Group>, order: seq<StreamId>, d: District, n: nat)
    requires order == []
    ensures Filter(PublishedLists(stores, order, d), NumberIs(n)) == []
  {
  }

  /** What the publication holds for a district: numbers ascend and are places in the
      order, and under each number stands what the group at that place prints. */
  ghost predicate IsPublication(stores: seq<Group>, order: seq<StreamId>, d: District, lists: seq<NumberedList>) {
    && NumbersAscend(lists) && NumbersWithin(lists, |order|)
    && forall n, k :: 1 <= n <= |order| && k == FindStore(stores, order[n - 1]) && k < |stores| ==>
         IsGroupPrint(stores[k], d, WithoutNumbers(Filter(lists, NumberIs(n))))
  }

  lemma PublishedIsPublication(stores: seq<Group>, districts: seq<District>, order: seq<StreamId>, d: District)
    requires forall k :: 0 <= k < |order| ==> GroupFailure(stores, districts, order[k]).None?
    ensures IsPublication(stores, order, d, PublishedLists(stores, order, d))
  {
    hide PublishedLists, FindStore, IsGroupPrint, ListsIn, Filter, ValidLists;
    var lists := PublishedLists(stores, order, d);
    NumbersArePlaces(stores, order, d);
    forall n, k | 1 <= n <= |order| && k == FindStore(stores, order[n - 1]) && k < |stores|
      ensures IsGroupPrint(stores[k], d, WithoutNumbers(Filter(lists, NumberIs(n))))
    {
      PublishedByNumber(stores, order, d, n);
      assert GroupFailure(stores, districts, order[n - 1]).None?;
      ListsInMeans(stores[k], d);
      assert WithoutNumbers(Numbered(n, ListsIn(stores[k], d))) == ListsIn(stores[k], d);
    }
  }

  /** Why a group of the order stops the publication: it is not among the examined
      ones, a person to be printed is unknown, or a list is valid in a district that is
      not one of the election. */
  lemma GroupFailureMeans(stores: seq<Group>, districts: seq<District>, s: StreamId)
    ensures var k := FindStore(stores, s);
            && (GroupFailure(stores, districts, s) == Some(Conflict)
                <==> forall i :: 0 <= i < |stores| ==> stores[i].stream != s)
            && (GroupFailure(stores, districts, s) == Some(PersonNotFound)
                <==> k < |stores| && !IsReadable(stores[k]))
            && (GroupFailure(stores, districts, s) == Some(DistrictNotFound)
                <==> && k < |stores| && IsReadable(stores[k])
                     && exists l, d :: l in stores[k].lists && IsValidIn(stores[k], l, d) && d !in districts)
  {
    var k := FindStore(stores, s);
    if k < |stores| {
      hide FindStore, IsReadable, ValidPairs, RowsOf, IsValidIn;
      var g := stores[k];
      ReadableMeans(g);
      if ValidLists(g).Some? {
        RowsStayWithin(g, districts);
      }
    }
  }

  lemma RowsStayWithin(g: Group, districts: seq<District>)
    requires ValidLists(g).Some?
    ensures AllWithin(ValidLists(g).value, districts)
            <==> forall l, d :: l in g.lists && IsValidIn(g, l, d) ==> d in districts
  {
    hide ValidPairs, RowsOf, IsValidIn, IsPrintOf;
    var pairs, rows := ValidPairs(g, g.lists), ValidLists(g).value;
    RowsArePrints(g, pairs);
    if AllWithin(rows, districts) {
      forall l, d | l in g.lists && IsValidIn(g, l, d) ensures d in districts {
        ValidPairsMembers(g, g.lists, d, l);
        var k :| 0 <= k < |pairs| && pairs[k] == (d, l);
        assert rows[k].0 == d;
      }
    }
    if forall l, d :: l in g.lists && IsValidIn(g, l, d) ==> d in districts {
      forall k | 0 <= k < |rows| ensures rows[k].0 in districts {
        assert pairs[k] == (pairs[k].0, pairs[k].1);
        ValidPairsMembers(g, g.lists, pairs[k].0, pairs[k].1);
      }
    }
  }

  // ----- what the I 4 holds

  lemma {:induction false} FlattenMember(blocks: seq<Block>, x: Placed)
    ensures x in Flatten(blocks)
            <==> exists k :: 0 <= k < |blocks| && blocks[k].key == x.position && x.list in blocks[k].lists
  {
    if blocks == [] {
    } else {
      var n := |blocks| - 1;
      FlattenMember(blocks[..n], x);
      var front, last := Flatten(blocks[..n]), Tagged(blocks[n].key, blocks[n].lists);
      assert x in last <==> blocks[n].key == x.position && x.list in blocks[n].lists by {
        if blocks[n].key == x.position && x.list in blocks[n].lists {
          var j :| 0 <= j < |blocks[n].lists| && blocks[n].lists[j] == x.list;
          assert last[j] == x;
        }
      }
      hide Tagged;
      assert forall k :: 0 <= k < n ==> blocks[..n][k] == blocks[k];
    }
  }

  lemma I4Member(stores: seq<Group>, order: seq<StreamId>, d: District, v: ValidList)
    ensures v in I4Lists(stores, order, d) <==> exists k :: 0 <= k < |stores| && v in ListsIn(stores[k], d)
  {
    hide Flatten, Sort, ListsIn, Position;
    var blocks, collected := StoreBlocks(stores, order, d), Collected(stores, order, d);
    var sorted := Sort(collected, KeyLe(Key));
    if v in I4Lists(stores, order, d) {
      var i :| 0 <= i < |sorted| && sorted[i].list == v;
      SortKeepsMembers(collected, KeyLe(Key), sorted[i]);
      FlattenMember(blocks, sorted[i]);
    }
    if k :| 0 <= k < |stores| && v in ListsIn(stores[k], d) {
      var x := Placed(blocks[k].key, v);
      FlattenMember(blocks, x);
      SortKeepsMembers(collected, KeyLe(Key), x);
      var i :| 0 <= i < |sorted| && sorted[i] == x;
      assert I4Lists(stores, order, d)[i] == v;
    }
  }

  /** The I 4 holds for a district exactly the valid lists of the examined groups there,
      as they are to be printed. */
  ghost predicate IsI4(stores: seq<Group>, d: District, lists: seq<ValidList>) {
    forall v :: v in lists <==>
      exists k, l :: && 0 <= k < |stores| && l in stores[k].lists
                     && IsValidIn(stores[k], l, d) && IsPrintOf(stores[k], l, v)
  }

  lemma I4IsI4(stores: seq<Group>, order: seq<StreamId>, d: District)
    requires AllReadable(stores)
    ensures IsI4(stores, d, I4Lists(stores, order, d))
  {
    hide I4Lists, ListsIn, ValidLists, IsValidIn, IsPrintOf;
    var lists := I4Lists(stores, order, d);
    forall k | 0 <= k < |stores| ensures IsGroupPrint(stores[k], d, ListsIn(stores[k], d)) {
      ListsInMeans(stores[k], d);
    }
    forall v ensures v in lists <==> exists k, l :: && 0 <= k < |stores| && l in stores[k].lists
                                                    && IsValidIn(stores[k], l, d) && IsPrintOf(stores[k], l, v)
    {
      I4Member(stores, order, d, v);
    }
  }

  // ----- the two views agree

  predicate DistinctStreams(stores: seq<Group>) {
    forall i, j :: 0 <= i < j < |stores| ==> stores[i].stream != stores[j].stream
  }

  predicate Distinct(order: seq<StreamId>) {
    forall i, j :: 0 <= i < j < |order| ==> order[i] != order[j]
  }

  function ListsOfStream(stores: seq<Group>, s: StreamId, d: District): seq<ValidList> {
    var k := FindStore(stores, s);
    if k < |stores| then ListsIn(stores[k], d) else []
  }

  /** The lists of the groups the order leaves out, in store order. */
  function UnlistedLists(stores: seq<Group>, order: seq<StreamId>, d: District): seq<ValidList> {
    if stores == [] then []
    else
      var n := |stores| - 1;
      UnlistedLists(stores[..n], order, d) + if stores[n].stream in order then [] else ListsIn(stores[n], d)
  }

  /** The same lists as blocks in the order they end up in. */
  function OrderBlocks(stores: seq<Group>, order: seq<StreamId>, d: District): (r: seq<Block>)
    ensures |r| == |order| + 1
    ensures forall k :: 0 <= k < |order| ==> r[k] == Block(k, ListsOfStream(stores, order[k], d))
    ensures r[|order|] == Block(USIZE_MAX, UnlistedLists(stores, order, d))
  {
    seq(|order|, k requires 0 <= k < |order| => Block(k, ListsOfStream(stores, order[k], d)))
    + [Block(USIZE_MAX, UnlistedLists(stores, order, d))]
  }

  /** The lists with one key, over all blocks. */
  function KeyItems(blocks: seq<Block>, key: int): seq<ValidList> {
    if blocks == [] then []
    else
      var n := |blocks| - 1;
      KeyItems(blocks[..n], key) + if blocks[n].key == key then blocks[n].lists else []
  }

  lemma BlockTies(key: nat, lists: seq<ValidList>, x: Placed)
    ensures Ties(Tagged(key, lists), x, KeyLe(Key)) == if key == x.position then Tagged(key, lists) else []
  {
    KeyLeMeans(Key);
    TiesAllOrNone(Tagged(key, lists), x, KeyLe(Key), key == x.position);
  }

  lemma {:induction false} FlattenTies(blocks: seq<Block>, x: Placed)
    ensures Ties(Flatten(blocks), x, KeyLe(Key)) == Tagged(x.position, KeyItems(blocks, x.position))
  {
    hide Ties;
    if blocks == [] {
      BlockTies(0, [], x);
      assert Tagged(0, []) == [];
    } else {
      var n := |blocks| - 1;
      FlattenTies(blocks[..n], x);
      TiesConcat(Flatten(blocks[..n]), Tagged(blocks[n].key, blocks[n].lists), x, KeyLe(Key));
      BlockTies(blocks[n].key, blocks[n].lists, x);
    }
  }

  lemma {:induction false} FlattenIsBounded(blocks: seq<Block>, bound: int)
    requires forall i :: 0 <= i < |blocks| ==> blocks[i].key <= bound
    ensures forall k :: 0 <= k < |Flatten(blocks)| ==> Flatten(blocks)[k].position <= bound
  {
    if blocks == [] {
    } else {
      FlattenIsBounded(blocks[..|blocks| - 1], bound);
    }
  }

  lemma {:induction false} FlattenIsSorted(blocks: seq<Block>)
    requires forall i, j :: 0 <= i < j < |blocks| ==> blocks[i].key <= blocks[j].key
    ensures SortedBy(Flatten(blocks), KeyLe(Key))
  {
    KeyLeMeans(Key);
    if blocks == [] {
    } else {
      var n := |blocks| - 1;
      FlattenIsSorted(blocks[..n]);
      FlattenIsBounded(blocks[..n], blocks[n].key);
      LastBlockSorts(Flatten(blocks[..n]), blocks[n]);
    }
  }

  lemma LastBlockSorts(front: seq<Placed>, last: Block)
    requires SortedBy(front, KeyLe(Key)) && forall k :: 0 <= k < |front| ==> front[k].position <= last.key
    ensures SortedBy(front + Tagged(last.key, last.lists), KeyLe(Key))
  {
    KeyLeMeans(Key);
  }

  lemma PositionMeans(order: seq<StreamId>, s: StreamId, key: int)
    requires Distinct(order) && |order| <= USIZE_MAX
    ensures Position(order, s) == key
            <==> if 0 <= key < |order| then order[key] == s else key == USIZE_MAX && s !in order
  {}

  lemma {:induction false} FindStoreAppend(stores: seq<Group>, g: Group, s: StreamId)
    ensures FindStore(stores + [g], s) == if FindStore(stores, s) < |stores| then FindStore(stores, s)
                                          else if g.stream == s then |stores| else |stores| + 1
  {
    var k, l := FindStore(stores, s), FindStore(stores + [g], s);
    assert forall i :: 0 <= i < |stores| ==> (stores + [g])[i] == stores[i];
    assert (stores + [g])[|stores|] == g;
  }

  /** A position of the order selects the lists of the group at it. */
  lemma {:induction false} StoreKeyItemsAt(stores: seq<Group>, order: seq<StreamId>, d: District, key: nat)
    requires DistinctStreams(stores) && Distinct(order) && key < |order| <= USIZE_MAX
    ensures KeyItems(StoreBlocks(stores, order, d), key) == ListsOfStream(stores, order[key], d)
  {
    hide ListsIn, Position, FindStore, KeyItems;
    if stores == [] {
      NoKeyItems(StoreBlocks(stores, order, d), key);
    } else {
      var n := |stores| - 1;
      var g := stores[n];
      StoreKeyItemsAt(stores[..n], order, d, key);
      assert StoreBlocks(stores, order, d)[..n] == StoreBlocks(stores[..n], order, d);
      LastBlockItems(StoreBlocks(stores, order, d), key);
      PositionMeans(order, g.stream, key);
      assert stores == stores[..n] + [g];
      FindStoreAppend(stores[..n], g, order[key]);
    }
  }

  lemma {:induction false} StoreKeyItemsBeyond(stores: seq<Group>, order: seq<StreamId>, d: District, key: int)
    requires Distinct(order) && |order| <= USIZE_MAX && !(0 <= key < |order|)
    ensures KeyItems(StoreBlocks(stores, order, d), key)
            == if key == USIZE_MAX then UnlistedLists(stores, order, d) else []
  {
    hide ListsIn, Position;
    if stores == [] {
    } else {
      var n := |stores| - 1;
      StoreKeyItemsBeyond(stores[..n], order, d, key);
      assert StoreBlocks(stores, order, d)[..n] == StoreBlocks(stores[..n], order, d);
      PositionMeans(order, stores[n].stream, key);
    }
  }

  lemma {:induction false} OrderKeyItems(blocks: seq<Block>, n: nat, key: int)
    requires n <= |blocks| && forall k :: 0 <= k < n ==> blocks[k].key == k
    ensures KeyItems(blocks[..n], key) == if 0 <= key < n then blocks[key].lists else []
  {
    if n == 0 {
    } else {
      assert blocks[..n][..n - 1] == blocks[..n - 1];
      OrderKeyItems(blocks, n - 1, key);
    }
  }

  /** Sorting what was collected in store order gives the groups in list order,
      and behind them the groups the list order leaves out. */
  lemma SortedCollection(stores: seq<Group>, order: seq<StreamId>, d: District)
    requires DistinctStreams(stores) && Distinct(order) && |order| <= USIZE_MAX
    ensures Sort(Collected(stores, order, d), KeyLe(Key)) == Flatten(OrderBlocks(stores, order, d))
  {
    hide Ties, KeyItems, Flatten, Sort, UnlistedLists, ListsOfStream;
    var collected, blocks := Collected(stores, order, d), OrderBlocks(stores, order, d);
    var sorted, target := Sort(collected, KeyLe(Key)), Flatten(blocks);
    KeyLeIsTotal(Key);
    SortSorts(collected, KeyLe(Key));
    FlattenIsSorted(blocks);
    forall x ensures Ties(sorted, x, KeyLe(Key)) == Ties(target, x, KeyLe(Key)) {
      SortIsStable(collected, x, KeyLe(Key));
      FlattenTies(StoreBlocks(stores, order, d), x);
      FlattenTies(blocks, x);
      if x.position < |order| {
        StoreKeyItemsAt(stores, order, d, x.position);
      } else {
        StoreKeyItemsBeyond(stores, order, d, x.position);
      }
      LastBlockItems(blocks, x.position);
      OrderKeyItems(blocks, |order|, x.position);
    }
    SortedWithTiesIsUnique(sorted, target, KeyLe(Key));
  }

  lemma NoKeyItems(blocks: seq<Block>, key: int)
    requires blocks == []
    ensures KeyItems(blocks, key) == []
  {}

  lemma LastBlockItems(blocks: seq<Block>, key: int)
    requires blocks != []
    ensures var n := |blocks| - 1;
            KeyItems(blocks, key) == KeyItems(blocks[..n], key) + if blocks[n].key == key then blocks[n].lists else []
  {}

  lemma {:induction false} FlattenedIsPublished(stores: seq<Group>, order: seq<StreamId>, d: District, n: nat)
    requires n <= |order|
    ensures Untagged(Flatten(OrderBlocks(stores, order, d)[..n]))
            == WithoutNumbers(PublishedLists(stores, order[..n], d))
  {
    var blocks := OrderBlocks(stores, order, d);
    if n == 0 {
    } else {
      hide ListsIn, OrderBlocks, PublishedLists, Flatten, FindStore, Untagged, WithoutNumbers, Numbered;
      FlattenedIsPublished(stores, order, d, n - 1);
      assert blocks[..n][..n - 1] == blocks[..n - 1];
      LastFlattened(blocks[..n]);
      NextPublished(stores, order, n - 1, d);
      NumbersComeOff(PublishedLists(stores, order[..n - 1], d), n, ListsOfStream(stores, order[n - 1], d));
    }
  }

  lemma NumbersComeOff(before: seq<NumberedList>, number: nat, lists: seq<ValidList>)
    ensures WithoutNumbers(before + Numbered(number, lists)) == WithoutNumbers(before) + lists
  {}

  /** The I 4 and the publication agree on every district but for the groups the
      list order leaves out: the I 4 prints those behind the others. */
  lemma I4IsPublicationThenUnlisted(stores: seq<Group>, order: seq<StreamId>, d: District)
    requires DistinctStreams(stores) && Distinct(order) && |order| <= USIZE_MAX
    ensures I4Lists(stores, order, d)
            == WithoutNumbers(PublishedLists(stores, order, d)) + UnlistedLists(stores, order, d)
  {
    hide Flatten, Sort, PublishedLists, UnlistedLists;
    SortedCollection(stores, order, d);
    FlattenedIsPublished(stores, order, d, |order|);
    assert order[..|order|] == order;
    LastFlattened(OrderBlocks(stores, order, d));
  }

  lemma LastFlattened(blocks: seq<Block>)
    requires blocks != []
    ensures var n := |blocks| - 1;
            Untagged(Flatten(blocks)) == Untagged(Flatten(blocks[..n])) + blocks[n].lists
  {
    hide Tagged, Untagged;
    var n := |blocks| - 1;
    TagsComeOff(Flatten(blocks[..n]), blocks[n].key, blocks[n].lists);
  }

  lemma TagsComeOff(before: seq<Placed>, key: nat, lists: seq<ValidList>)
    ensures Untagged(before + Tagged(key, lists)) == Untagged(before) + lists
  {}

  lemma {:induction false} NoneUnlisted(stores: seq<Group>, order: seq<StreamId>, d: District)
    requires forall k :: 0 <= k < |stores| ==> stores[k].stream in order
    ensures UnlistedLists(stores, order, d) == []
  {
    hide Tagged, Untagged;
    if stores == [] {
    } else {
      NoneUnlisted(stores[..|stores| - 1], order, d);
    }
  }

  /** When the order lists every examined group once, the two views print the
      same lists with the same rows in the same order. */
  lemma I4AgreesWithPublication(stores: seq<Group>, order: seq<StreamId>, d: District)
    requires DistinctStreams(stores) && Distinct(order) && |order| <= USIZE_MAX
    requires forall k :: 0 <= k < |stores| ==> stores[k].stream in order
    ensures I4Lists(stores, order, d) == WithoutNumbers(PublishedLists(stores, order, d))
  {
    I4IsPublicationThenUnlisted(stores, order, d);
    NoneUnlisted(stores, order, d);
  }

  /** They agree on a district exactly when no group the order leaves out has a
      valid list there. */
  lemma AgreementMeansNothingLeftOut(stores: seq<Group>, order: seq<StreamId>, d: District)
    requires DistinctStreams(stores) && Distinct(order) && |order| <= USIZE_MAX
    ensures I4Lists(stores, order, d) == WithoutNumbers(PublishedLists(stores, order, d))
            <==> forall k :: 0 <= k < |stores| && stores[k].stream !in order ==> ListsIn(stores[k], d) == []
  {
    I4IsPublicationThenUnlisted(stores, order, d);
    UnlistedMeans(stores, order, d);
    hide I4Lists, PublishedLists, UnlistedLists, ListsIn;
    assert I4Lists(stores, order, d) == WithoutNumbers(PublishedLists(stores, order, d))
           ==> |UnlistedLists(stores, order, d)| == 0;
  }

  lemma {:induction false} UnlistedMeans(stores: seq<Group>, order: seq<StreamId>, d: District)
    ensures UnlistedLists(stores, order, d) == []
            <==> forall k :: 0 <= k < |stores| && stores[k].stream !in order ==> ListsIn(stores[k], d) == []
  {
    hide ListsIn;
    if stores == [] {
    } else {
      var n := |stores| - 1;
      UnlistedMeans(stores[..n], order, d);
      assert forall k :: 0 <= k < n ==> stores[..n][k] == stores[k];
    }
  }

  lemma {:induction false} FindStoreAt(stores: seq<Group>, k: nat)
    requires DistinctStreams(stores) && k < |stores|
    ensures FindStore(stores, stores[k].stream) == k
  {
    var found := FindStore(stores, stores[k].stream);
    assert found <= k;
  }

  /** A publication that succeeds has read every group of the order. */
  lemma PublishedIsReadable(stores: seq<Group>, districts: seq<District>, order: seq<StreamId>)
    requires DistinctStreams(stores)
    requires forall k :: 0 <= k < |stores| ==> stores[k].stream in order
    requires forall k :: 0 <= k < |order| ==> GroupFailure(stores, districts, order[k]).None?
    ensures AllReadable(stores)
  {
    hide ValidLists, FindStore;
    forall j | 0 <= j < |stores| ensures ValidLists(stores[j]).Some? {
      var k :| 0 <= k < |order| && order[k] == stores[j].stream;
      assert GroupFailure(stores, districts, order[k]).None?;
      FindStoreAt(stores, j);
    }
  }

  /** Both views of the same stores, as they are computed. Where both succeed the
      I 4 holds what was published, followed by what the order leaves out; when
      the order leaves out nothing, a publication that succeeds is the I 4. */
  method BothViews(stores: seq<Group>, districts: seq<District>, order: seq<StreamId>)
    returns (i4: Option<map<District, seq<ValidList>>>, published: Result<map<District, seq<NumberedList>>, Failure>)
    requires DistinctStreams(stores) && Distinct(order) && |order| <= USIZE_MAX
    ensures i4.Some? && published.Ok? ==> forall d ::
              At(i4.value, d) == WithoutNumbers(At(published.value, d)) + UnlistedLists(stores, order, d)
    ensures published.Ok? && (forall k :: 0 <= k < |stores| ==> stores[k].stream in order) ==>
              i4.Some? && forall d :: At(i4.value, d) == WithoutNumbers(At(published.value, d))
  {
    hide I4Lists, PublishedLists, UnlistedLists, WithoutNumbers, ValidLists, GroupFailure;
    i4 := I4ValidLists(stores, order);
    published := PublishedListsByDistrict(stores, districts, order);
    forall d ensures I4Lists(stores, order, d)
                     == WithoutNumbers(PublishedLists(stores, order, d)) + UnlistedLists(stores, order, d)
    {
      I4IsPublicationThenUnlisted(stores, order, d);
    }
    if published.Ok? && forall k :: 0 <= k < |stores| ==> stores[k].stream in order {
      PublishedIsReadable(stores, districts, order);
      forall d ensures I4Lists(stores, order, d) == WithoutNumbers(PublishedLists(stores, order, d)) {
        I4AgreesWithPublication(stores, order, d);
      }
    }
  }

  /** A group with one list in one district, of one known candidate. */
  function OneListGroup(s: StreamId, d: District): Group {
    Group(s, false, "list", [CandidateList(1, [d], [7])], map[7 := "person"], [])
  }

  lemma OneListPairs(g: Group, d: District, l: CandidateList)
    requires g.lists == [l] && l.districts == [d] && g.omissions == []
    ensures ValidPairs(g, g.lists) == [(d, l)]
  {
    assert !IsDistrictScrapped(g, d) && l.districts[0] in l.districts;
    assert !IsListScrapped(g, l);
    hide IsListScrapped, IsDistrictScrapped;
    assert ListPairs(g, l, l.districts) == [(d, l)];
    assert ValidPairs(g, g.lists[..0]) == [];
  }

  lemma OneCandidateIsPrinted(g: Group, l: CandidateList, p: PersonId)
    requires l.candidates == [p] && g.omissions == [] && p in g.persons
    ensures ValidCandidates(g, l) == Some([(1, g.persons[p])])
  {
    assert !IsCandidateScrapped(g, l.id, p);
    hide IsCandidateScrapped;
    assert Remaining(g, l) == [p];
    hide Remaining;
    assert ValidCandidates(g, l).value == [(1, g.persons[p])];
  }

  lemma OneRow(g: Group, d: District, l: CandidateList)
    requires ValidCandidates(g, l).Some?
    ensures var list := ValidList(g.appellation, ValidCandidates(g, l).value);
            RowsOf(g, [(d, l)]) == Some([(d, list)]) && ForDistrict([(d, list)], d) == [list]
  {
    hide ValidCandidates;
    var pairs, rows := [(d, l)], [(d, ValidList(g.appellation, ValidCandidates(g, l).value))];
    assert pairs[..0] == [] && RowsOf(g, pairs[..0]) == Some([]);
    assert RowsOf(g, pairs) == Some([] + rows) && [] + rows == rows;
    assert rows[..0] == [] && ForDistrict(rows[..0], d) == [];
  }

  lemma OneListIsPrinted(s: StreamId, d: District)
    ensures ListsIn(OneListGroup(s, d), d) == [ValidList("list", [(1, "person")])]
  {
    hide ValidPairs, ValidCandidates, RowsOf, ForDistrict;
    var g := OneListGroup(s, d);
    OneListPairs(g, d, g.lists[0]);
    OneCandidateIsPrinted(g, g.lists[0], 7);
    OneRow(g, d, g.lists[0]);
  }

  /** Two groups and an order that omits the second: the I 4 prints a list the
      publication does not have. */
  lemma LeftOutGroupShows(d: District)
    ensures var stores := [OneListGroup(0, d), OneListGroup(1, d)];
            I4Lists(stores, [0], d) != WithoutNumbers(PublishedLists(stores, [0], d))
  {
    hide I4Lists, PublishedLists, WithoutNumbers, ListsIn;
    var stores := [OneListGroup(0, d), OneListGroup(1, d)];
    OneListIsPrinted(1, d);
    AgreementMeansNothingLeftOut(stores, [0], d);
    assert stores[1].stream !in [0];
  }
}
