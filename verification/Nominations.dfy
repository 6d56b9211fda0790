/**
 A political group's candidate lists as the central electoral committee sees
 them, the omissions found in them, and what the unresolved omissions scrap.
 */
module Nominations {
  import opened Sequences

  const USIZE_MAX := 0xFFFF_FFFF_FFFF_FFFF

  type PersonId = nat
  type ListId = nat
  type OmissionId = nat
  type StreamId = nat

  /** Region numbers tell the districts of one election apart. */
  datatype District = District(region: nat, title: string)

  function Region(d: District): int {
    d.region
  }

  datatype CandidateList = CandidateList(id: ListId, districts: seq<District>, candidates: seq<PersonId>)

  datatype Category =
    | PoliticalGroup
    | Appellation
    | CandidateLists(lists: seq<ListId>)
    | DeclarationsOfSupport(districts: seq<District>)
    | Candidate(person: PersonId, lists: seq<ListId>)

  datatype Status = Pending | Recovered | NotRecovered

  datatype Omission = Omission(
    id: OmissionId, category: Category, recoverable: bool, status: Status,
    description: string, helpText: Option<string>, updatedAt: int)
  {
    predicate IsUnresolved() {
      !recoverable || status == NotRecovered
    }
  }

  /** `lists` are in order of creation; `omissions` is the content of a map with
      its entries in whatever order they come. */
  datatype Group = Group(
    stream: StreamId, isBlank: bool, appellation: string,
    lists: seq<CandidateList>, persons: map<PersonId, string>, omissions: seq<Omission>)

  /** List ids are the keys of a map. */
  predicate DistinctLists(g: Group) {
    forall i, j :: 0 <= i < j < |g.lists| ==> g.lists[i].id != g.lists[j].id
  }

  // ----- what is scrapped

  predicate ScrapsDistrict(o: Omission, d: District) {
    o.IsUnresolved() && o.category.DeclarationsOfSupport?
    && (o.category.districts == [] || d in o.category.districts)
  }

  predicate IsDistrictScrapped(g: Group, d: District) {
    exists k :: 0 <= k < |g.omissions| && ScrapsDistrict(g.omissions[k], d)
  }

  predicate ScrapsList(o: Omission, l: ListId) {
    o.IsUnresolved() && o.category.CandidateLists? && l in o.category.lists
  }

  /** By an omission of its own, or because all of its districts are gone. */
  predicate IsListScrapped(g: Group, l: CandidateList) {
    || (exists k :: 0 <= k < |g.omissions| && ScrapsList(g.omissions[k], l.id))
    || (l.districts != [] && forall d :: d in l.districts ==> IsDistrictScrapped(g, d))
  }

  predicate ScrapsCandidate(o: Omission, l: ListId, p: PersonId) {
    o.IsUnresolved() && o.category.Candidate? && o.category.person == p && l in o.category.lists
  }

  predicate IsCandidateScrapped(g: Group, l: ListId, p: PersonId) {
    exists k :: 0 <= k < |g.omissions| && ScrapsCandidate(g.omissions[k], l, p)
  }

  /** Whether the omission scraps something. */
  predicate Causes(g: Group, o: Omission) {
    o.IsUnresolved() && !o.category.PoliticalGroup? && !(o.category.Appellation? && g.isBlank)
  }

  // ----- scrapping as it is derived

  /** The sets that are filled while the omissions are gone through. `whole` are the
      lists scrapped by an omission of their own, `emptied` those whose districts are
      all gone. */
  datatype Scrapped = Scrapped(
    appellation: set<OmissionId>, allDistricts: bool, districts: set<District>, whole: set<ListId>,
    emptied: set<ListId>, candidates: set<(ListId, PersonId)>, omissions: set<OmissionId>)
  {
    predicate HasDistrict(d: District) {
      allDistricts || d in districts
    }

    predicate HasList(id: ListId) {
      id in whole || id in emptied
    }
  }

  /** What one omission adds. */
  function Scrap(s: Scrapped, isBlank: bool, o: Omission): Scrapped {
    if !o.IsUnresolved() then s
    else match o.category
      case Appellation =>
        if isBlank then s else s.(appellation := s.appellation + {o.id}, omissions := s.omissions + {o.id})
      case PoliticalGroup => s
      case DeclarationsOfSupport(districts) =>
        if districts == [] then s.(allDistricts := true, omissions := s.omissions + {o.id})
        else s.(districts := s.districts + (set d | d in districts), omissions := s.omissions + {o.id})
      case CandidateLists(lists) =>
        s.(whole := s.whole + (set l | l in lists), omissions := s.omissions + {o.id})
      case Candidate(person, lists) =>
        s.(candidates := s.candidates + (set l | l in lists :: (l, person)), omissions := s.omissions + {o.id})
  }

  predicate IsCause(g: Group, id: OmissionId) {
    exists k :: 0 <= k < |g.omissions| && g.omissions[k].id == id && Causes(g, g.omissions[k])
  }

  predicate IsAppellationScrapped(g: Group) {
    exists k :: 0 <= k < |g.omissions| && g.omissions[k].category.Appellation? && Causes(g, g.omissions[k])
  }

  predicate IsWhollyScrapped(g: Group, id: ListId) {
    exists k :: 0 <= k < |g.omissions| && ScrapsList(g.omissions[k], id)
  }

  /** The sets say of the omissions gone through what they scrap. */
  ghost predicate IsDerivedFrom(s: Scrapped, g: Group) {
    && (forall d :: s.HasDistrict(d) <==> IsDistrictScrapped(g, d))
    && (forall id :: id in s.whole <==> IsWhollyScrapped(g, id))
    && (forall id: ListId, p: PersonId :: (id, p) in s.candidates <==> IsCandidateScrapped(g, id, p))
    && (forall id :: id in s.omissions <==> IsCause(g, id))
    && (s.appellation != {} <==> IsAppellationScrapped(g))
  }

  function Upto(g: Group, n: nat): Group
    requires n <= |g.omissions|
  {
    g.(omissions := g.omissions[..n])
  }

  lemma UptoStep(g: Group, n: nat)
    requires n < |g.omissions|
    ensures var a, b, o := Upto(g, n), Upto(g, n + 1), g.omissions[n];
            && (forall d :: IsDistrictScrapped(b, d) <==> IsDistrictScrapped(a, d) || ScrapsDistrict(o, d))
            && (forall id :: IsWhollyScrapped(b, id) <==> IsWhollyScrapped(a, id) || ScrapsList(o, id))
            && (forall id: ListId, p: PersonId :: IsCandidateScrapped(b, id, p) <==>
                  IsCandidateScrapped(a, id, p) || ScrapsCandidate(o, id, p))
            && (forall id :: IsCause(b, id) <==> IsCause(a, id) || (o.id == id && Causes(g, o)))
            && (IsAppellationScrapped(b) <==>
                  IsAppellationScrapped(a) || (o.category.Appellation? && Causes(g, o)))
  {
    hide ScrapsDistrict, ScrapsList, ScrapsCandidate;
    var s, t := g.omissions[..n], g.omissions[..n + 1];
    assert t[n] == g.omissions[n] && forall k :: 0 <= k < n ==> t[k] == s[k];
  }

  lemma ScrapStep(s: Scrapped, g: Group, n: nat)
    requires n < |g.omissions| && IsDerivedFrom(s, Upto(g, n))
    ensures IsDerivedFrom(Scrap(s, g.isBlank, g.omissions[n]), Upto(g, n + 1))
  {
    hide IsDistrictScrapped, IsWhollyScrapped, IsCandidateScrapped, IsCause, IsAppellationScrapped;
    UptoStep(g, n);
  }

  function IsGone(s: Scrapped): District -> bool {
    (d: District) => s.HasDistrict(d)
  }

  lemma {:induction false} AllKept<T>(s: seq<T>, keep: T -> bool)
    ensures |Filter(s, keep)| == |s| <==> forall k :: 0 <= k < |s| ==> keep(s[k])
  {
    if s == [] {
    } else {
      var n := |s| - 1;
      AllKept(s[..n], keep);
      assert forall k :: 0 <= k < n ==> s[..n][k] == s[k];
    }
  }

  /** All districts of the list are gone, and it has some. */
  predicate IsEmptied(g: Group, l: CandidateList) {
    l.districts != [] && forall d :: d in l.districts ==> IsDistrictScrapped(g, d)
  }

  lemma EmptiedMeans(s: Scrapped, g: Group, l: CandidateList)
    requires IsDerivedFrom(s, g)
    ensures var gone := Filter(l.districts, IsGone(s));
            gone != [] && |gone| == |l.districts| <==> IsEmptied(g, l)
  {
    hide IsDistrictScrapped, Filter;
    AllKept(l.districts, IsGone(s));
    forall d | d in l.districts ensures IsGone(s)(d) <==> IsDistrictScrapped(g, d) {}
  }

  /** Going through the omissions and then the lists fills sets that say exactly what
      is scrapped, and by which omissions. */
  method DeriveScrapped(g: Group) returns (s: Scrapped)
    requires DistinctLists(g)
    ensures forall d :: s.HasDistrict(d) <==> IsDistrictScrapped(g, d)
    ensures forall l :: l in g.lists ==> (s.HasList(l.id) <==> IsListScrapped(g, l))
    ensures forall id: ListId, p: PersonId :: (id, p) in s.candidates <==> IsCandidateScrapped(g, id, p)
    ensures forall id :: id in s.omissions <==> IsCause(g, id)
    ensures s.appellation != {} <==> IsAppellationScrapped(g)
  {
    s := Scrapped({}, false, {}, {}, {}, {}, {});
    assert IsDerivedFrom(s, Upto(g, 0));
    hide IsDerivedFrom, Scrap;
    for i := 0 to |g.omissions|
      invariant IsDerivedFrom(s, Upto(g, i)) && s.emptied == {}
    {
      ScrapStep(s, g, i);
      EmptiedStays(s, g.isBlank, g.omissions[i]);
      s := Scrap(s, g.isBlank, g.omissions[i]);
    }
    assert Upto(g, |g.omissions|) == g;
    ghost var derived := s;
    var emptied: set<ListId> := {};
    for i := 0 to |g.lists|
      invariant forall id :: id in emptied <==>
                  exists k :: 0 <= k < i && g.lists[k].id == id && IsEmptied(g, g.lists[k])
    {
      var gone := Filter(g.lists[i].districts, IsGone(s));
      EmptiedMeans(s, g, g.lists[i]);
      if gone != [] && |gone| == |g.lists[i].districts| {
        emptied := emptied + {g.lists[i].id};
      }
    }
    s := s.(emptied := emptied);
    DerivedMeans(derived, g, emptied);
  }

  lemma EmptiedStays(s: Scrapped, isBlank: bool, o: Omission)
    ensures Scrap(s, isBlank, o).emptied == s.emptied
  {}

  lemma DerivedMeans(s: Scrapped, g: Group, emptied: set<ListId>)
    requires IsDerivedFrom(s, g) && DistinctLists(g)
    requires forall id :: id in emptied <==>
               exists k :: 0 <= k < |g.lists| && g.lists[k].id == id && IsEmptied(g, g.lists[k])
    ensures var t := s.(emptied := emptied);
            && (forall d :: t.HasDistrict(d) <==> IsDistrictScrapped(g, d))
            && (forall l :: l in g.lists ==> (t.HasList(l.id) <==> IsListScrapped(g, l)))
            && (forall id: ListId, p: PersonId :: (id, p) in t.candidates <==> IsCandidateScrapped(g, id, p))
            && (forall id :: id in t.omissions <==> IsCause(g, id))
            && (t.appellation != {} <==> IsAppellationScrapped(g))
  {
    hide IsDistrictScrapped, ScrapsList, IsCause, IsCandidateScrapped, IsAppellationScrapped;
    forall l | l in g.lists ensures l.id in emptied <==> IsEmptied(g, l) {
      var j :| 0 <= j < |g.lists| && g.lists[j] == l;
    }
  }

  // ----- what remains

  /** The list stands and is valid in the district. */
  predicate IsValidIn(g: Group, l: CandidateList, d: District) {
    !IsListScrapped(g, l) && d in l.districts && !IsDistrictScrapped(g, d)
  }

  function Remaining(g: Group, l: CandidateList): seq<PersonId> {
    Filter(l.candidates, p => !IsCandidateScrapped(g, l.id, p))
  }

  /** A list once for each of its districts that is not scrapped. */
  function ListPairs(g: Group, l: CandidateList, districts: seq<District>): seq<(District, CandidateList)> {
    if districts == [] then []
    else
      var n := |districts| - 1;
      ListPairs(g, l, districts[..n]) + if IsDistrictScrapped(g, districts[n]) then [] else [(districts[n], l)]
  }

  function ValidPairs(g: Group, lists: seq<CandidateList>): seq<(District, CandidateList)> {
    if lists == [] then []
    else
      var n := |lists| - 1;
      ValidPairs(g, lists[..n])
      + if IsListScrapped(g, lists[n]) then [] else ListPairs(g, lists[n], lists[n].districts)
  }

  /** One list, in each of its districts that is not scrapped. */
  method PairDistricts(g: Group, list: CandidateList) returns (pairs: seq<(District, CandidateList)>)
    ensures pairs == ListPairs(g, list, list.districts)
  {
    hide IsDistrictScrapped;
    pairs := [];
    for j := 0 to |list.districts|
      invariant pairs == ListPairs(g, list, list.districts[..j])
    {
      assert list.districts[..j + 1][..j] == list.districts[..j];
      if !IsDistrictScrapped(g, list.districts[j]) {
        pairs := pairs + [(list.districts[j], list)];
      }
    }
    assert list.districts[..|list.districts|] == list.districts;
  }

  method ValidListsByDistrict(g: Group) returns (valid: seq<(District, CandidateList)>)
    ensures valid == ValidPairs(g, g.lists)
  {
    hide IsListScrapped, ListPairs;
    valid := [];
    for i := 0 to |g.lists|
      invariant valid == ValidPairs(g, g.lists[..i])
    {
      assert g.lists[..i + 1][..i] == g.lists[..i];
      if IsListScrapped(g, g.lists[i]) {
        continue;
      }
      var pairs := PairDistricts(g, g.lists[i]);
      valid := valid + pairs;
    }
    assert g.lists[..|g.lists|] == g.lists;
  }

  lemma {:induction false} ListPairsMembers(g: Group, l: CandidateList, districts: seq<District>,
                                            d: District, m: CandidateList)
    ensures (d, m) in ListPairs(g, l, districts) <==> m == l && d in districts && !IsDistrictScrapped(g, d)
  {
    if districts == [] {
    } else {
      var n := |districts| - 1;
      ListPairsMembers(g, l, districts[..n], d, m);
      assert districts == districts[..n] + [districts[n]];
    }
  }

  /** The pairs are exactly the lists where they are valid. */
  lemma {:induction false} ValidPairsMembers(g: Group, lists: seq<CandidateList>, d: District, l: CandidateList)
    ensures (d, l) in ValidPairs(g, lists) <==> l in lists && IsValidIn(g, l, d)
  {
    hide IsListScrapped, IsDistrictScrapped, ListPairs;
    if lists == [] {
    } else {
      var n := |lists| - 1;
      ValidPairsMembers(g, lists[..n], d, l);
      ListPairsMembers(g, lists[n], lists[n].districts, d, l);
      assert l in lists <==> l in lists[..n] || l == lists[n];
      assert ValidPairs(g, lists) == ValidPairs(g, lists[..n])
             + if IsListScrapped(g, lists[n]) then [] else ListPairs(g, lists[n], lists[n].districts);
    }
  }
}
