/** The candidates scrapped from lists that stay valid, one row per candidate. */
module RemovedCandidates {
  import opened Sequences
  import opened Ordering
  import opened Nominations
  import opened DistrictLabels
  import opened Grouping
  import opened OmissionLetter

  // ----- where a candidate is missed

  /** Lists that still carry the person, in the districts where they are valid. */
  function StillValid(g: Group, p: PersonId): Choice {
    Choice((l: CandidateList) => p in l.candidates && !IsListScrapped(g, l), (d: District) => !IsDistrictScrapped(g, d))
  }

  function ValidDistricts(g: Group, p: PersonId, ids: seq<ListId>): Option<seq<District>> {
    match FindAll(g.lists, ids)
    case None => None
    case Some(lists) => Some(DistrictsOf(lists, StillValid(g, p)))
  }

  method ValidDistrictsWithCandidate(g: Group, p: PersonId, ids: seq<ListId>) returns (r: Option<seq<District>>)
    ensures r == ValidDistricts(g, p, ids)
  {
    var lists := FindAll(g.lists, ids);
    if lists.None? {
      return None;
    }
    var valid := CollectDistricts(lists.value, StillValid(g, p));
    return Some(valid);
  }

  /** The districts where one of the named lists is valid and carries the person. */
  lemma ValidDistrictsMeans(g: Group, p: PersonId, ids: seq<ListId>, d: District)
    requires ValidDistricts(g, p, ids).Some?
    ensures d in ValidDistricts(g, p, ids).value
            <==> exists k :: 0 <= k < |ids| && IsMissedOn(g, p, ids[k], d)
    ensures NoRepeats(ValidDistricts(g, p, ids).value)
  {
    hide FindList, IsListScrapped, IsDistrictScrapped, DistrictsOf;
    var lists := FindAll(g.lists, ids).value;
    FindAllMeans(g.lists, ids);
    CollectsEachOnce(lists, StillValid(g, p));
    assert forall k :: 0 <= k < |ids| ==> FindList(g.lists, ids[k]) == Some(lists[k]);
  }

  predicate IsMissedOn(g: Group, p: PersonId, id: ListId, d: District) {
    match FindList(g.lists, id) case None => false case Some(l) => p in l.candidates && IsValidIn(g, l, d)
  }

  // ----- the rows

  /** The omissions that are reported: they cost a candidate a place on a list
      that is valid somewhere. */
  function Reported(g: Group): Omission -> bool {
    (o: Omission) =>
      && Causes(g, o) && IsCandidate(o)
      && ValidDistricts(g, o.category.person, o.category.lists).Some?
      && ValidDistricts(g, o.category.person, o.category.lists).value != []
  }

  function RowLabel(g: Group, election: seq<District>): Omission -> string {
    (o: Omission) =>
      if Reported(g)(o)
      then FormatDistricts(ValidDistricts(g, o.category.person, o.category.lists).value, election) else ""
  }

  datatype Content = Content(rows: seq<Row<string, string>>)

  const NO_ROWS := Content([])

  function Reason(g: Group, o: Omission): Item<string, string> {
    if IsCandidate(o) then Item(o.category.person, Name(g, o.category.person), o.description) else Item(0, "", "")
  }

  function PushingReason(g: Group): (Content, Omission) -> Content {
    (c: Content, o: Omission) => Content(PushUnder(c.rows, Reason(g, o)))
  }

  function Reasons(g: Group, os: seq<Omission>): (r: seq<Item<string, string>>)
    ensures |r| == |os| && forall k :: 0 <= k < |os| ==> r[k] == Reason(g, os[k])
  {
    seq(|os|, k requires 0 <= k < |os| => Reason(g, os[k]))
  }

  lemma {:induction false} FoldIsRows(g: Group, os: seq<Omission>)
    ensures Fold(os, NO_ROWS, PushingReason(g)) == Content(RowsOf(Reasons(g, os)))
  {
    if os == [] {
    } else {
      var n := |os| - 1;
      FoldIsRows(g, os[..n]);
      assert Reasons(g, os)[..n] == Reasons(g, os[..n]);
    }
  }

  /** Why an omission stops the table: it names an unknown list, or its person
      gets a row and is unknown. */
  function RowFailure(g: Group, o: Omission): Option<Failure> {
    if !Causes(g, o) || !IsCandidate(o) then None
    else if ValidDistricts(g, o.category.person, o.category.lists).None? then Some(ListNotFound)
    else if Reported(g)(o) && o.category.person !in g.persons then Some(PersonNotFound)
    else None
  }

  /** One omission, which leaves the table alone when it is not reported. */
  method AddReason(g: Group, election: seq<District>, m: seq<Section<Content>>, o: Omission)
    returns (r: Result<seq<Section<Content>>, Failure>)
    ensures r == match RowFailure(g, o)
                 case Some(f) => Err(f)
                 case None =>
                   if !Reported(g)(o) then Ok(m)
                   else
                     var l := RowLabel(g, election)(o);
                     Ok(Put(m, l, PushingReason(g)(SectionAt(m, l, NO_ROWS), o)))
  {
    if !Causes(g, o) || !o.category.Candidate? {
      return Ok(m);
    }
    var person := o.category.person;
    var districts := ValidDistrictsWithCandidate(g, person, o.category.lists);
    if districts.None? {
      return Err(ListNotFound);
    }
    if districts.value == [] {
      return Ok(m);
    }
    var district := FormatDistricts(districts.value, election);
    var rows := SectionAt(m, district, NO_ROWS).rows;
    if person !in g.persons {
      return Err(PersonNotFound);
    }
    rows := PushUnder(rows, Item(person, g.persons[person], o.description));
    return Ok(Put(m, district, Content(rows)));
  }

  /** What the rows of one district label say. */
  function HeldReasons(c: Content): multiset<string> {
    AllTexts(c.rows)
  }

  function Descriptions(os: seq<Omission>): (r: seq<string>)
    ensures |r| == |os| && forall k :: 0 <= k < |os| ==> r[k] == os[k].description
  {
    seq(|os|, k requires 0 <= k < |os| => os[k].description)
  }

  lemma OneMoreReason(g: Group, election: seq<District>, m: seq<Section<Content>>, os: seq<Omission>, o: Omission)
    requires AreSectionsOf(m, os, RowLabel(g, election), NO_ROWS, PushingReason(g)) && IsCandidate(o)
    ensures var l := RowLabel(g, election)(o);
            Total(Put(m, l, PushingReason(g)(SectionAt(m, l, NO_ROWS), o)), HeldReasons)
            == Total(m, HeldReasons) + multiset{o.description}
    ensures multiset(Descriptions(os + [o])) == multiset(Descriptions(os)) + multiset{o.description}
  {
    hide Put, Lookup, Total, RowLabel, PushUnder;
    var l := RowLabel(g, election)(o);
    var before := SectionAt(m, l, NO_ROWS);
    PushKeepsTexts(before.rows, Reason(g, o));
    TotalPut(m, l, PushingReason(g)(before, o), HeldReasons, multiset{o.description});
    assert Descriptions(os + [o]) == Descriptions(os) + [o.description];
  }

  predicate CanBeListed(g: Group) {
    forall k :: 0 <= k < |g.omissions| ==> RowFailure(g, g.omissions[k]).None?
  }

  lemma ListedMeansAllSorted(g: Group)
    ensures CanBeListed(g)
            <==> forall k :: 0 <= k < |SortedOmissions(g)| ==> RowFailure(g, SortedOmissions(g)[k]).None?
  {
    hide Sort, RowFailure;
    forall k | 0 <= k < |SortedOmissions(g)|
      ensures CanBeListed(g) ==> RowFailure(g, SortedOmissions(g)[k]).None?
    {
      SortKeepsMembers(g.omissions, ReadingOrder(g.lists), SortedOmissions(g)[k]);
    }
    forall k | 0 <= k < |g.omissions|
      ensures exists j :: 0 <= j < |SortedOmissions(g)| && SortedOmissions(g)[j] == g.omissions[k]
    {
      SortKeepsMembers(g.omissions, ReadingOrder(g.lists), g.omissions[k]);
      assert g.omissions[k] in SortedOmissions(g);
    }
  }

  lemma NextReported(g: Group, os: seq<Omission>, i: nat)
    requires i < |os|
    ensures Filter(os[..i + 1], Reported(g))
            == if Reported(g)(os[i]) then Filter(os[..i], Reported(g)) + [os[i]] else Filter(os[..i], Reported(g))
    ensures Reported(g)(os[i]) ==> IsCandidate(os[i])
  {
    assert os[..i + 1][..i] == os[..i];
  }

  lemma NoReasons()
    ensures Total<Content, string>([], HeldReasons) == multiset{}
  {}

  lemma NoneReported(g: Group, os: seq<Omission>)
    requires os == []
    ensures Filter(os, Reported(g)) == [] && Descriptions(Filter(os, Reported(g))) == []
  {}

  /** The table of one group. Each reported omission gives exactly one reason. */
  method CollectRemoved(g: Group, election: seq<District>) returns (r: Result<seq<Section<Content>>, Failure>)
    ensures r.Ok? <==> CanBeListed(g)
    ensures r.Err? ==> exists k ::
              && 0 <= k < |SortedOmissions(g)| && RowFailure(g, SortedOmissions(g)[k]) == Some(r.error)
              && forall j :: 0 <= j < k ==> RowFailure(g, SortedOmissions(g)[j]).None?
    ensures r.Ok? ==> IsRemovedTable(g, election, r.value)
    ensures r.Ok? ==> Total(r.value, HeldReasons) == multiset(Descriptions(ReportedOmissions(g)))
  {
    hide Put, Lookup, AreSectionsOf, RowFailure, ValidDistricts, SortedOmissions, RowLabel, PushingReason, Causes,
         Total, CanBeListed, Reported, Descriptions, Filter, SectionAt;
    ListedMeansAllSorted(g);
    NoReasons();
    var os := SortedOmissions(g);
    var m: seq<Section<Content>> := [];
    NoneReported(g, os[..0]);
    NoSections<Content, Omission>(Filter(os[..0], Reported(g)), RowLabel(g, election), NO_ROWS, PushingReason(g));
    for i := 0 to |os|
      invariant forall k :: 0 <= k < i ==> RowFailure(g, os[k]).None?
      invariant AreSectionsOf(m, Filter(os[..i], Reported(g)), RowLabel(g, election), NO_ROWS, PushingReason(g))
      invariant Total(m, HeldReasons) == multiset(Descriptions(Filter(os[..i], Reported(g))))
    {
      var next := AddReason(g, election, m, os[i]);
      if next.Err? {
        return Err(next.error);
      }
      NextReported(g, os, i);
      if Reported(g)(os[i]) {
        NextEntry(m, Filter(os[..i], Reported(g)), os[i], RowLabel(g, election), NO_ROWS, PushingReason(g));
        OneMoreReason(g, election, m, Filter(os[..i], Reported(g)), os[i]);
      }
      m := next.value;
    }
    assert os[..|os|] == os;
    return Ok(m);
  }

  /** The reported omissions, in reading order. */
  function ReportedOmissions(g: Group): seq<Omission> {
    Filter(SortedOmissions(g), Reported(g))
  }

  ghost predicate IsRemovedTable(g: Group, election: seq<District>, m: seq<Section<Content>>) {
    AreSectionsOf(m, ReportedOmissions(g), RowLabel(g, election), NO_ROWS, PushingReason(g))
  }

  /** The reported omissions with one label. */
  function UnderRowLabel(g: Group, election: seq<District>, l: string): seq<Omission> {
    Filter(ReportedOmissions(g), LabelIs(RowLabel(g, election), l))
  }

  /** Labels ascend; under each, one row per person with every reason that
      carries this label, in reading order. */
  lemma RowsPerLabel(g: Group, election: seq<District>, m: seq<Section<Content>>, i: nat)
    requires IsRemovedTable(g, election, m) && i < |m|
    ensures LabelsAscend(m)
    ensures AreRowsOf(Reasons(g, UnderRowLabel(g, election, m[i].key)), m[i].content.rows)
    ensures m[i].content.rows == RowsOf(Reasons(g, UnderRowLabel(g, election, m[i].key)))
  {
    hide Lookup, Before, Fold, Filter, Reported, RowLabel, PushingReason, SortedOmissions, AreRowsOf;
    LookupFinds(m, i);
    FoldIsRows(g, UnderRowLabel(g, election, m[i].key));
    RowsAreRight(Reasons(g, UnderRowLabel(g, election, m[i].key)));
  }

  /** A row carries the name of its person. */
  lemma RowCarriesTheName(g: Group, election: seq<District>, m: seq<Section<Content>>, i: nat, j: nat)
    requires IsRemovedTable(g, election, m) && i < |m| && j < |m[i].content.rows|
    requires m[i].content.rows[j].person in g.persons
    ensures m[i].content.rows[j].header == g.persons[m[i].content.rows[j].person]
  {
    hide IsRemovedTable, UnderRowLabel;
    var l, row := m[i].key, m[i].content.rows[j];
    var os := UnderRowLabel(g, election, l);
    RowsPerLabel(g, election, m, i);
    FirstHeaderIsFirst(Reasons(g, os), row.person);
    var k :| 0 <= k < |os| && Reasons(g, os)[k].person == row.person && Reasons(g, os)[k].header == row.header;
    ReportedMember(g, election, l, os[k]);
  }

  /** A section is labelled with the districts where a list that the omission names
      is valid and carries the person. */
  lemma RowLabelMeans(g: Group, election: seq<District>, o: Omission)
    requires Reported(g)(o)
    ensures IsLabelFor(RowLabel(g, election)(o), election, MissedIn(g, o.category.person, o.category.lists))
  {
    hide ValidDistricts, IsMissedOn, FormatDistricts;
    var p, ids := o.category.person, o.category.lists;
    var districts := ValidDistricts(g, p, ids).value;
    forall d ensures d in districts <==> MissedIn(g, p, ids)(d) {
      ValidDistrictsMeans(g, p, ids, d);
    }
    ValidDistrictsMeans(g, p, ids, districts[0]);
    assert NoRepeats(districts) && RowLabel(g, election)(o) == FormatDistricts(districts, election);
  }

  function MissedIn(g: Group, p: PersonId, ids: seq<ListId>): District -> bool {
    (d: District) => exists k :: 0 <= k < |ids| && IsMissedOn(g, p, ids[k], d)
  }

  /** When an omission stops the table: an unresolved omission about a candidate names
      a list the group does not have, or is to be reported of a person it does not
      have. */
  lemma RowFailureMeans(g: Group, o: Omission)
    ensures RowFailure(g, o) == Some(ListNotFound)
            <==> && o.IsUnresolved() && IsCandidate(o)
                 && exists k :: 0 <= k < |o.category.lists| && !IsKnownList(g, o.category.lists[k])
    ensures RowFailure(g, o) == Some(PersonNotFound)
            <==> && o.IsUnresolved() && IsCandidate(o) && o.category.person !in g.persons
                 && (forall k :: 0 <= k < |o.category.lists| ==> IsKnownList(g, o.category.lists[k]))
                 && exists d :: MissedIn(g, o.category.person, o.category.lists)(d)
  {
    hide FindList, FindAll, IsKnownList, DistrictsOf, IsMissedOn;
    if IsCandidate(o) {
      var p, ids := o.category.person, o.category.lists;
      FindAllMeans(g.lists, ids);
      forall k | 0 <= k < |ids| ensures FindList(g.lists, ids[k]).Some? <==> IsKnownList(g, ids[k]) {
        KnownIsFound(g, ids[k]);
      }
      if ValidDistricts(g, p, ids).Some? {
        forall d ensures d in ValidDistricts(g, p, ids).value <==> MissedIn(g, p, ids)(d) {
          ValidDistrictsMeans(g, p, ids, d);
        }
        hide ValidDistricts;
        var districts := ValidDistricts(g, p, ids).value;
        assert districts != [] ==> MissedIn(g, p, ids)(districts[0]);
      }
    }
  }

  predicate HasRow(m: seq<Section<Content>>, p: PersonId) {
    exists i, j :: 0 <= i < |m| && 0 <= j < |m[i].content.rows| && m[i].content.rows[j].person == p
  }

  lemma ReportedMember(g: Group, election: seq<District>, l: string, o: Omission)
    ensures o in UnderRowLabel(g, election, l) <==> o in g.omissions && Reported(g)(o) && RowLabel(g, election)(o) == l
  {
    hide Filter, Reported, RowLabel, Sort;
    FilterMember(ReportedOmissions(g), LabelIs(RowLabel(g, election), l), o);
    FilterMember(SortedOmissions(g), Reported(g), o);
    SortKeepsMembers(g.omissions, ReadingOrder(g.lists), o);
  }

  /** A row exists exactly for the persons of the reported omissions. */
  lemma RowMeansReported(g: Group, election: seq<District>, m: seq<Section<Content>>, p: PersonId)
    requires IsRemovedTable(g, election, m)
    ensures HasRow(m, p) <==> exists o :: o in g.omissions && Reported(g)(o) && o.category.person == p
  {
    if HasRow(m, p) {
      var i, j :| 0 <= i < |m| && 0 <= j < |m[i].content.rows| && m[i].content.rows[j].person == p;
      RowIsReported(g, election, m, i, j);
    }
    if o :| o in g.omissions && Reported(g)(o) && o.category.person == p {
      ReportedHasRow(g, election, m, o);
    }
  }

  lemma RowIsReported(g: Group, election: seq<District>, m: seq<Section<Content>>, i: nat, j: nat)
    requires IsRemovedTable(g, election, m) && i < |m| && j < |m[i].content.rows|
    ensures exists o :: o in g.omissions && Reported(g)(o) && o.category.person == m[i].content.rows[j].person
  {
    hide IsRemovedTable, UnderRowLabel;
    var l, p := m[i].key, m[i].content.rows[j].person;
    var os := UnderRowLabel(g, election, l);
    RowsPerLabel(g, election, m, i);
    NoHeaderNoTexts(Reasons(g, os), p);
    var k :| 0 <= k < |os| && Reasons(g, os)[k].person == p;
    ReportedMember(g, election, l, os[k]);
  }

  lemma ReportedHasRow(g: Group, election: seq<District>, m: seq<Section<Content>>, o: Omission)
    requires IsRemovedTable(g, election, m)
    requires o in g.omissions && Reported(g)(o)
    ensures HasRow(m, o.category.person)
  {
    hide UnderRowLabel, ReportedOmissions, Before, Lookup, Fold, RowLabel;
    var l, p := RowLabel(g, election)(o), o.category.person;
    var os := UnderRowLabel(g, election, l);
    ReportedMember(g, election, l, o);
    assert Lookup(m, l).Some? by {
      assert Lookup(m, l) == Grown(ReportedOmissions(g), RowLabel(g, election), NO_ROWS, PushingReason(g), l);
      LabelledFilter(g, election, l);
    }
    LookupIsIn(m, l);
    var i :| 0 <= i < |m| && m[i].key == l;
    RowsPerLabel(g, election, m, i);
    var k :| 0 <= k < |os| && os[k] == o;
    assert Reasons(g, os)[k].person == p;
    NoHeaderNoTexts(Reasons(g, os), p);
    assert FindRow(m[i].content.rows, p) < |m[i].content.rows|;
  }

  lemma LabelledFilter(g: Group, election: seq<District>, l: string)
    ensures UnderRowLabel(g, election, l) == Filter(ReportedOmissions(g), LabelIs(RowLabel(g, election), l))
  {}

  /** Scrapped from a list that carries the person and stays valid somewhere. */
  ghost predicate IsRemoved(g: Group, p: PersonId) {
    exists l, d :: l in g.lists && p in l.candidates && IsCandidateScrapped(g, l.id, p) && IsValidIn(g, l, d)
  }

  /** A person is in the table exactly when scrapped from a list that stays valid
      somewhere. */
  lemma RowMeansRemoved(g: Group, election: seq<District>, m: seq<Section<Content>>, p: PersonId)
    requires IsRemovedTable(g, election, m) && DistinctLists(g)
    requires CanBeListed(g)
    ensures HasRow(m, p) <==> IsRemoved(g, p)
  {
    hide IsRemovedTable, IsValidIn, ValidDistricts;
    RowMeansReported(g, election, m, p);
    if o :| o in g.omissions && Reported(g)(o) && o.category.person == p {
      ReportedIsRemoved(g, o);
    }
    if IsRemoved(g, p) {
      var l, d :| l in g.lists && p in l.candidates && IsCandidateScrapped(g, l.id, p) && IsValidIn(g, l, d);
      var k :| 0 <= k < |g.omissions| && ScrapsCandidate(g.omissions[k], l.id, p);
      RemovedIsReported(g, g.omissions[k], l, d);
    }
  }

  lemma ReportedIsRemoved(g: Group, o: Omission)
    requires o in g.omissions && Reported(g)(o)
    ensures IsRemoved(g, o.category.person)
  {
    hide IsValidIn, ValidDistricts, FindList;
    var p, ids := o.category.person, o.category.lists;
    var d := ValidDistricts(g, p, ids).value[0];
    ValidDistrictsMeans(g, p, ids, d);
    var k :| 0 <= k < |ids| && IsMissedOn(g, p, ids[k], d);
    var l := FindList(g.lists, ids[k]).value;
    assert l.id == ids[k];
    assert ScrapsCandidate(o, l.id, p);
    assert l in g.lists && p in l.candidates && IsCandidateScrapped(g, l.id, p) && IsValidIn(g, l, d);
  }

  lemma RemovedIsReported(g: Group, o: Omission, l: CandidateList, d: District)
    requires DistinctLists(g) && RowFailure(g, o).None? && l in g.lists && IsValidIn(g, l, d)
    requires IsCandidate(o) && o.category.person in l.candidates && ScrapsCandidate(o, l.id, o.category.person)
    ensures Reported(g)(o)
  {
    hide IsValidIn, ValidDistricts, FindList;
    var p, ids := o.category.person, o.category.lists;
    ValidDistrictsMeans(g, p, ids, d);
    var k :| 0 <= k < |ids| && ids[k] == l.id;
    assert FindList(g.lists, l.id) == Some(l);
    assert IsMissedOn(g, p, ids[k], d);
  }
}
