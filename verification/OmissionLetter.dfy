/**
 The omission letter of one political group: its recoverable omissions, one
 section per set of districts, plain bullets first and then the candidates.
 */
module OmissionLetter {
  import opened Sequences
  import opened Ordering
  import opened Nominations
  import opened DistrictLabels
  import opened Grouping

  // ----- the reading order

  function PositionOf(candidates: seq<PersonId>, p: PersonId): (r: Option<nat>)
    ensures r.None? <==> p !in candidates
    ensures r.Some? ==> 1 <= r.value <= |candidates| && candidates[r.value - 1] == p
                        && p !in candidates[..r.value - 1]
  {
    if candidates == [] then None
    else if candidates[0] == p then Some(1)
    else match PositionOf(candidates[1..], p) case None => None case Some(k) => Some(k + 1)
  }

  /** On the first of the lists. */
  function CandidatePosition(lists: seq<CandidateList>, p: PersonId, ids: seq<ListId>): Option<nat> {
    if ids == [] then None
    else match FindList(lists, ids[0]) case None => None case Some(l) => PositionOf(l.candidates, p)
  }

  function PositionKey(position: Option<nat>): int {
    match position case None => USIZE_MAX case Some(k) => k
  }

  datatype OrderKey = OrderKey(rank: nat, position: int, updatedAt: int, id: nat)

  function OrderKeyOf(lists: seq<CandidateList>, o: Omission): OrderKey {
    match o.category
    case PoliticalGroup => OrderKey(0, 0, o.updatedAt, o.id)
    case Appellation => OrderKey(0, 0, o.updatedAt, o.id)
    case DeclarationsOfSupport(_) => OrderKey(1, 0, o.updatedAt, o.id)
    case CandidateLists(_) => OrderKey(2, 0, o.updatedAt, o.id)
    case Candidate(p, ids) => OrderKey(3, PositionKey(CandidatePosition(lists, p, ids)), o.updatedAt, o.id)
  }

  predicate NotAfter(a: OrderKey, b: OrderKey) {
    a.rank < b.rank || (a.rank == b.rank && (
      a.position < b.position || (a.position == b.position && (
        a.updatedAt < b.updatedAt || (a.updatedAt == b.updatedAt && a.id <= b.id)))))
  }

  function ReadingOrder(lists: seq<CandidateList>): (Omission, Omission) -> bool {
    (a, b) => NotAfter(OrderKeyOf(lists, a), OrderKeyOf(lists, b))
  }

  lemma ReadingOrderIsTotal(lists: seq<CandidateList>)
    ensures TotalPreorder(ReadingOrder(lists))
  {
    hide OrderKeyOf;
  }

  function SortedOmissions(g: Group): seq<Omission> {
    Sort(g.omissions, ReadingOrder(g.lists))
  }

  predicate DistinctIds(omissions: seq<Omission>) {
    forall i, j :: 0 <= i < j < |omissions| ==> omissions[i].id != omissions[j].id
  }

  lemma {:induction false} AtMostOneTie(s: seq<Omission>, x: Omission, lists: seq<CandidateList>)
    requires DistinctIds(s)
    ensures |Ties(s, x, ReadingOrder(lists))| <= 1
  {
    if s == [] {
    } else {
      var n := |s| - 1;
      AtMostOneTie(s[..n], x, lists);
      var rest := Ties(s[..n], x, ReadingOrder(lists));
      if rest != [] {
        TieIsThere(s[..n], rest[0], x, lists);
      }
    }
  }

  lemma TieIsThere(s: seq<Omission>, y: Omission, x: Omission, lists: seq<CandidateList>)
    ensures y in Ties(s, x, ReadingOrder(lists))
            <==> y in s && ReadingOrder(lists)(x, y) && ReadingOrder(lists)(y, x)
    ensures y in Ties(s, x, ReadingOrder(lists)) ==> y.id == x.id
  {
    hide Ties, OrderKeyOf;
    TieMember(s, x, ReadingOrder(lists), y);
    IdsOfKeys(lists, x);
    IdsOfKeys(lists, y);
  }

  lemma IdsOfKeys(lists: seq<CandidateList>, o: Omission)
    ensures OrderKeyOf(lists, o).id == o.id
  {}

  /** The omissions come out of a hash map in any order; the reading order does
      not depend on it. */
  lemma ReadingOrderIgnoresStoreOrder(g: Group, h: Group)
    requires g.lists == h.lists && multiset(g.omissions) == multiset(h.omissions)
    requires DistinctIds(g.omissions) && DistinctIds(h.omissions)
    ensures SortedOmissions(g) == SortedOmissions(h)
  {
    hide Sort, Ties;
    var le := ReadingOrder(g.lists);
    ReadingOrderIsTotal(g.lists);
    SortSorts(g.omissions, le);
    SortSorts(h.omissions, le);
    forall x ensures Ties(SortedOmissions(g), x, le) == Ties(SortedOmissions(h), x, le) {
      SortIsStable(g.omissions, x, le);
      SortIsStable(h.omissions, x, le);
      AtMostOneTie(g.omissions, x, g.lists);
      AtMostOneTie(h.omissions, x, g.lists);
      SameSingleTie(g, h, x);
      SameSingleTie(h, g, x);
    }
    SortedWithTiesIsUnique(SortedOmissions(g), SortedOmissions(h), le);
  }

  lemma SameSingleTie(g: Group, h: Group, x: Omission)
    requires g.lists == h.lists && multiset(g.omissions) == multiset(h.omissions)
    ensures var a, b := Ties(g.omissions, x, ReadingOrder(g.lists)), Ties(h.omissions, x, ReadingOrder(g.lists));
            a != [] ==> a[0] in b
  {
    hide Ties;
    var a := Ties(g.omissions, x, ReadingOrder(g.lists));
    if a != [] {
      TieIsThere(g.omissions, a[0], x, g.lists);
      assert a[0] in multiset(g.omissions);
      TieIsThere(h.omissions, a[0], x, g.lists);
    }
  }

  // ----- what the reading order is

  predicate IsAboutGroup(o: Omission) { o.category.PoliticalGroup? || o.category.Appellation? }

  predicate IsAboutLists(o: Omission) { o.category.CandidateLists? }

  predicate IsSupport(o: Omission) { o.category.DeclarationsOfSupport? }

  predicate IsCandidate(o: Omission) { o.category.Candidate? }

  /** Of the same kind and, for candidates, at the same position. */
  predicate SamePlace(lists: seq<CandidateList>, a: Omission, b: Omission) {
    || (IsAboutGroup(a) && IsAboutGroup(b))
    || (IsSupport(a) && IsSupport(b))
    || (IsAboutLists(a) && IsAboutLists(b))
    || (IsCandidate(a) && IsCandidate(b)
        && PositionKey(CandidatePosition(lists, a.category.person, a.category.lists))
           == PositionKey(CandidatePosition(lists, b.category.person, b.category.lists)))
  }

  /** `a` may be read before `b`: the group first, then declarations of support,
      lists and candidates; candidates by position; within a place by time and id. */
  predicate ReadsBefore(lists: seq<CandidateList>, a: Omission, b: Omission) {
    && (IsAboutGroup(b) ==> IsAboutGroup(a))
    && (IsSupport(b) ==> IsAboutGroup(a) || IsSupport(a))
    && (IsAboutLists(b) ==> !IsCandidate(a))
    && (IsCandidate(a) && IsCandidate(b) ==>
          PositionKey(CandidatePosition(lists, a.category.person, a.category.lists))
          <= PositionKey(CandidatePosition(lists, b.category.person, b.category.lists)))
    && (SamePlace(lists, a, b) ==> a.updatedAt < b.updatedAt || (a.updatedAt == b.updatedAt && a.id <= b.id))
  }

  lemma ReadingOrderIs(lists: seq<CandidateList>, a: Omission, b: Omission)
    ensures ReadingOrder(lists)(a, b) <==> ReadsBefore(lists, a, b)
  {
    hide CandidatePosition, PositionKey;
  }

  /** The reading order, told on categories and fields. */
  lemma SortedOmissionsAreInReadingOrder(g: Group)
    ensures multiset(SortedOmissions(g)) == multiset(g.omissions)
    ensures forall i, j :: 0 <= i < j < |SortedOmissions(g)| ==>
              ReadsBefore(g.lists, SortedOmissions(g)[i], SortedOmissions(g)[j])
  {
    hide Sort, ReadsBefore;
    var sorted := SortedOmissions(g);
    ReadingOrderIsTotal(g.lists);
    SortSorts(g.omissions, ReadingOrder(g.lists));
    forall i, j | 0 <= i < j < |sorted| ensures ReadsBefore(g.lists, sorted[i], sorted[j]) {
      ReadingOrderIs(g.lists, sorted[i], sorted[j]);
    }
  }

  /** The position on the first of the lists named: the place of the person's first
      mention, counted from one, and none for a list or person that is not there. */
  lemma CandidatePositionMeans(lists: seq<CandidateList>, p: PersonId, ids: seq<ListId>, l: CandidateList)
    requires l in lists && ids != [] && l.id == ids[0]
    requires forall i, j :: 0 <= i < j < |lists| ==> lists[i].id != lists[j].id
    ensures match CandidatePosition(lists, p, ids)
            case None => p !in l.candidates
            case Some(k) => 1 <= k <= |l.candidates| && l.candidates[k - 1] == p && p !in l.candidates[..k - 1]
  {
    var found := FindList(lists, ids[0]);
    assert found == Some(l);
  }

  lemma NoPositionWithoutList(lists: seq<CandidateList>, p: PersonId, ids: seq<ListId>)
    requires ids == [] || forall k :: 0 <= k < |lists| ==> lists[k].id != ids[0]
    ensures CandidatePosition(lists, p, ids) == None
  {}

  // ----- the letter's order

  predicate IsPlain(o: Omission) { !o.category.Candidate? }

  predicate IsRecoverable(o: Omission) { o.recoverable }

  function LetterOrder(g: Group): seq<Omission> {
    Sort(Filter(SortedOmissions(g), IsRecoverable), KeyLe(FlagKey(IsSupport)))
  }

  lemma LetterOrderMembers(g: Group, o: Omission)
    ensures o in LetterOrder(g) <==> o in g.omissions && o.recoverable
  {
    SortKeepsMembers(Filter(SortedOmissions(g), IsRecoverable), KeyLe(FlagKey(IsSupport)), o);
    FilterMember(SortedOmissions(g), IsRecoverable, o);
    SortKeepsMembers(g.omissions, ReadingOrder(g.lists), o);
  }

  // ----- sections

  datatype LetterOmission = LetterOmission(description: string, helpText: Option<string>)

  datatype Heading = Heading(position: Option<nat>, name: string)

  datatype SectionOmissions = SectionOmissions(
    omissions: seq<LetterOmission>, candidates: seq<Row<Heading, LetterOmission>>)

  /** Rows keep the person they are about; the printed heading leaves it out. */
  datatype DistrictOmissions = DistrictOmissions(section: Section<SectionOmissions>, coversAll: bool)

  const NO_OMISSIONS := SectionOmissions([], [])

  /** An empty help text counts as none. */
  function Letter(o: Omission): (r: LetterOmission)
    ensures r.description == o.description
    ensures r.helpText.Some? ==> r.helpText == o.helpText && r.helpText.value != ""
    ensures r.helpText.None? ==> o.helpText.None? || o.helpText.value == ""
  {
    LetterOmission(o.description, if o.helpText == Some("") then None else o.helpText)
  }

  function Name(g: Group, p: PersonId): string {
    if p in g.persons then g.persons[p] else ""
  }

  function ItemOf(g: Group, o: Omission): Item<Heading, LetterOmission>
    requires IsCandidate(o)
  {
    Item(o.category.person,
         Heading(CandidatePosition(g.lists, o.category.person, o.category.lists), Name(g, o.category.person)),
         Letter(o))
  }

  function PushOmission(g: Group, s: SectionOmissions, o: Omission): SectionOmissions {
    if IsCandidate(o) then s.(candidates := PushUnder(s.candidates, ItemOf(g, o)))
    else s.(omissions := s.omissions + [Letter(o)])
  }

  function Pushing(g: Group): (SectionOmissions, Omission) -> SectionOmissions {
    (s, o) => PushOmission(g, s, o)
  }

  function LabelText(g: Group, election: seq<District>): Omission -> string {
    (o: Omission) => match LabelOf(g, election, o.category) case None => "" case Some(l) => l
  }

  datatype Failure = ListNotFound | PersonNotFound

  /** Why an omission cannot be put in the letter. */
  function FailureOf(g: Group, election: seq<District>, o: Omission): Option<Failure> {
    if LabelOf(g, election, o.category).None? then Some(ListNotFound)
    else if IsCandidate(o) && o.category.person !in g.persons then Some(PersonNotFound)
    else None
  }

  predicate NamesLists(c: Category) {
    c.CandidateLists? || c.Candidate?
  }

  predicate IsKnownList(g: Group, id: ListId) {
    exists k :: 0 <= k < |g.lists| && g.lists[k].id == id
  }

  /** An omission cannot be put in the letter exactly when it names a list the group
      does not have, or a person it does not have. */
  lemma FailureMeans(g: Group, election: seq<District>, o: Omission)
    ensures FailureOf(g, election, o) == Some(ListNotFound)
            <==> && NamesLists(o.category)
                 && exists k :: 0 <= k < |o.category.lists| && !IsKnownList(g, o.category.lists[k])
    ensures FailureOf(g, election, o) == Some(PersonNotFound)
            <==> && o.category.Candidate? && o.category.person !in g.persons
                 && forall k :: 0 <= k < |o.category.lists| ==> IsKnownList(g, o.category.lists[k])
  {
    if NamesLists(o.category) {
      FindAllMeans(g.lists, o.category.lists);
      forall k | 0 <= k < |o.category.lists|
        ensures FindList(g.lists, o.category.lists[k]).Some? <==> IsKnownList(g, o.category.lists[k])
      {
        KnownIsFound(g, o.category.lists[k]);
      }
      hide FindList, FindAll, IsKnownList, DistrictsOf, FormatDistricts;
    }
  }

  lemma KnownIsFound(g: Group, id: ListId)
    ensures FindList(g.lists, id).Some? <==> IsKnownList(g, id)
  {}

  function Letters(os: seq<Omission>): (r: seq<LetterOmission>)
    ensures |r| == |os| && forall k :: 0 <= k < |os| ==> r[k] == Letter(os[k])
  {
    seq(|os|, k requires 0 <= k < |os| => Letter(os[k]))
  }

  function Items(g: Group, os: seq<Omission>): (r: seq<Item<Heading, LetterOmission>>)
    requires forall k :: 0 <= k < |os| ==> IsCandidate(os[k])
    ensures |r| == |os| && forall k :: 0 <= k < |os| ==> r[k] == ItemOf(g, os[k])
  {
    seq(|os|, k requires 0 <= k < |os| => ItemOf(g, os[k]))
  }

  function CandidatesAmong(os: seq<Omission>): (r: seq<Omission>)
    ensures forall k :: 0 <= k < |r| ==> IsCandidate(r[k])
  {
    EachIsKept(os, IsCandidate);
    Filter(os, IsCandidate)
  }

  lemma EachIsKept<T>(s: seq<T>, keep: T -> bool)
    ensures forall k :: 0 <= k < |Filter(s, keep)| ==> keep(Filter(s, keep)[k])
  {
    forall k | 0 <= k < |Filter(s, keep)| ensures keep(Filter(s, keep)[k]) {
      FilterMember(s, keep, Filter(s, keep)[k]);
    }
  }

  /** A section as a whole: the plain omissions, and a row per candidate. */
  function SectionOf(g: Group, os: seq<Omission>): SectionOmissions {
    SectionOmissions(Letters(Filter(os, IsPlain)), RowsOf(Items(g, CandidatesAmong(os))))
  }

  lemma {:induction false} FoldIsSection(g: Group, os: seq<Omission>)
    ensures Fold(os, NO_OMISSIONS, Pushing(g)) == SectionOf(g, os)
  {
    if os == [] {
    } else {
      var n := |os| - 1;
      FoldIsSection(g, os[..n]);
      if IsCandidate(os[n]) {
        var before := Items(g, CandidatesAmong(os[..n]));
        assert Items(g, CandidatesAmong(os)) == before + [ItemOf(g, os[n])];
        assert (before + [ItemOf(g, os[n])])[..|before|] == before;
      }
    }
  }

  // ----- the letter

  /** The omissions of one section in the order of the letter. */
  function UnderLabel(g: Group, election: seq<District>, l: string): seq<Omission> {
    Filter(LetterOrder(g), LabelIs(LabelText(g, election), l))
  }

  function Held(s: SectionOmissions): multiset<LetterOmission> {
    multiset(s.omissions) + AllTexts(s.candidates)
  }

  lemma PushHolds(g: Group, s: SectionOmissions, o: Omission)
    ensures Held(PushOmission(g, s, o)) == Held(s) + multiset{Letter(o)}
  {
    if IsCandidate(o) {
      PushKeepsTexts(s.candidates, ItemOf(g, o));
    }
  }

  function Sections(letter: seq<DistrictOmissions>): (r: seq<Section<SectionOmissions>>)
    ensures |r| == |letter| && forall k :: 0 <= k < |letter| ==> r[k] == letter[k].section
  {
    seq(|letter|, k requires 0 <= k < |letter| => letter[k].section)
  }

  /** The section of all districts is first, the others ascend by label. */
  predicate InLetterOrder(letter: seq<DistrictOmissions>) {
    && (forall i :: 0 <= i < |letter| ==> (letter[i].coversAll <==> letter[i].section.key == ALL_DISTRICTS))
    && (forall i, j :: 0 <= i < j < |letter| ==>
          && !letter[j].coversAll
          && (letter[i].coversAll || Before(letter[i].section.key, letter[j].section.key)))
  }

  /** Each section holds exactly the omissions with its label; no section is
      empty and no label is missing. */
  ghost predicate HasTheSections(g: Group, election: seq<District>, letter: seq<DistrictOmissions>) {
    && (forall i :: 0 <= i < |letter| ==>
          var s := letter[i].section;
          UnderLabel(g, election, s.key) != [] && s.content == SectionOf(g, UnderLabel(g, election, s.key)))
    && (forall l :: UnderLabel(g, election, l) != [] ==>
          exists i :: 0 <= i < |letter| && letter[i].section.key == l)
  }

  /** Pushes one omission to the section of its label. */
  method AddOmission(g: Group, election: seq<District>, m: seq<Section<SectionOmissions>>, o: Omission)
    returns (r: Result<seq<Section<SectionOmissions>>, Failure>)
    ensures r == match FailureOf(g, election, o)
                 case Some(f) => Err(f)
                 case None =>
                   var l := LabelText(g, election)(o);
                   Ok(Put(m, l, PushOmission(g, SectionAt(m, l, NO_OMISSIONS), o)))
  {
    var district := ElectoralDistrict(g, election, o.category);
    if district.None? {
      return Err(ListNotFound);
    }
    var section := SectionAt(m, district.value, NO_OMISSIONS);
    match o.category {
      case Candidate(person, lists) =>
        if person !in g.persons {
          return Err(PersonNotFound);
        }
        var heading := Heading(CandidatePosition(g.lists, person, lists), g.persons[person]);
        section := section.(candidates := PushUnder(section.candidates, Item(person, heading, Letter(o))));
      case _ =>
        section := section.(omissions := section.omissions + [Letter(o)]);
    }
    return Ok(Put(m, district.value, section));
  }

  lemma OneMore(os: seq<Omission>, i: nat)
    requires i < |os|
    ensures os[..i + 1] == os[..i] + [os[i]]
    ensures multiset(Letters(os[..i + 1])) == multiset(Letters(os[..i])) + multiset{Letter(os[i])}
  {
    assert Letters(os[..i + 1]) == Letters(os[..i]) + [Letter(os[i])];
  }

  /** The loop over the omissions. */
  method CollectSections(g: Group, election: seq<District>, os: seq<Omission>)
    returns (r: Result<seq<Section<SectionOmissions>>, Failure>)
    ensures r.Ok? <==> forall k :: 0 <= k < |os| ==> FailureOf(g, election, os[k]).None?
    ensures r.Err? ==> exists k ::
              && 0 <= k < |os| && FailureOf(g, election, os[k]) == Some(r.error)
              && forall j :: 0 <= j < k ==> FailureOf(g, election, os[j]).None?
    ensures r.Ok? ==> AreSectionsOf(r.value, os, LabelText(g, election), NO_OMISSIONS, Pushing(g))
    ensures r.Ok? ==> Total(r.value, Held) == multiset(Letters(os))
  {
    hide Put, Lookup, AreSectionsOf, FailureOf, PushOmission, Held, Total, LabelOf;
    var m: seq<Section<SectionOmissions>> := [];
    NoSections<SectionOmissions, Omission>(os[..0], LabelText(g, election), NO_OMISSIONS, Pushing(g));
    NothingHeld();
    for i := 0 to |os|
      invariant forall k :: 0 <= k < i ==> FailureOf(g, election, os[k]).None?
      invariant AreSectionsOf(m, os[..i], LabelText(g, election), NO_OMISSIONS, Pushing(g))
      invariant Total(m, Held) == multiset(Letters(os[..i]))
    {
      var next := AddOmission(g, election, m, os[i]);
      if next.Err? {
        return Err(next.error);
      }
      OneMore(os, i);
      NextEntry(m, os[..i], os[i], LabelText(g, election), NO_OMISSIONS, Pushing(g));
      OneMoreHeld(g, m, LabelText(g, election)(os[i]), os[..i], os[i], LabelText(g, election));
      m := next.value;
    }
    assert os[..|os|] == os;
    return Ok(m);
  }

  lemma NothingHeld()
    ensures Total<SectionOmissions, LetterOmission>([], Held) == multiset{}
  {}

  lemma OneMoreHeld(g: Group, m: seq<Section<SectionOmissions>>, l: string, os: seq<Omission>, o: Omission,
                    labelOf: Omission -> string)
    requires AreSectionsOf(m, os, labelOf, NO_OMISSIONS, Pushing(g))
    ensures Total(Put(m, l, PushOmission(g, SectionAt(m, l, NO_OMISSIONS), o)), Held)
            == Total(m, Held) + multiset{Letter(o)}
  {
    hide Put, Lookup, PushOmission, Total;
    var before := SectionAt(m, l, NO_OMISSIONS);
    PushHolds(g, before, o);
    assert Held(NO_OMISSIONS) == multiset{};
    TotalPut(m, l, PushOmission(g, before, o), Held, multiset{Letter(o)});
  }

  /** Where the section of all districts is, or the number of sections. */
  function FindAllDistricts(m: seq<Section<SectionOmissions>>): (k: nat)
    ensures k <= |m|
    ensures k < |m| ==> m[k].key == ALL_DISTRICTS
    ensures k == |m| ==> forall i :: 0 <= i < |m| ==> m[i].key != ALL_DISTRICTS
  {
    if m == [] || m[0].key == ALL_DISTRICTS then 0 else 1 + FindAllDistricts(m[1..])
  }

  function Marked(m: seq<Section<SectionOmissions>>, coversAll: bool): (r: seq<DistrictOmissions>)
    ensures |r| == |m| && forall k :: 0 <= k < |m| ==> r[k] == DistrictOmissions(m[k], coversAll)
  {
    seq(|m|, k requires 0 <= k < |m| => DistrictOmissions(m[k], coversAll))
  }

  function Without<T>(s: seq<T>, k: nat): (r: seq<T>)
    requires k < |s|
    ensures |r| == |s| - 1
    ensures forall i :: 0 <= i < |r| ==> r[i] == s[if i < k then i else i + 1]
  {
    s[..k] + s[k + 1..]
  }

  function AllDistrictsFirst(m: seq<Section<SectionOmissions>>): seq<DistrictOmissions> {
    var k := FindAllDistricts(m);
    if k == |m| then Marked(m, false)
    else [DistrictOmissions(m[k], true)] + Marked(Without(m, k), false)
  }

  /** Where the sections of the letter were in the map. */
  function Source(k: nat, i: nat): nat {
    if i == 0 then k else if i <= k then i - 1 else i
  }

  lemma FirstMoves(m: seq<Section<SectionOmissions>>)
    ensures var k, letter := FindAllDistricts(m), AllDistrictsFirst(m);
            && |letter| == |m|
            && forall i :: 0 <= i < |m| ==>
                 letter[i] == if k == |m| then DistrictOmissions(m[i], false)
                              else DistrictOmissions(m[Source(k, i)], i == 0)
  {
    hide FindAllDistricts, Without, Marked;
    var k, letter := FindAllDistricts(m), AllDistrictsFirst(m);
    if k < |m| {
      forall i | 1 <= i < |m| ensures letter[i] == DistrictOmissions(m[Source(k, i)], false) {
        assert letter[i] == Marked(Without(m, k), false)[i - 1];
      }
    }
  }

  lemma FirstKeepsOrder(m: seq<Section<SectionOmissions>>)
    requires LabelsAscend(m)
    ensures InLetterOrder(AllDistrictsFirst(m))
  {
    hide Before, AllDistrictsFirst;
    var k := FindAllDistricts(m);
    FirstMoves(m);
    if k < |m| {
      forall i | 0 <= i < |m| && i != k ensures m[i].key != ALL_DISTRICTS {
        BeforeIsTotal(m[i].key, m[k].key);
      }
    }
  }

  lemma FirstKeepsSections(m: seq<Section<SectionOmissions>>, s: Section<SectionOmissions>)
    ensures s in m <==> exists i :: 0 <= i < |AllDistrictsFirst(m)| && AllDistrictsFirst(m)[i].section == s
  {
    hide AllDistrictsFirst;
    var k, letter := FindAllDistricts(m), AllDistrictsFirst(m);
    FirstMoves(m);
    if s in m {
      var j :| 0 <= j < |m| && m[j] == s;
      var i := if k == |m| then j else if j == k then 0 else if j < k then j + 1 else j;
      assert letter[i].section == s;
    }
  }

  lemma SectionsOfMarked(first: Section<SectionOmissions>, rest: seq<Section<SectionOmissions>>)
    ensures Sections(Marked(rest, false)) == rest
    ensures Sections([DistrictOmissions(first, true)] + Marked(rest, false)) == [first] + rest
  {}

  lemma TotalWithout(m: seq<Section<SectionOmissions>>, k: nat)
    requires k < |m|
    ensures Total([m[k]] + Without(m, k), Held) == Total(m, Held)
  {
    hide Total, Held;
    TotalMoves(m[..k], [m[k]], m[k + 1..], Held);
    SplitOut(m, k);
  }

  lemma SplitOut<T>(s: seq<T>, k: nat)
    requires k < |s|
    ensures s == s[..k] + ([s[k]] + s[k + 1..])
  {}

  lemma FirstHoldsTheSame(m: seq<Section<SectionOmissions>>)
    ensures Total(Sections(AllDistrictsFirst(m)), Held) == Total(m, Held)
  {
    hide Total, FindAllDistricts, Sections, Marked, Without;
    var k := FindAllDistricts(m);
    if k < |m| {
      SectionsOfMarked(m[k], Without(m, k));
      TotalWithout(m, k);
    } else if m != [] {
      SectionsOfMarked(m[0], m);
    } else {
      NothingMarked();
    }
  }

  lemma NothingMarked()
    ensures Sections(Marked([], false)) == []
  {}

  lemma SectionsAreTheLetter(g: Group, election: seq<District>, m: seq<Section<SectionOmissions>>)
    requires AreSectionsOf(m, LetterOrder(g), LabelText(g, election), NO_OMISSIONS, Pushing(g))
    ensures HasTheSections(g, election, AllDistrictsFirst(m))
  {
    hide LabelOf, LetterOrder, Lookup, Before, AllDistrictsFirst, Fold, SectionOf, Pushing;
    var letter := AllDistrictsFirst(m);
    forall i | 0 <= i < |letter|
      ensures var s := letter[i].section;
              UnderLabel(g, election, s.key) != [] && s.content == SectionOf(g, UnderLabel(g, election, s.key))
    {
      FirstKeepsSections(m, letter[i].section);
      var k :| 0 <= k < |m| && m[k] == letter[i].section;
      LookupFinds(m, k);
      FoldIsSection(g, UnderLabel(g, election, m[k].key));
    }
    forall l | UnderLabel(g, election, l) != []
      ensures exists i :: 0 <= i < |letter| && letter[i].section.key == l
    {
      LookupIsIn(m, l);
      var k :| 0 <= k < |m| && m[k].key == l;
      FirstKeepsSections(m, m[k]);
    }
  }

  /** Every recoverable omission exactly once and nothing else. */
  ghost predicate HoldsEachOnce(g: Group, letter: seq<DistrictOmissions>) {
    Total(Sections(letter), Held) == multiset(Letters(Filter(g.omissions, IsRecoverable)))
  }

  lemma LettersConcat(a: seq<Omission>, b: seq<Omission>)
    ensures Letters(a + b) == Letters(a) + Letters(b)
  {}

  lemma LettersWithout(b: seq<Omission>, k: nat)
    requires k < |b|
    ensures var rest := b[..k] + b[k + 1..];
            && multiset(b) == multiset(rest) + multiset{b[k]}
            && multiset(Letters(b)) == multiset(Letters(rest)) + multiset{Letter(b[k])}
  {
    assert Letters([b[k]]) == [Letter(b[k])];
    hide Letters, Letter;
    SplitOut(b, k);
    LettersConcat(b[..k], [b[k]] + b[k + 1..]);
    LettersConcat([b[k]], b[k + 1..]);
    LettersConcat(b[..k], b[k + 1..]);
  }

  lemma CancelOne<T>(p: multiset<T>, q: multiset<T>, x: T)
    requires p + multiset{x} == q + multiset{x}
    ensures p == q
  {
    assert p == (p + multiset{x}) - multiset{x};
    assert q == (q + multiset{x}) - multiset{x};
  }

  lemma {:induction false} LettersSameMultiset(a: seq<Omission>, b: seq<Omission>)
    requires multiset(a) == multiset(b)
    ensures multiset(Letters(a)) == multiset(Letters(b))
  {
    hide Letters;
    assert |a| == |multiset(a)| == |b|;
    if a == [] {
      assert a == b;
    } else {
      var n := |a| - 1;
      assert a[n] in multiset(b);
      var k :| 0 <= k < |b| && b[k] == a[n];
      LettersWithout(a, n);
      LettersWithout(b, k);
      CancelOne(multiset(a[..n] + a[n + 1..]), multiset(b[..k] + b[k + 1..]), a[n]);
      LettersSameMultiset(a[..n] + a[n + 1..], b[..k] + b[k + 1..]);
    }
  }

  lemma LetterOrderHolds(g: Group)
    ensures multiset(Letters(LetterOrder(g))) == multiset(Letters(Filter(g.omissions, IsRecoverable)))
  {
    hide Sort, Filter;
    forall x ensures multiset(LetterOrder(g))[x] == multiset(Filter(g.omissions, IsRecoverable))[x] {
      FilterMultiset(SortedOmissions(g), IsRecoverable, x);
      FilterMultiset(g.omissions, IsRecoverable, x);
    }
    LettersSameMultiset(LetterOrder(g), Filter(g.omissions, IsRecoverable));
  }

  predicate CanBeWritten(g: Group, election: seq<District>) {
    forall k :: 0 <= k < |g.omissions| && g.omissions[k].recoverable ==> FailureOf(g, election, g.omissions[k]).None?
  }

  lemma WrittenMeansAllOrdered(g: Group, election: seq<District>)
    ensures CanBeWritten(g, election)
            <==> forall k :: 0 <= k < |LetterOrder(g)| ==> FailureOf(g, election, LetterOrder(g)[k]).None?
  {
    hide LetterOrder, FailureOf;
    forall k | 0 <= k < |LetterOrder(g)|
      ensures CanBeWritten(g, election) ==> FailureOf(g, election, LetterOrder(g)[k]).None?
    {
      LetterOrderMembers(g, LetterOrder(g)[k]);
    }
    forall k | 0 <= k < |g.omissions| && g.omissions[k].recoverable
      ensures exists j :: 0 <= j < |LetterOrder(g)| && LetterOrder(g)[j] == g.omissions[k]
    {
      LetterOrderMembers(g, g.omissions[k]);
    }
  }

  /** Succeeds exactly when every recoverable omission names known lists and a
      known person; then each is in the letter once. */
  method OmissionLetterSections(g: Group, election: seq<District>)
    returns (r: Result<seq<DistrictOmissions>, Failure>)
    ensures r.Ok? <==> CanBeWritten(g, election)
    ensures r.Err? ==> exists k ::
              && 0 <= k < |LetterOrder(g)| && FailureOf(g, election, LetterOrder(g)[k]) == Some(r.error)
              && forall j :: 0 <= j < k ==> FailureOf(g, election, LetterOrder(g)[j]).None?
    ensures r.Ok? ==> InLetterOrder(r.value) && HasTheSections(g, election, r.value) && HoldsEachOnce(g, r.value)
  {
    hide LetterOrder, CanBeWritten, FailureOf, HasTheSections, InLetterOrder, Total, AllDistrictsFirst;
    WrittenMeansAllOrdered(g, election);
    var collected := CollectSections(g, election, LetterOrder(g));
    if collected.Err? {
      return Err(collected.error);
    }
    var m := collected.value;
    FirstKeepsOrder(m);
    FirstHoldsTheSame(m);
    SectionsAreTheLetter(g, election, m);
    LetterOrderHolds(g);
    return Ok(AllDistrictsFirst(m));
  }

  // ----- inside a section

  /** The recoverable omissions with a label that satisfy `keep`. */
  function Chosen(g: Group, election: seq<District>, l: string, keep: Omission -> bool): Omission -> bool {
    (o: Omission) => o.recoverable && LabelText(g, election)(o) == l && keep(o)
  }

  predicate IsOtherPlain(o: Omission) { !o.category.Candidate? && !o.category.DeclarationsOfSupport? }

  /** One kind of omission in a section: in reading order, with the declarations
      of support behind the rest. */
  lemma SectionKind(g: Group, election: seq<District>, l: string, keep: Omission -> bool,
                    others: Omission -> bool, support: Omission -> bool)
    requires forall o :: others(o) <==> keep(o) && !IsSupport(o)
    requires forall o :: support(o) <==> keep(o) && IsSupport(o)
    ensures Filter(UnderLabel(g, election, l), keep)
            == Filter(SortedOmissions(g), Chosen(g, election, l, others))
               + Filter(SortedOmissions(g), Chosen(g, election, l, support))
  {
    hide Filter, SortedOmissions, LabelOf;
    var s := SortedOmissions(g);
    var r := Filter(s, IsRecoverable);
    var under := LabelIs(LabelText(g, election), l);
    SortByFlag(r, IsSupport);
    FilterConcat(Filter(r, FlagIs(IsSupport, false)), Filter(r, FlagIs(IsSupport, true)), under);
    FilterConcat(Filter(Filter(r, FlagIs(IsSupport, false)), under),
                 Filter(Filter(r, FlagIs(IsSupport, true)), under), keep);
    FourFilters(s, FlagIs(IsSupport, false), under, keep, Chosen(g, election, l, others));
    FourFilters(s, FlagIs(IsSupport, true), under, keep, Chosen(g, election, l, support));
  }

  lemma FourFilters(s: seq<Omission>, a: Omission -> bool, b: Omission -> bool, c: Omission -> bool,
                    all: Omission -> bool)
    requires forall o :: all(o) <==> o.recoverable && a(o) && b(o) && c(o)
    ensures Filter(Filter(Filter(Filter(s, IsRecoverable), a), b), c) == Filter(s, all)
  {
    hide Filter;
    FilterTwice(s, IsRecoverable, a);
    FilterTwice(s, Both(IsRecoverable, a), b);
    FilterTwice(s, Both(Both(IsRecoverable, a), b), c);
    FilterSame(s, Both(Both(Both(IsRecoverable, a), b), c), all);
  }

  /** The plain bullets: what is about the group and its lists in reading order,
      then the declarations of support in reading order. */
  lemma SupportComesLast(g: Group, election: seq<District>, l: string)
    ensures SectionOf(g, UnderLabel(g, election, l)).omissions
            == Letters(Filter(SortedOmissions(g), Chosen(g, election, l, IsOtherPlain)))
               + Letters(Filter(SortedOmissions(g), Chosen(g, election, l, IsSupport)))
  {
    hide Filter, SortedOmissions, UnderLabel, Chosen;
    SectionKind(g, election, l, IsPlain, IsOtherPlain, IsSupport);
  }

  lemma GroupBeforeLists(g: Group, election: seq<District>, l: string)
    ensures Filter(SortedOmissions(g), Chosen(g, election, l, IsOtherPlain))
            == Filter(SortedOmissions(g), Chosen(g, election, l, IsAboutGroup))
               + Filter(SortedOmissions(g), Chosen(g, election, l, IsAboutLists))
  {
    hide Filter, SortedOmissions, LabelOf;
    var s := SortedOmissions(g);
    var p, q := Chosen(g, election, l, IsAboutGroup), Chosen(g, election, l, IsAboutLists);
    SortedOmissionsAreInReadingOrder(g);
    FilterInTwo(s, p, q);
    FilterSame(s, Chosen(g, election, l, IsOtherPlain), Either(p, q));
  }

  /** The plain bullets of a section come in three blocks: what is about the group,
      what is about its lists, and the declarations of support. */
  lemma BulletsInThreeBlocks(g: Group, election: seq<District>, l: string)
    ensures SectionOf(g, UnderLabel(g, election, l)).omissions
            == Letters(Filter(SortedOmissions(g), Chosen(g, election, l, IsAboutGroup)))
               + Letters(Filter(SortedOmissions(g), Chosen(g, election, l, IsAboutLists)))
               + Letters(Filter(SortedOmissions(g), Chosen(g, election, l, IsSupport)))
  {
    hide Filter, SortedOmissions, UnderLabel, Chosen, Letters, SectionOf;
    SupportComesLast(g, election, l);
    GroupBeforeLists(g, election, l);
    LettersConcat(Filter(SortedOmissions(g), Chosen(g, election, l, IsAboutGroup)),
                  Filter(SortedOmissions(g), Chosen(g, election, l, IsAboutLists)));
  }

  /** Whatever is chosen for a section is in reading order, so within a block the
      older comes first. */
  lemma BlocksAreInReadingOrder(g: Group, election: seq<District>, l: string, keep: Omission -> bool)
    ensures var block := Filter(SortedOmissions(g), Chosen(g, election, l, keep));
            forall i, j :: 0 <= i < j < |block| ==> ReadsBefore(g.lists, block[i], block[j])
  {
    hide Filter, SortedOmissions, ReadsBefore, Chosen;
    var le := ReadingOrder(g.lists);
    var block := Filter(SortedOmissions(g), Chosen(g, election, l, keep));
    SortedByReadingOrder(g);
    FilterKeepsSorted(SortedOmissions(g), Chosen(g, election, l, keep), le);
    forall i, j | 0 <= i < j < |block| ensures ReadsBefore(g.lists, block[i], block[j]) {
      ReadingOrderIs(g.lists, block[i], block[j]);
    }
  }

  lemma SortedByReadingOrder(g: Group)
    ensures SortedBy(SortedOmissions(g), ReadingOrder(g.lists))
  {
    ReadingOrderIsTotal(g.lists);
    SortSorts(g.omissions, ReadingOrder(g.lists));
  }

  /** The candidates of a section are in reading order. */
  lemma CandidatesInReadingOrder(g: Group, election: seq<District>, l: string)
    ensures CandidatesAmong(UnderLabel(g, election, l))
            == Filter(SortedOmissions(g), Chosen(g, election, l, IsCandidate))
  {
    hide Filter, SortedOmissions, UnderLabel;
    var none := (o: Omission) => false;
    SectionKind(g, election, l, IsCandidate, IsCandidate, none);
    FilterAllOrNothing(SortedOmissions(g), Chosen(g, election, l, none), false);
  }

  function HeadingKey(h: Heading): int {
    PositionKey(h.position)
  }

  /** The rows about candidates in a section. */
  function HeadingsOf(g: Group, election: seq<District>, l: string): seq<Row<Heading, LetterOmission>> {
    SectionOf(g, UnderLabel(g, election, l)).candidates
  }

  /** Each candidate with an omission in the section has exactly one heading,
      which carries all of the candidate's omissions there in reading order. */
  lemma OneHeadingPerCandidate(g: Group, election: seq<District>, l: string)
    ensures AreRowsOf(Items(g, CandidatesAmong(UnderLabel(g, election, l))), HeadingsOf(g, election, l))
  {
    hide AreRowsOf, UnderLabel;
    RowsAreRight(Items(g, CandidatesAmong(UnderLabel(g, election, l))));
  }

  predicate IsAbout(o: Omission, p: PersonId) {
    o.category.Candidate? && o.category.person == p
  }

  /** The first omission about a person. */
  predicate IsFirstAbout(os: seq<Omission>, p: PersonId, k: nat) {
    k < |os| && IsAbout(os[k], p) && forall j :: 0 <= j < k ==> !IsAbout(os[j], p)
  }

  /** The heading has the person's name, and the position on the first list of the
      first of the omissions about the person. */
  ghost predicate IsHeadingOf(g: Group, os: seq<Omission>, p: PersonId, h: Heading) {
    && p in g.persons && h.name == g.persons[p]
    && exists k: nat :: IsFirstAbout(os, p, k) && h.position == CandidatePosition(g.lists, p, os[k].category.lists)
  }

  lemma {:induction false} FirstHeaderIsFirst<H, X>(items: seq<Item<H, X>>, p: nat)
    ensures match FirstHeader(items, p)
            case None => forall k :: 0 <= k < |items| ==> items[k].person != p
            case Some(h) => exists k :: && 0 <= k < |items| && items[k].person == p && items[k].header == h
                                        && forall j :: 0 <= j < k ==> items[j].person != p
  {
    if items == [] {
    } else {
      var n := |items| - 1;
      FirstHeaderIsFirst(items[..n], p);
      assert forall k :: 0 <= k < n ==> items[..n][k] == items[k];
      if FirstHeader(items[..n], p).Some? {
        var h := FirstHeader(items[..n], p).value;
        var k :| && 0 <= k < n && items[..n][k].person == p && items[..n][k].header == h
                 && forall j :: 0 <= j < k ==> items[..n][j].person != p;
        assert items[k].person == p && items[k].header == h;
      } else if items[n].person == p {
        assert items[n].header == FirstHeader(items, p).value;
      }
    }
  }

  lemma FirstItemHeading(g: Group, os: seq<Omission>, p: PersonId)
    requires forall k :: 0 <= k < |os| ==> IsCandidate(os[k])
    requires p in g.persons && FirstHeader(Items(g, os), p).Some?
    ensures IsHeadingOf(g, os, p, FirstHeader(Items(g, os), p).value)
  {
    hide CandidatePosition, FirstHeader;
    var items, h := Items(g, os), FirstHeader(Items(g, os), p).value;
    FirstHeaderIsFirst(items, p);
    var k :| && 0 <= k < |items| && items[k].person == p && items[k].header == h
             && forall j :: 0 <= j < k ==> items[j].person != p;
    assert forall j :: 0 <= j <= k ==> items[j] == ItemOf(g, os[j]);
    assert IsFirstAbout(os, p, k);
  }

  /** A heading carries the candidate's name, and the position on the first list of
      the first omission about the candidate in the section. */
  lemma HeadingMeans(g: Group, election: seq<District>, l: string, i: nat)
    requires i < |HeadingsOf(g, election, l)| && HeadingsOf(g, election, l)[i].person in g.persons
    ensures var row := HeadingsOf(g, election, l)[i];
            IsHeadingOf(g, CandidatesAmong(UnderLabel(g, election, l)), row.person, row.header)
  {
    hide UnderLabel, IsHeadingOf;
    OneHeadingPerCandidate(g, election, l);
    FirstItemHeading(g, CandidatesAmong(UnderLabel(g, election, l)), HeadingsOf(g, election, l)[i].person);
  }

  lemma CandidateItemsAscend(g: Group, election: seq<District>, l: string)
    ensures ItemsAscend(Items(g, CandidatesAmong(UnderLabel(g, election, l))), HeadingKey)
  {
    hide Filter, UnderLabel, CandidatePosition, Sort;
    var os := CandidatesAmong(UnderLabel(g, election, l));
    CandidatesInReadingOrder(g, election, l);
    ReadingOrderIsTotal(g.lists);
    SortSorts(g.omissions, ReadingOrder(g.lists));
    FilterKeepsSorted(SortedOmissions(g), Chosen(g, election, l, IsCandidate), ReadingOrder(g.lists));
    assert forall i, j :: 0 <= i < j < |os| ==> ReadingOrder(g.lists)(os[i], os[j]);
  }

  /** Headings ascend by the position on the list. */
  lemma HeadingsAscend(g: Group, election: seq<District>, l: string)
    ensures RowsAscend(HeadingsOf(g, election, l), HeadingKey)
  {
    hide UnderLabel, RowsAscend, ItemsAscend;
    CandidateItemsAscend(g, election, l);
    RowsKeepOrder(Items(g, CandidatesAmong(UnderLabel(g, election, l))), HeadingKey);
  }

  /** A known position is below the value that stands for an unknown one. */
  lemma KnownPositionsAreSmall(g: Group, election: seq<District>, l: string, i: nat)
    requires i < |HeadingsOf(g, election, l)|
    requires forall k :: 0 <= k < |g.lists| ==> |g.lists[k].candidates| < USIZE_MAX
    ensures HeadingsOf(g, election, l)[i].header.position.Some? ==>
              HeadingKey(HeadingsOf(g, election, l)[i].header) < USIZE_MAX
  {
    hide UnderLabel;
    var items := Items(g, CandidatesAmong(UnderLabel(g, election, l)));
    var row := HeadingsOf(g, election, l)[i];
    OneHeadingPerCandidate(g, election, l);
    FirstHeaderIsThere(items, row.person);
  }

  lemma {:induction false} FirstHeaderIsThere<H, X>(items: seq<Item<H, X>>, p: nat)
    ensures FirstHeader(items, p).Some? ==>
              exists k :: 0 <= k < |items| && items[k].header == FirstHeader(items, p).value
  {
    if items == [] {
    } else {
      var n := |items| - 1;
      FirstHeaderIsThere(items[..n], p);
      assert forall k :: 0 <= k < n ==> items[..n][k] == items[k];
    }
  }

  /** Candidates who are not on the list come behind the ones who are. */
  lemma UnknownPositionsLast(g: Group, election: seq<District>, l: string, i: nat, j: nat)
    requires forall k :: 0 <= k < |g.lists| ==> |g.lists[k].candidates| < USIZE_MAX
    requires i < j < |HeadingsOf(g, election, l)| && HeadingsOf(g, election, l)[i].header.position.None?
    ensures HeadingsOf(g, election, l)[j].header.position.None?
  {
    hide HeadingsOf;
    HeadingsAscend(g, election, l);
    KnownPositionsAreSmall(g, election, l, j);
  }
}
