/** The district column of the models: which districts, and how they are written. */
module DistrictLabels {
  import opened Sequences
  import opened Ordering
  import opened Nominations

  // ----- collecting districts

  function FindList(lists: seq<CandidateList>, id: ListId): (r: Option<CandidateList>)
    ensures r.Some? ==> r.value in lists && r.value.id == id
    ensures r.None? ==> forall k :: 0 <= k < |lists| ==> lists[k].id != id
  {
    if lists == [] then None
    else if lists[0].id == id then Some(lists[0])
    else FindList(lists[1..], id)
  }

  function FindAll(lists: seq<CandidateList>, ids: seq<ListId>): Option<seq<CandidateList>> {
    if ids == [] then Some([])
    else
      var n := |ids| - 1;
      match (FindAll(lists, ids[..n]), FindList(lists, ids[n]))
      case (Some(found), Some(list)) => Some(found + [list])
      case _ => None
  }

  /** `seen` and behind it each wanted district that is not there yet. */
  function AddNew(seen: seq<District>, districts: seq<District>, wanted: District -> bool): seq<District> {
    if districts == [] then seen
    else
      var n := |districts| - 1;
      var r := AddNew(seen, districts[..n], wanted);
      if wanted(districts[n]) && districts[n] !in r then r + [districts[n]] else r
  }

  /** Which lists count, and which districts of those. */
  datatype Choice = Choice(list: CandidateList -> bool, district: District -> bool)

  function Everything(): Choice {
    Choice(_ => true, _ => true)
  }

  function DistrictsOf(lists: seq<CandidateList>, choice: Choice): seq<District> {
    if lists == [] then []
    else
      var n := |lists| - 1;
      var seen := DistrictsOf(lists[..n], choice);
      if choice.list(lists[n]) then AddNew(seen, lists[n].districts, choice.district) else seen
  }

  /** The loop over lists and their districts that the models share. */
  method CollectDistricts(lists: seq<CandidateList>, choice: Choice) returns (r: seq<District>)
    ensures r == DistrictsOf(lists, choice)
  {
    r := [];
    for i := 0 to |lists|
      invariant r == DistrictsOf(lists[..i], choice)
    {
      var list := lists[i];
      assert lists[..i + 1][..i] == lists[..i];
      if !choice.list(list) {
        continue;
      }
      ghost var seen := r;
      for j := 0 to |list.districts|
        invariant r == AddNew(seen, list.districts[..j], choice.district)
      {
        assert list.districts[..j + 1][..j] == list.districts[..j];
        if choice.district(list.districts[j]) && list.districts[j] !in r {
          r := r + [list.districts[j]];
        }
      }
      assert list.districts[..|list.districts|] == list.districts;
    }
    assert lists[..|lists|] == lists;
  }

  predicate NoRepeats(districts: seq<District>) {
    forall i, j :: 0 <= i < j < |districts| ==> districts[i] != districts[j]
  }

  lemma {:induction false} AddNewMembers(seen: seq<District>, districts: seq<District>, wanted: District -> bool)
    requires NoRepeats(seen)
    ensures NoRepeats(AddNew(seen, districts, wanted))
    ensures forall d :: d in AddNew(seen, districts, wanted) <==> d in seen || (d in districts && wanted(d))
  {
    if districts == [] {
    } else {
      var n := |districts| - 1;
      AddNewMembers(seen, districts[..n], wanted);
      assert districts == districts[..n] + [districts[n]];
    }
  }

  /** Each district of the chosen lists that counts is there exactly once. */
  lemma {:induction false} CollectsEachOnce(lists: seq<CandidateList>, choice: Choice)
    ensures NoRepeats(DistrictsOf(lists, choice))
    ensures forall d :: d in DistrictsOf(lists, choice)
              <==> && choice.district(d)
                   && exists k :: 0 <= k < |lists| && choice.list(lists[k]) && d in lists[k].districts
  {
    if lists == [] {
    } else {
      var n := |lists| - 1;
      CollectsEachOnce(lists[..n], choice);
      AddNewMembers(DistrictsOf(lists[..n], choice), lists[n].districts, choice.district);
      assert forall k :: 0 <= k < n ==> lists[..n][k] == lists[k];
    }
  }

  /** The lists behind the ids, or nothing when one is unknown. */
  lemma {:induction false} FindAllMeans(lists: seq<CandidateList>, ids: seq<ListId>)
    ensures FindAll(lists, ids).Some? <==> forall k :: 0 <= k < |ids| ==> FindList(lists, ids[k]).Some?
    ensures FindAll(lists, ids).Some? ==>
              && |FindAll(lists, ids).value| == |ids|
              && forall k :: 0 <= k < |ids| ==> FindList(lists, ids[k]) == Some(FindAll(lists, ids).value[k])
  {
    hide FindList;
    if ids == [] {
    } else {
      var n := |ids| - 1;
      FindAllMeans(lists, ids[..n]);
      assert forall k :: 0 <= k < n ==> ids[..n][k] == ids[k];
    }
  }

  // ----- writing districts

  const ALL_DISTRICTS := "alle kieskringen"

  const DIGITS := ['0', '1', '2', '3', '4', '5', '6', '7', '8', '9']

  function Decimal(n: nat): string {
    (if n < 10 then "" else Decimal(n / 10)) + [DIGITS[n % 10]]
  }

  function Part(d: District): string {
    Decimal(d.region) + (" (" + (d.title + ")"))
  }

  function Joined(districts: seq<District>): string {
    if districts == [] then ""
    else Part(districts[0]) + if |districts| == 1 then "" else ", " + Joined(districts[1..])
  }

  predicate CoversAll(districts: seq<District>, election: seq<District>) {
    districts == [] || forall k :: 0 <= k < |election| ==> election[k] in districts
  }

  function FormatDistricts(districts: seq<District>, election: seq<District>): string {
    if CoversAll(districts, election) then ALL_DISTRICTS
    else "kieskring " + Joined(Sort(districts, KeyLe(Region)))
  }

  /** The label of all districts is written for nothing else. */
  lemma AllDistrictsMeansCovered(districts: seq<District>, election: seq<District>)
    ensures FormatDistricts(districts, election) == ALL_DISTRICTS <==> CoversAll(districts, election)
  {
    assert !CoversAll(districts, election) ==> FormatDistricts(districts, election)[0] == 'k';
  }

  /** Region numbers tell these districts apart. */
  predicate TellApart(districts: seq<District>) {
    forall i, j :: 0 <= i < |districts| && 0 <= j < |districts| && districts[i].region == districts[j].region ==>
      districts[i] == districts[j]
  }

  lemma {:induction false} SameElementThroughout<T>(a: seq<T>, b: seq<T>, x: T)
    requires multiset(a) == multiset(b)
    requires forall i :: 0 <= i < |a| ==> a[i] == x
    ensures a == b
  {
    assert |a| == |multiset(a)| == |b|;
    forall i | 0 <= i < |b| ensures b[i] == x {
      assert b[i] in multiset(b);
      assert b[i] in multiset(a);
    }
  }

  lemma SameTiesByRegion(a: seq<District>, b: seq<District>, x: District)
    requires multiset(a) == multiset(b) && TellApart(a)
    ensures Ties(a, x, KeyLe(Region)) == Ties(b, x, KeyLe(Region))
  {
    hide Ties;
    var le := KeyLe(Region);
    var p, q := Ties(a, x, le), Ties(b, x, le);
    forall y ensures multiset(p)[y] == multiset(q)[y] {
      TiesMultiset(a, x, le, y);
      TiesMultiset(b, x, le, y);
    }
    forall i | 0 <= i < |p| ensures p[i] == p[0] {
      TieMember(a, x, le, p[i]);
      TieMember(a, x, le, p[0]);
    }
    SameElementThroughout(p, q, if p == [] then x else p[0]);
  }

  /** The order in which districts were collected does not show; how often a
      district was named does. */
  lemma LabelIgnoresOrder(a: seq<District>, b: seq<District>, election: seq<District>)
    requires multiset(a) == multiset(b) && TellApart(a)
    ensures FormatDistricts(a, election) == FormatDistricts(b, election)
  {
    hide Sort, Ties, Joined;
    var le := KeyLe(Region);
    assert |a| == |multiset(a)| == |b|;
    forall d ensures d in a <==> d in b {
      assert d in a <==> d in multiset(a);
    }
    KeyLeIsTotal(Region);
    SortSorts(a, le);
    SortSorts(b, le);
    forall x ensures Ties(Sort(a, le), x, le) == Ties(Sort(b, le), x, le) {
      SortIsStable(a, x, le);
      SortIsStable(b, x, le);
      SameTiesByRegion(a, b, x);
    }
    SortedWithTiesIsUnique(Sort(a, le), Sort(b, le), le);
  }

  lemma {:induction false} OccursOnce(s: seq<District>, d: District)
    requires NoRepeats(s)
    ensures multiset(s)[d] == if d in s then 1 else 0
  {
    if s == [] {
    } else {
      var n := |s| - 1;
      OccursOnce(s[..n], d);
      assert s == s[..n] + [s[n]];
    }
  }

  /** Where no district is named twice, a label is for a set of districts. */
  lemma LabelIsForASet(a: seq<District>, b: seq<District>, election: seq<District>)
    requires NoRepeats(a) && NoRepeats(b) && TellApart(a)
    requires forall d :: d in a <==> d in b
    ensures FormatDistricts(a, election) == FormatDistricts(b, election)
  {
    forall d ensures multiset(a)[d] == multiset(b)[d] {
      OccursOnce(a, d);
      OccursOnce(b, d);
    }
    LabelIgnoresOrder(a, b, election);
  }

  // ----- when a repetition shows

  /** The room the parts take, each with its separator. */
  function Weight(districts: seq<District>): nat {
    if districts == [] then 0
    else Weight(districts[..|districts| - 1]) + |Part(districts[|districts| - 1])| + 2
  }

  lemma {:induction false} WeightConcat(a: seq<District>, b: seq<District>)
    ensures Weight(a + b) == Weight(a) + Weight(b)
  {
    hide Part;
    if b == [] {
      assert a + b == a;
    } else {
      var n := |b| - 1;
      WeightConcat(a, b[..n]);
      assert (a + b)[..|a + b| - 1] == a + b[..n];
    }
  }

  lemma WeightOne(d: District)
    ensures Weight([d]) == |Part(d)| + 2
  {
    hide Part;
    assert Weight([d][..0]) == 0;
  }

  lemma {:induction false} JoinedWeight(districts: seq<District>)
    requires districts != []
    ensures |Joined(districts)| + 2 == Weight(districts)
  {
    hide Part, Weight;
    WeightOne(districts[0]);
    if |districts| == 1 {
      assert districts == [districts[0]];
    } else {
      JoinedWeight(districts[1..]);
      WeightConcat([districts[0]], districts[1..]);
      HeadAndTail(districts);
    }
  }

  lemma WeightAppend(s: seq<District>, x: District)
    ensures Weight(s + [x]) == Weight(s) + Weight([x])
  {
    hide Weight;
    WeightConcat(s, [x]);
  }

  lemma WeightStep(s: seq<District>)
    requires s != []
    ensures Weight(s) == Weight(s[..|s| - 1]) + Weight([s[|s| - 1]])
  {
    hide Part;
    WeightOne(s[|s| - 1]);
  }

  lemma {:induction false} WeightInsert(s: seq<District>, x: District)
    ensures Weight(Insert(s, x, KeyLe(Region))) == Weight(s) + Weight([x])
  {
    if s == [] {
    } else {
      hide Weight, Insert, KeyLe;
      var n, le := |s| - 1, KeyLe(Region);
      InsertStep(s, x, le);
      WeightStep(s);
      if le(s[n], x) {
        WeightAppend(s, x);
      } else {
        WeightInsert(s[..n], x);
        WeightAppend(Insert(s[..n], x, le), s[n]);
      }
    }
  }

  lemma {:induction false} WeightSort(s: seq<District>)
    ensures Weight(Sort(s, KeyLe(Region))) == Weight(s)
  {
    if s == [] {
    } else {
      hide Weight, Sort, Insert;
      var n := |s| - 1;
      SortStep(s, KeyLe(Region));
      WeightSort(s[..n]);
      WeightInsert(Sort(s[..n], KeyLe(Region)), s[n]);
      WeightStep(s);
    }
  }

  /** Each district once, where it comes first. */
  function Once(districts: seq<District>): seq<District> {
    AddNew([], districts, _ => true)
  }

  lemma OnceMeans(districts: seq<District>)
    ensures NoRepeats(Once(districts)) && forall d :: d in Once(districts) <==> d in districts
  {
    AddNewMembers([], districts, _ => true);
  }

  lemma OnceStep(districts: seq<District>)
    requires districts != []
    ensures var n := |districts| - 1;
            Once(districts) == if districts[n] in Once(districts[..n]) then Once(districts[..n])
                               else Once(districts[..n]) + [districts[n]]
  {
    var n := |districts| - 1;
    AddNewSame([], districts[..n], _ => true, _ => true);
  }

  lemma {:induction false} AddNewSame(seen: seq<District>, districts: seq<District>, p: District -> bool,
                                      q: District -> bool)
    requires forall d :: p(d) <==> q(d)
    ensures AddNew(seen, districts, p) == AddNew(seen, districts, q)
  {
    if districts == [] {
    } else {
      AddNewSame(seen, districts[..|districts| - 1], p, q);
    }
  }

  lemma NoRepeatsStep(districts: seq<District>)
    requires districts != []
    ensures var n := |districts| - 1;
            NoRepeats(districts) <==> NoRepeats(districts[..n]) && districts[n] !in districts[..n]
  {
    var n := |districts| - 1;
    if NoRepeats(districts[..n]) && districts[n] !in districts[..n] {
      forall i, j | 0 <= i < j < |districts| ensures districts[i] != districts[j] {
        assert districts[..n][i] == districts[i];
        assert j < n ==> districts[..n][j] == districts[j];
      }
    }
    if NoRepeats(districts) {
      assert forall i :: 0 <= i < n ==> districts[..n][i] == districts[i];
    }
  }

  /** Repetitions take room. */
  lemma {:induction false} RepetitionsTakeRoom(districts: seq<District>)
    ensures Weight(Once(districts)) <= Weight(districts)
    ensures Weight(Once(districts)) == Weight(districts) <==> NoRepeats(districts)
  {
    if districts == [] {
    } else {
      hide Once, Weight, NoRepeats, Part;
      var n := |districts| - 1;
      RepetitionsTakeRoom(districts[..n]);
      OnceStep(districts);
      OnceMeans(districts[..n]);
      NoRepeatsStep(districts);
      WeightOne(districts[n]);
      WeightStep(districts);
      WeightAppend(Once(districts[..n]), districts[n]);
    }
  }

  lemma LabelWeight(districts: seq<District>, election: seq<District>)
    requires !CoversAll(districts, election)
    ensures |FormatDistricts(districts, election)| + 2 == |"kieskring "| + Weight(districts)
  {
    hide Weight, Joined, Sort;
    JoinedWeight(Sort(districts, KeyLe(Region)));
    WeightSort(districts);
  }

  lemma SameSetTellsApart(a: seq<District>, b: seq<District>)
    requires TellApart(a) && forall d :: d in a <==> d in b
    ensures TellApart(b)
  {
    forall i, j | 0 <= i < |b| && 0 <= j < |b| && b[i].region == b[j].region ensures b[i] == b[j] {
      assert b[i] in a && b[j] in a;
    }
  }

  lemma SameSetCovers(a: seq<District>, b: seq<District>, election: seq<District>)
    requires forall d :: d in a <==> d in b
    ensures CoversAll(a, election) <==> CoversAll(b, election)
  {
    assert a != [] ==> a[0] in b;
    assert b != [] ==> b[0] in a;
  }

  /** When the label tells only the set: a repetition shows exactly when not all
      districts are covered. */
  lemma RepetitionShowsUnlessCovered(a: seq<District>, b: seq<District>, election: seq<District>)
    requires TellApart(a) && NoRepeats(b) && forall d :: d in a <==> d in b
    ensures FormatDistricts(a, election) == FormatDistricts(b, election)
            <==> CoversAll(a, election) || NoRepeats(a)
  {
    hide FormatDistricts, NoRepeats, Weight, TellApart;
    SameSetCovers(a, b, election);
    if CoversAll(a, election) {
      AllDistrictsMeansCovered(a, election);
      AllDistrictsMeansCovered(b, election);
    } else {
      hide CoversAll;
      var once := Once(a);
      OnceMeans(a);
      SameSetTellsApart(a, b);
      LabelIsForASet(b, once, election);
      SameSetCovers(a, once, election);
      LabelWeight(a, election);
      LabelWeight(once, election);
      RepetitionsTakeRoom(a);
      if NoRepeats(a) {
        LabelIsForASet(a, b, election);
      }
    }
  }

  /** A declaration of support that names a district twice, next to one that names
      it once. */
  lemma NamedTwiceShows(d: District, e: District)
    requires d != e
    ensures FormatDistricts([d, d], [d, e]) != FormatDistricts([d], [d, e])
  {
    var twice, all := [d, d], [d, e];
    assert twice[0] == twice[1] && all[1] == e;
    RepetitionShowsUnlessCovered(twice, [d], all);
  }

  // ----- what a label tells

  lemma {:induction false} DecimalIsDigits(n: nat)
    ensures forall k :: 0 <= k < |Decimal(n)| ==> Decimal(n)[k] in DIGITS
  {
    if n < 10 {
    } else {
      DecimalIsDigits(n / 10);
    }
  }

  lemma DigitsDiffer(i: nat, j: nat)
    requires i < 10 && j < 10 && DIGITS[i] == DIGITS[j]
    ensures i == j
  {}

  function Tens(n: nat): nat {
    n / 10
  }

  function Ones(n: nat): (r: nat)
    ensures r < 10
  {
    n % 10
  }

  lemma TensAndOnes(n: nat)
    ensures n == 10 * Tens(n) + Ones(n)
    ensures n >= 10 ==> Tens(n) < n
  {}

  lemma DecimalStep(n: nat)
    ensures Decimal(n) != "" && Decimal(n)[|Decimal(n)| - 1] == DIGITS[Ones(n)]
    ensures Decimal(n)[..|Decimal(n)| - 1] == if n < 10 then "" else Decimal(Tens(n))
  {}

  lemma {:induction false} DecimalTells(m: nat, n: nat)
    requires Decimal(m) == Decimal(n)
    ensures m == n
  {
    hide Decimal, Tens, Ones;
    DecimalStep(m);
    DecimalStep(n);
    DecimalStep(Tens(m));
    DecimalStep(Tens(n));
    DigitsDiffer(Ones(m), Ones(n));
    TensAndOnes(m);
    TensAndOnes(n);
    if m < 10 || n < 10 {
    } else {
      DecimalTells(Tens(m), Tens(n));
    }
  }

  /** A text ends at the first character that cannot be in it. */
  lemma NotLonger(a: string, b: string, c: char, u: string, v: string)
    requires c !in b && a + ([c] + u) == b + ([c] + v)
    ensures |b| <= |a|
  {
    var s := a + ([c] + u);
    assert s[|a|] == c;
    assert forall k :: 0 <= k < |b| ==> s[k] == b[k] && b[k] in b;
  }

  lemma EndsAtFirst(a: string, b: string, c: char, u: string, v: string)
    requires c !in a && c !in b && a + ([c] + u) == b + ([c] + v)
    ensures a == b && u == v
  {
    NotLonger(a, b, c, u, v);
    NotLonger(b, a, c, v, u);
    var s := a + ([c] + u);
    assert s[..|a|] == a && s[..|b|] == b;
    assert s[|a| + 1..] == u && s[|b| + 1..] == v;
  }

  /** No title closes the parenthesis it stands in. */
  predicate TitlesStayOpen(districts: seq<District>) {
    forall k :: 0 <= k < |districts| ==> ')' !in districts[k].title
  }

  lemma PartTells(d: District, e: District, u: string, v: string)
    requires ')' !in d.title && ')' !in e.title && Part(d) + u == Part(e) + v
    ensures d == e && u == v
  {
    DecimalIsDigits(d.region);
    DecimalIsDigits(e.region);
    hide Decimal;
    var p, q := d.title + ([')'] + u), e.title + ([')'] + v);
    assert Part(d) + u == Decimal(d.region) + ([' '] + (['('] + p));
    assert Part(e) + v == Decimal(e.region) + ([' '] + (['('] + q));
    EndsAtFirst(Decimal(d.region), Decimal(e.region), ' ', ['('] + p, ['('] + q);
    DecimalTells(d.region, e.region);
    EndsAtFirst("", "", '(', p, q);
    EndsAtFirst(d.title, e.title, ')', u, v);
  }

  function Tail(districts: seq<District>): string
    requires districts != []
  {
    if |districts| == 1 then "" else ", " + Joined(districts[1..])
  }

  lemma {:induction false} JoinedTells(a: seq<District>, b: seq<District>)
    requires a != [] && b != [] && TitlesStayOpen(a) && TitlesStayOpen(b) && Joined(a) == Joined(b)
    ensures a == b
    decreases |a|
  {
    assert Joined(a) == Part(a[0]) + Tail(a) && Joined(b) == Part(b[0]) + Tail(b);
    hide Part, Joined;
    PartTells(a[0], b[0], Tail(a), Tail(b));
    HeadAndTail(a);
    HeadAndTail(b);
    if |a| == 1 || |b| == 1 {
      assert |a| == 1 <==> Tail(a) == "";
      assert |b| == 1 <==> Tail(b) == "";
      assert a[1..] == [] && b[1..] == [];
    } else {
      CancelSeparator(Joined(a[1..]), Joined(b[1..]));
      JoinedTells(a[1..], b[1..]);
    }
  }

  lemma CancelSeparator(u: string, v: string)
    requires ", " + u == ", " + v
    ensures u == v
  {
    assert u == (", " + u)[2..] && v == (", " + v)[2..];
  }

  lemma SortStaysOpen(a: seq<District>)
    requires TitlesStayOpen(a)
    ensures TitlesStayOpen(Sort(a, KeyLe(Region)))
  {
    var sorted := Sort(a, KeyLe(Region));
    forall k | 0 <= k < |sorted| ensures ')' !in sorted[k].title {
      SortKeepsMembers(a, KeyLe(Region), sorted[k]);
    }
  }

  /** A label can be read back: two are equal exactly when both stand for all
      districts, or for the same districts named equally often. */
  lemma LabelTellsDistricts(a: seq<District>, b: seq<District>, election: seq<District>)
    requires TellApart(a) && TitlesStayOpen(a) && TitlesStayOpen(b)
    ensures FormatDistricts(a, election) == FormatDistricts(b, election)
            <==> (CoversAll(a, election) && CoversAll(b, election)) || multiset(a) == multiset(b)
  {
    hide Sort, Joined, TellApart;
    AllDistrictsMeansCovered(a, election);
    AllDistrictsMeansCovered(b, election);
    if multiset(a) == multiset(b) {
      LabelIgnoresOrder(a, b, election);
    }
    if !CoversAll(a, election) && !CoversAll(b, election)
       && FormatDistricts(a, election) == FormatDistricts(b, election) {
      var p, q := Sort(a, KeyLe(Region)), Sort(b, KeyLe(Region));
      CancelKieskring(Joined(p), Joined(q));
      SortStaysOpen(a);
      SortStaysOpen(b);
      JoinedTells(p, q);
    }
  }

  lemma CancelKieskring(u: string, v: string)
    requires "kieskring " + u == "kieskring " + v
    ensures u == v
  {
    var n := |"kieskring "|;
    assert u == ("kieskring " + u)[n..] && v == ("kieskring " + v)[n..];
  }

  /** Where no district is named twice, as among collected ones, there is one label
      per set of districts. */
  lemma OneLabelPerSet(a: seq<District>, b: seq<District>, election: seq<District>)
    requires TellApart(a) && TitlesStayOpen(a) && TitlesStayOpen(b) && NoRepeats(a) && NoRepeats(b)
    ensures FormatDistricts(a, election) == FormatDistricts(b, election)
            <==> (CoversAll(a, election) && CoversAll(b, election)) || forall d :: d in a <==> d in b
  {
    hide FormatDistricts, CoversAll, TellApart;
    LabelTellsDistricts(a, b, election);
    if multiset(a) == multiset(b) {
      forall d ensures d in a <==> d in b {
        assert d in a <==> d in multiset(a);
        assert d in b <==> d in multiset(b);
      }
    }
    if forall d :: d in a <==> d in b {
      forall d ensures multiset(a)[d] == multiset(b)[d] {
        OccursOnce(a, d);
        OccursOnce(b, d);
      }
      assert multiset(a) == multiset(b);
    }
  }

  // ----- the districts of an omission

  /** Fails on a list that is not there. */
  function LabelOf(g: Group, election: seq<District>, category: Category): Option<string> {
    match category
    case PoliticalGroup => Some(FormatDistricts(DistrictsOf(g.lists, Everything()), election))
    case Appellation => Some(FormatDistricts(DistrictsOf(g.lists, Everything()), election))
    case DeclarationsOfSupport(districts) => Some(FormatDistricts(districts, election))
    case _ =>
      match FindAll(g.lists, category.lists)
      case None => None
      case Some(lists) => Some(FormatDistricts(DistrictsOf(lists, Everything()), election))
  }

  method ElectoralDistrict(g: Group, election: seq<District>, category: Category) returns (r: Option<string>)
    ensures r == LabelOf(g, election, category)
  {
    var districts;
    match category {
      case PoliticalGroup | Appellation =>
        districts := CollectDistricts(g.lists, Everything());
      case DeclarationsOfSupport(own) =>
        districts := own;
      case CandidateLists(ids) =>
        var lists := FindAll(g.lists, ids);
        if lists.None? {
          return None;
        }
        districts := CollectDistricts(lists.value, Everything());
      case Candidate(_, ids) =>
        var lists := FindAll(g.lists, ids);
        if lists.None? {
          return None;
        }
        districts := CollectDistricts(lists.value, Everything());
    }
    return Some(FormatDistricts(districts, election));
  }

  /** The label is written for exactly these districts, each once. */
  ghost predicate IsLabelFor(text: string, election: seq<District>, within: District -> bool) {
    exists districts ::
      && NoRepeats(districts) && (forall d :: d in districts <==> within(d))
      && text == FormatDistricts(districts, election)
  }

  /** The districts of all lists of the group. */
  function OfGroup(g: Group): District -> bool {
    (d: District) => exists l :: l in g.lists && d in l.districts
  }

  /** The districts of the lists with these ids. */
  function OfLists(g: Group, ids: seq<ListId>): District -> bool {
    (d: District) => exists l :: l in g.lists && l.id in ids && d in l.districts
  }

  /** What an omission is labelled with: one about the group with the districts of all
      its lists, one about lists or a candidate with the districts of the lists it
      names, a declaration of support with its own as they stand. */
  lemma LabelMeans(g: Group, election: seq<District>, category: Category)
    requires DistinctLists(g) && LabelOf(g, election, category).Some?
    ensures var text := LabelOf(g, election, category).value;
            match category
            case PoliticalGroup => IsLabelFor(text, election, OfGroup(g))
            case Appellation => IsLabelFor(text, election, OfGroup(g))
            case DeclarationsOfSupport(districts) => text == FormatDistricts(districts, election)
            case CandidateLists(ids) => IsLabelFor(text, election, OfLists(g, ids))
            case Candidate(_, ids) => IsLabelFor(text, election, OfLists(g, ids))
  {
    hide FormatDistricts, DistrictsOf;
    match category
    case PoliticalGroup => GroupDistrictsMean(g);
    case Appellation => GroupDistrictsMean(g);
    case DeclarationsOfSupport(_) =>
    case CandidateLists(ids) => ListDistrictsMean(g, ids);
    case Candidate(_, ids) => ListDistrictsMean(g, ids);
  }

  lemma GroupDistrictsMean(g: Group)
    ensures var districts := DistrictsOf(g.lists, Everything());
            NoRepeats(districts) && forall d :: d in districts <==> OfGroup(g)(d)
  {
    CollectsEachOnce(g.lists, Everything());
    hide DistrictsOf;
    var districts := DistrictsOf(g.lists, Everything());
    forall d ensures d in districts <==> OfGroup(g)(d) {
      if OfGroup(g)(d) {
        var l :| l in g.lists && d in l.districts;
        var k :| 0 <= k < |g.lists| && g.lists[k] == l;
        assert d in g.lists[k].districts;
      }
    }
  }

  lemma ListDistrictsMean(g: Group, ids: seq<ListId>)
    requires DistinctLists(g) && FindAll(g.lists, ids).Some?
    ensures var districts := DistrictsOf(FindAll(g.lists, ids).value, Everything());
            NoRepeats(districts) && forall d :: d in districts <==> OfLists(g, ids)(d)
  {
    var lists := FindAll(g.lists, ids).value;
    FindAllMeans(g.lists, ids);
    CollectsEachOnce(lists, Everything());
    hide DistrictsOf, FindAll;
    forall d ensures d in DistrictsOf(lists, Everything()) <==> OfLists(g, ids)(d) {
      if k :| 0 <= k < |lists| && d in lists[k].districts {
        assert FindList(g.lists, ids[k]) == Some(lists[k]);
        assert lists[k] in g.lists && lists[k].id in ids;
      }
      if OfLists(g, ids)(d) {
        var l :| l in g.lists && l.id in ids && d in l.districts;
        var k :| 0 <= k < |ids| && ids[k] == l.id;
        OnlyListWithItsId(g, l);
        assert lists[k] == l;
      }
    }
  }

  lemma OnlyListWithItsId(g: Group, l: CandidateList)
    requires DistinctLists(g) && l in g.lists
    ensures FindList(g.lists, l.id) == Some(l)
  {}

  const GRONINGEN := District(1, "Groningen")
  const FRYSLAN := District(2, "Fryslan")
  const DRENTHE := District(3, "Drenthe")

  lemma SortTwo(d: District, e: District)
    requires e.region < d.region
    ensures Sort([d, e], KeyLe(Region)) == [e, d]
  {
    var le, both := KeyLe(Region), [d, e];
    KeyLeMeans(Region);
    assert both[..1] == [d] && both[1] == e && [d][..0] == [];
    assert Sort([], le) == [] && Insert([], d, le) == [d] && Insert([], e, le) == [e];
    hide Sort, Insert;
    SortStep([d], le);
    assert Sort([d], le) == [d];
    SortStep(both, le);
    InsertStep([d], e, le);
    assert [e] + [d] == [e, d];
  }

  lemma PartsAsDocumented()
    ensures Part(GRONINGEN) == "1 (Groningen)" && Part(DRENTHE) == "3 (Drenthe)"
  {
    assert Decimal(1) == "1" && Decimal(3) == "3";
  }

  lemma JoinTwo(d: District, e: District)
    ensures Joined([d, e]) == Part(d) + (", " + Part(e))
  {
    hide Part;
    assert [d, e][1..] == [e] && Joined([e]) == Part(e) + "";
  }

  /** Two districts of three, given in the wrong order. */
  lemma TwoOfThree(d: District, e: District, f: District)
    requires d.region < f.region && e != d && e != f
    ensures FormatDistricts([f, d], [d, e, f]) == "kieskring " + (Part(d) + (", " + Part(f)))
  {
    hide Sort, Joined, Part;
    var given, all := [f, d], [d, e, f];
    assert all[1] !in given;
    SortTwo(f, d);
    JoinTwo(d, f);
  }

  /** The label as the documentation writes it: kieskring 1 (Groningen), 3 (Drenthe). */
  lemma LabelAsDocumented()
    ensures FormatDistricts([DRENTHE, GRONINGEN], [GRONINGEN, FRYSLAN, DRENTHE])
            == "kieskring " + ("1 (Groningen)" + (", " + "3 (Drenthe)"))
  {
    hide FormatDistricts, Part;
    TwoOfThree(GRONINGEN, FRYSLAN, DRENTHE);
    PartsAsDocumented();
  }
}
