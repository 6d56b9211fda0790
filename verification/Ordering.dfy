/** Stable sorting, and why its result is unique. */
module Ordering {
  import opened Sequences

  ghost predicate TotalPreorder<T(!new)>(le: (T, T) -> bool) {
    && (forall x, y :: le(x, y) || le(y, x))
    && (forall x, y, z :: le(x, y) && le(y, z) ==> le(x, z))
  }

  predicate SortedBy<T>(s: seq<T>, le: (T, T) -> bool) {
    forall i, j :: 0 <= i < j < |s| ==> le(s[i], s[j])
  }

  /** `x` goes behind everything that is not greater. */
  function Insert<T>(s: seq<T>, x: T, le: (T, T) -> bool): (r: seq<T>)
    ensures multiset(r) == multiset(s) + multiset{x}
    ensures |r| == |s| + 1
  {
    if s == [] then [x]
    else
      var n := |s| - 1;
      assert s == s[..n] + [s[n]];
      if le(s[n], x) then s + [x] else Insert(s[..n], x, le) + [s[n]]
  }

  /** The stable sort of the standard library. */
  function Sort<T>(s: seq<T>, le: (T, T) -> bool): (r: seq<T>)
    ensures multiset(r) == multiset(s)
    ensures |r| == |s|
  {
    if s == [] then []
    else
      var n := |s| - 1;
      assert s == s[..n] + [s[n]];
      Insert(Sort(s[..n], le), s[n], le)
  }

  lemma SortKeepsMembers<T>(s: seq<T>, le: (T, T) -> bool, x: T)
    ensures x in Sort(s, le) <==> x in s
  {
    assert x in Sort(s, le) <==> x in multiset(Sort(s, le));
  }

  lemma InsertStep<T>(s: seq<T>, x: T, le: (T, T) -> bool)
    requires s != []
    ensures var n := |s| - 1;
            Insert(s, x, le) == if le(s[n], x) then s + [x] else Insert(s[..n], x, le) + [s[n]]
  {}

  lemma InsertMember<T>(s: seq<T>, x: T, le: (T, T) -> bool, y: T)
    ensures y in Insert(s, x, le) <==> y in s || y == x
  {
    assert y in Insert(s, x, le) <==> y in multiset(Insert(s, x, le));
  }

  lemma SortedAppend<T>(s: seq<T>, x: T, le: (T, T) -> bool)
    requires SortedBy(s, le) && forall i :: 0 <= i < |s| ==> le(s[i], x)
    ensures SortedBy(s + [x], le)
  {}

  lemma {:induction false} InsertSorts<T(!new)>(s: seq<T>, x: T, le: (T, T) -> bool)
    requires TotalPreorder(le) && SortedBy(s, le)
    ensures SortedBy(Insert(s, x, le), le)
  {
    if s == [] {
    } else {
      hide Insert;
      var n := |s| - 1;
      var r := Insert(s[..n], x, le);
      InsertStep(s, x, le);
      if le(s[n], x) {
        forall i | 0 <= i < |s| ensures le(s[i], x) {
          assert i == n || le(s[i], s[n]);
        }
        SortedAppend(s, x, le);
      } else {
        InsertSorts(s[..n], x, le);
        forall i | 0 <= i < |r| ensures le(r[i], s[n]) {
          InsertMember(s[..n], x, le, r[i]);
        }
        SortedAppend(r, s[n], le);
      }
    }
  }

  lemma {:induction false} SortSorts<T(!new)>(s: seq<T>, le: (T, T) -> bool)
    requires TotalPreorder(le)
    ensures SortedBy(Sort(s, le), le)
  {
    if s == [] {
    } else {
      var n := |s| - 1;
      SortSorts(s[..n], le);
      InsertSorts(Sort(s[..n], le), s[n], le);
    }
  }

  /** The elements of `s` that compare equal to `x`, in order. */
  function Ties<T>(s: seq<T>, x: T, le: (T, T) -> bool): seq<T> {
    Filter(s, y => le(x, y) && le(y, x))
  }

  lemma TiesMultiset<T>(s: seq<T>, x: T, le: (T, T) -> bool, y: T)
    ensures multiset(Ties(s, x, le))[y] == if le(x, y) && le(y, x) then multiset(s)[y] else 0
  {
    FilterMultiset(s, z => le(x, z) && le(z, x), y);
  }

  lemma TiesAppend<T>(s: seq<T>, y: T, x: T, le: (T, T) -> bool)
    ensures Ties(s + [y], x, le) == Ties(s, x, le) + if le(x, y) && le(y, x) then [y] else []
  {
    assert (s + [y])[..|s|] == s;
  }

  lemma TiesConcat<T>(a: seq<T>, b: seq<T>, x: T, le: (T, T) -> bool)
    ensures Ties(a + b, x, le) == Ties(a, x, le) + Ties(b, x, le)
  {
    FilterConcat(a, b, y => le(x, y) && le(y, x));
  }

  /** When all of `s` ties with `x`, or nothing does. */
  lemma TiesAllOrNone<T>(s: seq<T>, x: T, le: (T, T) -> bool, all: bool)
    requires forall i :: 0 <= i < |s| ==> (le(x, s[i]) && le(s[i], x) <==> all)
    ensures Ties(s, x, le) == if all then s else []
  {
    FilterAllOrNothing(s, y => le(x, y) && le(y, x), all);
  }

  lemma {:induction false} InsertIsStable<T(!new)>(s: seq<T>, y: T, x: T, le: (T, T) -> bool)
    requires TotalPreorder(le)
    ensures Ties(Insert(s, y, le), x, le) == Ties(s + [y], x, le)
  {
    hide Ties;
    TiesAppend(s, y, x, le);
    if s == [] {
      assert s + [y] == [y];
    } else {
      var n := |s| - 1;
      if !le(s[n], y) {
        InsertIsStable(s[..n], y, x, le);
        TiesAppend(s[..n], y, x, le);
        TiesAppend(Insert(s[..n], y, le), s[n], x, le);
        TiesAppend(s[..n], s[n], x, le);
        assert s == s[..n] + [s[n]];
      }
    }
  }

  lemma SortStep<T>(s: seq<T>, le: (T, T) -> bool)
    requires s != []
    ensures Sort(s, le) == Insert(Sort(s[..|s| - 1], le), s[|s| - 1], le)
  {}

  /** Elements that compare equal keep their order. */
  lemma {:induction false} SortIsStable<T(!new)>(s: seq<T>, x: T, le: (T, T) -> bool)
    requires TotalPreorder(le)
    ensures Ties(Sort(s, le), x, le) == Ties(s, x, le)
  {
    hide Ties, Insert;
    if s == [] {
    } else {
      hide Sort, TotalPreorder;
      var n := |s| - 1;
      SortStep(s, le);
      SortIsStable(s[..n], x, le);
      InsertIsStable(Sort(s[..n], le), s[n], x, le);
      TiesAppend(Sort(s[..n], le), s[n], x, le);
      TiesAppend(s[..n], s[n], x, le);
      assert s == s[..n] + [s[n]];
    }
  }

  /** Two sorted sequences with the same ties everywhere are equal, so the
      stable sort is the only stable sort. */
  lemma {:induction false} SortedWithTiesIsUnique<T(!new)>(a: seq<T>, b: seq<T>, le: (T, T) -> bool)
    requires TotalPreorder(le) && SortedBy(a, le) && SortedBy(b, le)
    requires forall x :: Ties(a, x, le) == Ties(b, x, le)
    ensures a == b
    decreases |a|
  {
    hide Ties;
    if a == [] || b == [] {
      EmptyTies(a, b, le);
    } else {
      var m, n := |a| - 1, |b| - 1;
      LastTies(a, b, le);
      LastTies(b, a, le);
      LastOfTies(a, le);
      LastOfTies(b, le);
      SameTies(a, b, le);
      assert a[m] == b[n];
      forall x ensures Ties(a[..m], x, le) == Ties(b[..n], x, le) {
        TiesAppend(a[..m], a[m], x, le);
        TiesAppend(b[..n], b[n], x, le);
        assert a == a[..m] + [a[m]] && b == b[..n] + [b[n]];
        var tail := if le(x, a[m]) && le(a[m], x) then [a[m]] else [];
        assert Ties(a, x, le) == Ties(b, x, le);
        CancelTail(Ties(a[..m], x, le), Ties(b[..n], x, le), tail);
      }
      SortedWithTiesIsUnique(a[..m], b[..n], le);
      assert a == a[..m] + [a[m]] && b == b[..n] + [b[n]];
    }
  }

  lemma CancelTail<T>(p: seq<T>, q: seq<T>, tail: seq<T>)
    requires p + tail == q + tail
    ensures p == q
  {
    assert p == (p + tail)[..|p|];
  }

  lemma EmptyTies<T(!new)>(a: seq<T>, b: seq<T>, le: (T, T) -> bool)
    requires TotalPreorder(le) && (a == [] || b == [])
    requires forall x :: Ties(a, x, le) == Ties(b, x, le)
    ensures a == b
  {
    if a != [] || b != [] {
      var x := if a != [] then a[0] else b[0];
      TiesMember(a, x, le);
      TiesMember(b, x, le);
    }
  }

  lemma TiesMember<T(!new)>(s: seq<T>, x: T, le: (T, T) -> bool)
    requires TotalPreorder(le)
    ensures x in Ties(s, x, le) <==> x in s
  {
    FilterMember(s, y => le(x, y) && le(y, x), x);
  }

  lemma TieMember<T>(s: seq<T>, x: T, le: (T, T) -> bool, y: T)
    ensures y in Ties(s, x, le) <==> y in s && le(x, y) && le(y, x)
  {
    FilterMember(s, z => le(x, z) && le(z, x), y);
  }

  /** The last of `a` is not greater than the last of `b`. */
  lemma LastTies<T(!new)>(a: seq<T>, b: seq<T>, le: (T, T) -> bool)
    requires TotalPreorder(le) && a != [] && b != [] && SortedBy(b, le)
    requires forall x :: Ties(a, x, le) == Ties(b, x, le)
    ensures le(a[|a| - 1], b[|b| - 1])
  {
    var last := a[|a| - 1];
    TiesMember(a, last, le);
    TiesMember(b, last, le);
  }

  lemma LastOfTies<T(!new)>(a: seq<T>, le: (T, T) -> bool)
    requires TotalPreorder(le) && a != []
    ensures var t := Ties(a, a[|a| - 1], le); t != [] && t[|t| - 1] == a[|a| - 1]
  {
    var n := |a| - 1;
    assert a == a[..n] + [a[n]];
    TiesAppend(a[..n], a[n], a[n], le);
  }

  lemma SameTies<T(!new)>(a: seq<T>, b: seq<T>, le: (T, T) -> bool)
    requires TotalPreorder(le) && a != [] && b != []
    requires le(a[|a| - 1], b[|b| - 1]) && le(b[|b| - 1], a[|a| - 1])
    requires forall x :: Ties(a, x, le) == Ties(b, x, le)
    ensures Ties(a, a[|a| - 1], le) == Ties(b, b[|b| - 1], le)
  {
    var x, y := a[|a| - 1], b[|b| - 1];
    TiesOfEqual(b, x, y, le);
  }

  lemma {:induction false} TiesOfEqual<T(!new)>(s: seq<T>, x: T, y: T, le: (T, T) -> bool)
    requires TotalPreorder(le) && le(x, y) && le(y, x)
    ensures Ties(s, x, le) == Ties(s, y, le)
  {
    if s == [] {
    } else {
      TiesOfEqual(s[..|s| - 1], x, y, le);
    }
  }

  // ----- strictly ascending keys

  predicate Ascending<T>(s: seq<T>, key: T -> int) {
    forall i, j :: 0 <= i < j < |s| ==> key(s[i]) < key(s[j])
  }

  /** A strictly ascending sequence is fixed by its elements. */
  lemma {:induction false} AscendingIsUnique<T>(a: seq<T>, b: seq<T>, key: T -> int)
    requires Ascending(a, key) && Ascending(b, key)
    requires forall x :: x in a ==> x in b
    requires forall x :: x in b ==> x in a
    ensures a == b
    decreases |a|
  {
    assert b != [] ==> b[0] in a;
    if a == [] {
    } else {
      assert a[0] in b;
      var m, n := |a| - 1, |b| - 1;
      assert a[m] in b && b[n] in a;
      assert a[m] == b[n];
      forall x | x in a[..m] ensures x in b[..n] {
        assert x in b && x != b[n];
      }
      forall x | x in b[..n] ensures x in a[..m] {
        assert x in a && x != a[m];
      }
      AscendingIsUnique(a[..m], b[..n], key);
      assert a == a[..m] + [a[m]] && b == b[..n] + [b[n]];
    }
  }

  /** Comparing by an integer key. */
  function KeyLe<T>(key: T -> int): (T, T) -> bool {
    (x, y) => key(x) <= key(y)
  }

  lemma KeyLeMeans<T(!new)>(key: T -> int)
    ensures forall x, y :: KeyLe(key)(x, y) <==> key(x) <= key(y)
  {}

  lemma KeyLeIsTotal<T(!new)>(key: T -> int)
    ensures TotalPreorder(KeyLe(key))
  {}

  lemma AscendingAppend<T>(s: seq<T>, x: T, key: T -> int)
    requires Ascending(s, key) && forall i :: 0 <= i < |s| ==> key(s[i]) < key(x)
    ensures Ascending(s + [x], key)
  {}

  lemma {:induction false} InsertAscends<T(!new)>(s: seq<T>, x: T, key: T -> int)
    requires Ascending(s, key) && forall i :: 0 <= i < |s| ==> key(s[i]) != key(x)
    ensures Ascending(Insert(s, x, KeyLe(key)), key)
  {
    if s == [] {
    } else {
      hide Insert;
      var n := |s| - 1;
      var r := Insert(s[..n], x, KeyLe(key));
      InsertStep(s, x, KeyLe(key));
      if key(s[n]) <= key(x) {
        AscendingAppend(s, x, key);
      } else {
        InsertAscends(s[..n], x, key);
        forall i | 0 <= i < |r| ensures key(r[i]) < key(s[n]) {
          InsertMember(s[..n], x, KeyLe(key), r[i]);
        }
        AscendingAppend(r, s[n], key);
      }
    }
  }

  /** Sorting by a key without ties makes it strictly ascending. */
  lemma {:induction false} SortAscends<T(!new)>(s: seq<T>, key: T -> int)
    requires forall i, j :: 0 <= i < j < |s| ==> key(s[i]) != key(s[j])
    ensures Ascending(Sort(s, KeyLe(key)), key)
  {
    if s == [] {
    } else {
      var n := |s| - 1;
      SortAscends(s[..n], key);
      var r := Sort(s[..n], KeyLe(key));
      assert Sort(s, KeyLe(key)) == Insert(r, s[n], KeyLe(key));
      hide Insert, Sort, Ascending;
      forall i | 0 <= i < |r| ensures key(r[i]) != key(s[n]) {
        SortKeepsMembers(s[..n], KeyLe(key), r[i]);
      }
      InsertAscends(r, s[n], key);
    }
  }

  /** A part of a sorted sequence is sorted. */
  lemma {:induction false} FilterKeepsSorted<T(!new)>(s: seq<T>, keep: T -> bool, le: (T, T) -> bool)
    requires SortedBy(s, le)
    ensures SortedBy(Filter(s, keep), le)
  {
    if s == [] {
    } else {
      var n := |s| - 1;
      FilterKeepsSorted(s[..n], keep, le);
      forall i | 0 <= i < |Filter(s[..n], keep)| ensures le(Filter(s[..n], keep)[i], s[n]) {
        FilterMember(s[..n], keep, Filter(s[..n], keep)[i]);
      }
    }
  }

  /** The elements with a flag, or the ones without. */
  function FlagIs<T>(flag: T -> bool, value: bool): T -> bool {
    x => flag(x) == value
  }

  function FlagKey<T>(flag: T -> bool): T -> int {
    x => if flag(x) then 1 else 0
  }

  lemma FlagTies<T(!new)>(s: seq<T>, flag: T -> bool, value: bool, x: T)
    ensures Ties(Filter(s, FlagIs(flag, value)), x, KeyLe(FlagKey(flag)))
            == if flag(x) == value then Filter(s, FlagIs(flag, value)) else []
  {
    var part := Filter(s, FlagIs(flag, value));
    forall i | 0 <= i < |part| ensures flag(part[i]) == value {
      FilterMember(s, FlagIs(flag, value), part[i]);
    }
    TiesAllOrNone(part, x, KeyLe(FlagKey(flag)), flag(x) == value);
  }

  lemma TiesOfFlag<T(!new)>(s: seq<T>, flag: T -> bool, x: T)
    ensures Ties(s, x, KeyLe(FlagKey(flag))) == Filter(s, FlagIs(flag, flag(x)))
  {
    var le := KeyLe(FlagKey(flag));
    FilterSame(s, y => le(x, y) && le(y, x), FlagIs(flag, flag(x)));
  }

  /** Sorting by a flag moves the flagged elements behind the others. */
  lemma SortByFlag<T(!new)>(s: seq<T>, flag: T -> bool)
    ensures Sort(s, KeyLe(FlagKey(flag))) == Filter(s, FlagIs(flag, false)) + Filter(s, FlagIs(flag, true))
  {
    var le := KeyLe(FlagKey(flag));
    var front, back := Filter(s, FlagIs(flag, false)), Filter(s, FlagIs(flag, true));
    KeyLeIsTotal(FlagKey(flag));
    SortSorts(s, le);
    forall i | 0 <= i < |front| ensures !flag(front[i]) {
      FilterMember(s, FlagIs(flag, false), front[i]);
    }
    forall i | 0 <= i < |back| ensures flag(back[i]) {
      FilterMember(s, FlagIs(flag, true), back[i]);
    }
    forall x ensures Ties(Sort(s, le), x, le) == Ties(front + back, x, le) {
      SortIsStable(s, x, le);
      TiesOfFlag(s, flag, x);
      TiesConcat(front, back, x, le);
      FlagTies(s, flag, false, x);
      FlagTies(s, flag, true, x);
    }
    SortedWithTiesIsUnique(Sort(s, le), front + back, le);
  }
}
