/** Small sequence vocabulary shared by the models. */
module Sequences {

  datatype Option<+T> = None | Some(value: T)

  datatype Result<+T, +E> = Ok(value: T) | Err(error: E)

  function Max(a: int, b: int): int {
    if a >= b then a else b
  }

  lemma HeadAndTail<T>(s: seq<T>)
    requires s != []
    ensures s == [s[0]] + s[1..]
  {}

  lemma FrontAndLast<T>(s: seq<T>)
    requires s != []
    ensures s == s[..|s| - 1] + [s[|s| - 1]]
  {}

  /** The elements satisfying `keep`, in order. */
  function Filter<T>(s: seq<T>, keep: T -> bool): (r: seq<T>)
    ensures |r| <= |s|
  {
    if s == [] then []
    else
      var rest := Filter(s[..|s| - 1], keep);
      if keep(s[|s| - 1]) then rest + [s[|s| - 1]] else rest
  }

  lemma {:induction false} FilterMember<T>(s: seq<T>, keep: T -> bool, x: T)
    ensures x in Filter(s, keep) <==> x in s && keep(x)
  {
    if s == [] {
    } else {
      var n := |s| - 1;
      FilterMember(s[..n], keep, x);
      assert s == s[..n] + [s[n]];
    }
  }

  lemma FilterAppend<T>(s: seq<T>, x: T, keep: T -> bool)
    ensures Filter(s + [x], keep) == if keep(x) then Filter(s, keep) + [x] else Filter(s, keep)
  {
    assert (s + [x])[..|s|] == s;
  }

  lemma {:induction false} FilterConcat<T>(a: seq<T>, b: seq<T>, keep: T -> bool)
    ensures Filter(a + b, keep) == Filter(a, keep) + Filter(b, keep)
  {
    if b == [] {
      assert a + b == a;
    } else {
      var n := |b| - 1;
      FilterConcat(a, b[..n], keep);
      assert (a + b)[..|a + b| - 1] == a + b[..n];
      assert (a + b)[|a + b| - 1] == b[n];
    }
  }

  lemma {:induction false} FilterAllOrNothing<T>(s: seq<T>, keep: T -> bool, all: bool)
    requires forall i :: 0 <= i < |s| ==> (keep(s[i]) <==> all)
    ensures Filter(s, keep) == if all then s else []
  {
    if s == [] {
    } else {
      var n := |s| - 1;
      FilterAllOrNothing(s[..n], keep, all);
      assert s == s[..n] + [s[n]];
    }
  }

  lemma FilterMiddle<T>(a: seq<T>, b: seq<T>, c: seq<T>, keep: T -> bool)
    requires forall i :: 0 <= i < |a| ==> !keep(a[i])
    requires forall i :: 0 <= i < |b| ==> keep(b[i])
    requires forall i :: 0 <= i < |c| ==> !keep(c[i])
    ensures Filter(a + (b + c), keep) == b
  {
    hide Filter;
    FilterConcat(a, b + c, keep);
    FilterConcat(b, c, keep);
    FilterAllOrNothing(a, keep, false);
    FilterAllOrNothing(b, keep, true);
    FilterAllOrNothing(c, keep, false);
  }

  lemma ThreeParts<T>(s: seq<T>, lo: nat, hi: nat)
    requires lo <= hi <= |s|
    ensures s == s[..lo] + (s[lo..hi] + s[hi..])
  {}

  /** A filter that keeps exactly the indices from `lo` to `hi` is that slice. */
  lemma FilterIsSlice<T>(s: seq<T>, keep: T -> bool, lo: nat, hi: nat)
    requires lo <= hi <= |s|
    requires forall i :: 0 <= i < |s| ==> (keep(s[i]) <==> lo <= i < hi)
    ensures Filter(s, keep) == s[lo..hi]
  {
    hide Filter;
    ThreeParts(s, lo, hi);
    FilterMiddle(s[..lo], s[lo..hi], s[hi..], keep);
  }

  /** Filters that agree on the elements give the same result. */
  lemma {:induction false} FilterSame<T>(s: seq<T>, p: T -> bool, q: T -> bool)
    requires forall i :: 0 <= i < |s| ==> (p(s[i]) <==> q(s[i]))
    ensures Filter(s, p) == Filter(s, q)
  {
    if s == [] {
    } else {
      FilterSame(s[..|s| - 1], p, q);
    }
  }

  function Both<T>(p: T -> bool, q: T -> bool): T -> bool {
    x => p(x) && q(x)
  }

  lemma {:induction false} FilterTwice<T>(s: seq<T>, p: T -> bool, q: T -> bool)
    ensures Filter(Filter(s, p), q) == Filter(s, Both(p, q))
  {
    if s == [] {
    } else {
      FilterTwice(s[..|s| - 1], p, q);
    }
  }

  lemma {:induction false} FilterMultiset<T>(s: seq<T>, keep: T -> bool, x: T)
    ensures multiset(Filter(s, keep))[x] == if keep(x) then multiset(s)[x] else 0
  {
    if s == [] {
    } else {
      var n := |s| - 1;
      FilterMultiset(s[..n], keep, x);
      assert s == s[..n] + [s[n]];
    }
  }

  /** The indices of the elements satisfying `keep`. */
  function Indices<T>(s: seq<T>, keep: T -> bool): set<nat> {
    set i | 0 <= i < |s| && keep(s[i])
  }

  lemma IndicesStep<T>(s: seq<T>, keep: T -> bool)
    requires s != []
    ensures var n := |s| - 1;
            && n !in Indices(s[..n], keep)
            && Indices(s, keep) == Indices(s[..n], keep) + if keep(s[n]) then {n} else {}
  {
    var n := |s| - 1;
    assert forall i :: 0 <= i < n ==> s[..n][i] == s[i];
  }

  lemma {:induction false} FilterCount<T>(s: seq<T>, keep: T -> bool)
    ensures |Filter(s, keep)| == |Indices(s, keep)|
  {
    if s == [] {
    } else {
      FilterCount(s[..|s| - 1], keep);
      IndicesStep(s, keep);
    }
  }

  function Either<T>(p: T -> bool, q: T -> bool): T -> bool {
    x => p(x) || q(x)
  }

  /** When nothing of the one kind stands behind the other, a filter for both is
      the one kind and then the other. */
  lemma {:induction false} FilterInTwo<T>(s: seq<T>, p: T -> bool, q: T -> bool)
    requires forall i :: 0 <= i < |s| ==> !(p(s[i]) && q(s[i]))
    requires forall i, j :: 0 <= i < j < |s| && p(s[j]) ==> !q(s[i])
    ensures Filter(s, Either(p, q)) == Filter(s, p) + Filter(s, q)
  {
    if s == [] {
    } else {
      var n := |s| - 1;
      FilterInTwo(s[..n], p, q);
      if p(s[n]) {
        FilterAllOrNothing(s, q, false);
        FilterAllOrNothing(s[..n], q, false);
      }
    }
  }
}
