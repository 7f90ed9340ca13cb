/**
  The year-range filter applied on every change of the slider: the records
  whose year lies in the closed interval [startYear, endYear].  The filter
  checks nothing about the bounds; a range that matches nothing, or whose
  start is after its end, simply yields an empty view.
 */
module RangeFilter {
  import opened Loader

  predicate InRange(r: CleanRecord, startYear: int, endYear: int) {
    startYear <= r.year && r.year <= endYear
  }

  /** The view: the records in range, in dataset order. */
  function FilterYears(ds: seq<CleanRecord>, startYear: int, endYear: int): (view: seq<CleanRecord>)
    ensures |view| <= |ds|
  {
    if ds == [] then []
    else (if InRange(ds[0], startYear, endYear) then [ds[0]] else []) + FilterYears(ds[1..], startYear, endYear)
  }

  /** `xs` is `ys` with some elements left out and the rest in their original order. */
  predicate IsSubsequence<T(==)>(xs: seq<T>, ys: seq<T>)
    decreases |ys|
  {
    if xs == [] then true
    else if ys == [] then false
    else (xs[0] == ys[0] && IsSubsequence(xs[1..], ys[1..])) || IsSubsequence(xs, ys[1..])
  }

  /** Sound and complete: a record is in the view exactly when it is in the dataset and in range. */
  lemma {:induction false} FilterMembership(ds: seq<CleanRecord>, startYear: int, endYear: int, r: CleanRecord)
    ensures r in FilterYears(ds, startYear, endYear) <==> r in ds && InRange(r, startYear, endYear)
  {
    if ds != [] {
      FilterMembership(ds[1..], startYear, endYear, r);
      assert ds == [ds[0]] + ds[1..];
    }
  }

  /** Each record in range keeps its multiplicity; every other record is gone. */
  lemma {:induction false} FilterMultiplicity(ds: seq<CleanRecord>, startYear: int, endYear: int, r: CleanRecord)
    ensures multiset(FilterYears(ds, startYear, endYear))[r]
            == if InRange(r, startYear, endYear) then multiset(ds)[r] else 0
  {
    if ds != [] {
      FilterMultiplicity(ds[1..], startYear, endYear, r);
      assert ds == [ds[0]] + ds[1..];
    }
  }

  /** The view keeps the dataset's relative order. */
  lemma {:induction false} FilterIsSubsequence(ds: seq<CleanRecord>, startYear: int, endYear: int)
    ensures IsSubsequence(FilterYears(ds, startYear, endYear), ds)
  {
    if ds != [] {
      FilterIsSubsequence(ds[1..], startYear, endYear);
      var rest := FilterYears(ds[1..], startYear, endYear);
      if InRange(ds[0], startYear, endYear) {
        assert FilterYears(ds, startYear, endYear) == [ds[0]] + rest;
        assert ([ds[0]] + rest)[1..] == rest;
      } else {
        assert FilterYears(ds, startYear, endYear) == rest;
        SubsequenceOfTail(rest, ds);
      }
    }
  }

  lemma SubsequenceOfTail<T>(xs: seq<T>, ys: seq<T>)
    requires ys != [] && IsSubsequence(xs, ys[1..])
    ensures IsSubsequence(xs, ys)
  {
  }

  /** The view is empty exactly when no record of the dataset is in range. */
  lemma FilterEmptyIff(ds: seq<CleanRecord>, startYear: int, endYear: int)
    ensures FilterYears(ds, startYear, endYear) == []
            <==> forall r :: r in ds ==> !InRange(r, startYear, endYear)
  {
    var view := FilterYears(ds, startYear, endYear);
    if view != [] {
      FilterMembership(ds, startYear, endYear, view[0]);
    }
    forall r | r in ds && InRange(r, startYear, endYear) ensures view != [] {
      FilterMembership(ds, startYear, endYear, r);
    }
  }

  /** A range whose start is after its end selects nothing. */
  lemma {:induction false} ReversedRangeEmpty(ds: seq<CleanRecord>, startYear: int, endYear: int)
    requires startYear > endYear
    ensures FilterYears(ds, startYear, endYear) == []
  {
    if ds != [] {
      ReversedRangeEmpty(ds[1..], startYear, endYear);
    }
  }

  /** The view of a well-formed dataset is well formed. */
  lemma FilterKeepsWellFormed(ds: seq<CleanRecord>, startYear: int, endYear: int)
    requires forall r :: r in ds ==> WellFormed(r)
    ensures forall r :: r in FilterYears(ds, startYear, endYear) ==> WellFormed(r) && startYear <= r.year <= endYear
  {
    forall r | r in FilterYears(ds, startYear, endYear)
      ensures WellFormed(r) && startYear <= r.year <= endYear
    {
      FilterMembership(ds, startYear, endYear, r);
    }
  }

  /** Narrowing a view again is the same as filtering once by the intersection of the ranges. */
  lemma {:induction false} FilterTwice(ds: seq<CleanRecord>, a: int, b: int, c: int, d: int)
    ensures FilterYears(FilterYears(ds, a, b), c, d)
            == FilterYears(ds, if a < c then c else a, if b < d then b else d)
  {
    if ds != [] {
      FilterTwice(ds[1..], a, b, c, d);
      var inner := FilterYears(ds[1..], a, b);
      var lo, hi := if a < c then c else a, if b < d then b else d;
      assert InRange(ds[0], lo, hi) <==> InRange(ds[0], a, b) && InRange(ds[0], c, d);
      if InRange(ds[0], a, b) {
        assert FilterYears(ds, a, b) == [ds[0]] + inner;
        assert ([ds[0]] + inner)[0] == ds[0] && ([ds[0]] + inner)[1..] == inner;
      } else {
        assert FilterYears(ds, a, b) == inner;
      }
    }
  }
}
