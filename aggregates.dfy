/**
  The figures recomputed over the filtered view on every interaction: the
  publication count, the number of distinct journals, the truncated mean
  abstract length, the publications-per-year series, the title text fed to
  the word cloud, and the list of years the slider offers.
 */
module Aggregates {
  import opened Wrappers
  import opened Words
  import opened Loader
  import opened RangeFilter

  /* ---------- distinct journals ---------- */

  /** The journal names of the view, compared exactly (case-sensitive). */
  function Journals(view: seq<CleanRecord>): set<string> {
    set r | r in view :: r.journal
  }

  /** The number of distinct journals of the view. */
  function DistinctJournals(view: seq<CleanRecord>): (n: nat)
    ensures n <= |view|
    ensures n == 0 <==> view == []
  {
    DistinctJournalsBounds(view);
    |Journals(view)|
  }

  /** There are never more distinct journals than records, and at least one in a non-empty view. */
  lemma {:induction false} DistinctJournalsBounds(view: seq<CleanRecord>)
    ensures |Journals(view)| <= |view|
    ensures |Journals(view)| == 0 <==> view == []
  {
    if view != [] {
      DistinctJournalsBounds(view[1..]);
      assert Journals(view) == {view[0].journal} + Journals(view[1..]) by {
        assert view == [view[0]] + view[1..];
      }
      assert view[0].journal in Journals(view);
    }
  }

  /* ---------- mean abstract length ---------- */

  /** Requesting a statistic that is undefined on an empty view. */
  datatype StatError = EmptyView

  /** The total abstract word count of the view. */
  function SumWordCounts(view: seq<CleanRecord>): (total: nat)
    ensures total == 0 <==> NoWords(view)
  {
    if view == [] then 0
    else
      var rest := SumWordCounts(view[1..]);
      assert NoWords(view) <==> view[0].abstractWordCount == 0 && NoWords(view[1..]) by {
        assert forall i :: 1 <= i < |view| ==> view[i] == view[1..][i - 1];
      }
      view[0].abstractWordCount + rest
  }

  /** Every abstract of the view is counted as zero words. */
  predicate NoWords(view: seq<CleanRecord>) {
    forall i :: 0 <= i < |view| ==> view[i].abstractWordCount == 0
  }

  /**
    The mean abstract word count, truncated toward zero.  On an empty view
    the mean is undefined and the error is reported instead of a number.
   */
  function MeanWordCount(view: seq<CleanRecord>): (m: Result<nat, StatError>)
    ensures m.Failure? <==> view == []
    ensures m.Success? ==> m.value * |view| <= SumWordCounts(view) < (m.value + 1) * |view|
  {
    if view == [] then Failure(EmptyView)
    else
      Success(FloorDiv(SumWordCounts(view), |view|))
  }

  /** Division truncated toward zero: the number of whole `n`s in `s`. */
  function FloorDiv(s: nat, n: nat): (q: nat)
    requires n > 0
    ensures q * n <= s < (q + 1) * n
  {
    s / n
  }

  lemma {:induction false} SumWordCountsBetween(view: seq<CleanRecord>, lo: nat, hi: nat)
    requires forall r :: r in view ==> lo <= r.abstractWordCount <= hi
    ensures lo * |view| <= SumWordCounts(view) <= hi * |view|
  {
    if view != [] {
      assert view[0] in view;
      forall r | r in view[1..] ensures lo <= r.abstractWordCount <= hi {
        assert r in view;
      }
      SumWordCountsBetween(view[1..], lo, hi);
      BetweenStep(view[0].abstractWordCount, SumWordCounts(view[1..]), |view[1..]|, lo, hi);
    }
  }

  /** Adding one value within the bounds to a total of `n` such values. */
  lemma BetweenStep(a: nat, rest: nat, n: nat, lo: nat, hi: nat)
    requires lo <= a <= hi && lo * n <= rest <= hi * n
    ensures lo * (n + 1) <= a + rest <= hi * (n + 1)
  {
  }

  lemma MulLe(a: nat, b: nat, n: nat)
    requires a <= b
    ensures a * n <= b * n
  {
  }

  /** A truncated quotient lies between any bounds of the averaged values. */
  lemma FloorBetween(m: nat, n: nat, s: nat, lo: nat, hi: nat)
    requires m * n <= s < (m + 1) * n
    requires lo * n <= s <= hi * n
    ensures lo <= m <= hi
  {
    assert m <= hi by {
      if hi < m {
        MulLe(hi + 1, m, n);
      }
    }
    assert lo <= m by {
      if m < lo {
        MulLe(m + 1, lo, n);
      }
    }
  }

  /** The mean lies between the shortest and the longest abstract of the view. */
  lemma MeanWithinBounds(view: seq<CleanRecord>, lo: nat, hi: nat)
    requires view != []
    requires forall r :: r in view ==> lo <= r.abstractWordCount <= hi
    ensures lo <= MeanWordCount(view).value <= hi
  {
    SumWordCountsBetween(view, lo, hi);
    FloorBetween(MeanWordCount(view).value, |view|, SumWordCounts(view), lo, hi);
  }

  /* ---------- publications per year ---------- */

  /** One point of the publications-over-time series. */
  datatype Bin = Bin(year: int, count: nat)

  /** The year column of a view, in view order. */
  function YearsOf(view: seq<CleanRecord>): (ys: seq<int>)
    ensures |ys| == |view|
    ensures forall i :: 0 <= i < |view| ==> ys[i] == view[i].year
  {
    if view == [] then [] else [view[0].year] + YearsOf(view[1..])
  }

  /** The years of a series, in series order. */
  function BinYears(h: seq<Bin>): seq<int> {
    seq(|h|, i requires 0 <= i < |h| => h[i].year)
  }

  predicate StrictlyAscending(xs: seq<int>) {
    forall i, j :: 0 <= i < j < |xs| ==> xs[i] < xs[j]
  }

  /** The bins are ordered by strictly increasing year. */
  predicate Ascending(h: seq<Bin>) {
    forall i, j :: 0 <= i < j < |h| ==> h[i].year < h[j].year
  }

  predicate Positive(h: seq<Bin>) {
    forall i :: 0 <= i < |h| ==> h[i].count >= 1
  }

  function SumCounts(h: seq<Bin>): nat {
    if h == [] then 0 else h[0].count + SumCounts(h[1..])
  }

  /** The total count the series records for year `y`. */
  function CountIn(h: seq<Bin>, y: int): nat {
    if h == [] then 0 else (if h[0].year == y then h[0].count else 0) + CountIn(h[1..], y)
  }

  /** Records one more publication in year `y`, keeping the series ordered by year. */
  function AddYear(h: seq<Bin>, y: int): (r: seq<Bin>)
    ensures r != []
  {
    if h == [] then [Bin(y, 1)]
    else if y == h[0].year then [Bin(y, h[0].count + 1)] + h[1..]
    else if y < h[0].year then [Bin(y, 1)] + h
    else [h[0]] + AddYear(h[1..], y)
  }

  /** The year counts of a view, sorted by year (a value count followed by a sort on the index). */
  function YearHistogram(view: seq<CleanRecord>): (h: seq<Bin>)
    ensures Ascending(h) && Positive(h)
    ensures SumCounts(h) == |view|
  {
    if view == [] then []
    else
      var rest := YearHistogram(view[1..]);
      AddYearAscending(rest, view[0].year);
      AddYearCounts(rest, view[0].year);
      AddYear(rest, view[0].year)
  }

  lemma AscendingCons(b: Bin, t: seq<Bin>)
    requires Ascending(t)
    requires forall k :: 0 <= k < |t| ==> b.year < t[k].year
    ensures Ascending([b] + t)
  {
    var r := [b] + t;
    forall i, j | 0 <= i < j < |r| ensures r[i].year < r[j].year {
      assert r[j] == t[j - 1];
      if i > 0 {
        assert r[i] == t[i - 1];
      }
    }
  }

  /** Adding a year above a bound to a series above that bound stays above it. */
  lemma {:induction false} AddYearAbove(h: seq<Bin>, y: int, bound: int)
    requires forall k :: 0 <= k < |h| ==> bound < h[k].year
    requires bound < y
    ensures forall i :: 0 <= i < |AddYear(h, y)| ==> bound < AddYear(h, y)[i].year
  {
    if h != [] && y > h[0].year {
      AddYearAbove(h[1..], y, bound);
      var t := AddYear(h[1..], y);
      assert AddYear(h, y) == [h[0]] + t;
    }
  }

  lemma {:induction false} AddYearAscending(h: seq<Bin>, y: int)
    requires Ascending(h)
    ensures Ascending(AddYear(h, y))
  {
    if h != [] {
      if y == h[0].year {
        var r := AddYear(h, y);
        assert forall i :: 0 <= i < |r| ==> r[i].year == h[i].year;
      } else if y < h[0].year {
        AscendingCons(Bin(y, 1), h);
      } else {
        AddYearAscending(h[1..], y);
        AddYearAbove(h[1..], y, h[0].year);
        AscendingCons(h[0], AddYear(h[1..], y));
      }
    }
  }

  lemma {:induction false} AddYearCounts(h: seq<Bin>, y: int)
    requires Positive(h)
    ensures Positive(AddYear(h, y))
    ensures SumCounts(AddYear(h, y)) == SumCounts(h) + 1
    ensures forall z :: CountIn(AddYear(h, y), z) == CountIn(h, z) + (if z == y then 1 else 0)
  {
    if h != [] {
      var r := AddYear(h, y);
      if y == h[0].year {
        assert r[1..] == h[1..];
      } else if y < h[0].year {
        assert r[1..] == h;
      } else {
        AddYearCounts(h[1..], y);
        assert r[1..] == AddYear(h[1..], y);
      }
    }
  }

  /** In an ordered series a year has one bin, so its total is that bin's count. */
  lemma {:induction false} CountInAscending(h: seq<Bin>, i: nat)
    requires i < |h| && Ascending(h)
    ensures CountIn(h, h[i].year) == h[i].count
  {
    if i == 0 {
      CountInBelow(h[1..], h[0].year);
    } else {
      CountInAscending(h[1..], i - 1);
    }
  }

  lemma {:induction false} CountInBelow(h: seq<Bin>, y: int)
    requires forall k :: 0 <= k < |h| ==> y < h[k].year
    ensures CountIn(h, y) == 0
  {
    if h != [] {
      CountInBelow(h[1..], y);
    }
  }

  /** A year has a positive total in a series of positive bins exactly when it has a bin. */
  lemma {:induction false} CountInPositive(h: seq<Bin>, y: int)
    requires Positive(h)
    ensures CountIn(h, y) > 0 <==> y in BinYears(h)
  {
    if h != [] {
      CountInPositive(h[1..], y);
      assert BinYears(h) == [h[0].year] + BinYears(h[1..]);
    }
  }

  lemma {:induction false} YearHistogramInvariant(view: seq<CleanRecord>)
    ensures Ascending(YearHistogram(view))
    ensures Positive(YearHistogram(view))
    ensures SumCounts(YearHistogram(view)) == |view|
    ensures forall y :: CountIn(YearHistogram(view), y) == multiset(YearsOf(view))[y]
  {
    if view != [] {
      YearHistogramInvariant(view[1..]);
      AddYearAscending(YearHistogram(view[1..]), view[0].year);
      AddYearCounts(YearHistogram(view[1..]), view[0].year);
      assert YearsOf(view) == [view[0].year] + YearsOf(view[1..]);
    }
  }

  /**
    The series is exact: its years are the distinct years of the view in
    strictly ascending order, each with the number of records carrying it;
    no year has a zero count, and the counts add up to the view size.
   */
  lemma YearHistogramExact(view: seq<CleanRecord>)
    ensures StrictlyAscending(BinYears(YearHistogram(view)))
    ensures forall i :: 0 <= i < |YearHistogram(view)| ==>
              1 <= YearHistogram(view)[i].count == multiset(YearsOf(view))[YearHistogram(view)[i].year]
    ensures forall y :: y in BinYears(YearHistogram(view)) <==> y in YearsOf(view)
    ensures SumCounts(YearHistogram(view)) == |view|
  {
    var h := YearHistogram(view);
    YearHistogramInvariant(view);
    assert forall i :: 0 <= i < |h| ==> BinYears(h)[i] == h[i].year;
    forall i | 0 <= i < |h| ensures h[i].count == multiset(YearsOf(view))[h[i].year] {
      CountInAscending(h, i);
    }
    forall y ensures y in BinYears(h) <==> y in YearsOf(view) {
      CountInPositive(h, y);
    }
  }

  /* ---------- the slider's options ---------- */

  /** Inserts `y` into an ascending list of distinct years unless it is already there. */
  function InsertYear(xs: seq<int>, y: int): (r: seq<int>)
    ensures forall z :: z in r <==> z in xs || z == y
    ensures r != [] && (r[0] == y || (xs != [] && r[0] == xs[0]))
  {
    if xs == [] then [y]
    else if y == xs[0] then xs
    else if y < xs[0] then [y] + xs
    else [xs[0]] + InsertYear(xs[1..], y)
  }

  /** The distinct values of `ys`, sorted ascending. */
  function SortedDistinct(ys: seq<int>): (r: seq<int>)
    ensures forall z :: z in r <==> z in ys
  {
    if ys == [] then [] else InsertYear(SortedDistinct(ys[1..]), ys[0])
  }

  /** The years the range slider offers: the dataset's distinct years, sorted. */
  function YearOptions(ds: seq<CleanRecord>): (opts: seq<int>)
    ensures StrictlyAscending(opts)
    ensures forall y :: y in opts <==> y in YearsOf(ds)
  {
    SortedDistinctAscending(YearsOf(ds));
    SortedDistinct(YearsOf(ds))
  }

  lemma {:induction false} InsertYearAscending(xs: seq<int>, y: int)
    requires StrictlyAscending(xs)
    ensures StrictlyAscending(InsertYear(xs, y))
  {
    if xs != [] && y > xs[0] {
      InsertYearAscending(xs[1..], y);
      var t := InsertYear(xs[1..], y);
      forall k | 0 <= k < |t| ensures xs[0] < t[k] {
        if t[k] != y {
          assert t[k] in t;
          assert t[k] in xs[1..];
          var m :| 0 <= m < |xs[1..]| && xs[1..][m] == t[k];
          assert xs[0] < xs[m + 1];
        }
      }
    }
  }

  lemma {:induction false} SortedDistinctAscending(ys: seq<int>)
    ensures StrictlyAscending(SortedDistinct(ys))
  {
    if ys != [] {
      SortedDistinctAscending(ys[1..]);
      InsertYearAscending(SortedDistinct(ys[1..]), ys[0]);
    }
  }

  /** Two ascending lists with the same members are the same list. */
  lemma {:induction false} AscendingUnique(xs: seq<int>, ys: seq<int>)
    requires StrictlyAscending(xs) && StrictlyAscending(ys)
    requires forall z :: z in xs <==> z in ys
    ensures xs == ys
  {
    assert xs == [] <==> ys == [] by {
      if xs != [] {
        assert xs[0] in xs;
      }
      if ys != [] {
        assert ys[0] in ys;
      }
    }
    if xs != [] {
      assert xs[0] == ys[0] by {
        assert xs[0] in xs && ys[0] in ys;
        var i :| 0 <= i < |ys| && ys[i] == xs[0];
        var j :| 0 <= j < |xs| && xs[j] == ys[0];
        assert ys[0] <= ys[i] && xs[0] <= xs[j];
      }
      forall z ensures z in xs[1..] <==> z in ys[1..] {
        if z in xs[1..] {
          assert z in xs && z != xs[0];
        }
        if z in ys[1..] {
          assert z in ys && z != ys[0];
        }
      }
      AscendingUnique(xs[1..], ys[1..]);
    }
  }

  /** The slider's options are the distinct years of the dataset, strictly ascending. */
  lemma YearOptionsSpec(ds: seq<CleanRecord>)
    ensures StrictlyAscending(YearOptions(ds))
    ensures forall y :: y in YearOptions(ds) <==> exists r :: r in ds && r.year == y
  {
    SortedDistinctAscending(YearsOf(ds));
    forall y ensures y in YearsOf(ds) <==> exists r :: r in ds && r.year == y {
      if y in YearsOf(ds) {
        var i :| 0 <= i < |ds| && YearsOf(ds)[i] == y;
        assert ds[i] in ds;
      }
    }
  }

  /** The years of the per-year series are exactly the slider-style sorted distinct years of the view. */
  lemma HistogramYearsAreSortedDistinct(view: seq<CleanRecord>)
    ensures BinYears(YearHistogram(view)) == YearOptions(view)
  {
    YearHistogramExact(view);
    SortedDistinctAscending(YearsOf(view));
    AscendingUnique(BinYears(YearHistogram(view)), YearOptions(view));
  }

  /**
    Any range picked from the slider's options, start not after end, selects
    at least one record, so the mean is defined for it.
   */
  lemma SliderRangeNonEmpty(ds: seq<CleanRecord>, i: nat, j: nat)
    requires i <= j < |YearOptions(ds)|
    ensures FilterYears(ds, YearOptions(ds)[i], YearOptions(ds)[j]) != []
    ensures MeanWordCount(FilterYears(ds, YearOptions(ds)[i], YearOptions(ds)[j])).Success?
  {
    var opts := YearOptions(ds);
    YearOptionsSpec(ds);
    assert opts[i] in opts;
    var r :| r in ds && r.year == opts[i];
    assert opts[i] <= opts[j];
    FilterMembership(ds, opts[i], opts[j], r);
  }

  /* ---------- the title corpus ---------- */

  function Titles(view: seq<CleanRecord>): (ts: seq<string>)
    ensures |ts| == |view|
    ensures forall i :: 0 <= i < |view| ==> ts[i] == view[i].title
  {
    if view == [] then [] else [view[0].title] + Titles(view[1..])
  }

  /** The text given to the word cloud: every title of the view, in order, one space apart. */
  function TitleCorpus(view: seq<CleanRecord>): (text: string)
    ensures view == [] ==> text == []
    ensures |view| == 1 ==> text == view[0].title
    ensures view != [] ==> |text| == |Concat(Titles(view))| + |view| - 1
  {
    JoinWithSpaces(Titles(view))
  }

  /** The corpus of two non-empty views put together is their two corpora with one space between. */
  lemma TitleCorpusAppend(a: seq<CleanRecord>, b: seq<CleanRecord>)
    requires a != [] && b != []
    ensures TitleCorpus(a + b) == TitleCorpus(a) + " " + TitleCorpus(b)
  {
    assert Titles(a + b) == Titles(a) + Titles(b);
    JoinWithSpacesAppend(Titles(a), Titles(b));
  }

  /**
    The words of the corpus are the words of the titles, title after title,
    duplicates included; and it is exactly one separator longer per title
    after the first.
   */
  lemma TitleCorpusWords(view: seq<CleanRecord>)
    ensures Split(TitleCorpus(view)) == SplitEach(Titles(view))
    ensures view != [] ==> |TitleCorpus(view)| == |Concat(Titles(view))| + |view| - 1
  {
    SplitJoin(Titles(view));
  }

  /* ---------- everything recomputed per interaction ---------- */

  datatype Summary = Summary(
    totalCount: nat,
    distinctJournals: nat,
    meanAbstractWords: Result<nat, StatError>,
    yearHistogram: seq<Bin>,
    titleCorpus: string)

  /** The dashboard's figures for one view. */
  function Aggregate(view: seq<CleanRecord>): (s: Summary)
    ensures s.totalCount == |view|
    ensures s.distinctJournals <= s.totalCount
    ensures s.distinctJournals == 0 <==> s.totalCount == 0
    ensures s.meanAbstractWords.Failure? <==> s.totalCount == 0
    ensures SumCounts(s.yearHistogram) == s.totalCount
  {
    DistinctJournalsBounds(view);
    YearHistogramInvariant(view);
    Summary(|view|, DistinctJournals(view), MeanWordCount(view), YearHistogram(view), TitleCorpus(view))
  }

  /** The figures for the records of the dataset in [startYear, endYear]. */
  function Dashboard(ds: seq<CleanRecord>, startYear: int, endYear: int): (s: Summary)
    ensures s.totalCount == 0 <==> forall r :: r in ds ==> !InRange(r, startYear, endYear)
  {
    FilterEmptyIff(ds, startYear, endYear);
    Aggregate(FilterYears(ds, startYear, endYear))
  }
}
