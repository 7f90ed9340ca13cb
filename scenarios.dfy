/** Concrete runs of the pipeline on small inputs. */
module Scenarios {
  import opened Wrappers
  import opened Seqs
  import opened Calendar
  import opened Words
  import opened Loader
  import opened RangeFilter
  import opened Aggregates

  function Paper(title: string, journal: string, year: int): CleanRecord {
    CleanRecord(title, "a b", Date(year, 1, 1), journal, year, 2)
  }

  lemma Year2019() ensures Digits(2019, 4) == "2019" {
    assert Digits(2, 1) == "2" && Digits(20, 2) == "20" && Digits(201, 3) == "201";
  }

  lemma Year2020() ensures Digits(2020, 4) == "2020" {
    assert Digits(2, 1) == "2" && Digits(20, 2) == "20" && Digits(202, 3) == "202";
  }

  lemma Year2021() ensures Digits(2021, 4) == "2021" {
    assert Digits(2, 1) == "2" && Digits(20, 2) == "20" && Digits(202, 3) == "202";
  }

  lemma Year2025() ensures Digits(2025, 4) == "2025" {
    assert Digits(2, 1) == "2" && Digits(20, 2) == "20" && Digits(202, 3) == "202";
  }

  lemma Pair(v: nat, c: char)
    requires v < 10 && c == DigitChar(v)
    ensures Digits(v, 2) == ['0', c]
  {
    assert Digits(0, 1) == ['0'];
  }

  lemma Format20200229() ensures FormatDate(Date(2020, 2, 29)) == "2020-02-29" {
    Year2020();
    Pair(2, '2');
    assert Digits(29, 2) == "29" by { assert Digits(2, 1) == "2"; }
  }

  lemma Format20210229() ensures FormatDate(Date(2021, 2, 29)) == "2021-02-29" {
    Year2021();
    Pair(2, '2');
    assert Digits(29, 2) == "29" by { assert Digits(2, 1) == "2"; }
  }

  lemma Format20200301() ensures FormatDate(Date(2020, 3, 1)) == "2020-03-01" {
    Year2020();
    Pair(3, '3');
    Pair(1, '1');
  }

  lemma Format20250101() ensures FormatDate(Date(2025, 1, 1)) == "2025-01-01" {
    Year2025();
    Pair(1, '1');
  }

  lemma Format20191231() ensures FormatDate(Date(2019, 12, 31)) == "2019-12-31" {
    Year2019();
    assert Digits(12, 2) == "12" by { assert Digits(1, 1) == "1"; }
    assert Digits(31, 2) == "31" by { assert Digits(3, 1) == "3"; }
  }

  /** A leap day exists in 2020. */
  lemma LeapDayParses()
    ensures ParseDate("2020-02-29") == Some(Date(2020, 2, 29))
  {
    Format20200229();
    ParseFormat(Date(2020, 2, 29));
  }

  /** 2021 is not a leap year, so its 29 February is rejected. */
  lemma NonLeapDayRejected()
    ensures ParseDate("2021-02-29") == None
  {
    Format20210229();
    ParseRejectsInvalid(Date(2021, 2, 29));
  }

  /** Free text does not parse. */
  lemma FreeTextRejected()
    ensures ParseDate("not-a-date") == None
  {
    assert !IsDigit("not-a-date"[0]);
  }

  /** The rows of the loader example, one per case the loader distinguishes. */
  function ExampleRows(): seq<RawRecord> {
    [ RawRecord(Some("T1"), Some("x"), Some("2020-03-01"), Some("J")),
      RawRecord(Some("T2"), Some("x"), Some("not-a-date"), Some("J")),
      RawRecord(Some("T3"), Some("x"), Some("2025-01-01"), Some("J")),
      RawRecord(None, Some("x"), Some("2020-03-01"), Some("J")),
      RawRecord(Some("T5"), Some("  \t "), Some("2019-12-31"), Some("K")) ]
  }

  lemma ExampleRowKept()
    ensures CleanRow(ExampleRows()[0]) == Some(CleanRecord("T1", "x", Date(2020, 3, 1), "J", 2020, 1))
  {
    Format20200301();
    ParseFormat(Date(2020, 3, 1));
    SplitWord("x");
  }

  lemma ExampleRowsDropped()
    ensures CleanRow(ExampleRows()[1]) == None
    ensures CleanRow(ExampleRows()[2]) == None
    ensures CleanRow(ExampleRows()[3]) == None
  {
    Format20250101();
    ParseFormat(Date(2025, 1, 1));
    assert !IsDigit("not-a-date"[0]);
  }

  lemma ExampleBlankAbstractKept()
    ensures CleanRow(ExampleRows()[4]) == Some(CleanRecord("T5", "  \t ", Date(2019, 12, 31), "K", 2019, 0))
  {
    Format20191231();
    ParseFormat(Date(2019, 12, 31));
    WordCountZeroIff("  \t ");
  }

  /**
    Of a valid row, an unparseable time, a 2025 date, a missing title and an
    all-whitespace abstract, the first and the last are kept; the last with
    a word count of zero.
   */
  lemma LoaderExample()
    ensures Clean(ExampleRows())
            == [CleanRecord("T1", "x", Date(2020, 3, 1), "J", 2020, 1),
                CleanRecord("T5", "  \t ", Date(2019, 12, 31), "K", 2019, 0)]
  {
    ExampleRowKept();
    ExampleRowsDropped();
    ExampleBlankAbstractKept();
    var rows := ExampleRows();
    assert rows == [rows[0]] + ([rows[1]] + ([rows[2]] + ([rows[3]] + [rows[4]])));
    FlatMapCons(Kept, rows[0], [rows[1]] + ([rows[2]] + ([rows[3]] + [rows[4]])));
    FlatMapCons(Kept, rows[1], [rows[2]] + ([rows[3]] + [rows[4]]));
    FlatMapCons(Kept, rows[2], [rows[3]] + [rows[4]]);
    FlatMapCons(Kept, rows[3], [rows[4]]);
    FlatMapSingle(Kept, rows[4]);
  }

  function ExamplePapers(): seq<CleanRecord> {
    [Paper("A", "J1", 2019), Paper("B", "J1", 2020), Paper("C", "J2", 2020),
     Paper("D", "j2", 2020), Paper("E", "J1", 2021), Paper("F", "J3", 2021)]
  }

  /** One paper from 2019, three from 2020 and two from 2021: the range 2020..2021 keeps five. */
  lemma RangeExample()
    ensures FilterYears(ExamplePapers(), 2020, 2021) == ExamplePapers()[1..]
  {
    var ds := ExamplePapers();
    assert ds[1..][1..] == ds[2..] && ds[2..][1..] == ds[3..] && ds[3..][1..] == ds[4..];
    assert ds[4..][1..] == ds[5..] && ds[5..][1..] == [];
  }

  /** The per-year series of those five papers. */
  lemma HistogramExample()
    ensures YearHistogram(ExamplePapers()[1..]) == [Bin(2020, 3), Bin(2021, 2)]
  {
    var ds := ExamplePapers();
    var v := ds[1..];
    assert v[1..] == ds[2..] && ds[2..][1..] == ds[3..] && ds[3..][1..] == ds[4..];
    assert ds[4..][1..] == ds[5..] && ds[5..][1..] == [];
    assert YearHistogram(ds[5..]) == [Bin(2021, 1)];
    assert YearHistogram(ds[4..]) == [Bin(2021, 2)];
    assert YearHistogram(ds[3..]) == [Bin(2020, 1), Bin(2021, 2)];
    assert YearHistogram(ds[2..]) == [Bin(2020, 2), Bin(2021, 2)];
  }

  /** Journal names that differ only in letter case are different journals. */
  lemma JournalsExample()
    ensures Journals(ExamplePapers()[1..]) == {"J1", "J2", "j2", "J3"}
  {
    var v := ExamplePapers()[1..];
    assert forall r :: r in v <==> r == v[0] || r == v[1] || r == v[2] || r == v[3] || r == v[4];
  }

  /** Five abstracts of two words each have a mean of two words. */
  lemma MeanExample()
    ensures MeanWordCount(ExamplePapers()[1..]) == Success(2)
  {
    var ds := ExamplePapers();
    var v := ds[1..];
    assert v[1..] == ds[2..] && ds[2..][1..] == ds[3..] && ds[3..][1..] == ds[4..];
    assert ds[4..][1..] == ds[5..] && ds[5..][1..] == [];
    assert SumWordCounts(ds[5..]) == 2;
    assert SumWordCounts(ds[4..]) == 4;
    assert SumWordCounts(ds[3..]) == 6;
    assert SumWordCounts(ds[2..]) == 8;
    assert SumWordCounts(v) == 10;
  }

  /** On an empty view the mean is reported as an error, not as zero. */
  lemma EmptyViewExample()
    ensures var s := Dashboard([Paper("A", "J1", 2019)], 2020, 2021);
            s.totalCount == 0 && s.meanAbstractWords == Failure(EmptyView)
  {
  }
}
