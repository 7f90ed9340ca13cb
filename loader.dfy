/**
  Loading and cleaning the bibliographic records (the dashboard's `load_data`).

  A raw row carries four optional text cells.  A row is kept exactly when
  all four are present, its publication time parses as a calendar date and
  that date's year is at most 2024; a kept row gains the derived `year` and
  `abstractWordCount` fields.  Rows are classified one at a time, and the
  kept rows stay in their original order.
 */
module Loader {
  import opened Wrappers
  import opened Calendar
  import opened Words
  import opened Seqs

  /** The latest publication year the dataset admits. */
  const MAX_YEAR := 2024

  /** One row of the metadata table, restricted to the four columns read. */
  datatype RawRecord = RawRecord(
    title: Option<string>,
    abstractText: Option<string>,
    publishTime: Option<string>,
    journal: Option<string>)

  /** A row of the cleaned dataset. */
  datatype CleanRecord = CleanRecord(
    title: string,
    abstractText: string,
    publishTime: Date,
    journal: string,
    year: int,
    abstractWordCount: nat)

  /** The invariant every record of the cleaned dataset carries. */
  predicate WellFormed(c: CleanRecord) {
    && IsValidDate(c.publishTime)
    && c.year == c.publishTime.year
    && c.year <= MAX_YEAR
    && c.abstractWordCount == WordCount(c.abstractText)
  }

  predicate AllPresent(r: RawRecord) {
    r.title.Some? && r.abstractText.Some? && r.publishTime.Some? && r.journal.Some?
  }

  /** The row passes every check of the loader. */
  predicate Admissible(r: RawRecord) {
    && AllPresent(r)
    && ParseDate(r.publishTime.value).Some?
    && ParseDate(r.publishTime.value).value.year <= MAX_YEAR
  }

  /** The record a row becomes, and whether it is kept at all. */
  function CleanRow(r: RawRecord): (c: Option<CleanRecord>)
    ensures c.Some? <==> Admissible(r)
    ensures c.Some? ==> WellFormed(c.value)
    ensures c.Some? ==> && c.value.title == r.title.value
                        && c.value.abstractText == r.abstractText.value
                        && c.value.journal == r.journal.value
                        && Some(c.value.publishTime) == ParseDate(r.publishTime.value)
  {
    if !AllPresent(r) then None
    else match ParseDate(r.publishTime.value)
      case None => None
      case Some(d) =>
        if d.year <= MAX_YEAR then
          Some(CleanRecord(r.title.value, r.abstractText.value, d, r.journal.value, d.year, WordCount(r.abstractText.value)))
        else None
  }

  /** The records one row contributes: its clean record, or none. */
  function Kept(r: RawRecord): seq<CleanRecord> {
    match CleanRow(r)
    case None => []
    case Some(c) => [c]
  }

  /** The cleaned dataset: each row classified on its own, kept rows in input order. */
  function Clean(rows: seq<RawRecord>): (ds: seq<CleanRecord>)
    ensures |ds| <= |rows|
  {
    FlatMapShrinks(Kept, rows);
    FlatMap(Kept, rows)
  }

  /** Cleaning the rows in two parts gives the two cleaned parts, in order. */
  lemma CleanAppend(a: seq<RawRecord>, b: seq<RawRecord>)
    ensures Clean(a + b) == Clean(a) + Clean(b)
  {
    FlatMapAppend(Kept, a, b);
  }

  /**
    The loader.  It builds the kept records in one pass over the rows; a
    row that cannot be used is skipped and never reported.
   */
  method LoadData(rows: seq<RawRecord>) returns (ds: seq<CleanRecord>)
    ensures ds == Clean(rows)
  {
    ds := [];
    var i := 0;
    while i < |rows|
      invariant 0 <= i <= |rows|
      invariant ds == Clean(rows[..i])
    {
      assert rows[..i + 1] == rows[..i] + [rows[i]];
      CleanAppend(rows[..i], [rows[i]]);
      FlatMapSingle(Kept, rows[i]);
      match CleanRow(rows[i]) {
        case Some(c) => ds := ds + [c];
        case None =>
      }
      i := i + 1;
    }
    assert rows[..i] == rows;
  }

  /** Every record of the dataset is well formed and comes from some admissible row. */
  lemma CleanSound(rows: seq<RawRecord>, c: CleanRecord)
    requires c in Clean(rows)
    ensures WellFormed(c)
    ensures exists i :: 0 <= i < |rows| && Admissible(rows[i]) && CleanRow(rows[i]) == Some(c)
  {
    FlatMapMember(Kept, rows, c);
    var i :| 0 <= i < |rows| && c in Kept(rows[i]);
    assert CleanRow(rows[i]) == Some(c);
  }

  /** Every admissible row contributes its record. */
  lemma CleanComplete(rows: seq<RawRecord>, i: nat)
    requires i < |rows| && Admissible(rows[i])
    ensures CleanRow(rows[i]).value in Clean(rows)
  {
    FlatMapMember(Kept, rows, CleanRow(rows[i]).value);
    assert CleanRow(rows[i]).value in Kept(rows[i]);
  }

  /**
    Whatever is kept from a prefix of the rows forms a prefix of the
    dataset: the record from an earlier row never follows the record from
    a later one.
   */
  lemma CleanPreservesOrder(rows: seq<RawRecord>, k: nat)
    requires k <= |rows|
    ensures Clean(rows) == Clean(rows[..k]) + Clean(rows[k..])
  {
    CleanAppend(rows[..k], rows[k..]);
    assert rows[..k] + rows[k..] == rows;
  }

  /** A row that fails any check can be deleted from the input without changing the dataset. */
  lemma InadmissibleRowIgnored(rows: seq<RawRecord>, i: nat)
    requires i < |rows| && !Admissible(rows[i])
    ensures Clean(rows) == Clean(rows[..i]) + Clean(rows[i + 1..])
  {
    var tail := [rows[i]] + rows[i + 1..];
    assert rows == rows[..i] + tail by {
      assert rows == rows[..i] + rows[i..];
      assert rows[i..] == tail;
    }
    CleanAppend(rows[..i], tail);
    FlatMapCons(Kept, rows[i], rows[i + 1..]);
    assert Kept(rows[i]) == [];
  }

  /** A row with any missing cell yields no record. */
  lemma MissingFieldDropped(r: RawRecord)
    requires r.title.None? || r.abstractText.None? || r.publishTime.None? || r.journal.None?
    ensures Clean([r]) == []
  {
    FlatMapSingle(Kept, r);
  }

  /** A row whose publication time does not parse is dropped, silently. */
  lemma UnparseableDateDropped(r: RawRecord)
    requires r.publishTime.Some? && ParseDate(r.publishTime.value).None?
    ensures Clean([r]) == []
  {
    FlatMapSingle(Kept, r);
  }

  /** A row dated after 2024 is dropped, not clamped. */
  lemma FutureYearDropped(r: RawRecord)
    requires r.publishTime.Some? && ParseDate(r.publishTime.value).Some?
    requires ParseDate(r.publishTime.value).value.year > MAX_YEAR
    ensures Clean([r]) == []
  {
    FlatMapSingle(Kept, r);
  }

  /*
    The same cleaning as the source writes it: four whole-table passes, each
    keeping or rewriting rows, applied one after the other.
   */

  /** A row after the null check on the four columns. */
  datatype PresentRow = PresentRow(title: string, abstractText: string, publishTime: string, journal: string)

  /** A row after its publication time has been converted to a date. */
  datatype DatedRow = DatedRow(title: string, abstractText: string, publishTime: Date, journal: string)

  /** The null check on one row. */
  function PresentPart(r: RawRecord): seq<PresentRow> {
    if AllPresent(r) then [PresentRow(r.title.value, r.abstractText.value, r.publishTime.value, r.journal.value)] else []
  }

  /** The date conversion of one row; a time that does not convert drops the row. */
  function ParsedPart(r: PresentRow): seq<DatedRow> {
    match ParseDate(r.publishTime)
    case None => []
    case Some(d) => [DatedRow(r.title, r.abstractText, d, r.journal)]
  }

  /** The derived fields of one row. */
  function DerivedPart(r: DatedRow): seq<CleanRecord> {
    [CleanRecord(r.title, r.abstractText, r.publishTime, r.journal, r.publishTime.year, WordCount(r.abstractText))]
  }

  /** The year bound on one row. */
  function BoundedPart(r: CleanRecord): seq<CleanRecord> {
    if r.year <= MAX_YEAR then [r] else []
  }

  /** The four passes in the source's order. */
  function StagedClean(rows: seq<RawRecord>): seq<CleanRecord> {
    FlatMap(BoundedPart, FlatMap(DerivedPart, FlatMap(ParsedPart, FlatMap(PresentPart, rows))))
  }

  /** The null check followed by the date conversion, on one row. */
  function PresentParsed(r: RawRecord): seq<DatedRow> {
    FlatMap(ParsedPart, PresentPart(r))
  }

  /** The first three passes on one row. */
  function PresentParsedDerived(r: RawRecord): seq<CleanRecord> {
    FlatMap(DerivedPart, PresentParsed(r))
  }

  /** On one row the four passes and the single classification agree. */
  lemma StagedRow(r: RawRecord)
    ensures FlatMap(BoundedPart, PresentParsedDerived(r)) == Kept(r)
  {
    if AllPresent(r) {
      var p := PresentPart(r)[0];
      FlatMapSingle(ParsedPart, p);
      match ParseDate(r.publishTime.value)
      case None =>
      case Some(d) =>
        var q := ParsedPart(p)[0];
        FlatMapSingle(DerivedPart, q);
        FlatMapSingle(BoundedPart, DerivedPart(q)[0]);
    }
  }

  /** Classifying each row once gives the same dataset as the four passes. */
  lemma StagedCleaning(rows: seq<RawRecord>)
    ensures StagedClean(rows) == Clean(rows)
  {
    FlatMapCompose(PresentPart, ParsedPart, PresentParsed, rows);
    FlatMapCompose(PresentParsed, DerivedPart, PresentParsedDerived, rows);
    forall r ensures Kept(r) == FlatMap(BoundedPart, PresentParsedDerived(r)) {
      StagedRow(r);
    }
    FlatMapCompose(PresentParsedDerived, BoundedPart, Kept, rows);
  }
}
