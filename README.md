# CORD-19 research dashboard: data pipeline model

This project models the data pipeline of a one-page dashboard over the
CORD-19 paper metadata (title, abstract, publication time, journal).

The pipeline has four parts:

- **Loading and cleaning.** `load_data` runs once and produces the dataset.
  It keeps a row only when all four cells are present and the publication
  time parses as a date. It then derives the publication year and the
  abstract word count, and drops rows dated after 2024.
- **Range filter.** On every slider change the dataset is narrowed to a
  closed year range.
- **Figures.** The view feeds:
  - the publication count;
  - the number of distinct journals;
  - the truncated mean abstract length;
  - the publications-per-year series;
  - the title text given to the word cloud.
- **Slider options.** The slider offers the dataset's distinct years, sorted.

Modules, one per file:

- `Wrappers` (`wrappers.dfy`): `Option` for a missing cell and `Result` for
  an error that must be reported.
- `Seqs` (`seqs.dfy`): the row-by-row table transformation `FlatMap`. Each
  row becomes zero or more output rows, and the outputs stay in row order.
  Every pass of the loader has this shape.
- `Calendar` (`calendar.dfy`): calendar dates, the Gregorian leap-year rule,
  and the date parser. The parser reads the calendar-date form `YYYY-MM-DD`
  of ISO 8601 (section 5.2.1.1). Any other text, and any day that does not
  exist, is treated as missing.
- `Words` (`words.dfy`): Python's argument-less `str.split()`. It splits on
  the characters for which `str.isspace()` holds. The module also holds the
  `" ".join` used for the title corpus.
- `Loader` (`loader.dfy`): raw and clean records and the per-row
  classification `CleanRow`. `Clean`, the per-row classification mapped
  over the table, is the specification of the dataset,
  and `LoadData` is the one-pass loop that builds it. The module also
  writes out the source's four whole-table steps (null check, date
  conversion, derivation, year bound) and proves that they give the same
  dataset.
- `RangeFilter` (`range_filter.dfy`): the inclusive year filter and what it
  keeps.
- `Aggregates` (`aggregates.dfy`): distinct journals, the mean with its
  empty-view error, the per-year series, the slider's options, the title
  corpus, and the bundle of figures computed for one view.
- `Scenarios` (`scenarios.dfy`): small concrete inputs worked through the
  pipeline.

Design choices:

- **Missing cells.** A cell is missing exactly when it is `None`, because
  the source's null check is the only test it applies. A stricter policy
  would also reject an empty title, abstract or journal. The code never
  checks that, and its CSV reader already turns empty cells into missing
  values, so the model keeps `Some("")`.
- **Blank abstracts.** An abstract made only of whitespace is kept, with a
  word count of 0 (`Words.WordCountZeroIff`, `Scenarios.LoaderExample`).
- **Unchecked range.** The range filter does not check its bounds. A
  reversed or empty range yields an empty view (`RangeFilter.ReversedRangeEmpty`).
- **Empty view.** On an empty view the source's mean is `int(NaN)`, which
  raises. The model returns `Failure(EmptyView)` instead (`Aggregates.MeanWordCount`).
- **Purity.** Filtering and aggregation are Dafny functions. Identical
  inputs therefore give identical results, including the key order of the
  per-year series.

## Model

| member | source | states |
|---|---|---|
| Calendar.DaysInMonth | app.py:16 | every month has 28 to 31 days, and February has 29 exactly in Gregorian leap years |
| Calendar.ParseDate | app.py:16-17 | every parsed value is a real calendar date with a four-digit year; text that is not of the form YYYY-MM-DD, or names a day that does not exist, yields None rather than an error |
| Calendar.ParseFormat | app.py:16 | every valid date with a four-digit year, written as YYYY-MM-DD, parses back to itself |
| Calendar.ParseRejectsInvalid | app.py:16-17 | a day that does not exist, written as YYYY-MM-DD (month 13, 29 February of a common year), yields None |
| Calendar.FormatParse | app.py:16 | every accepted text is the canonical YYYY-MM-DD spelling of the date it yields, so distinct texts never parse to the same date |
| Words.Split | app.py:20 | every token of the split is non-empty and contains no whitespace, and there are never more tokens than characters |
| Words.WordCount | app.py:20 | never more words than characters, and at least one when the text starts with a non-whitespace character; its exact value is given by WordCountIsRunCount and WordCountZeroIff |
| Words.WordCountIsRunCount | app.py:20 | the abstract word count equals the number of maximal runs of non-whitespace characters, counted independently of the splitter |
| Words.WordCountZeroIff | app.py:20 | the word count is zero exactly when the text is all whitespace (or empty) |
| Words.SplitKeepsCharacters | app.py:20 | the tokens, put back together, are exactly the non-whitespace characters of the text, in order |
| Words.SplitIdempotent | app.py:20 | re-tokenising the single-spaced rendering of a text's tokens gives the same tokens |
| Words.JoinWithSpaces | app.py:36 | the joined text is one character longer per piece after the first than the pieces put together, and empty for no pieces |
| Words.JoinWithSpacesAppend | app.py:36 | joining two non-empty lists of pieces gives the two joins with exactly one space character between them; with the one-piece case this fixes the joined text exactly |
| Words.SplitJoin | app.py:36 | the words of a space-joined text are the words of its pieces, piece after piece |
| Words.SplitJoinWords | app.py:36 | joining whitespace-free non-empty words with single spaces and splitting again gives back the same words |
| Seqs.FlatMapAppend | app.py:15-21 | a row-by-row pass over two blocks of rows gives the two transformed blocks, in order |
| Seqs.FlatMapMember | app.py:15-21 | an output row is produced exactly when some input row produces it |
| Seqs.FlatMapShrinks | app.py:15-21 | a pass that never expands a row never lengthens the table |
| Seqs.FlatMapCompose | app.py:15-21 | two successive passes equal one pass with the composed per-row step |
| Loader.CleanRow | app.py:15-21 | a row yields a record exactly when all four cells are present, the time parses and its year is at most 2024; the record copies the cells, and its year and word count are those of the parsed date and of the abstract |
| Loader.Clean | app.py:13-22 | the dataset never has more records than the input has rows |
| Loader.LoadData | app.py:13-22 | the one-pass loader returns exactly the specified dataset `Clean(rows)` |
| Loader.CleanAppend | app.py:15-21 | rows are classified independently: cleaning two blocks of rows gives the two cleaned blocks, concatenated in order |
| Loader.CleanSound | app.py:15-21 | every record of the dataset is well formed (valid date, year equal to the date's year and at most 2024, word count of its abstract) and comes from an admissible row |
| Loader.CleanComplete | app.py:15-21 | every admissible row contributes its record to the dataset |
| Loader.CleanPreservesOrder | app.py:13-22 | at any cut of the input, the records from the rows before the cut come first in the dataset |
| Loader.InadmissibleRowIgnored | app.py:15-21 | a row that fails any check can be deleted from the input without changing the dataset, so no row is ever partly included |
| Loader.MissingFieldDropped | app.py:15 | a row with any of the four cells missing yields no record |
| Loader.UnparseableDateDropped | app.py:16-17 | a row whose time does not parse yields no record, and loading still succeeds |
| Loader.FutureYearDropped | app.py:21 | a row dated after 2024 yields no record; it is not clamped |
| Loader.StagedCleaning | app.py:15-21 | the source's four successive whole-table steps give the same dataset as classifying each row once |
| RangeFilter.FilterYears | app.py:66 | the view is never larger than the dataset |
| RangeFilter.FilterMembership | app.py:66 | a record is in the view exactly when it is in the dataset and its year lies in the closed range |
| RangeFilter.FilterMultiplicity | app.py:66 | every record in range occurs in the view as often as in the dataset; any other record does not occur |
| RangeFilter.FilterIsSubsequence | app.py:66 | the view is an order-preserving subsequence of the dataset |
| RangeFilter.FilterEmptyIff | app.py:66 | the view is empty exactly when no record of the dataset has its year in range |
| RangeFilter.ReversedRangeEmpty | app.py:66 | a range whose start is after its end gives an empty view |
| RangeFilter.FilterKeepsWellFormed | app.py:66 | the view of a well-formed dataset is well formed, with every year within the bounds |
| RangeFilter.FilterTwice | app.py:66 | filtering a view again equals filtering once by the intersection of the two ranges |
| Aggregates.DistinctJournals | app.py:72 | the number of distinct journal names (compared exactly) is at most the number of records, and zero exactly for an empty view |
| Aggregates.DistinctJournalsBounds | app.py:71-72 | the set of journal names has at most as many elements as the view has records, and is empty only for an empty view |
| Aggregates.SumWordCounts | app.py:73 | the total word count is zero exactly when every abstract of the view has zero words; SumWordCountsBetween bounds it by the word counts |
| Aggregates.SumWordCountsBetween | app.py:73 | when every word count lies between lo and hi, the total lies between lo·n and hi·n |
| Aggregates.FloorDiv | app.py:73 | the truncation of a non-negative quotient: q·n ≤ s < (q+1)·n |
| Aggregates.MeanWordCount | app.py:73 | on an empty view the mean is an EmptyView error; otherwise it is the truncated quotient m with m·n ≤ sum < (m+1)·n |
| Aggregates.MeanWithinBounds | app.py:73 | the mean lies between any lower and any upper bound of the view's word counts |
| Aggregates.YearHistogram | app.py:27 | the series is strictly ordered by year, every count is positive, and the counts sum to the view size; YearHistogramExact gives each year's count |
| Aggregates.YearHistogramInvariant | app.py:27 | the per-year series is ordered by year, has positive counts, sums to the view size and gives each year its number of records |
| Aggregates.YearHistogramExact | app.py:27 | the series' years are exactly the view's distinct years in strictly ascending order; each count is at least 1 and equals that year's number of records; the counts sum to the view size |
| Aggregates.HistogramYearsAreSortedDistinct | app.py:27 | the years of the series are the sorted distinct years of the view |
| Aggregates.YearOptions | app.py:63 | the options are strictly ascending and contain exactly the years of the dataset's year column |
| Aggregates.YearOptionsSpec | app.py:63 | the slider's options are strictly ascending and are exactly the years that occur in the dataset |
| Aggregates.SliderRangeNonEmpty | app.py:61-66 | any range chosen from the slider's options, start not after end, gives a non-empty view, for which the mean is defined |
| Aggregates.TitleCorpus | app.py:36 | the corpus is empty for an empty view, is the title itself for a one-record view, and is one character longer per title after the first than the titles put together |
| Aggregates.TitleCorpusAppend | app.py:36 | the corpus of two non-empty views put together is the first corpus, one space character, then the second corpus; with TitleCorpus's one-record case this determines the text exactly |
| Aggregates.TitleCorpusWords | app.py:36 | the corpus's words are the words of the view's titles, title after title, duplicates kept, and the corpus is one character longer per title after the first than the titles put together |
| Aggregates.Aggregate | app.py:71-73 | for one view: the count is the view size; there are no more distinct journals than records, and none only for an empty view; the mean fails exactly on an empty view; the series counts sum to the count |
| Aggregates.Dashboard | app.py:66-73 | the figures for a year range show a zero count exactly when no record of the dataset is in range |
| Scenarios.LeapDayParses | app.py:16 | 2020-02-29 parses to that date |
| Scenarios.NonLeapDayRejected | app.py:16-17 | 2021-02-29 does not parse |
| Scenarios.FreeTextRejected | app.py:16-17 | "not-a-date" does not parse |
| Scenarios.LoaderExample | app.py:13-22 | of a valid row, an unparseable time, a 2025 date, a missing title and an all-whitespace abstract, only the first and last are kept, the last with a word count of 0 |
| Scenarios.RangeExample | app.py:66 | one 2019, three 2020 and two 2021 papers: the range 2020 to 2021 keeps the five later ones |
| Scenarios.HistogramExample | app.py:27 | those five give the series 2020: 3, 2021: 2 |
| Scenarios.JournalsExample | app.py:72 | journal names that differ only in letter case are counted as different journals |
| Scenarios.MeanExample | app.py:73 | five two-word abstracts have a mean of two words |
| Scenarios.EmptyViewExample | app.py:73 | on an empty view the mean is reported as an error, not as zero |

## Left out

- Page configuration, titles, the sidebar slider widget, the metric cards
  (thousands separators, the "words" suffix), the expander and the first-ten
  table. These are presentation. The slider's default range (2019, 2021) is
  widget state.
- The three plots are drawn by foreign libraries:
  - the line chart, the histogram of abstract lengths with its 30 bins,
    density curve and 0 to 800 display window;
  - the word cloud, with its stop-word list and its failure on an empty text.
  Only the data they consume is modelled: the per-year series and the title
  corpus. The abstract-length histogram receives the word-count column
  unchanged.
- Reading the CSV file, choosing its four columns, pandas' rules for which
  strings count as missing, and the fatal error when the file cannot be
  opened. File I/O is replaced by a sequence of rows whose cells are `Option`s.
- The memoisation of the loader by the UI framework. The dataset is a value
  built once and passed in.
- Calendar.ParseDate: the pandas date parser accepts many more forms than
  `YYYY-MM-DD`. Examples are a bare year, times of day, time zones and
  month names. It infers one format for the whole column and rejects dates
  outside its timestamp range (about 1677 to 2262). The model parses each
  value independently against `YYYY-MM-DD` only, so rows that pandas would
  keep in another format are dropped here. Conversely, the model keeps
  valid dates in the years 0000 to 1676 (for example `1500-06-01`), which
  pandas coerces to a missing value and drops.
- Aggregates.MeanWordCount: the source computes the mean in floating point
  and truncates it. The model uses exact integer division, so float rounding
  on very large sums is not captured.
