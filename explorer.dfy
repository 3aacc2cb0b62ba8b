/** The record pipeline of the CORD-19 explorer page: the metadata rows are cleaned,
    filtered by the selected year range, and the filtered rows feed three views (a
    sample table, publications per year, the top journals). The page re-runs in
    full on every slider change; the model takes the cleaned rows as fixed, which
    holds while the file is unchanged. */
module Explorer {
  import opened Options
  import opened ValueCounts

  /** Rows shown in the sample table (`head(10)`). */
  const SampleSize: nat := 10
  /** Journals shown in the top-journals chart (`value_counts().head(10)`). */
  const TopJournalCount: nat := 10

  /** One row of the metadata file, restricted to the columns the page uses; a
      missing cell (NaN) is None. */
  datatype Record = Record(
    title: Option<string>,
    authors: Option<string>,
    journal: Option<string>,
    publishTime: Option<string>)

  /** One row of the cleaned frame, with the four columns the sample table shows:
      the title is present and the year comes from the parsed publish time. */
  datatype Paper = Paper(title: string, authors: Option<string>, journal: Option<string>, year: int)

  /** The date parser: the year of the date a publish-time text denotes, or None
      where the parser gives up and yields NaT. */
  type YearParser = string -> Option<int>

  /** The row keeps a title and a publish time, and the publish time parses. */
  predicate Survives(row: Record, parseYear: YearParser)
  {
    row.title.Some? && row.publishTime.Some? && parseYear(row.publishTime.value).Some?
  }

  /** p is what the row becomes once cleaned: the same title, authors and journal,
      and the year of its parsed publish time. */
  predicate CleansTo(row: Record, p: Paper, parseYear: YearParser)
  {
    && row.title == Some(p.title)
    && row.authors == p.authors
    && row.journal == p.journal
    && row.publishTime.Some?
    && parseYear(row.publishTime.value) == Some(p.year)
  }

  /** The paper a surviving row becomes. */
  function CleanRow(row: Record, parseYear: YearParser): (p: Paper)
    requires Survives(row, parseYear)
    ensures CleansTo(row, p, parseYear)
  {
    Paper(row.title.value, row.authors, row.journal, parseYear(row.publishTime.value).value)
  }

  /** Cleaning: drop rows without a title or publish time, parse the publish time,
      drop rows whose time does not parse, and derive the year. */
  function Clean(rows: seq<Record>, parseYear: YearParser): (ps: seq<Paper>)
    ensures |ps| <= |rows|
    ensures forall p :: p in ps ==> exists row :: row in rows && CleansTo(row, p, parseYear)
    ensures forall row :: row in rows && Survives(row, parseYear) ==>
      exists p :: p in ps && CleansTo(row, p, parseYear)
  {
    if rows == [] then []
    else
      var init, row := rows[..|rows| - 1], rows[|rows| - 1];
      var kept := Clean(init, parseYear);
      assert forall r :: r in rows ==> r in init || r == row;
      assert forall r :: r in init ==> r in rows;
      // a row missing a title or a publish time is dropped before parsing
      if row.title.None? || row.publishTime.None? then kept
      else match parseYear(row.publishTime.value)
        // a time that does not parse becomes NaT, and the row is dropped after parsing
        case None => kept
        case Some(_) => kept + [CleanRow(row, parseYear)]
  }

  /** The year-range filter: rows whose year lies in [lo, hi], both ends included. */
  function Filter(ps: seq<Paper>, lo: int, hi: int): (r: seq<Paper>)
    ensures |r| <= |ps|
    ensures forall p :: p in r <==> p in ps && lo <= p.year <= hi
  {
    if ps == [] then []
    else
      var init, p := ps[..|ps| - 1], ps[|ps| - 1];
      assert forall q :: q in ps <==> q in init || q == p;
      var kept := Filter(init, lo, hi);
      if lo <= p.year && p.year <= hi then kept + [p] else kept
  }

  /** The rows of the sample table: the first rows of the filtered frame (`head(10)`). */
  function Sample(filtered: seq<Paper>): (rows: seq<Paper>)
    ensures |rows| == if |filtered| < SampleSize then |filtered| else SampleSize
    ensures rows == filtered[..|rows|]
    ensures |filtered| <= SampleSize <==> rows == filtered
  {
    if |filtered| <= SampleSize then filtered else filtered[..SampleSize]
  }

  function YearColumn(ps: seq<Paper>): seq<int>
  {
    seq(|ps|, i requires 0 <= i < |ps| => ps[i].year)
  }

  function JournalColumn(ps: seq<Paper>): seq<Option<string>>
  {
    seq(|ps|, i requires 0 <= i < |ps| => ps[i].journal)
  }

  /** Number of rows whose journal is the present value j. */
  function JournalCount(ps: seq<Paper>, j: string): nat
  {
    Count(JournalColumn(ps), Some(j))
  }

  /** Publications per year (`value_counts().sort_index()` of the year column). */
  function YearCounts(filtered: seq<Paper>): seq<Entry<int>>
  {
    SortedTally(YearColumn(filtered))
  }

  /** The top journals (`value_counts().head(10)` of the journal column). */
  function TopJournals(filtered: seq<Paper>): seq<Entry<string>>
  {
    TopK(Tally(DropMissing(JournalColumn(filtered))), TopJournalCount)
  }

  /** What the page shows for one year range. */
  datatype View = View(sample: seq<Paper>, yearCounts: seq<Entry<int>>, topJournals: seq<Entry<string>>)

  /** One run of the page for the selected range, over the cleaned rows. */
  function Dashboard(dataset: seq<Paper>, lo: int, hi: int): View
  {
    var filtered := Filter(dataset, lo, hi);
    View(Sample(filtered), YearCounts(filtered), TopJournals(filtered))
  }

  /** Cleaning works row by row (the parser reads each publish time on its own): the cleaned frame of two consecutive blocks of rows
      is the cleaned first block followed by the cleaned second block. */
  lemma {:induction false} CleanAppend(a: seq<Record>, b: seq<Record>, parseYear: YearParser)
    ensures Clean(a + b, parseYear) == Clean(a, parseYear) + Clean(b, parseYear)
    decreases |b|
  {
    if b == [] {
      assert a + b == a;
    } else {
      var init := b[..|b| - 1];
      assert (a + b)[..|a + b| - 1] == a + init;
      assert (a + b)[|a + b| - 1] == b[|b| - 1];
      CleanAppend(a, init, parseYear);
    }
  }

  /** A row without a title, without a publish time, or whose publish time does not
      parse leaves no trace: the cleaned frame is the same as without it, so no year
      range ever shows it. */
  lemma DroppedRowIsInvisible(rows: seq<Record>, i: nat, parseYear: YearParser)
    requires i < |rows| && !Survives(rows[i], parseYear)
    ensures Clean(rows[..i] + rows[i + 1..], parseYear) == Clean(rows, parseYear)
  {
    assert rows == rows[..i] + [rows[i]] + rows[i + 1..];
    CleanAppend(rows[..i] + [rows[i]], rows[i + 1..], parseYear);
    CleanAppend(rows[..i], [rows[i]], parseYear);
    CleanAppend(rows[..i], rows[i + 1..], parseYear);
    assert [rows[i]][..0] == [];
  }

  /** A row that survives becomes exactly one paper, at the position of the row
      among the survivors. */
  lemma KeptRowInPlace(rows: seq<Record>, i: nat, parseYear: YearParser)
    requires i < |rows| && Survives(rows[i], parseYear)
    ensures Clean(rows, parseYear)
      == Clean(rows[..i], parseYear) + [CleanRow(rows[i], parseYear)] + Clean(rows[i + 1..], parseYear)
  {
    var row := rows[i];
    assert rows == rows[..i] + [row] + rows[i + 1..];
    CleanAppend(rows[..i] + [row], rows[i + 1..], parseYear);
    CleanAppend(rows[..i], [row], parseYear);
    assert [row][..0] == [];
  }

  /** The filter keeps order: filtering two consecutive blocks of rows gives the
      filtered first block followed by the filtered second block. */
  lemma {:induction false} FilterAppend(a: seq<Paper>, b: seq<Paper>, lo: int, hi: int)
    ensures Filter(a + b, lo, hi) == Filter(a, lo, hi) + Filter(b, lo, hi)
    decreases |b|
  {
    if b == [] {
      assert a + b == a;
    } else {
      var init := b[..|b| - 1];
      assert (a + b)[..|a + b| - 1] == a + init;
      assert (a + b)[|a + b| - 1] == b[|b| - 1];
      FilterAppend(a, init, lo, hi);
    }
  }

  /** a can be obtained from b by deleting elements. */
  predicate IsSubsequence<T(==)>(a: seq<T>, b: seq<T>)
    decreases |b|
  {
    if b == [] then a == []
    else
      IsSubsequence(a, b[..|b| - 1])
      || (a != [] && a[|a| - 1] == b[|b| - 1] && IsSubsequence(a[..|a| - 1], b[..|b| - 1]))
  }

  /** The filtered frame is a subsequence of the cleaned frame. */
  lemma {:induction false} FilterIsSubsequence(ps: seq<Paper>, lo: int, hi: int)
    ensures IsSubsequence(Filter(ps, lo, hi), ps)
  {
    if ps != [] {
      var init := ps[..|ps| - 1];
      FilterIsSubsequence(init, lo, hi);
      var r := Filter(ps, lo, hi);
      if lo <= ps[|ps| - 1].year <= hi {
        assert r[..|r| - 1] == Filter(init, lo, hi);
      }
    }
  }

  /** Within the range the per-year counts are those of the whole cleaned frame;
      outside it they are zero. */
  lemma {:induction false} FilterYearCount(ps: seq<Paper>, lo: int, hi: int, y: int)
    ensures Count(YearColumn(Filter(ps, lo, hi)), y) == if lo <= y <= hi then Count(YearColumn(ps), y) else 0
  {
    if ps != [] {
      var init, p := ps[..|ps| - 1], ps[|ps| - 1];
      FilterYearCount(init, lo, hi, y);
      YearColumnSnoc(init, p);
      assert init + [p] == ps;
      var kept := Filter(init, lo, hi);
      if lo <= p.year <= hi {
        YearColumnSnoc(kept, p);
      }
    }
  }

  /** Appending a row appends its year, and counts it once more. */
  lemma YearColumnSnoc(ps: seq<Paper>, p: Paper)
    ensures YearColumn(ps + [p]) == YearColumn(ps) + [p.year]
    ensures forall y :: Count(YearColumn(ps + [p]), y) == Count(YearColumn(ps), y) + (if p.year == y then 1 else 0)
  {
  }

  /** Each distinct year of the filtered rows is listed once, in strictly ascending
      order, with the number of rows of that year (never zero), and the counts add
      up to the number of filtered rows. */
  lemma YearCountsCorrect(filtered: seq<Paper>)
    ensures Ascending(YearCounts(filtered))
    ensures forall i :: 0 <= i < |YearCounts(filtered)| ==>
      0 < YearCounts(filtered)[i].count == Count(YearColumn(filtered), YearCounts(filtered)[i].key)
    ensures forall p :: p in filtered ==> Listed(YearCounts(filtered), p.year)
    ensures Total(YearCounts(filtered)) == |filtered|
    ensures YearCounts(filtered) == [] <==> filtered == []
  {
    var col := YearColumn(filtered);
    SortedTallyCorrect(col);
    forall p | p in filtered ensures Listed(YearCounts(filtered), p.year) {
      var i :| 0 <= i < |filtered| && filtered[i] == p;
      assert col[i] == p.year;
    }
  }

  /** The top-journals list has at most ten entries, no journal twice, counts that
      never increase, and each count is the number of filtered rows with that
      journal, never zero. */
  lemma TopJournalsCorrect(filtered: seq<Paper>)
    ensures |TopJournals(filtered)| <= TopJournalCount
    ensures DistinctKeys(TopJournals(filtered))
    ensures Descending(TopJournals(filtered))
    ensures forall i :: 0 <= i < |TopJournals(filtered)| ==>
      0 < TopJournals(filtered)[i].count == JournalCount(filtered, TopJournals(filtered)[i].key)
  {
    var col := JournalColumn(filtered);
    var present := DropMissing(col);
    var r := TopJournals(filtered);
    TallyCorrect(present);
    TopKDistinct(Tally(present), TopJournalCount);
    TopKDescending(Tally(present), TopJournalCount);
    TopTallyCounts(present, TopJournalCount);
    forall i | 0 <= i < |r| ensures 0 < r[i].count == JournalCount(filtered, r[i].key) {
      DropMissingCount(col, r[i].key);
    }
  }

  /** A journal of the filtered rows that the list leaves out has a count no larger
      than any listed journal, and is left out only when ten journals are listed. */
  lemma TopJournalsDominate(filtered: seq<Paper>, j: string)
    requires JournalCount(filtered, j) > 0 && !Listed(TopJournals(filtered), j)
    ensures |TopJournals(filtered)| == TopJournalCount
    ensures forall i :: 0 <= i < |TopJournals(filtered)| ==> JournalCount(filtered, j) <= TopJournals(filtered)[i].count
  {
    var col := JournalColumn(filtered);
    var present := DropMissing(col);
    DropMissingCount(col, j);
    CountPositive(present, j);
    TopTallyDominates(present, TopJournalCount, j);
  }

  /** The top-journals list is empty exactly when no filtered row has a journal. */
  lemma TopJournalsEmpty(filtered: seq<Paper>)
    ensures TopJournals(filtered) == [] <==> forall p :: p in filtered ==> p.journal.None?
  {
    var col := JournalColumn(filtered);
    var present := DropMissing(col);
    var r := TopJournals(filtered);
    TopTallyCounts(present, TopJournalCount);
    if r != [] {
      DropMissingCount(col, r[0].key);
      CountPositive(col, Some(r[0].key));
      var i :| 0 <= i < |col| && col[i] == Some(r[0].key);
      assert filtered[i] in filtered && filtered[i].journal.Some?;
    }
    if p :| p in filtered && p.journal.Some? {
      var i :| 0 <= i < |filtered| && filtered[i] == p;
      assert col[i] == p.journal;
      CountPositive(col, p.journal);
      DropMissingCount(col, p.journal.value);
      CountPositive(present, p.journal.value);
      TallyCorrect(present);
      assert Listed(Tally(present), p.journal.value);
    }
  }

  /** Rows without a journal do not change the top-journals list. */
  lemma MissingJournalIgnored(a: seq<Paper>, p: Paper, b: seq<Paper>)
    requires p.journal.None?
    ensures TopJournals(a + [p] + b) == TopJournals(a + b)
  {
    assert JournalColumn(a + [p] + b) == JournalColumn(a) + [None] + JournalColumn(b);
    assert JournalColumn(a + b) == JournalColumn(a) + JournalColumn(b);
    DropMissingAppend(JournalColumn(a) + [None], JournalColumn(b));
    DropMissingAppend(JournalColumn(a), [None]);
    DropMissingAppend(JournalColumn(a), JournalColumn(b));
    var none: seq<Option<string>> := [None];
    assert none[..0] == [];
  }

  /** An empty selection gives an empty sample table and an empty year chart, and
      conversely; it also gives an empty journal chart. */
  lemma EmptySelection(dataset: seq<Paper>, lo: int, hi: int)
    ensures Dashboard(dataset, lo, hi).sample == [] <==> Filter(dataset, lo, hi) == []
    ensures Dashboard(dataset, lo, hi).yearCounts == [] <==> Filter(dataset, lo, hi) == []
    ensures Filter(dataset, lo, hi) == [] ==> Dashboard(dataset, lo, hi).topJournals == []
  {
  }

  /** Four papers from 2019 to 2021 and the range 2020 to 2021: three papers are
      shown, two of 2020 and one of 2021. */
  lemma ThreePapersInRange()
    ensures var dataset := [
        Paper("A", None, None, 2019), Paper("B", None, None, 2020),
        Paper("C", None, None, 2020), Paper("D", None, None, 2021)];
      && |Filter(dataset, 2020, 2021)| == 3
      && YearCounts(Filter(dataset, 2020, 2021)) == [Entry(2020, 2), Entry(2021, 1)]
  {
    var a, b, c, d := Paper("A", None, None, 2019), Paper("B", None, None, 2020),
      Paper("C", None, None, 2020), Paper("D", None, None, 2021);
    var dataset := [a, b, c, d];
    assert dataset[..3] == [a, b, c] && [a, b, c][..2] == [a, b] && [a, b][..1] == [a] && [a][..0] == [];
    assert Filter([a], 2020, 2021) == [];
    assert Filter([a, b], 2020, 2021) == [b];
    assert Filter([a, b, c], 2020, 2021) == [b, c];
    var filtered := Filter(dataset, 2020, 2021);
    assert filtered == [b, c, d];
    var years := YearColumn(filtered);
    assert years == [2020, 2020, 2021];
    assert years[..2] == [2020, 2020] && [2020, 2020][..1] == [2020] && [2020][..0] == [];
    assert SortedTally([2020]) == [Entry(2020, 1)];
    assert SortedTally([2020, 2020]) == [Entry(2020, 2)];
    assert Insert([Entry(2020, 2)], 2021) == [Entry(2020, 2), Entry(2021, 1)];
    assert SortedTally(years) == [Entry(2020, 2), Entry(2021, 1)];
  }
}
