# CORD-19 Data Explorer: the record pipeline

The explorer is a one-page dashboard over the CORD-19 paper metadata. It reads the
metadata file and cleans it. Then, for the year range chosen on a slider, it
filters the cleaned rows and shows three views: a sample table of the first ten
filtered papers, the number of papers per year, and the ten journals with the most
papers. This project models that record pipeline as pure Dafny functions over
sequences of rows and proves what each stage keeps, drops and counts.

The page keeps no cache: every slider change re-runs the whole page, so the file is
read and cleaned again each time. The model treats the cleaned rows as fixed
between runs, which holds while the file does not change.

- `options.dfy` (module `Options`): a missing cell (NaN or NaT) is `None`.
- `value_counts.dfy` (module `ValueCounts`): the column aggregation the page uses.
  A count table is a sequence of `Entry(key, count)` values. `Tally` counts values
  in order of first occurrence. `SortedTally` counts integer values in ascending
  order, like `value_counts().sort_index()`. `TopK` takes the n largest counts,
  largest first, like `value_counts().head(n)`. `DropMissing` drops the missing
  values that `value_counts` leaves out.
- `explorer.dfy` (module `Explorer`): rows as read (`Record`), cleaned rows
  (`Paper`), and the stages `Clean`, `Filter`, `Sample`, `YearCounts`,
  `TopJournals` and `Dashboard`, which runs one slider selection.

The date parser is the function parameter `parseYear: string -> Option<int>`. It
gives the year of the date a publish-time text denotes, or `None` where the parser
yields NaT. All results hold for every such parser.

Three points where the code behaves differently from what one might expect:
- Cleaning drops a row only when its title or publish time is missing or the time
  does not parse. A missing journal does not drop the row.
- The top-journals count has no bucket for a missing journal, because
  `value_counts` drops missing values by default.
- A present title is all that is required. An empty title that the CSV reader
  turns into NaN is a missing one.

## Model

| member | source | states |
|---|---|---|
| `Explorer.CleanRow` | app/app.py:12-14 | a surviving row keeps its title, authors and journal, and its year is the year its publish time parses to |
| `Explorer.Clean` | app/app.py:11-14 | every cleaned paper comes from a row with a present title and a present publish time that parses, and its year is the parsed year; every row meeting those conditions yields a paper; there are never more papers than rows |
| `Explorer.CleanAppend` | app/app.py:11-14 | for a per-row parser, cleaning works row by row and keeps order: cleaning two consecutive blocks gives the two cleaned blocks in order |
| `Explorer.DroppedRowIsInvisible` | app/app.py:11-13 | for a per-row parser, a row with no title, no publish time, or a time that does not parse leaves the cleaned frame exactly as if it were absent, so no year range ever shows it |
| `Explorer.KeptRowInPlace` | app/app.py:11-14 | for a per-row parser, a surviving row yields exactly one paper, between the papers of the rows before it and the rows after it |
| `Explorer.Filter` | app/app.py:22 | a paper is in the filtered frame if and only if it is in the cleaned frame and lo <= year <= hi, both ends included |
| `Explorer.FilterAppend` | app/app.py:22 | the filter keeps the relative order: filtering two consecutive blocks gives the two filtered blocks in order |
| `Explorer.FilterIsSubsequence` | app/app.py:22 | the filtered frame is a subsequence of the cleaned frame |
| `Explorer.FilterYearCount` | app/app.py:22 | after filtering, a year inside the range has as many rows as in the cleaned frame, and a year outside it has none |
| `Explorer.Sample` | app/app.py:26 | the sample table has min(10, n) rows, which are the first rows of the filtered frame in order; it is the whole filtered frame exactly when that has at most 10 rows |
| `Explorer.YearCounts` | app/app.py:30 | no contract of its own: `value_counts().sort_index()` of the filtered year column; `Explorer.YearCountsCorrect` states its meaning |
| `Explorer.YearCountsCorrect` | app/app.py:30 | the per-year counts list each year of the filtered rows once, in strictly ascending order; each count is the number of filtered rows of that year and is never zero; the counts sum to the number of filtered rows; the list is empty exactly when the filtered frame is |
| `Explorer.TopJournals` | app/app.py:39 | no contract of its own: `value_counts().head(10)` of the filtered journal column; `Explorer.TopJournalsCorrect`, `Explorer.TopJournalsDominate` and `Explorer.TopJournalsEmpty` state its meaning |
| `Explorer.TopJournalsCorrect` | app/app.py:39 | the top-journals list has at most 10 entries, no journal twice, non-increasing counts, and each count equals the number of filtered rows with that journal and is never zero |
| `Explorer.TopJournalsDominate` | app/app.py:39 | a journal of the filtered rows left out of the list has a count no larger than any listed journal, and is left out only when 10 journals are listed |
| `Explorer.TopJournalsEmpty` | app/app.py:39 | the top-journals list is empty exactly when no filtered row has a journal |
| `Explorer.MissingJournalIgnored` | app/app.py:39 | inserting a row without a journal anywhere leaves the top-journals list unchanged |
| `Explorer.Dashboard` | app/app.py:22-39 | no contract of its own: one run for a range filters the cleaned rows and builds the sample table, the year counts and the top journals from the filtered rows; `Explorer.EmptySelection` and the lemmas above state its parts |
| `Explorer.EmptySelection` | app/app.py:22-39 | the sample table and the year counts are empty exactly when the filtered frame is; an empty filtered frame also gives an empty top-journals list |
| `Explorer.ThreePapersInRange` | app/app.py:22-30 | papers of 2019, 2020, 2020 and 2021 filtered to 2020-2021 give three rows and the year counts (2020, 2), (2021, 1) |
| `ValueCounts.Tally` | app/app.py:39 | no contract of its own: the value count of a column in first-occurrence order; `ValueCounts.TallyCorrect` states its meaning |
| `ValueCounts.TallyCorrect` | app/app.py:39 | the value count of a column lists each distinct value once, with its number of occurrences, and the counts sum to the column length |
| `ValueCounts.SortedTally` | app/app.py:30 | no contract of its own: the value count of an integer column sorted by value; `ValueCounts.SortedTallyCorrect` states its meaning |
| `ValueCounts.SortedTallyCorrect` | app/app.py:30 | the value count of an integer column, sorted by value, is a value count with strictly ascending keys |
| `ValueCounts.DropMissing` | app/app.py:39 | no contract of its own: the present values of a column, which `value_counts` counts; `ValueCounts.DropMissingCount` and `ValueCounts.DropMissingAppend` state its meaning |
| `ValueCounts.DropMissingCount` | app/app.py:39 | dropping missing values keeps each present value's count and removes exactly the missing cells |
| `ValueCounts.DropMissingAppend` | app/app.py:39 | dropping missing values works cell by cell and keeps order |
| `ValueCounts.ArgMax` | app/app.py:39 | the chosen entry has the largest count, and every entry before it has a smaller one |
| `ValueCounts.TopK` | app/app.py:39 | head(n) of the count table ordered by count gives min(n, number of entries) entries |
| `ValueCounts.TopKPicksFromTable` | app/app.py:39 | the top-n list takes only entries of the table, and all of them when there are at most n |
| `ValueCounts.TopKDistinct` | app/app.py:39 | the top-n list never lists a key twice when the table does not |
| `ValueCounts.TopKDescending` | app/app.py:39 | the top-n list is in non-increasing count order |
| `ValueCounts.TopKDominates` | app/app.py:39 | an entry left out of the top-n list has a count no larger than any listed entry |
| `ValueCounts.TopTallyCounts` | app/app.py:39 | each entry of the top n of a column's value count carries the exact, non-zero number of occurrences of its value |
| `ValueCounts.TopTallyDominates` | app/app.py:39 | a value of the column left out of the top n occurs no more often than any listed value, and is left out only when n values are listed |
| `ValueCounts.BumpCounts` | app/app.py:39 | counting one more occurrence of a value adds one to that value's count and to the total, and changes no other count |
| `ValueCounts.BumpKeys` | app/app.py:39 | counting one more occurrence keeps each value listed once and adds no value other than the counted one |
| `ValueCounts.InsertCounts` | app/app.py:30 | counting one more occurrence of a year in the sorted table adds one to that year's count and to the total, and changes no other count |
| `ValueCounts.InsertAscending` | app/app.py:30 | counting one more occurrence of a year keeps the table's years strictly ascending |

## Left out

- Reading the metadata file (app/app.py:8) is file I/O. The model starts from the rows as read. A missing file stops the page with an error, and that is not modelled.
- The date parser's accepted formats (app/app.py:12) belong to the date library. The model takes the parser as the parameter `parseYear`, applied to each row on its own. The library infers one format for the whole column, so in practice one row's result can depend on the other rows. The model does not capture that.
- The page title, text, table display and charts (app/app.py:17-18, 25-26, 31-35, 40-44) are rendering. The sample table's column selection is implicit, because `Paper` holds exactly the four shown columns. Other columns of the file are not modelled.
- The slider (app/app.py:21) is a widget. Its bounds are the minimum and maximum year and its default is (2020, 2021). The model takes any `lo` and `hi`, including `lo > hi`, which gives an empty selection. The slider's own failures are not modelled: an empty cleaned frame has no bounds to compute, and a default of (2020, 2021) outside [minimum year, maximum year] is rejected by the widget.
- Explorer.TopJournalsCorrect: the order among journals with equal counts is not stated. The model lists the earlier-seen journal first, and no lemma depends on that choice.
- Each slider change re-runs the whole page (app/app.py:8-44), re-reading and re-cleaning the file. The model treats a run as `Dashboard` applied to the cleaned rows with the new range, so it assumes the file is unchanged between runs. Session state is not modelled.
- Explorer.CleanAppend, Explorer.DroppedRowIsInvisible, Explorer.KeptRowInPlace: these hold for a parser that reads each publish time on its own, as `parseYear` does. The date library infers one format from the column, so an unparsable time can change how later times parse (with times "not-a-date", "2020", "2020-03-01", removing the first lets "2020" fix the format "%Y" and "2020-03-01" becomes NaT). For the page they are exact only for rows dropped before parsing, for a missing title or publish time (app/app.py:11).
