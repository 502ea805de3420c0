# count_things: a verified model of `count.py`

`count.py` counts the values of a one-column CSV file. For every `*.csv` file
in the working directory it reads the first row as the column header, sorts
the remaining rows, joins each row's fields with single spaces into one
*element*, counts how often each element occurs in a dictionary, and writes
`reports/<stem>_report.csv`: a row `[header, "count"]` followed by one
`(element, count)` row per distinct element, largest count first. Before that
it renames every non-hidden entry of the directory, files and directories
alike, as `os.listdir` returns them: spaces become underscores, then the name
is lower-cased.

The model replaces the module-level variables `header`, `elements` and
`element_counts` with parameters and results, and takes each file as the
rows the CSV reader yields (each row a list of fields).

Modules:

- `Wrappers` (`wrappers.dfy`): `Option` and `Result`.
- `Sequences` (`sequences.dfy`): a general fact about sequence concatenation.
- `Text` (`text.dfy`): `str.join` and `str.split` on one character,
  `str.replace` of one character, ASCII `str.lower`, `str(n)` for a count and
  its inverse `ParseNat`.
- `LexOrder` (`lexorder.dfy`): Python's comparison of strings and of lists
  of strings, proved a strict total order; `sorted` on rows as an insertion
  sort, with the proof that any sorted permutation is the same sequence.
- `FileNames` (`filenames.dfy`): the renaming of directory entries and the
  report file name.
- `Ingest` (`ingest.dfy`): `populate_list_of_elements` from pre-split rows.
- `Counting` (`counting.dfy`): `build_dct_of_counts` as a loop over the
  elements that updates an insertion-ordered dictionary, proved equal to
  the specification `Tally` (distinct elements in first-occurrence order,
  each with its number of occurrences).
- `Report` (`report.dfy`): the stable descending sort by count, the report
  rows and the loop that writes them, and a reader that recovers the pairs.
- `Pipeline` (`pipeline.dfy`): one pass of the per-file loop and the
  end-to-end facts about a report.

`count.py` has no exclusion list, no grouping and no totals report. The
header row of a report is the input's own column header followed by
`count`. An empty input file stops the script at `next()`, when the header
is read; the model returns the error `NoHeaderRow` there.

## Model

| member | source | states |
|---|---|---|
| `Text.Split` | count.py:45 | `str.split` on one character yields at least one piece and no piece contains the separator |
| `Text.SplitFirstPiece` | count.py:45 | the first piece of a split is a prefix of the string; it is the whole string when there is no separator, otherwise the separator follows it |
| `Text.Join` | count.py:55-57 | `" ".join(row)` of no fields is empty; otherwise it starts with the first field, and with two or more fields the separator follows that field (the whole string is pinned by `Text.JoinSplit` and `Text.SplitJoin`) |
| `Text.JoinSplit` | count.py:55-57 | joining the pieces of a split with the same separator gives the string back |
| `Text.SplitJoin` | count.py:55-57 | for a row with at least one field, none of which contains a space, splitting its space-join gives the fields back, so such a row is determined by its element |
| `Text.ReplaceChar` | count.py:28 | `replace(" ", "_")` keeps the length, replaces every space and keeps every other character |
| `Text.Lower` | count.py:28 | `lower()` keeps the length and lower-cases each ASCII letter, leaving other characters alone |
| `Text.LowerChar` | count.py:28 | a lowered character is never an upper-case ASCII letter; upper-case letters move by 32, others are kept |
| `Text.NatToString` | count.py:111 | the written count is a non-empty string of decimal digits without a leading zero |
| `Text.ParseNatToString` | count.py:111 | reading a written count gives the count back |
| `LexOrder.LexStrictTotalOrder` | count.py:56 | Python's element-by-element comparison of sequences is a strict total order whenever the items' order is one |
| `LexOrder.StrLessStrictTotalOrder` | count.py:56 | comparison of strings by code points is irreflexive, transitive and total |
| `LexOrder.RowLessTransitive` | count.py:56 | comparison of rows (lists of fields) is transitive |
| `LexOrder.RowLessTotal` | count.py:56 | two rows are equal exactly when neither is smaller than the other |
| `LexOrder.InsertRow` | count.py:56 | inserting a row adds exactly that row to the multiset of rows |
| `LexOrder.InsertRowSorted` | count.py:56 | inserting a row into sorted rows keeps them sorted |
| `LexOrder.SortRows` | count.py:56 | `sorted(appreader)` returns a permutation of the data rows in ascending row order |
| `LexOrder.SortedUnique` | count.py:56 | any two sorted permutations of the same rows are equal, so the result does not depend on the sorting algorithm |
| `FileNames.NormalizedName` | count.py:28-29 | a name starting with `.` is unchanged; in any other, each space becomes `_` and each upper-case ASCII letter its lower-case letter, every other character is kept, so the result has the same length, no space, no upper-case letter and does not start with `.` |
| `FileNames.NormalizedNameIdempotent` | count.py:28-29 | renaming an already renamed entry changes nothing |
| `FileNames.NonHidden` | count.py:29 | the `if not csv_file.startswith(".")` filter keeps no more entries than listed and none starting with `.` (multiplicities by `FileNames.NonHiddenCount`, order by `FileNames.NonHiddenAppend`) |
| `FileNames.NonHiddenCount` | count.py:28-29 | the filtered listing holds each entry not starting with `.` as often as the listing does, and no other entry |
| `FileNames.NonHiddenAppend` | count.py:28-29 | filtering keeps the listing order: the filter of two concatenated listings is the concatenation of their filters |
| `FileNames.RenamePlan` | count.py:28-29 | the renames are, in order, one per entry of the filtered listing, from that entry to its normalized name; so every non-hidden entry is renamed and nothing else is |
| `FileNames.RenamePlanAppend` | count.py:28-29 | the renames of two concatenated listings are those of the first followed by those of the second, so they follow the listing order |
| `FileNames.ReportName` | count.py:39-45 | the report name ends with `_report.csv`; what precedes it is the text before the first `.` of the file name, or the whole name when it has no `.` |
| `Ingest.JoinRows` | count.py:56-57 | the element list has one element per data row (element `i` is given by `Ingest.JoinRowsAt`) |
| `Ingest.JoinRowsAt` | count.py:57 | element `i` is data row `i` joined with single spaces |
| `Ingest.PopulateElements` | count.py:48-59 | an empty file fails at the header; otherwise the header is the first row joined with spaces and the elements are the sorted remaining rows, each joined with spaces, in order |
| `Ingest.SortedElementsPermutation` | count.py:56-57 | sorting the rows changes only the order of the elements, not their multiset |
| `Counting.Count` | count.py:70-73 | an element's count is at most the list length and positive exactly when the element occurs |
| `Counting.Distinct` | count.py:71-72 | the dictionary's keys are exactly the elements of the list, each once |
| `Counting.DistinctFirstOccurrenceOrder` | count.py:71-72 | the keys are in the order of their elements' first occurrences (Python dictionaries keep insertion order) |
| `Counting.TallySnoc` | count.py:70-73 | counting one more element appends it as a new key with count 1 when it is new, and otherwise adds 1 to its count |
| `Counting.BuildCounts` | count.py:62-75 | the loop with `setdefault` and increment builds exactly the tally of the element list |
| `Counting.CountIsMultiplicity` | count.py:70-73 | every element maps to its number of occurrences, its multiplicity in the list |
| `Counting.TallyKeysAndCounts` | count.py:70-73 | the keys are exactly the distinct elements, with no repetition, and every stored count equals the multiplicity and is at least 1 |
| `Counting.TallyOrderIndependent` | count.py:56 | counting any rearrangement of the elements gives the same counts and the same key set |
| `Counting.Items` | count.py:108 | `element_counts.items()` has one pair per key (each pair given by `Counting.ItemsAt`) |
| `Counting.ItemsAt` | count.py:91 | `dict.items()` lists every key with its count, in insertion order |
| `Counting.TallyTotal` | count.py:70-73 | the counts add up to the number of elements |
| `Report.WithCountIn` | count.py:91-92 | every pair selected for a count is one of the pairs and has that count |
| `Report.WithCountHas` | count.py:91-92 | every pair is among those selected for its own count |
| `Report.WithCountAppend` | count.py:91-92 | selecting the pairs of one count commutes with concatenation |
| `Report.InsertByCount` | count.py:91-92 | inserting a pair adds exactly that pair and its count to the total |
| `Report.InsertByCountOrdered` | count.py:91-92 | inserting a pair into pairs in descending count order keeps that order |
| `Report.InsertByCountStable` | count.py:91-92 | the inserted pair comes after every pair of equal count already present |
| `Report.SortByCountDesc` | count.py:91-92 | the ordered pairs are a permutation of the items, counts never increase, pairs of equal count keep their dictionary order, and the total count is unchanged |
| `Report.StableDescendingUnique` | count.py:108-109 | non-increasing order with ties in original order determines the sequence, so it is what Python's stable sort with `reverse=True` returns |
| `Report.WriteReport` | count.py:104-111 | the rows written are the header row and one row per pair in descending count order |
| `Report.PairRow` | count.py:110-111 | the row written for a pair has two cells: the element, and its count as a string that reads back as that count |
| `Report.ReportRows` | count.py:107-111 | the rows written hold one row more than the pairs, and the first is `[header, "count"]` (the rest by `Report.ReportRowsShape`) |
| `Report.ReportRowsShape` | count.py:107-111 | a report has one row more than it has pairs; the first is `[header, "count"]`, the others are the pairs with their counts as decimal strings |
| `Report.ReportRoundTrip` | count.py:107-111 | reading a written report gives back its header and exactly its pairs, in order |
| `Pipeline.ProcessFile` | count.py:119-124 | one pass of the per-file loop: ingest, count, name and write the report, or fail on an empty file |
| `Pipeline.OrderedCountsExact` | count.py:70-73 | every reported pair is an element of the file with its exact number of occurrences |
| `Pipeline.OrderedCountsCover` | count.py:107-111 | every element of the file is reported |
| `Pipeline.OrderedCountsSize` | count.py:107-111 | the report has exactly one pair per distinct element of the file |
| `Pipeline.OrderedCountsTotal` | count.py:70-73 | the reported counts add up to the number of data rows |
| `Pipeline.CountingIgnoresRowOrder` | count.py:56 | counting the elements in sorted order gives the same counts as counting them in file order |
| `Pipeline.ReportFileFacts` | count.py:119-124 | the report of a non-empty file is named after it, has 1 + (number of distinct elements) rows starting with `[header, "count"]`, and reads back into its pairs |

## Left out

- Creating the `reports` directory (count.py:11-22), the `os.rename` calls themselves (count.py:28), `glob.glob` (count.py:36), and opening, reading and writing files (count.py:53, count.py:105): file-system effects. The model computes the renames, the rows and the report contents they act on.
- Two entries that rename to the same name (`X.csv` and `x.csv`): the outcome depends on the listing order and on the platform (on POSIX `os.rename` replaces an existing target, on Windows it raises `FileExistsError`), and is not modelled.
- Two input files that share the text before their first `.` and so the same report name: `open(..., "w")` (count.py:105) empties the report first, so the later file in `glob` order overwrites the earlier report on every platform; the model produces one report per file and does not model the overwrite.
- The reader's tokenising (space delimiter, `|` quote character, count.py:54) and the writer's default comma-separated quoting, which quotes a cell holding `,`, `"` or a line break (count.py:106): a foreign library. Rows enter as lists of fields and leave as lists of cells, so `Report.ReportRoundTrip` is about those cells, not the bytes of the report file.
- `prompt_user_for_num_results` (count.py:78-84): interactive input, never called by the script.
- The console output of `output_results` (count.py:87-93) and the success message (count.py:113): printing. The ordering it prints is the one `Report.SortByCountDesc` models.
- The outer loop over all files (count.py:118-119): only one pass, `Pipeline.ProcessFile`, is modelled, since the loop itself only repeats it for each file name `glob` returns.
- `Text.Lower`: lower-cases ASCII letters only; Python's `str.lower` also folds non-ASCII letters.
- `Text.ParseNat` reads back only plain decimal digits, which is all `str` writes for a count; Python's `int` accepts more (signs, spaces, underscores).
