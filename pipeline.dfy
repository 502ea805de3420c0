/**
 * One pass of the per-file loop of count.py:119-124, with the module-level
 * variables `header`, `elements` and `element_counts` passed explicitly:
 * read the rows, count the elements, name the report and produce its rows.
 */
module Pipeline {
  import opened Wrappers
  import opened Text
  import opened LexOrder
  import opened FileNames
  import opened Ingest
  import opened Counting
  import opened Report

  /** A report file: its name inside the reports directory and its rows. */
  datatype ReportFile = ReportFile(name: string, rows: seq<seq<string>>)

  /** The report count.py writes for `filename`, whose rows are `rows`. */
  function ExpectedReport(filename: string, rows: seq<seq<string>>): Result<ReportFile, IngestError>
  {
    if rows == [] then Failure(NoHeaderRow)
    else Success(ReportFile(ReportName(filename), ReportRows(Join(rows[0], ' '), OrderedCounts(rows[1..]))))
  }

  /** count.py:120-124 for one file. */
  method ProcessFile(filename: string, rows: seq<seq<string>>) returns (r: Result<ReportFile, IngestError>)
    ensures r == ExpectedReport(filename, rows)
  {
    var ingested := PopulateElements(rows);
    if ingested.Failure? {
      return Failure(NoHeaderRow);
    }
    var header, elements := ingested.value.header, ingested.value.elements;
    var elementCounts := BuildCounts(elements);
    TallyKeysAndCounts(elements);
    var fileToExport := ReportName(filename);
    var reportRows := WriteReport(header, elementCounts);
    return Success(ReportFile(fileToExport, reportRows));
  }

  /** Some pair of `items` is about element `e`. */
  predicate Reports(items: seq<Item>, e: Element)
  {
    exists i :: 0 <= i < |items| && items[i].0 == e
  }

  /** The pairs reported for an element list, in written order. */
  function ReportedPairs(elements: seq<Element>): seq<Item>
  {
    TallyKeysAndCounts(elements);
    SortByCountDesc(Items(Tally(elements)))
  }

  lemma ReportedPairsExact(sortedElems: seq<Element>, elems: seq<Element>)
    requires multiset(sortedElems) == multiset(elems)
    ensures var items := ReportedPairs(sortedElems);
      forall i :: 0 <= i < |items| ==> items[i].0 in elems && items[i].1 == multiset(elems)[items[i].0]
  {
    var items := ReportedPairs(sortedElems);
    forall i | 0 <= i < |items| ensures items[i].0 in elems && items[i].1 == multiset(elems)[items[i].0] {
      ReportedPairAt(sortedElems, elems, i);
    }
  }

  lemma ReportedPairAt(sortedElems: seq<Element>, elems: seq<Element>, i: nat)
    requires multiset(sortedElems) == multiset(elems)
    requires i < |ReportedPairs(sortedElems)|
    ensures var p := ReportedPairs(sortedElems)[i];
      p.0 in elems && p.1 == multiset(elems)[p.0]
  {
    var t := Tally(sortedElems);
    var p := ReportedPairs(sortedElems)[i];
    TallyKeysAndCounts(sortedElems);
    ItemsAt(t);
    assert p in multiset(Items(t));
    var j :| 0 <= j < |Items(t)| && Items(t)[j] == p;
    assert p.0 in multiset(sortedElems);
  }

  lemma ReportedPairsCover(sortedElems: seq<Element>, elems: seq<Element>)
    requires multiset(sortedElems) == multiset(elems)
    ensures forall e :: e in elems ==> Reports(ReportedPairs(sortedElems), e)
  {
    var t := Tally(sortedElems);
    TallyKeysAndCounts(sortedElems);
    ItemsAt(t);
    var items := ReportedPairs(sortedElems);
    forall e | e in elems ensures Reports(items, e) {
      assert e in multiset(sortedElems);
      var j :| 0 <= j < |t.keys| && t.keys[j] == e;
      assert Items(t)[j] in multiset(items);
      var i :| 0 <= i < |items| && items[i] == Items(t)[j];
    }
  }

  lemma ReportedPairsSize(sortedElems: seq<Element>, elems: seq<Element>)
    requires multiset(sortedElems) == multiset(elems)
    ensures |ReportedPairs(sortedElems)| == |set e | e in elems|
  {
    var t := Tally(sortedElems);
    TallyKeysAndCounts(sortedElems);
    ItemsAt(t);
    DistinctCardinality(t.keys);
    forall e ensures e in t.keys <==> e in elems {
      assert e in elems <==> e in multiset(elems);
      assert e in sortedElems <==> e in multiset(sortedElems);
    }
    assert (set e | e in t.keys) == (set e | e in elems);
    var items := ReportedPairs(sortedElems);
    assert |items| == |multiset(items)| == |multiset(Items(t))|;
  }

  /** The pairs of the report for the data rows `dataRows`, in written order. */
  function OrderedCounts(dataRows: seq<seq<string>>): seq<Item>
  {
    ReportedPairs(JoinRows(SortRows(dataRows)))
  }

  /** Each reported pair is an element of the file with its number of occurrences. */
  lemma OrderedCountsExact(dataRows: seq<seq<string>>)
    ensures var items := OrderedCounts(dataRows);
      forall i :: 0 <= i < |items| ==>
        items[i].0 in JoinRows(dataRows) && items[i].1 == multiset(JoinRows(dataRows))[items[i].0]
  {
    SortedElementsPermutation(dataRows);
    ReportedPairsExact(JoinRows(SortRows(dataRows)), JoinRows(dataRows));
  }

  /** Every element of the file is reported. */
  lemma OrderedCountsCover(dataRows: seq<seq<string>>)
    ensures forall e :: e in JoinRows(dataRows) ==> Reports(OrderedCounts(dataRows), e)
  {
    SortedElementsPermutation(dataRows);
    ReportedPairsCover(JoinRows(SortRows(dataRows)), JoinRows(dataRows));
  }

  /** The report has one pair per distinct element of the file. */
  lemma OrderedCountsSize(dataRows: seq<seq<string>>)
    ensures |OrderedCounts(dataRows)| == |set e | e in JoinRows(dataRows)|
  {
    SortedElementsPermutation(dataRows);
    ReportedPairsSize(JoinRows(SortRows(dataRows)), JoinRows(dataRows));
  }

  /** The reported counts add up to the number of data rows. */
  lemma OrderedCountsTotal(dataRows: seq<seq<string>>)
    ensures Total(OrderedCounts(dataRows)) == |dataRows|
  {
    var sortedElems := JoinRows(SortRows(dataRows));
    TallyTotal(sortedElems);
    assert |SortRows(dataRows)| == |multiset(SortRows(dataRows))| == |dataRows|;
  }

  /** Counting the elements in file order gives the same table contents as in sorted order. */
  lemma CountingIgnoresRowOrder(dataRows: seq<seq<string>>)
    ensures Tally(JoinRows(SortRows(dataRows))).counts == Tally(JoinRows(dataRows)).counts
  {
    SortedElementsPermutation(dataRows);
    TallyOrderIndependent(JoinRows(SortRows(dataRows)), JoinRows(dataRows));
  }

  /**
   * The report of a non-empty file: named after the file, a header row
   * followed by one row per distinct element, and readable back into its pairs.
   */
  lemma ReportFileFacts(filename: string, rows: seq<seq<string>>)
    requires rows != []
    ensures ExpectedReport(filename, rows).Success?
    ensures var report := ExpectedReport(filename, rows).value;
      && report.name == ReportName(filename)
      && |report.rows| == 1 + |set e | e in JoinRows(rows[1..])|
      && report.rows[0] == [Join(rows[0], ' '), "count"]
      && ParseReport(report.rows) == Some((Join(rows[0], ' '), OrderedCounts(rows[1..])))
  {
    OrderedCountsSize(rows[1..]);
    ReportRowsShape(Join(rows[0], ' '), OrderedCounts(rows[1..]));
    ReportRoundTrip(Join(rows[0], ' '), OrderedCounts(rows[1..]));
  }
}
