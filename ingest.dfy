/**
 * Reading one input file, count.py:48-59. The CSV reader's tokenising is
 * outside the model: the file arrives as its rows, each already split into
 * fields. The first row, re-joined with single spaces, is the column header;
 * the remaining rows are sorted and each re-joined row is one element.
 */
module Ingest {
  import opened Wrappers
  import opened Text
  import opened LexOrder

  /** `next(appreader)` on a file without rows raises StopIteration. */
  datatype IngestError = NoHeaderRow

  /** The column header and the element list of one file. */
  datatype Ingested = Ingested(header: string, elements: seq<string>)

  /** `[" ".join(row) for row in rows]`. */
  function JoinRows(rows: seq<seq<string>>): (r: seq<string>)
    ensures |r| == |rows|
  {
    if rows == [] then [] else [Join(rows[0], ' ')] + JoinRows(rows[1..])
  }

  lemma {:induction false} JoinRowsAppend(a: seq<seq<string>>, b: seq<seq<string>>)
    ensures JoinRows(a + b) == JoinRows(a) + JoinRows(b)
  {
    if a == [] {
      assert a + b == b;
    } else {
      assert (a + b)[1..] == a[1..] + b;
      JoinRowsAppend(a[1..], b);
    }
  }

  /** The element at position `i` is row `i` joined with spaces. */
  lemma {:induction false} JoinRowsAt(rows: seq<seq<string>>, i: nat)
    requires i < |rows|
    ensures JoinRows(rows)[i] == Join(rows[i], ' ')
  {
    if i > 0 {
      JoinRowsAt(rows[1..], i - 1);
    }
  }

  /** `populate_list_of_elements`, from the rows the reader yields. */
  method PopulateElements(rows: seq<seq<string>>) returns (r: Result<Ingested, IngestError>)
    ensures rows == [] <==> r.Failure?
    ensures r.Success? ==> r.value.header == Join(rows[0], ' ')
    ensures r.Success? ==> r.value.elements == JoinRows(SortRows(rows[1..]))
  {
    if rows == [] {
      return Failure(NoHeaderRow);
    }
    var columnHeader := Join(rows[0], ' ');
    var sorted := SortRows(rows[1..]);
    var lst: seq<string> := [];
    for i := 0 to |sorted|
      invariant lst == JoinRows(sorted[..i])
    {
      JoinRowsAppend(sorted[..i], [sorted[i]]);
      assert sorted[..i + 1] == sorted[..i] + [sorted[i]];
      lst := lst + [Join(sorted[i], ' ')];
    }
    assert sorted[..|sorted|] == sorted;
    return Success(Ingested(columnHeader, lst));
  }

  lemma {:induction false} JoinRowsInsertRow(row: seq<string>, rows: seq<seq<string>>)
    ensures multiset(JoinRows(InsertRow(row, rows))) == multiset(JoinRows(rows)) + multiset{Join(row, ' ')}
  {
    if rows != [] && !RowLess(row, rows[0]) {
      JoinRowsInsertRow(row, rows[1..]);
      assert JoinRows(rows) == [Join(rows[0], ' ')] + JoinRows(rows[1..]);
    }
  }

  /** Sorting the rows first changes only the order of the elements, not which ones occur how often. */
  lemma {:induction false} SortedElementsPermutation(rows: seq<seq<string>>)
    ensures multiset(JoinRows(SortRows(rows))) == multiset(JoinRows(rows))
  {
    if rows != [] {
      SortedElementsPermutation(rows[1..]);
      JoinRowsInsertRow(rows[0], SortRows(rows[1..]));
      assert JoinRows(rows) == [Join(rows[0], ' ')] + JoinRows(rows[1..]);
    }
  }
}
