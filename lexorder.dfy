/**
 * Python's ordering of strings and of lists of strings, and `sorted` on the
 * rows of a CSV file (count.py:56). Python compares two sequences at the
 * first position where they differ; when one is a prefix of the other, the
 * shorter comes first. Strings compare character by character on code points.
 */
module LexOrder {

  /** `less` is irreflexive, transitive and relates any two different values. */
  ghost predicate StrictTotalOrder<T(!new)>(less: (T, T) -> bool)
  {
    && (forall x :: !less(x, x))
    && (forall x, y, z :: less(x, y) && less(y, z) ==> less(x, z))
    && (forall x, y :: x != y ==> less(x, y) || less(y, x))
  }

  /** `a < b` for Python sequences whose items are ordered by `less`. */
  predicate LexLess<T(==)>(a: seq<T>, b: seq<T>, less: (T, T) -> bool)
  {
    if a == [] then b != []
    else if b == [] then false
    else if a[0] != b[0] then less(a[0], b[0])
    else LexLess(a[1..], b[1..], less)
  }

  lemma {:induction false} LexIrreflexive<T>(a: seq<T>, less: (T, T) -> bool)
    ensures !LexLess(a, a, less)
  {
    if a != [] {
      LexIrreflexive(a[1..], less);
    }
  }

  lemma {:induction false} LexTransitive<T(!new)>(a: seq<T>, b: seq<T>, c: seq<T>, less: (T, T) -> bool)
    requires StrictTotalOrder(less)
    requires LexLess(a, b, less) && LexLess(b, c, less)
    ensures LexLess(a, c, less)
  {
    if a != [] && b != [] && c != [] && a[0] == b[0] && b[0] == c[0] {
      LexTransitive(a[1..], b[1..], c[1..], less);
    }
  }

  lemma {:induction false} LexTrichotomous<T(!new)>(a: seq<T>, b: seq<T>, less: (T, T) -> bool)
    requires StrictTotalOrder(less)
    requires a != b
    ensures LexLess(a, b, less) || LexLess(b, a, less)
  {
    if a != [] && b != [] && a[0] == b[0] {
      assert a == [a[0]] + a[1..] && b == [b[0]] + b[1..];
      LexTrichotomous(a[1..], b[1..], less);
    }
  }

  /** Lexicographic order on sequences inherits a strict total order from their items. */
  lemma LexStrictTotalOrder<T(!new)>(less: (T, T) -> bool)
    requires StrictTotalOrder(less)
    ensures StrictTotalOrder((a: seq<T>, b: seq<T>) => LexLess(a, b, less))
  {
    forall a: seq<T> ensures !LexLess(a, a, less) {
      LexIrreflexive(a, less);
    }
    forall a: seq<T>, b: seq<T>, c: seq<T> | LexLess(a, b, less) && LexLess(b, c, less)
      ensures LexLess(a, c, less)
    {
      LexTransitive(a, b, c, less);
    }
    forall a: seq<T>, b: seq<T> | a != b ensures LexLess(a, b, less) || LexLess(b, a, less) {
      LexTrichotomous(a, b, less);
    }
  }

  predicate CharLess(x: char, y: char)
  {
    x < y
  }

  /** `a < b` on Python strings. */
  predicate StrLess(a: string, b: string)
  {
    LexLess(a, b, CharLess)
  }

  /** `a < b` on the lists of fields the CSV reader yields. */
  predicate RowLess(a: seq<string>, b: seq<string>)
  {
    LexLess(a, b, StrLess)
  }

  /** Python's string comparison is the lexicographic order on code points. */
  lemma StrLessStrictTotalOrder()
    ensures StrictTotalOrder(StrLess)
  {
    assert StrictTotalOrder(CharLess);
    LexStrictTotalOrder(CharLess);
    var lex := (a: string, b: string) => LexLess(a, b, CharLess);
    assert forall a, b :: StrLess(a, b) == lex(a, b);
  }

  lemma RowLessTransitive(a: seq<string>, b: seq<string>, c: seq<string>)
    requires RowLess(a, b) && RowLess(b, c)
    ensures RowLess(a, c)
  {
    StrLessStrictTotalOrder();
    LexTransitive(a, b, c, StrLess);
  }

  lemma RowLessTotal(a: seq<string>, b: seq<string>)
    ensures a == b <==> !RowLess(a, b) && !RowLess(b, a)
  {
    StrLessStrictTotalOrder();
    LexIrreflexive(a, StrLess);
    if a != b {
      LexTrichotomous(a, b, StrLess);
    }
  }

  /** No row comes before an earlier one. */
  ghost predicate RowsSorted(rows: seq<seq<string>>)
  {
    forall i, j :: 0 <= i < j < |rows| ==> !RowLess(rows[j], rows[i])
  }

  /** Puts `row` into sorted `rows` just before the first row greater than it. */
  function InsertRow(row: seq<string>, rows: seq<seq<string>>): (r: seq<seq<string>>)
    ensures multiset(r) == multiset(rows) + multiset{row}
  {
    if rows == [] then [row]
    else if RowLess(row, rows[0]) then [row] + rows
    else
      assert rows == [rows[0]] + rows[1..];
      [rows[0]] + InsertRow(row, rows[1..])
  }

  lemma {:induction false} InsertRowSorted(row: seq<string>, rows: seq<seq<string>>)
    requires RowsSorted(rows)
    ensures RowsSorted(InsertRow(row, rows))
  {
    var r := InsertRow(row, rows);
    if rows == [] {
    } else if RowLess(row, rows[0]) {
      forall j | 0 < j < |r| ensures !RowLess(r[j], row) {
        if RowLess(r[j], row) {
          RowLessTransitive(r[j], row, rows[0]);
          RowLessTotal(r[j], rows[0]);
          assert false;
        }
      }
    } else {
      InsertRowSorted(row, rows[1..]);
      var tail := InsertRow(row, rows[1..]);
      forall j | 0 <= j < |tail| ensures !RowLess(tail[j], rows[0]) {
        assert tail[j] in multiset(tail);
        assert tail[j] == row || tail[j] in multiset(rows[1..]);
        if tail[j] != row {
          var k :| 0 <= k < |rows[1..]| && rows[1..][k] == tail[j];
          assert rows[k + 1] == tail[j];
        }
      }
    }
  }

  /**
   * `sorted(rows)`: the rows in ascending order. Since the order is total, the
   * result does not depend on the sorting algorithm (see SortedUnique).
   */
  function SortRows(rows: seq<seq<string>>): (r: seq<seq<string>>)
    ensures multiset(r) == multiset(rows)
    ensures RowsSorted(r)
  {
    if rows == [] then []
    else
      var rest := SortRows(rows[1..]);
      InsertRowSorted(rows[0], rest);
      assert rows == [rows[0]] + rows[1..];
      InsertRow(rows[0], rest)
  }

  lemma SortedSameFirst(a: seq<seq<string>>, b: seq<seq<string>>)
    requires RowsSorted(a) && RowsSorted(b)
    requires multiset(a) == multiset(b)
    requires a != []
    ensures b != [] && a[0] == b[0]
  {
    assert a[0] in multiset(b);
    assert b[0] in multiset(a);
    var k :| 0 <= k < |b| && b[k] == a[0];
    var m :| 0 <= m < |a| && a[m] == b[0];
    assert k > 0 ==> !RowLess(b[k], b[0]);
    assert m > 0 ==> !RowLess(a[m], a[0]);
    RowLessTotal(a[0], b[0]);
  }

  /** Two sorted arrangements of the same rows are the same sequence. */
  lemma {:induction false} SortedUnique(a: seq<seq<string>>, b: seq<seq<string>>)
    requires RowsSorted(a) && RowsSorted(b)
    requires multiset(a) == multiset(b)
    ensures a == b
  {
    if a == [] {
      assert |multiset(b)| == 0;
    } else {
      SortedSameFirst(a, b);
      MultisetTail(a);
      MultisetTail(b);
      RowsSortedTail(a);
      RowsSortedTail(b);
      SortedUnique(a[1..], b[1..]);
      assert a == [a[0]] + a[1..] && b == [b[0]] + b[1..];
    }
  }

  lemma MultisetTail<T>(a: seq<T>)
    requires a != []
    ensures multiset(a[1..]) == multiset(a) - multiset{a[0]}
  {
    assert a == [a[0]] + a[1..];
  }

  lemma RowsSortedTail(a: seq<seq<string>>)
    requires a != [] && RowsSorted(a)
    ensures RowsSorted(a[1..])
  {
  }
}
