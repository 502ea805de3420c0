/**
 * The report of one input file, count.py:87-111: the `(element, count)`
 * pairs of the table sorted by descending count with Python's stable
 * `sorted(..., key=lambda x: x[1], reverse=True)`, written as a header row
 * `[header, "count"]` followed by one row per pair.
 */
module Report {
  import opened Wrappers
  import opened Text
  import opened Counting
  import opened Sequences

  /** No pair has a larger count than a pair before it. */
  ghost predicate NonIncreasing(items: seq<Item>)
  {
    forall i, j :: 0 <= i < j < |items| ==> items[i].1 >= items[j].1
  }

  /** The pairs whose count is `c`, in their original order. */
  function WithCount(items: seq<Item>, c: nat): seq<Item>
  {
    if items == [] then []
    else (if items[0].1 == c then [items[0]] else []) + WithCount(items[1..], c)
  }

  lemma {:induction false} WithCountNone(items: seq<Item>, c: nat)
    requires forall i :: 0 <= i < |items| ==> items[i].1 != c
    ensures WithCount(items, c) == []
  {
    if items != [] {
      WithCountNone(items[1..], c);
    }
  }

  lemma {:induction false} WithCountAppend(a: seq<Item>, b: seq<Item>, c: nat)
    ensures WithCount(a + b, c) == WithCount(a, c) + WithCount(b, c)
  {
    if a == [] {
      assert a + b == b;
    } else {
      var head := if a[0].1 == c then [a[0]] else [];
      assert (a + b)[0] == a[0];
      assert (a + b)[1..] == a[1..] + b;
      assert WithCount(a + b, c) == head + WithCount(a[1..] + b, c);
      WithCountAppend(a[1..], b, c);
      assert WithCount(a, c) == head + WithCount(a[1..], c);
      AppendAssoc(head, WithCount(a[1..], c), WithCount(b, c));
    }
  }

  lemma {:induction false} TotalAppend(a: seq<Item>, b: seq<Item>)
    ensures Total(a + b) == Total(a) + Total(b)
  {
    if a == [] {
      assert a + b == b;
    } else {
      assert (a + b)[1..] == a[1..] + b;
      TotalAppend(a[1..], b);
    }
  }

  /**
   * Inserts `x` into pairs already in descending order of count, after every
   * pair whose count is at least that of `x`.
   */
  function InsertByCount(x: Item, s: seq<Item>): (r: seq<Item>)
    ensures multiset(r) == multiset(s) + multiset{x}
    ensures Total(r) == Total(s) + x.1
  {
    if s == [] || s[0].1 < x.1 then [x] + s
    else
      assert s == [s[0]] + s[1..];
      [s[0]] + InsertByCount(x, s[1..])
  }

  lemma {:induction false} InsertByCountOrdered(x: Item, s: seq<Item>)
    requires NonIncreasing(s)
    ensures NonIncreasing(InsertByCount(x, s))
  {
    if s != [] && s[0].1 >= x.1 {
      InsertByCountOrdered(x, s[1..]);
      var tail := InsertByCount(x, s[1..]);
      forall j | 0 <= j < |tail| ensures s[0].1 >= tail[j].1 {
        assert tail[j] in multiset(tail);
      }
    }
  }

  /** A pair with a count above every count in `s` is alone with that count. */
  lemma WithCountAbove(x: Item, s: seq<Item>, c: nat)
    requires NonIncreasing(s)
    requires s == [] || s[0].1 < x.1
    ensures WithCount([x] + s, c) == WithCount(s, c) + WithCount([x], c)
  {
    assert ([x] + s)[1..] == s;
    if x.1 == c {
      WithCountNone(s, c);
    }
  }

  lemma WithCountCons(y: Item, t: seq<Item>, c: nat)
    ensures WithCount([y] + t, c) == (if y.1 == c then [y] else []) + WithCount(t, c)
  {
    assert ([y] + t)[1..] == t;
  }

  lemma NonIncreasingTail(s: seq<Item>)
    requires s != [] && NonIncreasing(s)
    ensures NonIncreasing(s[1..])
  {
  }

  lemma {:induction false} InsertByCountStable(x: Item, s: seq<Item>, c: nat)
    requires NonIncreasing(s)
    ensures WithCount(InsertByCount(x, s), c) == WithCount(s, c) + WithCount([x], c)
  {
    if s == [] || s[0].1 < x.1 {
      WithCountAbove(x, s, c);
    } else {
      NonIncreasingTail(s);
      InsertByCountStable(x, s[1..], c);
      InsertByCountStableStep(x, s, c);
    }
  }

  /** The inductive step of `InsertByCountStable`: `x` passes `s[0]`. */
  lemma InsertByCountStableStep(x: Item, s: seq<Item>, c: nat)
    requires s != [] && s[0].1 >= x.1
    requires WithCount(InsertByCount(x, s[1..]), c) == WithCount(s[1..], c) + WithCount([x], c)
    ensures WithCount(InsertByCount(x, s), c) == WithCount(s, c) + WithCount([x], c)
  {
    var tail := InsertByCount(x, s[1..]);
    var head := if s[0].1 == c then [s[0]] else [];
    var r := InsertByCount(x, s);
    assert r == [s[0]] + tail;
    WithCountCons(s[0], tail, c);
    calc {
      WithCount(r, c);
      head + WithCount(tail, c);
      head + (WithCount(s[1..], c) + WithCount([x], c));
      { AppendAssoc(head, WithCount(s[1..], c), WithCount([x], c)); }
      (head + WithCount(s[1..], c)) + WithCount([x], c);
      WithCount(s, c) + WithCount([x], c);
    }
  }

  /**
   * `sorted(items, key=count, reverse=True)`: descending by count, and
   * stable, so pairs of equal count keep their order in `items`.
   */
  function SortByCountDesc(items: seq<Item>): (r: seq<Item>)
    ensures multiset(r) == multiset(items)
    ensures NonIncreasing(r)
    ensures forall c :: WithCount(r, c) == WithCount(items, c)
    ensures Total(r) == Total(items)
  {
    if items == [] then []
    else
      var p, x := items[..|items| - 1], items[|items| - 1];
      assert items == p + [x];
      var rest := SortByCountDesc(p);
      InsertByCountOrdered(x, rest);
      TotalAppend(p, [x]);
      assert forall c :: WithCount(InsertByCount(x, rest), c) == WithCount(items, c) by {
        forall c ensures WithCount(InsertByCount(x, rest), c) == WithCount(items, c) {
          InsertByCountStable(x, rest, c);
          WithCountAppend(p, [x], c);
        }
      }
      InsertByCount(x, rest)
  }

  lemma {:induction false} WithCountTail(s: seq<Item>, c: nat)
    requires s != []
    ensures WithCount(s[1..], c) == if s[0].1 == c then WithCount(s, c)[1..] else WithCount(s, c)
  {
  }

  lemma {:induction false} WithCountHas(items: seq<Item>, k: nat)
    requires k < |items|
    ensures items[k] in WithCount(items, items[k].1)
  {
    if k > 0 {
      WithCountHas(items[1..], k - 1);
    }
  }

  lemma {:induction false} WithCountIn(items: seq<Item>, c: nat, p: Item)
    requires p in WithCount(items, c)
    ensures p in items && p.1 == c
  {
    if items != [] && !(items[0].1 == c && p == items[0]) {
      WithCountIn(items[1..], c, p);
    }
  }

  /** A pair of `a` with the count of `a`'s first pair occurs in `b`, so `b` starts no lower. */
  lemma FirstCountBound(a: seq<Item>, b: seq<Item>)
    requires NonIncreasing(b)
    requires forall c :: WithCount(a, c) == WithCount(b, c)
    requires a != []
    ensures b != [] && b[0].1 >= a[0].1
  {
    WithCountHas(a, 0);
    assert a[0] in WithCount(b, a[0].1);
    WithCountIn(b, a[0].1, a[0]);
    var k :| 0 <= k < |b| && b[k] == a[0];
    assert b[0].1 >= b[k].1;
  }

  /** Two such arrangements of the same pairs start with the same pair. */
  lemma SameFirst(a: seq<Item>, b: seq<Item>)
    requires NonIncreasing(a) && NonIncreasing(b)
    requires forall c :: WithCount(a, c) == WithCount(b, c)
    requires a != []
    ensures b != [] && a[0] == b[0]
  {
    FirstCountBound(a, b);
    FirstCountBound(b, a);
    var m := a[0].1;
    assert WithCount(a, m)[0] == a[0];
    assert WithCount(b, m)[0] == b[0];
  }

  /**
   * The descending order with stable ties is unique: any two arrangements in
   * non-increasing order whose pairs of each count come in the same order
   * are equal. So SortByCountDesc is what Python's sort returns.
   */
  lemma {:induction false} StableDescendingUnique(a: seq<Item>, b: seq<Item>)
    requires NonIncreasing(a) && NonIncreasing(b)
    requires forall c :: WithCount(a, c) == WithCount(b, c)
    ensures a == b
  {
    if a == [] {
      if b != [] {
        SameFirst(b, a);
      }
    } else {
      SameFirst(a, b);
      forall c ensures WithCount(a[1..], c) == WithCount(b[1..], c) {
        WithCountTail(a, c);
        WithCountTail(b, c);
      }
      StableDescendingUnique(a[1..], b[1..]);
      assert a == [a[0]] + a[1..] && b == [b[0]] + b[1..];
    }
  }

  /** The CSV row written for one pair. */
  function PairRow(item: Item): (r: seq<string>)
    ensures |r| == 2 && r[0] == item.0
    ensures ParseNat(r[1]) == Some(item.1)
  {
    ParseNatToString(item.1);
    [item.0, NatToString(item.1)]
  }

  /** The rows of the report: the header row, then one row per pair in order. */
  function ReportRows(header: string, ordered: seq<Item>): (r: seq<seq<string>>)
    ensures |r| == 1 + |ordered|
    ensures r[0] == [header, "count"]
  {
    if ordered == [] then [[header, "count"]]
    else ReportRows(header, ordered[..|ordered| - 1]) + [PairRow(ordered[|ordered| - 1])]
  }

  /** The report-writing loop of count.py:107-111. */
  method WriteReport(header: string, elementCounts: CountTable) returns (rows: seq<seq<string>>)
    requires KeysCounted(elementCounts)
    ensures rows == ReportRows(header, SortByCountDesc(Items(elementCounts)))
  {
    rows := [[header, "count"]];
    var ordered := SortByCountDesc(Items(elementCounts));
    for i := 0 to |ordered|
      invariant rows == ReportRows(header, ordered[..i])
    {
      ReportRowsSnoc(header, ordered, i);
      rows := rows + [PairRow(ordered[i])];
    }
    assert ordered[..|ordered|] == ordered;
  }

  lemma ReportRowsSnoc(header: string, ordered: seq<Item>, i: nat)
    requires i < |ordered|
    ensures ReportRows(header, ordered[..i + 1]) == ReportRows(header, ordered[..i]) + [PairRow(ordered[i])]
  {
    assert ordered[..i + 1][..i] == ordered[..i];
  }

  /** Reads the pair rows of a report back: each row is an element and a count. */
  function ParsePairRows(rows: seq<seq<string>>): Option<seq<Item>>
  {
    if rows == [] then Some([])
    else
      var last := rows[|rows| - 1];
      match ParsePairRows(rows[..|rows| - 1])
      case None => None
      case Some(items) =>
        if |last| != 2 then None
        else
          match ParseNat(last[1])
          case None => None
          case Some(n) => Some(items + [(last[0], n)])
  }

  /** Reads a report back: a header row ending in "count", then the pair rows. */
  function ParseReport(rows: seq<seq<string>>): Option<(string, seq<Item>)>
  {
    if rows == [] || |rows[0]| != 2 || rows[0][1] != "count" then None
    else
      match ParsePairRows(rows[1..])
      case None => None
      case Some(items) => Some((rows[0][0], items))
  }

  lemma {:induction false} ReportRowsShape(header: string, ordered: seq<Item>)
    ensures |ReportRows(header, ordered)| == 1 + |ordered|
    ensures ReportRows(header, ordered)[0] == [header, "count"]
    ensures ReportRows(header, ordered)[1..] == seq(|ordered|, i requires 0 <= i < |ordered| => PairRow(ordered[i]))
  {
    if ordered != [] {
      ReportRowsShape(header, ordered[..|ordered| - 1]);
    }
  }

  lemma {:induction false} ParsePairRowsOf(ordered: seq<Item>)
    ensures ParsePairRows(seq(|ordered|, i requires 0 <= i < |ordered| => PairRow(ordered[i]))) == Some(ordered)
  {
    var rows := seq(|ordered|, i requires 0 <= i < |ordered| => PairRow(ordered[i]));
    if ordered != [] {
      var p := ordered[..|ordered| - 1];
      ParsePairRowsOf(p);
      assert rows[..|rows| - 1] == seq(|p|, i requires 0 <= i < |p| => PairRow(p[i]));
      ParseNatToString(ordered[|ordered| - 1].1);
      assert ordered == p + [ordered[|ordered| - 1]];
    }
  }

  /**
   * Reading a written report gives back its header and exactly its pairs,
   * in the order they were written.
   */
  lemma ReportRoundTrip(header: string, ordered: seq<Item>)
    ensures ParseReport(ReportRows(header, ordered)) == Some((header, ordered))
  {
    ReportRowsShape(header, ordered);
    ParsePairRowsOf(ordered);
  }
}
