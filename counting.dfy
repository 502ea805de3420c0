/**
 * Frequency counting, count.py:62-75: a loop over the element list that
 * puts each new element into a dictionary with count 0 (`setdefault`) and
 * then increments its count. Python dictionaries remember the order in
 * which keys were first inserted, so the table keeps its keys in a sequence
 * beside the map of counts.
 */
module Counting {

  type Element = string

  /** One `(element, count)` pair of `dict.items()`. */
  type Item = (Element, nat)

  /** A dictionary from elements to counts, with its keys in insertion order. */
  datatype CountTable = CountTable(keys: seq<Element>, counts: map<Element, nat>)

  /** The number of occurrences of `e` in `s`. */
  function Count(s: seq<Element>, e: Element): (n: nat)
    ensures n <= |s|
    ensures n > 0 <==> e in s
  {
    if s == [] then 0
    else
      assert s == s[..|s| - 1] + [s[|s| - 1]];
      Count(s[..|s| - 1], e) + (if s[|s| - 1] == e then 1 else 0)
  }

  /** The distinct elements of `s`, each once, in the order they first occur. */
  function Distinct(s: seq<Element>): (d: seq<Element>)
    ensures forall e :: e in d <==> e in s
    ensures forall i, j :: 0 <= i < j < |d| ==> d[i] != d[j]
  {
    if s == [] then []
    else
      assert s == s[..|s| - 1] + [s[|s| - 1]];
      var d := Distinct(s[..|s| - 1]);
      if s[|s| - 1] in d then d else d + [s[|s| - 1]]
  }

  /** Each element of `s` with its number of occurrences. */
  function CountsOf(s: seq<Element>): map<Element, nat>
  {
    map e | e in s :: Count(s, e)
  }

  /** The table the counting loop is meant to build from `s`. */
  function Tally(s: seq<Element>): CountTable
  {
    CountTable(Distinct(s), CountsOf(s))
  }

  /** Every key of `t` has a count, as `dict.items()` needs. */
  predicate KeysCounted(t: CountTable)
  {
    forall i :: 0 <= i < |t.keys| ==> t.keys[i] in t.counts
  }

  /** `dict.items()`: the pairs in key insertion order. */
  function Items(t: CountTable): (r: seq<Item>)
    requires KeysCounted(t)
    ensures |r| == |t.keys|
    decreases |t.keys|
  {
    if t.keys == [] then []
    else [(t.keys[0], t.counts[t.keys[0]])] + Items(t.(keys := t.keys[1..]))
  }

  /** `dict.items()` lists each key with its count, in insertion order. */
  lemma {:induction false} ItemsAt(t: CountTable)
    requires KeysCounted(t)
    ensures |Items(t)| == |t.keys|
    ensures forall i :: 0 <= i < |t.keys| ==> Items(t)[i] == (t.keys[i], t.counts[t.keys[i]])
    decreases |t.keys|
  {
    if t.keys != [] {
      ItemsAt(t.(keys := t.keys[1..]));
    }
  }

  /** The sum of the counts of a sequence of pairs. */
  function Total(items: seq<Item>): nat
  {
    if items == [] then 0 else items[0].1 + Total(items[1..])
  }

  /** The counting loop of count.py:70-73. */
  method BuildCounts(elements: seq<Element>) returns (dct: CountTable)
    ensures dct == Tally(elements)
  {
    dct := CountTable([], map[]);
    for i := 0 to |elements|
      invariant dct == Tally(elements[..i])
    {
      var element := elements[i];
      assert elements[..i + 1] == elements[..i] + [element];
      TallySnoc(elements[..i], element);
      ghost var before := dct;
      if element !in dct.counts {
        dct := CountTable(dct.keys + [element], dct.counts[element := 0]);
      }
      dct := dct.(counts := dct.counts[element := dct.counts[element] + 1]);
      assert element !in before.counts ==> dct.counts == before.counts[element := 1];
    }
    assert elements[..|elements|] == elements;
  }

  /**
   * Counting one more element `x`: a new key is appended with count 1, a
   * known key has its count incremented.
   */
  lemma TallySnoc(s: seq<Element>, x: Element)
    ensures var t := Tally(s);
      Tally(s + [x]) ==
        if x in t.counts then CountTable(t.keys, t.counts[x := t.counts[x] + 1])
        else CountTable(t.keys + [x], t.counts[x := 1])
  {
    DistinctSnoc(s, x);
    CountsOfSnoc(s, x);
  }

  lemma CountsOfSnoc(s: seq<Element>, x: Element)
    ensures var m := CountsOf(s);
      CountsOf(s + [x]) == m[x := (if x in m then m[x] else 0) + 1]
  {
    var m := CountsOf(s);
    var u := CountsOf(s + [x]);
    var m' := m[x := (if x in m then m[x] else 0) + 1];
    CountsOfSnocKeys(s, x);
    forall e | e in u ensures u[e] == m'[e] {
      CountSnoc(s, x, e);
    }
  }

  lemma CountsOfSnocKeys(s: seq<Element>, x: Element)
    ensures CountsOf(s + [x]).Keys == CountsOf(s).Keys + {x}
  {
    forall e ensures e in s + [x] <==> e in s || e == x {
      assert e in s + [x] <==> e in multiset(s + [x]);
      assert multiset(s + [x]) == multiset(s) + multiset{x};
    }
  }

  lemma CountSnoc(s: seq<Element>, x: Element, e: Element)
    ensures Count(s + [x], e) == Count(s, e) + if x == e then 1 else 0
  {
    assert (s + [x])[..|s|] == s;
  }

  /** How one more element changes the distinct list. */
  lemma DistinctSnoc(s: seq<Element>, x: Element)
    ensures Distinct(s + [x]) == if x in Distinct(s) then Distinct(s) else Distinct(s) + [x]
  {
    assert (s + [x])[..|s|] == s;
  }

  /** Counting agrees with the multiset of the elements. */
  lemma {:induction false} CountIsMultiplicity(s: seq<Element>, e: Element)
    ensures Count(s, e) == multiset(s)[e]
  {
    if s != [] {
      CountIsMultiplicity(s[..|s| - 1], e);
      assert s == s[..|s| - 1] + [s[|s| - 1]];
      assert multiset(s) == multiset(s[..|s| - 1]) + multiset{s[|s| - 1]};
    }
  }

  /**
   * The table's keys are exactly the distinct elements, each once, and each
   * maps to its number of occurrences, which is at least 1.
   */
  lemma TallyKeysAndCounts(s: seq<Element>)
    ensures KeysCounted(Tally(s))
    ensures forall e :: e in Tally(s).counts <==> e in s
    ensures forall e :: e in Tally(s).keys <==> e in s
    ensures forall i, j :: 0 <= i < j < |Tally(s).keys| ==> Tally(s).keys[i] != Tally(s).keys[j]
    ensures forall e :: e in s ==> Tally(s).counts[e] == multiset(s)[e] >= 1
  {
    forall e | e in s ensures Tally(s).counts[e] == multiset(s)[e] {
      CountIsMultiplicity(s, e);
    }
  }

  /** Counting a rearrangement of the elements gives the same counts. */
  lemma TallyOrderIndependent(a: seq<Element>, b: seq<Element>)
    requires multiset(a) == multiset(b)
    ensures Tally(a).counts == Tally(b).counts
    ensures forall e :: e in Tally(a).keys <==> e in Tally(b).keys
  {
    forall e ensures e in a <==> e in b {
      assert e in a <==> e in multiset(a);
      assert e in b <==> e in multiset(b);
    }
    forall e | e in a ensures Count(a, e) == Count(b, e) {
      CountIsMultiplicity(a, e);
      CountIsMultiplicity(b, e);
    }
  }

  /** The position of the first occurrence of `e` in `s`: `s.index(e)`. */
  function IndexOf(s: seq<Element>, e: Element): (k: nat)
    requires e in s
    ensures k < |s| && s[k] == e
    ensures forall j :: 0 <= j < k ==> s[j] != e
  {
    if s[0] == e then 0 else 1 + IndexOf(s[1..], e)
  }

  lemma {:induction false} IndexOfSnoc(s: seq<Element>, x: Element, e: Element)
    requires e in s + [x]
    ensures e in s ==> IndexOf(s + [x], e) == IndexOf(s, e)
    ensures e !in s ==> IndexOf(s + [x], e) == |s|
  {
    var k := IndexOf(s + [x], e);
    if e in s {
      var k' := IndexOf(s, e);
      assert (s + [x])[k'] == e;
    } else {
      assert forall j :: 0 <= j < |s| ==> (s + [x])[j] != e;
    }
  }

  /** The keys come in the order of the elements' first occurrences. */
  lemma {:induction false} DistinctFirstOccurrenceOrder(s: seq<Element>)
    ensures forall i, j :: 0 <= i < j < |Distinct(s)| ==>
      IndexOf(s, Distinct(s)[i]) < IndexOf(s, Distinct(s)[j])
  {
    if s != [] {
      var p, x := s[..|s| - 1], s[|s| - 1];
      assert s == p + [x];
      DistinctFirstOccurrenceOrder(p);
      var d, dp := Distinct(s), Distinct(p);
      DistinctSnoc(p, x);
      forall i, j | 0 <= i < j < |d| ensures IndexOf(s, d[i]) < IndexOf(s, d[j]) {
        assert d[i] == dp[i] && d[i] in p;
        IndexOfSnoc(p, x, d[i]);
        IndexOfSnoc(p, x, d[j]);
        if j < |dp| {
          assert d[j] == dp[j] && d[j] in p;
          assert IndexOf(p, dp[i]) < IndexOf(p, dp[j]);
        } else {
          assert d[j] == x && x !in p;
          assert IndexOf(p, d[i]) < |p|;
        }
      }
    }
  }

  /** A sequence without repetitions has as many members as positions. */
  lemma {:induction false} DistinctCardinality(d: seq<Element>)
    requires forall i, j :: 0 <= i < j < |d| ==> d[i] != d[j]
    ensures |set e | e in d| == |d|
  {
    if d != [] {
      DistinctCardinality(d[1..]);
      assert (set e | e in d) == {d[0]} + (set e | e in d[1..]);
      assert d[0] !in d[1..];
    }
  }

  /** The sum of the counts in `s` of the elements listed in `keys`. */
  function SumCounts(keys: seq<Element>, s: seq<Element>): nat
  {
    if keys == [] then 0 else Count(s, keys[0]) + SumCounts(keys[1..], s)
  }

  lemma {:induction false} SumCountsSnoc(keys: seq<Element>, s: seq<Element>, x: Element)
    requires forall i, j :: 0 <= i < j < |keys| ==> keys[i] != keys[j]
    ensures SumCounts(keys, s + [x]) == SumCounts(keys, s) + (if x in keys then 1 else 0)
  {
    if keys != [] {
      SumCountsSnoc(keys[1..], s, x);
      assert (s + [x])[..|s|] == s;
      assert x in keys <==> x == keys[0] || x in keys[1..];
    }
  }

  lemma {:induction false} SumCountsAppend(keys: seq<Element>, y: Element, s: seq<Element>)
    ensures SumCounts(keys + [y], s) == SumCounts(keys, s) + Count(s, y)
  {
    if keys != [] {
      assert (keys + [y])[1..] == keys[1..] + [y];
      SumCountsAppend(keys[1..], y, s);
    } else {
      assert [y][1..] == [];
    }
  }

  lemma {:induction false} SumCountsDistinct(s: seq<Element>)
    ensures SumCounts(Distinct(s), s) == |s|
  {
    if s != [] {
      var p, x := s[..|s| - 1], s[|s| - 1];
      assert s == p + [x];
      SumCountsDistinct(p);
      var d := Distinct(p);
      SumCountsSnoc(d, p, x);
      if x !in d {
        SumCountsAppend(d, x, s);
        assert Count(p, x) == 0;
      }
    }
  }

  lemma {:induction false} TotalItemsOfTally(t: CountTable, s: seq<Element>)
    requires KeysCounted(t)
    requires forall i :: 0 <= i < |t.keys| ==> t.counts[t.keys[i]] == Count(s, t.keys[i])
    ensures Total(Items(t)) == SumCounts(t.keys, s)
    decreases |t.keys|
  {
    if t.keys != [] {
      TotalItemsOfTally(t.(keys := t.keys[1..]), s);
    }
  }

  /** The counts of the table add up to the number of elements counted. */
  lemma TallyTotal(s: seq<Element>)
    ensures KeysCounted(Tally(s))
    ensures Total(Items(Tally(s))) == |s|
  {
    TotalItemsOfTally(Tally(s), s);
    SumCountsDistinct(s);
  }
}
