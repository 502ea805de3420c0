/**
 * The two file-name transformations of count.py: the renaming of every
 * non-hidden file in the working directory (spaces to underscores, then
 * lower case) and the name of the report written for an input file.
 */
module FileNames {
  import opened Text
  import opened Sequences

  /** `name.startswith(".")`. */
  predicate IsHidden(name: string)
  {
    |name| > 0 && name[0] == '.'
  }

  /**
   * The name a directory entry has once the renaming step is done: a hidden
   * name is left alone, any other becomes `name.replace(" ", "_").lower()`.
   */
  function NormalizedName(name: string): (r: string)
    ensures IsHidden(name) ==> r == name
    ensures !IsHidden(name) ==> |r| == |name| && !IsHidden(r)
    ensures !IsHidden(name) ==> forall i :: 0 <= i < |r| ==> r[i] != ' ' && !IsUpper(r[i])
    ensures forall i :: 0 <= i < |name| && name[i] != ' ' && !IsUpper(name[i]) ==> r[i] == name[i]
    ensures !IsHidden(name) ==>
      forall i :: 0 <= i < |name| ==> r[i] == (if name[i] == ' ' then '_' else LowerChar(name[i]))
  {
    if IsHidden(name) then name else Lower(ReplaceChar(name, ' ', '_'))
  }

  /** Renaming an already renamed directory changes nothing. */
  lemma NormalizedNameIdempotent(name: string)
    ensures NormalizedName(NormalizedName(name)) == NormalizedName(name)
  {
    var r := NormalizedName(name);
    if !IsHidden(name) {
      var r2 := NormalizedName(r);
      assert |r2| == |r|;
      assert forall i :: 0 <= i < |r| ==> r2[i] == r[i];
    }
  }

  /** The entries of `listing` that do not start with `.`, in listing order. */
  function NonHidden(listing: seq<string>): (kept: seq<string>)
    ensures |kept| <= |listing|
    ensures forall i :: 0 <= i < |kept| ==> !IsHidden(kept[i])
  {
    if listing == [] then []
    else if IsHidden(listing[0]) then NonHidden(listing[1..])
    else [listing[0]] + NonHidden(listing[1..])
  }

  /** Each non-hidden entry is kept as often as it is listed; hidden ones are dropped. */
  lemma {:induction false} NonHiddenCount(listing: seq<string>)
    ensures forall n :: multiset(NonHidden(listing))[n] == if IsHidden(n) then 0 else multiset(listing)[n]
  {
    if listing != [] {
      assert listing == [listing[0]] + listing[1..];
      NonHiddenCount(listing[1..]);
    }
  }

  /** Filtering a listing in two parts keeps the order of the parts. */
  lemma {:induction false} NonHiddenAppend(a: seq<string>, b: seq<string>)
    ensures NonHidden(a + b) == NonHidden(a) + NonHidden(b)
  {
    if a == [] {
      assert a + b == b;
    } else {
      assert (a + b)[0] == a[0];
      assert (a + b)[1..] == a[1..] + b;
      NonHiddenAppend(a[1..], b);
    }
  }

  /**
   * The `os.rename(old, new)` calls the renaming step makes, in directory
   * order: one for each non-hidden entry, to its normalized name.
   */
  function RenamePlan(listing: seq<string>): (plan: seq<(string, string)>)
    ensures |plan| == |NonHidden(listing)|
    ensures forall k :: 0 <= k < |plan| ==>
      plan[k].0 == NonHidden(listing)[k] && plan[k].1 == NormalizedName(plan[k].0)
    ensures forall k :: 0 <= k < |plan| ==> plan[k].0 in listing && !IsHidden(plan[k].0)
    ensures forall n :: n in listing && !IsHidden(n) ==> (n, NormalizedName(n)) in plan
  {
    var plan :=
      if listing == [] then []
      else
        var rest := RenamePlan(listing[1..]);
        if IsHidden(listing[0]) then rest
        else [(listing[0], NormalizedName(listing[0]))] + rest;
    PlanMembers(listing, plan);
    plan
  }

  /** A plan that renames the non-hidden entries in order covers exactly them. */
  lemma PlanMembers(listing: seq<string>, plan: seq<(string, string)>)
    requires |plan| == |NonHidden(listing)|
    requires forall k :: 0 <= k < |plan| ==>
      plan[k].0 == NonHidden(listing)[k] && plan[k].1 == NormalizedName(plan[k].0)
    ensures forall k :: 0 <= k < |plan| ==> plan[k].0 in listing && !IsHidden(plan[k].0)
    ensures forall n :: n in listing && !IsHidden(n) ==> (n, NormalizedName(n)) in plan
  {
    var kept := NonHidden(listing);
    NonHiddenCount(listing);
    forall k | 0 <= k < |plan| ensures plan[k].0 in listing && !IsHidden(plan[k].0) {
      assert multiset(kept)[kept[k]] > 0;
    }
    forall n | n in listing && !IsHidden(n) ensures (n, NormalizedName(n)) in plan {
      assert multiset(listing)[n] > 0;
      assert n in multiset(kept);
      var k :| 0 <= k < |kept| && kept[k] == n;
      assert plan[k] == (n, NormalizedName(n));
    }
  }

  /** Renaming a listing in two parts makes the renames of each part, in order. */
  lemma {:induction false} RenamePlanAppend(a: seq<string>, b: seq<string>)
    ensures RenamePlan(a + b) == RenamePlan(a) + RenamePlan(b)
  {
    if a == [] {
      assert a + b == b;
    } else {
      assert (a + b)[0] == a[0];
      assert (a + b)[1..] == a[1..] + b;
      RenamePlanAppend(a[1..], b);
      if !IsHidden(a[0]) {
        var p := (a[0], NormalizedName(a[0]));
        AppendAssoc([p], RenamePlan(a[1..]), RenamePlan(b));
      }
    }
  }

  const ReportSuffix: string := "_report.csv"

  /**
   * `filename.split(".")[0] + "_report.csv"`: the text before the first dot
   * (all of the name when it has none) followed by the report suffix.
   */
  function ReportName(filename: string): (r: string)
    ensures |r| >= |ReportSuffix| && r[|r| - |ReportSuffix|..] == ReportSuffix
    ensures var stem := r[..|r| - |ReportSuffix|];
      && |stem| <= |filename|
      && stem == filename[..|stem|]
      && '.' !in stem
      && ('.' !in filename ==> stem == filename)
      && ('.' in filename ==> filename[|stem|] == '.')
  {
    SplitFirstPiece(filename, '.');
    var stem := Split(filename, '.')[0];
    assert (stem + ReportSuffix)[..|stem|] == stem;
    stem + ReportSuffix
  }
}
