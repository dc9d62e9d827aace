/**
 * Population classes: how many classes the map uses, the colour palette
 * slice, the class breaks, and the colour given to one population value.
 * The Jenks natural-breaks fit is a library call; its breaks are an input.
 */
module Classes {
  import opened Wrappers

  /** The six-colour palette, lightest first. */
  const Palette: seq<string> := ["#ffffcc", "#ffeda0", "#fed976", "#feb24c", "#fd8d3c", "#fc4e2a"]

  /** The values the population column takes. */
  function Values(pops: seq<int>): set<int> {
    set p | p in pops
  }

  /** `nunique()` of the population column: no more distinct values than
      rows, and at least one when there is a row. */
  function Distinct(pops: seq<int>): (d: nat)
    ensures d <= |pops|
    ensures |pops| > 0 ==> d >= 1
  {
    ValuesAtMostRows(pops);
    assert |pops| > 0 ==> pops[0] in Values(pops);
    |Values(pops)|
  }

  lemma {:induction false} ValuesAtMostRows(pops: seq<int>)
    ensures |Values(pops)| <= |pops|
  {
    if |pops| > 0 {
      ValuesAtMostRows(pops[1..]);
      assert Values(pops) == Values(pops[1..]) + {pops[0]};
    }
  }

  /** A non-empty column has at least one distinct value, and exactly one
      when every row holds the same value. */
  lemma DistinctOne(pops: seq<int>)
    requires |pops| > 0
    ensures Distinct(pops) >= 1
    ensures Distinct(pops) == 1 <==> forall i :: 0 <= i < |pops| ==> pops[i] == pops[0]
  {
    var vals := Values(pops);
    assert pops[0] in vals;
    if forall i :: 0 <= i < |pops| ==> pops[i] == pops[0] {
      assert vals == {pops[0]};
    } else {
      var i :| 0 <= i < |pops| && pops[i] != pops[0];
      var others := vals - {pops[0]};
      assert pops[i] in others;
      assert |others| == |vals| - 1;
    }
  }

  /** `min(6, max(1, distinct))`. */
  function NClasses(distinct: nat): (n: nat)
    ensures 1 <= n <= 6
    ensures 1 <= distinct <= 6 ==> n == distinct
    ensures distinct == 0 ==> n == 1
    ensures distinct > 6 ==> n == 6
  {
    if distinct > 6 then 6 else if distinct < 1 then 1 else distinct
  }

  /** `palette[:n_classes]`. */
  function Colors(n: nat): (c: seq<string>)
    requires n <= 6
    ensures |c| == n
    ensures forall i :: 0 <= i < n ==> c[i] == Palette[i]
  {
    Palette[..n]
  }

  /** The smallest population. */
  function MinOf(pops: seq<int>): (m: int)
    requires |pops| > 0
    ensures m in pops
    ensures forall i :: 0 <= i < |pops| ==> m <= pops[i]
  {
    if |pops| == 1 then pops[0]
    else
      var rest := MinOf(pops[1..]);
      assert forall i :: 1 <= i < |pops| ==> pops[i] == pops[1..][i - 1];
      if pops[0] <= rest then pops[0] else rest
  }

  /** The largest population. */
  function MaxOf(pops: seq<int>): (m: int)
    requires |pops| > 0
    ensures m in pops
    ensures forall i :: 0 <= i < |pops| ==> pops[i] <= m
  {
    if |pops| == 1 then pops[0]
    else
      var rest := MaxOf(pops[1..]);
      assert forall i :: 1 <= i < |pops| ==> pops[i] == pops[1..][i - 1];
      if pops[0] >= rest then pops[0] else rest
  }

  datatype Classification = Classification(nClasses: nat, colors: seq<string>, bins: seq<int>)

  /** The classification step: no rows stops the script (None); otherwise
      the class count comes from the number of distinct values, several
      classes take the Jenks breaks and a single class takes [min, max]. */
  function Classify(pops: seq<int>, jenksBreaks: seq<int>): (r: Option<Classification>)
    ensures r.None? <==> |pops| == 0
    ensures r.Some? ==> 1 <= r.value.nClasses <= 6
    ensures r.Some? ==> r.value.nClasses == NClasses(Distinct(pops))
    ensures r.Some? ==> r.value.colors == Palette[..r.value.nClasses]
    ensures r.Some? && r.value.nClasses > 1 ==> r.value.bins == jenksBreaks
    ensures r.Some? && r.value.nClasses == 1 ==>
              |r.value.bins| == 2 && r.value.bins[0] <= r.value.bins[1]
              && r.value.bins[0] in pops && r.value.bins[1] in pops
              && forall i :: 0 <= i < |pops| ==> r.value.bins[0] <= pops[i] <= r.value.bins[1]
  {
    if |pops| == 0 then None
    else
      var n := NClasses(Distinct(pops));
      var bins := if n > 1 then jenksBreaks else [MinOf(pops), MaxOf(pops)];
      Some(Classification(n, Colors(n), bins))
  }

  /** The Jenks fit returns one break more than the classes it was asked
      for. */
  predicate JenksShaped(pops: seq<int>, jenksBreaks: seq<int>) {
    |jenksBreaks| == NClasses(Distinct(pops)) + 1
  }

  /** Both branches give one more break than colours, which is what the
      colour lookup and the legend rely on; a single class means every row
      holds the same value, and its two breaks are that value. */
  lemma ClassifyShape(pops: seq<int>, jenksBreaks: seq<int>)
    requires |pops| > 0
    requires NClasses(Distinct(pops)) > 1 ==> JenksShaped(pops, jenksBreaks)
    ensures Classify(pops, jenksBreaks).Some?
    ensures |Classify(pops, jenksBreaks).value.colors| >= 1
    ensures |Classify(pops, jenksBreaks).value.bins| == |Classify(pops, jenksBreaks).value.colors| + 1
    ensures Classify(pops, jenksBreaks).value.nClasses == 1 <==>
              forall i :: 0 <= i < |pops| ==> pops[i] == pops[0]
    ensures Classify(pops, jenksBreaks).value.nClasses == 1 ==>
              Classify(pops, jenksBreaks).value.bins == [pops[0], pops[0]]
  {
    DistinctOne(pops);
    var c := Classify(pops, jenksBreaks).value;
    if c.nClasses == 1 {
      assert c.bins[0] in pops && c.bins[1] in pops;
    }
  }

  // ---------------------------------------------------------------------
  // assign_color
  // ---------------------------------------------------------------------

  /** The value lies in the half-open interval [bins[i], bins[i+1]). */
  predicate InBucket(bins: seq<int>, i: nat, v: int)
    requires i + 1 < |bins|
  {
    bins[i] <= v < bins[i + 1]
  }

  /** The first bucket at or after `from` that holds v, or the last bucket. */
  function ScanFrom(bins: seq<int>, v: int, from: nat): (k: nat)
    requires 2 <= |bins| && from <= |bins| - 1
    ensures from <= k < |bins| - 1 || (from == |bins| - 1 && k == |bins| - 2)
    ensures k < |bins| - 1
    ensures forall j :: from <= j < k ==> !InBucket(bins, j, v)
    ensures InBucket(bins, k, v) || (k == |bins| - 2 && forall j :: from <= j < |bins| - 1 ==> !InBucket(bins, j, v))
    decreases |bins| - from
  {
    if from == |bins| - 1 then |bins| - 2
    else if InBucket(bins, from, v) then from
    else ScanFrom(bins, v, from + 1)
  }

  /** The index of the colour `assign_color` gives to v: the first bucket
      holding v, and the last colour when none does. */
  function ColorIndex(bins: seq<int>, v: int): (k: nat)
    requires |bins| >= 2
    ensures k < |bins| - 1
    ensures forall j :: 0 <= j < k ==> !InBucket(bins, j, v)
    ensures InBucket(bins, k, v) || (k == |bins| - 2 && forall j :: 0 <= j < |bins| - 1 ==> !InBucket(bins, j, v))
  {
    ScanFrom(bins, v, 0)
  }

  /** `assign_color`: the colour of the first half-open interval that holds
      the value, else the last colour. */
  method AssignColor(bins: seq<int>, colors: seq<string>, value: int) returns (color: string)
    requires |colors| >= 1 && |bins| == |colors| + 1
    ensures color == colors[ColorIndex(bins, value)]
    ensures color in colors
  {
    for i := 0 to |bins| - 1
      invariant forall j :: 0 <= j < i ==> !InBucket(bins, j, value)
    {
      if bins[i] <= value < bins[i + 1] {
        assert InBucket(bins, i, value);
        return colors[i];
      }
    }
    return colors[|colors| - 1];
  }

  predicate NonDecreasing(s: seq<int>) {
    forall i, j :: 0 <= i <= j < |s| ==> s[i] <= s[j]
  }

  predicate StrictlyIncreasing(s: seq<int>) {
    forall i, j :: 0 <= i < j < |s| ==> s[i] < s[j]
  }

  /** On sorted breaks, each value from the first break on is at or above
      the lower break of its colour. */
  lemma {:induction false} ColorIndexAbove(bins: seq<int>, v: int)
    requires |bins| >= 2 && NonDecreasing(bins) && bins[0] <= v
    ensures bins[ColorIndex(bins, v)] <= v
  {
    var k := ColorIndex(bins, v);
    if !InBucket(bins, k, v) {
      var i := 0;
      while i < k
        invariant 0 <= i <= k && bins[i] <= v
      {
        assert !InBucket(bins, i, v);
        i := i + 1;
      }
    }
  }

  /** On sorted breaks, a value at or above the last break, the largest
      population included, gets the last colour. */
  lemma TopValueGetsLastColor(bins: seq<int>, v: int)
    requires |bins| >= 2 && NonDecreasing(bins) && v >= bins[|bins| - 1]
    ensures ColorIndex(bins, v) == |bins| - 2
  {
    var k := ColorIndex(bins, v);
    assert !InBucket(bins, k, v);
  }

  /** On sorted breaks, a larger value never gets an earlier colour. */
  lemma ColorIndexMonotone(bins: seq<int>, v1: int, v2: int)
    requires |bins| >= 2 && NonDecreasing(bins) && bins[0] <= v1 <= v2
    ensures ColorIndex(bins, v1) <= ColorIndex(bins, v2)
  {
    var k1, k2 := ColorIndex(bins, v1), ColorIndex(bins, v2);
    if k2 < k1 {
      ColorIndexAbove(bins, v1);
      assert false;
    }
  }

  /** On strictly increasing breaks, each break below the last gets the
      colour of the interval it opens. */
  lemma BreakGetsItsColor(bins: seq<int>, i: nat)
    requires |bins| >= 2 && StrictlyIncreasing(bins) && i < |bins| - 1
    ensures ColorIndex(bins, bins[i]) == i
  {
    var k := ColorIndex(bins, bins[i]);
    assert InBucket(bins, i, bins[i]);
  }

  /** With a single class the breaks are [m, m]: no interval holds any
      value, and every row gets the one colour. */
  lemma SingleClassColor(m: int, v: int)
    ensures ColorIndex([m, m], v) == 0
  {
  }
}
