/** The Benjamini-Hochberg step-up procedure at false discovery rate q. */
module BenjaminiHochberg {
  import opened Ordering
  import opened RealAlgebra
  import opened Wrappers

  datatype BHResult = BHResult(index: nat, pValue: real, adjusted: real, significant: bool)

  type Entry = (nat, real)

  /** The sort key of the ranking: the p-value, then the position. */
  predicate EntryLe(x: Entry, y: Entry) {
    x.1 < y.1 || (x.1 == y.1 && x.0 <= y.0)
  }

  function Enumerate(p: seq<real>): (r: seq<Entry>)
    ensures |r| == |p| && forall i :: 0 <= i < |p| ==> r[i] == (i, p[i])
  {
    seq(|p|, i requires 0 <= i < |p| => (i, p[i]))
  }

  function Ordered(p: seq<real>): seq<Entry> {
    Sort(Enumerate(p), EntryLe)
  }

  /** The p-values in increasing order. */
  function Values(p: seq<real>): (s: seq<real>)
    ensures |s| == |p|
  {
    var o := Ordered(p);
    seq(|p|, r requires 0 <= r < |p| => o[r].1)
  }

  function Ratio(x: real, m: nat, k: nat): real
    requires k >= 1
  {
    x * m as real / k as real
  }

  /** p_(k) m / k for every rank k. */
  function Ratios(s: seq<real>): (t: seq<real>)
    ensures |t| == |s| && forall r :: 0 <= r < |s| ==> t[r] == Ratio(s[r], |s|, r + 1)
  {
    seq(|s|, r requires 0 <= r < |s| => Ratio(s[r], |s|, r + 1))
  }

  /** The least of one and the ratios from `rank` on. */
  function LeastFrom(t: seq<real>, rank: nat): real
    requires 1 <= rank
    decreases |t| + 1 - rank
  {
    if rank > |t| then 1.0 else MinReal(LeastFrom(t, rank + 1), t[rank - 1])
  }

  /** The adjusted value at a rank. */
  function Adjusted(s: seq<real>, rank: nat): real
    requires 1 <= rank
  {
    LeastFrom(Ratios(s), rank)
  }

  lemma OrderedFacts(p: seq<real>)
    ensures Sorted(Ordered(p), EntryLe) && Distinct(Ordered(p))
    ensures forall x :: x in Ordered(p) <==> x.0 < |p| && x.1 == p[x.0]
    ensures forall i, j :: 0 <= i < j < |p| ==> Ordered(p)[i].0 != Ordered(p)[j].0
  {
    var e, o := Enumerate(p), Ordered(p);
    SortSorts(e, EntryLe);
    SortDistinct(e, EntryLe);
    SortMembers(e, EntryLe);
    forall x: Entry ensures x in o <==> x.0 < |p| && x.1 == p[x.0] {
      if x.0 < |p| { assert e[x.0] in e; }
    }
    forall i, j | 0 <= i < j < |p| ensures o[i].0 != o[j].0 {
      assert o[i] in o && o[j] in o;
    }
  }

  ghost predicate HasRank(p: seq<real>, i: nat, rank: nat) {
    i < |p| && 1 <= rank <= |p| && Ordered(p)[rank - 1] == (i, p[i])
  }

  lemma RankExists(p: seq<real>, i: nat)
    requires i < |p|
    ensures exists rank :: HasRank(p, i, rank)
  {
    OrderedFacts(p);
    assert (i, p[i]) in Ordered(p);
    var r :| 0 <= r < |p| && Ordered(p)[r] == (i, p[i]);
    assert HasRank(p, i, r + 1);
  }

  ghost function Rank(p: seq<real>, i: nat): (rank: nat)
    requires i < |p|
    ensures HasRank(p, i, rank)
  {
    RankExists(p, i);
    var rank :| HasRank(p, i, rank);
    rank
  }

  /** What the procedure reports for the i-th input. */
  ghost function Report(p: seq<real>, q: real, i: nat): BHResult
    requires i < |p|
  {
    var a := Adjusted(Values(p), Rank(p, i));
    BHResult(i, p[i], a, a <= q)
  }

  function Present<T>(s: seq<Option<T>>): seq<T> {
    if s == [] then []
    else (if s[0].Some? then [s[0].value] else []) + Present(s[1..])
  }

  lemma {:induction false} AllPresent<T>(s: seq<Option<T>>)
    requires forall i :: 0 <= i < |s| ==> s[i].Some?
    ensures |Present(s)| == |s| && forall i :: 0 <= i < |s| ==> Present(s)[i] == s[i].value
  {
    if s != [] { AllPresent(s[1..]); }
  }

  /** The entry ranked r-th (from zero) has been written to its input position. */
  ghost predicate Placed(e: Entry, t: seq<real>, q: real, r: nat, results: seq<Option<BHResult>>) {
    e.0 < |results| && results[e.0] == Some(BHResult(e.0, e.1, LeastFrom(t, r + 1), LeastFrom(t, r + 1) <= q))
  }

  lemma AllPlaced(p: seq<real>, q: real, results: seq<Option<BHResult>>)
    requires |results| == |p|
    requires forall k :: 0 <= k < |p| ==> Placed(Ordered(p)[k], Ratios(Values(p)), q, k, results)
    ensures forall i :: 0 <= i < |p| ==> results[i] == Some(Report(p, q, i))
  {
    forall i: nat | i < |p| ensures results[i] == Some(Report(p, q, i)) {
      assert HasRank(p, i, Rank(p, i));
      assert Placed(Ordered(p)[Rank(p, i) - 1], Ratios(Values(p)), q, Rank(p, i) - 1, results);
    }
  }

  /** The downward loop: position r of the array holds the adjusted value at rank r + 1. */
  method RunningMinimum(p: seq<real>) returns (adjustedByRank: array<real>)
    ensures fresh(adjustedByRank) && adjustedByRank.Length == |p|
    ensures forall r :: 0 <= r < |p| ==> adjustedByRank[r] == Adjusted(Values(p), r + 1)
  {
    var m, ordered := |p|, Ordered(p);
    adjustedByRank := new real[m];
    ghost var t := Ratios(Values(p));
    var running := 1.0;
    var rank := m;
    while rank > 0
      invariant 0 <= rank <= m
      invariant running == LeastFrom(t, rank + 1)
      invariant forall r :: rank <= r < m ==> adjustedByRank[r] == LeastFrom(t, r + 1)
    {
      running := MinReal(running, Ratio(ordered[rank - 1].1, m, rank));
      assert LeastFrom(t, rank) == MinReal(LeastFrom(t, rank + 1), t[rank - 1]);
      adjustedByRank[rank - 1] := running;
      rank := rank - 1;
    }
  }

  ghost predicate PlacedUpTo(ordered: seq<Entry>, t: seq<real>, q: real, r: nat, results: seq<Option<BHResult>>)
    requires r <= |ordered|
  {
    forall k :: 0 <= k < r ==> Placed(ordered[k], t, q, k, results)
  }

  lemma PlaceOne(ordered: seq<Entry>, t: seq<real>, q: real, r: nat, results: seq<Option<BHResult>>, value: BHResult)
    requires r < |ordered| && PlacedUpTo(ordered, t, q, r, results) && ordered[r].0 < |results|
    requires forall i, j :: 0 <= i < j < |ordered| ==> ordered[i].0 != ordered[j].0
    requires value == BHResult(ordered[r].0, ordered[r].1, LeastFrom(t, r + 1), LeastFrom(t, r + 1) <= q)
    ensures PlacedUpTo(ordered, t, q, r + 1, results[ordered[r].0 := Some(value)])
  {
    forall k | 0 <= k < r ensures Placed(ordered[k], t, q, k, results[ordered[r].0 := Some(value)]) {
      assert Placed(ordered[k], t, q, k, results) && ordered[k].0 != ordered[r].0;
    }
  }

  /** Results come back in input position, whatever the order of the p-values. */
  method AdjustAll(p: seq<real>, q: real) returns (out: seq<BHResult>)
    ensures |out| == |p|
    ensures forall i :: 0 <= i < |p| ==> out[i] == Report(p, q, i)
  {
    if p == [] {
      return [];
    }
    var m := |p|;
    var ordered := Ordered(p);
    var adjustedByRank := RunningMinimum(p);
    ghost var t := Ratios(Values(p));
    OrderedFacts(p);
    var results := new Option<BHResult>[m](_ => None);
    var r := 0;
    while r < m
      invariant 0 <= r <= m
      invariant forall k :: 0 <= k < m ==> adjustedByRank[k] == LeastFrom(t, k + 1)
      invariant PlacedUpTo(ordered, t, q, r, results[..])
    {
      assert ordered[r] in ordered;
      var adjusted := adjustedByRank[r];
      var value := BHResult(ordered[r].0, ordered[r].1, adjusted, adjusted <= q);
      PlaceOne(ordered, t, q, r, results[..], value);
      ghost var before := results[..];
      results[ordered[r].0] := Some(value);
      assert results[..] == before[ordered[r].0 := Some(value)];
      r := r + 1;
    }
    AllPlaced(p, q, results[..]);
    AllPresent(results[..]);
    out := Present(results[..]);
  }

  // ---- the step-up rule ------------------------------------------------------------

  lemma ValuesIncrease(p: seq<real>)
    ensures Increasing(Values(p))
    ensures forall i: nat :: i < |p| ==> Values(p)[Rank(p, i) - 1] == p[i]
  {
    OrderedFacts(p);
  }

  /** The line the ordered p-values are held against: kq/m at rank k. */
  function Threshold(q: real, m: nat, k: nat): real
    requires m >= 1
  {
    k as real * q / m as real
  }

  function Thresholds(q: real, m: nat): (th: seq<real>)
    ensures |th| == m && forall r :: 0 <= r < m ==> th[r] == Threshold(q, m, r + 1)
  {
    seq(m, r requires 0 <= r < m => Threshold(q, m, r + 1))
  }

  /** Rank k is the largest whose value is on or under its threshold. */
  ghost predicate IsCutoff(s: seq<real>, th: seq<real>, k: nat)
    requires |th| == |s|
  {
    1 <= k <= |s| && s[k - 1] <= th[k - 1] && forall j :: k <= j < |s| ==> th[j] < s[j]
  }

  lemma ScalingKeepsOrder(x: real, y: real, d: real)
    requires d > 0.0
    ensures x <= y <==> x * d <= y * d
  {
    if x <= y {
      assert (y - x) * d >= 0.0;
    } else {
      assert (x - y) * d > 0.0;
    }
  }

  lemma ScaledComparison(x: real, q: real, m: nat, k: nat)
    requires m >= 1 && k >= 1
    ensures Ratio(x, m, k) <= q <==> x <= Threshold(q, m, k)
  {
    ScalingKeepsOrder(Ratio(x, m, k), q, k as real);
    ScalingKeepsOrder(x, Threshold(q, m, k), m as real);
  }

  lemma ThresholdGrows(q: real, m: nat, k: nat, j: nat)
    requires q >= 0.0 && m >= 1 && k <= j
    ensures Threshold(q, m, k) <= Threshold(q, m, j)
  {
    assert (j as real - k as real) * q >= 0.0;
    ScalingKeepsOrder(Threshold(q, m, k), Threshold(q, m, j), m as real);
  }

  lemma ThresholdsIncrease(q: real, m: nat)
    requires q >= 0.0
    ensures Increasing(Thresholds(q, m))
  {
    forall i, j | 0 <= i < j < m ensures Thresholds(q, m)[i] <= Thresholds(q, m)[j] {
      ThresholdGrows(q, m, i + 1, j + 1);
    }
  }

  lemma {:induction false} LeastBelow(t: seq<real>, q: real, rank: nat)
    requires 1 <= rank && q < 1.0
    ensures LeastFrom(t, rank) <= q <==> exists k :: rank - 1 <= k < |t| && t[k] <= q
    decreases |t| + 1 - rank
  {
    if rank <= |t| {
      LeastBelow(t, q, rank + 1);
    }
  }

  lemma RatioBelowQ(s: seq<real>, q: real, k: nat)
    requires k < |s|
    ensures Ratios(s)[k] <= q <==> s[k] <= Thresholds(q, |s|)[k]
  {
    assert Ratios(s)[k] == Ratio(s[k], |s|, k + 1);
    assert Thresholds(q, |s|)[k] == Threshold(q, |s|, k + 1);
    ScaledComparison(s[k], q, |s|, k + 1);
  }

  lemma BelowQ(s: seq<real>, q: real, rank: nat)
    requires 1 <= rank && q < 1.0
    ensures Adjusted(s, rank) <= q <==> exists k :: rank - 1 <= k < |s| && s[k] <= Thresholds(q, |s|)[k]
  {
    var t, th := Ratios(s), Thresholds(q, |s|);
    LeastBelow(t, q, rank);
    forall k | 0 <= k < |s| ensures t[k] <= q <==> s[k] <= th[k] { RatioBelowQ(s, q, k); }
  }

  lemma {:induction false} LargestPassing(s: seq<real>, th: seq<real>, k: nat)
    requires |th| == |s| && k < |s| && s[k] <= th[k]
    ensures exists c :: k < c && IsCutoff(s, th, c)
    decreases |s| - k
  {
    if j: nat :| k < j < |s| && s[j] <= th[j] {
      LargestPassing(s, th, j);
    } else {
      assert IsCutoff(s, th, k + 1);
    }
  }

  /** Some rank from `rank` on passes exactly when the value at `rank` does not exceed the
      value at the cutoff. */
  lemma CutoffRule(s: seq<real>, th: seq<real>, rank: nat)
    requires |th| == |s| && Increasing(s) && Increasing(th) && 1 <= rank <= |s|
    ensures (exists k :: rank - 1 <= k < |s| && s[k] <= th[k])
       <==> (exists c :: IsCutoff(s, th, c) && s[rank - 1] <= s[c - 1])
  {
    if k: nat :| rank - 1 <= k < |s| && s[k] <= th[k] {
      LargestPassing(s, th, k);
      var c :| k < c && IsCutoff(s, th, c);
      assert s[rank - 1] <= s[c - 1];
    }
    if c: nat :| IsCutoff(s, th, c) && s[rank - 1] <= s[c - 1] {
      var k := if c < rank then rank - 1 else c - 1;
      assert s[c - 1] <= s[k] && th[c - 1] <= th[k];
      assert rank - 1 <= k < |s| && s[k] <= th[k];
    }
  }

  /** For 0 <= q < 1 an entry is significant exactly when it does not exceed the p-value at
      the largest rank k with p_(k) <= kq/m. */
  lemma StepUpRule(p: seq<real>, q: real, i: nat)
    requires i < |p| && 0.0 <= q < 1.0
    ensures Report(p, q, i).significant
       <==> exists k :: IsCutoff(Values(p), Thresholds(q, |p|), k) && p[i] <= Values(p)[k - 1]
  {
    ValuesIncrease(p);
    ThresholdsIncrease(q, |p|);
    BelowQ(Values(p), q, Rank(p, i));
    CutoffRule(Values(p), Thresholds(q, |p|), Rank(p, i));
  }

  // ---- adjusted values -----------------------------------------------------------------

  lemma {:induction false} LeastFromMonotone(t: seq<real>, r1: nat, r2: nat)
    requires 1 <= r1 <= r2
    ensures LeastFrom(t, r1) <= LeastFrom(t, r2) <= 1.0
    decreases |t| + 1 - r1, r2 - r1
  {
    if r1 <= |t| {
      if r1 < r2 { LeastFromMonotone(t, r1 + 1, r2); } else { LeastFromMonotone(t, r1 + 1, r1 + 1); }
    }
  }

  lemma {:induction false} LeastFromBound(t: seq<real>, rank: nat, v: real)
    requires 1 <= rank && v <= 1.0 && forall k :: rank - 1 <= k < |t| ==> v <= t[k]
    ensures v <= LeastFrom(t, rank)
    decreases |t| + 1 - rank
  {
    if rank <= |t| { LeastFromBound(t, rank + 1, v); }
  }

  lemma {:induction false} FallingRatios(t: seq<real>, r1: nat, r2: nat)
    requires 1 <= r1 <= r2 <= |t| && forall k :: r1 <= k < r2 ==> t[k] <= t[k - 1]
    ensures LeastFrom(t, r1) == LeastFrom(t, r2)
    decreases r2 - r1
  {
    if r1 < r2 {
      FallingRatios(t, r1 + 1, r2);
      assert t[r1] <= t[r1 - 1];
    }
  }

  lemma RatioGrows(x: real, m: nat, k: nat)
    requires x >= 0.0 && 1 <= k <= m
    ensures Ratio(x, m, k) >= x
  {
    assert x * (m as real - k as real) >= 0.0;
    ScalingKeepsOrder(x, Ratio(x, m, k), k as real);
  }

  lemma RatioShrinks(x: real, m: nat, k: nat)
    requires x >= 0.0 && k >= 1
    ensures Ratio(x, m, k + 1) <= Ratio(x, m, k)
  {
    var y, z, d := Ratio(x, m, k + 1), Ratio(x, m, k), k as real;
    assert (k + 1) as real == d + 1.0;
    assert x * m as real >= 0.0;
    ScalingKeepsOrder(0.0, z, d);
    assert z * (d + 1.0) >= z * d;
    ScalingKeepsOrder(y, z, d + 1.0);
  }

  lemma TiesShareAdjusted(s: seq<real>, r1: nat, r2: nat)
    requires Increasing(s) && 1 <= r1 <= r2 <= |s| && s[r1 - 1] == s[r2 - 1] >= 0.0
    ensures Adjusted(s, r1) == Adjusted(s, r2)
  {
    var t := Ratios(s);
    forall k | r1 <= k < r2 ensures t[k] <= t[k - 1] {
      assert s[r1 - 1] <= s[k - 1] <= s[k] <= s[r2 - 1];
      RatioShrinks(s[k], |s|, k);
    }
    FallingRatios(t, r1, r2);
  }

  lemma AdjustedAtLeast(s: seq<real>, rank: nat, v: real)
    requires Increasing(s) && 1 <= rank <= |s| && s[rank - 1] == v && 0.0 <= v <= 1.0
    ensures v <= Adjusted(s, rank)
  {
    var t := Ratios(s);
    forall k | rank - 1 <= k < |t| ensures v <= t[k] {
      assert v <= s[k];
      RatioGrows(s[k], |s|, k + 1);
    }
    LeastFromBound(t, rank, v);
  }

  /** Adjusted values are at least the p-values, monotone in them and equal on ties. */
  lemma AdjustedFacts(p: seq<real>, q: real, i: nat, j: nat)
    requires i < |p| && j < |p| && forall k :: 0 <= k < |p| ==> 0.0 <= p[k] <= 1.0
    ensures p[i] <= Report(p, q, i).adjusted <= 1.0
    ensures p[i] <= p[j] ==> Report(p, q, i).adjusted <= Report(p, q, j).adjusted
    ensures p[i] == p[j] ==> Report(p, q, i).adjusted == Report(p, q, j).adjusted
  {
    var s, ri, rj := Values(p), Rank(p, i), Rank(p, j);
    ValuesIncrease(p);
    assert s[ri - 1] == p[i] && s[rj - 1] == p[j];
    AdjustedAtLeast(s, ri, p[i]);
    LeastFromMonotone(Ratios(s), ri, ri);
    if ri <= rj { LeastFromMonotone(Ratios(s), ri, rj); } else { LeastFromMonotone(Ratios(s), rj, ri); }
    if p[i] == p[j] {
      if ri <= rj { TiesShareAdjusted(s, ri, rj); } else { TiesShareAdjusted(s, rj, ri); }
    }
  }

  // ---- independence of input order ---------------------------------------------------

  function Second(s: seq<Entry>): (r: seq<real>)
    ensures |r| == |s| && forall i :: 0 <= i < |s| ==> r[i] == s[i].1
  {
    seq(|s|, i requires 0 <= i < |s| => s[i].1)
  }

  lemma {:induction false} InsertSecond(x: Entry, s: seq<Entry>)
    ensures multiset(Second(Insert(x, s, EntryLe))) == multiset(Second(s)) + multiset{x.1}
  {
    if s == [] || EntryLe(x, s[0]) {
      assert Second([x] + s) == [x.1] + Second(s);
      if s == [] { assert Insert(x, s, EntryLe) == [x] + s; }
    } else {
      InsertSecond(x, s[1..]);
      assert Second([s[0]] + Insert(x, s[1..], EntryLe)) == [s[0].1] + Second(Insert(x, s[1..], EntryLe));
      assert Second(s) == [s[0].1] + Second(s[1..]);
    }
  }

  lemma {:induction false} SortSecond(s: seq<Entry>)
    ensures multiset(Second(Sort(s, EntryLe))) == multiset(Second(s))
  {
    if s != [] {
      SortSecond(s[1..]);
      InsertSecond(s[0], Sort(s[1..], EntryLe));
      assert Second(s) == [s[0].1] + Second(s[1..]);
    }
  }

  lemma ValuesPermute(p: seq<real>)
    ensures multiset(Values(p)) == multiset(p)
  {
    SortSecond(Enumerate(p));
    assert Values(p) == Second(Ordered(p));
    assert Second(Enumerate(p)) == p;
  }

  lemma ValuesIgnoreOrder(p: seq<real>, p': seq<real>)
    requires multiset(p) == multiset(p')
    ensures Values(p) == Values(p')
  {
    ValuesPermute(p);
    ValuesPermute(p');
    ValuesIncrease(p);
    ValuesIncrease(p');
    SortedUnique(Values(p), Values(p'), RealLe);
  }

  /** Permuting the inputs moves each verdict along with its p-value and changes none. */
  lemma VerdictsIgnoreOrder(p: seq<real>, p': seq<real>, q: real, i: nat, j: nat)
    requires multiset(p) == multiset(p') && i < |p| && j < |p'| && p[i] == p'[j]
    requires forall k :: 0 <= k < |p| ==> 0.0 <= p[k]
    ensures Report(p, q, i).adjusted == Report(p', q, j).adjusted
    ensures Report(p, q, i).significant == Report(p', q, j).significant
  {
    ValuesIgnoreOrder(p, p');
    ValuesIncrease(p);
    ValuesIncrease(p');
    var s, ri, rj := Values(p), Rank(p, i), Rank(p', j);
    assert s[ri - 1] == p[i] && s[rj - 1] == p'[j];
    if ri <= rj { TiesShareAdjusted(s, ri, rj); } else { TiesShareAdjusted(s, rj, ri); }
  }

  // ---- the adjusted value, written out -------------------------------------------------

  lemma {:induction false} LeastFromIsLeast(t: seq<real>, rank: nat)
    requires 1 <= rank
    ensures LeastFrom(t, rank) <= 1.0 && forall k :: rank - 1 <= k < |t| ==> LeastFrom(t, rank) <= t[k]
    ensures LeastFrom(t, rank) == 1.0 || exists k :: rank - 1 <= k < |t| && LeastFrom(t, rank) == t[k]
    decreases |t| + 1 - rank
  {
    if rank <= |t| { LeastFromIsLeast(t, rank + 1); }
  }

  /** What is reported of an input: with the p-values in order and the input at place r of them, the least of 1
      and p_(k) m / k over the ranks k from r + 1 on, held against q. */
  lemma AdjustedIsLeastRatio(p: seq<real>, q: real, i: nat) returns (ordered: seq<real>, r: nat)
    requires i < |p|
    ensures multiset(ordered) == multiset(p) && (forall j, k :: 0 <= j < k < |ordered| ==> ordered[j] <= ordered[k])
    ensures |ordered| == |p| && r < |p| && ordered[r] == p[i]
    ensures var v := Report(p, q, i).adjusted;
      && v <= 1.0 && (forall k :: r <= k < |p| ==> v <= ordered[k] * |p| as real / (k + 1) as real)
      && (v == 1.0 || exists k :: r <= k < |p| && v == ordered[k] * |p| as real / (k + 1) as real)
      && Report(p, q, i).index == i && Report(p, q, i).pValue == p[i] && (Report(p, q, i).significant <==> v <= q)
  {
    ordered, r := Values(p), Rank(p, i) - 1;
    ValuesPermute(p);
    ValuesIncrease(p);
    var t := Ratios(ordered);
    LeastFromIsLeast(t, r + 1);
    forall k | 0 <= k < |p| ensures t[k] == ordered[k] * |p| as real / (k + 1) as real {}
    if Report(p, q, i).adjusted != 1.0 {
      var k :| r <= k < |t| && LeastFrom(t, r + 1) == t[k];
    }
  }
}
