/** The paired bootstrap over tasks. The seeded generator is an arbitrary table of draws: one
    row of task indices per resample. */
module Bootstrap {
  import opened Models
  import opened Ordering
  import opened RealAlgebra

  datatype Outcome =
    | Ok(point: real, interval: Interval)
    | NothingShared
    | Unpaired(missing: set<string>)
    | NoReplicates(task: string)
    | NoResamples

  type Condition = map<string, seq<real>>

  function Total(s: seq<real>): real {
    if s == [] then 0.0 else Total(s[..|s| - 1]) + s[|s| - 1]
  }

  function Mean(s: seq<real>): real
    requires s != []
  {
    Total(s) / |s| as real
  }

  function Negated(s: seq<real>): (r: seq<real>)
    ensures |r| == |s| && forall i :: 0 <= i < |s| ==> r[i] == -s[i]
  {
    seq(|s|, i requires 0 <= i < |s| => -s[i])
  }

  /** The values the draws pick out. */
  function Picked(deltas: seq<real>, row: seq<nat>): (r: seq<real>)
    requires forall i :: 0 <= i < |row| ==> row[i] < |deltas|
    ensures |r| == |row| && forall i :: 0 <= i < |row| ==> r[i] == deltas[row[i]]
  {
    seq(|row|, i requires 0 <= i < |row| => deltas[row[i]])
  }

  ghost predicate ValidDraws(draws: seq<seq<nat>>, n: nat) {
    forall k :: 0 <= k < |draws| ==> ValidRow(draws[k], n)
  }

  ghost predicate ValidRow(row: seq<nat>, n: nat) {
    |row| == n && forall i :: 0 <= i < n ==> row[i] < n
  }

  ghost function Means(deltas: seq<real>, draws: seq<seq<nat>>): (r: seq<real>)
    requires deltas != [] && ValidDraws(draws, |deltas|)
    ensures |r| == |draws| && forall k :: 0 <= k < |draws| ==> ValidRow(draws[k], |deltas|) && r[k] == Mean(Picked(deltas, draws[k]))
  {
    seq(|draws|, k requires 0 <= k < |draws| && ValidRow(draws[k], |deltas|) => Mean(Picked(deltas, draws[k])))
  }

  // ---- percentiles -----------------------------------------------------------------------

  /** A value between two others, `weight` of the way from the first. */
  function Blend(x: real, y: real, weight: real): real {
    x * (1.0 - weight) + y * weight
  }

  /** Linear interpolation at a fractional position. */
  function At(s: seq<real>, position: real): real
    requires s != [] && 0.0 <= position <= (|s| - 1) as real
  {
    var lower := position.Floor;
    var upper := if lower + 1 < |s| - 1 then lower + 1 else |s| - 1;
    Blend(s[lower], s[upper], position - lower as real)
  }

  function Position(count: nat, pct: real): (r: real)
    requires count >= 1 && 0.0 <= pct <= 100.0
    ensures 0.0 <= r <= (count - 1) as real
  {
    var c, l := pct / 100.0, (count - 1) as real;
    Product(c, l, c * l);
    Product(1.0 - c, l, (1.0 - c) * l);
    assert (1.0 - c) * l == l - c * l;
    c * l
  }

  function Percentile(s: seq<real>, pct: real): real
    requires s != [] && 0.0 <= pct <= 100.0
  {
    if |s| == 1 then s[0] else At(s, Position(|s|, pct))
  }

  lemma BlendBounds(x: real, y: real, weight: real)
    requires x <= y && 0.0 <= weight <= 1.0
    ensures x <= Blend(x, y, weight) <= y
  {
    var d, v := y - x, 1.0 - weight;
    var dw, dv := d * weight, d * v;
    Product(d, weight, dw);
    Product(d, v, dv);
    assert Blend(x, y, weight) == x + dw && Blend(x, y, weight) == y - dv;
  }

  lemma BlendMonotone(x: real, y: real, v: real, w: real)
    requires x <= y && v <= w
    ensures Blend(x, y, v) <= Blend(x, y, w)
  {
    var d, e := y - x, w - v;
    var de := d * e;
    Product(d, e, de);
    assert Blend(x, y, w) - Blend(x, y, v) == de;
  }

  lemma AtBounds(s: seq<real>, x: real)
    requires Increasing(s) && s != [] && 0.0 <= x <= (|s| - 1) as real
    ensures s[0] <= At(s, x) <= s[|s| - 1]
    ensures s[x.Floor] <= At(s, x)
    ensures x.Floor + 1 < |s| ==> At(s, x) <= s[x.Floor + 1]
  {
    var lower := x.Floor;
    var upper := if lower + 1 < |s| - 1 then lower + 1 else |s| - 1;
    BlendBounds(s[lower], s[upper], x - lower as real);
  }

  lemma AtMonotone(s: seq<real>, x: real, y: real)
    requires Increasing(s) && s != [] && 0.0 <= x <= y <= (|s| - 1) as real
    ensures At(s, x) <= At(s, y)
  {
    var i, j := x.Floor, y.Floor;
    if i == j {
      BlendMonotone(s[i], s[if i + 1 < |s| - 1 then i + 1 else |s| - 1], x - i as real, y - i as real);
    } else {
      AtBounds(s, x);
      AtBounds(s, y);
      assert i + 1 <= j;
      assert s[i + 1] <= s[j];
    }
  }

  lemma PercentileMonotone(s: seq<real>, p: real, q: real)
    requires Increasing(s) && s != [] && 0.0 <= p <= q <= 100.0
    ensures s[0] <= Percentile(s, p) <= Percentile(s, q) <= s[|s| - 1]
  {
    if |s| > 1 {
      var l := (|s| - 1) as real;
      MulKeepsOrder(p / 100.0, q / 100.0, l, p / 100.0 * l, q / 100.0 * l);
      AtMonotone(s, Position(|s|, p), Position(|s|, q));
      AtBounds(s, Position(|s|, p));
      AtBounds(s, Position(|s|, q));
    }
  }

  /** Between two neighbouring ranks the percentile moves on a straight line from the value at one
      to the value at the other, both ends included. */
  lemma PercentileJoinsRanks(s: seq<real>, pct: real, k: nat)
    requires k + 1 < |s| && 0.0 <= pct <= 100.0 && k as real <= Position(|s|, pct) <= (k + 1) as real
    ensures Percentile(s, pct) == Blend(s[k], s[k + 1], Position(|s|, pct) - k as real)
    ensures Position(|s|, pct) == k as real ==> Percentile(s, pct) == s[k]
    ensures Position(|s|, pct) == (k + 1) as real ==> Percentile(s, pct) == s[k + 1]
  {
    var x := Position(|s|, pct);
    assert Blend(s[k], s[k + 1], 0.0) == s[k] && Blend(s[k], s[k + 1], 1.0) == s[k + 1];
    if x == (k + 1) as real {
      assert x.Floor == k + 1;
      var upper := if k + 2 < |s| - 1 then k + 2 else |s| - 1;
      assert Blend(s[k + 1], s[upper], 0.0) == s[k + 1];
    } else {
      assert x.Floor == k;
    }
  }

  /** A sequence negated and read backwards. */
  function Mirrored(s: seq<real>): (r: seq<real>)
    ensures |r| == |s| && forall i :: 0 <= i < |s| ==> r[i] == -s[|s| - 1 - i]
  {
    seq(|s|, i requires 0 <= i < |s| => -s[|s| - 1 - i])
  }

  lemma BlendMirrors(x: real, y: real, w: real)
    ensures Blend(-y, -x, 1.0 - w) == -Blend(x, y, w)
    ensures Blend(-x, -x, w) == -x && Blend(x, y, 0.0) == x && Blend(x, x, w) == x
  {
  }

  lemma FloorMirrors(x: real, l: int)
    ensures x == x.Floor as real ==> (l as real - x).Floor == l - x.Floor
    ensures x != x.Floor as real ==> (l as real - x).Floor == l - x.Floor - 1
  {
    var y, f := l as real - x, x.Floor;
    if x == f as real {
      assert y == (l - f) as real;
    } else {
      assert (l - f - 1) as real < y < (l - f) as real;
    }
  }

  lemma AtMirrors(s: seq<real>, x: real)
    requires s != [] && 0.0 <= x <= (|s| - 1) as real
    ensures At(Mirrored(s), (|s| - 1) as real - x) == -At(s, x)
  {
    var l, i, r := |s| - 1, x.Floor, Mirrored(s);
    var y := l as real - x;
    FloorMirrors(x, l);
    if x == i as real {
      assert y.Floor == l - i && y - (l - i) as real == 0.0;
      BlendMirrors(s[i], s[if i + 1 < l then i + 1 else l], 0.0);
      BlendMirrors(r[l - i], r[if l - i + 1 < l then l - i + 1 else l], 0.0);
    } else {
      assert i < l;
      assert y - y.Floor as real == 1.0 - (x - i as real);
      BlendMirrors(s[i], s[i + 1], x - i as real);
    }
  }

  lemma PercentileMirrors(s: seq<real>, pct: real)
    requires s != [] && 0.0 <= pct <= 100.0
    ensures Percentile(Mirrored(s), 100.0 - pct) == -Percentile(s, pct)
  {
    if |s| > 1 {
      var c, l := pct / 100.0, (|s| - 1) as real;
      assert (100.0 - pct) / 100.0 == 1.0 - c;
      assert (1.0 - c) * l == l - c * l;
      AtMirrors(s, Position(|s|, pct));
    }
  }

  lemma PercentileOfMirrored(s: seq<real>, t: seq<real>, p: real, q: real)
    requires s != [] && t == Mirrored(s) && 0.0 <= p <= 100.0 && q == 100.0 - p
    ensures Percentile(t, q) == -Percentile(s, p)
  {
    PercentileMirrors(s, p);
  }

  // ---- means -----------------------------------------------------------------------------

  lemma {:induction false} TotalBounds(s: seq<real>, lo: real, hi: real)
    requires forall i :: 0 <= i < |s| ==> lo <= s[i] <= hi
    ensures lo * |s| as real <= Total(s) <= hi * |s| as real
  {
    if s != [] {
      var k := |s| - 1;
      TotalBounds(s[..k], lo, hi);
      assert lo * (k + 1) as real == lo * k as real + lo && hi * (k + 1) as real == hi * k as real + hi;
    }
  }

  lemma MeanBounds(s: seq<real>, lo: real, hi: real)
    requires s != [] && forall i :: 0 <= i < |s| ==> lo <= s[i] <= hi
    ensures lo <= Mean(s) <= hi
  {
    TotalBounds(s, lo, hi);
    var n := |s| as real;
    DivideBounds(Total(s), lo, hi, n, lo * n, hi * n);
  }

  lemma {:induction false} TotalNegates(s: seq<real>)
    ensures Total(Negated(s)) == -Total(s)
  {
    if s != [] {
      TotalNegates(s[..|s| - 1]);
      assert Negated(s)[..|s| - 1] == Negated(s[..|s| - 1]);
    }
  }

  lemma MeanNegates(s: seq<real>)
    requires s != []
    ensures Mean(Negated(s)) == -Mean(s)
  {
    TotalNegates(s);
    DivideAdds(0.0, Total(s), |s| as real);
    Quotient(0.0, |s| as real, 0.0);
  }

  // ---- the procedure -----------------------------------------------------------------------

  predicate Replicated(baseline: Condition, treatment: Condition, tasks: seq<string>) {
    forall t :: t in tasks ==> t in baseline && t in treatment && baseline[t] != [] && treatment[t] != []
  }

  function TaskDelta(baseline: Condition, treatment: Condition, task: string): real
    requires task in baseline && task in treatment && baseline[task] != [] && treatment[task] != []
  {
    Mean(treatment[task]) - Mean(baseline[task])
  }

  function Deltas(baseline: Condition, treatment: Condition, tasks: seq<string>): (r: seq<real>)
    requires Replicated(baseline, treatment, tasks)
    ensures |r| == |tasks|
    ensures forall i :: 0 <= i < |tasks| ==> tasks[i] in tasks && r[i] == TaskDelta(baseline, treatment, tasks[i])
  {
    seq(|tasks|, i requires 0 <= i < |tasks| =>
      assert tasks[i] in tasks;
      TaskDelta(baseline, treatment, tasks[i]))
  }

  ghost predicate ShapedDraws(baseline: Condition, treatment: Condition, draws: seq<seq<nat>>) {
    ValidDraws(draws, |baseline.Keys * treatment.Keys|)
  }

  /** The value the procedure computes, given the draws. */
  ghost function Result(baseline: Condition, treatment: Condition, draws: seq<seq<nat>>, p: real, q: real): Outcome
    requires ShapedDraws(baseline, treatment, draws) && 0.0 <= p <= 100.0 && 0.0 <= q <= 100.0
  {
    var tasks := Listing(baseline.Keys * treatment.Keys);
    if tasks == [] then NothingShared
    else if baseline.Keys != treatment.Keys then
      Unpaired((baseline.Keys + treatment.Keys) - (baseline.Keys * treatment.Keys))
    else if !Replicated(baseline, treatment, tasks) then NoReplicates(FirstEmpty(baseline, treatment, tasks))
    else if draws == [] then NoResamples
    else
      FromDeltas(Deltas(baseline, treatment, tasks), draws, p, q)
  }

  ghost function FromDeltas(deltas: seq<real>, draws: seq<seq<nat>>, p: real, q: real): Outcome
    requires deltas != [] && draws != [] && ValidDraws(draws, |deltas|)
    requires 0.0 <= p <= 100.0 && 0.0 <= q <= 100.0
  {
    var means := Sort(Means(deltas, draws), RealLe);
    Ok(Mean(deltas), Interval(Percentile(means, p), Percentile(means, q)))
  }

  /** The first task, in order, whose division by a replicate count of zero raises. */
  function FirstEmpty(baseline: Condition, treatment: Condition, tasks: seq<string>): string
    requires forall t :: t in tasks ==> t in baseline && t in treatment
    requires !Replicated(baseline, treatment, tasks)
  {
    if baseline[tasks[0]] == [] || treatment[tasks[0]] == [] then tasks[0]
    else FirstEmpty(baseline, treatment, tasks[1..])
  }

  /** The inner loop: the mean of one resample. */
  method ResampleMean(deltas: seq<real>, row: seq<nat>) returns (mean: real)
    requires deltas != [] && ValidRow(row, |deltas|)
    ensures mean == Mean(Picked(deltas, row))
  {
    var n := |deltas|;
    ghost var picked := Picked(deltas, row);
    var total := 0.0;
    var i := 0;
    while i < n
      invariant 0 <= i <= n
      invariant total == Total(picked[..i])
    {
      total := total + deltas[row[i]];
      assert picked[..i + 1][..i] == picked[..i];
      i := i + 1;
    }
    assert picked[..n] == picked;
    mean := total / n as real;
  }

  method ResampleMeans(deltas: seq<real>, draws: seq<seq<nat>>) returns (means: seq<real>)
    requires deltas != [] && ValidDraws(draws, |deltas|)
    ensures means == Means(deltas, draws)
  {
    means := [];
    var k := 0;
    while k < |draws|
      invariant 0 <= k <= |draws|
      invariant |means| == k && forall j :: 0 <= j < k ==> means[j] == Means(deltas, draws)[j]
    {
      assert ValidRow(draws[k], |deltas|);
      var mean := ResampleMean(deltas, draws[k]);
      means := means + [mean];
      k := k + 1;
    }
  }

  method PairedBootstrapDelta(baseline: Condition, treatment: Condition, draws: seq<seq<nat>>, p: real, q: real)
      returns (out: Outcome)
    requires ShapedDraws(baseline, treatment, draws) && 0.0 <= p <= 100.0 && 0.0 <= q <= 100.0
    ensures out == Result(baseline, treatment, draws, p, q)
  {
    var shared := Listing(baseline.Keys * treatment.Keys);
    if shared == [] {
      return NothingShared;
    }
    var missing := (baseline.Keys + treatment.Keys) - (baseline.Keys * treatment.Keys);
    if missing != {} {
      return Unpaired(missing);
    }
    assert forall t :: t in baseline.Keys + treatment.Keys ==> t !in missing;
    assert baseline.Keys == treatment.Keys;
    if !Replicated(baseline, treatment, shared) {
      return NoReplicates(FirstEmpty(baseline, treatment, shared));
    }
    var deltas := Deltas(baseline, treatment, shared);
    var means := ResampleMeans(deltas, draws);
    if means == [] {
      return NoResamples;
    }
    means := Sort(means, RealLe);
    out := Ok(Mean(deltas), Interval(Percentile(means, p), Percentile(means, q)));
  }

  // ---- what the interval promises --------------------------------------------------------

  lemma SortedMeans(means: seq<real>)
    ensures Increasing(Sort(means, RealLe))
  {
    SortSorts(means, RealLe);
  }

  lemma MeansBounds(deltas: seq<real>, draws: seq<seq<nat>>, lo: real, hi: real)
    requires deltas != [] && ValidDraws(draws, |deltas|)
    requires forall i :: 0 <= i < |deltas| ==> lo <= deltas[i] <= hi
    ensures forall k :: 0 <= k < |draws| ==> lo <= Means(deltas, draws)[k] <= hi
  {
    forall k | 0 <= k < |draws| ensures lo <= Means(deltas, draws)[k] <= hi {
      assert ValidRow(draws[k], |deltas|);
      MeanBounds(Picked(deltas, draws[k]), lo, hi);
    }
  }

  lemma SortedBounds(means: seq<real>, lo: real, hi: real, p: real, q: real)
    requires means != [] && 0.0 <= p <= q <= 100.0
    requires forall k :: 0 <= k < |means| ==> lo <= means[k] <= hi
    ensures lo <= Percentile(Sort(means, RealLe), p) <= Percentile(Sort(means, RealLe), q) <= hi
  {
    var sorted := Sort(means, RealLe);
    SortMembers(means, RealLe);
    assert sorted[0] in means && sorted[|sorted| - 1] in means;
    SortedMeans(means);
    PercentileMonotone(sorted, p, q);
  }

  /** Every resampled mean, the point estimate and both ends lie between the least and the
      greatest task delta, and the ends are in order. */
  lemma IntervalBounds(baseline: Condition, treatment: Condition, draws: seq<seq<nat>>, p: real, q: real,
                       lo: real, hi: real)
    requires ShapedDraws(baseline, treatment, draws) && 0.0 <= p <= q <= 100.0
    requires Result(baseline, treatment, draws, p, q).Ok?
    requires forall t :: t in baseline && t in treatment && baseline[t] != [] && treatment[t] != [] ==>
      lo <= TaskDelta(baseline, treatment, t) <= hi
    ensures var r := Result(baseline, treatment, draws, p, q);
      lo <= r.interval.low <= r.interval.high <= hi && lo <= r.point <= hi
  {
    var deltas := Deltas(baseline, treatment, Listing(baseline.Keys * treatment.Keys));
    MeanBounds(deltas, lo, hi);
    MeansBounds(deltas, draws, lo, hi);
    SortedBounds(Means(deltas, draws), lo, hi, p, q);
  }

  lemma {:induction false} ReversedMultiset(s: seq<real>)
    ensures multiset(Mirrored(s)) == multiset(Negated(s))
  {
    if s != [] {
      var k := |s| - 1;
      ReversedMultiset(s[..k]);
      MirroredOneMore(s);
      JoinedEitherWay(Mirrored(s[..k]), Negated(s[..k]), -s[k]);
    }
  }

  lemma MirroredOneMore(s: seq<real>)
    requires s != []
    ensures Mirrored(s) == [-s[|s| - 1]] + Mirrored(s[..|s| - 1])
    ensures Negated(s) == Negated(s[..|s| - 1]) + [-s[|s| - 1]]
  {
  }

  lemma JoinedEitherWay(a: seq<real>, b: seq<real>, x: real)
    requires multiset(a) == multiset(b)
    ensures multiset([x] + a) == multiset(b + [x])
  {
  }

  function Occurrences(s: seq<real>, x: real): nat {
    if s == [] then 0 else (if s[0] == x then 1 else 0) + Occurrences(s[1..], x)
  }

  lemma {:induction false} OccurrencesIsMultiplicity(s: seq<real>, x: real)
    ensures multiset(s)[x] == Occurrences(s, x)
  {
    if s != [] {
      OccurrencesIsMultiplicity(s[1..], x);
      assert s == [s[0]] + s[1..];
    }
  }

  lemma {:induction false} NegatedOccurrences(s: seq<real>, t: seq<real>, x: real, y: real)
    requires t == Negated(s) && y == -x
    ensures Occurrences(t, y) == Occurrences(s, x)
  {
    if s != [] {
      assert t[1..] == Negated(s[1..]);
      NegatedOccurrences(s[1..], t[1..], x, y);
    }
  }

  lemma NegatedMultiset(s: seq<real>, t: seq<real>)
    requires multiset(s) == multiset(t)
    ensures multiset(Negated(s)) == multiset(Negated(t))
  {
    forall x ensures multiset(Negated(s))[x] == multiset(Negated(t))[x] {
      NegatedOccurrences(s, Negated(s), -x, x);
      NegatedOccurrences(t, Negated(t), -x, x);
      OccurrencesIsMultiplicity(s, -x);
      OccurrencesIsMultiplicity(t, -x);
      OccurrencesIsMultiplicity(Negated(s), x);
      OccurrencesIsMultiplicity(Negated(t), x);
    }
  }

  lemma SortOfNegated(s: seq<real>)
    ensures Sort(Negated(s), RealLe) == Mirrored(Sort(s, RealLe))
  {
    var sorted := Sort(s, RealLe);
    SortSorts(s, RealLe);
    SortSorts(Negated(s), RealLe);
    SortPermutes(s, RealLe);
    SortPermutes(Negated(s), RealLe);
    ReversedMultiset(sorted);
    NegatedMultiset(sorted, s);
    SortedUnique(Sort(Negated(s), RealLe), Mirrored(sorted), RealLe);
  }

  lemma MeansNegate(deltas: seq<real>, draws: seq<seq<nat>>)
    requires deltas != [] && ValidDraws(draws, |deltas|)
    ensures Means(Negated(deltas), draws) == Negated(Means(deltas, draws))
  {
    forall k | 0 <= k < |draws| ensures Means(Negated(deltas), draws)[k] == -Means(deltas, draws)[k] {
      assert ValidRow(draws[k], |deltas|);
      assert Picked(Negated(deltas), draws[k]) == Negated(Picked(deltas, draws[k]));
      MeanNegates(Picked(deltas, draws[k]));
    }
  }

  /** Both percentiles of the negated means, read off the means themselves. */
  lemma SortedNegatedPercentile(means: seq<real>, p: real)
    requires means != [] && 0.0 <= p <= 100.0
    ensures Percentile(Sort(Negated(means), RealLe), p) == -Percentile(Sort(means, RealLe), 100.0 - p)
  {
    SortOfNegated(means);
    PercentileOfMirrored(Sort(means, RealLe), Sort(Negated(means), RealLe), 100.0 - p, p);
  }

  lemma FromNegated(deltas: seq<real>, draws: seq<seq<nat>>, p: real, q: real)
    requires deltas != [] && draws != [] && ValidDraws(draws, |deltas|) && 0.0 <= p <= 100.0 && q == 100.0 - p
    ensures var r, r' := FromDeltas(deltas, draws, p, q), FromDeltas(Negated(deltas), draws, p, q);
      r'.point == -r.point && r'.interval.low == -r.interval.high && r'.interval.high == -r.interval.low
  {
    MeanNegates(deltas);
    MeansNegate(deltas, draws);
    SortedNegatedPercentile(Means(deltas, draws), p);
    SortedNegatedPercentile(Means(deltas, draws), q);
  }

  /** Swapping the conditions with the same draws negates the estimate and turns the interval
      [low, high] at the percentiles p, 100 - p into [-high, -low]. */
  lemma SwapNegates(baseline: Condition, treatment: Condition, draws: seq<seq<nat>>, p: real, q: real)
    requires ShapedDraws(baseline, treatment, draws) && 0.0 <= p <= 100.0 && q == 100.0 - p
    requires Result(baseline, treatment, draws, p, q).Ok?
    ensures ShapedDraws(treatment, baseline, draws)
    ensures Result(treatment, baseline, draws, p, q).Ok?
    ensures var r, r' := Result(baseline, treatment, draws, p, q), Result(treatment, baseline, draws, p, q);
      r'.point == -r.point && r'.interval.low == -r.interval.high && r'.interval.high == -r.interval.low
  {
    SharedIsSymmetric(baseline, treatment);
    var tasks := Listing(baseline.Keys * treatment.Keys);
    var deltas := Deltas(baseline, treatment, tasks);
    SwappedDeltas(baseline, treatment, tasks);
    ResultFromDeltas(baseline, treatment, draws, p, q);
    ResultFromDeltas(treatment, baseline, draws, p, q);
    FromNegated(deltas, draws, p, q);
  }

  lemma SwappedDeltas(baseline: Condition, treatment: Condition, tasks: seq<string>)
    requires Replicated(baseline, treatment, tasks)
    ensures Replicated(treatment, baseline, tasks)
    ensures Deltas(treatment, baseline, tasks) == Negated(Deltas(baseline, treatment, tasks))
  {
    forall i | 0 <= i < |tasks|
      ensures Deltas(treatment, baseline, tasks)[i] == -Deltas(baseline, treatment, tasks)[i]
    {
      assert tasks[i] in tasks;
    }
  }

  lemma SharedIsSymmetric(baseline: Condition, treatment: Condition)
    ensures baseline.Keys * treatment.Keys == treatment.Keys * baseline.Keys
  {
  }

  lemma ResultFromDeltas(baseline: Condition, treatment: Condition, draws: seq<seq<nat>>, p: real, q: real)
    requires ShapedDraws(baseline, treatment, draws) && 0.0 <= p <= 100.0 && 0.0 <= q <= 100.0
    requires baseline.Keys == treatment.Keys && baseline.Keys != {} && draws != []
    requires Replicated(baseline, treatment, Listing(baseline.Keys * treatment.Keys))
    ensures Result(baseline, treatment, draws, p, q)
         == FromDeltas(Deltas(baseline, treatment, Listing(baseline.Keys * treatment.Keys)), draws, p, q)
  {
  }
}
