/** What the bootstrap reports, written out in sums and quotients. */
module BootstrapFacts {
  import opened Bootstrap
  import opened Models
  import opened Ordering
  import opened RealAlgebra

  /** A sum: nothing to start with, and one more term at a time. */
  lemma TotalAdds(s: seq<real>, x: real)
    ensures Total([]) == 0.0 && Total(s + [x]) == Total(s) + x
  {
    assert (s + [x])[..|s|] == s;
  }

  ghost predicate Shared(baseline: Condition, treatment: Condition) {
    exists t :: t in baseline && t in treatment
  }

  ghost predicate OneSided(baseline: Condition, treatment: Condition) {
    exists t :: (t in baseline) != (t in treatment)
  }

  ghost predicate LacksReplicates(baseline: Condition, treatment: Condition, task: string) {
    task in baseline && task in treatment && (baseline[task] == [] || treatment[task] == [])
  }

  ghost predicate SomeLackReplicates(baseline: Condition, treatment: Condition) {
    exists t :: LacksReplicates(baseline, treatment, t)
  }

  /** Which error comes when, and what it names. */
  lemma OutcomeCases(baseline: Condition, treatment: Condition, draws: seq<seq<nat>>, p: real, q: real)
    requires ShapedDraws(baseline, treatment, draws) && 0.0 <= p <= 100.0 && 0.0 <= q <= 100.0
    ensures var r := Result(baseline, treatment, draws, p, q);
      if !Shared(baseline, treatment) then r.NothingShared?
      else if OneSided(baseline, treatment) then
        r.Unpaired? && forall t :: t in r.missing <==> (t in baseline) != (t in treatment)
      else if SomeLackReplicates(baseline, treatment) then
        && r.NoReplicates? && LacksReplicates(baseline, treatment, r.task)
        && forall t :: LacksReplicates(baseline, treatment, t) ==> StringLe(r.task, t)
      else if draws == [] then r.NoResamples?
      else r.Ok?
  {
    KeysDiffer(baseline, treatment);
    ReplicatedUnlessLacking(baseline, treatment);
  }

  lemma ReplicatedUnlessLacking(baseline: Condition, treatment: Condition)
    ensures var tasks := Listing(baseline.Keys * treatment.Keys);
      if SomeLackReplicates(baseline, treatment) then
        && !Replicated(baseline, treatment, tasks)
        && LacksReplicates(baseline, treatment, FirstEmpty(baseline, treatment, tasks))
        && forall t :: LacksReplicates(baseline, treatment, t) ==> StringLe(FirstEmpty(baseline, treatment, tasks), t)
      else Replicated(baseline, treatment, tasks)
  {
    var tasks := Listing(baseline.Keys * treatment.Keys);
    ListingInOrder(baseline.Keys * treatment.Keys);
    if !Replicated(baseline, treatment, tasks) {
      FirstEmptyIsLeast(baseline, treatment, tasks);
    }
    if t :| LacksReplicates(baseline, treatment, t) {
      assert t in baseline.Keys * treatment.Keys;
      assert t in tasks;
    }
  }

  lemma KeysDiffer(baseline: Condition, treatment: Condition)
    ensures baseline.Keys != treatment.Keys <==> OneSided(baseline, treatment)
    ensures Listing(baseline.Keys * treatment.Keys) == [] <==> !Shared(baseline, treatment)
    ensures forall t :: t in (baseline.Keys + treatment.Keys) - (baseline.Keys * treatment.Keys)
                   <==> (t in baseline) != (t in treatment)
  {
    if t :| t in baseline && t in treatment {
      assert t in baseline.Keys * treatment.Keys;
    }
    if !OneSided(baseline, treatment) {
      assert forall t :: t in baseline.Keys <==> t in treatment.Keys;
    }
  }

  lemma {:induction false} FirstEmptyIsLeast(baseline: Condition, treatment: Condition, tasks: seq<string>)
    requires forall t :: t in tasks ==> t in baseline && t in treatment
    requires Sorted(tasks, StringLe) && !Replicated(baseline, treatment, tasks)
    ensures var first := FirstEmpty(baseline, treatment, tasks);
      && first in tasks && LacksReplicates(baseline, treatment, first)
      && forall t :: t in tasks && LacksReplicates(baseline, treatment, t) ==> StringLe(first, t)
  {
    assert tasks == [tasks[0]] + tasks[1..];
    StringLeTotal(tasks[0], tasks[0]);
    if !LacksReplicates(baseline, treatment, tasks[0]) {
      FirstEmptyIsLeast(baseline, treatment, tasks[1..]);
    }
  }

  /** The treatment's mean less the baseline's. */
  ghost predicate IsDelta(baseline: Condition, treatment: Condition, task: string, delta: real) {
    && task in baseline && task in treatment && baseline[task] != [] && treatment[task] != []
    && delta == Total(treatment[task]) / |treatment[task]| as real - Total(baseline[task]) / |baseline[task]| as real
  }

  /** The point estimate: over the tasks in order, the mean of the treatment's replicates less the mean
      of the baseline's; these differences added up, over the number of tasks. */
  lemma PointIsMeanOfTaskDeltas(baseline: Condition, treatment: Condition, draws: seq<seq<nat>>, p: real, q: real)
      returns (tasks: seq<string>, deltas: seq<real>)
    requires ShapedDraws(baseline, treatment, draws) && 0.0 <= p <= 100.0 && 0.0 <= q <= 100.0
    requires Result(baseline, treatment, draws, p, q).Ok?
    ensures tasks != [] && Distinct(tasks) && Sorted(tasks, StringLe) && |deltas| == |tasks|
    ensures forall t :: (t in tasks <==> t in baseline) && (t in tasks <==> t in treatment)
    ensures forall i :: 0 <= i < |tasks| ==> IsDelta(baseline, treatment, tasks[i], deltas[i])
    ensures Result(baseline, treatment, draws, p, q).point == Total(deltas) / |tasks| as real
    ensures tasks == Listing(baseline.Keys * treatment.Keys) && Replicated(baseline, treatment, tasks)
    ensures deltas == Deltas(baseline, treatment, tasks)
  {
    tasks := Listing(baseline.Keys * treatment.Keys);
    deltas := Deltas(baseline, treatment, tasks);
    ListingInOrder(baseline.Keys * treatment.Keys);
    ResultFromDeltas(baseline, treatment, draws, p, q);
    DeltasAreMeanDifferences(baseline, treatment, tasks);
  }

  lemma DeltasAreMeanDifferences(baseline: Condition, treatment: Condition, tasks: seq<string>)
    requires Replicated(baseline, treatment, tasks)
    ensures forall i :: 0 <= i < |tasks| ==> IsDelta(baseline, treatment, tasks[i], Deltas(baseline, treatment, tasks)[i])
  {
    forall i | 0 <= i < |tasks| ensures IsDelta(baseline, treatment, tasks[i], Deltas(baseline, treatment, tasks)[i]) {
      assert tasks[i] in tasks;
    }
  }

  /** `value` on the straight lines through the values of `s` at their positions 0, 1, ..., read off `pct`
      percent of the way from the first to the last. */
  ghost predicate LiesAtPercent(s: seq<real>, pct: real, value: real) {
    exists k: nat, x: real :: AtRank(s, pct, value, k, x)
  }

  ghost predicate AtRank(s: seq<real>, pct: real, value: real, k: nat, x: real) {
    && k < |s| && x == pct / 100.0 * (|s| - 1) as real && k as real <= x
    && (if k + 1 == |s| then x == k as real && value == s[k]
        else x < (k + 1) as real && value == s[k] * (1.0 - (x - k as real)) + s[k + 1] * (x - k as real))
  }

  lemma PercentileLies(s: seq<real>, pct: real)
    requires s != [] && 0.0 <= pct <= 100.0
    ensures LiesAtPercent(s, pct, Percentile(s, pct))
  {
    if |s| == 1 {
      assert pct / 100.0 * (|s| - 1) as real == 0.0;
      assert AtRank(s, pct, Percentile(s, pct), 0, 0.0);
    } else {
      var x := Position(|s|, pct);
      var k: nat := x.Floor;
      if k + 1 == |s| {
        assert Percentile(s, pct) == Blend(s[k], s[k], x - k as real);
        BlendMirrors(s[k], s[k], x - k as real);
      } else {
        assert Percentile(s, pct) == Blend(s[k], s[k + 1], x - k as real);
      }
      assert AtRank(s, pct, Percentile(s, pct), k, x);
    }
  }

  /** What one draw of `n` task indices comes to. */
  ghost predicate IsResampled(deltas: seq<real>, row: seq<nat>, mean: real) {
    exists picked: seq<real> :: Drawn(deltas, row, picked) && mean == Total(picked) / |row| as real
  }

  ghost predicate Drawn(deltas: seq<real>, row: seq<nat>, picked: seq<real>) {
    |picked| == |row| && |row| > 0 && forall i :: 0 <= i < |row| ==> row[i] < |deltas| && picked[i] == deltas[row[i]]
  }

  lemma MeansAreResampled(deltas: seq<real>, draws: seq<seq<nat>>)
    requires deltas != [] && ValidDraws(draws, |deltas|)
    ensures forall k :: 0 <= k < |draws| ==> IsResampled(deltas, draws[k], Means(deltas, draws)[k])
  {
    forall k | 0 <= k < |draws| ensures IsResampled(deltas, draws[k], Means(deltas, draws)[k]) {
      assert ValidRow(draws[k], |deltas|) && Drawn(deltas, draws[k], Picked(deltas, draws[k]));
    }
  }

  /** The ends lie where they should among the means in order. */
  ghost predicate EndsAmong(means: seq<real>, sorted: seq<real>, p: real, q: real, ends: Interval) {
    && multiset(sorted) == multiset(means) && (forall i, j :: 0 <= i < j < |sorted| ==> sorted[i] <= sorted[j])
    && LiesAtPercent(sorted, p, ends.low) && LiesAtPercent(sorted, q, ends.high)
  }

  lemma EndsOfMeans(means: seq<real>, p: real, q: real)
    requires means != [] && 0.0 <= p <= 100.0 && 0.0 <= q <= 100.0
    ensures var sorted := Sort(means, RealLe);
      |sorted| == |means| && EndsAmong(means, sorted, p, q, Interval(Percentile(sorted, p), Percentile(sorted, q)))
  {
    var sorted := Sort(means, RealLe);
    SortedMeans(means);
    SortPermutes(means, RealLe);
    PercentileLies(sorted, p);
    PercentileLies(sorted, q);
  }

  /** Both ends: the mean of each resample, one for each row of draws; sorted; and the two percentiles. */
  lemma EndsAreInterpolated(baseline: Condition, treatment: Condition, draws: seq<seq<nat>>, p: real, q: real)
      returns (tasks: seq<string>, deltas: seq<real>, means: seq<real>, sorted: seq<real>)
    requires ShapedDraws(baseline, treatment, draws) && 0.0 <= p <= 100.0 && 0.0 <= q <= 100.0
    requires Result(baseline, treatment, draws, p, q).Ok?
    ensures Distinct(tasks) && Sorted(tasks, StringLe) && forall t :: t in tasks <==> t in baseline && t in treatment
    ensures |deltas| == |tasks| && forall i :: 0 <= i < |tasks| ==> IsDelta(baseline, treatment, tasks[i], deltas[i])
    ensures |means| == |draws| && forall k :: 0 <= k < |draws| ==> IsResampled(deltas, draws[k], means[k])
    ensures EndsAmong(means, sorted, p, q, Result(baseline, treatment, draws, p, q).interval)
  {
    tasks, deltas := PointIsMeanOfTaskDeltas(baseline, treatment, draws, p, q);
    means := Means(deltas, draws);
    sorted := Sort(means, RealLe);
    ResultFromDeltas(baseline, treatment, draws, p, q);
    MeansAreResampled(deltas, draws);
    EndsOfMeans(means, p, q);
  }
}
