/** Merging the runs of both detectors, and what the report then says about an episode. */
module StallReport {
  import opened Ordering
  import opened Stalls

  function KindRank(kind: Kind): nat {
    match kind
    case RepeatAction => 0
    case Cycle => 1
  }

  function KindName(kind: Kind): string {
    match kind
    case RepeatAction => "repeat_action"
    case Cycle => "cycle"
  }

  /** The reported action of a run: the names of its actions joined with bars. */
  function Label<A>(name: A -> string, run: Run<A>): string {
    Join(Apply(run.action, name))
  }

  /** The merge order: start, then the longer run, then the kind's rank, then the label. */
  predicate MergeLe<A>(name: A -> string, r: Run<A>, s: Run<A>) {
    r.start < s.start || (r.start == s.start && (r.length > s.length || (r.length == s.length &&
    (KindRank(r.kind) < KindRank(s.kind) || (r.kind == s.kind && StringLe(Label(name, r), Label(name, s)))))))
  }

  function MergeOrder<A>(name: A -> string): (Run<A>, Run<A>) -> bool {
    (r, s) => MergeLe(name, r, s)
  }

  /** The report order: start, then end, then the kind's name, then the label. */
  predicate ReportLe<A>(name: A -> string, r: Run<A>, s: Run<A>) {
    r.start < s.start || (r.start == s.start && (r.end < s.end || (r.end == s.end &&
    ((r.kind != s.kind && StringLe(KindName(r.kind), KindName(s.kind)))
     || (r.kind == s.kind && StringLe(Label(name, r), Label(name, s)))))))
  }

  function ReportOrder<A>(name: A -> string): (Run<A>, Run<A>) -> bool {
    (r, s) => ReportLe(name, r, s)
  }

  lemma MergeOrderIsTotal<A(!new)>(name: A -> string)
    ensures TotalPreorder(MergeOrder(name))
  {
    forall r: Run<A>, s: Run<A> ensures MergeLe(name, r, s) || MergeLe(name, s, r) {
      StringLeTotal(Label(name, r), Label(name, s));
    }
    forall r: Run<A>, s: Run<A>, t: Run<A> | MergeLe(name, r, s) && MergeLe(name, s, t) ensures MergeLe(name, r, t) {
      if StringLe(Label(name, r), Label(name, s)) && StringLe(Label(name, s), Label(name, t)) {
        StringLeTransitive(Label(name, r), Label(name, s), Label(name, t));
      }
    }
  }

  lemma ReportOrderIsTotal<A(!new)>(name: A -> string)
    ensures TotalPreorder(ReportOrder(name))
  {
    forall r: Run<A>, s: Run<A> ensures ReportLe(name, r, s) || ReportLe(name, s, r) {
      StringLeTotal(Label(name, r), Label(name, s));
      StringLeTotal(KindName(r.kind), KindName(s.kind));
    }
    assert StringLe("cycle", "repeat_action") && !StringLe("repeat_action", "cycle");
    forall r: Run<A>, s: Run<A>, t: Run<A> | ReportLe(name, r, s) && ReportLe(name, s, t) ensures ReportLe(name, r, t) {
      if StringLe(Label(name, r), Label(name, s)) && StringLe(Label(name, s), Label(name, t)) {
        StringLeTransitive(Label(name, r), Label(name, s), Label(name, t));
      }
    }
  }

  predicate Covered<A>(run: Run<A>, kept: seq<Run<A>>) {
    exists k :: 0 <= k < |kept| && run.Inside(kept[k])
  }

  /** The runs that no run kept before them contains. */
  function Keep<A>(ordered: seq<Run<A>>, kept: seq<Run<A>>): seq<Run<A>> {
    if ordered == [] then kept
    else Keep(ordered[1..], KeepOne(ordered[0], kept))
  }

  function Merge<A>(name: A -> string, runs: seq<Run<A>>): seq<Run<A>> {
    Sort(Keep(Sort(runs, MergeOrder(name)), []), ReportOrder(name))
  }

  method MergeRuns<A>(name: A -> string, runs: seq<Run<A>>) returns (merged: seq<Run<A>>)
    ensures merged == Merge(name, runs)
  {
    var ordered := Sort(runs, MergeOrder(name));
    var kept: seq<Run<A>> := [];
    var i := 0;
    while i < |ordered|
      invariant 0 <= i <= |ordered|
      invariant Keep(ordered[i..], kept) == Keep(ordered, [])
    {
      assert ordered[i..][0] == ordered[i] && ordered[i..][1..] == ordered[i + 1..];
      if !Covered(ordered[i], kept) {
        kept := kept + [ordered[i]];
      }
      i := i + 1;
    }
    assert ordered[|ordered|..] == [];
    merged := Sort(kept, ReportOrder(name));
  }

  // ---- the merged runs -----------------------------------------------------------------

  /** Strictly increasing starts and ends: no run contains another. */
  ghost predicate Staggered<A>(runs: seq<Run<A>>) {
    forall i, j :: 0 <= i < j < |runs| ==> runs[i].start < runs[j].start && runs[i].end < runs[j].end
  }

  ghost predicate AllWellFormed<A>(runs: seq<Run<A>>) {
    forall r :: r in runs ==> r.WellFormed()
  }

  /** Every run of `kept` comes no later than every run of `ordered` in the merge order. */
  ghost predicate Precede<A>(name: A -> string, kept: seq<Run<A>>, ordered: seq<Run<A>>) {
    forall k, i :: 0 <= k < |kept| && 0 <= i < |ordered| ==> MergeLe(name, kept[k], ordered[i])
  }

  /** What one step of the merge keeps. */
  function KeepOne<A>(run: Run<A>, kept: seq<Run<A>>): seq<Run<A>> {
    if Covered(run, kept) then kept else kept + [run]
  }

  lemma KeepOneStaggers<A(!new)>(name: A -> string, run: Run<A>, kept: seq<Run<A>>)
    requires run.WellFormed() && AllWellFormed(kept) && Staggered(kept) && Precede(name, kept, [run])
    ensures Staggered(KeepOne(run, kept)) && AllWellFormed(KeepOne(run, kept)) && Covered(run, KeepOne(run, kept))
  {
    if !Covered(run, kept) {
      forall k | 0 <= k < |kept| ensures kept[k].start < run.start && kept[k].end < run.end {
        assert MergeLe(name, kept[k], [run][0]) && !run.Inside(kept[k]);
        assert kept[k] in kept;
      }
      assert run.Inside((kept + [run])[|kept|]);
    }
  }

  lemma KeepOnePrecedes<A(!new)>(name: A -> string, ordered: seq<Run<A>>, kept: seq<Run<A>>)
    requires ordered != [] && Sorted(ordered, MergeOrder(name)) && Precede(name, kept, ordered)
    ensures Precede(name, kept, [ordered[0]]) && Precede(name, KeepOne(ordered[0], kept), ordered[1..])
  {
    var run, rest := ordered[0], ordered[1..];
    forall i | 0 <= i < |rest| ensures MergeLe(name, run, rest[i]) {
      assert MergeOrder(name)(ordered[0], ordered[i + 1]);
    }
  }

  lemma CoveredGrows<A>(run: Run<A>, kept: seq<Run<A>>, more: seq<Run<A>>)
    requires Covered(run, kept) && kept <= more
    ensures Covered(run, more)
  {
    var k :| 0 <= k < |kept| && run.Inside(kept[k]);
    assert more[k] == kept[k];
  }

  lemma {:induction false} KeepStaggers<A(!new)>(name: A -> string, ordered: seq<Run<A>>, kept: seq<Run<A>>)
    requires Sorted(ordered, MergeOrder(name)) && AllWellFormed(ordered) && AllWellFormed(kept) && Staggered(kept)
    requires Precede(name, kept, ordered)
    ensures Staggered(Keep(ordered, kept)) && kept <= Keep(ordered, kept)
    ensures forall r :: r in Keep(ordered, kept) ==> r in kept || r in ordered
    ensures forall r :: r in ordered ==> Covered(r, Keep(ordered, kept))
  {
    if ordered != [] {
      var run, rest, next := ordered[0], ordered[1..], KeepOne(ordered[0], kept);
      assert ordered == [run] + rest;
      assert AllWellFormed(rest);
      KeepOnePrecedes(name, ordered, kept);
      KeepOneStaggers(name, run, kept);
      KeepStaggers(name, rest, next);
      CoveredGrows(run, next, Keep(rest, next));
    }
  }

  /** What the final sort receives is already in report order. */
  lemma StaggeredIsSorted<A(!new)>(name: A -> string, runs: seq<Run<A>>)
    requires Staggered(runs)
    ensures Sorted(runs, ReportOrder(name)) && Sorted(runs, MergeOrder(name))
    ensures Sort(runs, ReportOrder(name)) == runs && Sort(runs, MergeOrder(name)) == runs
  {
    ReportOrderIsTotal(name);
    MergeOrderIsTotal(name);
    SortOfSorted(runs, ReportOrder(name));
    SortOfSorted(runs, MergeOrder(name));
  }

  /** The kept runs come from the input, have strictly increasing starts and ends, hence none
      contains another, and every input run lies inside one of them. */
  lemma MergeFacts<A(!new)>(name: A -> string, runs: seq<Run<A>>)
    requires AllWellFormed(runs)
    ensures Staggered(Merge(name, runs))
    ensures forall r :: r in Merge(name, runs) ==> r in runs
    ensures forall r :: r in runs ==> Covered(r, Merge(name, runs))
  {
    var ordered := Sort(runs, MergeOrder(name));
    MergeOrderIsTotal(name);
    SortSorts(runs, MergeOrder(name));
    SortMembers(runs, MergeOrder(name));
    KeepStaggers(name, ordered, []);
    StaggeredIsSorted(name, Keep(ordered, []));
  }

  lemma {:induction false} KeepAllStaggered<A>(ordered: seq<Run<A>>, kept: seq<Run<A>>)
    requires Staggered(kept + ordered)
    ensures Keep(ordered, kept) == kept + ordered
  {
    if ordered == [] {
      assert kept + [] == kept;
    } else {
      var whole, n := kept + ordered, |kept|;
      forall k | 0 <= k < n ensures !ordered[0].Inside(kept[k]) {
        assert whole[k] == kept[k] && whole[n] == ordered[0];
      }
      assert (kept + [ordered[0]]) + ordered[1..] == whole;
      KeepAllStaggered(ordered[1..], kept + [ordered[0]]);
    }
  }

  /** Merging merged runs changes nothing. */
  lemma MergeIsIdempotent<A(!new)>(name: A -> string, runs: seq<Run<A>>)
    requires AllWellFormed(runs)
    ensures Merge(name, Merge(name, runs)) == Merge(name, runs)
  {
    MergeFacts(name, runs);
    var merged := Merge(name, runs);
    StaggeredIsSorted(name, merged);
    assert [] + merged == merged;
    KeepAllStaggered(merged, []);
  }

  /** The order the detectors ran in does not matter when the key tells the runs apart. */
  lemma MergeIgnoresOrder<A(!new)>(name: A -> string, runs: seq<Run<A>>, runs': seq<Run<A>>)
    requires multiset(runs) == multiset(runs') && KeyDetermines(multiset(runs), MergeOrder(name))
    ensures Merge(name, runs) == Merge(name, runs')
  {
    MergeOrderIsTotal(name);
    SortIgnoresOrder(runs, runs', MergeOrder(name));
  }

  // ---- the report ---------------------------------------------------------------------

  function DetectedRuns<A(==), F(==)>(name: A -> string, actions: seq<A>, prints: seq<F>, mMin: int, cycleMax: int,
                          whitelist: set<A>): seq<Run<A>>
    requires |prints| == |actions|
  {
    RepeatsFrom(actions, prints, mMin, whitelist, 0) + CyclesFrom(actions, prints, cycleMax, whitelist, 2)
  }

  method DetectStalls<A(==), F(==)>(name: A -> string, actions: seq<A>, prints: seq<F>, mMin: int, cycleMax: int,
                        whitelist: set<A>)
      returns (stallRuns: seq<Run<A>>, stalled: bool)
    requires |prints| == |actions|
    ensures stallRuns == Merge(name, DetectedRuns(name, actions, prints, mMin, cycleMax, whitelist))
    ensures stalled <==> stallRuns != []
  {
    var runs := RepeatRuns(actions, prints, mMin, whitelist);
    var cycles := CycleRuns(actions, prints, cycleMax, whitelist);
    runs := runs + cycles;
    stallRuns := MergeRuns(name, runs);
    stalled := |stallRuns| > 0;
  }

  /** A cycle run: a scan hit of some period from 2 to the cap, with a proper pattern. */
  ghost predicate IsCycleRun<A(!new), F>(actions: seq<A>, prints: seq<F>, cycleMax: int, whitelist: set<A>, run: Run<A>)
    requires |prints| == |actions|
  {
    IsCycleRunFrom(actions, prints, cycleMax, whitelist, 2, run)
  }

  ghost predicate IsCycleRunFrom<A(!new), F>(actions: seq<A>, prints: seq<F>, cycleMax: int, whitelist: set<A>, first: nat,
                                       run: Run<A>)
    requires |prints| == |actions| && first >= 1
  {
    exists period: nat :: first <= period <= cycleMax && IsCycleRunOf(actions, prints, whitelist, period, run)
  }

  ghost predicate IsCycleRunOf<A(!new), F>(actions: seq<A>, prints: seq<F>, whitelist: set<A>, period: nat, run: Run<A>)
    requires |prints| == |actions| && period >= 1
  {
    exists hit :: hit in HitsFrom(actions, prints, period, 0) && run in RunsOfHit(actions, whitelist, period, hit)
  }

  lemma FoundByScan<A(!new), F>(actions: seq<A>, prints: seq<F>, whitelist: set<A>, period: nat, run: Run<A>)
    requires |prints| == |actions| && period >= 1
    ensures FoundFrom(actions, prints, period, RunsOf(actions, whitelist, period), 0, run)
       <==> IsCycleRunOf(actions, prints, whitelist, period, run)
  {
    forall hit: Hit ensures RunsOf(actions, whitelist, period)(hit) == RunsOfHit(actions, whitelist, period, hit) {}
  }

  lemma {:induction false} CyclesFromMembers<A(!new), F>(actions: seq<A>, prints: seq<F>, cycleMax: int, whitelist: set<A>,
                                        first: nat, run: Run<A>)
    requires |prints| == |actions| && first >= 2
    ensures ListsCycle(actions, prints, cycleMax, whitelist, first, run)
    decreases cycleMax + 1 - first
  {
    if first <= cycleMax {
      CyclesFromMembers(actions, prints, cycleMax, whitelist, first + 1, run);
      OneMorePeriod(actions, prints, cycleMax, whitelist, first, run);
    } else {
      NoMorePeriods(actions, prints, cycleMax, whitelist, first, run);
    }
  }

  /** The runs from a period on list this one exactly when it is a cycle run of such a period. */
  ghost predicate ListsCycle<A(!new), F>(actions: seq<A>, prints: seq<F>, cycleMax: int, whitelist: set<A>, first: nat, run: Run<A>)
    requires |prints| == |actions| && first >= 2
  {
    run in CyclesFrom(actions, prints, cycleMax, whitelist, first) <==> IsCycleRunFrom(actions, prints, cycleMax, whitelist, first, run)
  }

  lemma NoMorePeriods<A(!new), F>(actions: seq<A>, prints: seq<F>, cycleMax: int, whitelist: set<A>, first: nat, run: Run<A>)
    requires |prints| == |actions| && 2 <= first && cycleMax < first
    ensures ListsCycle(actions, prints, cycleMax, whitelist, first, run)
  {
  }

  lemma OneMorePeriod<A(!new), F>(actions: seq<A>, prints: seq<F>, cycleMax: int, whitelist: set<A>, first: nat, run: Run<A>)
    requires |prints| == |actions| && 2 <= first <= cycleMax
    requires ListsCycle(actions, prints, cycleMax, whitelist, first + 1, run)
    ensures ListsCycle(actions, prints, cycleMax, whitelist, first, run)
  {
    CyclesFromSplits(actions, prints, cycleMax, whitelist, first, run);
    PendingMembers(actions, prints, first, RunsOf(actions, whitelist, first), 0, run);
    FoundByScan(actions, prints, whitelist, first, run);
    IsCycleRunSplits(actions, prints, cycleMax, whitelist, first, run);
  }

  lemma CyclesFromSplits<A(!new), F>(actions: seq<A>, prints: seq<F>, cycleMax: int, whitelist: set<A>, first: nat, run: Run<A>)
    requires |prints| == |actions| && 2 <= first <= cycleMax
    ensures run in CyclesFrom(actions, prints, cycleMax, whitelist, first)
       <==> run in Pending(actions, prints, whitelist, first) || run in CyclesFrom(actions, prints, cycleMax, whitelist, first + 1)
  {
  }

  lemma IsCycleRunSplits<A(!new), F>(actions: seq<A>, prints: seq<F>, cycleMax: int, whitelist: set<A>, first: nat, run: Run<A>)
    requires |prints| == |actions| && 2 <= first <= cycleMax
    ensures IsCycleRunFrom(actions, prints, cycleMax, whitelist, first, run)
       <==> IsCycleRunOf(actions, prints, whitelist, first, run) || IsCycleRunFrom(actions, prints, cycleMax, whitelist, first + 1, run)
  {
    if period: nat :| first <= period <= cycleMax && IsCycleRunOf(actions, prints, whitelist, period, run) {
      assert period == first || first + 1 <= period;
    }
  }

  lemma CycleRunWellFormed<A(!new), F>(actions: seq<A>, prints: seq<F>, whitelist: set<A>, period: nat, run: Run<A>)
    requires |prints| == |actions| && period >= 1 && IsCycleRunOf(actions, prints, whitelist, period, run)
    ensures run.WellFormed()
  {
    var hit :| hit in HitsFrom(actions, prints, period, 0) && run in RunsOfHit(actions, whitelist, period, hit);
    HitsAreMaximal(actions, prints, period, 0, hit);
  }

  lemma DetectedMembers<A(!new), F>(name: A -> string, actions: seq<A>, prints: seq<F>, mMin: int, cycleMax: int,
                              whitelist: set<A>, run: Run<A>)
    requires |prints| == |actions|
    ensures run in DetectedRuns(name, actions, prints, mMin, cycleMax, whitelist)
       <==> IsRepeatRun(actions, prints, mMin, whitelist, run) || IsCycleRun(actions, prints, cycleMax, whitelist, run)
  {
    RepeatRunsAreMaximalBlocks(actions, prints, mMin, whitelist, run);
    CyclesFromMembers(actions, prints, cycleMax, whitelist, 2, run);
  }

  lemma DetectedWellFormed<A(!new), F>(name: A -> string, actions: seq<A>, prints: seq<F>, mMin: int, cycleMax: int,
                                 whitelist: set<A>)
    requires |prints| == |actions|
    ensures AllWellFormed(DetectedRuns(name, actions, prints, mMin, cycleMax, whitelist))
  {
    forall run | run in DetectedRuns(name, actions, prints, mMin, cycleMax, whitelist) ensures run.WellFormed() {
      DetectedMembers(name, actions, prints, mMin, cycleMax, whitelist, run);
      if IsCycleRun(actions, prints, cycleMax, whitelist, run) {
        var period: nat :| 2 <= period <= cycleMax && IsCycleRunOf(actions, prints, whitelist, period, run);
        CycleRunWellFormed(actions, prints, whitelist, period, run);
      }
    }
  }

  /** The report: each run is a maximal repeated block or a proper scan hit, each such block and
      hit lies inside a reported run, and no reported run contains another. */
  lemma ReportIsExact<A(!new), F>(name: A -> string, actions: seq<A>, prints: seq<F>, mMin: int, cycleMax: int,
                        whitelist: set<A>, run: Run<A>)
    requires |prints| == |actions|
    ensures var report := Merge(name, DetectedRuns(name, actions, prints, mMin, cycleMax, whitelist));
      var found := IsRepeatRun(actions, prints, mMin, whitelist, run) || IsCycleRun(actions, prints, cycleMax, whitelist, run);
      && (run in report ==> found)
      && (found ==> Covered(run, report))
      && Staggered(report)
  {
    DetectedWellFormed(name, actions, prints, mMin, cycleMax, whitelist);
    MergeFacts(name, DetectedRuns(name, actions, prints, mMin, cycleMax, whitelist));
    DetectedMembers(name, actions, prints, mMin, cycleMax, whitelist, run);
  }

  lemma UniformPatternsAreNotCycles<A>(pattern: seq<A>, whitelist: set<A>, a: A)
    requires pattern != [] && forall i :: 0 <= i < |pattern| ==> pattern[i] == a
    ensures !IsProperCycle(pattern, whitelist)
  {
    assert pattern[0] in Symbols(pattern);
    assert Symbols(pattern) == {a};
  }

  lemma BlockStepsAreAlike<A, F>(actions: seq<A>, prints: seq<F>, start: nat, end: nat)
    requires |prints| == |actions| && MaximalBlock(actions, prints, start, end) && start < end
    ensures prints[start] == prints[start + 1]
  {
    assert Same(actions, prints, start + 1, start);
  }

  // ---- the key of the merge ----------------------------------------------------------------------

  lemma {:induction false} JoinSplits(a: seq<string>, b: seq<string>)
    requires a != [] && b != []
    ensures Join(a + b) == Join(a) + "|" + Join(b)
  {
    if |a| == 1 {
      assert (a + b)[1..] == b;
    } else {
      assert (a + b)[1..] == a[1..] + b;
      JoinSplits(a[1..], b);
    }
  }

  /** A longer period with the same start has a longer label, whatever the names. */
  lemma LongerPatternLongerLabel<A>(name: A -> string, actions: seq<A>, start: nat, p: nat, q: nat)
    requires 1 <= p < q && start + q <= |actions|
    ensures |Join(Apply(actions[start..start + p], name))| < |Join(Apply(actions[start..start + q], name))|
  {
    var all := Apply(actions[start..start + q], name);
    assert Apply(actions[start..start + p], name) == all[..p] && all == all[..p] + all[p..];
    JoinSplits(all[..p], all[p..]);
  }

  lemma SameKey<A>(name: A -> string, r: Run<A>, s: Run<A>)
    requires MergeLe(name, r, s) && MergeLe(name, s, r)
    ensures r.start == s.start && r.length == s.length && r.kind == s.kind && Label(name, r) == Label(name, s)
  {
    if StringLe(Label(name, r), Label(name, s)) && StringLe(Label(name, s), Label(name, r)) {
      StringLeAntisymmetric(Label(name, r), Label(name, s));
    }
  }

  /** Two cycle runs with the same start, length and label are one: the label gives the period away. */
  lemma LabelGivesPeriodAway<A>(name: A -> string, actions: seq<A>, p: nat, q: nat, hit: Hit)
    requires 1 <= p <= q && hit.start + q <= |actions|
    requires Label(name, CycleRun(actions, p, hit)) == Label(name, CycleRun(actions, q, hit))
    ensures p == q
  {
    if p < q {
      LongerPatternLongerLabel(name, actions, hit.start, p, q);
    }
  }

  lemma CycleRunsTellApart<A(!new), F>(name: A -> string, actions: seq<A>, prints: seq<F>, cycleMax: int, whitelist: set<A>,
                                       r: Run<A>, s: Run<A>)
    requires |prints| == |actions| && IsCycleRun(actions, prints, cycleMax, whitelist, r)
    requires IsCycleRun(actions, prints, cycleMax, whitelist, s)
    requires r.start == s.start && r.length == s.length && Label(name, r) == Label(name, s)
    ensures r == s
  {
    var p: nat :| 2 <= p <= cycleMax && IsCycleRunOf(actions, prints, whitelist, p, r);
    var q: nat :| 2 <= q <= cycleMax && IsCycleRunOf(actions, prints, whitelist, q, s);
    var hit := HitOfCycle(actions, prints, whitelist, p, r);
    var other := HitOfCycle(actions, prints, whitelist, q, s);
    assert hit == other;
    if p <= q {
      LabelGivesPeriodAway(name, actions, p, q, hit);
    } else {
      LabelGivesPeriodAway(name, actions, q, p, hit);
    }
  }

  lemma KindsOfRuns<A(!new), F>(actions: seq<A>, prints: seq<F>, mMin: int, cycleMax: int, whitelist: set<A>, run: Run<A>)
    requires |prints| == |actions|
    ensures IsRepeatRun(actions, prints, mMin, whitelist, run) ==> run.kind == RepeatAction
    ensures IsCycleRun(actions, prints, cycleMax, whitelist, run) ==> run.kind == Cycle
  {
  }

  /** The merge order tells apart whatever the two scans find. */
  lemma DetectedRunsHaveKeys<A(!new), F>(name: A -> string, actions: seq<A>, prints: seq<F>, mMin: int, cycleMax: int,
                                         whitelist: set<A>)
    requires |prints| == |actions|
    ensures KeyDetermines(multiset(DetectedRuns(name, actions, prints, mMin, cycleMax, whitelist)), MergeOrder(name))
  {
    var runs := DetectedRuns(name, actions, prints, mMin, cycleMax, whitelist);
    forall r, s | r in multiset(runs) && s in multiset(runs) && MergeOrder(name)(r, s) && MergeOrder(name)(s, r) ensures r == s {
      SameKey(name, r, s);
      DetectedMembers(name, actions, prints, mMin, cycleMax, whitelist, r);
      DetectedMembers(name, actions, prints, mMin, cycleMax, whitelist, s);
      KindsOfRuns(actions, prints, mMin, cycleMax, whitelist, r);
      KindsOfRuns(actions, prints, mMin, cycleMax, whitelist, s);
      if r.kind == Cycle {
        CycleRunsTellApart(name, actions, prints, cycleMax, whitelist, r, s);
      }
    }
  }

  /** In whatever order the scans hand over what they find, the report is the same. */
  lemma ReportIgnoresOrder<A(!new), F>(name: A -> string, actions: seq<A>, prints: seq<F>, mMin: int, cycleMax: int,
                                       whitelist: set<A>, runs: seq<Run<A>>)
    requires |prints| == |actions|
    requires multiset(runs) == multiset(DetectedRuns(name, actions, prints, mMin, cycleMax, whitelist))
    ensures Merge(name, runs) == Merge(name, DetectedRuns(name, actions, prints, mMin, cycleMax, whitelist))
  {
    DetectedRunsHaveKeys(name, actions, prints, mMin, cycleMax, whitelist);
    MergeIgnoresOrder(name, runs, DetectedRuns(name, actions, prints, mMin, cycleMax, whitelist));
  }

  // ---- which run is kept ---------------------------------------------------------------------------

  /** What the merge keeps beyond `kept` lies inside nothing kept before, and comes no later in the merge
      order than any run around it. */
  ghost predicate KeptFirst<A(!new)>(name: A -> string, ordered: seq<Run<A>>, kept: seq<Run<A>>, run: Run<A>) {
    !Covered(run, kept) && forall s :: s in ordered && run.Inside(s) ==> MergeLe(name, run, s)
  }

  lemma {:induction false} KeptComesFirst<A(!new)>(name: A -> string, ordered: seq<Run<A>>, kept: seq<Run<A>>, run: Run<A>)
    requires Sorted(ordered, MergeOrder(name)) && run in Keep(ordered, kept) && run !in kept
    ensures KeptFirst(name, ordered, kept, run)
  {
    if ordered != [] {
      var first, rest, next := ordered[0], ordered[1..], KeepOne(ordered[0], kept);
      assert ordered == [first] + rest;
      if run in next {
        assert run == first && !Covered(first, kept);
        forall s | s in ordered ensures MergeLe(name, first, s) { HeadOfMerge(name, ordered, s); }
      } else {
        KeptComesFirst(name, rest, next, run);
        FirstIsCovered(first, kept);
        NotInsideCovered(run, first, next);
        if Covered(run, kept) { CoveredGrows(run, kept, next); }
      }
    }
  }

  lemma HeadOfMerge<A(!new)>(name: A -> string, ordered: seq<Run<A>>, s: Run<A>)
    requires Sorted(ordered, MergeOrder(name)) && s in ordered
    ensures MergeLe(name, ordered[0], s)
  {
    var i :| 0 <= i < |ordered| && ordered[i] == s;
    if i == 0 {
      StringLeTotal(Label(name, s), Label(name, s));
    } else {
      assert MergeOrder(name)(ordered[0], ordered[i]);
    }
  }

  lemma FirstIsCovered<A>(run: Run<A>, kept: seq<Run<A>>)
    ensures Covered(run, KeepOne(run, kept)) && kept <= KeepOne(run, kept)
  {
    if !Covered(run, kept) { assert run.Inside((kept + [run])[|kept|]); }
  }

  lemma NotInsideCovered<A>(run: Run<A>, other: Run<A>, kept: seq<Run<A>>)
    requires Covered(other, kept) && !Covered(run, kept)
    ensures !run.Inside(other)
  {
    var k :| 0 <= k < |kept| && other.Inside(kept[k]);
    assert !run.Inside(kept[k]);
  }

  /** A reported run comes first in the merge order among the found runs around it. */
  lemma ReportedComesFirst<A(!new)>(name: A -> string, runs: seq<Run<A>>, run: Run<A>, other: Run<A>)
    requires run in Merge(name, runs) && other in runs && run.Inside(other)
    ensures MergeLe(name, run, other)
  {
    var ordered := Sort(runs, MergeOrder(name));
    MergeOrderIsTotal(name);
    SortSorts(runs, MergeOrder(name));
    SortMembers(runs, MergeOrder(name));
    SortMembers(Keep(ordered, []), ReportOrder(name));
    KeptComesFirst(name, ordered, [], run);
  }

  lemma ProperPrefixComesFirst(a: string, b: string)
    requires b != ""
    ensures !StringLe(a + b, a)
  {
    StringLeMeans(a + b, a);
    forall k | 0 <= k < |a| ensures (a + b)[k] == a[k] {}
  }

  lemma ShorterLabelComesFirst<A>(name: A -> string, actions: seq<A>, start: nat, p: nat, q: nat)
    requires 1 <= p < q && start + q <= |actions|
    ensures !StringLe(Join(Apply(actions[start..start + q], name)), Join(Apply(actions[start..start + p], name)))
  {
    var all := Apply(actions[start..start + q], name);
    assert Apply(actions[start..start + p], name) == all[..p] && all == all[..p] + all[p..];
    JoinSplits(all[..p], all[p..]);
    ProperPrefixComesFirst(Join(all[..p]), "|" + Join(all[p..]));
    assert Join(all[..p]) + "|" + Join(all[p..]) == Join(all[..p]) + ("|" + Join(all[p..]));
  }

  /** Of two cycle runs over the same steps the merge does not keep the one with the longer period. */
  lemma LongerPeriodIsDropped<A(!new)>(name: A -> string, actions: seq<A>, runs: seq<Run<A>>, p: nat, q: nat, own: Hit, hit: Hit)
    requires 1 <= q < p && own == hit && hit.start + p <= |actions|
    requires CycleRun(actions, q, hit) in runs
    ensures CycleRun(actions, p, own) !in Merge(name, runs)
  {
    var run, other := CycleRun(actions, p, own), CycleRun(actions, q, hit);
    if run in Merge(name, runs) {
      ReportedComesFirst(name, runs, run, other);
      ShorterLabelComesFirst(name, actions, hit.start, q, p);
    }
  }

  lemma ProperHitHasRun<A>(actions: seq<A>, whitelist: set<A>, period: nat, hit: Hit, run: Run<A>)
    ensures run in RunsOfHit(actions, whitelist, period, hit)
       <==> hit.start + period <= |actions| && IsProperCycle(actions[hit.start..hit.start + period], whitelist)
            && run == CycleRun(actions, period, hit)
  {
  }

  lemma ProperHitIsDetected<A(!new), F>(name: A -> string, actions: seq<A>, prints: seq<F>, mMin: int, cycleMax: int,
                                        whitelist: set<A>, q: nat, hit: Hit)
    requires |prints| == |actions| && 2 <= q <= cycleMax && hit in HitsFrom(actions, prints, q, 0) && hit.start + q <= |actions|
    requires IsProperCycle(actions[hit.start..hit.start + q], whitelist)
    ensures CycleRun(actions, q, hit) in DetectedRuns(name, actions, prints, mMin, cycleMax, whitelist)
  {
    var run := CycleRun(actions, q, hit);
    ProperHitHasRun(actions, whitelist, q, hit, run);
    assert IsCycleRunOf(actions, prints, whitelist, q, run);
    DetectedMembers(name, actions, prints, mMin, cycleMax, whitelist, run);
  }

  /** Of the cycles over the same steps the one with the least period is reported. */
  lemma LeastPeriodIsReported<A(!new), F>(name: A -> string, actions: seq<A>, prints: seq<F>, mMin: int, cycleMax: int,
                                          whitelist: set<A>, run: Run<A>, q: nat, hit: Hit)
    requires |prints| == |actions| && 2 <= q <= cycleMax && run.kind == Cycle
    requires run in Merge(name, DetectedRuns(name, actions, prints, mMin, cycleMax, whitelist))
    requires hit in HitsFrom(actions, prints, q, 0) && hit.start + q <= |actions|
    requires IsProperCycle(actions[hit.start..hit.start + q], whitelist)
    requires run.start == hit.start && run.end == hit.start + hit.covered - 1
    ensures run.period <= q
  {
    var runs := DetectedRuns(name, actions, prints, mMin, cycleMax, whitelist);
    ProperHitIsDetected(name, actions, prints, mMin, cycleMax, whitelist, q, hit);
    var p, own := ReportedCycle(name, actions, prints, mMin, cycleMax, whitelist, run);
    if q < p { LongerPeriodIsDropped(name, actions, runs, p, q, own, hit); }
  }

  lemma ReportedCycle<A(!new), F>(name: A -> string, actions: seq<A>, prints: seq<F>, mMin: int, cycleMax: int,
                                  whitelist: set<A>, run: Run<A>) returns (p: nat, hit: Hit)
    requires |prints| == |actions| && run.kind == Cycle
    requires run in Merge(name, DetectedRuns(name, actions, prints, mMin, cycleMax, whitelist))
    ensures 2 <= p <= cycleMax && hit in HitsFrom(actions, prints, p, 0) && hit.start + p <= |actions|
    ensures run == CycleRun(actions, p, hit) && IsProperCycle(actions[hit.start..hit.start + p], whitelist)
  {
    ReportIsExact(name, actions, prints, mMin, cycleMax, whitelist, run);
    KindsOfRuns(actions, prints, mMin, cycleMax, whitelist, run);
    p :| 2 <= p <= cycleMax && IsCycleRunOf(actions, prints, whitelist, p, run);
    hit := HitOfCycle(actions, prints, whitelist, p, run);
  }

  lemma HitOfCycle<A(!new), F>(actions: seq<A>, prints: seq<F>, whitelist: set<A>, period: nat, run: Run<A>) returns (hit: Hit)
    requires |prints| == |actions| && period >= 1 && IsCycleRunOf(actions, prints, whitelist, period, run)
    ensures hit in HitsFrom(actions, prints, period, 0) && hit.start + period <= |actions|
    ensures run == CycleRun(actions, period, hit) && IsProperCycle(actions[hit.start..hit.start + period], whitelist)
  {
    hit :| hit in HitsFrom(actions, prints, period, 0) && run in RunsOfHit(actions, whitelist, period, hit);
    ProperHitHasRun(actions, whitelist, period, hit, run);
  }

  // ---- what a reported run says ----------------------------------------------------------------------

  /** Two actions in the period, and one that is not whitelisted. */
  lemma ProperCycleMeans<A>(pattern: seq<A>, whitelist: set<A>)
    requires pattern != []
    ensures IsProperCycle(pattern, whitelist) <==>
      (exists i :: 0 <= i < |pattern| && pattern[i] != pattern[0]) && exists i :: 0 <= i < |pattern| && pattern[i] !in whitelist
  {
    assert pattern[0] in Symbols(pattern);
    if forall i :: 0 <= i < |pattern| ==> pattern[i] == pattern[0] {
      assert Symbols(pattern) == {pattern[0]};
    }
    if i :| 0 <= i < |pattern| && pattern[i] != pattern[0] {
      OneSymbol(Symbols(pattern), pattern[0], pattern[i]);
    }
    if i :| 0 <= i < |pattern| && pattern[i] !in whitelist {
      assert pattern[i] in Symbols(pattern);
    }
  }

  lemma OneSymbol<A>(s: set<A>, x: A, y: A)
    requires x in s && y in s && x != y
    ensures |s| != 1
  {
    assert |s - {x}| == |s| - 1;
    assert y in s - {x};
  }

  /** One action after one view, over and over, from where it starts to where it ends. */
  ghost predicate SaysRepeat<A, F>(actions: seq<A>, prints: seq<F>, mMin: int, whitelist: set<A>, run: Run<A>) {
    && |prints| == |actions| && 0 <= run.start <= run.end < |actions| && run.length == run.end - run.start + 1 && run.length >= mMin
    && run.period == 0 && run.action == [actions[run.start]] && actions[run.start] !in whitelist
    && (forall k :: run.start <= k <= run.end ==> actions[k] == actions[run.start] && prints[k] == prints[run.start])
    && (run.start > 0 ==> actions[run.start - 1] != actions[run.start] || prints[run.start - 1] != prints[run.start])
    && (run.end + 1 < |actions| ==> actions[run.end + 1] != actions[run.start] || prints[run.end + 1] != prints[run.start])
  }

  /** A pattern of two actions or more, not all of them whitelisted. */
  ghost predicate SaysPattern<A>(actions: seq<A>, whitelist: set<A>, run: Run<A>) {
    && 0 <= run.start && 1 <= run.period && run.start + run.period <= |actions|
    && run.action == actions[run.start..run.start + run.period]
    && (exists i :: 0 <= i < run.period && run.action[i] != run.action[0])
    && (exists i :: 0 <= i < run.period && run.action[i] !in whitelist)
  }

  /** Actions and views come back after a period from `start` to `end`, and not one step further. */
  ghost predicate ComesBack<A, F>(actions: seq<A>, prints: seq<F>, period: int, start: int, end: int)
  {
    && |prints| == |actions| && 1 <= period && 0 <= start && start + period <= end + 1 <= |actions|
    && (forall k, l :: start <= k && l == k + period && l <= end ==> actions[l] == actions[k] && prints[l] == prints[k])
    && (end + 1 < |actions| ==> actions[end + 1] != actions[end + 1 - period] || prints[end + 1] != prints[end + 1 - period])
  }

  /** A proper pattern over two periods or more. */
  ghost predicate SaysCycle<A, F>(actions: seq<A>, prints: seq<F>, cycleMax: int, whitelist: set<A>, run: Run<A>) {
    && run.length == run.end - run.start + 1 && 2 <= run.period <= cycleMax && run.length >= 2 * run.period
    && SaysPattern(actions, whitelist, run) && ComesBack(actions, prints, run.period, run.start, run.end)
  }

  lemma HitComesBack<A, F>(actions: seq<A>, prints: seq<F>, period: nat, hit: Hit)
    requires |prints| == |actions| && period >= 1 && IsHit(actions, prints, period, hit)
    ensures ComesBack(actions, prints, period, hit.start, hit.start + hit.covered - 1)
  {
    forall k, l | hit.start <= k && l == k + period && l < hit.End() ensures actions[l] == actions[k] && prints[l] == prints[k] {
      assert Same(actions, prints, l, k);
    }
  }

  lemma ProperCycleSays<A>(actions: seq<A>, whitelist: set<A>, period: nat, hit: Hit)
    requires 1 <= period && hit.start + period <= |actions| && IsProperCycle(actions[hit.start..hit.start + period], whitelist)
    ensures SaysPattern(actions, whitelist, CycleRun(actions, period, hit))
  {
    var pattern, run := actions[hit.start..hit.start + period], CycleRun(actions, period, hit);
    ProperCycleMeans(pattern, whitelist);
    var i :| 0 <= i < |pattern| && pattern[i] != pattern[0];
    var j :| 0 <= j < |pattern| && pattern[j] !in whitelist;
    assert run.action == pattern && run.action[i] != run.action[0] && run.action[j] !in whitelist;
  }

  lemma CycleSays<A, F>(actions: seq<A>, prints: seq<F>, cycleMax: int, whitelist: set<A>, period: nat, hit: Hit, run: Run<A>)
    requires |prints| == |actions| && 2 <= period <= cycleMax && IsHit(actions, prints, period, hit)
    requires run == CycleRun(actions, period, hit) && SaysPattern(actions, whitelist, run)
    ensures SaysCycle(actions, prints, cycleMax, whitelist, run)
  {
    HitComesBack(actions, prints, period, hit);
  }

  /** Every reported run is one or the other. */
  lemma ReportedRunSays<A(!new), F>(name: A -> string, actions: seq<A>, prints: seq<F>, mMin: int, cycleMax: int,
                                    whitelist: set<A>, run: Run<A>)
    requires |prints| == |actions| && run in Merge(name, DetectedRuns(name, actions, prints, mMin, cycleMax, whitelist))
    ensures run.kind == RepeatAction ==> SaysRepeat(actions, prints, mMin, whitelist, run)
    ensures run.kind == Cycle ==> SaysCycle(actions, prints, cycleMax, whitelist, run)
  {
    ReportIsExact(name, actions, prints, mMin, cycleMax, whitelist, run);
    KindsOfRuns(actions, prints, mMin, cycleMax, whitelist, run);
    if run.kind == RepeatAction {
      forall k | run.start <= k <= run.end ensures actions[k] == actions[run.start] && prints[k] == prints[run.start] {
        assert Same(actions, prints, k, run.start);
      }
    } else {
      var period, hit := ReportedCycle(name, actions, prints, mMin, cycleMax, whitelist, run);
      HitsAreMaximal(actions, prints, period, 0, hit);
      ProperCycleSays(actions, whitelist, period, hit);
      CycleSays(actions, prints, cycleMax, whitelist, period, hit, run);
    }
  }

  /** And every stretch of steps that reads like a repeat lies inside a reported run. */
  lemma RepeatIsReported<A(!new), F>(name: A -> string, actions: seq<A>, prints: seq<F>, mMin: int, cycleMax: int,
                                     whitelist: set<A>, run: Run<A>)
    requires SaysRepeat(actions, prints, mMin, whitelist, run) && run.kind == RepeatAction
    ensures Covered(run, Merge(name, DetectedRuns(name, actions, prints, mMin, cycleMax, whitelist)))
  {
    forall k: nat | run.start <= k <= run.end ensures Same(actions, prints, k, run.start) {}
    assert MaximalBlock(actions, prints, run.start, run.end);
    assert IsRepeatRun(actions, prints, mMin, whitelist, run);
    ReportIsExact(name, actions, prints, mMin, cycleMax, whitelist, run);
  }

  // ---- hits of one action ----------------------------------------------------------------

  /** The filter drops the hit: its period holds one action only. */
  ghost predicate OneAction<A>(actions: seq<A>, period: nat, hit: Hit)
  {
    && hit.start + period <= |actions|
    && forall k :: hit.start <= k < hit.start + period ==> actions[k] == actions[hit.start]
  }

  ghost predicate OneView<F>(prints: seq<F>, hit: Hit)
  {
    && hit.End() <= |prints|
    && forall k :: hit.start <= k < hit.End() ==> prints[k] == prints[hit.start]
  }

  /** The repeat scan has a run around the whole hit. */
  ghost predicate FoundAsRepeat<A(!new), F>(actions: seq<A>, prints: seq<F>, mMin: int, whitelist: set<A>, hit: Hit)
    requires |prints| == |actions|
  {
    exists run :: IsRepeatRun(actions, prints, mMin, whitelist, run) && run.start <= hit.start && hit.End() - 1 <= run.end
  }

  lemma {:induction false} OneActionThroughout<A, F>(actions: seq<A>, prints: seq<F>, period: nat, hit: Hit, k: nat)
    requires |prints| == |actions| && period >= 1 && IsHit(actions, prints, period, hit)
    requires OneAction(actions, period, hit) && hit.start <= k < hit.End()
    ensures actions[k] == actions[hit.start]
  {
    if hit.start + period <= k {
      assert Same(actions, prints, k, k - period);
      OneActionThroughout(actions, prints, period, hit, k - period);
    }
  }

  /** Steps start..last look like `start`, so the block around `start` goes on to `last` at least. */
  lemma BlockHoldsSteps<A, F>(actions: seq<A>, prints: seq<F>, start: nat, last: nat)
    requires |prints| == |actions| && start <= last < |actions|
    requires forall k :: start <= k <= last ==> Same(actions, prints, k, start)
    ensures BlockStart(actions, prints, start, start) <= start && last <= BlockEnd(actions, prints, start, start)
  {
    BlockAroundIsMaximal(actions, prints, start);
    MaximalBlockHolds(actions, prints, BlockStart(actions, prints, start, start), BlockEnd(actions, prints, start, start),
      start, last, start);
  }

  lemma RepeatAroundHit<A, F>(actions: seq<A>, prints: seq<F>, mMin: int, whitelist: set<A>, hit: Hit, run: Run<A>)
    requires |prints| == |actions| && hit.covered >= 1 && hit.End() <= |actions|
    requires IsRepeatRun(actions, prints, mMin, whitelist, run) && run.start <= hit.start && hit.End() - 1 <= run.end
    ensures OneView(prints, hit) && actions[hit.start] !in whitelist
    ensures BlockEnd(actions, prints, hit.start, hit.start) - BlockStart(actions, prints, hit.start, hit.start) + 1 >= mMin
  {
    BlockAroundIsUnique(actions, prints, hit.start, run.start, run.end);
    assert Same(actions, prints, hit.start, run.start);
    forall k | hit.start <= k < hit.End() ensures prints[k] == prints[hit.start] {
      assert Same(actions, prints, k, run.start);
    }
  }

  lemma HitIsBlock<A, F>(actions: seq<A>, prints: seq<F>, period: nat, hit: Hit)
    requires |prints| == |actions| && period >= 1 && IsHit(actions, prints, period, hit)
    requires OneAction(actions, period, hit) && OneView(prints, hit)
    ensures BlockStart(actions, prints, hit.start, hit.start) <= hit.start
    ensures hit.End() - 1 <= BlockEnd(actions, prints, hit.start, hit.start)
  {
    forall k | hit.start <= k <= hit.End() - 1 ensures Same(actions, prints, k, hit.start) {
      OneActionThroughout(actions, prints, period, hit, k);
    }
    BlockHoldsSteps(actions, prints, hit.start, hit.End() - 1);
  }

  lemma HitIsRepeated<A(!new), F>(actions: seq<A>, prints: seq<F>, mMin: int, whitelist: set<A>, period: nat, hit: Hit)
    requires |prints| == |actions| && period >= 1 && IsHit(actions, prints, period, hit)
    requires OneAction(actions, period, hit) && OneView(prints, hit) && actions[hit.start] !in whitelist
    requires BlockEnd(actions, prints, hit.start, hit.start) - BlockStart(actions, prints, hit.start, hit.start) + 1 >= mMin
    ensures FoundAsRepeat(actions, prints, mMin, whitelist, hit)
  {
    var start, end := BlockStart(actions, prints, hit.start, hit.start), BlockEnd(actions, prints, hit.start, hit.start);
    HitIsBlock(actions, prints, period, hit);
    BlockAroundIsMaximal(actions, prints, hit.start);
    assert Same(actions, prints, hit.start, start);
    assert IsRepeatRun(actions, prints, mMin, whitelist, RepeatRun(actions, start, end));
  }

  /** When the repeat scan has already found a hit of one action: the views agree too, the action is
      not whitelisted, and the block around the hit is long enough. */
  lemma OneActionHitIsRepeatedIff<A(!new), F>(actions: seq<A>, prints: seq<F>, mMin: int, whitelist: set<A>, period: nat, hit: Hit)
    requires |prints| == |actions| && period >= 1 && hit in HitsFrom(actions, prints, period, 0)
    requires OneAction(actions, period, hit)
    ensures IsHit(actions, prints, period, hit)
    ensures FoundAsRepeat(actions, prints, mMin, whitelist, hit)
       <==> (OneView(prints, hit) && actions[hit.start] !in whitelist
             && BlockEnd(actions, prints, hit.start, hit.start) - BlockStart(actions, prints, hit.start, hit.start) + 1 >= mMin)
    ensures mMin <= 2 * period ==>
      (FoundAsRepeat(actions, prints, mMin, whitelist, hit)
       <==> (OneView(prints, hit) && actions[hit.start] !in whitelist))
  {
    HitsAreMaximal(actions, prints, period, 0, hit);
    if run :| IsRepeatRun(actions, prints, mMin, whitelist, run) && run.start <= hit.start && hit.End() - 1 <= run.end {
      RepeatAroundHit(actions, prints, mMin, whitelist, hit, run);
    }
    if OneView(prints, hit) && actions[hit.start] !in whitelist {
      HitIsBlock(actions, prints, period, hit);
      if BlockEnd(actions, prints, hit.start, hit.start) - BlockStart(actions, prints, hit.start, hit.start) + 1 >= mMin {
        HitIsRepeated(actions, prints, mMin, whitelist, period, hit);
      }
    }
  }

  // ---- proper cycles --------------------------------------------------------------------------

  /** Inside a periodic segment the window of one period has the same actions one step on. */
  lemma WindowShifts<A, F>(actions: seq<A>, prints: seq<F>, period: nat, start: nat, end: nat, at: nat)
    requires |prints| == |actions| && period >= 1 && end <= |actions| && Periodic(actions, prints, period, start, end)
    requires start <= at && at + period < end
    ensures Symbols(actions[at + 1..at + 1 + period]) == Symbols(actions[at..at + period])
  {
    var window, next := actions[at..at + period], actions[at + 1..at + 1 + period];
    assert Same(actions, prints, at + period, at);
    assert window == [actions[at]] + actions[at + 1..at + period];
    assert next == actions[at + 1..at + period] + [actions[at]];
  }

  lemma {:induction false} WindowsHaveSameSymbols<A, F>(actions: seq<A>, prints: seq<F>, period: nat, start: nat, end: nat,
                                                        at: nat)
    requires |prints| == |actions| && period >= 1 && end <= |actions| && Periodic(actions, prints, period, start, end)
    requires start <= at && at + period <= end
    ensures Symbols(actions[at..at + period]) == Symbols(actions[start..start + period])
  {
    if start < at {
      WindowShifts(actions, prints, period, start, end, at - 1);
      WindowsHaveSameSymbols(actions, prints, period, start, end, at - 1);
    }
  }

  /** A hit that holds a proper cycle but for its first steps passes the filter. */
  lemma HitIsProper<A, F>(actions: seq<A>, prints: seq<F>, whitelist: set<A>, period: nat, start: nat, end: nat, hit: Hit)
    requires |prints| == |actions| && period >= 1 && start + 2 * period - 1 <= end <= |actions|
    requires Periodic(actions, prints, period, start, end)
    requires IsProperCycle(actions[start..start + period], whitelist)
    requires IsHit(actions, prints, period, hit) && HoldsTail(hit, period, start, end)
    ensures IsProperCycle(actions[hit.start..hit.start + period], whitelist)
  {
    var at := if start <= hit.start then hit.start else start;
    WindowsHaveSameSymbols(actions, prints, period, start, end, at);
    WindowsHaveSameSymbols(actions, prints, period, hit.start, hit.End(), at);
  }

  /** Three periods less one of a proper cycle, at any period the scan looks at, lie inside one run
      of the report from the last step of the first period on. */
  lemma LongCyclesAreReported<A(!new), F>(name: A -> string, actions: seq<A>, prints: seq<F>, mMin: int, cycleMax: int,
                                          whitelist: set<A>, period: nat, start: nat, end: nat)
    requires |prints| == |actions| && 2 <= period <= cycleMax && start + 3 * period - 1 <= end <= |actions|
    requires Periodic(actions, prints, period, start, end)
    requires IsProperCycle(actions[start..start + period], whitelist)
    ensures var report := Merge(name, DetectedRuns(name, actions, prints, mMin, cycleMax, whitelist));
      exists k :: 0 <= k < |report| && report[k].start <= start + period - 1 && end - 1 <= report[k].end
  {
    var report := Merge(name, DetectedRuns(name, actions, prints, mMin, cycleMax, whitelist));
    ScanHoldsLongSegments(actions, prints, period, start, end);
    var hit :| hit in HitsFrom(actions, prints, period, 0) && HoldsTail(hit, period, start, end);
    HitsAreMaximal(actions, prints, period, 0, hit);
    HitIsProper(actions, prints, whitelist, period, start, end, hit);
    var run := CycleRun(actions, period, hit);
    assert run in RunsOfHit(actions, whitelist, period, hit);
    assert IsCycleRunOf(actions, prints, whitelist, period, run);
    ReportIsExact(name, actions, prints, mMin, cycleMax, whitelist, run);
    var k :| 0 <= k < |report| && run.Inside(report[k]);
  }

  /** The blind spot: one action over and over with no two neighbouring observations alike is
      never reported, however regularly the observations come back. */
  lemma ConstantActionWithChangingViewsIsMissed<A(!new), F>(name: A -> string, actions: seq<A>, prints: seq<F>,
                                        mMin: int, cycleMax: int, whitelist: set<A>, a: A)
    requires |prints| == |actions| && mMin >= 2
    requires forall i :: 0 <= i < |actions| ==> actions[i] == a
    requires forall i :: 0 <= i < |prints| - 1 ==> prints[i] != prints[i + 1]
    ensures Merge(name, DetectedRuns(name, actions, prints, mMin, cycleMax, whitelist)) == []
  {
    var report := Merge(name, DetectedRuns(name, actions, prints, mMin, cycleMax, whitelist));
    if report != [] {
      var run := report[0];
      ReportIsExact(name, actions, prints, mMin, cycleMax, whitelist, run);
      assert run in report;
      if IsRepeatRun(actions, prints, mMin, whitelist, run) {
        BlockStepsAreAlike(actions, prints, run.start, run.end);
      } else {
        var period: nat :| 2 <= period <= cycleMax && IsCycleRunOf(actions, prints, whitelist, period, run);
        UniformHasNoCycle(actions, prints, whitelist, period, run, a);
      }
      assert false;
    }
  }

  lemma UniformHasNoCycle<A(!new), F>(actions: seq<A>, prints: seq<F>, whitelist: set<A>, period: nat, run: Run<A>, a: A)
    requires |prints| == |actions| && period >= 1 && forall i :: 0 <= i < |actions| ==> actions[i] == a
    ensures !IsCycleRunOf(actions, prints, whitelist, period, run)
  {
    forall hit | hit in HitsFrom(actions, prints, period, 0) ensures RunsOfHit(actions, whitelist, period, hit) == [] {
      HitsAreMaximal(actions, prints, period, 0, hit);
      UniformPatternsAreNotCycles(actions[hit.start..hit.start + period], whitelist, a);
    }
  }

  /** An instance of the blind spot that the cycle scan itself does find: four looks at two
      alternating views. */
  lemma AlternatingViewsAreAHit()
    ensures HitsFrom(["look", "look", "look", "look"], [1, 2, 1, 2], 2, 0) == [Hit(0, 4)]
    ensures Merge((s: string) => s, DetectedRuns((s: string) => s, ["look", "look", "look", "look"], [1, 2, 1, 2], 3, 4, {})) == []
  {
    FourStepHit(["look", "look", "look", "look"], [1, 2, 1, 2]);
    ConstantActionWithChangingViewsIsMissed((s: string) => s, ["look", "look", "look", "look"], [1, 2, 1, 2], 3, 4, {}, "look");
  }

  lemma FourStepHit<A, F>(actions: seq<A>, prints: seq<F>)
    requires |actions| == |prints| == 4
    requires Same(actions, prints, 2, 0) && Same(actions, prints, 3, 1)
    ensures HitsFrom(actions, prints, 2, 0) == [Hit(0, 4)]
  {
    assert Reach(actions, prints, 2, 1) == Reach(actions, prints, 2, 2) == 2;
    assert HitsFrom(actions, prints, 2, 4) == [];
  }
}
