/** Stall detection over one episode: canonical actions and observation fingerprints, step by step. */
module Stalls {
  import opened Ordering

  datatype Kind = RepeatAction | Cycle

  /** `action` holds the repeated action, or the actions of one period, which the report joins with bars. */
  datatype Run<A> = Run(start: int, end: int, action: seq<A>, length: int, kind: Kind, period: int)
  {
    predicate WellFormed() {
      start <= end && length == end - start + 1
    }

    predicate Inside(other: Run<A>) {
      start >= other.start && end <= other.end
    }
  }

  /** Repeat runs carry no period. */
  const NO_PERIOD := 0

  /** Two steps look alike: the same action after the same observation. */
  predicate Same<A(==), F(==)>(actions: seq<A>, prints: seq<F>, i: nat, j: nat)
    requires |prints| == |actions| && i < |actions| && j < |actions|
  {
    actions[i] == actions[j] && prints[i] == prints[j]
  }

  // ---- repeated steps ----------------------------------------------------------------

  /** The last step of the block of steps alike that starts at `index`, searched from `end`. */
  function BlockEnd<A(==), F(==)>(actions: seq<A>, prints: seq<F>, index: nat, end: nat): (r: nat)
    requires |prints| == |actions| && index <= end < |actions|
    ensures end <= r < |actions|
    decreases |actions| - end
  {
    if end + 1 < |actions| && Same(actions, prints, end + 1, index) then BlockEnd(actions, prints, index, end + 1)
    else end
  }

  lemma {:induction false} BlockEndIsMaximal<A, F>(actions: seq<A>, prints: seq<F>, index: nat, end: nat)
    requires |prints| == |actions| && index <= end < |actions|
    requires forall k :: index <= k <= end ==> Same(actions, prints, k, index)
    ensures var r := BlockEnd(actions, prints, index, end);
      && (forall k :: index <= k <= r ==> Same(actions, prints, k, index))
      && (r + 1 < |actions| ==> !Same(actions, prints, r + 1, index))
    decreases |actions| - end
  {
    if end + 1 < |actions| && Same(actions, prints, end + 1, index) {
      BlockEndIsMaximal(actions, prints, index, end + 1);
    }
  }

  function RepeatRun<A(==)>(actions: seq<A>, start: nat, end: nat): Run<A>
    requires start <= end < |actions|
  {
    Run(start, end, [actions[start]], end - start + 1, RepeatAction, NO_PERIOD)
  }

  predicate Reportable<A(==)>(actions: seq<A>, start: nat, end: nat, mMin: int, whitelist: set<A>)
    requires start <= end < |actions|
  {
    end - start + 1 >= mMin && actions[start] !in whitelist
  }

  /** The run of the block start..end, if it is long enough and not whitelisted. */
  function RunsOfBlock<A(==)>(actions: seq<A>, start: nat, end: nat, mMin: int, whitelist: set<A>): seq<Run<A>>
    requires start <= end < |actions|
  {
    if Reportable(actions, start, end, mMin, whitelist) then [RepeatRun(actions, start, end)] else []
  }

  function RepeatsFrom<A(==), F(==)>(actions: seq<A>, prints: seq<F>, mMin: int, whitelist: set<A>, index: nat): seq<Run<A>>
    requires |prints| == |actions|
    decreases |actions| - index
  {
    if index >= |actions| then []
    else
      var end := BlockEnd(actions, prints, index, index);
      RunsOfBlock(actions, index, end, mMin, whitelist) + RepeatsFrom(actions, prints, mMin, whitelist, end + 1)
  }

  /** The inner loop: where the block that starts at `index` ends. */
  method FindBlockEnd<A(==), F(==)>(actions: seq<A>, prints: seq<F>, index: nat) returns (end: nat)
    requires |prints| == |actions| && index < |actions|
    ensures end == BlockEnd(actions, prints, index, index)
  {
    end := index;
    while end + 1 < |actions| && actions[end + 1] == actions[index] && prints[end + 1] == prints[index]
      invariant index <= end < |actions|
      invariant BlockEnd(actions, prints, index, end) == BlockEnd(actions, prints, index, index)
    {
      end := end + 1;
    }
  }

  method RepeatRuns<A(==), F(==)>(actions: seq<A>, prints: seq<F>, mMin: int, whitelist: set<A>)
      returns (runs: seq<Run<A>>)
    requires |prints| == |actions|
    ensures runs == RepeatsFrom(actions, prints, mMin, whitelist, 0)
  {
    runs := [];
    ghost var whole := RepeatsFrom(actions, prints, mMin, whitelist, 0);
    assert [] + whole == whole;
    var index := 0;
    while index < |actions|
      invariant 0 <= index <= |actions|
      invariant runs + RepeatsFrom(actions, prints, mMin, whitelist, index) == whole
    {
      var end := FindBlockEnd(actions, prints, index);
      Regroup(runs, RunsOfBlock(actions, index, end, mMin, whitelist), RepeatsFrom(actions, prints, mMin, whitelist, end + 1));
      runs := runs + RunsOfBlock(actions, index, end, mMin, whitelist);
      index := end + 1;
    }
    assert runs + [] == runs;
  }

  /** A block of steps alike that cannot be extended on either side. */
  ghost predicate MaximalBlock<A, F>(actions: seq<A>, prints: seq<F>, start: nat, end: nat)
    requires |prints| == |actions|
  {
    && start <= end < |actions|
    && (forall k :: start <= k <= end ==> Same(actions, prints, k, start))
    && (start > 0 ==> !Same(actions, prints, start - 1, start))
    && (end + 1 < |actions| ==> !Same(actions, prints, end + 1, start))
  }

  ghost predicate IsRepeatRun<A, F>(actions: seq<A>, prints: seq<F>, mMin: int, whitelist: set<A>, run: Run<A>)
    requires |prints| == |actions|
  {
    && 0 <= run.start <= run.end
    && MaximalBlock(actions, prints, run.start, run.end)
    && Reportable(actions, run.start, run.end, mMin, whitelist)
    && run == RepeatRun(actions, run.start, run.end)
  }

  lemma {:induction false} RepeatsFromSound<A, F>(actions: seq<A>, prints: seq<F>, mMin: int, whitelist: set<A>,
                                        index: nat, run: Run<A>)
    requires |prints| == |actions| && (0 < index < |actions| ==> !Same(actions, prints, index - 1, index))
    requires run in RepeatsFrom(actions, prints, mMin, whitelist, index)
    ensures IsRepeatRun(actions, prints, mMin, whitelist, run)
    decreases |actions| - index
  {
    if index < |actions| {
      var end := BlockEnd(actions, prints, index, index);
      BlockEndIsMaximal(actions, prints, index, index);
      if run in RepeatsFrom(actions, prints, mMin, whitelist, end + 1) {
        assert Same(actions, prints, end, index);
        RepeatsFromSound(actions, prints, mMin, whitelist, end + 1, run);
      }
    }
  }

  lemma StepsOfBlockAreAlike<A, F>(actions: seq<A>, prints: seq<F>, index: nat, last: nat, k: nat)
    requires |prints| == |actions| && index < k <= last < |actions|
    requires forall i :: index <= i <= last ==> Same(actions, prints, i, index)
    ensures Same(actions, prints, k - 1, k)
  {
    assert Same(actions, prints, k - 1, index) && Same(actions, prints, k, index);
  }

  lemma {:induction false} BlockEndOfMaximal<A, F>(actions: seq<A>, prints: seq<F>, start: nat, at: nat, end: nat)
    requires |prints| == |actions| && MaximalBlock(actions, prints, start, end) && start <= at <= end
    ensures BlockEnd(actions, prints, start, at) == end
    decreases end - at
  {
    if at < end {
      assert Same(actions, prints, at + 1, start);
      BlockEndOfMaximal(actions, prints, start, at + 1, end);
    }
  }

  lemma EarlierBlockEndsBefore<A, F>(actions: seq<A>, prints: seq<F>, index: nat, start: nat, end: nat)
    requires |prints| == |actions| && MaximalBlock(actions, prints, start, end) && index < start
    ensures var last := BlockEnd(actions, prints, index, index);
      last < start && !Same(actions, prints, last, last + 1)
  {
    var last := BlockEnd(actions, prints, index, index);
    BlockEndIsMaximal(actions, prints, index, index);
    assert Same(actions, prints, last, index);
    if start <= last {
      StepsOfBlockAreAlike(actions, prints, index, last, start);
    }
  }

  lemma {:induction false} RepeatsFromComplete<A, F>(actions: seq<A>, prints: seq<F>, mMin: int, whitelist: set<A>,
                                                     index: nat, start: nat, end: nat)
    requires |prints| == |actions| && (0 < index < |actions| ==> !Same(actions, prints, index - 1, index))
    requires index <= start && MaximalBlock(actions, prints, start, end)
    requires Reportable(actions, start, end, mMin, whitelist)
    ensures RepeatRun(actions, start, end) in RepeatsFrom(actions, prints, mMin, whitelist, index)
    decreases |actions| - index
  {
    if index < start {
      EarlierBlockEndsBefore(actions, prints, index, start, end);
      RepeatsFromComplete(actions, prints, mMin, whitelist, BlockEnd(actions, prints, index, index) + 1, start, end);
    } else {
      BlockEndOfMaximal(actions, prints, start, start, end);
    }
  }

  /** Repeat runs are exactly the maximal blocks long enough whose action is not whitelisted. */
  lemma RepeatRunsAreMaximalBlocks<A, F>(actions: seq<A>, prints: seq<F>, mMin: int, whitelist: set<A>, run: Run<A>)
    requires |prints| == |actions|
    ensures run in RepeatsFrom(actions, prints, mMin, whitelist, 0)
       <==> IsRepeatRun(actions, prints, mMin, whitelist, run)
  {
    if run in RepeatsFrom(actions, prints, mMin, whitelist, 0) {
      RepeatsFromSound(actions, prints, mMin, whitelist, 0, run);
    }
    if IsRepeatRun(actions, prints, mMin, whitelist, run) {
      RepeatsFromComplete(actions, prints, mMin, whitelist, 0, run.start, run.end);
    }
  }

  // ---- periodic segments -----------------------------------------------------------------

  /** Every step in start..end - period looks like the one a period later. */
  ghost predicate Periodic<A, F>(actions: seq<A>, prints: seq<F>, period: nat, start: nat, end: nat)
    requires |prints| == |actions| && end <= |actions|
  {
    forall k, l :: start <= k && l == k + period && l < end ==> Same(actions, prints, l, k)
  }

  /** The first position from `end` on that does not repeat a period later. */
  function Reach<A(==), F(==)>(actions: seq<A>, prints: seq<F>, period: nat, end: nat): (r: nat)
    requires |prints| == |actions| && end + period <= |actions|
    ensures end <= r && r + period <= |actions|
    decreases |actions| - end
  {
    if end + period < |actions| && Same(actions, prints, end + period, end) then Reach(actions, prints, period, end + 1)
    else end
  }

  lemma {:induction false} ReachIsMaximal<A, F>(actions: seq<A>, prints: seq<F>, period: nat, end: nat)
    requires |prints| == |actions| && end + period <= |actions|
    ensures var r := Reach(actions, prints, period, end);
      && Periodic(actions, prints, period, end, r + period)
      && (r + period < |actions| ==> !Same(actions, prints, r + period, r))
    decreases |actions| - end
  {
    if end + period < |actions| && Same(actions, prints, end + period, end) {
      ReachIsMaximal(actions, prints, period, end + 1);
    }
  }

  /** A segment the scan claims before any filter: `covered` steps from `start`. */
  datatype Hit = Hit(start: nat, covered: nat) {
    function End(): nat { start + covered }
  }

  function HitsFrom<A(==), F(==)>(actions: seq<A>, prints: seq<F>, period: nat, index: nat): seq<Hit>
    requires |prints| == |actions| && period >= 1
    decreases |actions| - index
  {
    if index + 2 * period > |actions| then []
    else
      var covered := Reach(actions, prints, period, index) + period - index;
      if covered >= 2 * period then [Hit(index, covered)] + HitsFrom(actions, prints, period, index + covered)
      else HitsFrom(actions, prints, period, index + 1)
  }

  function Symbols<A(==)>(s: seq<A>): set<A> {
    set x | x in s
  }

  function Join(parts: seq<string>): string {
    if parts == [] then ""
    else if |parts| == 1 then parts[0]
    else parts[0] + "|" + Join(parts[1..])
  }

  /** More than one action in the period, and not all of them whitelisted. */
  predicate IsProperCycle<A(==)>(pattern: seq<A>, whitelist: set<A>) {
    |Symbols(pattern)| != 1 && !(Symbols(pattern) <= whitelist)
  }

  function CycleRun<A(==)>(actions: seq<A>, period: nat, hit: Hit): Run<A>
    requires hit.start + period <= |actions|
  {
    Run(hit.start, hit.start + hit.covered - 1, actions[hit.start..hit.start + period], hit.covered, Cycle, period)
  }

  /** The run a hit gives rise to, if the filter lets it through. */
  function RunsOfHit<A(==)>(actions: seq<A>, whitelist: set<A>, period: nat, hit: Hit): seq<Run<A>> {
    if hit.start + period <= |actions| && IsProperCycle(actions[hit.start..hit.start + period], whitelist)
    then [CycleRun(actions, period, hit)] else []
  }

  function RunsOf<A(==)>(actions: seq<A>, whitelist: set<A>, period: nat): Hit -> seq<Run<A>> {
    (hit: Hit) => RunsOfHit(actions, whitelist, period, hit)
  }

  /** Where one pass of the outer loop leads: past a hit with its runs, or on by one. */
  function Pass<A(==), F(==), R>(actions: seq<A>, prints: seq<F>, period: nat, runsOf: Hit -> seq<R>, index: nat): (r: (seq<R>, nat))
    requires |prints| == |actions| && period >= 1 && index + 2 * period <= |actions|
    ensures index < r.1 <= |actions|
  {
    var covered := Reach(actions, prints, period, index) + period - index;
    if covered >= 2 * period then (runsOf(Hit(index, covered)), index + covered) else ([], index + 1)
  }

  /** The runs still to come when the scan stands at `index`. */
  function PendingWith<A(==), F(==), R>(actions: seq<A>, prints: seq<F>, period: nat, runsOf: Hit -> seq<R>, index: nat): seq<R>
    requires |prints| == |actions| && period >= 1
    decreases |actions| - index
  {
    if index + 2 * period > |actions| then []
    else
      var pass := Pass(actions, prints, period, runsOf, index);
      pass.0 + PendingWith(actions, prints, period, runsOf, pass.1)
  }

  function Pending<A(==), F(==)>(actions: seq<A>, prints: seq<F>, whitelist: set<A>, period: nat): seq<Run<A>>
    requires |prints| == |actions| && period >= 1
  {
    PendingWith(actions, prints, period, RunsOf(actions, whitelist, period), 0)
  }

  function CyclesFrom<A(==), F(==)>(actions: seq<A>, prints: seq<F>, cycleMax: int, whitelist: set<A>, period: nat): seq<Run<A>>
    requires |prints| == |actions| && period >= 2
    decreases cycleMax + 1 - period
  {
    if period > cycleMax then []
    else Pending(actions, prints, whitelist, period) + CyclesFrom(actions, prints, cycleMax, whitelist, period + 1)
  }

  lemma HitsFromHit<A, F>(actions: seq<A>, prints: seq<F>, period: nat, index: nat, covered: nat)
    requires |prints| == |actions| && period >= 1 && index + 2 * period <= |actions|
    requires covered == Reach(actions, prints, period, index) + period - index >= 2 * period
    ensures HitsFrom(actions, prints, period, index)
         == [Hit(index, covered)] + HitsFrom(actions, prints, period, index + covered)
  {
  }

  /** A hit at `index` or later gives rise to the run. */
  ghost predicate FoundFrom<A, F, R(!new)>(actions: seq<A>, prints: seq<F>, period: nat, runsOf: Hit -> seq<R>, index: nat, run: R)
    requires |prints| == |actions| && period >= 1
  {
    exists hit :: hit in HitsFrom(actions, prints, period, index) && run in runsOf(hit)
  }

  lemma FoundAfterHit<A, F, R(!new)>(actions: seq<A>, prints: seq<F>, period: nat, runsOf: Hit -> seq<R>, index: nat, covered: nat,
                                     run: R)
    requires |prints| == |actions| && period >= 1 && index + 2 * period <= |actions|
    requires covered == Reach(actions, prints, period, index) + period - index >= 2 * period
    ensures FoundFrom(actions, prints, period, runsOf, index, run)
       <==> run in runsOf(Hit(index, covered)) || FoundFrom(actions, prints, period, runsOf, index + covered, run)
  {
    HitsFromHit(actions, prints, period, index, covered);
    var later := HitsFrom(actions, prints, period, index + covered);
    assert forall hit :: hit in [Hit(index, covered)] + later <==> hit == Hit(index, covered) || hit in later;
  }

  lemma FoundAfterMiss<A, F, R(!new)>(actions: seq<A>, prints: seq<F>, period: nat, runsOf: Hit -> seq<R>, index: nat, run: R)
    requires |prints| == |actions| && period >= 1 && index + 2 * period <= |actions|
    requires Reach(actions, prints, period, index) + period - index < 2 * period
    ensures FoundFrom(actions, prints, period, runsOf, index, run) <==> FoundFrom(actions, prints, period, runsOf, index + 1, run)
  {
  }

  lemma MembersOfPass<A, F, R(!new)>(actions: seq<A>, prints: seq<F>, period: nat, runsOf: Hit -> seq<R>, index: nat, run: R,
                                     rest: seq<R>)
    requires |prints| == |actions| && period >= 1 && index + 2 * period <= |actions|
    requires run in rest <==> FoundFrom(actions, prints, period, runsOf, Pass(actions, prints, period, runsOf, index).1, run)
    ensures run in Pass(actions, prints, period, runsOf, index).0 + rest
       <==> FoundFrom(actions, prints, period, runsOf, index, run)
  {
    var covered := Reach(actions, prints, period, index) + period - index;
    if covered >= 2 * period {
      FoundAfterHit(actions, prints, period, runsOf, index, covered, run);
    } else {
      FoundAfterMiss(actions, prints, period, runsOf, index, run);
    }
  }

  /** The scan reports the runs of its hits. */
  lemma {:induction false} PendingMembers<A, F, R(!new)>(actions: seq<A>, prints: seq<F>, period: nat, runsOf: Hit -> seq<R>,
                                                         index: nat, run: R)
    requires |prints| == |actions| && period >= 1
    ensures run in PendingWith(actions, prints, period, runsOf, index) <==> FoundFrom(actions, prints, period, runsOf, index, run)
    decreases |actions| - index
  {
    if index + 2 * period <= |actions| {
      var next := Pass(actions, prints, period, runsOf, index).1;
      PendingMembers(actions, prints, period, runsOf, next, run);
      MembersOfPass(actions, prints, period, runsOf, index, run, PendingWith(actions, prints, period, runsOf, next));
    }
  }

  /** The inner loop: how far the period holds from `index`. */
  method FindReach<A(==), F(==)>(actions: seq<A>, prints: seq<F>, period: nat, index: nat) returns (end: nat)
    requires |prints| == |actions| && index + period <= |actions|
    ensures end == Reach(actions, prints, period, index)
  {
    end := index;
    while end + period < |actions| && actions[end + period] == actions[end] && prints[end + period] == prints[end]
      invariant index <= end && end + period <= |actions|
      invariant Reach(actions, prints, period, end) == Reach(actions, prints, period, index)
      decreases |actions| - end
    {
      end := end + 1;
    }
  }

  /** One pass of the outer loop: take the hit at `index` and jump past it, or move on by one. */
  method ScanPosition<A(==), F(==)>(actions: seq<A>, prints: seq<F>, whitelist: set<A>, period: nat, index: nat)
      returns (found: seq<Run<A>>, next: nat)
    requires |prints| == |actions| && period >= 1 && index + 2 * period <= |actions|
    ensures (found, next) == Pass(actions, prints, period, RunsOf(actions, whitelist, period), index)
  {
    var end := FindReach(actions, prints, period, index);
    var covered := end + period - index;
    if covered >= 2 * period {
      found, next := RunsOfHit(actions, whitelist, period, Hit(index, covered)), index + covered;
    } else {
      found, next := [], index + 1;
    }
  }

  /** The scan for one period. */
  method CycleRunsOfPeriod<A(==), F(==)>(actions: seq<A>, prints: seq<F>, whitelist: set<A>, period: nat)
      returns (runs: seq<Run<A>>)
    requires |prints| == |actions| && period >= 1
    ensures runs == Pending(actions, prints, whitelist, period)
  {
    runs := [];
    ghost var runsOf := RunsOf(actions, whitelist, period);
    ghost var whole := Pending(actions, prints, whitelist, period);
    assert [] + whole == whole;
    var index := 0;
    while index + 2 * period <= |actions|
      invariant runs + PendingWith(actions, prints, period, runsOf, index) == whole
      decreases |actions| - index
    {
      var found, next := ScanPosition(actions, prints, whitelist, period, index);
      Regroup(runs, found, PendingWith(actions, prints, period, runsOf, next));
      runs, index := runs + found, next;
    }
    assert runs + [] == runs;
  }

  lemma CyclesFromPeriod<A, F>(actions: seq<A>, prints: seq<F>, cycleMax: int, whitelist: set<A>, period: nat, runs: seq<Run<A>>)
    requires |prints| == |actions| && 2 <= period <= cycleMax
    ensures runs + CyclesFrom(actions, prints, cycleMax, whitelist, period)
         == (runs + Pending(actions, prints, whitelist, period)) + CyclesFrom(actions, prints, cycleMax, whitelist, period + 1)
  {
    Regroup(runs, Pending(actions, prints, whitelist, period), CyclesFrom(actions, prints, cycleMax, whitelist, period + 1));
  }

  method CycleRuns<A(==), F(==)>(actions: seq<A>, prints: seq<F>, cycleMax: int, whitelist: set<A>)
      returns (runs: seq<Run<A>>)
    requires |prints| == |actions|
    ensures runs == CyclesFrom(actions, prints, cycleMax, whitelist, 2)
  {
    runs := [];
    ghost var whole := CyclesFrom(actions, prints, cycleMax, whitelist, 2);
    assert [] + whole == whole;
    var period := 2;
    while period <= cycleMax
      invariant 2 <= period
      invariant runs + CyclesFrom(actions, prints, cycleMax, whitelist, period) == whole
    {
      var found := CycleRunsOfPeriod(actions, prints, whitelist, period);
      CyclesFromPeriod(actions, prints, cycleMax, whitelist, period, runs);
      runs := runs + found;
      period := period + 1;
    }
    assert runs + [] == runs;
  }

  // ---- what the scan finds ------------------------------------------------------------------

  /** A hit spans two periods or more, repeats throughout, and cannot be extended to the right. */
  ghost predicate IsHit<A, F>(actions: seq<A>, prints: seq<F>, period: nat, hit: Hit)
    requires |prints| == |actions|
  {
    && hit.covered >= 2 * period && hit.End() <= |actions|
    && Periodic(actions, prints, period, hit.start, hit.End())
    && (hit.End() < |actions| ==> hit.End() >= period && !Same(actions, prints, hit.End(), hit.End() - period))
  }

  lemma {:induction false} HitsAreMaximal<A, F>(actions: seq<A>, prints: seq<F>, period: nat, index: nat, hit: Hit)
    requires |prints| == |actions| && period >= 1 && hit in HitsFrom(actions, prints, period, index)
    ensures hit.start >= index && IsHit(actions, prints, period, hit)
    decreases |actions| - index
  {
    if index + 2 * period <= |actions| {
      var covered := Reach(actions, prints, period, index) + period - index;
      ReachIsMaximal(actions, prints, period, index);
      if covered >= 2 * period {
        if hit != Hit(index, covered) {
          HitsAreMaximal(actions, prints, period, index + covered, hit);
        }
      } else {
        HitsAreMaximal(actions, prints, period, index + 1, hit);
      }
    }
  }

  /** From a scan position inside a periodic segment with two periods left, the rest is one hit. */
  lemma HitHere<A, F>(actions: seq<A>, prints: seq<F>, period: nat, index: nat, start: nat, end: nat)
    requires |prints| == |actions| && period >= 1 && start <= index && index + 2 * period <= end <= |actions|
    requires Periodic(actions, prints, period, start, end)
    ensures HitsFrom(actions, prints, period, index) != []
    ensures var hit := HitsFrom(actions, prints, period, index)[0]; hit.start == index && hit.End() >= end
  {
    ReachIsMaximal(actions, prints, period, index);
  }

  /** The hit holds all of start..end but at most its first period - 1 steps. */
  predicate HoldsTail(hit: Hit, period: nat, start: nat, end: nat) {
    hit.start < start + period && end <= hit.End()
  }

  /** The hit ends inside the first period of start..end, with less than two periods left over. */
  predicate Clips(hit: Hit, period: nat, start: nat, end: nat) {
    hit.start < start < hit.End() < start + period && end < hit.End() + 2 * period
  }

  lemma {:induction false} HoldsOrClips<A, F>(actions: seq<A>, prints: seq<F>, period: nat, index: nat, start: nat, end: nat)
    requires |prints| == |actions| && period >= 1 && index <= start && start + 2 * period <= end <= |actions|
    requires Periodic(actions, prints, period, start, end)
    ensures exists hit :: hit in HitsFrom(actions, prints, period, index)
                       && (HoldsTail(hit, period, start, end) || Clips(hit, period, start, end))
    decreases |actions| - index
  {
    var hits := HitsFrom(actions, prints, period, index);
    if index == start {
      HitHere(actions, prints, period, index, start, end);
      assert hits[0] in hits && HoldsTail(hits[0], period, start, end);
    } else {
      var covered := Reach(actions, prints, period, index) + period - index;
      ReachIsMaximal(actions, prints, period, index);
      if covered < 2 * period {
        HoldsOrClips(actions, prints, period, index + 1, start, end);
      } else {
        var stop := index + covered;
        var later := HitsFrom(actions, prints, period, stop);
        assert hits[0] == Hit(index, covered) && hits[0] in hits;
        if stop <= start {
          HoldsOrClips(actions, prints, period, stop, start, end);
          var hit :| hit in later && (HoldsTail(hit, period, start, end) || Clips(hit, period, start, end));
          assert hit in hits;
        } else if end <= stop {
          assert HoldsTail(hits[0], period, start, end);
        } else {
          assert stop - period < start;
          if stop + 2 * period <= end {
            HitHere(actions, prints, period, stop, start, end);
            assert later[0] in hits && HoldsTail(later[0], period, start, end);
          } else {
            assert Clips(hits[0], period, start, end);
          }
        }
      }
    }
  }

  /** A periodic segment of two periods always meets a hit. */
  lemma ScanMeetsEverySegment<A, F>(actions: seq<A>, prints: seq<F>, period: nat, start: nat, end: nat)
    requires |prints| == |actions| && period >= 1 && start + 2 * period <= end <= |actions|
    requires Periodic(actions, prints, period, start, end)
    ensures exists hit :: hit in HitsFrom(actions, prints, period, 0) && hit.start < end && start < hit.End()
  {
    HoldsOrClips(actions, prints, period, 0, start, end);
    var hit :| hit in HitsFrom(actions, prints, period, 0)
            && (HoldsTail(hit, period, start, end) || Clips(hit, period, start, end));
    assert hit.start < end && start < hit.End();
  }

  /** With 3 periods less one, one hit holds all but at most the first period - 1 steps. */
  lemma ScanHoldsLongSegments<A, F>(actions: seq<A>, prints: seq<F>, period: nat, start: nat, end: nat)
    requires |prints| == |actions| && period >= 1 && start + 3 * period - 1 <= end <= |actions|
    requires Periodic(actions, prints, period, start, end)
    ensures exists hit :: hit in HitsFrom(actions, prints, period, 0) && HoldsTail(hit, period, start, end)
  {
    HoldsOrClips(actions, prints, period, 0, start, end);
    var hit :| hit in HitsFrom(actions, prints, period, 0)
            && (HoldsTail(hit, period, start, end) || Clips(hit, period, start, end));
    assert HoldsTail(hit, period, start, end);
  }

  lemma {:induction false} HitsAreDisjoint<A, F>(actions: seq<A>, prints: seq<F>, period: nat, index: nat, hit: Hit, other: Hit)
    requires |prints| == |actions| && period >= 1
    requires hit in HitsFrom(actions, prints, period, index) && other in HitsFrom(actions, prints, period, index)
    ensures hit == other || hit.End() <= other.start || other.End() <= hit.start
    decreases |actions| - index
  {
    if index + 2 * period <= |actions| {
      var covered := Reach(actions, prints, period, index) + period - index;
      if covered >= 2 * period {
        var later := HitsFrom(actions, prints, period, index + covered);
        if hit in later { HitsAreMaximal(actions, prints, period, index + covered, hit); }
        if other in later { HitsAreMaximal(actions, prints, period, index + covered, other); }
        if hit in later && other in later { HitsAreDisjoint(actions, prints, period, index + covered, hit, other); }
      } else {
        HitsAreDisjoint(actions, prints, period, index + 1, hit, other);
      }
    }
  }

  /** A hit that holds a segment leaves no room for one that clips it, unless the segment goes on. */
  lemma HeldIsNotClipped<A, F>(actions: seq<A>, prints: seq<F>, period: nat, start: nat, end: nat, hit: Hit, other: Hit)
    requires |prints| == |actions| && period >= 1 && start + 2 * period <= end <= |actions|
    requires end < |actions| ==> !Same(actions, prints, end, end - period)
    requires hit in HitsFrom(actions, prints, period, 0) && other in HitsFrom(actions, prints, period, 0)
    requires HoldsTail(hit, period, start, end)
    ensures !Clips(other, period, start, end)
  {
    HitsAreMaximal(actions, prints, period, 0, hit);
    HitsAreMaximal(actions, prints, period, 0, other);
    HitsAreDisjoint(actions, prints, period, 0, hit, other);
  }

  /** A segment of two periods or more that ends where its period breaks is held but for its first
      p - 1 steps if and only if no earlier hit clips it. */
  lemma HeldIffNotClipped<A, F>(actions: seq<A>, prints: seq<F>, period: nat, start: nat, end: nat)
    requires |prints| == |actions| && period >= 1 && start + 2 * period <= end <= |actions|
    requires Periodic(actions, prints, period, start, end)
    requires end < |actions| ==> !Same(actions, prints, end, end - period)
    ensures (exists hit :: hit in HitsFrom(actions, prints, period, 0) && HoldsTail(hit, period, start, end))
       <==> !(exists hit :: hit in HitsFrom(actions, prints, period, 0) && Clips(hit, period, start, end))
  {
    HoldsOrClips(actions, prints, period, 0, start, end);
    forall hit, other | hit in HitsFrom(actions, prints, period, 0) && other in HitsFrom(actions, prints, period, 0)
                        && HoldsTail(hit, period, start, end)
      ensures !Clips(other, period, start, end)
    {
      HeldIsNotClipped(actions, prints, period, start, end, hit, other);
    }
  }

  /** An episode that opens with two periods of 0 .. p - 1 and goes on with p in place of 0. */
  function Clipped(period: nat): (s: seq<nat>)
    requires period >= 2
    ensures |s| == 4 * period - 1
  {
    seq(4 * period - 1, i requires 0 <= i < 4 * period - 1 =>
      if i < period then i
      else if i < 2 * period then i - period
      else if i == 2 * period || i == 3 * period then period
      else if i < 3 * period then i - 2 * period
      else i - 3 * period)
  }

  /** One step shorter and the bound fails, at every period: the opening takes the first p - 1 steps
      of the segment with it, and what is left is too short for a hit. */
  lemma ShorterSegmentsAreMissed(period: nat)
    requires period >= 2
    ensures var s, start, end := Clipped(period), period + 1, 4 * period - 1;
      && Periodic(s, s, period, start, end) && end - start == 3 * period - 2
      && !exists hit :: hit in HitsFrom(s, s, period, 0) && HoldsTail(hit, period, start, end)
  {
    var s := Clipped(period);
    OpeningReach(period, 0);
    assert HitsFrom(s, s, period, 2 * period) == [];
    assert HitsFrom(s, s, period, 0) == [Hit(0, 2 * period)];
  }

  lemma {:induction false} OpeningReach(period: nat, end: nat)
    requires period >= 2 && end <= period
    ensures Reach(Clipped(period), Clipped(period), period, end) == period
    decreases period - end
  {
    var s := Clipped(period);
    if end < period {
      assert s[end + period] == s[end];
      OpeningReach(period, end + 1);
    } else {
      assert s[2 * period] != s[period];
    }
  }

  // ---- the block around a step ------------------------------------------------------------------

  /** The first step of the block of steps alike around `at`, searched from `start`. */
  function BlockStart<A(==), F(==)>(actions: seq<A>, prints: seq<F>, at: nat, start: nat): (r: nat)
    requires |prints| == |actions| && start <= at < |actions|
    ensures r <= start
  {
    if start > 0 && Same(actions, prints, start - 1, at) then BlockStart(actions, prints, at, start - 1) else start
  }

  lemma {:induction false} BlockStartIsMaximal<A, F>(actions: seq<A>, prints: seq<F>, at: nat, start: nat)
    requires |prints| == |actions| && start <= at < |actions|
    requires forall k :: start <= k <= at ==> Same(actions, prints, k, at)
    ensures var r := BlockStart(actions, prints, at, start);
      && (forall k :: r <= k <= at ==> Same(actions, prints, k, at))
      && (r > 0 ==> !Same(actions, prints, r - 1, at))
  {
    if start > 0 && Same(actions, prints, start - 1, at) { BlockStartIsMaximal(actions, prints, at, start - 1); }
  }

  /** The block around a step is maximal. */
  lemma BlockAroundIsMaximal<A, F>(actions: seq<A>, prints: seq<F>, at: nat)
    requires |prints| == |actions| && at < |actions|
    ensures BlockStart(actions, prints, at, at) <= at <= BlockEnd(actions, prints, at, at)
    ensures MaximalBlock(actions, prints, BlockStart(actions, prints, at, at), BlockEnd(actions, prints, at, at))
  {
    BlockStartIsMaximal(actions, prints, at, at);
    BlockEndIsMaximal(actions, prints, at, at);
    var first, last := BlockStart(actions, prints, at, at), BlockEnd(actions, prints, at, at);
    assert Same(actions, prints, first, at);
    forall k | first <= k <= last ensures Same(actions, prints, k, first) {
      assert Same(actions, prints, k, at);
    }
    assert last + 1 < |actions| ==> !Same(actions, prints, last + 1, at);
    assert first > 0 ==> !Same(actions, prints, first - 1, at);
  }

  /** It is the only maximal block with that step. */
  lemma BlockAroundIsUnique<A, F>(actions: seq<A>, prints: seq<F>, at: nat, start: nat, end: nat)
    requires |prints| == |actions| && MaximalBlock(actions, prints, start, end) && start <= at <= end
    ensures start == BlockStart(actions, prints, at, at) && end == BlockEnd(actions, prints, at, at)
  {
    BlockAroundIsMaximal(actions, prints, at);
    var first, last := BlockStart(actions, prints, at, at), BlockEnd(actions, prints, at, at);
    MaximalBlockHolds(actions, prints, start, end, first, last, at);
    MaximalBlockHolds(actions, prints, first, last, start, end, at);
  }

  /** A maximal block holds every block that meets it. */
  lemma MaximalBlockHolds<A, F>(actions: seq<A>, prints: seq<F>, start: nat, end: nat, first: nat, last: nat, at: nat)
    requires |prints| == |actions| && MaximalBlock(actions, prints, start, end) && start <= at <= end
    requires first <= at <= last < |actions| && forall k :: first <= k <= last ==> Same(actions, prints, k, first)
    ensures start <= first && last <= end
  {
    assert Same(actions, prints, at, start) && Same(actions, prints, at, first);
    forall k | first <= k <= last ensures Same(actions, prints, k, start) {
      assert Same(actions, prints, k, first);
    }
  }
}
