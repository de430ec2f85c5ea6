/** Choosing tasks for a corpus. The seeded generator is given by what it may return: samples
    without replacement, and numbers in [0, 1] that place each weighted draw. */
module Sampling {
  import opened Ordering
  import opened Wrappers
  import opened RealAlgebra

  datatype Strategy = All | RandomN | StratifiedByOutcome | FailureWeighted | OtherStrategy(name: string)

  datatype Failure =
    | NeedsSampleSize(strategy: Strategy)
    | ImpossibleSample
    | UnknownStrategy(name: string)

  datatype Selection =
    | Selected(tasks: seq<string>, tooFew: bool)
    | Refused(failure: Failure)

  /** `first` and `second` are what successive calls of `sample` return, `at` the draws of `uniform`. */
  datatype Rng = Rng(first: (seq<string>, nat) -> seq<string>, second: (seq<string>, nat) -> seq<string>, at: nat -> real)

  ghost predicate Samples(sample: (seq<string>, nat) -> seq<string>) {
    forall pool: seq<string>, k: nat :: Distinct(pool) && k <= |pool| ==> IsSample(sample(pool, k), pool, k)
  }

  ghost predicate IsSample(picked: seq<string>, pool: seq<string>, k: nat) {
    |picked| == k && Distinct(picked) && forall t :: t in picked ==> t in pool
  }

  ghost predicate Uniform(at: nat -> real) {
    forall i :: 0.0 <= at(i) <= 1.0
  }

  ghost predicate Fair(rng: Rng) {
    Samples(rng.first) && Samples(rng.second) && Uniform(rng.at)
  }

  /** Python's `round` of a real to an integer: ties go to the even neighbour. */
  function RoundHalfEven(x: real): int {
    var f := x.Floor;
    var d := x - f as real;
    if d < 0.5 then f else if d > 0.5 then f + 1 else if f % 2 == 0 then f else f + 1
  }

  predicate Succeeds(outcomes: map<string, bool>, task: string) {
    task in outcomes && outcomes[task]
  }

  /** The tasks of a list with the given outcome, in order. */
  function WithOutcome(outcomes: map<string, bool>, tasks: seq<string>, success: bool): seq<string> {
    if tasks == [] then []
    else (if Succeeds(outcomes, tasks[0]) == success then [tasks[0]] else []) + WithOutcome(outcomes, tasks[1..], success)
  }

  lemma {:induction false} WithOutcomeFacts(outcomes: map<string, bool>, tasks: seq<string>, success: bool)
    ensures forall t :: t in WithOutcome(outcomes, tasks, success) <==> t in tasks && Succeeds(outcomes, t) == success
    ensures Distinct(tasks) ==> Distinct(WithOutcome(outcomes, tasks, success))
    ensures |WithOutcome(outcomes, tasks, success)| + |WithOutcome(outcomes, tasks, !success)| == |tasks|
  {
    if tasks != [] {
      WithOutcomeFacts(outcomes, tasks[1..], success);
      assert tasks == [tasks[0]] + tasks[1..];
      if Distinct(tasks) { assert Distinct(tasks[1..]) && tasks[0] !in tasks[1..]; }
    }
  }

  // ---- stratified sampling ------------------------------------------------------------------

  /** The exact number of successes in proportion. */
  function Proportion(successes: nat, failures: nat, size: int): real {
    var share := if successes + failures == 0 then 0.0 else successes as real / (successes + failures) as real;
    size as real * share
  }

  /** How many successes and failures the stratified draw asks for, shortfall handed back. */
  function Quotas(successes: nat, failures: nat, size: int): (r: (int, int)) {
    var wantSuccess := Min(successes, RoundHalfEven(Proportion(successes, failures, size)));
    var wantFailure := Min(failures, size - wantSuccess);
    var deficit := size - (wantSuccess + wantFailure);
    (if deficit > 0 then Min(successes, wantSuccess + deficit) else wantSuccess, wantFailure)
  }

  lemma RoundBetween(x: real, lo: int, hi: int)
    requires lo as real <= x <= hi as real
    ensures lo <= RoundHalfEven(x) <= hi
    ensures -0.5 <= RoundHalfEven(x) as real - x <= 0.5
    ensures Abs(RoundHalfEven(x) as real - x) == 0.5 ==> RoundHalfEven(x) % 2 == 0
  {
  }

  /** The exact proportion of successes lies between what the failures leave over and the
      number of successes. */
  lemma ProportionBounds(successes: nat, failures: nat, size: nat)
    requires size <= successes + failures
    ensures 0.0 <= Proportion(successes, failures, size) <= successes as real
    ensures (size - failures) as real <= Proportion(successes, failures, size) <= size as real
  {
    if successes + failures > 0 {
      var s, f, n, k := successes as real, failures as real, (successes + failures) as real, size as real;
      var share := s / n;
      DivideBounds(s, 0.0, 1.0, n, 0.0, n);
      ShareBounds(s, f, n, k, share, k * share);
    }
  }

  lemma ShareBounds(s: real, f: real, n: real, k: real, share: real, exact: real)
    requires n == s + f && n > 0.0 && s >= 0.0 && f >= 0.0 && 0.0 <= k <= n
    requires share * n == s && 0.0 <= share <= 1.0 && exact == k * share
    ensures 0.0 <= exact <= s && k - f <= exact <= k
  {
    var m, rest := n - k, 1.0 - share;
    var ms, kr, mr := m * share, k * rest, m * rest;
    Product(k, share, exact);
    Product(m, share, ms);
    Distribute(share, n, -k, m);
    Product(k, rest, kr);
    Distribute(k, 1.0, -share, rest);
    Product(m, rest, mr);
    Distribute(m, 1.0, -share, rest);
  }

  /** Stratification asks for exactly `size` tasks, never hands a shortfall back, and is within
      one half of the exact proportion. */
  lemma QuotasAreProportional(successes: nat, failures: nat, size: nat)
    requires size <= successes + failures
    ensures var (s, f) := Quotas(successes, failures, size);
      && 0 <= s <= successes && 0 <= f <= failures && s + f == size
      && s == RoundHalfEven(Proportion(successes, failures, size))
      && -0.5 <= s as real - Proportion(successes, failures, size) <= 0.5
      && (Abs(s as real - Proportion(successes, failures, size)) == 0.5 ==> s % 2 == 0)
  {
    ProportionBounds(successes, failures, size);
    RoundBetween(Proportion(successes, failures, size), 0, successes);
    RoundBetween(Proportion(successes, failures, size), size - failures, size);
  }

  // ---- weighted sampling ----------------------------------------------------------------------

  function Weight(outcomes: map<string, bool>, failureWeight: real, task: string): real {
    if Succeeds(outcomes, task) then 1.0 else failureWeight
  }

  function TotalWeight(outcomes: map<string, bool>, failureWeight: real, tasks: seq<string>): real {
    if tasks == [] then 0.0
    else TotalWeight(outcomes, failureWeight, tasks[..|tasks| - 1]) + Weight(outcomes, failureWeight, tasks[|tasks| - 1])
  }

  /** `uniform(0, total)`: the point a fraction u of the way along the total weight. */
  function CutAt(total: real, u: real): real {
    total * u
  }

  /** The first position from `i` on where the running weight reaches the cut; the length if none does. */
  function Reaching(outcomes: map<string, bool>, failureWeight: real, tasks: seq<string>, cut: real, i: nat,
                    running: real): (r: nat)
    requires i <= |tasks|
    ensures i <= r <= |tasks|
    decreases |tasks| - i
  {
    if i == |tasks| then i
    else
      var next := running + Weight(outcomes, failureWeight, tasks[i]);
      if next >= cut then i else Reaching(outcomes, failureWeight, tasks, cut, i + 1, next)
  }

  /** The draws left: in each, the task the cut falls on moves from `remaining` to the picks. */
  function Draws(outcomes: map<string, bool>, failureWeight: real, at: nat -> real, remaining: seq<string>, draw: nat,
                 size: nat): seq<string>
    requires draw <= size
    decreases size - draw
  {
    if draw == size then []
    else
      var cut := CutAt(TotalWeight(outcomes, failureWeight, remaining), at(draw));
      var k := Reaching(outcomes, failureWeight, remaining, cut, 0, 0.0);
      if k == |remaining| then Draws(outcomes, failureWeight, at, remaining, draw + 1, size)
      else [remaining[k]] + Draws(outcomes, failureWeight, at, remaining[..k] + remaining[k + 1..], draw + 1, size)
  }

  lemma {:induction false} TotalWeightNonnegative(outcomes: map<string, bool>, failureWeight: real, tasks: seq<string>)
    requires failureWeight >= 0.0
    ensures TotalWeight(outcomes, failureWeight, tasks) >= 0.0
  {
    if tasks != [] { TotalWeightNonnegative(outcomes, failureWeight, tasks[..|tasks| - 1]); }
  }

  /** A cut no greater than the total weight falls on some task. */
  lemma {:induction false} CutFallsOnATask(outcomes: map<string, bool>, failureWeight: real, tasks: seq<string>,
                                        cut: real, i: nat)
    requires i < |tasks| && cut <= TotalWeight(outcomes, failureWeight, tasks)
    ensures Reaching(outcomes, failureWeight, tasks, cut, i, TotalWeight(outcomes, failureWeight, tasks[..i])) < |tasks|
    decreases |tasks| - i
  {
    assert tasks[..i + 1][..i] == tasks[..i];
    if i + 1 < |tasks| {
      CutFallsOnATask(outcomes, failureWeight, tasks, cut, i + 1);
    } else {
      assert tasks[..i + 1] == tasks;
    }
  }

  lemma {:induction false} WeightsGrow(outcomes: map<string, bool>, failureWeight: real, tasks: seq<string>, i: nat, j: nat)
    requires failureWeight >= 0.0 && i <= j <= |tasks|
    ensures TotalWeight(outcomes, failureWeight, tasks[..i]) <= TotalWeight(outcomes, failureWeight, tasks[..j])
    decreases j
  {
    if i < j {
      WeightsGrow(outcomes, failureWeight, tasks, i, j - 1);
      assert tasks[..j][..j - 1] == tasks[..j - 1];
    }
  }

  lemma WeightOneMore(outcomes: map<string, bool>, failureWeight: real, tasks: seq<string>, i: nat)
    requires i < |tasks|
    ensures TotalWeight(outcomes, failureWeight, tasks[..i + 1])
         == TotalWeight(outcomes, failureWeight, tasks[..i]) + Weight(outcomes, failureWeight, tasks[i])
  {
    assert tasks[..i + 1][..i] == tasks[..i];
  }

  lemma {:induction false} ReachingStops(outcomes: map<string, bool>, failureWeight: real, tasks: seq<string>, cut: real, i: nat,
                                        running: real, k: nat)
    requires i <= |tasks| && running == TotalWeight(outcomes, failureWeight, tasks[..i])
    requires k == Reaching(outcomes, failureWeight, tasks, cut, i, running)
    ensures k < |tasks| ==> cut <= TotalWeight(outcomes, failureWeight, tasks[..k + 1])
    ensures k > i ==> TotalWeight(outcomes, failureWeight, tasks[..k]) < cut
    decreases |tasks| - i
  {
    if i < |tasks| {
      var next := running + Weight(outcomes, failureWeight, tasks[i]);
      WeightOneMore(outcomes, failureWeight, tasks, i);
      if next < cut { ReachingStops(outcomes, failureWeight, tasks, cut, i + 1, next, k); }
    }
  }

  /** Where a cut falls: the k-th task owns exactly the stretch of cuts above the weight before it up
      to the weight including it, as long as its own weight; the first task also owns the point zero. */
  lemma EveryTaskOwnsItsWeight(outcomes: map<string, bool>, failureWeight: real, tasks: seq<string>, cut: real, k: nat)
    requires failureWeight >= 0.0 && k < |tasks| && cut > 0.0
    ensures var before, through := TotalWeight(outcomes, failureWeight, tasks[..k]), TotalWeight(outcomes, failureWeight, tasks[..k + 1]);
      && through - before == Weight(outcomes, failureWeight, tasks[k])
      && (Reaching(outcomes, failureWeight, tasks, cut, 0, 0.0) == k <==> before < cut <= through)
  {
    var hit := Reaching(outcomes, failureWeight, tasks, cut, 0, 0.0);
    assert tasks[..0] == [];
    WeightOneMore(outcomes, failureWeight, tasks, k);
    ReachingStops(outcomes, failureWeight, tasks, cut, 0, 0.0, hit);
    if k < hit { WeightsGrow(outcomes, failureWeight, tasks, k + 1, hit); }
    if hit < k { WeightsGrow(outcomes, failureWeight, tasks, hit + 1, k); }
  }

  lemma CutWithinTotal(total: real, u: real)
    requires total >= 0.0 && 0.0 <= u <= 1.0
    ensures CutAt(total, u) <= total
  {
    var v := 1.0 - u;
    var p := total * v;
    Distribute(total, 1.0, -u, v);
    Product(total, v, p);
  }

  /** Weighted sampling picks exactly as many distinct tasks as asked, wherever the cuts fall. */
  lemma {:induction false} DrawsAreASample(outcomes: map<string, bool>, failureWeight: real, at: nat -> real,
                                        remaining: seq<string>, draw: nat, size: nat)
    requires failureWeight >= 0.0 && Uniform(at) && Distinct(remaining) && draw <= size <= draw + |remaining|
    ensures IsSample(Draws(outcomes, failureWeight, at, remaining, draw, size), remaining, size - draw)
    decreases size - draw
  {
    if draw < size {
      var total := TotalWeight(outcomes, failureWeight, remaining);
      var cut := CutAt(total, at(draw));
      TotalWeightNonnegative(outcomes, failureWeight, remaining);
      CutWithinTotal(total, at(draw));
      assert remaining[..0] == [];
      CutFallsOnATask(outcomes, failureWeight, remaining, cut, 0);
      var k := Reaching(outcomes, failureWeight, remaining, cut, 0, 0.0);
      var rest := remaining[..k] + remaining[k + 1..];
      RestIsDistinct(remaining, k);
      DrawsAreASample(outcomes, failureWeight, at, rest, draw + 1, size);
      var later := Draws(outcomes, failureWeight, at, rest, draw + 1, size);
      var picks := [remaining[k]] + later;
      assert Draws(outcomes, failureWeight, at, remaining, draw, size) == picks;
      forall t | t in picks ensures t in remaining {
        if t != remaining[k] { assert t in later && t in rest; }
      }
      forall j | 0 <= j < |later| ensures later[j] != remaining[k] {
        var t := later[j];
        assert t in later;
        assert t in rest;
      }
    }
  }

  lemma RestIsDistinct(tasks: seq<string>, k: nat)
    requires k < |tasks| && Distinct(tasks)
    ensures Distinct(tasks[..k] + tasks[k + 1..]) && tasks[k] !in tasks[..k] + tasks[k + 1..]
    ensures forall t :: t in tasks[..k] + tasks[k + 1..] ==> t in tasks
  {
  }

  // ---- the selection --------------------------------------------------------------------------

  /** The tasks with the given outcome, sorted. */
  function Pool(outcomes: map<string, bool>, success: bool): seq<string> {
    Sort(WithOutcome(outcomes, Listing(outcomes.Keys), success), StringLe)
  }

  /** What the program selects: a function of the tasks, their outcomes and the generator only. */
  function Select(outcomes: map<string, bool>, strategy: Strategy, sampleSize: Option<int>, rng: Rng,
                  failureWeight: real): Selection {
    var tasks := Listing(outcomes.Keys);
    if strategy == All then Selected(tasks, false)
    else if sampleSize.None? then Refused(NeedsSampleSize(strategy))
    else if sampleSize.value > |tasks| then Selected(tasks, true)
    else
      var size := sampleSize.value;
      match strategy
      case RandomN =>
        if size < 0 then Refused(ImpossibleSample) else Selected(Sort(rng.first(tasks, size), StringLe), false)
      case StratifiedByOutcome =>
        var successes, failures := Pool(outcomes, true), Pool(outcomes, false);
        var (s, f) := Quotas(|successes|, |failures|, size);
        if s < 0 || f < 0 then Refused(ImpossibleSample)
        else Selected(Sort(rng.first(successes, s) + rng.second(failures, f), StringLe), false)
      case FailureWeighted =>
        Selected(Sort(Draws(outcomes, failureWeight, rng.at, tasks, 0, if size < 0 then 0 else size), StringLe), false)
      case OtherStrategy(name) => Refused(UnknownStrategy(name))
  }

  lemma OneDraw(outcomes: map<string, bool>, failureWeight: real, at: nat -> real, remaining: seq<string>, draw: nat, size: nat,
                k: nat, picked: seq<string>)
    requires draw < size
    requires k == Reaching(outcomes, failureWeight, remaining, CutAt(TotalWeight(outcomes, failureWeight, remaining), at(draw)), 0, 0.0)
    ensures picked + Draws(outcomes, failureWeight, at, remaining, draw, size)
         == if k == |remaining| then picked + Draws(outcomes, failureWeight, at, remaining, draw + 1, size)
            else (picked + [remaining[k]]) + Draws(outcomes, failureWeight, at, remaining[..k] + remaining[k + 1..], draw + 1, size)
  {
    if k < |remaining| {
      var rest := Draws(outcomes, failureWeight, at, remaining[..k] + remaining[k + 1..], draw + 1, size);
      assert (picked + [remaining[k]]) + rest == picked + ([remaining[k]] + rest);
    }
  }

  /** The weighted draws as the program makes them, moving tasks from `remaining` to `picked`. */
  method DrawWeighted(outcomes: map<string, bool>, failureWeight: real, at: nat -> real, tasks: seq<string>, size: nat)
      returns (picked: seq<string>)
    ensures picked == Draws(outcomes, failureWeight, at, tasks, 0, size)
  {
    picked := [];
    var remaining := tasks;
    var draw := 0;
    while draw < size
      invariant 0 <= draw <= size
      invariant picked + Draws(outcomes, failureWeight, at, remaining, draw, size)
             == Draws(outcomes, failureWeight, at, tasks, 0, size)
    {
      var total := SumWeights(outcomes, failureWeight, remaining);
      var cut := CutAt(total, at(draw));
      var k := FindReaching(outcomes, failureWeight, remaining, cut);
      OneDraw(outcomes, failureWeight, at, remaining, draw, size, k, picked);
      if k < |remaining| {
        picked := picked + [remaining[k]];
        remaining := remaining[..k] + remaining[k + 1..];
      }
      draw := draw + 1;
    }
    assert picked + [] == picked;
  }

  method SumWeights(outcomes: map<string, bool>, failureWeight: real, tasks: seq<string>) returns (total: real)
    ensures total == TotalWeight(outcomes, failureWeight, tasks)
  {
    total := 0.0;
    var i := 0;
    while i < |tasks|
      invariant 0 <= i <= |tasks|
      invariant total == TotalWeight(outcomes, failureWeight, tasks[..i])
    {
      assert tasks[..i + 1][..i] == tasks[..i];
      total := total + Weight(outcomes, failureWeight, tasks[i]);
      i := i + 1;
    }
    assert tasks[..|tasks|] == tasks;
  }

  /** The inner loop: walk the running weight up to the cut. */
  method FindReaching(outcomes: map<string, bool>, failureWeight: real, tasks: seq<string>, cut: real) returns (k: nat)
    ensures k == Reaching(outcomes, failureWeight, tasks, cut, 0, 0.0)
  {
    var running := 0.0;
    k := 0;
    while k < |tasks|
      invariant 0 <= k <= |tasks|
      invariant Reaching(outcomes, failureWeight, tasks, cut, k, running) == Reaching(outcomes, failureWeight, tasks, cut, 0, 0.0)
    {
      running := running + Weight(outcomes, failureWeight, tasks[k]);
      if running >= cut {
        return;
      }
      k := k + 1;
    }
  }

  method SelectTasks(outcomes: map<string, bool>, strategy: Strategy, sampleSize: Option<int>, rng: Rng, failureWeight: real)
      returns (selection: Selection)
    ensures selection == Select(outcomes, strategy, sampleSize, rng, failureWeight)
  {
    var tasks := Listing(outcomes.Keys);
    if strategy == All {
      return Selected(tasks, false);
    }
    if sampleSize.None? {
      return Refused(NeedsSampleSize(strategy));
    }
    var size := sampleSize.value;
    if size > |tasks| {
      return Selected(tasks, true);
    }
    if strategy == RandomN {
      if size < 0 {
        return Refused(ImpossibleSample);
      }
      return Selected(Sort(rng.first(tasks, size), StringLe), false);
    }
    if strategy == StratifiedByOutcome {
      var successes := Sort(WithOutcome(outcomes, tasks, true), StringLe);
      var failures := Sort(WithOutcome(outcomes, tasks, false), StringLe);
      var (wantSuccess, wantFailure) := Quotas(|successes|, |failures|, size);
      if wantSuccess < 0 || wantFailure < 0 {
        return Refused(ImpossibleSample);
      }
      return Selected(Sort(rng.first(successes, wantSuccess) + rng.second(failures, wantFailure), StringLe), false);
    }
    if strategy == FailureWeighted {
      var picked := DrawWeighted(outcomes, failureWeight, rng.at, tasks, if size < 0 then 0 else size);
      return Selected(Sort(picked, StringLe), false);
    }
    return Refused(UnknownStrategy(strategy.name));
  }

  // ---- what a selection promises ------------------------------------------------------------------

  lemma SortedSample(picked: seq<string>, pool: seq<string>, k: nat)
    requires IsSample(picked, pool, k)
    ensures IsSample(Sort(picked, StringLe), pool, k)
  {
    SortDistinct(picked, StringLe);
    SortMembers(picked, StringLe);
  }

  lemma JoinedSamples(a: seq<string>, b: seq<string>, poolA: seq<string>, poolB: seq<string>, i: nat, j: nat, pool: seq<string>)
    requires IsSample(a, poolA, i) && IsSample(b, poolB, j)
    requires forall t :: t in poolA ==> t in pool && t !in poolB
    requires forall t :: t in poolB ==> t in pool
    ensures IsSample(a + b, pool, i + j)
  {
    forall x, y | 0 <= x < |a| && 0 <= y < |b| ensures a[x] != b[y] {
      assert a[x] in a && b[y] in b;
    }
  }

  lemma PoolFacts(outcomes: map<string, bool>, success: bool)
    ensures Distinct(Pool(outcomes, success))
    ensures forall t :: t in Pool(outcomes, success) <==> t in outcomes && outcomes[t] == success
    ensures |Pool(outcomes, success)| + |Pool(outcomes, !success)| == |outcomes|
  {
    var tasks := Listing(outcomes.Keys);
    ListingInOrder(outcomes.Keys);
    WithOutcomeFacts(outcomes, tasks, success);
    SortDistinct(WithOutcome(outcomes, tasks, success), StringLe);
    SortMembers(WithOutcome(outcomes, tasks, success), StringLe);
  }

  /** A stratified selection draws its two samples from the two sorted pools. */
  lemma StratifiedIsASample(outcomes: map<string, bool>, size: nat, rng: Rng)
    requires Fair(rng) && size <= |outcomes|
    ensures var successes, failures := Pool(outcomes, true), Pool(outcomes, false);
      var (s, f) := Quotas(|successes|, |failures|, size);
      && s >= 0 && f >= 0
      && IsSample(rng.first(successes, s), successes, s)
      && IsSample(rng.first(successes, s) + rng.second(failures, f), Listing(outcomes.Keys), size)
  {
    PoolFacts(outcomes, true);
    PoolFacts(outcomes, false);
    var successes, failures := Pool(outcomes, true), Pool(outcomes, false);
    QuotasAreProportional(|successes|, |failures|, size);
    var (s, f) := Quotas(|successes|, |failures|, size);
    var first, second := rng.first(successes, s), rng.second(failures, f);
    assert IsSample(first, successes, s) && IsSample(second, failures, f);
    JoinedSamples(first, second, successes, failures, s, f, Listing(outcomes.Keys));
  }

  /** For any size from zero to the number of tasks, every known strategy but `all` selects
      exactly that many distinct tasks; `all` selects each task once. */
  lemma SelectionSize(outcomes: map<string, bool>, strategy: Strategy, size: nat, rng: Rng, failureWeight: real)
    requires Fair(rng) && failureWeight >= 0.0 && size <= |outcomes| && !strategy.OtherStrategy?
    ensures var r := Select(outcomes, strategy, Some(size), rng, failureWeight);
      r.Selected? && !r.tooFew
      && IsSample(r.tasks, Listing(outcomes.Keys), if strategy == All then |outcomes| else size)
  {
    var tasks := Listing(outcomes.Keys);
    ListingInOrder(outcomes.Keys);
    match strategy
    case All =>
    case RandomN => SortedSample(rng.first(tasks, size), tasks, size);
    case StratifiedByOutcome =>
      StratifiedIsASample(outcomes, size, rng);
      var successes, failures := Pool(outcomes, true), Pool(outcomes, false);
      var (s, f) := Quotas(|successes|, |failures|, size);
      SortedSample(rng.first(successes, s) + rng.second(failures, f), tasks, size);
    case FailureWeighted =>
      DrawsAreASample(outcomes, failureWeight, rng.at, tasks, 0, size);
      SortedSample(Draws(outcomes, failureWeight, rng.at, tasks, 0, size), tasks, size);
  }

  /** Whatever is selected, under any strategy and size, is a list of distinct tasks that exist. */
  lemma SelectedTasksExist(outcomes: map<string, bool>, strategy: Strategy, sampleSize: Option<int>, rng: Rng,
                           failureWeight: real)
    requires Fair(rng) && failureWeight >= 0.0
    requires Select(outcomes, strategy, sampleSize, rng, failureWeight).Selected?
    ensures var picked := Select(outcomes, strategy, sampleSize, rng, failureWeight).tasks;
      Distinct(picked) && forall t :: t in picked ==> t in outcomes
  {
    ListingInOrder(outcomes.Keys);
    if strategy != All && 0 <= sampleSize.value <= |outcomes| {
      SelectionSize(outcomes, strategy, sampleSize.value, rng, failureWeight);
    } else if strategy == StratifiedByOutcome && sampleSize.value < 0 {
      NegativeQuotas(outcomes, sampleSize.value);
    }
  }

  /** A negative size is refused, not clipped. */
  lemma NegativeQuotas(outcomes: map<string, bool>, size: int)
    requires size < 0
    ensures var (s, f) := Quotas(|Pool(outcomes, true)|, |Pool(outcomes, false)|, size);
      s < 0 || f < 0
  {
  }
}
