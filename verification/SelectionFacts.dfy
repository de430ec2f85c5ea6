/** What each strategy selects, in terms of the tasks, their outcomes and what the generator returns. */
module SelectionFacts {
  import opened Ordering
  import opened RealAlgebra
  import opened Sampling
  import opened Wrappers

  /** `tasks` lists the tasks with the property, each once, in order. */
  ghost predicate Lists(tasks: seq<string>, p: string -> bool) {
    Distinct(tasks) && Sorted(tasks, StringLe) && forall t :: t in tasks <==> p(t)
  }

  ghost function Eligible(outcomes: map<string, bool>): string -> bool {
    (t: string) => t in outcomes
  }

  ghost function Outcome(outcomes: map<string, bool>, success: bool): string -> bool {
    (t: string) => t in outcomes && outcomes[t] == success
  }

  lemma ListsAreUnique(a: seq<string>, b: seq<string>, p: string -> bool)
    requires Lists(a, p) && Lists(b, p)
    ensures a == b
  {
    assert forall t :: t in a <==> t in b;
    DistinctSameElements(a, b);
    StringLeIsOrder();
    SortedUnique(a, b, StringLe);
  }

  lemma EligibleListing(outcomes: map<string, bool>, tasks: seq<string>)
    requires Lists(tasks, Eligible(outcomes))
    ensures Listing(outcomes.Keys) == tasks && |tasks| == |outcomes|
  {
    ListingUnique(outcomes.Keys, tasks);
  }

  lemma PoolListing(outcomes: map<string, bool>, success: bool, tasks: seq<string>)
    requires Lists(tasks, Outcome(outcomes, success))
    ensures Pool(outcomes, success) == tasks
  {
    PoolFacts(outcomes, success);
    StringLeIsOrder();
    SortSorts(WithOutcome(outcomes, Listing(outcomes.Keys), success), StringLe);
    ListsAreUnique(Pool(outcomes, success), tasks, Outcome(outcomes, success));
  }

  /** The cases no generator has a say in, errors and the warning included. */
  lemma SettledSelections(outcomes: map<string, bool>, strategy: Strategy, sampleSize: Option<int>, rng: Rng,
                          failureWeight: real, tasks: seq<string>)
    requires Lists(tasks, Eligible(outcomes))
    ensures var r := Select(outcomes, strategy, sampleSize, rng, failureWeight);
      && (strategy == All ==> r == Selected(tasks, false))
      && (strategy != All && sampleSize.None? ==> r == Refused(NeedsSampleSize(strategy)))
      && (strategy != All && sampleSize.Some? && sampleSize.value > |tasks| ==> r == Selected(tasks, true))
      && (sampleSize.Some? && sampleSize.value <= |tasks| && strategy.OtherStrategy? ==> r == Refused(UnknownStrategy(strategy.name)))
      && (sampleSize.Some? && sampleSize.value < 0 && strategy in {RandomN, StratifiedByOutcome} ==> r == Refused(ImpossibleSample))
      && (sampleSize.Some? && sampleSize.value < 0 && strategy == FailureWeighted ==> r == Selected([], false))
  {
    EligibleListing(outcomes, tasks);
    if sampleSize.Some? && sampleSize.value < 0 {
      NegativeQuotas(outcomes, sampleSize.value);
    }
  }

  /** A random selection is what the generator samples from the sorted tasks, sorted. */
  lemma RandomSelection(outcomes: map<string, bool>, size: nat, rng: Rng, failureWeight: real, tasks: seq<string>)
    requires Lists(tasks, Eligible(outcomes)) && size <= |tasks|
    ensures var r := Select(outcomes, RandomN, Some(size), rng, failureWeight);
      r.Selected? && !r.tooFew && Sorted(r.tasks, StringLe) && multiset(r.tasks) == multiset(rng.first(tasks, size))
  {
    EligibleListing(outcomes, tasks);
    StringLeIsOrder();
    SortSorts(rng.first(tasks, size), StringLe);
    SortPermutes(rng.first(tasks, size), StringLe);
  }

  /** The share of the size that goes to the successes, and the whole number asked for: the one next to it,
      the even one of two. */
  ghost predicate IsQuota(won: nat, lost: nat, size: nat, share: real, s: nat) {
    && (won + lost > 0 ==> share == size as real * (won as real / (won + lost) as real))
    && -0.5 <= s as real - share <= 0.5 && (Abs(s as real - share) == 0.5 ==> s % 2 == 0)
    && s <= won && s <= size && size - s <= lost
  }

  lemma QuotasAre(won: nat, lost: nat, size: nat) returns (share: real, s: nat)
    requires size <= won + lost
    ensures IsQuota(won, lost, size, share, s) && Quotas(won, lost, size) == (s, size - s)
  {
    QuotasAreProportional(won, lost, size);
    share, s := Proportion(won, lost, size), Quotas(won, lost, size).0;
  }

  lemma StratifiedIs(outcomes: map<string, bool>, size: nat, rng: Rng, failureWeight: real, s: nat)
    requires size <= |outcomes| && s <= size && Quotas(|Pool(outcomes, true)|, |Pool(outcomes, false)|, size) == (s, size - s)
    ensures Select(outcomes, StratifiedByOutcome, Some(size), rng, failureWeight)
         == Selected(Sort(rng.first(Pool(outcomes, true), s) + rng.second(Pool(outcomes, false), size - s), StringLe), false)
  {
  }

  lemma SortedJoin(a: seq<string>, b: seq<string>)
    ensures Sorted(Sort(a + b, StringLe), StringLe) && multiset(Sort(a + b, StringLe)) == multiset(a) + multiset(b)
  {
    StringLeIsOrder();
    SortSorts(a + b, StringLe);
    SortPermutes(a + b, StringLe);
  }

  /** A stratified selection is one sample of the tasks that succeeded and one of those that failed. */
  lemma StratifiedSelection(outcomes: map<string, bool>, size: nat, rng: Rng, failureWeight: real, won: seq<string>,
                            lost: seq<string>) returns (share: real, s: nat)
    requires Lists(won, Outcome(outcomes, true)) && Lists(lost, Outcome(outcomes, false)) && size <= |won| + |lost|
    ensures IsQuota(|won|, |lost|, size, share, s)
    ensures var r := Select(outcomes, StratifiedByOutcome, Some(size), rng, failureWeight);
      && r.Selected? && !r.tooFew && Sorted(r.tasks, StringLe)
      && multiset(r.tasks) == multiset(rng.first(won, s)) + multiset(rng.second(lost, size - s))
  {
    PoolListing(outcomes, true, won);
    PoolListing(outcomes, false, lost);
    PoolFacts(outcomes, true);
    share, s := QuotasAre(|won|, |lost|, size);
    StratifiedIs(outcomes, size, rng, failureWeight, s);
    SortedJoin(rng.first(won, s), rng.second(lost, size - s));
  }

  /** A task that failed weighs `failureWeight`, a success one; weights add up. */
  lemma WeightsAddUp(outcomes: map<string, bool>, failureWeight: real, tasks: seq<string>, t: string)
    ensures TotalWeight(outcomes, failureWeight, []) == 0.0
    ensures TotalWeight(outcomes, failureWeight, tasks + [t])
         == TotalWeight(outcomes, failureWeight, tasks) + (if t in outcomes && outcomes[t] then 1.0 else failureWeight)
  {
    assert (tasks + [t])[..|tasks|] == tasks;
  }

  /** A weighted selection makes one draw after another from the tasks not drawn yet. */
  lemma WeightedSelection(outcomes: map<string, bool>, size: nat, rng: Rng, failureWeight: real, tasks: seq<string>)
    requires Lists(tasks, Eligible(outcomes)) && size <= |tasks|
    ensures var r := Select(outcomes, FailureWeighted, Some(size), rng, failureWeight);
      && r.Selected? && !r.tooFew && Sorted(r.tasks, StringLe)
      && multiset(r.tasks) == multiset(Draws(outcomes, failureWeight, rng.at, tasks, 0, size))
  {
    EligibleListing(outcomes, tasks);
    StringLeIsOrder();
    SortSorts(Draws(outcomes, failureWeight, rng.at, tasks, 0, size), StringLe);
    SortPermutes(Draws(outcomes, failureWeight, rng.at, tasks, 0, size), StringLe);
  }

  /** The point a fraction of the way along the total weight. */
  predicate IsPoint(cut: real, fraction: real, total: real) {
    cut == fraction * total
  }

  /** One draw: it takes the task whose stretch of the total weight holds the point drawn. */
  lemma NextDraw(outcomes: map<string, bool>, failureWeight: real, at: nat -> real, left: seq<string>, draw: nat, size: nat)
      returns (k: nat, cut: real)
    requires failureWeight >= 0.0 && Uniform(at) && draw < size && left != []
    ensures k < |left| && IsPoint(cut, at(draw), TotalWeight(outcomes, failureWeight, left))
    ensures cut <= TotalWeight(outcomes, failureWeight, left[..k + 1])
    ensures k > 0 ==> TotalWeight(outcomes, failureWeight, left[..k]) < cut
    ensures Draws(outcomes, failureWeight, at, left, draw, size)
         == [left[k]] + Draws(outcomes, failureWeight, at, left[..k] + left[k + 1..], draw + 1, size)
  {
    cut := PointOf(TotalWeight(outcomes, failureWeight, left), at(draw));
    TotalWeightNonnegative(outcomes, failureWeight, left);
    CutWithinTotal(TotalWeight(outcomes, failureWeight, left), at(draw));
    k := CutFalls(outcomes, failureWeight, cut, left);
    DrawTakes(outcomes, failureWeight, at, left, draw, size, cut, k);
  }

  lemma DrawTakes(outcomes: map<string, bool>, failureWeight: real, at: nat -> real, left: seq<string>, draw: nat, size: nat,
                  cut: real, k: nat)
    requires draw < size && cut == CutAt(TotalWeight(outcomes, failureWeight, left), at(draw))
    requires k < |left| && k == Reaching(outcomes, failureWeight, left, cut, 0, 0.0)
    ensures Draws(outcomes, failureWeight, at, left, draw, size)
         == [left[k]] + Draws(outcomes, failureWeight, at, left[..k] + left[k + 1..], draw + 1, size)
  {
  }

  lemma PointOf(total: real, u: real) returns (cut: real)
    ensures cut == CutAt(total, u) && IsPoint(cut, u, total)
  {
    cut := CutAt(total, u);
  }

  lemma CutFalls(outcomes: map<string, bool>, failureWeight: real, cut: real, left: seq<string>) returns (k: nat)
    requires failureWeight >= 0.0 && left != [] && cut <= TotalWeight(outcomes, failureWeight, left)
    ensures k == Reaching(outcomes, failureWeight, left, cut, 0, 0.0) && k < |left|
    ensures cut <= TotalWeight(outcomes, failureWeight, left[..k + 1])
    ensures k > 0 ==> TotalWeight(outcomes, failureWeight, left[..k]) < cut
  {
    assert left[..0] == [];
    CutFallsOnATask(outcomes, failureWeight, left, cut, 0);
    k := Reaching(outcomes, failureWeight, left, cut, 0, 0.0);
    ReachingStops(outcomes, failureWeight, left, cut, 0, 0.0, k);
  }

  /** A sampler that gives back `chosen` when asked for as many of `tasks`, and the first ones otherwise. */
  function Chooser(tasks: seq<string>, chosen: seq<string>): (seq<string>, nat) -> seq<string> {
    (pool: seq<string>, k: nat) => if pool == tasks && k == |chosen| then chosen else if k <= |pool| then pool[..k] else []
  }

  lemma ChooserSamples(tasks: seq<string>, chosen: seq<string>)
    requires Distinct(chosen) && forall t :: t in chosen ==> t in tasks
    ensures Samples(Chooser(tasks, chosen))
  {
    forall pool: seq<string>, k: nat | Distinct(pool) && k <= |pool| ensures IsSample(Chooser(tasks, chosen)(pool, k), pool, k) {}
  }

  /** Every choice of `size` tasks is selected at random under some fair generator. */
  lemma EveryChoiceIsPossible(outcomes: map<string, bool>, target: set<string>, failureWeight: real) returns (rng: Rng)
    requires target <= outcomes.Keys
    ensures Fair(rng)
    ensures var r := Select(outcomes, RandomN, Some(|target|), rng, failureWeight);
      r.Selected? && forall t :: t in r.tasks <==> t in target
  {
    var tasks, chosen := Listing(outcomes.Keys), Listing(target);
    rng := Rng(Chooser(tasks, chosen), Chooser(tasks, chosen), i => 0.0);
    ListingInOrder(outcomes.Keys);
    ListingInOrder(target);
    ChooserSamples(tasks, chosen);
    SubsetIsNoLarger(target, outcomes.Keys);
    RandomSelection(outcomes, |target|, rng, failureWeight, tasks);
    SelectedAre(Select(outcomes, RandomN, Some(|target|), rng, failureWeight).tasks, chosen, target);
  }

  lemma SelectedAre(picked: seq<string>, chosen: seq<string>, target: set<string>)
    requires multiset(picked) == multiset(chosen) && forall t :: t in chosen <==> t in target
    ensures forall t :: t in picked <==> t in target
  {
    MembersOfMultiset(picked, chosen);
  }

  lemma SubsetIsNoLarger(a: set<string>, b: set<string>)
    requires a <= b
    ensures |a| <= |b|
  {
    assert b == a + (b - a);
  }
}
