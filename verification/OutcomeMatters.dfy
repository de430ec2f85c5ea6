/** The outcome of a single task can change what an outcome-aware strategy selects, at every sample
    size from one to one less than the number of tasks. */
module OutcomeMatters {
  import opened Ordering
  import opened Wrappers
  import opened RealAlgebra
  import opened Sampling

  predicate OutcomeAware(strategy: Strategy) {
    strategy == StratifiedByOutcome || strategy == FailureWeighted
  }

  /** The same outcomes but for one task, which fails in the first and succeeds in the second. */
  ghost predicate Flips(failing: map<string, bool>, winning: map<string, bool>, task: string) {
    task in failing && !failing[task] && winning == failing[task := true]
  }

  // ---- samples that prefer or avoid a task --------------------------------------------------------

  function Without(pool: seq<string>, task: string): seq<string> {
    if pool == [] then [] else if pool[0] == task then pool[1..] else [pool[0]] + Without(pool[1..], task)
  }

  lemma {:induction false} WithoutFacts(pool: seq<string>, task: string)
    requires Distinct(pool) && task in pool
    ensures |Without(pool, task)| == |pool| - 1 && Distinct(Without(pool, task))
    ensures forall t :: t in Without(pool, task) <==> t in pool && t != task
  {
    assert pool == [pool[0]] + pool[1..];
    DistinctCons(pool[0], pool[1..]);
    if pool[0] != task {
      WithoutFacts(pool[1..], task);
      DistinctCons(pool[0], Without(pool[1..], task));
    }
  }

  /** The pool with the task moved to the front or to the back. */
  function Arranged(pool: seq<string>, task: string, first: bool): seq<string> {
    if task !in pool then pool
    else if first then [task] + Without(pool, task)
    else Without(pool, task) + [task]
  }

  function Sampler(task: string, first: bool): (seq<string>, nat) -> seq<string> {
    (pool: seq<string>, k: nat) => if k <= |Arranged(pool, task, first)| then Arranged(pool, task, first)[..k] else []
  }

  lemma ArrangedFacts(pool: seq<string>, task: string, first: bool)
    requires Distinct(pool)
    ensures |Arranged(pool, task, first)| == |pool| && Distinct(Arranged(pool, task, first))
    ensures forall t :: t in Arranged(pool, task, first) <==> t in pool
  {
    if task in pool {
      WithoutFacts(pool, task);
      DistinctCons(task, Without(pool, task));
      DistinctSnoc(Without(pool, task), task);
    }
  }

  lemma SamplerSamples(task: string, first: bool)
    ensures Samples(Sampler(task, first))
  {
    forall pool: seq<string>, k: nat | Distinct(pool) && k <= |pool| ensures IsSample(Sampler(task, first)(pool, k), pool, k) {
      ArrangedFacts(pool, task, first);
      PrefixIsSample(Arranged(pool, task, first), pool, k);
    }
  }

  lemma PrefixIsSample(arranged: seq<string>, pool: seq<string>, k: nat)
    requires Distinct(arranged) && k <= |arranged| && forall t :: t in arranged ==> t in pool
    ensures IsSample(arranged[..k], pool, k)
  {
    forall t | t in arranged[..k] ensures t in pool { assert t in arranged; }
  }

  /** A preferred task is in every nonempty sample, an avoided one in no sample short of the whole pool. */
  lemma SamplerTakes(pool: seq<string>, task: string, k: nat)
    requires Distinct(pool) && task in pool && k <= |pool|
    ensures k >= 1 ==> task in Sampler(task, true)(pool, k)
    ensures k < |pool| ==> task !in Sampler(task, false)(pool, k)
  {
    ArrangedFacts(pool, task, true);
    ArrangedFacts(pool, task, false);
    WithoutFacts(pool, task);
    if k >= 1 { assert Arranged(pool, task, true)[..k][0] == task; }
    if k < |pool| {
      assert Arranged(pool, task, false)[..k] == Without(pool, task)[..k];
      assert forall t :: t in Without(pool, task)[..k] ==> t in Without(pool, task);
    }
  }

  // ---- the stratified draw --------------------------------------------------------------------------

  /** What is drawn from the two pools, before sorting. */
  function StratifiedPicks(outcomes: map<string, bool>, size: int, rng: Rng): seq<string>
    requires var (s, f) := Quotas(|Pool(outcomes, true)|, |Pool(outcomes, false)|, size); s >= 0 && f >= 0
  {
    var (s, f) := Quotas(|Pool(outcomes, true)|, |Pool(outcomes, false)|, size);
    rng.first(Pool(outcomes, true), s) + rng.second(Pool(outcomes, false), f)
  }

  lemma OneMoreElement(pool: seq<string>, more: seq<string>, task: string)
    requires Distinct(pool) && Distinct(more) && task !in pool
    requires forall t :: t in more <==> t in pool || t == task
    ensures |more| == |pool| + 1
  {
    ElementsSize(pool);
    ElementsSize(more);
    assert Elements(more) == Elements(pool) + {task};
  }

  lemma PoolMember(outcomes: map<string, bool>, success: bool, t: string)
    ensures t in Pool(outcomes, success) <==> t in outcomes && outcomes[t] == success
  {
    PoolFacts(outcomes, success);
  }

  /** The flipped task moves from the pool of failures to the pool of successes. */
  lemma PoolsFlip(failing: map<string, bool>, winning: map<string, bool>, task: string)
    requires Flips(failing, winning, task)
    ensures task in Pool(failing, false) && task in Pool(winning, true)
    ensures task !in Pool(failing, true) && task !in Pool(winning, false)
    ensures forall t :: t in Pool(winning, true) <==> t in Pool(failing, true) || t == task
    ensures forall t :: t in Pool(failing, false) <==> t in Pool(winning, false) || t == task
    ensures forall t :: t in Pool(failing, true) ==> t !in Pool(failing, false) && t !in Pool(winning, false)
  {
    PoolMember(failing, false, task);
    PoolMember(winning, true, task);
    PoolMember(failing, true, task);
    PoolMember(winning, false, task);
    forall t
      ensures t in Pool(winning, true) <==> t in Pool(failing, true) || t == task
      ensures t in Pool(failing, false) <==> t in Pool(winning, false) || t == task
      ensures t in Pool(failing, true) ==> t !in Pool(failing, false) && t !in Pool(winning, false)
    {
      PoolMember(failing, false, t);
      PoolMember(winning, true, t);
      PoolMember(failing, true, t);
      PoolMember(winning, false, t);
    }
  }

  /** A sample of the whole pool holds it all; a smaller one leaves something out. */
  lemma WholeSample(picked: seq<string>, pool: seq<string>, k: nat)
    requires IsSample(picked, pool, k) && Distinct(pool)
    ensures k == |pool| ==> forall t :: t in pool ==> t in picked
    ensures k < |pool| ==> exists t :: t in pool && t !in picked
  {
    ElementsSize(picked);
    ElementsSize(pool);
    var p, q := Elements(picked), Elements(pool);
    assert p <= q;
    assert |q - p| == |pool| - k;
    if k == |pool| {
      assert q - p == {};
      forall t | t in pool ensures t in picked { assert t in q; }
    } else if k < |pool| {
      assert q - p != {};
      var t :| t in q - p;
      assert t in pool && t !in picked;
    }
  }

  /** The four pools and four quotas of a flip, and a pair of samplers. */
  ghost predicate StratifiedCase(task: string, s: nat, f: nat, s': nat, f': nat,
                                 successes: seq<string>, failures: seq<string>, successes': seq<string>, failures': seq<string>)
  {
    && Distinct(successes) && Distinct(failures) && Distinct(successes') && Distinct(failures')
    && s <= |successes| && f <= |failures| && s' <= |successes'| && f' <= |failures'| && s + f == s' + f' > 0
    && |successes'| == |successes| + 1 && |failures| == |failures'| + 1 && s + f < |successes| + |failures|
    && task in failures && task in successes' && task !in successes && task !in failures'
    && (forall t :: t in successes ==> t in successes' && t !in failures && t !in failures')
  }

  ghost predicate Differ(a: seq<string>, b: seq<string>) {
    exists t :: t in a <==> t !in b
  }

  lemma SamplesDiffer(task: string, s: nat, f: nat, s': nat, f': nat, rng: Rng,
                      successes: seq<string>, failures: seq<string>, successes': seq<string>, failures': seq<string>)
    requires StratifiedCase(task, s, f, s', f', successes, failures, successes', failures')
    requires Samples(rng.first) && Samples(rng.second)
    requires f >= 1 && s' < |successes'| ==> rng.first == Sampler(task, false) && rng.second == Sampler(task, true)
    requires !(f >= 1 && s' < |successes'|) ==> rng.first == Sampler(task, true) && rng.second == Sampler(task, false)
    ensures Differ(rng.first(successes, s) + rng.second(failures, f), rng.first(successes', s') + rng.second(failures', f'))
  {
    var a, b, c, d := rng.first(successes, s), rng.second(failures, f), rng.first(successes', s'), rng.second(failures', f');
    assert IsSample(a, successes, s) && IsSample(b, failures, f) && IsSample(c, successes', s') && IsSample(d, failures', f');
    assert task !in a && task !in d;
    if f >= 1 && s' < |successes'| {
      SamplerTakes(failures, task, f);
      SamplerTakes(successes', task, s');
      assert task in a + b && task !in c + d;
    } else if f < |failures| && s' >= 1 {
      SamplerTakes(failures, task, f);
      SamplerTakes(successes', task, s');
      assert task !in a + b && task in c + d;
    } else if f == 0 {
      assert s' == 0 && s >= 1;
      assert a[0] in a && a[0] in successes;
      assert a[0] in a + b && a[0] !in c + d;
    } else {
      WholeSample(c, successes', s');
      WholeSample(a, successes, s);
      var t :| t in successes && t !in a;
      assert t !in b;
      assert t !in a + b && t in c + d;
    }
  }

  lemma DifferentPicks(a: seq<string>, b: seq<string>)
    requires Differ(a, b)
    ensures Sort(a, StringLe) != Sort(b, StringLe)
  {
    SortMembers(a, StringLe);
    SortMembers(b, StringLe);
  }

  lemma StratifiedSelects(outcomes: map<string, bool>, size: nat, rng: Rng, failureWeight: real)
    requires size <= |outcomes|
    ensures var (s, f) := Quotas(|Pool(outcomes, true)|, |Pool(outcomes, false)|, size); s >= 0 && f >= 0
    ensures Select(outcomes, StratifiedByOutcome, Some(size), rng, failureWeight)
         == Selected(Sort(StratifiedPicks(outcomes, size, rng), StringLe), false)
  {
    PoolFacts(outcomes, true);
    QuotasAreProportional(|Pool(outcomes, true)|, |Pool(outcomes, false)|, size);
    ListingInOrder(outcomes.Keys);
  }

  lemma StratifiedFlip(failing: map<string, bool>, winning: map<string, bool>, task: string, size: nat, failureWeight: real)
      returns (rng: Rng)
    requires Flips(failing, winning, task) && 0 < size < |failing|
    ensures Fair(rng)
    ensures Select(failing, StratifiedByOutcome, Some(size), rng, failureWeight)
         != Select(winning, StratifiedByOutcome, Some(size), rng, failureWeight)
  {
    PoolFacts(failing, true);
    PoolFacts(failing, false);
    PoolFacts(winning, true);
    PoolFacts(winning, false);
    PoolsFlip(failing, winning, task);
    OneMoreElement(Pool(failing, true), Pool(winning, true), task);
    OneMoreElement(Pool(winning, false), Pool(failing, false), task);
    var successes, failures, successes', failures' := Pool(failing, true), Pool(failing, false), Pool(winning, true), Pool(winning, false);
    QuotasAreProportional(|successes|, |failures|, size);
    QuotasAreProportional(|successes'|, |failures'|, size);
    var (s, f) := Quotas(|successes|, |failures|, size);
    var (s', f') := Quotas(|successes'|, |failures'|, size);
    var second := f >= 1 && s' < |successes'|;
    rng := Rng(Sampler(task, !second), Sampler(task, second), _ => 0.0);
    SamplerSamples(task, true);
    SamplerSamples(task, false);
    SamplesDiffer(task, s, f, s', f', rng, successes, failures, successes', failures');
    DifferentPicks(StratifiedPicks(failing, size, rng), StratifiedPicks(winning, size, rng));
    StratifiedSelects(failing, size, rng, failureWeight);
    StratifiedSelects(winning, size, rng, failureWeight);
  }

  // ---- the weighted draw ------------------------------------------------------------------------------

  lemma {:induction false} WeightsOfOthers(failing: map<string, bool>, winning: map<string, bool>, failureWeight: real,
                                           tasks: seq<string>, task: string)
    requires Flips(failing, winning, task) && task !in tasks
    ensures TotalWeight(failing, failureWeight, tasks) == TotalWeight(winning, failureWeight, tasks)
  {
    if tasks != [] { WeightsOfOthers(failing, winning, failureWeight, tasks[..|tasks| - 1], task); }
  }

  /** The flip takes the surplus of a failure off the total. */
  lemma {:induction false} TotalsFlip(failing: map<string, bool>, winning: map<string, bool>, failureWeight: real,
                                      tasks: seq<string>, task: string)
    requires Flips(failing, winning, task) && Distinct(tasks) && task in tasks
    ensures TotalWeight(failing, failureWeight, tasks) - TotalWeight(winning, failureWeight, tasks) == failureWeight - 1.0
  {
    var front, last := tasks[..|tasks| - 1], tasks[|tasks| - 1];
    assert tasks == front + [last];
    DistinctSnoc(front, last);
    if last == task {
      WeightsOfOthers(failing, winning, failureWeight, front, task);
    } else {
      TotalsFlip(failing, winning, failureWeight, front, task);
    }
  }

  /** The position the draw takes when it cuts a fraction u of the way along. */
  function TakenAt(outcomes: map<string, bool>, failureWeight: real, tasks: seq<string>, u: real): (k: nat)
    ensures k <= |tasks|
  {
    Reaching(outcomes, failureWeight, tasks, CutAt(TotalWeight(outcomes, failureWeight, tasks), u), 0, 0.0)
  }

  lemma DrawsFrom(outcomes: map<string, bool>, failureWeight: real, at: nat -> real, remaining: seq<string>, draw: nat, size: nat,
                  k: nat)
    requires draw < size && k == TakenAt(outcomes, failureWeight, remaining, at(draw))
    ensures Draws(outcomes, failureWeight, at, remaining, draw, size)
         == if k == |remaining| then Draws(outcomes, failureWeight, at, remaining, draw + 1, size)
            else [remaining[k]] + Draws(outcomes, failureWeight, at, remaining[..k] + remaining[k + 1..], draw + 1, size)
  {
  }

  /** Draws look only at the cuts still to come. */
  lemma {:induction false} DrawsLookAhead(outcomes: map<string, bool>, failureWeight: real, at: nat -> real, other: nat -> real,
                                          remaining: seq<string>, draw: nat, size: nat)
    requires draw <= size && forall i :: i >= draw ==> at(i) == other(i)
    ensures Draws(outcomes, failureWeight, at, remaining, draw, size) == Draws(outcomes, failureWeight, other, remaining, draw, size)
    decreases size - draw
  {
    if draw < size {
      var k := TakenAt(outcomes, failureWeight, remaining, at(draw));
      DrawsFrom(outcomes, failureWeight, at, remaining, draw, size, k);
      DrawsFrom(outcomes, failureWeight, other, remaining, draw, size, k);
      if k == |remaining| {
        DrawsLookAhead(outcomes, failureWeight, at, other, remaining, draw + 1, size);
      } else {
        DrawsLookAhead(outcomes, failureWeight, at, other, remaining[..k] + remaining[k + 1..], draw + 1, size);
      }
    }
  }

  lemma WeightsArePositive(outcomes: map<string, bool>, failureWeight: real, tasks: seq<string>, i: nat)
    requires failureWeight > 1.0 && i < |tasks|
    ensures 0.0 <= TotalWeight(outcomes, failureWeight, tasks[..i]) < TotalWeight(outcomes, failureWeight, tasks[..i + 1])
         <= TotalWeight(outcomes, failureWeight, tasks)
  {
    TotalWeightNonnegative(outcomes, failureWeight, tasks[..i]);
    WeightOneMore(outcomes, failureWeight, tasks, i);
    WeightsGrow(outcomes, failureWeight, tasks, i + 1, |tasks|);
    assert tasks[..|tasks|] == tasks;
  }

  /** Cutting at one end of the weights takes the task there, whatever the outcomes. */
  lemma EndCuts(outcomes: map<string, bool>, failureWeight: real, tasks: seq<string>)
    requires failureWeight > 1.0 && tasks != []
    ensures TakenAt(outcomes, failureWeight, tasks, 0.0) == 0
    ensures TakenAt(outcomes, failureWeight, tasks, 1.0) == |tasks| - 1
  {
    WeightsArePositive(outcomes, failureWeight, tasks, |tasks| - 1);
    assert tasks[..|tasks|] == tasks;
    EveryTaskOwnsItsWeight(outcomes, failureWeight, tasks, TotalWeight(outcomes, failureWeight, tasks), |tasks| - 1);
  }

  /** Weights b before the task and c after it, w its own weight as a failure: a fraction that falls on
      the task when it fails and past or before it when it succeeds. */
  function Between(b: real, w: real, c: real): real
    requires b >= 0.0 && w > 1.0 && c >= 0.0
  {
    if c > 0.0 then (b + w) / (b + w + c) else b / (b + 1.0)
  }

  lemma BetweenPast(b: real, w: real, c: real, u: real)
    requires b >= 0.0 && w > 1.0 && c > 0.0 && u == (b + w) / (b + w + c)
    ensures 0.0 <= u <= 1.0
    ensures CutAt(b + w + c, u) == b + w && b + 1.0 < CutAt(b + 1.0 + c, u)
  {
    var total, v := b + w + c, 1.0 - u;
    DivideBounds(b + w, 0.0, 1.0, total, 0.0, total);
    assert u * total == b + w;
    Distribute(total, 1.0, -u, v);
    var tv := total * v;
    assert tv == c;
    Product(total, v, tv);
    Product(total, -v, -tv);
    var surplus := (w - 1.0) * v;
    Product(w - 1.0, v, surplus);
    var wu, w1u, cut := total * u, (w - 1.0) * u, (b + 1.0 + c) * u;
    assert cut == wu - w1u;
    assert surplus == (w - 1.0) - w1u;
  }

  lemma BetweenBefore(b: real, w: real, u: real)
    requires b > 0.0 && w > 1.0 && u == b / (b + 1.0)
    ensures 0.0 <= u <= 1.0
    ensures CutAt(b + 1.0, u) == b && b < CutAt(b + w, u) <= b + w
  {
    var d, surplus := b + 1.0, (w - 1.0) * u;
    DivideBounds(b, 0.0, 1.0, d, 0.0, d);
    assert u * d == b;
    var cut := (b + w) * u;
    assert cut == b + surplus;
    assert u > 0.0;
    Product(w - 1.0, u, surplus);
    CutWithinTotal(b + w, u);
  }

  /** Two fractions of the same list of tasks that part the two outcomes. */
  lemma LastDraw(failing: map<string, bool>, winning: map<string, bool>, failureWeight: real, tasks: seq<string>, k: nat)
      returns (u: real)
    requires failureWeight > 1.0 && Distinct(tasks) && |tasks| >= 2 && k < |tasks| && Flips(failing, winning, tasks[k])
    ensures 0.0 <= u <= 1.0
    ensures TakenAt(failing, failureWeight, tasks, u) == k && TakenAt(winning, failureWeight, tasks, u) != k
  {
    var b, w, total := TotalWeight(failing, failureWeight, tasks[..k]), failureWeight, TotalWeight(failing, failureWeight, tasks);
    var c := total - b - w;
    WeightOneMore(failing, failureWeight, tasks, k);
    WeightOneMore(winning, failureWeight, tasks, k);
    WeightsArePositive(failing, failureWeight, tasks, k);
    NotBefore(tasks, k);
    WeightsOfOthers(failing, winning, failureWeight, tasks[..k], tasks[k]);
    TotalsFlip(failing, winning, failureWeight, tasks, tasks[k]);
    u := Between(b, w, c);
    if c > 0.0 {
      BetweenPast(b, w, c, u);
      EveryTaskOwnsItsWeight(failing, failureWeight, tasks, CutAt(b + w + c, u), k);
      EveryTaskOwnsItsWeight(winning, failureWeight, tasks, CutAt(b + 1.0 + c, u), k);
    } else {
      LastOfSeveral(failing, failureWeight, tasks, k);
      BetweenBefore(b, w, u);
      EveryTaskOwnsItsWeight(failing, failureWeight, tasks, CutAt(b + w, u), k);
      EveryTaskOwnsItsWeight(winning, failureWeight, tasks, CutAt(b + 1.0, u), k);
    }
  }

  lemma NotBefore(tasks: seq<string>, k: nat)
    requires Distinct(tasks) && k < |tasks|
    ensures tasks[k] !in tasks[..k]
  {
  }

  /** With nothing after it, the task has something before it. */
  lemma LastOfSeveral(outcomes: map<string, bool>, failureWeight: real, tasks: seq<string>, k: nat)
    requires failureWeight > 1.0 && |tasks| >= 2 && k < |tasks|
    requires TotalWeight(outcomes, failureWeight, tasks[..k + 1]) == TotalWeight(outcomes, failureWeight, tasks)
    ensures TotalWeight(outcomes, failureWeight, tasks[..k]) > 0.0
  {
    if k == 0 {
      WeightsArePositive(outcomes, failureWeight, tasks, 1);
    } else {
      WeightsArePositive(outcomes, failureWeight, tasks, k - 1);
    }
  }

  /** The cuts draw the task when it fails and leave it out when it succeeds. */
  ghost predicate Parts(at: nat -> real, failing: map<string, bool>, winning: map<string, bool>, failureWeight: real, task: string,
                        remaining: seq<string>, draw: nat, size: nat)
    requires draw <= size
  {
    && Uniform(at)
    && task in Draws(failing, failureWeight, at, remaining, draw, size)
    && task !in Draws(winning, failureWeight, at, remaining, draw, size)
  }

  /** There are such cuts: the draws before the last take other tasks from the ends of the list. */
  lemma {:induction false} WeightedCuts(failing: map<string, bool>, winning: map<string, bool>, failureWeight: real, task: string,
                                        remaining: seq<string>, draw: nat, size: nat) returns (at: nat -> real)
    requires failureWeight > 1.0 && Distinct(remaining) && task in remaining && Flips(failing, winning, task)
    requires draw < size < draw + |remaining|
    ensures Parts(at, failing, winning, failureWeight, task, remaining, draw, size)
    decreases size - draw
  {
    if draw + 1 == size {
      at := LastCuts(failing, winning, failureWeight, task, remaining, draw);
    } else {
      var k, u := OtherDraw(failing, winning, failureWeight, task, remaining);
      RestKeeps(remaining, k, task);
      var later := WeightedCuts(failing, winning, failureWeight, task, remaining[..k] + remaining[k + 1..], draw + 1, size);
      at := CutFirst(draw, u, later);
      OneMoreCut(failing, winning, failureWeight, task, remaining, draw, size, k, u, later);
    }
  }

  lemma OneMoreCut(failing: map<string, bool>, winning: map<string, bool>, failureWeight: real, task: string,
                   remaining: seq<string>, draw: nat, size: nat, k: nat, u: real, later: nat -> real)
    requires draw < size && k < |remaining| && remaining[k] != task && 0.0 <= u <= 1.0
    requires TakenAt(failing, failureWeight, remaining, u) == k == TakenAt(winning, failureWeight, remaining, u)
    requires Parts(later, failing, winning, failureWeight, task, remaining[..k] + remaining[k + 1..], draw + 1, size)
    ensures Parts(CutFirst(draw, u, later), failing, winning, failureWeight, task, remaining, draw, size)
  {
    OneDrawThenRest(failing, failureWeight, u, later, remaining, draw, size, k);
    OneDrawThenRest(winning, failureWeight, u, later, remaining, draw, size, k);
  }

  lemma LastCuts(failing: map<string, bool>, winning: map<string, bool>, failureWeight: real, task: string,
                 remaining: seq<string>, draw: nat) returns (at: nat -> real)
    requires failureWeight > 1.0 && Distinct(remaining) && task in remaining && Flips(failing, winning, task) && |remaining| >= 2
    ensures Parts(at, failing, winning, failureWeight, task, remaining, draw, draw + 1)
  {
    var k :| 0 <= k < |remaining| && remaining[k] == task;
    var u := LastDraw(failing, winning, failureWeight, remaining, k);
    at := _ => u;
    OnlyDraw(failing, failureWeight, at, remaining, draw);
    OnlyDraw(winning, failureWeight, at, remaining, draw);
  }

  /** The cuts of `later`, with u for one draw. */
  function CutFirst(draw: nat, u: real, later: nat -> real): nat -> real {
    (i: nat) => if i == draw then u else later(i)
  }

  lemma OneDrawThenRest(outcomes: map<string, bool>, failureWeight: real, u: real, later: nat -> real,
                        remaining: seq<string>, draw: nat, size: nat, k: nat)
    requires draw < size && k < |remaining| && k == TakenAt(outcomes, failureWeight, remaining, u)
    ensures Draws(outcomes, failureWeight, CutFirst(draw, u, later), remaining, draw, size)
         == [remaining[k]] + Draws(outcomes, failureWeight, later, remaining[..k] + remaining[k + 1..], draw + 1, size)
  {
    DrawsFrom(outcomes, failureWeight, CutFirst(draw, u, later), remaining, draw, size, k);
    DrawsLookAhead(outcomes, failureWeight, CutFirst(draw, u, later), later, remaining[..k] + remaining[k + 1..], draw + 1, size);
  }

  /** A draw of some other task from one end of the list, under either outcome. */
  lemma OtherDraw(failing: map<string, bool>, winning: map<string, bool>, failureWeight: real, task: string, remaining: seq<string>)
      returns (k: nat, u: real)
    requires failureWeight > 1.0 && Distinct(remaining) && |remaining| >= 2
    ensures k < |remaining| && remaining[k] != task && 0.0 <= u <= 1.0
    ensures TakenAt(failing, failureWeight, remaining, u) == k == TakenAt(winning, failureWeight, remaining, u)
  {
    EndCuts(failing, failureWeight, remaining);
    EndCuts(winning, failureWeight, remaining);
    assert remaining[0] != remaining[|remaining| - 1];
    if remaining[0] != task {
      k, u := 0, 0.0;
    } else {
      k, u := |remaining| - 1, 1.0;
    }
  }

  lemma RestKeeps(tasks: seq<string>, k: nat, task: string)
    requires Distinct(tasks) && k < |tasks| && task in tasks && tasks[k] != task
    ensures task in tasks[..k] + tasks[k + 1..] && Distinct(tasks[..k] + tasks[k + 1..])
    ensures |tasks[..k] + tasks[k + 1..]| == |tasks| - 1
  {
    RestIsDistinct(tasks, k);
    assert tasks == tasks[..k] + ([tasks[k]] + tasks[k + 1..]);
  }

  lemma OnlyDraw(outcomes: map<string, bool>, failureWeight: real, at: nat -> real, remaining: seq<string>, draw: nat)
    requires Distinct(remaining)
    ensures forall i :: 0 <= i < |remaining| ==>
      (remaining[i] in Draws(outcomes, failureWeight, at, remaining, draw, draw + 1)
       <==> i == TakenAt(outcomes, failureWeight, remaining, at(draw)))
  {
    var k := TakenAt(outcomes, failureWeight, remaining, at(draw));
    DrawsFrom(outcomes, failureWeight, at, remaining, draw, draw + 1, k);
    assert Draws(outcomes, failureWeight, at, remaining, draw, draw + 1) == if k == |remaining| then [] else [remaining[k]];
  }

  lemma WeightedFlip(failing: map<string, bool>, winning: map<string, bool>, task: string, size: nat, failureWeight: real)
      returns (rng: Rng)
    requires failureWeight > 1.0 && Flips(failing, winning, task) && 0 < size < |failing|
    ensures Fair(rng)
    ensures Select(failing, FailureWeighted, Some(size), rng, failureWeight)
         != Select(winning, FailureWeighted, Some(size), rng, failureWeight)
  {
    var tasks := Listing(failing.Keys);
    ListingInOrder(failing.Keys);
    assert winning.Keys == failing.Keys;
    var at := WeightedCuts(failing, winning, failureWeight, task, tasks, 0, size);
    rng := Rng(Sampler(task, true), Sampler(task, true), at);
    SamplerSamples(task, true);
    var drawn, left := Draws(failing, failureWeight, at, tasks, 0, size), Draws(winning, failureWeight, at, tasks, 0, size);
    assert Differ(drawn, left);
    DifferentPicks(drawn, left);
  }

  /** The outcome of one task shows in the selection: for every sample size from one to one less than
      the number of tasks, some run of the generator selects differently once the task succeeds. */
  lemma OneOutcomeMatters(failing: map<string, bool>, winning: map<string, bool>, task: string, strategy: Strategy, size: nat,
                          failureWeight: real) returns (rng: Rng)
    requires OutcomeAware(strategy) && failureWeight > 1.0 && Flips(failing, winning, task) && 0 < size < |failing|
    ensures Fair(rng)
    ensures Select(failing, strategy, Some(size), rng, failureWeight) != Select(winning, strategy, Some(size), rng, failureWeight)
  {
    if strategy == StratifiedByOutcome {
      rng := StratifiedFlip(failing, winning, task, size, failureWeight);
    } else {
      rng := WeightedFlip(failing, winning, task, size, failureWeight);
    }
  }

  /** At every other size the outcomes do not matter at all. */
  lemma OutcomesDoNotMatter(outcomes: map<string, bool>, outcomes': map<string, bool>, strategy: Strategy, sampleSize: Option<int>,
                            rng: Rng, failureWeight: real)
    requires failureWeight >= 0.0 && outcomes.Keys == outcomes'.Keys
    requires OutcomeAware(strategy) ==>
      Fair(rng) && (sampleSize.None? || sampleSize.value <= 0 || |outcomes| <= sampleSize.value)
    ensures Select(outcomes, strategy, sampleSize, rng, failureWeight) == Select(outcomes', strategy, sampleSize, rng, failureWeight)
  {
    assert |outcomes| == |outcomes.Keys| == |outcomes'|;
    if OutcomeAware(strategy) && sampleSize.Some? {
      var size := sampleSize.value;
      ListingInOrder(outcomes.Keys);
      if size < 0 {
        NegativeSelection(outcomes, outcomes', strategy, size, rng, failureWeight);
      } else if size == 0 || size == |outcomes| {
        ExtremeSelection(outcomes, strategy, size, rng, failureWeight);
        ExtremeSelection(outcomes', strategy, size, rng, failureWeight);
      }
    }
  }

  lemma NegativeSelection(outcomes: map<string, bool>, outcomes': map<string, bool>, strategy: Strategy, size: int, rng: Rng,
                          failureWeight: real)
    requires OutcomeAware(strategy) && size < 0
    ensures Select(outcomes, strategy, Some(size), rng, failureWeight) == Select(outcomes', strategy, Some(size), rng, failureWeight)
  {
    if strategy == StratifiedByOutcome {
      NegativeQuotas(outcomes, size);
      NegativeQuotas(outcomes', size);
    }
  }

  lemma SelectionInOrder(outcomes: map<string, bool>, strategy: Strategy, size: nat, rng: Rng, failureWeight: real)
    requires OutcomeAware(strategy) && size <= |outcomes|
    ensures exists picks :: Select(outcomes, strategy, Some(size), rng, failureWeight) == Selected(Sort(picks, StringLe), false)
  {
    ListingInOrder(outcomes.Keys);
    if strategy == StratifiedByOutcome {
      StratifiedSelects(outcomes, size, rng, failureWeight);
    } else {
      var picks := Draws(outcomes, failureWeight, rng.at, Listing(outcomes.Keys), 0, size);
      assert Select(outcomes, strategy, Some(size), rng, failureWeight) == Selected(Sort(picks, StringLe), false);
    }
  }

  lemma SortedWhole(picks: seq<string>, pool: seq<string>)
    requires Distinct(pool) && Sorted(pool, StringLe) && IsSample(Sort(picks, StringLe), pool, |pool|)
    ensures Sort(picks, StringLe) == pool
  {
    StringLeIsOrder();
    SortSorts(picks, StringLe);
    WholeSample(Sort(picks, StringLe), pool, |pool|);
    SameElements(Sort(picks, StringLe), pool);
    SortedUnique(Sort(picks, StringLe), pool, StringLe);
  }

  /** Nothing or everything is selected, in order. */
  lemma ExtremeSelection(outcomes: map<string, bool>, strategy: Strategy, size: nat, rng: Rng, failureWeight: real)
    requires Fair(rng) && failureWeight >= 0.0 && OutcomeAware(strategy) && (size == 0 || size == |outcomes|)
    ensures Select(outcomes, strategy, Some(size), rng, failureWeight)
         == Selected(if size == 0 then [] else Listing(outcomes.Keys), false)
  {
    SelectionSize(outcomes, strategy, size, rng, failureWeight);
    SelectionInOrder(outcomes, strategy, size, rng, failureWeight);
    ListingInOrder(outcomes.Keys);
    var picks :| Select(outcomes, strategy, Some(size), rng, failureWeight) == Selected(Sort(picks, StringLe), false);
    if size == |outcomes| {
      SortedWhole(picks, Listing(outcomes.Keys));
    }
  }
}
