/** What a corpus build makes of the order of its input. The selection depends on it exactly under an
    outcome-aware strategy that has to choose, when no-think episodes of one task disagree. */
module InputOrder {
  import opened Models
  import opened Ordering
  import opened Sampling
  import opened OutcomeMatters
  import opened Corpus
  import opened Snapshot
  import SnapshotFacts
  import Splits
  import Merkle

  // ---- groups ------------------------------------------------------------------------------------

  ghost predicate SameGroups(g: Groups, h: Groups) {
    g.Keys == h.Keys && forall task :: task in g ==> multiset(g[task]) == multiset(h[task])
  }

  lemma GroupedIgnoresOrder(s: seq<Trajectory>, t: seq<Trajectory>)
    requires multiset(s) == multiset(t)
    ensures SameGroups(Grouped(s), Grouped(t))
  {
    MembersOfMultiset(s, t);
    assert TasksOf(s) == TasksOf(t);
    forall task | task in Grouped(s) ensures multiset(Grouped(s)[task]) == multiset(Grouped(t)[task]) {
      FilterIgnoresOrder(s, t, HasTask(task));
    }
  }

  lemma BothArmsIgnoresOrder(s: seq<Trajectory>, t: seq<Trajectory>)
    requires multiset(s) == multiset(t)
    ensures HasBothArms(s) <==> HasBothArms(t)
  {
    MembersOfMultiset(s, t);
  }

  lemma PairedIgnoresOrder(g: Groups, h: Groups)
    requires SameGroups(g, h)
    ensures SameGroups(Composed(Paired, g), Composed(Paired, h)) && Dropped(Paired, g) == Dropped(Paired, h)
  {
    forall task | task in g ensures HasBothArms(g[task]) <==> HasBothArms(h[task]) { BothArmsIgnoresOrder(g[task], h[task]); }
  }

  lemma NoThinkIgnoresOrder(g: Groups, h: Groups)
    requires SameGroups(g, h)
    ensures SameGroups(Composed(NoThinkOnly, g), Composed(NoThinkOnly, h))
  {
    forall task | task in g
      ensures multiset(Filter(g[task], HasMode(NoThink))) == multiset(Filter(h[task], HasMode(NoThink)))
      ensures Filter(g[task], HasMode(NoThink)) != [] <==> Filter(h[task], HasMode(NoThink)) != []
    {
      FilterIgnoresOrder(g[task], h[task], HasMode(NoThink));
      MembersOfMultiset(Filter(g[task], HasMode(NoThink)), Filter(h[task], HasMode(NoThink)));
    }
  }

  lemma ComposedIgnoresOrder(composition: Composition, g: Groups, h: Groups)
    requires SameGroups(g, h)
    ensures SameGroups(Composed(composition, g), Composed(composition, h)) && Dropped(composition, g) == Dropped(composition, h)
  {
    match composition
    case Paired => PairedIgnoresOrder(g, h);
    case NoThinkOnly => NoThinkIgnoresOrder(g, h);
    case OtherComposition(_) =>
  }

  lemma {:induction false} ChosenIgnoresOrder(selected: seq<string>, g: Groups, h: Groups)
    requires SameGroups(g, h)
    ensures multiset(Chosen(selected, g)) == multiset(Chosen(selected, h))
  {
    if selected != [] {
      ChosenIgnoresOrder(selected[1..], g, h);
    }
  }

  // ---- outcomes ----------------------------------------------------------------------------------

  /** No-think episodes of the group that disagree would leave the outcome to the list order. */
  ghost predicate NoThinkAgree(group: seq<Trajectory>) {
    forall t, u :: t in group && u in group && t.mode == NoThink && u.mode == NoThink ==> t.success == u.success
  }

  ghost predicate OutcomeIgnoresOrder(group: seq<Trajectory>) {
    forall other: seq<Trajectory> :: multiset(other) == multiset(group) ==> TaskOutcome(other) == TaskOutcome(group)
  }

  lemma AgreeingOutcome(group: seq<Trajectory>, other: seq<Trajectory>)
    requires multiset(other) == multiset(group) && NoThinkAgree(group)
    ensures TaskOutcome(other) == TaskOutcome(group)
  {
    MembersOfMultiset(other, group);
    FilterMembers(group, HasMode(NoThink));
    FilterMembers(other, HasMode(NoThink));
    FilterIgnoresOrder(other, group, HasMode(NoThink));
    MembersOfMultiset(Filter(other, HasMode(NoThink)), Filter(group, HasMode(NoThink)));
    var p, q := Filter(group, HasMode(NoThink)), Filter(other, HasMode(NoThink));
    if p != [] {
      assert p[0] in p && q[0] in q;
    }
  }

  /** What the outcome then means: the success of the no-think episodes or, without any, that some
      episode succeeded. */
  lemma OutcomeMeans(group: seq<Trajectory>)
    requires NoThinkAgree(group)
    ensures TaskOutcome(group) <==>
      if exists t :: t in group && t.mode == NoThink then (forall t :: t in group && t.mode == NoThink ==> t.success)
      else exists t :: t in group && t.success
  {
    FilterMembers(group, HasMode(NoThink));
    var noThink := Filter(group, HasMode(NoThink));
    if noThink != [] { assert noThink[0] in noThink; }
  }

  /** Moving an element to the front. */
  function ToFront(group: seq<Trajectory>, i: nat): seq<Trajectory>
    requires i < |group|
  {
    [group[i]] + (group[..i] + group[i + 1..])
  }

  lemma ToFrontRearranges(group: seq<Trajectory>, i: nat)
    requires i < |group|
    ensures multiset(ToFront(group, i)) == multiset(group)
  {
    WithoutOne(group, i);
  }

  lemma FrontDecides(group: seq<Trajectory>, i: nat)
    requires i < |group| && group[i].mode == NoThink
    ensures multiset(ToFront(group, i)) == multiset(group)
    ensures TaskOutcome(ToFront(group, i)) == group[i].success
  {
    ToFrontRearranges(group, i);
    assert group[i] in group;
    var front := ToFront(group, i);
    assert Filter(front, HasMode(NoThink)) == [group[i]] + Filter(front[1..], HasMode(NoThink));
  }

  /** The outcome of a task is a function of its episodes exactly when its no-think episodes agree. */
  lemma OutcomeIgnoresOrderIffNoThinkAgree(group: seq<Trajectory>)
    ensures OutcomeIgnoresOrder(group) <==> NoThinkAgree(group)
  {
    if NoThinkAgree(group) {
      forall other: seq<Trajectory> | multiset(other) == multiset(group) ensures TaskOutcome(other) == TaskOutcome(group) {
        AgreeingOutcome(group, other);
      }
    }
    if OutcomeIgnoresOrder(group) {
      forall t, u | t in group && u in group && t.mode == NoThink && u.mode == NoThink ensures t.success == u.success {
        var i :| 0 <= i < |group| && group[i] == t;
        var j :| 0 <= j < |group| && group[j] == u;
        FrontDecides(group, i);
        FrontDecides(group, j);
        assert TaskOutcome(ToFront(group, i)) == TaskOutcome(group) == TaskOutcome(ToFront(group, j));
      }
    }
  }

  // ---- the plan ------------------------------------------------------------------------------------

  /** The sampler has to choose among the tasks: some are to be selected and some are not. */
  predicate HasToChoose(req: Request, groups: Groups) {
    req.sampleSize.Some? && 0 < req.sampleSize.value < |groups|
  }

  ghost predicate AllAgree(groups: Groups) {
    forall task :: task in groups ==> NoThinkAgree(groups[task])
  }

  /** The order of the input does not reach the selection. */
  ghost predicate OrderFree(req: Request, groups: Groups) {
    OutcomeAware(req.strategy) && HasToChoose(req, groups) ==> AllAgree(groups)
  }

  /** The generator is asked to be fair only where that is all that keeps outcomes out of the selection. */
  ghost predicate OrderFreeFor(req: Request, groups: Groups, rng: Rng) {
    OrderFree(req, groups) && (!OutcomeAware(req.strategy) || AllAgree(groups) || Fair(rng))
  }

  lemma OutcomesIgnoreOrder(g: Groups, h: Groups)
    requires SameGroups(g, h) && AllAgree(g)
    ensures Outcomes(g) == Outcomes(h)
  {
    forall task | task in g ensures TaskOutcome(g[task]) == TaskOutcome(h[task]) { AgreeingOutcome(g[task], h[task]); }
  }

  lemma SelectionIgnoresOrder(req: Request, g: Groups, h: Groups, rng: Rng)
    requires SameGroups(g, h) && OrderFreeFor(req, g, rng)
    ensures SelectionOf(req, g, rng) == SelectionOf(req, h, rng)
  {
    assert Outcomes(g).Keys == g.Keys == Outcomes(h).Keys;
    if AllAgree(g) {
      OutcomesIgnoreOrder(g, h);
    } else {
      assert |Outcomes(g)| == |Outcomes(g).Keys| == |g.Keys| == |g|;
      OutcomesDoNotMatter(Outcomes(g), Outcomes(h), req.strategy, req.sampleSize, rng, FAILURE_WEIGHT);
    }
  }

  // ---- two orders, two selections --------------------------------------------------------------------

  /** An episode moved to the front stays out of lists it does not belong to and leads those it does. */
  lemma FilterToFront(ts: seq<Trajectory>, i: nat, p: Trajectory -> bool)
    requires i < |ts|
    ensures !p(ts[i]) ==> Filter(ToFront(ts, i), p) == Filter(ts, p)
    ensures p(ts[i]) ==> Filter(ToFront(ts, i), p) == [ts[i]] + Filter(ts[..i] + ts[i + 1..], p)
  {
    SplitAround(ts, i);
    FilterMoved(ts[..i], ts[i], ts[i + 1..], p);
  }

  lemma FilterMoved(before: seq<Trajectory>, t: Trajectory, after: seq<Trajectory>, p: Trajectory -> bool)
    ensures !p(t) ==> Filter([t] + (before + after), p) == Filter(before + ([t] + after), p)
    ensures p(t) ==> Filter([t] + (before + after), p) == [t] + Filter(before + after, p)
  {
    FilterAround(before, t, after, p);
    FilterSplits(before, after, p);
    FilterCons(t, before + after, p);
    FilterOne(t, p);
  }

  /** Filtering by eligibility and task at once. */
  function OnTask(req: Request, split: Splits.Split, task: string): Trajectory -> bool {
    (t: Trajectory) => IsEligible(req, split)(t) && t.task == task
  }

  /** The episodes of a task that the composition keeps. */
  function KeptGroup(composition: Composition, group: seq<Trajectory>): seq<Trajectory> {
    if composition == NoThinkOnly then Filter(group, HasMode(NoThink)) else group
  }

  lemma GroupIs(req: Request, split: Splits.Split, ts: seq<Trajectory>, task: string)
    requires task in GroupsOf(req, split, ts)
    ensures GroupsOf(req, split, ts)[task] == KeptGroup(req.composition, Filter(ts, OnTask(req, split, task)))
  {
    FilterTwice(ts, IsEligible(req, split), HasTask(task), OnTask(req, split, task));
  }

  lemma FrontLeadsItsGroup(req: Request, split: Splits.Split, ts: seq<Trajectory>, i: nat, task: string)
    requires i < |ts| && ts[i].mode == NoThink && IsEligible(req, split)(ts[i])
    requires task in GroupsOf(req, split, ToFront(ts, i)) && task in GroupsOf(req, split, ts)
    ensures task == ts[i].task ==> TaskOutcome(GroupsOf(req, split, ToFront(ts, i))[task]) == ts[i].success
    ensures task != ts[i].task ==> GroupsOf(req, split, ToFront(ts, i))[task] == GroupsOf(req, split, ts)[task]
  {
    FilterToFront(ts, i, OnTask(req, split, task));
    GroupIs(req, split, ToFront(ts, i), task);
    GroupIs(req, split, ts, task);
    if task == ts[i].task {
      FirstNoThinkDecides(req.composition, ts[i], Filter(ts[..i] + ts[i + 1..], OnTask(req, split, task)));
    }
  }

  lemma FirstNoThinkDecides(composition: Composition, t: Trajectory, rest: seq<Trajectory>)
    requires t.mode == NoThink
    ensures TaskOutcome(KeptGroup(composition, [t] + rest)) == t.success
  {
    FilterCons(t, rest, HasMode(NoThink));
    FilterCons(t, Filter(rest, HasMode(NoThink)), HasMode(NoThink));
  }

  /** The groups differ from those of the list at one task at most. */
  ghost predicate AgreeElsewhere(groups: Groups, g: Groups, task: string) {
    g.Keys == groups.Keys && task in g && forall other :: other in g && other != task ==> g[other] == groups[other]
  }

  lemma FrontGroups(req: Request, split: Splits.Split, ts: seq<Trajectory>, i: nat)
    requires i < |ts| && ts[i].mode == NoThink && IsEligible(req, split)(ts[i]) && ts[i].task in GroupsOf(req, split, ts)
    ensures AgreeElsewhere(GroupsOf(req, split, ts), GroupsOf(req, split, ToFront(ts, i)), ts[i].task)
    ensures TaskOutcome(GroupsOf(req, split, ToFront(ts, i))[ts[i].task]) == ts[i].success
  {
    ToFrontRearranges(ts, i);
    GroupsIgnoreOrder(req, split, ts, ToFront(ts, i));
    var groups, g := GroupsOf(req, split, ts), GroupsOf(req, split, ToFront(ts, i));
    forall task | task in g
      ensures task == ts[i].task ==> TaskOutcome(g[task]) == ts[i].success
      ensures task != ts[i].task ==> g[task] == groups[task]
    {
      FrontLeadsItsGroup(req, split, ts, i, task);
    }
  }

  lemma OutcomesFlip(groups: Groups, g: Groups, h: Groups, task: string)
    requires AgreeElsewhere(groups, g, task) && AgreeElsewhere(groups, h, task)
    requires !TaskOutcome(g[task]) && TaskOutcome(h[task])
    ensures Flips(Outcomes(g), Outcomes(h), task) && Outcomes(g).Keys == groups.Keys
  {
    forall other | other in g && other != task ensures Outcomes(g)[other] == Outcomes(h)[other] {
      assert g[other] == groups[other] == h[other];
    }
    FlipsAt(Outcomes(g), Outcomes(h), task);
  }

  lemma FlipsAt(failing: map<string, bool>, winning: map<string, bool>, task: string)
    requires failing.Keys == winning.Keys && task in failing && !failing[task] && winning[task]
    requires forall other :: other in failing && other != task ==> failing[other] == winning[other]
    ensures Flips(failing, winning, task)
  {
  }

  /** Moving one or the other of two disagreeing episodes to the front flips their task and no other. */
  lemma FrontsFlip(req: Request, split: Splits.Split, ts: seq<Trajectory>, i: nat, j: nat, g: Groups, h: Groups)
    requires i < |ts| && j < |ts| && ts[i].task == ts[j].task && ts[i].task in GroupsOf(req, split, ts)
    requires ts[i].mode == NoThink && ts[j].mode == NoThink && !ts[i].success && ts[j].success
    requires IsEligible(req, split)(ts[i]) && IsEligible(req, split)(ts[j])
    requires g == GroupsOf(req, split, ToFront(ts, i)) && h == GroupsOf(req, split, ToFront(ts, j))
    ensures Flips(Outcomes(g), Outcomes(h), ts[i].task) && |Outcomes(g)| == |GroupsOf(req, split, ts)|
  {
    FrontGroups(req, split, ts, i);
    FrontGroups(req, split, ts, j);
    OutcomesFlip(GroupsOf(req, split, ts), g, h, ts[i].task);
    SameKeysSameSize(Outcomes(g), GroupsOf(req, split, ts));
  }

  lemma SameKeysSameSize<K, V, W>(m: map<K, V>, n: map<K, W>)
    requires m.Keys == n.Keys
    ensures |m| == |n|
  {
    assert |m| == |m.Keys| && |n| == |n.Keys|;
  }

  /** Two orders of the input and one run of the generator that select differently. */
  lemma OrderShows(req: Request, split: Splits.Split, ts: seq<Trajectory>)
      returns (one: seq<Trajectory>, two: seq<Trajectory>, rng: Rng)
    requires !OrderFree(req, GroupsOf(req, split, ts))
    ensures multiset(one) == multiset(ts) == multiset(two) && Fair(rng)
    ensures SelectionOf(req, GroupsOf(req, split, one), rng) != SelectionOf(req, GroupsOf(req, split, two), rng)
  {
    var groups := GroupsOf(req, split, ts);
    var task :| task in groups && !NoThinkAgree(groups[task]);
    var i, j := Disagreeing(req, split, ts, task);
    one, two := ToFront(ts, i), ToFront(ts, j);
    ToFrontRearranges(ts, i);
    ToFrontRearranges(ts, j);
    FrontsFlip(req, split, ts, i, j, GroupsOf(req, split, one), GroupsOf(req, split, two));
    rng := OneOutcomeMatters(Outcomes(GroupsOf(req, split, one)), Outcomes(GroupsOf(req, split, two)), task, req.strategy,
                             req.sampleSize.value, FAILURE_WEIGHT);
  }

  lemma Disagreeing(req: Request, split: Splits.Split, ts: seq<Trajectory>, task: string) returns (i: nat, j: nat)
    requires task in GroupsOf(req, split, ts) && !NoThinkAgree(GroupsOf(req, split, ts)[task])
    ensures i < |ts| && j < |ts| && ts[i].task == task == ts[j].task && ts[i].mode == NoThink == ts[j].mode
    ensures !ts[i].success && ts[j].success && IsEligible(req, split)(ts[i]) && IsEligible(req, split)(ts[j])
  {
    var group := GroupsOf(req, split, ts)[task];
    var t :| t in group && t.mode == NoThink && !t.success;
    var u :| u in group && u.mode == NoThink && u.success;
    ComposedMembers(req.composition, Grouped(Eligible(req, split, ts)), task, t);
    ComposedMembers(req.composition, Grouped(Eligible(req, split, ts)), task, u);
    GroupMembers(req, split, ts, task, t);
    GroupMembers(req, split, ts, task, u);
    i :| 0 <= i < |ts| && ts[i] == t;
    j :| 0 <= j < |ts| && ts[j] == u;
  }

  ghost predicate SelectionIgnoresInputOrder(req: Request, split: Splits.Split, ts: seq<Trajectory>) {
    forall other: seq<Trajectory>, rng: Rng :: multiset(other) == multiset(ts) && Fair(rng) ==>
      SelectionOf(req, GroupsOf(req, split, other), rng) == SelectionOf(req, GroupsOf(req, split, ts), rng)
  }

  /** For every request: whatever the generator does, rearranging the input leaves the selection alone,
      if and only if the strategy looks at the tasks alone, or all or none of them are to be selected,
      or the no-think episodes of each task agree. */
  lemma SelectionIgnoresOrderIff(req: Request, split: Splits.Split, ts: seq<Trajectory>)
    ensures SelectionIgnoresInputOrder(req, split, ts) <==> OrderFree(req, GroupsOf(req, split, ts))
  {
    var groups := GroupsOf(req, split, ts);
    if OrderFree(req, groups) {
      forall other: seq<Trajectory>, rng: Rng | multiset(other) == multiset(ts) && Fair(rng)
        ensures SelectionOf(req, GroupsOf(req, split, other), rng) == SelectionOf(req, groups, rng)
      {
        GroupsIgnoreOrder(req, split, ts, other);
        SelectionIgnoresOrder(req, groups, GroupsOf(req, split, other), rng);
      }
    } else {
      var one, two, rng := OrderShows(req, split, ts);
      assert SelectionOf(req, GroupsOf(req, split, one), rng) != SelectionOf(req, groups, rng)
          || SelectionOf(req, GroupsOf(req, split, two), rng) != SelectionOf(req, groups, rng);
    }
  }

  ghost predicate SamePlan(p: Plan, q: Plan) {
    if p.Aborted? then p == q
    else q.Ready? && p.selected == q.selected && p.dropped == q.dropped && p.tooFew == q.tooFew && SameGroups(p.groups, q.groups)
  }

  lemma DecisionIgnoresOrder(req: Request, split: Splits.Split, g: Groups, h: Groups, dropped: set<string>,
                             selection: Selection)
    requires SameGroups(g, h)
    ensures SamePlan(Decide(req, split, g, dropped, selection), Decide(req, split, h, dropped, selection))
  {
    assert g == map[] <==> g.Keys == {};
    assert h == map[] <==> h.Keys == {};
  }

  lemma GroupsIgnoreOrder(req: Request, split: Splits.Split, trajectories: seq<Trajectory>, trajectories': seq<Trajectory>)
    requires multiset(trajectories) == multiset(trajectories')
    ensures SameGroups(GroupsOf(req, split, trajectories), GroupsOf(req, split, trajectories'))
    ensures Dropped(req.composition, Grouped(Eligible(req, split, trajectories)))
         == Dropped(req.composition, Grouped(Eligible(req, split, trajectories')))
  {
    FilterIgnoresOrder(trajectories, trajectories', IsEligible(req, split));
    GroupedIgnoresOrder(Eligible(req, split, trajectories), Eligible(req, split, trajectories'));
    ComposedIgnoresOrder(req.composition, Grouped(Eligible(req, split, trajectories)), Grouped(Eligible(req, split, trajectories')));
  }

  /** Rearranging the input changes neither the decision nor the episodes of any task. */
  lemma PlanIgnoresOrder(a: Splits.Addressing, req: Request, split: Splits.Split, trajectories: seq<Trajectory>,
                         trajectories': seq<Trajectory>, rng: Rng)
    requires multiset(trajectories) == multiset(trajectories')
    requires OrderFreeFor(req, GroupsOf(req, split, trajectories), rng)
    ensures SamePlan(PlanOf(a, req, split, trajectories, rng), PlanOf(a, req, split, trajectories', rng))
  {
    var g, h := GroupsOf(req, split, trajectories), GroupsOf(req, split, trajectories');
    GroupsIgnoreOrder(req, split, trajectories, trajectories');
    SelectionIgnoresOrder(req, g, h, rng);
    DecisionIgnoresOrder(req, split, g, h, Dropped(req.composition, Grouped(Eligible(req, split, trajectories))),
                         SelectionOf(req, g, rng));
  }

  lemma GroupedTasksAreTrain(req: Request, split: Splits.Split, ts: seq<Trajectory>, task: string)
    requires task in GroupsOf(req, split, ts)
    ensures task in split.train
  {
    assert task in TasksOf(Eligible(req, split, ts));
    var t :| t in Eligible(req, split, ts) && t.task == task;
    FilterMembers(ts, IsEligible(req, split));
  }

  lemma ChoiceIsFromGroups(req: Request, groups: Groups, rng: Rng)
    requires Fair(rng) && OutcomeAware(req.strategy) && HasToChoose(req, groups)
    ensures SelectionOf(req, groups, rng).Selected?
    ensures forall t :: t in SelectionOf(req, groups, rng).tasks ==> t in groups
  {
    SameKeysSameSize(Outcomes(groups), groups);
    SelectionSize(Outcomes(groups), req.strategy, req.sampleSize.value, rng, FAILURE_WEIGHT);
    SelectedTasksExist(Outcomes(groups), req.strategy, req.sampleSize, rng, FAILURE_WEIGHT);
  }

  lemma CleanChoiceIsReady(req: Request, split: Splits.Split, groups: Groups, dropped: set<string>, selection: Selection)
    requires groups != map[] && !req.composition.OtherComposition?
    requires selection.Selected? && forall t :: t in selection.tasks ==> t !in split.test
    ensures var plan := Decide(req, split, groups, dropped, selection);
      plan.Ready? && selection == Selected(plan.selected, plan.tooFew)
  {
    assert Leaked(selection.tasks, split.test) == {};
  }

  lemma ChoiceMeansGroups(req: Request, split: Splits.Split, ts: seq<Trajectory>)
    requires HasToChoose(req, GroupsOf(req, split, ts))
    ensures GroupsOf(req, split, ts) != map[] && !req.composition.OtherComposition?
  {
  }

  /** Where the sampler has to choose, a verified split with disjoint halves lets its choice through. */
  lemma ChoiceIsPlanned(a: Splits.Addressing, req: Request, split: Splits.Split, ts: seq<Trajectory>, rng: Rng)
    requires Splits.Verifies(a, split) && Fair(rng) && forall t :: t in split.train ==> t !in split.test
    requires OutcomeAware(req.strategy) && HasToChoose(req, GroupsOf(req, split, ts))
    ensures var plan := PlanOf(a, req, split, ts, rng);
      plan.Ready? && SelectionOf(req, GroupsOf(req, split, ts), rng) == Selected(plan.selected, plan.tooFew)
  {
    var groups := GroupsOf(req, split, ts);
    ChoiceMeansGroups(req, split, ts);
    ChoiceIsFromGroups(req, groups, rng);
    forall t | t in SelectionOf(req, groups, rng).tasks ensures t !in split.test {
      GroupedTasksAreTrain(req, split, ts, t);
    }
    CleanChoiceIsReady(req, split, groups, Dropped(req.composition, Grouped(Eligible(req, split, ts))), SelectionOf(req, groups, rng));
  }

  lemma PlansDiffer(p: Plan, q: Plan, r: Plan)
    requires q.Ready? && r.Ready? && Selected(q.selected, q.tooFew) != Selected(r.selected, r.tooFew)
    ensures !(SamePlan(p, q) && SamePlan(p, r))
  {
  }

  lemma OrderShowsInPlan(a: Splits.Addressing, req: Request, split: Splits.Split, ts: seq<Trajectory>)
    requires Splits.Verifies(a, split) && forall t :: t in split.train ==> t !in split.test
    requires !OrderFree(req, GroupsOf(req, split, ts))
    ensures !PlanIgnoresInputOrder(a, req, split, ts)
  {
    var one, two, rng := OrderShows(req, split, ts);
    ChoiceStands(req, split, ts, one);
    ChoiceStands(req, split, ts, two);
    ChoiceIsPlanned(a, req, split, one, rng);
    ChoiceIsPlanned(a, req, split, two, rng);
    PlansDiffer(PlanOf(a, req, split, ts, rng), PlanOf(a, req, split, one, rng), PlanOf(a, req, split, two, rng));
  }

  lemma ChoiceStands(req: Request, split: Splits.Split, ts: seq<Trajectory>, other: seq<Trajectory>)
    requires multiset(other) == multiset(ts) && HasToChoose(req, GroupsOf(req, split, ts))
    ensures HasToChoose(req, GroupsOf(req, split, other))
  {
    GroupsIgnoreOrder(req, split, ts, other);
    SameKeysSameSize(GroupsOf(req, split, ts), GroupsOf(req, split, other));
  }

  ghost predicate PlanIgnoresInputOrder(a: Splits.Addressing, req: Request, split: Splits.Split, ts: seq<Trajectory>) {
    forall other: seq<Trajectory>, rng: Rng :: multiset(other) == multiset(ts) && Fair(rng) ==>
      SamePlan(PlanOf(a, req, split, ts, rng), PlanOf(a, req, split, other, rng))
  }

  /** The same for whole plans, on splits whose halves are disjoint: a split that does not verify stops
      every order alike, and otherwise the condition is the sampler's. */
  lemma PlanIgnoresOrderIff(a: Splits.Addressing, req: Request, split: Splits.Split, ts: seq<Trajectory>)
    requires forall t :: t in split.train ==> t !in split.test
    ensures PlanIgnoresInputOrder(a, req, split, ts)
       <==> (Splits.Verifies(a, split) ==> OrderFree(req, GroupsOf(req, split, ts)))
  {
    if Splits.Verifies(a, split) && !OrderFree(req, GroupsOf(req, split, ts)) {
      OrderShowsInPlan(a, req, split, ts);
    } else if Splits.Verifies(a, split) {
      forall other: seq<Trajectory>, rng: Rng | multiset(other) == multiset(ts) && Fair(rng)
        ensures SamePlan(PlanOf(a, req, split, ts, rng), PlanOf(a, req, split, other, rng))
      {
        PlanIgnoresOrder(a, req, split, ts, other, rng);
      }
    }
  }

  // ---- the root --------------------------------------------------------------------------------------

  /** The pass rates account for every chosen episode, and no mode has more successes than episodes. */
  lemma RatesCoverEpisodes(chosen: seq<Trajectory>)
    ensures RateOf(chosen, NoThink).episodes + RateOf(chosen, Think).episodes == |chosen|
    ensures forall mode :: RateOf(chosen, mode).successes <= RateOf(chosen, mode).episodes
    ensures forall mode :: mode in RatesOf(chosen) <==> exists t :: t in chosen && t.mode == mode
  {
    FilterPartitions(chosen, HasMode(NoThink), HasMode(Think));
    assert |multiset(Filter(chosen, HasMode(NoThink))) + multiset(Filter(chosen, HasMode(Think)))| == |multiset(chosen)|;
    forall mode: Mode ensures RateOf(chosen, mode).successes <= RateOf(chosen, mode).episodes { WinsWithin(chosen, mode); }
    forall mode: Mode ensures mode in RatesOf(chosen) <==> exists t :: t in chosen && t.mode == mode {
      FilterMembers(chosen, HasMode(mode));
      if Filter(chosen, HasMode(mode)) != [] { assert Filter(chosen, HasMode(mode))[0] in Filter(chosen, HasMode(mode)); }
    }
  }

  lemma {:induction false} WinsWithin(chosen: seq<Trajectory>, mode: Mode)
    ensures |Filter(chosen, Wins(mode))| <= |Filter(chosen, HasMode(mode))|
  {
    if chosen != [] { WinsWithin(chosen[1..], mode); }
  }

  lemma RatesIgnoreOrder(chosen: seq<Trajectory>, chosen': seq<Trajectory>)
    requires multiset(chosen) == multiset(chosen')
    ensures RatesOf(chosen) == RatesOf(chosen')
  {
    forall mode: Mode ensures RateOf(chosen, mode) == RateOf(chosen', mode) {
      CountIgnoresOrder(chosen, chosen', Wins(mode));
      CountIgnoresOrder(chosen, chosen', HasMode(mode));
    }
  }

  lemma RootIgnoresOrder(r: Rendering, visibility: Visibility, chosen: seq<Trajectory>, chosen': seq<Trajectory>)
    requires multiset(chosen) == multiset(chosen')
    ensures RootOf(r, visibility, chosen) == RootOf(r, visibility, chosen')
  {
    SnapshotFacts.WriteOrderRearranges(chosen);
    SnapshotFacts.WriteOrderRearranges(chosen');
    ApplyIgnoresOrder(WriteOrder(chosen), WriteOrder(chosen'), HashOf(r, visibility));
    RatesIgnoreOrder(chosen, chosen');
    var rates := [r.sha(r.rates(RatesOf(chosen)))];
    Merkle.RootIgnoresOrder(r.sha, Hashes(r, visibility, WriteOrder(chosen)) + rates, Hashes(r, visibility, WriteOrder(chosen')) + rates);
  }

  /** Two builds of the same episodes in different orders fail alike or get the same root. */
  lemma BuildsAgree(a: Splits.Addressing, r: Rendering, req: Request, split: Splits.Split, trajectories: seq<Trajectory>,
                    trajectories': seq<Trajectory>, rng: Rng, p: Plan, q: Plan)
    requires multiset(trajectories) == multiset(trajectories')
    requires OrderFreeFor(req, GroupsOf(req, split, trajectories), rng)
    requires p == PlanOf(a, req, split, trajectories, rng) && q == PlanOf(a, req, split, trajectories', rng)
    ensures if p.Aborted? then p == q
      else q.Ready? && p.selected == q.selected && p.dropped == q.dropped
           && FinalManifest(r, req, split, p).root == FinalManifest(r, req, split, q).root
  {
    PlanIgnoresOrder(a, req, split, trajectories, trajectories', rng);
    if p.Ready? {
      ChosenIgnoresOrder(p.selected, p.groups, q.groups);
      RootIgnoresOrder(r, req.visibility, Chosen(p.selected, p.groups), Chosen(q.selected, q.groups));
    }
  }
}
