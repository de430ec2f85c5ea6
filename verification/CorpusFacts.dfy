/** A corpus build in plain terms: who is in a group, when a task succeeds, when a plan fails, what the
    pass rates and the manifest say, and when a build fails. */
module CorpusFacts {
  import opened Corpus
  import opened Models
  import opened Ordering
  import opened Sampling
  import opened Snapshot
  import opened Wrappers
  import Splits
  import SnapshotFacts

  // ---- groups ---------------------------------------------------------------------------------------

  /** The episodes a request is about, by domain, model, task and, for a no-think corpus, mode. */
  predicate Counts(req: Request, split: Splits.Split, t: Trajectory) {
    && t.domain == req.domain && t.model == req.model && t.task in split.train
    && (req.composition == NoThinkOnly ==> t.mode == NoThink)
  }

  function CountsOn(req: Request, split: Splits.Split, task: string): Trajectory -> bool {
    (t: Trajectory) => Counts(req, split, t) && t.task == task
  }

  lemma GroupIsFilter(req: Request, split: Splits.Split, ts: seq<Trajectory>, task: string)
    requires task in GroupsOf(req, split, ts)
    ensures GroupsOf(req, split, ts)[task] == Filter(ts, CountsOn(req, split, task))
  {
    var onTask := (t: Trajectory) => IsEligible(req, split)(t) && t.task == task;
    FilterTwice(ts, IsEligible(req, split), HasTask(task), onTask);
    if req.composition == NoThinkOnly {
      FilterTwice(ts, onTask, HasMode(NoThink), CountsOn(req, split, task));
    } else {
      SameFilter(ts, onTask, CountsOn(req, split, task));
    }
  }

  lemma {:induction false} SameFilter<T>(s: seq<T>, p: T -> bool, q: T -> bool)
    requires forall x :: p(x) <==> q(x)
    ensures Filter(s, p) == Filter(s, q)
  {
    if s != [] { SameFilter(s[1..], p, q); }
  }

  /** A group holds the episodes of its task that count, each once and in the order of the input. */
  lemma GroupReadsOffInput(req: Request, split: Splits.Split, ts: seq<Trajectory>, task: string) returns (at: seq<nat>)
    requires task in GroupsOf(req, split, ts)
    ensures ReadsOff(GroupsOf(req, split, ts)[task], ts, at)
    ensures forall i: nat :: i in at <==> i < |ts| && Counts(req, split, ts[i]) && ts[i].task == task
  {
    GroupIsFilter(req, split, ts, task);
    at := FilterPositions(ts, CountsOn(req, split, task));
  }

  /** Some episode of the task counts, in that mode. */
  ghost predicate HasEpisode(req: Request, split: Splits.Split, ts: seq<Trajectory>, task: string, mode: Mode) {
    exists t :: t in ts && t.domain == req.domain && t.model == req.model && t.task in split.train && t.task == task && t.mode == mode
  }

  /** A no-think corpus keeps the tasks with a no-think episode, a paired one those with both, and
      nothing else keeps any. */
  lemma TaskIsKeptIff(req: Request, split: Splits.Split, ts: seq<Trajectory>, task: string)
    ensures task in GroupsOf(req, split, ts) <==>
      match req.composition
      case Paired => HasEpisode(req, split, ts, task, Think) && HasEpisode(req, split, ts, task, NoThink)
      case NoThinkOnly => HasEpisode(req, split, ts, task, NoThink)
      case OtherComposition(_) => false
  {
    var grouped := Grouped(Eligible(req, split, ts));
    if task in grouped {
      forall t ensures t in grouped[task] <==> t in ts && IsEligible(req, split)(t) && t.task == task {
        GroupMembers(req, split, ts, task, t);
      }
      FilterMembers(grouped[task], HasMode(NoThink));
      var noThink := Filter(grouped[task], HasMode(NoThink));
      if noThink != [] { assert noThink[0] in noThink; }
      if t: Trajectory :| t in grouped[task] && t.mode == NoThink { assert t in noThink; }
    } else {
      FilterMembers(ts, IsEligible(req, split));
      forall t | t in ts && IsEligible(req, split)(t) ensures t.task != task { assert t in Eligible(req, split, ts); }
    }
  }

  // ---- outcomes -------------------------------------------------------------------------------------

  /** The i-th episode is the first no-think one. */
  ghost predicate IsFirstNoThink(group: seq<Trajectory>, i: nat) {
    i < |group| && group[i].mode == NoThink && forall j :: 0 <= j < i ==> group[j].mode == Think
  }

  ghost predicate AllThink(group: seq<Trajectory>) {
    forall j :: 0 <= j < |group| ==> group[j].mode == Think
  }

  /** The first no-think episode decides for its task, and without any a single success is enough. */
  lemma FirstNoThinkSucceeds(group: seq<Trajectory>, i: nat)
    ensures IsFirstNoThink(group, i) ==> TaskOutcome(group) == group[i].success
    ensures AllThink(group) ==> (TaskOutcome(group) <==> exists j :: 0 <= j < |group| && group[j].success)
  {
    if IsFirstNoThink(group, i) { FirstNoThinkIsFirst(group, i); }
    if AllThink(group) {
      NoneInFront(group);
      if t :| t in group && t.success { var j :| 0 <= j < |group| && group[j] == t; }
    }
  }

  lemma FirstNoThinkIsFirst(group: seq<Trajectory>, i: nat)
    requires IsFirstNoThink(group, i)
    ensures Filter(group, HasMode(NoThink)) != [] && Filter(group, HasMode(NoThink))[0] == group[i]
  {
    assert group == group[..i] + ([group[i]] + group[i + 1..]);
    FilterSplits(group[..i], [group[i]] + group[i + 1..], HasMode(NoThink));
    FilterCons(group[i], group[i + 1..], HasMode(NoThink));
    NoneInFront(group[..i]);
  }

  lemma NoneInFront(group: seq<Trajectory>)
    requires AllThink(group)
    ensures Filter(group, HasMode(NoThink)) == []
  {
    FilterNone(group, HasMode(NoThink));
  }

  // ---- the plan ---------------------------------------------------------------------------------------

  /** Every way a plan can fail, in the order they are looked at, and what a ready plan holds. */
  lemma PlanCases(a: Splits.Addressing, req: Request, split: Splits.Split, ts: seq<Trajectory>, rng: Rng, p: Plan, s: Selection)
    requires p == PlanOf(a, req, split, ts, rng) && s == SelectionOf(req, GroupsOf(req, split, ts), rng)
    ensures p == Aborted(SplitMismatch) <==> !Splits.Verifies(a, split)
    ensures Splits.Verifies(a, split) && req.composition.OtherComposition? ==> p == Aborted(UnknownComposition(req.composition.name))
    ensures Splits.Verifies(a, split) && !req.composition.OtherComposition? ==>
      if forall task :: task !in GroupsOf(req, split, ts) then p == Aborted(if req.composition == Paired then NoPairs else NoEligible)
      else if s.Refused? then p == Aborted(SamplingFailed(s.failure))
      else if exists t :: t in s.tasks && t in split.test then p == Aborted(Contaminated(set t | t in s.tasks && t in split.test))
      else p.Ready? && p.selected == s.tasks && p.groups == GroupsOf(req, split, ts) && p.tooFew == s.tooFew
  {
    EmptyGroups(GroupsOf(req, split, ts));
    if s.Selected? { LeakedMeans(s.tasks, split.test); }
  }

  lemma EmptyGroups(groups: Groups)
    ensures groups == map[] <==> forall task :: task !in groups
  {
    if groups != map[] { var task :| task in groups; }
  }

  lemma LeakedMeans(tasks: seq<string>, test: seq<string>)
    ensures Leaked(tasks, test) == set t | t in tasks && t in test
    ensures Leaked(tasks, test) != {} <==> exists t :: t in tasks && t in test
  {
    if t :| t in tasks && t in test { assert t in Leaked(tasks, test); }
  }

  // ---- pass rates -------------------------------------------------------------------------------------

  /** Episodes and successes of a mode, counted in the chosen episodes. */
  lemma RateCounts(chosen: seq<Trajectory>, mode: Mode)
    ensures RateOf(chosen, mode).episodes == |set i: nat | i < |chosen| && chosen[i].mode == mode|
    ensures RateOf(chosen, mode).successes == |set i: nat | i < |chosen| && chosen[i].mode == mode && chosen[i].success|
    ensures RateOf(chosen, mode).episodes - RateOf(chosen, mode).successes
         == |set i: nat | i < |chosen| && chosen[i].mode == mode && !chosen[i].success|
    ensures mode in RatesOf(chosen) <==> exists t :: t in chosen && t.mode == mode
    ensures mode in RatesOf(chosen) ==> RatesOf(chosen)[mode] == RateOf(chosen, mode)
  {
    var all := set i: nat | i < |chosen| && chosen[i].mode == mode;
    var won := set i: nat | i < |chosen| && chosen[i].mode == mode && chosen[i].success;
    var lost := set i: nat | i < |chosen| && chosen[i].mode == mode && !chosen[i].success;
    FilterCounts(chosen, HasMode(mode), all);
    FilterCounts(chosen, Wins(mode), won);
    TwoParts(all, won, lost);
    ModeOccurs(chosen, mode);
  }

  lemma TwoParts(all: set<nat>, won: set<nat>, lost: set<nat>)
    requires forall i :: i in all <==> i in won || i in lost
    requires won !! lost
    ensures |all| == |won| + |lost|
  {
    assert all == won + lost;
  }

  lemma ModeOccurs(chosen: seq<Trajectory>, mode: Mode)
    ensures RateOf(chosen, mode).episodes > 0 <==> exists t :: t in chosen && t.mode == mode
  {
    FilterMembers(chosen, HasMode(mode));
    if Filter(chosen, HasMode(mode)) != [] { assert Filter(chosen, HasMode(mode))[0] in Filter(chosen, HasMode(mode)); }
  }

  /** What the pass-rate file of a finished build says about a mode that occurs. */
  lemma BuiltRates(r: Rendering, req: Request, split: Splits.Split, plan: Plan, precomputed: Option<map<string, string>>,
                   destination: string, before: map<string, Files>, out: Outcome, after: map<string, Files>,
                   chosen: seq<Trajectory>, mode: Mode)
    requires (out, after) == Finished(r, req, split, plan, precomputed, before, destination) && out.Built?
    requires plan.Ready? && chosen == Chosen(plan.selected, plan.groups)
    ensures destination in after && PassRatesFile in after[destination]
    ensures exists rates: map<Mode, Rate> ::
      && after[destination][PassRatesFile] == r.rates(rates)
      && (mode in rates <==> exists t :: t in chosen && t.mode == mode)
      && (mode in rates ==>
            && rates[mode].episodes == |set i: nat | i < |chosen| && chosen[i].mode == mode|
            && rates[mode].successes == |set i: nat | i < |chosen| && chosen[i].mode == mode && chosen[i].success|)
  {
    SnapshotFacts.FinishedFacts(r, req, split, plan, precomputed, destination, before, out, after);
    SnapshotFacts.MaterializedFacts(r, req.visibility, chosen, precomputed, out.manifest);
    RateCounts(chosen, mode);
    assert after[destination][PassRatesFile] == r.rates(RatesOf(chosen));
  }

  // ---- what is chosen -----------------------------------------------------------------------------------

  /** The positions of the episodes that count, on tasks of the set, and satisfy q. */
  ghost function Positions(req: Request, split: Splits.Split, ts: seq<Trajectory>, tasks: set<string>, q: Trajectory -> bool): set<nat> {
    set i: nat | i < |ts| && Counts(req, split, ts[i]) && ts[i].task in tasks && q(ts[i])
  }

  lemma CountsOfTask(req: Request, split: Splits.Split, ts: seq<Trajectory>, task: string, q: Trajectory -> bool)
    requires task in GroupsOf(req, split, ts)
    ensures |Filter(GroupsOf(req, split, ts)[task], q)| == |Positions(req, split, ts, {task}, q)|
  {
    var both := (t: Trajectory) => CountsOn(req, split, task)(t) && q(t);
    GroupIsFilter(req, split, ts, task);
    FilterTwice(ts, CountsOn(req, split, task), q, both);
    FilterCounts(ts, both, Positions(req, split, ts, {task}, q));
  }

  /** Of the chosen episodes as many satisfy a condition as of those in the input that count and are on
      a selected task: all of them are taken, and each once. */
  lemma {:induction false} ChosenCounts(req: Request, split: Splits.Split, ts: seq<Trajectory>, selected: seq<string>, q: Trajectory -> bool)
    requires Distinct(selected) && forall task :: task in selected ==> task in GroupsOf(req, split, ts)
    ensures |Filter(Chosen(selected, GroupsOf(req, split, ts)), q)|
         == |set i: nat | i < |ts| && Counts(req, split, ts[i]) && ts[i].task in selected && q(ts[i])|
  {
    var groups := GroupsOf(req, split, ts);
    var all := set i: nat | i < |ts| && Counts(req, split, ts[i]) && ts[i].task in selected && q(ts[i]);
    if selected == [] {
      assert all == {};
    } else {
      var first, rest := selected[0], selected[1..];
      assert selected == [first] + rest;
      DistinctCons(first, rest);
      ChosenCounts(req, split, ts, rest, q);
      CountsOfTask(req, split, ts, first, q);
      FilterSplits(groups[first], Chosen(rest, groups), q);
      var later := set i: nat | i < |ts| && Counts(req, split, ts[i]) && ts[i].task in rest && q(ts[i]);
      TwoParts(all, Positions(req, split, ts, {first}, q), later);
    }
  }

  // ---- the manifest and the finished build -----------------------------------------------------------------

  lemma ManifestSays(r: Rendering, req: Request, split: Splits.Split, plan: Plan)
    requires plan.Ready?
    ensures var m := FinalManifest(r, req, split, plan);
      && m.request == req && m.splitSha256 == split.sha256 && m.dropped == plan.dropped && m.tooFew == plan.tooFew
      && m.tasks == |plan.selected| && m.trajectories == |Chosen(plan.selected, plan.groups)|
      && (m.allSucceeded <==> forall task :: task in plan.selected && task in plan.groups ==> TaskOutcome(plan.groups[task]))
      && m.root == RootOf(r, req.visibility, Chosen(plan.selected, plan.groups))
  {
  }

  /** A build fails for the plan's reason, for an unknown visibility or for a destination that is taken,
      in this order, and not otherwise. */
  lemma BuildCases(r: Rendering, req: Request, split: Splits.Split, plan: Plan, precomputed: Option<map<string, string>>,
                   before: map<string, Files>, destination: string, out: Outcome)
    requires out == Finished(r, req, split, plan, precomputed, before, destination).0
    ensures plan.Aborted? ==> out == Failed(plan.error)
    ensures plan.Ready? && req.visibility != ModeLevel && req.visibility != PerTask ==>
      req.visibility.OtherVisibility? && out == Failed(UnknownVisibility(req.visibility.name))
    ensures plan.Ready? && (req.visibility == ModeLevel || req.visibility == PerTask) ==>
      if destination in before then out == Failed(DestinationExists)
      else out == Built(FinalManifest(r, req, split, plan))
  {
  }

  /** Where the serialiser tells two episodes apart, their bytes differ exactly when something the
      distiller may see differs: reward and success only under per-task visibility. */
  lemma BytesShow(r: Rendering, visibility: Visibility, t: Trajectory, u: Trajectory)
    requires r.episode(Visible(t, visibility)) == r.episode(Visible(u, visibility)) ==> Visible(t, visibility) == Visible(u, visibility)
    ensures Bytes(r, visibility, t) == Bytes(r, visibility, u) <==>
      && t.id == u.id && t.domain == u.domain && t.model == u.model && t.task == u.task && t.mode == u.mode && t.rest == u.rest
      && (visibility != ModeLevel ==> t.reward == u.reward && t.success == u.success)
  {
  }

  /** A precomputed report is written as it was handed in. */
  lemma PrecomputedIsWritten(r: Rendering, visibility: Visibility, chosen: seq<Trajectory>, reports: map<string, string>,
                             manifest: Manifest, name: string)
    requires name in reports
    ensures var files := Materialized(r, visibility, chosen, Some(reports), manifest);
      PrecomputedFile(name) in files && files[PrecomputedFile(name)] == reports[name]
  {
  }
}
