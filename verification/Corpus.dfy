/** Planning a corpus: eligibility, composition, sampling and the contamination check, all of it
    before a byte is written. */
module Corpus {
  import opened Models
  import opened Ordering
  import opened Sampling
  import opened Wrappers
  import Splits

  datatype Trajectory = Trajectory(id: string, domain: string, model: string, task: string, mode: Mode,
                                   reward: real, success: bool, rest: string)

  datatype Composition = Paired | NoThinkOnly | OtherComposition(name: string)

  datatype Visibility = ModeLevel | PerTask | OtherVisibility(name: string)

  datatype Request = Request(domain: string, model: string, composition: Composition, strategy: Strategy,
                             sampleSize: Option<int>, visibility: Visibility)

  datatype Error =
    | SplitMismatch
    | NoPairs
    | UnknownComposition(name: string)
    | NoEligible
    | SamplingFailed(failure: Failure)
    | Contaminated(tasks: set<string>)
    | UnknownVisibility(name: string)
    | DestinationExists

  type Groups = map<string, seq<Trajectory>>

  // ---- eligibility and composition ----------------------------------------------------------

  function IsEligible(req: Request, split: Splits.Split): Trajectory -> bool {
    (t: Trajectory) => t.domain == req.domain && t.model == req.model && t.task in split.train
  }

  function Eligible(req: Request, split: Splits.Split, trajectories: seq<Trajectory>): seq<Trajectory> {
    Filter(trajectories, IsEligible(req, split))
  }

  function HasTask(task: string): Trajectory -> bool { (t: Trajectory) => t.task == task }

  function HasMode(mode: Mode): Trajectory -> bool { (t: Trajectory) => t.mode == mode }

  function TasksOf(trajectories: seq<Trajectory>): set<string> {
    set t | t in trajectories :: t.task
  }

  /** The trajectories of each task, in list order. */
  function Grouped(trajectories: seq<Trajectory>): Groups {
    map task | task in TasksOf(trajectories) :: Filter(trajectories, HasTask(task))
  }

  method GroupByTask(trajectories: seq<Trajectory>) returns (groups: Groups)
    ensures groups == Grouped(trajectories)
  {
    groups := map[];
    var i := 0;
    while i < |trajectories|
      invariant 0 <= i <= |trajectories|
      invariant groups == Grouped(trajectories[..i])
    {
      var t := trajectories[i];
      GroupOneMore(trajectories[..i], t);
      assert trajectories[..i + 1] == trajectories[..i] + [t];
      groups := groups[t.task := (if t.task in groups then groups[t.task] else []) + [t]];
      i := i + 1;
    }
    assert trajectories[..|trajectories|] == trajectories;
  }

  lemma TasksOfOneMore(front: seq<Trajectory>, t: Trajectory)
    ensures TasksOf(front + [t]) == TasksOf(front) + {t.task}
  {
    forall task ensures task in TasksOf(front + [t]) <==> task in TasksOf(front) || task == t.task {
      assert (front + [t])[|front|] == t;
      if task in TasksOf(front) {
        var u :| u in front && u.task == task;
        assert u in front + [t];
      }
    }
  }

  lemma GroupGrows(front: seq<Trajectory>, t: Trajectory, task: string)
    ensures Filter(front + [t], HasTask(task)) == Filter(front, HasTask(task)) + (if task == t.task then [t] else [])
    ensures task !in TasksOf(front) ==> Filter(front, HasTask(task)) == []
  {
    FilterSnoc(front, t, HasTask(task));
    if task !in TasksOf(front) { NoneOfTask(front, task); }
  }

  lemma {:induction false} NoneOfTask(trajectories: seq<Trajectory>, task: string)
    requires task !in TasksOf(trajectories)
    ensures Filter(trajectories, HasTask(task)) == []
  {
    if trajectories != [] {
      assert trajectories == [trajectories[0]] + trajectories[1..];
      assert trajectories[0].task in TasksOf(trajectories);
      assert TasksOf(trajectories[1..]) <= TasksOf(trajectories);
      NoneOfTask(trajectories[1..], task);
    }
  }

  lemma GroupOneMore(front: seq<Trajectory>, t: Trajectory)
    ensures var groups := Grouped(front);
      Grouped(front + [t]) == groups[t.task := (if t.task in groups then groups[t.task] else []) + [t]]
  {
    var groups, more := Grouped(front), Grouped(front + [t]);
    var expected := groups[t.task := (if t.task in groups then groups[t.task] else []) + [t]];
    TasksOfOneMore(front, t);
    assert more.Keys == TasksOf(front + [t]) && groups.Keys == TasksOf(front);
    forall task | task in more ensures more[task] == expected[task] { GroupOfOneMore(front, t, task); }
  }

  lemma GroupOfOneMore(front: seq<Trajectory>, t: Trajectory, task: string)
    requires task in Grouped(front + [t])
    ensures task == t.task || task in Grouped(front)
    ensures Grouped(front + [t])[task]
         == (if task in Grouped(front) then Grouped(front)[task] else []) + (if task == t.task then [t] else [])
  {
    TasksOfOneMore(front, t);
    GroupGrows(front, t, task);
  }

  predicate HasBothArms(group: seq<Trajectory>) {
    (exists t :: t in group && t.mode == Think) && (exists t :: t in group && t.mode == NoThink)
  }

  /** What the composition keeps of each task's group. */
  function Composed(composition: Composition, groups: Groups): Groups {
    match composition
    case Paired => map task | task in groups && HasBothArms(groups[task]) :: groups[task]
    case NoThinkOnly =>
      map task | task in groups && Filter(groups[task], HasMode(NoThink)) != [] :: Filter(groups[task], HasMode(NoThink))
    case OtherComposition(_) => map[]
  }

  /** Tasks a paired corpus has to do without. */
  function Dropped(composition: Composition, groups: Groups): set<string> {
    if composition == Paired then set task | task in groups && !HasBothArms(groups[task]) else {}
  }

  // ---- outcomes and sampling ------------------------------------------------------------------

  /** The first no-think trajectory decides; without one, any success will do. */
  function TaskOutcome(group: seq<Trajectory>): bool {
    var noThink := Filter(group, HasMode(NoThink));
    if noThink != [] then noThink[0].success else exists t :: t in group && t.success
  }

  function Outcomes(groups: Groups): map<string, bool> {
    map task | task in groups :: TaskOutcome(groups[task])
  }

  const FAILURE_WEIGHT: real := 2.0

  // ---- the plan: everything decided before a byte is written -------------------------------------

  datatype Plan =
    | Aborted(error: Error)
    | Ready(selected: seq<string>, groups: Groups, dropped: set<string>, tooFew: bool)

  /** What the sampler was asked for. */
  function SelectionOf(req: Request, groups: Groups, rng: Rng): Selection {
    Select(Outcomes(groups), req.strategy, req.sampleSize, rng, FAILURE_WEIGHT)
  }

  function GroupsOf(req: Request, split: Splits.Split, trajectories: seq<Trajectory>): Groups {
    Composed(req.composition, Grouped(Eligible(req, split, trajectories)))
  }

  /** Selected tasks that belong to the test half. */
  function Leaked(selected: seq<string>, test: seq<string>): set<string> {
    set t | t in selected && t in test
  }

  /** What follows from the composed groups and the sampler's answer. */
  function Decide(req: Request, split: Splits.Split, groups: Groups, dropped: set<string>, selection: Selection): Plan {
    if req.composition == Paired && groups == map[] then Aborted(NoPairs)
    else if req.composition.OtherComposition? then Aborted(UnknownComposition(req.composition.name))
    else if groups == map[] then Aborted(NoEligible)
    else if selection.Refused? then Aborted(SamplingFailed(selection.failure))
    else if Leaked(selection.tasks, split.test) != {} then Aborted(Contaminated(Leaked(selection.tasks, split.test)))
    else Ready(selection.tasks, groups, dropped, selection.tooFew)
  }

  function PlanOf(a: Splits.Addressing, req: Request, split: Splits.Split, trajectories: seq<Trajectory>, rng: Rng): Plan {
    if !Splits.Verifies(a, split) then Aborted(SplitMismatch)
    else
      var groups := GroupsOf(req, split, trajectories);
      Decide(req, split, groups, Dropped(req.composition, Grouped(Eligible(req, split, trajectories))), SelectionOf(req, groups, rng))
  }

  /** The trajectories of the selected tasks, task by task. */
  function Chosen(selected: seq<string>, groups: Groups): seq<Trajectory> {
    if selected == [] then []
    else (if selected[0] in groups then groups[selected[0]] else []) + Chosen(selected[1..], groups)
  }

  method PlanCorpus(a: Splits.Addressing, req: Request, split: Splits.Split, trajectories: seq<Trajectory>, rng: Rng)
      returns (plan: Plan)
    ensures plan == PlanOf(a, req, split, trajectories, rng)
  {
    if !Splits.Verifies(a, split) {
      return Aborted(SplitMismatch);
    }
    var grouped := GroupByTask(Eligible(req, split, trajectories));
    var groups, dropped := Composed(req.composition, grouped), Dropped(req.composition, grouped);
    if req.composition == Paired && groups == map[] {
      return Aborted(NoPairs);
    }
    if req.composition.OtherComposition? {
      return Aborted(UnknownComposition(req.composition.name));
    }
    if groups == map[] {
      return Aborted(NoEligible);
    }
    var selection := SelectTasks(Outcomes(groups), req.strategy, req.sampleSize, rng, FAILURE_WEIGHT);
    if selection.Refused? {
      return Aborted(SamplingFailed(selection.failure));
    }
    var leaked := Leaked(selection.tasks, split.test);
    if leaked != {} {
      return Aborted(Contaminated(leaked));
    }
    plan := Ready(selection.tasks, groups, dropped, selection.tooFew);
  }

  // ---- what a plan promises ----------------------------------------------------------------------

  lemma {:induction false} ChosenMembers(selected: seq<string>, groups: Groups, t: Trajectory)
    ensures t in Chosen(selected, groups) <==> exists task :: task in selected && task in groups && t in groups[task]
  {
    if selected != [] {
      ChosenMembers(selected[1..], groups, t);
      assert selected == [selected[0]] + selected[1..];
    }
  }

  lemma GroupMembers(req: Request, split: Splits.Split, trajectories: seq<Trajectory>, task: string, t: Trajectory)
    requires task in Grouped(Eligible(req, split, trajectories))
    ensures t in Grouped(Eligible(req, split, trajectories))[task]
       <==> t in trajectories && IsEligible(req, split)(t) && t.task == task
  {
    FilterMembers(trajectories, IsEligible(req, split));
    FilterMembers(Eligible(req, split, trajectories), HasTask(task));
  }

  lemma ComposedMembers(composition: Composition, groups: Groups, task: string, t: Trajectory)
    requires task in Composed(composition, groups) && t in Composed(composition, groups)[task]
    ensures task in groups && t in groups[task]
    ensures composition == NoThinkOnly ==> t.mode == NoThink
    ensures composition == Paired ==> HasBothArms(Composed(composition, groups)[task])
  {
    FilterMembers(groups[task], HasMode(NoThink));
  }

  lemma DecisionIsClean(req: Request, split: Splits.Split, groups: Groups, dropped: set<string>, selection: Selection)
    ensures var plan := Decide(req, split, groups, dropped, selection);
      && (plan.Ready? ==> plan.groups == groups && selection == Selected(plan.selected, plan.tooFew)
                          && forall t :: t in plan.selected ==> t !in split.test)
      && (plan.Aborted? && plan.error.Contaminated? ==>
            selection.Selected? && plan.error.tasks != {}
            && forall t :: t in plan.error.tasks <==> t in selection.tasks && t in split.test)
  {
    if selection.Selected? {
      forall t | t in selection.tasks && t in split.test ensures t in Leaked(selection.tasks, split.test) {}
    }
  }

  /** A plan is ready only on a verified split, with the sampler's selection clear of the test half;
      when the selection meets the test half the build aborts, naming exactly the tasks they share. */
  lemma ContaminationAborts(a: Splits.Addressing, req: Request, split: Splits.Split, trajectories: seq<Trajectory>, rng: Rng,
                            plan: Plan, selection: Selection)
    requires plan == PlanOf(a, req, split, trajectories, rng)
    requires selection == SelectionOf(req, GroupsOf(req, split, trajectories), rng)
    ensures plan.Ready? ==>
      && Splits.Verifies(a, split) && plan.groups == GroupsOf(req, split, trajectories)
      && selection == Selected(plan.selected, plan.tooFew)
      && forall t :: t in plan.selected ==> t !in split.test
    ensures plan.Aborted? && plan.error.Contaminated? ==>
      && selection.Selected? && plan.error.tasks != {}
      && forall t :: t in plan.error.tasks <==> t in selection.tasks && t in split.test
  {
    if Splits.Verifies(a, split) {
      DecisionIsClean(req, split, GroupsOf(req, split, trajectories),
                      Dropped(req.composition, Grouped(Eligible(req, split, trajectories))), selection);
    }
  }

  lemma ChosenComeFromEligible(req: Request, split: Splits.Split, trajectories: seq<Trajectory>, selected: seq<string>,
                               t: Trajectory)
    requires t in Chosen(selected, GroupsOf(req, split, trajectories))
    ensures t in trajectories && IsEligible(req, split)(t) && t.task in selected
    ensures req.composition == NoThinkOnly ==> t.mode == NoThink
    ensures t.task in GroupsOf(req, split, trajectories)
    ensures req.composition == Paired ==> HasBothArms(GroupsOf(req, split, trajectories)[t.task])
  {
    var groups := GroupsOf(req, split, trajectories);
    ChosenMembers(selected, groups, t);
    var task :| task in selected && task in groups && t in groups[task];
    ComposedMembers(req.composition, Grouped(Eligible(req, split, trajectories)), task, t);
    GroupMembers(req, split, trajectories, task, t);
  }

  /** Whatever a plan is about to write came from the input, for the requested domain and model,
      on a train task outside the test half, in an arm the composition admits. */
  lemma PlannedTrajectoriesAreSafe(a: Splits.Addressing, req: Request, split: Splits.Split,
                                   trajectories: seq<Trajectory>, rng: Rng,
                                   plan: Plan, t: Trajectory)
    requires plan == PlanOf(a, req, split, trajectories, rng) && plan.Ready? && t in Chosen(plan.selected, plan.groups)
    ensures t in trajectories && t.domain == req.domain && t.model == req.model
    ensures t.task in split.train && t.task !in split.test
    ensures req.composition == NoThinkOnly ==> t.mode == NoThink
    ensures t.task in plan.groups && (req.composition == Paired ==> HasBothArms(plan.groups[t.task]))
  {
    ContaminationAborts(a, req, split, trajectories, rng, plan, SelectionOf(req, GroupsOf(req, split, trajectories), rng));
    ChosenComeFromEligible(req, split, trajectories, plan.selected, t);
  }

  /** In a paired corpus the tasks with an eligible trajectory are those kept and those dropped. */
  lemma KeptAndDroppedPartition(req: Request, split: Splits.Split, trajectories: seq<Trajectory>)
    requires req.composition == Paired
    ensures var grouped := Grouped(Eligible(req, split, trajectories));
      var kept, dropped := Composed(Paired, grouped).Keys, Dropped(Paired, grouped);
      && kept !! dropped
      && forall task :: task in kept + dropped <==> exists t :: t in trajectories && IsEligible(req, split)(t) && t.task == task
  {
    var grouped := Grouped(Eligible(req, split, trajectories));
    FilterMembers(trajectories, IsEligible(req, split));
    var kept, dropped := Composed(Paired, grouped).Keys, Dropped(Paired, grouped);
    assert kept + dropped == grouped.Keys;
  }
}
