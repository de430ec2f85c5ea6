/** When a whole corpus, manifest and files, is independent of the order of its input. */
module BuildOrder {
  import opened Models
  import opened Ordering
  import opened Sampling
  import opened Corpus
  import opened Snapshot
  import opened Wrappers
  import opened InputOrder
  import CorpusRoot
  import SnapshotFacts
  import Splits

  // ---- outcomes over all orders ------------------------------------------------------------------------

  ghost predicate HasNoThink(group: seq<Trajectory>) {
    exists t :: t in group && t.mode == NoThink
  }

  /** Some order makes the task a success. */
  ghost predicate CanSucceed(group: seq<Trajectory>) {
    exists t :: t in group && t.success && (HasNoThink(group) ==> t.mode == NoThink)
  }

  /** Every order does. */
  ghost predicate MustSucceed(group: seq<Trajectory>) {
    if HasNoThink(group) then forall t :: t in group && t.mode == NoThink ==> t.success
    else exists t :: t in group && t.success
  }

  lemma OutcomeBetween(group: seq<Trajectory>)
    ensures MustSucceed(group) ==> TaskOutcome(group)
    ensures TaskOutcome(group) ==> CanSucceed(group)
  {
    FilterMembers(group, HasMode(NoThink));
    var noThink := Filter(group, HasMode(NoThink));
    if noThink != [] { assert noThink[0] in noThink; }
  }

  lemma OutcomeRangeIgnoresOrder(group: seq<Trajectory>, other: seq<Trajectory>)
    requires multiset(group) == multiset(other)
    ensures CanSucceed(group) <==> CanSucceed(other)
    ensures MustSucceed(group) <==> MustSucceed(other)
  {
    MembersOfMultiset(group, other);
    assert HasNoThink(group) <==> HasNoThink(other);
  }

  predicate WinsFirst(t: Trajectory, u: Trajectory) { u.success ==> t.success }

  predicate LossesFirst(t: Trajectory, u: Trajectory) { t.success ==> u.success }

  lemma OutcomeAtTheExtremes(group: seq<Trajectory>)
    ensures Sorted(group, WinsFirst) ==> (TaskOutcome(group) <==> CanSucceed(group))
    ensures Sorted(group, LossesFirst) ==> (TaskOutcome(group) <==> MustSucceed(group))
  {
    var noThink := Filter(group, HasMode(NoThink));
    FilterMembers(group, HasMode(NoThink));
    if noThink == [] {
      assert !HasNoThink(group);
    } else {
      assert noThink[0] in noThink && HasNoThink(group);
      if Sorted(group, WinsFirst) {
        FilterStaysSorted(group, HasMode(NoThink), WinsFirst);
        FirstIsExtreme(noThink);
      }
      if Sorted(group, LossesFirst) {
        FilterStaysSorted(group, HasMode(NoThink), LossesFirst);
        FirstIsExtreme(noThink);
      }
    }
  }

  lemma FirstIsExtreme(list: seq<Trajectory>)
    requires list != []
    ensures Sorted(list, WinsFirst) ==> (list[0].success <==> exists t :: t in list && t.success)
    ensures Sorted(list, LossesFirst) ==> (list[0].success <==> forall t :: t in list ==> t.success)
  {
    assert list[0] in list;
    forall k | 0 <= k < |list|
      ensures Sorted(list, WinsFirst) && list[k].success ==> list[0].success
      ensures Sorted(list, LossesFirst) && list[0].success ==> list[k].success
    {
      if k > 0 && Sorted(list, WinsFirst) { assert WinsFirst(list[0], list[k]); }
      if k > 0 && Sorted(list, LossesFirst) { assert LossesFirst(list[0], list[k]); }
    }
  }

  lemma SortedGroups(req: Request, split: Splits.Split, ts: seq<Trajectory>, le: (Trajectory, Trajectory) -> bool, task: string)
    requires Sorted(ts, le) && task in GroupsOf(req, split, ts)
    ensures Sorted(GroupsOf(req, split, ts)[task], le)
  {
    GroupIs(req, split, ts, task);
    FilterStaysSorted(ts, OnTask(req, split, task), le);
    FilterStaysSorted(Filter(ts, OnTask(req, split, task)), HasMode(NoThink), le);
  }

  // ---- files over all orders ---------------------------------------------------------------------------

  /** Episodes for one file have the same bytes. */
  ghost predicate FilesSettled(r: Rendering, visibility: Visibility, chosen: seq<Trajectory>) {
    forall t, u :: t in chosen && u in chosen && FileOf(t) == FileOf(u) ==> Bytes(r, visibility, t) == Bytes(r, visibility, u)
  }

  /** All selected tasks succeed in every order, or in none. */
  ghost predicate OutcomesSettled(selected: seq<string>, groups: Groups) {
    (forall task :: task in selected && task in groups ==> CanSucceed(groups[task])) ==>
    (forall task :: task in selected && task in groups ==> MustSucceed(groups[task]))
  }

  function WrittenFiles(r: Rendering, visibility: Visibility, chosen: seq<Trajectory>): Files {
    Written(r, visibility, WriteOrder(chosen))
  }

  lemma SettledFilesAgree(r: Rendering, visibility: Visibility, chosen: seq<Trajectory>, chosen': seq<Trajectory>)
    requires multiset(chosen) == multiset(chosen') && FilesSettled(r, visibility, chosen)
    ensures WrittenFiles(r, visibility, chosen) == WrittenFiles(r, visibility, chosen')
  {
    var mine, yours := WrittenFiles(r, visibility, chosen), WrittenFiles(r, visibility, chosen');
    SnapshotFacts.WriteOrderRearranges(chosen);
    SnapshotFacts.WriteOrderRearranges(chosen');
    MembersOfMultiset(WriteOrder(chosen), chosen);
    MembersOfMultiset(WriteOrder(chosen'), chosen);
    forall f ensures (f in mine <==> f in yours) && (f in mine && f in yours ==> mine[f] == yours[f]) {
      SnapshotFacts.WrittenFacts(r, visibility, WriteOrder(chosen), f);
      SnapshotFacts.WrittenFacts(r, visibility, WriteOrder(chosen'), f);
    }
  }

  function AtFile(f: File): Trajectory -> bool { (t: Trajectory) => FileOf(t) == f }

  ghost predicate LastIs<T>(s: seq<T>, x: T) {
    s != [] && s[|s| - 1] == x
  }

  lemma LastOfJoin<T>(a: seq<T>, b: seq<T>, x: T)
    ensures LastIs(b, x) ==> LastIs(a + b, x)
    ensures b == [] ==> (LastIs(a + b, x) <==> LastIs(a, x))
  {
    if b == [] { assert a + b == a; }
  }

  /** The last episode of the list for a file is the one whose bytes stay. */
  lemma {:induction false} LastWins(r: Rendering, visibility: Visibility, list: seq<Trajectory>, f: File, t: Trajectory)
    requires LastIs(Filter(list, AtFile(f)), t)
    ensures f in Written(r, visibility, list) && Written(r, visibility, list)[f] == Bytes(r, visibility, t)
  {
    var front, last := list[..|list| - 1], list[|list| - 1];
    assert list == front + [last];
    FilterSnoc(front, last, AtFile(f));
    if FileOf(last) == f {
      LastOfJoin(Filter(front, AtFile(f)), [last], last);
    } else {
      LastOfJoin(Filter(front, AtFile(f)), [], t);
      LastWins(r, visibility, front, f, t);
    }
  }

  lemma OneModeOfFile(chosen: seq<Trajectory>, mode: Mode, f: File)
    requires f.TrajectoryFile?
    ensures Filter(Sort(Filter(chosen, HasMode(mode)), TaskLe), AtFile(f)) == if mode == f.mode then Filter(chosen, AtFile(f)) else []
  {
    forall t: Trajectory, u: Trajectory | AtFile(f)(t) && AtFile(f)(u) ensures TaskLe(t, u) { StringLeTotal(t.task, u.task); }
    SortIsStable(Filter(chosen, HasMode(mode)), TaskLe, AtFile(f));
    if mode == f.mode {
      FilterTwice(chosen, HasMode(mode), AtFile(f), AtFile(f));
    } else {
      var none := (t: Trajectory) => false;
      FilterTwice(chosen, HasMode(mode), AtFile(f), none);
      FilterNone(chosen, none);
    }
  }

  lemma WriteOrderKeepsFile(chosen: seq<Trajectory>, f: File)
    requires f.TrajectoryFile?
    ensures Filter(WriteOrder(chosen), AtFile(f)) == Filter(chosen, AtFile(f))
  {
    FilterSplits(Sort(Filter(chosen, HasMode(NoThink)), TaskLe), Sort(Filter(chosen, HasMode(Think)), TaskLe), AtFile(f));
    OneModeOfFile(chosen, NoThink, f);
    OneModeOfFile(chosen, Think, f);
  }

  // ---- the last episode of a file ------------------------------------------------------------------------

  function ToBack(ts: seq<Trajectory>, i: nat): seq<Trajectory>
    requires i < |ts|
  {
    (ts[..i] + ts[i + 1..]) + [ts[i]]
  }

  lemma ToBackRearranges(ts: seq<Trajectory>, i: nat)
    requires i < |ts|
    ensures multiset(ToBack(ts, i)) == multiset(ts)
  {
    WithoutOne(ts, i);
  }

  ghost predicate HoldTheirTasks(groups: Groups) {
    forall task, t :: task in groups && t in groups[task] ==> t.task == task
  }

  lemma GroupsHoldTasks(req: Request, split: Splits.Split, ts: seq<Trajectory>)
    ensures HoldTheirTasks(GroupsOf(req, split, ts))
  {
    forall task | task in GroupsOf(req, split, ts)
      ensures forall t: Trajectory :: t in GroupsOf(req, split, ts)[task] ==> t.task == task
    {
      SnapshotFacts.GroupsHoldTheirTask(req, split, ts, task);
    }
  }

  /** The selected groups put the episodes of a file in the order of the task's group. */
  lemma {:induction false} ChosenAtFile(selected: seq<string>, groups: Groups, f: File, t: Trajectory)
    requires f.TrajectoryFile? && HoldTheirTasks(groups)
    requires f.task in selected && f.task in groups && LastIs(Filter(groups[f.task], AtFile(f)), t)
    ensures LastIs(Filter(Chosen(selected, groups), AtFile(f)), t)
  {
    var first, later := if selected[0] in groups then groups[selected[0]] else [], Chosen(selected[1..], groups);
    assert selected == [selected[0]] + selected[1..];
    FilterSplits(first, later, AtFile(f));
    LastOfJoin(Filter(first, AtFile(f)), Filter(later, AtFile(f)), t);
    if f.task in selected[1..] {
      ChosenAtFile(selected[1..], groups, f, t);
    } else {
      NotChosen(selected[1..], groups, f);
    }
  }

  lemma {:induction false} NotChosen(selected: seq<string>, groups: Groups, f: File)
    requires f.TrajectoryFile? && HoldTheirTasks(groups)
    requires f.task !in selected
    ensures Filter(Chosen(selected, groups), AtFile(f)) == []
  {
    FilterMembers(Chosen(selected, groups), AtFile(f));
    var all := Filter(Chosen(selected, groups), AtFile(f));
    if all != [] {
      assert all[0] in all;
      ChosenMembers(selected, groups, all[0]);
    }
  }

  lemma KeptSnoc(composition: Composition, front: seq<Trajectory>, t: Trajectory)
    requires composition == NoThinkOnly ==> t.mode == NoThink
    ensures KeptGroup(composition, front + [t]) == KeptGroup(composition, front) + [t]
  {
    FilterSnoc(front, t, HasMode(NoThink));
  }

  lemma FilterEndsWith(front: seq<Trajectory>, t: Trajectory, p: Trajectory -> bool)
    requires p(t)
    ensures LastIs(Filter(front + [t], p), t)
  {
    FilterSnoc(front, t, p);
    LastOfJoin(Filter(front, p), [t], t);
  }

  lemma LastOfGroup(req: Request, split: Splits.Split, ts: seq<Trajectory>, i: nat)
    requires i < |ts| && IsEligible(req, split)(ts[i]) && (req.composition == NoThinkOnly ==> ts[i].mode == NoThink)
    requires ts[i].task in GroupsOf(req, split, ToBack(ts, i))
    ensures LastIs(Filter(GroupsOf(req, split, ToBack(ts, i))[ts[i].task], AtFile(FileOf(ts[i]))), ts[i])
  {
    var rest, t, on := ts[..i] + ts[i + 1..], ts[i], OnTask(req, split, ts[i].task);
    GroupIs(req, split, ToBack(ts, i), t.task);
    FilterSnoc(rest, t, on);
    KeptSnoc(req.composition, Filter(rest, on), t);
    FilterEndsWith(KeptGroup(req.composition, Filter(rest, on)), t, AtFile(FileOf(t)));
  }

  /** Moved to the back of the input, an episode is the one its file keeps. */
  lemma MovedToBackStays(r: Rendering, req: Request, split: Splits.Split, ts: seq<Trajectory>, i: nat, selected: seq<string>)
    requires i < |ts| && IsEligible(req, split)(ts[i]) && (req.composition == NoThinkOnly ==> ts[i].mode == NoThink)
    requires ts[i].task in selected && ts[i].task in GroupsOf(req, split, ToBack(ts, i))
    ensures var files := WrittenFiles(r, req.visibility, Chosen(selected, GroupsOf(req, split, ToBack(ts, i))));
      FileOf(ts[i]) in files && files[FileOf(ts[i])] == Bytes(r, req.visibility, ts[i])
  {
    var groups := GroupsOf(req, split, ToBack(ts, i));
    GroupsHoldTasks(req, split, ToBack(ts, i));
    LastOfGroup(req, split, ts, i);
    LastOfGroupStays(r, req.visibility, selected, groups, ts[i]);
  }

  lemma LastOfFileStays(r: Rendering, visibility: Visibility, chosen: seq<Trajectory>, f: File, t: Trajectory)
    requires f.TrajectoryFile? && LastIs(Filter(chosen, AtFile(f)), t)
    ensures f in WrittenFiles(r, visibility, chosen) && WrittenFiles(r, visibility, chosen)[f] == Bytes(r, visibility, t)
  {
    WriteOrderKeepsFile(chosen, f);
    LastWins(r, visibility, WriteOrder(chosen), f, t);
  }

  lemma LastOfGroupStays(r: Rendering, visibility: Visibility, selected: seq<string>, groups: Groups, t: Trajectory)
    requires HoldTheirTasks(groups) && t.task in selected && t.task in groups
    requires LastIs(Filter(groups[t.task], AtFile(FileOf(t))), t)
    ensures var files := WrittenFiles(r, visibility, Chosen(selected, groups));
      FileOf(t) in files && files[FileOf(t)] == Bytes(r, visibility, t)
  {
    ChosenAtFile(selected, groups, FileOf(t), t);
    LastOfFileStays(r, visibility, Chosen(selected, groups), FileOf(t), t);
  }

  // ---- the whole build -------------------------------------------------------------------------------------

  /** The same manifest and the same directory. */
  ghost predicate BuiltAlike(r: Rendering, req: Request, split: Splits.Split, p: Plan, q: Plan,
                             precomputed: Option<map<string, string>>)
  {
    && p.Ready? && q.Ready? && FinalManifest(r, req, split, p) == FinalManifest(r, req, split, q)
    && Materialized(r, req.visibility, Chosen(p.selected, p.groups), precomputed, FinalManifest(r, req, split, p))
       == Materialized(r, req.visibility, Chosen(q.selected, q.groups), precomputed, FinalManifest(r, req, split, q))
  }

  /** For plans that differ in the order of episodes only, all there is to it is the verdict that every
      task succeeded and the episode files. */
  lemma BuiltAlikeIff(r: Rendering, req: Request, split: Splits.Split, p: Plan, q: Plan, precomputed: Option<map<string, string>>)
    requires p.Ready? && SamePlan(p, q)
    ensures BuiltAlike(r, req, split, p, q, precomputed)
       <==> ((AllSucceeded(p.selected, p.groups) <==> AllSucceeded(q.selected, q.groups))
             && WrittenFiles(r, req.visibility, Chosen(p.selected, p.groups)) == WrittenFiles(r, req.visibility, Chosen(q.selected, q.groups)))
  {
    var mine, yours := Chosen(p.selected, p.groups), Chosen(q.selected, q.groups);
    ChosenIgnoresOrder(p.selected, p.groups, q.groups);
    assert |mine| == |multiset(mine)| == |multiset(yours)| == |yours|;
    RootIgnoresOrder(r, req.visibility, mine, yours);
    RatesIgnoreOrder(mine, yours);
    ManifestsAgreeIff(r, req, split, p, q);
    FilesAgreeIff(r, req.visibility, mine, yours, precomputed, FinalManifest(r, req, split, p));
  }

  lemma ManifestsAgreeIff(r: Rendering, req: Request, split: Splits.Split, p: Plan, q: Plan)
    requires p.Ready? && SamePlan(p, q) && |Chosen(p.selected, p.groups)| == |Chosen(q.selected, q.groups)|
    requires RootOf(r, req.visibility, Chosen(p.selected, p.groups)) == RootOf(r, req.visibility, Chosen(q.selected, q.groups))
    ensures FinalManifest(r, req, split, p) == FinalManifest(r, req, split, q)
       <==> (AllSucceeded(p.selected, p.groups) <==> AllSucceeded(q.selected, q.groups))
  {
  }

  lemma FilesAgreeIff(r: Rendering, visibility: Visibility, mine: seq<Trajectory>, yours: seq<Trajectory>,
                      precomputed: Option<map<string, string>>, manifest: Manifest)
    requires RatesOf(mine) == RatesOf(yours)
    ensures Materialized(r, visibility, mine, precomputed, manifest) == Materialized(r, visibility, yours, precomputed, manifest)
       <==> WrittenFiles(r, visibility, mine) == WrittenFiles(r, visibility, yours)
  {
    var files, files' := Materialized(r, visibility, mine, precomputed, manifest), Materialized(r, visibility, yours, precomputed, manifest);
    var written, written' := WrittenFiles(r, visibility, mine), WrittenFiles(r, visibility, yours);
    if files == files' {
      forall f ensures (f in written <==> f in written') && (f in written && f in written' ==> written[f] == written'[f]) {
        SnapshotFacts.WrittenFacts(r, visibility, WriteOrder(mine), f);
        SnapshotFacts.WrittenFacts(r, visibility, WriteOrder(yours), f);
        if f.TrajectoryFile? {
          SnapshotFacts.TrajectoryFilesAreWritten(r, visibility, mine, precomputed, manifest, f);
          SnapshotFacts.TrajectoryFilesAreWritten(r, visibility, yours, precomputed, manifest, f);
        }
      }
    }
  }

  lemma OutcomesOverOrders(req: Request, split: Splits.Split, ts: seq<Trajectory>, other: seq<Trajectory>, selected: seq<string>)
    requires multiset(other) == multiset(ts)
    ensures var groups, groups' := GroupsOf(req, split, ts), GroupsOf(req, split, other);
      && ((forall task :: task in selected && task in groups ==> MustSucceed(groups[task])) ==> AllSucceeded(selected, groups'))
      && (AllSucceeded(selected, groups') ==> forall task :: task in selected && task in groups ==> CanSucceed(groups[task]))
  {
    var groups, groups' := GroupsOf(req, split, ts), GroupsOf(req, split, other);
    GroupsIgnoreOrder(req, split, ts, other);
    forall task | task in groups
      ensures MustSucceed(groups[task]) ==> TaskOutcome(groups'[task])
      ensures TaskOutcome(groups'[task]) ==> CanSucceed(groups[task])
    {
      OutcomeBetween(groups'[task]);
      OutcomeRangeIgnoresOrder(groups[task], groups'[task]);
    }
  }

  /** Two orders at the extremes: with the successes first a task succeeds if it can, with them last only
      if it must. */
  lemma ExtremeOrders(req: Request, split: Splits.Split, ts: seq<Trajectory>, selected: seq<string>)
      returns (best: seq<Trajectory>, worst: seq<Trajectory>)
    ensures multiset(best) == multiset(ts) == multiset(worst)
    ensures var groups := GroupsOf(req, split, ts);
      && (AllSucceeded(selected, GroupsOf(req, split, best)) <==> forall task :: task in selected && task in groups ==> CanSucceed(groups[task]))
      && (AllSucceeded(selected, GroupsOf(req, split, worst)) <==> forall task :: task in selected && task in groups ==> MustSucceed(groups[task]))
  {
    best, worst := Sort(ts, WinsFirst), Sort(ts, LossesFirst);
    SortPermutes(ts, WinsFirst);
    SortPermutes(ts, LossesFirst);
    SortSorts(ts, WinsFirst);
    SortSorts(ts, LossesFirst);
    var groups := GroupsOf(req, split, ts);
    GroupsIgnoreOrder(req, split, ts, best);
    GroupsIgnoreOrder(req, split, ts, worst);
    forall task | task in groups
      ensures TaskOutcome(GroupsOf(req, split, best)[task]) <==> CanSucceed(groups[task])
      ensures TaskOutcome(GroupsOf(req, split, worst)[task]) <==> MustSucceed(groups[task])
    {
      SortedGroups(req, split, best, WinsFirst, task);
      SortedGroups(req, split, worst, LossesFirst, task);
      OutcomeAtTheExtremes(GroupsOf(req, split, best)[task]);
      OutcomeAtTheExtremes(GroupsOf(req, split, worst)[task]);
      OutcomeRangeIgnoresOrder(groups[task], GroupsOf(req, split, best)[task]);
      OutcomeRangeIgnoresOrder(groups[task], GroupsOf(req, split, worst)[task]);
    }
  }

  /** Two episodes for one file with different bytes: two orders that leave different files. */
  lemma FilesOverOrders(r: Rendering, req: Request, split: Splits.Split, ts: seq<Trajectory>, selected: seq<string>)
      returns (one: seq<Trajectory>, two: seq<Trajectory>)
    requires !FilesSettled(r, req.visibility, Chosen(selected, GroupsOf(req, split, ts)))
    ensures multiset(one) == multiset(ts) == multiset(two)
    ensures WrittenFiles(r, req.visibility, Chosen(selected, GroupsOf(req, split, one)))
         != WrittenFiles(r, req.visibility, Chosen(selected, GroupsOf(req, split, two)))
  {
    var chosen := Chosen(selected, GroupsOf(req, split, ts));
    var t, u :| t in chosen && u in chosen && FileOf(t) == FileOf(u) && Bytes(r, req.visibility, t) != Bytes(r, req.visibility, u);
    ChosenComeFromEligible(req, split, ts, selected, t);
    ChosenComeFromEligible(req, split, ts, selected, u);
    var i :| 0 <= i < |ts| && ts[i] == t;
    var j :| 0 <= j < |ts| && ts[j] == u;
    one, two := ToBack(ts, i), ToBack(ts, j);
    ToBackRearranges(ts, i);
    ToBackRearranges(ts, j);
    GroupsIgnoreOrder(req, split, ts, one);
    GroupsIgnoreOrder(req, split, ts, two);
    MovedToBackStays(r, req, split, ts, i, selected);
    MovedToBackStays(r, req, split, ts, j, selected);
  }

  /** Every order of the input leads to the same manifest and directory. */
  ghost predicate BuildIgnoresInputOrder(a: Splits.Addressing, r: Rendering, req: Request, split: Splits.Split, ts: seq<Trajectory>,
                                         rng: Rng, precomputed: Option<map<string, string>>)
  {
    forall other: seq<Trajectory> :: multiset(other) == multiset(ts) ==>
      BuiltAlike(r, req, split, PlanOf(a, req, split, ts, rng), PlanOf(a, req, split, other, rng), precomputed)
  }

  ghost predicate Settled(r: Rendering, req: Request, p: Plan)
    requires p.Ready?
  {
    FilesSettled(r, req.visibility, Chosen(p.selected, p.groups)) && OutcomesSettled(p.selected, p.groups)
  }

  lemma OtherOrder(a: Splits.Addressing, req: Request, split: Splits.Split, ts: seq<Trajectory>, other: seq<Trajectory>, rng: Rng)
    requires multiset(other) == multiset(ts) && OrderFreeFor(req, GroupsOf(req, split, ts), rng)
    requires PlanOf(a, req, split, ts, rng).Ready?
    ensures var p, q := PlanOf(a, req, split, ts, rng), PlanOf(a, req, split, other, rng);
      && SamePlan(p, q) && q.Ready? && q.selected == p.selected
      && p.groups == GroupsOf(req, split, ts) && q.groups == GroupsOf(req, split, other)
  {
    PlanIgnoresOrder(a, req, split, ts, other, rng);
    var p, q := PlanOf(a, req, split, ts, rng), PlanOf(a, req, split, other, rng);
    ContaminationAborts(a, req, split, ts, rng, p, SelectionOf(req, GroupsOf(req, split, ts), rng));
    ContaminationAborts(a, req, split, other, rng, q, SelectionOf(req, GroupsOf(req, split, other), rng));
  }

  lemma SettledBuildsAgree(a: Splits.Addressing, r: Rendering, req: Request, split: Splits.Split, ts: seq<Trajectory>,
                           other: seq<Trajectory>, rng: Rng, precomputed: Option<map<string, string>>)
    requires multiset(other) == multiset(ts) && OrderFreeFor(req, GroupsOf(req, split, ts), rng)
    requires PlanOf(a, req, split, ts, rng).Ready? && Settled(r, req, PlanOf(a, req, split, ts, rng))
    ensures BuiltAlike(r, req, split, PlanOf(a, req, split, ts, rng), PlanOf(a, req, split, other, rng), precomputed)
  {
    var p, q := PlanOf(a, req, split, ts, rng), PlanOf(a, req, split, other, rng);
    OtherOrder(a, req, split, ts, other, rng);
    ChosenIgnoresOrder(p.selected, p.groups, q.groups);
    SettledFilesAgree(r, req.visibility, Chosen(p.selected, p.groups), Chosen(q.selected, q.groups));
    OutcomesOverOrders(req, split, ts, ts, p.selected);
    OutcomesOverOrders(req, split, ts, other, p.selected);
    BuiltAlikeIff(r, req, split, p, q, precomputed);
  }

  lemma UnsettledBuildsDiffer(a: Splits.Addressing, r: Rendering, req: Request, split: Splits.Split, ts: seq<Trajectory>,
                              rng: Rng, precomputed: Option<map<string, string>>) returns (other: seq<Trajectory>)
    requires OrderFreeFor(req, GroupsOf(req, split, ts), rng)
    requires PlanOf(a, req, split, ts, rng).Ready? && !Settled(r, req, PlanOf(a, req, split, ts, rng))
    ensures multiset(other) == multiset(ts)
    ensures !BuiltAlike(r, req, split, PlanOf(a, req, split, ts, rng), PlanOf(a, req, split, other, rng), precomputed)
  {
    var p := PlanOf(a, req, split, ts, rng);
    OtherOrder(a, req, split, ts, ts, rng);
    var one, two: seq<Trajectory>;
    if FilesSettled(r, req.visibility, Chosen(p.selected, p.groups)) {
      one, two := ExtremeOrders(req, split, ts, p.selected);
    } else {
      one, two := FilesOverOrders(r, req, split, ts, p.selected);
    }
    OtherOrder(a, req, split, ts, one, rng);
    OtherOrder(a, req, split, ts, two, rng);
    BuiltAlikeIff(r, req, split, p, PlanOf(a, req, split, one, rng), precomputed);
    BuiltAlikeIff(r, req, split, p, PlanOf(a, req, split, two, rng), precomputed);
    other := if BuiltAlike(r, req, split, p, PlanOf(a, req, split, one, rng), precomputed) then two else one;
  }

  /** Where the order does not reach the selection, it does not reach the corpus at all, manifest and
      files, if and only if chosen episodes for one file have the same bytes and the selected tasks all
      succeed in every order or in none. */
  lemma BuildIgnoresOrderIff(a: Splits.Addressing, r: Rendering, req: Request, split: Splits.Split, ts: seq<Trajectory>,
                             rng: Rng, precomputed: Option<map<string, string>>)
    requires OrderFreeFor(req, GroupsOf(req, split, ts), rng) && PlanOf(a, req, split, ts, rng).Ready?
    ensures BuildIgnoresInputOrder(a, r, req, split, ts, rng, precomputed) <==> Settled(r, req, PlanOf(a, req, split, ts, rng))
  {
    if Settled(r, req, PlanOf(a, req, split, ts, rng)) {
      forall other: seq<Trajectory> | multiset(other) == multiset(ts)
        ensures BuiltAlike(r, req, split, PlanOf(a, req, split, ts, rng), PlanOf(a, req, split, other, rng), precomputed)
      {
        SettledBuildsAgree(a, r, req, split, ts, other, rng, precomputed);
      }
    } else {
      var other := UnsettledBuildsDiffer(a, r, req, split, ts, rng, precomputed);
    }
  }

  /** One episode for each file is enough. */
  lemma OneEpisodePerFileSettles(r: Rendering, req: Request, split: Splits.Split, ts: seq<Trajectory>, selected: seq<string>)
    requires CorpusRoot.OneEpisodePerFile(Chosen(selected, GroupsOf(req, split, ts)))
    ensures FilesSettled(r, req.visibility, Chosen(selected, GroupsOf(req, split, ts)))
    ensures OutcomesSettled(selected, GroupsOf(req, split, ts))
  {
    var groups := GroupsOf(req, split, ts);
    forall t, u | t in Chosen(selected, groups) && u in Chosen(selected, groups) && FileOf(t) == FileOf(u) ensures t == u {
      OneForFile(Chosen(selected, groups), t, u);
    }
    forall task | task in selected && task in groups && CanSucceed(groups[task]) ensures MustSucceed(groups[task]) {
      SnapshotFacts.GroupsHoldTheirTask(req, split, ts, task);
      forall t: Trajectory, u: Trajectory | t in groups[task] && u in groups[task] && t.mode == u.mode ensures t == u {
        ChosenMembers(selected, groups, t);
        ChosenMembers(selected, groups, u);
        OneForFile(Chosen(selected, groups), t, u);
      }
    }
  }

  lemma OneForFile(chosen: seq<Trajectory>, t: Trajectory, u: Trajectory)
    requires CorpusRoot.OneEpisodePerFile(chosen) && t in chosen && u in chosen && FileOf(t) == FileOf(u)
    ensures t == u
  {
    var i :| 0 <= i < |chosen| && chosen[i] == t;
    var j :| 0 <= j < |chosen| && chosen[j] == u;
    assert Apply(chosen, FileOf)[i] == FileOf(t) && Apply(chosen, FileOf)[j] == FileOf(u);
  }
}
