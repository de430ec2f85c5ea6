/** What a build guarantees: a failed one changes nothing, and a finished one puts admissible
    episodes on disk and, unless asked for, no precomputed reports. */
module SnapshotFacts {
  import opened Models
  import opened Ordering
  import opened Sampling
  import opened Corpus
  import opened Snapshot
  import opened Wrappers
  import Splits

  // ---- the files are the chosen episodes ---------------------------------------------------------

  lemma WriteOrderRearranges(chosen: seq<Trajectory>)
    ensures multiset(WriteOrder(chosen)) == multiset(chosen)
  {
    SortPermutes(Filter(chosen, HasMode(NoThink)), TaskLe);
    SortPermutes(Filter(chosen, HasMode(Think)), TaskLe);
    FilterPartitions(chosen, HasMode(NoThink), HasMode(Think));
  }

  /** The file of an episode holds the bytes of the last episode written to it. */
  lemma {:induction false} WrittenFacts(r: Rendering, visibility: Visibility, list: seq<Trajectory>, f: File)
    ensures f in Written(r, visibility, list) <==> exists t :: t in list && FileOf(t) == f
    ensures f in Written(r, visibility, list)
      ==> exists t :: t in list && FileOf(t) == f && Written(r, visibility, list)[f] == Bytes(r, visibility, t)
  {
    if list != [] {
      var front, last := list[..|list| - 1], list[|list| - 1];
      WrittenFacts(r, visibility, front, f);
      assert list == front + [last];
    }
  }

  lemma PrecomputedKeepsOthers(files: Files, precomputed: Option<map<string, string>>, f: File)
    requires !f.PrecomputedFile?
    ensures var more := WithPrecomputed(files, precomputed);
      (f in more <==> f in files) && (f in files ==> more[f] == files[f])
  {
  }

  lemma PrecomputedAdds(files: Files, precomputed: Option<map<string, string>>, name: string)
    requires PrecomputedFile(name) !in files
    ensures PrecomputedFile(name) in WithPrecomputed(files, precomputed) <==> precomputed.Some? && name in precomputed.value
  {
  }

  /** The other files; precomputed reports are there only when they were asked for. */
  lemma MaterializedFacts(r: Rendering, visibility: Visibility, chosen: seq<Trajectory>,
                          precomputed: Option<map<string, string>>, manifest: Manifest)
    ensures var files := Materialized(r, visibility, chosen, precomputed, manifest);
      && PassRatesFile in files && files[PassRatesFile] == r.rates(RatesOf(chosen))
      && ReadmeFile in files && files[ReadmeFile] == r.readme
      && ManifestFile in files && files[ManifestFile] == r.manifest(manifest)
      && forall name :: PrecomputedFile(name) in files <==> precomputed.Some? && name in precomputed.value
  {
    var written := Written(r, visibility, WriteOrder(chosen));
    var before := written[PassRatesFile := r.rates(RatesOf(chosen))][ReadmeFile := r.readme];
    PrecomputedKeepsOthers(before, precomputed, PassRatesFile);
    PrecomputedKeepsOthers(before, precomputed, ReadmeFile);
    forall name
      ensures PrecomputedFile(name) in WithPrecomputed(before, precomputed) <==> precomputed.Some? && name in precomputed.value
    {
      WrittenFacts(r, visibility, WriteOrder(chosen), PrecomputedFile(name));
      PrecomputedAdds(before, precomputed, name);
    }
  }

  lemma TrajectoryFilesAreWritten(r: Rendering, visibility: Visibility, chosen: seq<Trajectory>,
                                  precomputed: Option<map<string, string>>, manifest: Manifest, f: File)
    requires f.TrajectoryFile?
    ensures var files, written := Materialized(r, visibility, chosen, precomputed, manifest), Written(r, visibility, WriteOrder(chosen));
      (f in files <==> f in written) && (f in files ==> files[f] == written[f])
  {
    var written := Written(r, visibility, WriteOrder(chosen));
    PrecomputedKeepsOthers(written[PassRatesFile := r.rates(RatesOf(chosen))][ReadmeFile := r.readme], precomputed, f);
  }

  lemma FilesAreChosen(r: Rendering, visibility: Visibility, chosen: seq<Trajectory>,
                       precomputed: Option<map<string, string>>, manifest: Manifest, f: File)
    requires f.TrajectoryFile?
    ensures var files := Materialized(r, visibility, chosen, precomputed, manifest);
      && (f in files <==> exists t :: t in chosen && FileOf(t) == f)
      && (f in files ==> exists t :: t in chosen && FileOf(t) == f && files[f] == Bytes(r, visibility, t))
  {
    TrajectoryFilesAreWritten(r, visibility, chosen, precomputed, manifest, f);
    WriteOrderRearranges(chosen);
    MembersOfMultiset(WriteOrder(chosen), chosen);
    WrittenFacts(r, visibility, WriteOrder(chosen), f);
  }

  /** What the request, the split and the input admit. */
  ghost predicate Admissible(req: Request, split: Splits.Split, trajectories: seq<Trajectory>, t: Trajectory) {
    && t in trajectories && t.domain == req.domain && t.model == req.model
    && t.task in split.train && t.task !in split.test
    && (req.composition == NoThinkOnly ==> t.mode == NoThink)
  }

  lemma ChosenCoversGroups(selected: seq<string>, groups: Groups, task: string, mode: Mode)
    requires task in selected && task in groups && exists t :: t in groups[task] && t.mode == mode
    ensures exists t :: t in Chosen(selected, groups) && t in groups[task] && t.mode == mode
  {
    var t :| t in groups[task] && t.mode == mode;
    ChosenMembers(selected, groups, t);
  }

  lemma BothArmsAreWritten(r: Rendering, visibility: Visibility, selected: seq<string>, groups: Groups,
                           precomputed: Option<map<string, string>>, manifest: Manifest, task: string, mode: Mode)
    requires task in selected && task in groups && HasBothArms(groups[task])
    requires forall t :: t in groups[task] ==> t.task == task
    ensures TrajectoryFile(mode, task) in Materialized(r, visibility, Chosen(selected, groups), precomputed, manifest)
  {
    ChosenCoversGroups(selected, groups, task, mode);
    FilesAreChosen(r, visibility, Chosen(selected, groups), precomputed, manifest, TrajectoryFile(mode, task));
  }

  lemma GroupsHoldTheirTask(req: Request, split: Splits.Split, trajectories: seq<Trajectory>, task: string)
    requires task in GroupsOf(req, split, trajectories)
    ensures forall t :: t in GroupsOf(req, split, trajectories)[task] ==> t.task == task
  {
    forall t | t in GroupsOf(req, split, trajectories)[task] ensures t.task == task {
      ComposedMembers(req.composition, Grouped(Eligible(req, split, trajectories)), task, t);
      GroupMembers(req, split, trajectories, task, t);
    }
  }

  /** An episode file of a finished corpus: the bytes of an admissible episode and, in a paired
      corpus, the file of the other arm beside it. */
  ghost predicate SafeFile(r: Rendering, req: Request, split: Splits.Split, trajectories: seq<Trajectory>,
                           files: Files, f: File)
    requires f.TrajectoryFile? && f in files
  {
    && (exists t :: Admissible(req, split, trajectories, t) && FileOf(t) == f && files[f] == Bytes(r, req.visibility, t))
    && (req.composition == Paired ==> TrajectoryFile(Think, f.task) in files && TrajectoryFile(NoThink, f.task) in files)
  }

  lemma PlannedFilesAreSafe(a: Splits.Addressing, r: Rendering, req: Request, split: Splits.Split,
                            trajectories: seq<Trajectory>,
                            rng: Rng, plan: Plan, precomputed: Option<map<string, string>>, manifest: Manifest, f: File)
    requires plan == PlanOf(a, req, split, trajectories, rng) && plan.Ready? && f.TrajectoryFile?
    requires f in Materialized(r, req.visibility, Chosen(plan.selected, plan.groups), precomputed, manifest)
    ensures SafeFile(r, req, split, trajectories,
                     Materialized(r, req.visibility, Chosen(plan.selected, plan.groups), precomputed, manifest), f)
  {
    var chosen := Chosen(plan.selected, plan.groups);
    FilesAreChosen(r, req.visibility, chosen, precomputed, manifest, f);
    var t :| t in chosen && FileOf(t) == f
             && Materialized(r, req.visibility, chosen, precomputed, manifest)[f] == Bytes(r, req.visibility, t);
    PlannedTrajectoriesAreSafe(a, req, split, trajectories, rng, plan, t);
    assert Admissible(req, split, trajectories, t);
    if req.composition == Paired {
      ContaminationAborts(a, req, split, trajectories, rng, plan, SelectionOf(req, GroupsOf(req, split, trajectories), rng));
      ChosenComeFromEligible(req, split, trajectories, plan.selected, t);
      GroupsHoldTheirTask(req, split, trajectories, f.task);
      BothArmsAreWritten(r, req.visibility, plan.selected, plan.groups, precomputed, manifest, f.task, Think);
      BothArmsAreWritten(r, req.visibility, plan.selected, plan.groups, precomputed, manifest, f.task, NoThink);
    }
  }

  ghost predicate SafeFiles(r: Rendering, req: Request, split: Splits.Split, trajectories: seq<Trajectory>, files: Files) {
    forall f :: f in files && f.TrajectoryFile? ==> SafeFile(r, req, split, trajectories, files, f)
  }

  lemma PlannedCorpusIsSafe(a: Splits.Addressing, r: Rendering, req: Request, split: Splits.Split,
                            trajectories: seq<Trajectory>,
                            rng: Rng, plan: Plan, precomputed: Option<map<string, string>>, manifest: Manifest)
    requires plan == PlanOf(a, req, split, trajectories, rng) && plan.Ready?
    ensures SafeFiles(r, req, split, trajectories,
                      Materialized(r, req.visibility, Chosen(plan.selected, plan.groups), precomputed, manifest))
    ensures Splits.Verifies(a, split)
  {
    var files := Materialized(r, req.visibility, Chosen(plan.selected, plan.groups), precomputed, manifest);
    forall f | f in files && f.TrajectoryFile? ensures SafeFile(r, req, split, trajectories, files, f) {
      PlannedFilesAreSafe(a, r, req, split, trajectories, rng, plan, precomputed, manifest, f);
    }
  }

  /** The directories afterwards are those before and a new one. */
  ghost predicate Adds(before: map<string, Files>, after: map<string, Files>, destination: string) {
    && destination !in before && after.Keys == before.Keys + {destination}
    && forall dir :: dir in before ==> after[dir] == before[dir]
  }

  lemma FinishedFacts(r: Rendering, req: Request, split: Splits.Split, plan: Plan, precomputed: Option<map<string, string>>,
                      destination: string, before: map<string, Files>, out: Outcome, after: map<string, Files>)
    requires (out, after) == Finished(r, req, split, plan, precomputed, before, destination)
    ensures out.Failed? ==> after == before
    ensures out.Built? ==>
      && plan.Ready? && out.manifest == FinalManifest(r, req, split, plan) && Adds(before, after, destination)
      && after[destination] == Materialized(r, req.visibility, Chosen(plan.selected, plan.groups), precomputed, out.manifest)
  {
    if out.Built? {
      NewDirectory(before, destination, Materialized(r, req.visibility, Chosen(plan.selected, plan.groups), precomputed, out.manifest));
    }
  }

  lemma NewDirectory(before: map<string, Files>, destination: string, files: Files)
    requires destination !in before
    ensures Adds(before, before[destination := files], destination)
  {
  }

  /** Every build either fails and changes no directory, or adds a new one, on a verified split, in
      which every episode file is safe. */
  lemma BuildIsSafe(a: Splits.Addressing, r: Rendering, req: Request, split: Splits.Split,
                    trajectories: seq<Trajectory>, rng: Rng,
                    precomputed: Option<map<string, string>>, destination: string, plan: Plan,
                    before: map<string, Files>, out: Outcome, after: map<string, Files>)
    requires plan == PlanOf(a, req, split, trajectories, rng)
    requires (out, after) == Finished(r, req, split, plan, precomputed, before, destination)
    ensures out.Failed? ==> after == before
    ensures out.Built? ==> Splits.Verifies(a, split) && Adds(before, after, destination)
    ensures out.Built? ==> SafeFiles(r, req, split, trajectories, after[destination])
  {
    FinishedFacts(r, req, split, plan, precomputed, destination, before, out, after);
    if out.Built? {
      PlannedCorpusIsSafe(a, r, req, split, trajectories, rng, plan, precomputed, out.manifest);
    }
  }
}
