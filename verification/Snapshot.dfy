/** Writing a corpus: what goes into which file, the root over the files, and the staged move. */
module Snapshot {
  import opened Models
  import opened Ordering
  import opened Sampling
  import opened Corpus
  import opened Wrappers
  import Splits
  import Merkle

  datatype File =
    | TrajectoryFile(mode: Mode, task: string)
    | PassRatesFile
    | ReadmeFile
    | PrecomputedFile(name: string)
    | ManifestFile

  type Files = map<File, string>

  datatype Rate = Rate(successes: nat, episodes: nat)

  /** What a distiller sees of an episode; the outcome is withheld under `mode_level`. */
  datatype Episode = Episode(id: string, domain: string, model: string, task: string, mode: Mode, rest: string,
                             outcome: Option<(real, bool)>)

  datatype Manifest = Manifest(request: Request, splitSha256: string, tasks: nat, trajectories: nat, dropped: set<string>,
                               tooFew: bool, allSucceeded: bool, root: string)

  /** The serialisers of the written files, and the hash. */
  datatype Rendering = Rendering(episode: Episode -> string, rates: map<Mode, Rate> -> string, manifest: Manifest -> string,
                                 readme: string, sha: string -> string)

  function Visible(t: Trajectory, visibility: Visibility): Episode {
    Episode(t.id, t.domain, t.model, t.task, t.mode, t.rest, if visibility == ModeLevel then None else Some((t.reward, t.success)))
  }

  function Bytes(r: Rendering, visibility: Visibility, t: Trajectory): string {
    r.episode(Visible(t, visibility))
  }

  /** Under `mode_level` the bytes of an episode do not depend on its reward or success. */
  lemma ModeLevelHidesOutcomes(r: Rendering, t: Trajectory, reward: real, success: bool)
    ensures Bytes(r, ModeLevel, t) == Bytes(r, ModeLevel, t.(reward := reward, success := success))
  {
  }

  // ---- the written files ---------------------------------------------------------------------

  predicate TaskLe(t: Trajectory, u: Trajectory) { StringLe(t.task, u.task) }

  /** Mode by mode, each sorted by task. */
  function WriteOrder(chosen: seq<Trajectory>): seq<Trajectory> {
    Sort(Filter(chosen, HasMode(NoThink)), TaskLe) + Sort(Filter(chosen, HasMode(Think)), TaskLe)
  }

  function FileOf(t: Trajectory): File { TrajectoryFile(t.mode, t.task) }

  /** The trajectory files after writing the list in order: a later one replaces an earlier one. */
  function Written(r: Rendering, visibility: Visibility, list: seq<Trajectory>): Files {
    if list == [] then map[]
    else
      var last := list[|list| - 1];
      Written(r, visibility, list[..|list| - 1])[FileOf(last) := Bytes(r, visibility, last)]
  }

  function HashOf(r: Rendering, visibility: Visibility): Trajectory -> string {
    (t: Trajectory) => r.sha(Bytes(r, visibility, t))
  }

  function Hashes(r: Rendering, visibility: Visibility, list: seq<Trajectory>): seq<string> {
    Apply(list, HashOf(r, visibility))
  }

  function Wins(mode: Mode): Trajectory -> bool { (t: Trajectory) => t.mode == mode && t.success }

  function RateOf(chosen: seq<Trajectory>, mode: Mode): Rate {
    Rate(|Filter(chosen, Wins(mode))|, |Filter(chosen, HasMode(mode))|)
  }

  /** Mode-level pass rates, for the modes that occur. */
  function RatesOf(chosen: seq<Trajectory>): map<Mode, Rate> {
    map mode: Mode | mode in {NoThink, Think} && RateOf(chosen, mode).episodes > 0 :: RateOf(chosen, mode)
  }

  function RootOf(r: Rendering, visibility: Visibility, chosen: seq<Trajectory>): string {
    Merkle.Root(r.sha, Hashes(r, visibility, WriteOrder(chosen)) + [r.sha(r.rates(RatesOf(chosen)))])
  }

  /** The manifest before the files are written; `Materialize` fills in the root. */
  function Draft(req: Request, split: Splits.Split, plan: Plan): Manifest
    requires plan.Ready?
  {
    Manifest(req, split.sha256, |plan.selected|, |Chosen(plan.selected, plan.groups)|, plan.dropped, plan.tooFew,
             AllSucceeded(plan.selected, plan.groups), "")
  }

  predicate AllSucceeded(selected: seq<string>, groups: Groups) {
    forall task :: task in selected && task in groups ==> TaskOutcome(groups[task])
  }

  function WithPrecomputed(files: Files, precomputed: Option<map<string, string>>): Files {
    match precomputed
    case None => files
    case Some(reports) => files + map f: File | f in (set name | name in reports :: PrecomputedFile(name)) :: reports[f.name]
  }

  function Materialized(r: Rendering, visibility: Visibility, chosen: seq<Trajectory>, precomputed: Option<map<string, string>>,
                        manifest: Manifest): Files
  {
    WithPrecomputed(Written(r, visibility, WriteOrder(chosen))[PassRatesFile := r.rates(RatesOf(chosen))][ReadmeFile := r.readme],
                    precomputed)[ManifestFile := r.manifest(manifest)]
  }

  function FinalManifest(r: Rendering, req: Request, split: Splits.Split, plan: Plan): Manifest
    requires plan.Ready?
  {
    Draft(req, split, plan).(root := RootOf(r, req.visibility, Chosen(plan.selected, plan.groups)))
  }

  datatype Outcome = Built(manifest: Manifest) | Failed(error: Error)

  /** What a build amounts to, given the plan, whether the destination is taken, and the files there are. */
  function Finished(r: Rendering, req: Request, split: Splits.Split, plan: Plan, precomputed: Option<map<string, string>>,
                    corpora: map<string, Files>, destination: string): (Outcome, map<string, Files>)
  {
    if plan.Aborted? then (Failed(plan.error), corpora)
    else if req.visibility.OtherVisibility? then (Failed(UnknownVisibility(req.visibility.name)), corpora)
    else if destination in corpora then (Failed(DestinationExists), corpora)
    else
      var manifest := FinalManifest(r, req, split, plan);
      (Built(manifest),
       corpora[destination := Materialized(r, req.visibility, Chosen(plan.selected, plan.groups), precomputed, manifest)])
  }

  // ---- the directories ---------------------------------------------------------------------------

  lemma Overwritten<K, V>(m: map<K, V>, k: K, v: V, w: V)
    ensures m[k := v][k := w] == m[k := w]
    ensures k !in m ==> m[k := v] - {k} == m
    ensures k in m && m[k] == v ==> m[k := v] == m
  {
  }

  lemma WrittenOneMore(r: Rendering, visibility: Visibility, list: seq<Trajectory>, i: nat)
    requires i < |list|
    ensures Written(r, visibility, list[..i + 1])
         == Written(r, visibility, list[..i])[FileOf(list[i]) := Bytes(r, visibility, list[i])]
    ensures Hashes(r, visibility, list[..i + 1]) == Hashes(r, visibility, list[..i]) + [r.sha(Bytes(r, visibility, list[i]))]
  {
    assert list[..i + 1][..i] == list[..i];
  }

  class Workspace {
    var corpora: map<string, Files>

    constructor ()
      ensures corpora == map[]
    {
      corpora := map[];
    }

    method Write(dir: string, file: File, data: string)
      requires dir in corpora
      modifies this
      ensures corpora == old(corpora)[dir := old(corpora)[dir][file := data]]
    {
      corpora := corpora[dir := corpora[dir][file := data]];
    }

    /** Writes one file per trajectory and collects their hashes. */
    method WriteTrajectories(dir: string, r: Rendering, visibility: Visibility,
                             list: seq<Trajectory>) returns (hashes: seq<string>)
      requires dir in corpora && corpora[dir] == map[]
      modifies this
      ensures corpora == old(corpora)[dir := Written(r, visibility, list)]
      ensures hashes == Hashes(r, visibility, list)
    {
      hashes := [];
      var i := 0;
      ghost var files: Files := map[];
      Overwritten(corpora, dir, files, files);
      while i < |list|
        invariant 0 <= i <= |list|
        invariant files == Written(r, visibility, list[..i])
        invariant corpora == old(corpora)[dir := files]
        invariant hashes == Hashes(r, visibility, list[..i])
      {
        var data := Bytes(r, visibility, list[i]);
        WrittenOneMore(r, visibility, list, i);
        Overwritten(old(corpora), dir, files, files[FileOf(list[i]) := data]);
        files := files[FileOf(list[i]) := data];
        Write(dir, FileOf(list[i]), data);
        hashes := hashes + [r.sha(data)];
        i := i + 1;
      }
      assert list[..|list|] == list;
    }

    /** Writes the files that accompany the trajectories. */
    method WriteRest(dir: string, r: Rendering, chosen: seq<Trajectory>,
                     precomputed: Option<map<string, string>>) returns (hash: string)
      requires dir in corpora
      modifies this
      ensures hash == r.sha(r.rates(RatesOf(chosen)))
      ensures corpora == old(corpora)[dir :=
        WithPrecomputed(old(corpora)[dir][PassRatesFile := r.rates(RatesOf(chosen))][ReadmeFile := r.readme], precomputed)]
    {
      var rates := r.rates(RatesOf(chosen));
      ghost var start := corpora[dir];
      hash := r.sha(rates);
      Write(dir, PassRatesFile, rates);
      Overwritten(old(corpora), dir, start[PassRatesFile := rates], start[PassRatesFile := rates][ReadmeFile := r.readme]);
      Write(dir, ReadmeFile, r.readme);
      var files := corpora[dir];
      Overwritten(old(corpora), dir, files, WithPrecomputed(files, precomputed));
      corpora := corpora[dir := WithPrecomputed(files, precomputed)];
    }

    /** Fills an empty directory and returns the root over its trajectories and pass rates. */
    method Materialize(dir: string, r: Rendering, visibility: Visibility, chosen: seq<Trajectory>,
                       precomputed: Option<map<string, string>>, draft: Manifest) returns (root: string)
      requires dir in corpora && corpora[dir] == map[]
      modifies this
      ensures root == RootOf(r, visibility, chosen)
      ensures corpora == old(corpora)[dir := Materialized(r, visibility, chosen, precomputed, draft.(root := root))]
    {
      ghost var before := corpora;
      var hashes := WriteTrajectories(dir, r, visibility, WriteOrder(chosen));
      ghost var first := corpora[dir];
      var hash := WriteRest(dir, r, chosen, precomputed);
      ghost var second := corpora[dir];
      Overwritten(before, dir, first, second);
      root := Merkle.Root(r.sha, hashes + [hash]);
      ghost var third := second[ManifestFile := r.manifest(draft.(root := root))];
      Overwritten(before, dir, second, third);
      Write(dir, ManifestFile, r.manifest(draft.(root := root)));
    }

    /** The whole build: it either fails and leaves every directory as it was, or adds the
        destination, complete. `staging` is the fresh temporary directory. */
    method Build(a: Splits.Addressing, r: Rendering, req: Request, split: Splits.Split, trajectories: seq<Trajectory>, rng: Rng,
                 precomputed: Option<map<string, string>>, staging: string, destination: string) returns (out: Outcome)
      requires staging !in corpora && staging != destination
      modifies this
      ensures (out, corpora)
           == Finished(r, req, split, PlanOf(a, req, split, trajectories, rng), precomputed, old(corpora), destination)
    {
      var plan := PlanCorpus(a, req, split, trajectories, rng);
      if plan.Aborted? {
        return Failed(plan.error);
      }
      out := Stage(r, req, split, plan, precomputed, staging, destination);
    }

    method Stage(r: Rendering, req: Request, split: Splits.Split, plan: Plan, precomputed: Option<map<string, string>>,
                 staging: string, destination: string) returns (out: Outcome)
      requires plan.Ready? && staging !in corpora && staging != destination
      modifies this
      ensures (out, corpora) == Finished(r, req, split, plan, precomputed, old(corpora), destination)
    {
      ghost var before := corpora;
      corpora := corpora[staging := map[]];
      Overwritten(before, staging, map[], map[]);
      if req.visibility.OtherVisibility? {
        corpora := corpora - {staging};
        return Failed(UnknownVisibility(req.visibility.name));
      }
      var chosen, draft := Chosen(plan.selected, plan.groups), Draft(req, split, plan);
      var root := Materialize(staging, r, req.visibility, chosen, precomputed, draft);
      var files := corpora[staging];
      Overwritten(before, staging, map[], files);
      Overwritten(before, staging, files, files);
      corpora := corpora - {staging};
      if destination in corpora {
        return Failed(DestinationExists);
      }
      corpora := corpora[destination := files];
      out := Built(draft.(root := root));
    }
  }
}
