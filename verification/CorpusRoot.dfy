/** The content address of a corpus: when it is the root over the files on disk, and what it does
    not depend on. */
module CorpusRoot {
  import opened Hashing
  import opened Ordering
  import opened Corpus
  import opened Snapshot
  import opened Wrappers
  import SnapshotFacts
  import Merkle

  // ---- the root over the files -----------------------------------------------------------------

  predicate Addressed(f: File) { f.TrajectoryFile? || f.PassRatesFile? }

  /** Some listing of the addressed files, each once. */
  ghost predicate Lists(names: seq<File>, files: Files) {
    Distinct(names) && forall f :: f in names <==> f in files && Addressed(f)
  }

  function HashIn(r: Rendering, files: Files): File -> string {
    (f: File) => if f in files then r.sha(files[f]) else ""
  }

  function RootTextOnDisk(r: Rendering, files: Files, names: seq<File>): string {
    Merkle.RootText(Apply(names, HashIn(r, files)))
  }

  function RootOnDisk(r: Rendering, files: Files, names: seq<File>): string {
    Merkle.Root(r.sha, Apply(names, HashIn(r, files)))
  }

  /** The files in the order they are written. */
  function WrittenNames(chosen: seq<Trajectory>): seq<File> {
    Apply(WriteOrder(chosen), FileOf) + [PassRatesFile]
  }

  function WrittenHashes(r: Rendering, visibility: Visibility, chosen: seq<Trajectory>): seq<string> {
    Hashes(r, visibility, WriteOrder(chosen)) + [r.sha(r.rates(RatesOf(chosen)))]
  }

  /** No two chosen episodes share mode and task. */
  ghost predicate OneEpisodePerFile(chosen: seq<Trajectory>) {
    Distinct(Apply(chosen, FileOf))
  }

  lemma AddressedAreWritten(r: Rendering, visibility: Visibility, chosen: seq<Trajectory>,
                            precomputed: Option<map<string, string>>, manifest: Manifest, f: File)
    ensures f in WrittenNames(chosen) <==> f in Materialized(r, visibility, chosen, precomputed, manifest) && Addressed(f)
  {
    if f.TrajectoryFile? {
      SnapshotFacts.FilesAreChosen(r, visibility, chosen, precomputed, manifest, f);
    } else {
      SnapshotFacts.MaterializedFacts(r, visibility, chosen, precomputed, manifest);
    }
    WrittenNamesMembers(chosen, f);
  }

  lemma WrittenNamesMembers(chosen: seq<Trajectory>, f: File)
    ensures f in WrittenNames(chosen) <==> f == PassRatesFile || exists t :: t in chosen && FileOf(t) == f
  {
    NamesOf(WriteOrder(chosen), f);
    SnapshotFacts.WriteOrderRearranges(chosen);
    MembersOfMultiset(WriteOrder(chosen), chosen);
    assert f in WrittenNames(chosen) <==> f in Apply(WriteOrder(chosen), FileOf) || f in [PassRatesFile];
  }

  lemma NamesOf(list: seq<Trajectory>, f: File)
    ensures f in Apply(list, FileOf) <==> exists t :: t in list && FileOf(t) == f
  {
    if t :| t in list && FileOf(t) == f {
      var i :| 0 <= i < |list| && list[i] == t;
      assert Apply(list, FileOf)[i] == f;
    }
    if f in Apply(list, FileOf) {
      var i :| 0 <= i < |list| && Apply(list, FileOf)[i] == f;
      assert list[i] in list && FileOf(list[i]) == f;
    }
  }

  lemma NamesAreDistinctWhenEpisodesAre(chosen: seq<Trajectory>)
    ensures OneEpisodePerFile(chosen) <==> Distinct(WrittenNames(chosen))
  {
    var names := Apply(WriteOrder(chosen), FileOf);
    SnapshotFacts.WriteOrderRearranges(chosen);
    ApplyIgnoresOrder(WriteOrder(chosen), chosen, FileOf);
    if OneEpisodePerFile(chosen) { DistinctOfMultiset(names, Apply(chosen, FileOf)); }
    if Distinct(names) { DistinctOfMultiset(Apply(chosen, FileOf), names); }
    forall f | f in names ensures f.TrajectoryFile? { NamesOf(WriteOrder(chosen), f); }
    DistinctSnoc(names, PassRatesFile);
  }

  /** When every file was written once, the files hash to what was collected while writing. */
  lemma {:induction false} WrittenOnceKeepsBytes(r: Rendering, visibility: Visibility, list: seq<Trajectory>, i: nat)
    requires i < |list| && Distinct(Apply(list, FileOf))
    ensures FileOf(list[i]) in Written(r, visibility, list)
    ensures Written(r, visibility, list)[FileOf(list[i])] == Bytes(r, visibility, list[i])
  {
    var front, last := list[..|list| - 1], list[|list| - 1];
    if i < |list| - 1 {
      var names, frontNames := Apply(list, FileOf), Apply(front, FileOf);
      assert names[i] != names[|list| - 1];
      assert frontNames == names[..|front|];
      WrittenOnceKeepsBytes(r, visibility, front, i);
    }
  }

  lemma DiskHashesAreWrittenHashes(r: Rendering, visibility: Visibility, chosen: seq<Trajectory>,
                                   precomputed: Option<map<string, string>>, manifest: Manifest)
    requires OneEpisodePerFile(chosen)
    ensures Apply(WrittenNames(chosen), HashIn(r, Materialized(r, visibility, chosen, precomputed, manifest)))
         == WrittenHashes(r, visibility, chosen)
  {
    var list, names, files := WriteOrder(chosen), WrittenNames(chosen), Materialized(r, visibility, chosen, precomputed, manifest);
    var onDisk, written := Apply(names, HashIn(r, files)), WrittenHashes(r, visibility, chosen);
    forall i | 0 <= i < |names| ensures onDisk[i] == written[i] {
      if i < |list| {
        OneEpisode(r, visibility, chosen, precomputed, manifest, i);
      } else {
        SnapshotFacts.MaterializedFacts(r, visibility, chosen, precomputed, manifest);
      }
    }
  }

  lemma OneEpisode(r: Rendering, visibility: Visibility, chosen: seq<Trajectory>,
                   precomputed: Option<map<string, string>>, manifest: Manifest, i: nat)
    requires OneEpisodePerFile(chosen) && i < |WriteOrder(chosen)|
    ensures WrittenNames(chosen)[i] == FileOf(WriteOrder(chosen)[i])
    ensures var files := Materialized(r, visibility, chosen, precomputed, manifest);
      FileOf(WriteOrder(chosen)[i]) in files && files[FileOf(WriteOrder(chosen)[i])] == Bytes(r, visibility, WriteOrder(chosen)[i])
  {
    var list := WriteOrder(chosen);
    SnapshotFacts.WriteOrderRearranges(chosen);
    ApplyIgnoresOrder(list, chosen, FileOf);
    DistinctOfMultiset(Apply(list, FileOf), Apply(chosen, FileOf));
    WrittenOnceKeepsBytes(r, visibility, list, i);
    SnapshotFacts.TrajectoryFilesAreWritten(r, visibility, chosen, precomputed, manifest, FileOf(list[i]));
  }

  /** The root in the manifest is the root over the trajectory and pass-rate files on disk, read in
      any order, exactly when no two chosen episodes share a file. */
  lemma RootIsOnDiskIffOneEpisodePerFile(r: Rendering, visibility: Visibility, chosen: seq<Trajectory>,
                                         precomputed: Option<map<string, string>>, manifest: Manifest, names: seq<File>)
    requires Lists(names, Materialized(r, visibility, chosen, precomputed, manifest))
    requires Digest(r.sha, iset{RootTextOnDisk(r, Materialized(r, visibility, chosen, precomputed, manifest), names),
                                Merkle.RootText(WrittenHashes(r, visibility, chosen))})
    ensures RootOnDisk(r, Materialized(r, visibility, chosen, precomputed, manifest), names) == RootOf(r, visibility, chosen)
       <==> OneEpisodePerFile(chosen)
  {
    var files := Materialized(r, visibility, chosen, precomputed, manifest);
    forall f ensures f in names <==> f in WrittenNames(chosen) {
      AddressedAreWritten(r, visibility, chosen, precomputed, manifest, f);
    }
    NamesAreDistinctWhenEpisodesAre(chosen);
    if OneEpisodePerFile(chosen) {
      RootMatches(r, visibility, chosen, precomputed, manifest, names);
    } else {
      RootDiffers(r, visibility, chosen, files, names);
    }
  }

  lemma RootMatches(r: Rendering, visibility: Visibility, chosen: seq<Trajectory>,
                    precomputed: Option<map<string, string>>, manifest: Manifest, names: seq<File>)
    requires OneEpisodePerFile(chosen) && Distinct(names) && Distinct(WrittenNames(chosen))
    requires forall f :: f in names <==> f in WrittenNames(chosen)
    ensures RootOnDisk(r, Materialized(r, visibility, chosen, precomputed, manifest), names) == RootOf(r, visibility, chosen)
  {
    var files := Materialized(r, visibility, chosen, precomputed, manifest);
    SameElements(names, WrittenNames(chosen));
    ApplyIgnoresOrder(names, WrittenNames(chosen), HashIn(r, files));
    DiskHashesAreWrittenHashes(r, visibility, chosen, precomputed, manifest);
    Merkle.RootIgnoresOrder(r.sha, Apply(names, HashIn(r, files)), WrittenHashes(r, visibility, chosen));
  }

  lemma RootDiffers(r: Rendering, visibility: Visibility, chosen: seq<Trajectory>, files: Files, names: seq<File>)
    requires Digest(r.sha, iset{RootTextOnDisk(r, files, names), Merkle.RootText(WrittenHashes(r, visibility, chosen))})
    requires Distinct(names) && !Distinct(WrittenNames(chosen))
    requires forall f :: f in names <==> f in WrittenNames(chosen)
    requires forall f :: f in names ==> f in files
    ensures RootOnDisk(r, files, names) != RootOf(r, visibility, chosen)
  {
    assert PassRatesFile in WrittenNames(chosen) by { WrittenNamesMembers(chosen, PassRatesFile); }
    ElementsSize(names);
    ElementsSize(WrittenNames(chosen));
    assert Elements(names) == Elements(WrittenNames(chosen));
    var onDisk, written := Apply(names, HashIn(r, files)), WrittenHashes(r, visibility, chosen);
    assert |onDisk| < |written|;
    forall h | h in onDisk || h in written ensures |h| == 64 { DigestsOnly(r, visibility, chosen, files, names, h); }
    assert |multiset(onDisk)| == |onDisk| && |multiset(written)| == |written|;
    Merkle.RootDeterminesHashes(r.sha, onDisk, written);
  }

  lemma DigestsOnly(r: Rendering, visibility: Visibility, chosen: seq<Trajectory>, files: Files, names: seq<File>, h: string)
    requires (forall x :: |r.sha(x)| == 64) && forall f :: f in names ==> f in files
    requires h in Apply(names, HashIn(r, files)) || h in WrittenHashes(r, visibility, chosen)
    ensures |h| == 64
  {
    if h in Apply(names, HashIn(r, files)) {
      var i :| 0 <= i < |names| && Apply(names, HashIn(r, files))[i] == h;
      assert names[i] in names;
      assert h == r.sha(files[names[i]]);
    } else if h in Hashes(r, visibility, WriteOrder(chosen)) {
      var i :| 0 <= i < |WriteOrder(chosen)| && Hashes(r, visibility, WriteOrder(chosen))[i] == h;
      assert h == r.sha(Bytes(r, visibility, WriteOrder(chosen)[i]));
    } else {
      assert h == r.sha(r.rates(RatesOf(chosen)));
    }
  }

  // ---- the root as an address ----------------------------------------------------------------------

  function BytesOf(r: Rendering, visibility: Visibility): Trajectory -> string {
    (t: Trajectory) => Bytes(r, visibility, t)
  }

  /** What the root is taken over: the bytes of every chosen episode and of the pass rates. */
  function Contents(r: Rendering, visibility: Visibility, chosen: seq<Trajectory>): seq<string> {
    Apply(WriteOrder(chosen), BytesOf(r, visibility)) + [r.rates(RatesOf(chosen))]
  }

  /** Every text that is hashed on the way to the root. */
  ghost function Hashed(r: Rendering, visibility: Visibility, chosen: seq<Trajectory>): iset<string> {
    (iset text | text in Contents(r, visibility, chosen)) + iset{Merkle.RootText(WrittenHashes(r, visibility, chosen))}
  }

  lemma HashesOfContents(r: Rendering, visibility: Visibility, chosen: seq<Trajectory>)
    requires forall x :: |r.sha(x)| == 64
    ensures WrittenHashes(r, visibility, chosen) == Apply(Contents(r, visibility, chosen), r.sha)
    ensures Merkle.AreDigests(WrittenHashes(r, visibility, chosen))
  {
    var hashes, applied := WrittenHashes(r, visibility, chosen), Apply(Contents(r, visibility, chosen), r.sha);
    forall i | 0 <= i < |hashes| ensures hashes[i] == applied[i] {
      if i < |WriteOrder(chosen)| {
        assert Contents(r, visibility, chosen)[i] == Bytes(r, visibility, WriteOrder(chosen)[i]);
      }
    }
    assert hashes == applied;
  }

  /** Two roots are equal exactly when the same pieces of text were hashed, each as often, whatever
      the selection and the visibility asked for. Names, and all other files, are outside the root. */
  lemma RootAddressesContent(r: Rendering, visibility: Visibility, chosen: seq<Trajectory>,
                             visibility': Visibility, chosen': seq<Trajectory>)
    requires Digest(r.sha, Hashed(r, visibility, chosen) + Hashed(r, visibility', chosen'))
    ensures RootOf(r, visibility, chosen) == RootOf(r, visibility', chosen')
       <==> multiset(Contents(r, visibility, chosen)) == multiset(Contents(r, visibility', chosen'))
  {
    var mine, yours := Contents(r, visibility, chosen), Contents(r, visibility', chosen');
    var texts := Hashed(r, visibility, chosen) + Hashed(r, visibility', chosen');
    HashesOfContents(r, visibility, chosen);
    HashesOfContents(r, visibility', chosen');
    SameTexts(r.sha, texts, mine, yours);
  }

  lemma TellsApart(sha: string -> string, texts: iset<string>, known: seq<string>)
    requires Digest(sha, texts) && forall text :: text in known ==> text in texts
    ensures InjectiveOn(known, sha)
  {
  }

  lemma SameTexts(sha: string -> string, texts: iset<string>, mine: seq<string>, yours: seq<string>)
    requires Digest(sha, texts) && forall text :: text in mine || text in yours ==> text in texts
    requires Merkle.RootText(Apply(mine, sha)) in texts && Merkle.RootText(Apply(yours, sha)) in texts
    requires Merkle.AreDigests(Apply(mine, sha)) && Merkle.AreDigests(Apply(yours, sha))
    ensures Merkle.Root(sha, Apply(mine, sha)) == Merkle.Root(sha, Apply(yours, sha)) <==> multiset(mine) == multiset(yours)
  {
    Merkle.RootDeterminesHashes(sha, Apply(mine, sha), Apply(yours, sha));
    if multiset(mine) == multiset(yours) {
      ApplyIgnoresOrder(mine, yours, sha);
    }
    if multiset(Apply(mine, sha)) == multiset(Apply(yours, sha)) {
      TellsApart(sha, texts, mine + yours);
      ApplyInjective(mine, yours, sha);
    }
  }

  // ---- the root as an address of what is on disk ------------------------------------------------------

  /** An episode's text shows its mode and task, and is never mistaken for the pass rates. */
  ghost predicate Legible(r: Rendering) {
    && (forall e, e' :: r.episode(e) == r.episode(e') ==> e.mode == e'.mode && e.task == e'.task)
    && forall e, rates :: r.episode(e) != r.rates(rates)
  }

  /** The same trajectory files and pass rates, under the same names. */
  ghost predicate SameAddressed(files: Files, files': Files) {
    forall f :: Addressed(f) ==> (f in files <==> f in files') && (f in files && f in files' ==> files[f] == files'[f])
  }

  function BytesIn(files: Files): File -> string {
    (f: File) => if f in files then files[f] else ""
  }

  lemma ContentsAreOnDisk(r: Rendering, visibility: Visibility, chosen: seq<Trajectory>,
                          precomputed: Option<map<string, string>>, manifest: Manifest)
    requires OneEpisodePerFile(chosen)
    ensures Apply(WrittenNames(chosen), BytesIn(Materialized(r, visibility, chosen, precomputed, manifest)))
         == Contents(r, visibility, chosen)
  {
    var files, names := Materialized(r, visibility, chosen, precomputed, manifest), WrittenNames(chosen);
    var onDisk, contents := Apply(names, BytesIn(files)), Contents(r, visibility, chosen);
    forall i | 0 <= i < |names| ensures onDisk[i] == contents[i] {
      if i < |WriteOrder(chosen)| {
        OneEpisode(r, visibility, chosen, precomputed, manifest, i);
      } else {
        SnapshotFacts.MaterializedFacts(r, visibility, chosen, precomputed, manifest);
      }
    }
  }

  /** The bytes tell which file they belong to. */
  lemma BytesTellName(r: Rendering, visibility: Visibility, chosen: seq<Trajectory>, visibility': Visibility, chosen': seq<Trajectory>,
                      i: nat, j: nat)
    requires Legible(r) && i < |WrittenNames(chosen)| && j < |WrittenNames(chosen')|
    requires Contents(r, visibility, chosen)[i] == Contents(r, visibility', chosen')[j]
    ensures WrittenNames(chosen)[i] == WrittenNames(chosen')[j]
  {
    var list, list' := WriteOrder(chosen), WriteOrder(chosen');
    if i < |list| && j < |list'| {
      assert r.episode(Visible(list[i], visibility)) == r.episode(Visible(list'[j], visibility'));
    }
  }

  /** The files hold the hashed texts, each under its name, and no other addressed file is there. */
  ghost predicate OnDisk(r: Rendering, visibility: Visibility, chosen: seq<Trajectory>, files: Files) {
    && Apply(WrittenNames(chosen), BytesIn(files)) == Contents(r, visibility, chosen)
    && Distinct(WrittenNames(chosen))
    && forall f :: f in WrittenNames(chosen) <==> f in files && Addressed(f)
  }

  lemma MaterializedOnDisk(r: Rendering, visibility: Visibility, chosen: seq<Trajectory>,
                           precomputed: Option<map<string, string>>, manifest: Manifest)
    requires OneEpisodePerFile(chosen)
    ensures OnDisk(r, visibility, chosen, Materialized(r, visibility, chosen, precomputed, manifest))
  {
    ContentsAreOnDisk(r, visibility, chosen, precomputed, manifest);
    NamesAreDistinctWhenEpisodesAre(chosen);
    forall f ensures f in WrittenNames(chosen) <==> f in Materialized(r, visibility, chosen, precomputed, manifest) && Addressed(f) {
      AddressedAreWritten(r, visibility, chosen, precomputed, manifest, f);
    }
  }

  lemma AddressedCarriesOver(r: Rendering, visibility: Visibility, chosen: seq<Trajectory>, files: Files,
                             visibility': Visibility, chosen': seq<Trajectory>, files': Files, f: File)
    requires Legible(r) && OnDisk(r, visibility, chosen, files) && OnDisk(r, visibility', chosen', files')
    requires multiset(Contents(r, visibility, chosen)) == multiset(Contents(r, visibility', chosen'))
    requires f in WrittenNames(chosen)
    ensures f in files && f in files' && files[f] == files'[f]
  {
    var names, names' := WrittenNames(chosen), WrittenNames(chosen');
    var mine, yours := Contents(r, visibility, chosen), Contents(r, visibility', chosen');
    var i :| 0 <= i < |names| && names[i] == f;
    MembersOfMultiset(mine, yours);
    assert Apply(names, BytesIn(files))[i] == mine[i] && mine[i] in mine;
    var j :| 0 <= j < |yours| && yours[j] == mine[i];
    assert Apply(names', BytesIn(files'))[j] == yours[j];
    BytesTellName(r, visibility, chosen, visibility', chosen', i, j);
  }

  lemma SameContentsSameFiles(r: Rendering, visibility: Visibility, chosen: seq<Trajectory>, files: Files,
                              visibility': Visibility, chosen': seq<Trajectory>, files': Files)
    requires Legible(r) && OnDisk(r, visibility, chosen, files) && OnDisk(r, visibility', chosen', files')
    requires multiset(Contents(r, visibility, chosen)) == multiset(Contents(r, visibility', chosen'))
    ensures SameAddressed(files, files')
  {
    forall f | Addressed(f)
      ensures (f in files <==> f in files') && (f in files && f in files' ==> files[f] == files'[f])
    {
      if f in files { AddressedCarriesOver(r, visibility, chosen, files, visibility', chosen', files', f); }
      if f in files' { AddressedCarriesOver(r, visibility', chosen', files', visibility, chosen, files, f); }
    }
  }

  lemma SameLookups(names: seq<File>, names': seq<File>, files: Files, files': Files)
    requires Distinct(names) && Distinct(names') && forall f :: f in names <==> f in names'
    requires forall f :: f in names' ==> BytesIn(files)(f) == BytesIn(files')(f)
    ensures multiset(Apply(names, BytesIn(files))) == multiset(Apply(names', BytesIn(files')))
  {
    SameElements(names, names');
    ApplyIgnoresOrder(names, names', BytesIn(files));
    forall i | 0 <= i < |names'| ensures BytesIn(files)(names'[i]) == BytesIn(files')(names'[i]) {
      assert names'[i] in names';
    }
    assert Apply(names', BytesIn(files)) == Apply(names', BytesIn(files'));
  }

  lemma SameFilesSameContents(r: Rendering, visibility: Visibility, chosen: seq<Trajectory>, files: Files,
                              visibility': Visibility, chosen': seq<Trajectory>, files': Files)
    requires OnDisk(r, visibility, chosen, files) && OnDisk(r, visibility', chosen', files') && SameAddressed(files, files')
    ensures multiset(Contents(r, visibility, chosen)) == multiset(Contents(r, visibility', chosen'))
  {
    forall f ensures f in WrittenNames(chosen) <==> f in WrittenNames(chosen') {}
    SameLookups(WrittenNames(chosen), WrittenNames(chosen'), files, files');
  }

  /** Two corpora with one episode per file have the same root exactly when they have the same trajectory
      files and pass rates on disk, name by name. */
  lemma RootAddressesDisk(r: Rendering, visibility: Visibility, chosen: seq<Trajectory>, precomputed: Option<map<string, string>>,
                          manifest: Manifest, visibility': Visibility, chosen': seq<Trajectory>,
                          precomputed': Option<map<string, string>>, manifest': Manifest)
    requires Legible(r) && Digest(r.sha, Hashed(r, visibility, chosen) + Hashed(r, visibility', chosen'))
    requires OneEpisodePerFile(chosen) && OneEpisodePerFile(chosen')
    ensures RootOf(r, visibility, chosen) == RootOf(r, visibility', chosen')
       <==> SameAddressed(Materialized(r, visibility, chosen, precomputed, manifest),
                          Materialized(r, visibility', chosen', precomputed', manifest'))
  {
    var files := Materialized(r, visibility, chosen, precomputed, manifest);
    var files' := Materialized(r, visibility', chosen', precomputed', manifest');
    RootAddressesContent(r, visibility, chosen, visibility', chosen');
    MaterializedOnDisk(r, visibility, chosen, precomputed, manifest);
    MaterializedOnDisk(r, visibility', chosen', precomputed', manifest');
    if multiset(Contents(r, visibility, chosen)) == multiset(Contents(r, visibility', chosen')) {
      SameContentsSameFiles(r, visibility, chosen, files, visibility', chosen', files');
    }
    if SameAddressed(files, files') {
      SameFilesSameContents(r, visibility, chosen, files, visibility', chosen', files');
    }
  }
}
