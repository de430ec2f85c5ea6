/** The contrast reports in plain counts over the input: who won, how often a predicate held on either
    side, in which order the rows come, and whose ids are shown. */
module ContrastCounts {
  import opened Contrast
  import opened ContrastFacts
  import opened Ordering
  import opened Wrappers
  import Fisher
  import McNemar

  // ---- winners and losers -------------------------------------------------------------------------

  lemma WinsAndLosses(trajectories: seq<Trajectory>, threshold: real)
    ensures |Filter(Sort(trajectories, IdLe), Wins(threshold))|
         == |set i: nat | i < |trajectories| && trajectories[i].reward > threshold|
    ensures |Filter(Sort(trajectories, IdLe), Loses(threshold))|
         == |set i: nat | i < |trajectories| && trajectories[i].reward <= threshold|
  {
    SortPermutes(trajectories, IdLe);
    CountIgnoresOrder(Sort(trajectories, IdLe), trajectories, Wins(threshold));
    CountIgnoresOrder(Sort(trajectories, IdLe), trajectories, Loses(threshold));
    FilterCounts(trajectories, Wins(threshold), set i: nat | i < |trajectories| && trajectories[i].reward > threshold);
    FilterCounts(trajectories, Loses(threshold), set i: nat | i < |trajectories| && trajectories[i].reward <= threshold);
  }

  /** Winners are the trajectories above the threshold, losers the rest. */
  lemma UnpairedWins(trajectories: seq<Trajectory>, predicates: Predicates, q: real, threshold: real, maxEvidence: int)
    ensures var r := UnpairedReport(FisherTest, trajectories, predicates, q, threshold, maxEvidence);
      && r.wins == |set i: nat | i < |trajectories| && trajectories[i].reward > threshold|
      && r.losses == |set i: nat | i < |trajectories| && trajectories[i].reward <= threshold|
      && !r.paired && r.status == if r.wins == 0 || r.losses == 0 then NoContrast else Ok
  {
    WinsAndLosses(trajectories, threshold);
  }

  lemma HitsInInput(trajectories: seq<Trajectory>, threshold: real, p: Trajectory -> bool)
    ensures var t := TableIn(trajectories, p, threshold);
      && t.a == |set i: nat | i < |trajectories| && trajectories[i].reward > threshold && p(trajectories[i])|
      && t.c == |set i: nat | i < |trajectories| && trajectories[i].reward <= threshold && p(trajectories[i])|
      && t.a + t.b == |set i: nat | i < |trajectories| && trajectories[i].reward > threshold|
      && t.c + t.d == |set i: nat | i < |trajectories| && trajectories[i].reward <= threshold|
  {
    FilterCounts(trajectories, Both(Wins(threshold), p),
                 set i: nat | i < |trajectories| && trajectories[i].reward > threshold && p(trajectories[i]));
    FilterCounts(trajectories, Both(Loses(threshold), p),
                 set i: nat | i < |trajectories| && trajectories[i].reward <= threshold && p(trajectories[i]));
    TableIsInInput(trajectories, p, threshold);
    WinsAndLosses(trajectories, threshold);
    FilterShorter(Filter(Sort(trajectories, IdLe), Wins(threshold)), p);
    FilterShorter(Filter(Sort(trajectories, IdLe), Loses(threshold)), p);
  }

  /** A row says how often its predicate held among the winners and among the losers, and tests that. */
  lemma UnpairedRowCounts(trajectories: seq<Trajectory>, predicates: Predicates, q: real, threshold: real, maxEvidence: int,
                          row: Row, wins: nat, losses: nat, won: nat, lost: nat)
    requires row in UnpairedReport(FisherTest, trajectories, predicates, q, threshold, maxEvidence).rows
    requires row.entry.name in predicates
    requires wins == |set i: nat | i < |trajectories| && trajectories[i].reward > threshold|
    requires losses == |set i: nat | i < |trajectories| && trajectories[i].reward <= threshold|
    requires won == |set i: nat | i < |trajectories| && trajectories[i].reward > threshold && predicates[row.entry.name](trajectories[i])|
    requires lost == |set i: nat | i < |trajectories| && trajectories[i].reward <= threshold && predicates[row.entry.name](trajectories[i])|
    ensures won <= wins && lost <= losses && 0 < wins && 0 < losses
    ensures row.entry.nWin == won && row.entry.nLoss == lost
    ensures row.entry.PWin() == won as real / wins as real && row.entry.PLoss() == lost as real / losses as real
    ensures row.entry.Lift() == won as real / wins as real - lost as real / losses as real
    ensures row.entry.pValue == Fisher.FisherExact(won, wins - won, lost, losses - lost)
    ensures row.testUsed == "fisher_exact"
  {
    var p := predicates[row.entry.name];
    UnpairedRowsTestTheirTables(FisherTest, trajectories, predicates, q, threshold, maxEvidence, row);
    HitsInInput(trajectories, threshold, p);
    WinsAndLosses(trajectories, threshold);
    var test: TableTest := FisherTest;
    assert test(TableIn(trajectories, p, threshold)) == FisherTest(TableIn(trajectories, p, threshold));
    var winners, losers := UnpairedRowEntry(trajectories, predicates, q, threshold, maxEvidence, row);
  }

  lemma RowNamesTest(raw: seq<Entry>, q: real, test: string, row: Row)
    requires row in Finished(raw, q, test)
    ensures row.testUsed == test
  {
    SortMembers(Labelled(raw, Verdicts(PValues(raw), q), test), RowLe);
  }

  // ---- the two arms ---------------------------------------------------------------------------------

  /** A pair counts as won when its think arm is above the threshold. */
  lemma PairedWins(trajectories: seq<Trajectory>, predicates: Predicates, q: real, threshold: real, maxEvidence: int, pairs: seq<Pair>)
    requires pairs == PairsIn(trajectories)
    ensures var r := PairedReport(McNemar.McNemarExact, trajectories, predicates, q, threshold, maxEvidence);
      && r.wins == |set i: nat | i < |pairs| && pairs[i].think.reward > threshold|
      && r.wins + r.losses == |pairs| && r.paired && r.status == if pairs == [] then NoPairs else Ok
  {
    FilterCounts(pairs, ThinkWins(threshold), set i: nat | i < |pairs| && pairs[i].think.reward > threshold);
    FilterShorter(pairs, ThinkWins(threshold));
  }

  /** A row of the paired report counts the pairs whose arms differ on its predicate, either way. */
  lemma PairedRowCounts(trajectories: seq<Trajectory>, predicates: Predicates, q: real, threshold: real, maxEvidence: int,
                        row: Row, pairs: seq<Pair>, p: Trajectory -> bool)
    requires row in PairedReport(McNemar.McNemarExact, trajectories, predicates, q, threshold, maxEvidence).rows
    requires pairs == PairsIn(trajectories) && row.entry.name in predicates && p == predicates[row.entry.name]
    ensures pairs != [] && row.testUsed == "mcnemar_exact"
    ensures row.entry.nWin == |set i: nat | i < |pairs| && p(pairs[i].think) && !p(pairs[i].noThink)|
    ensures row.entry.nLoss == |set i: nat | i < |pairs| && p(pairs[i].noThink) && !p(pairs[i].think)|
    ensures row.entry.PWin() == |set i: nat | i < |pairs| && p(pairs[i].think)| as real / |pairs| as real
    ensures row.entry.PLoss() == |set i: nat | i < |pairs| && p(pairs[i].noThink)| as real / |pairs| as real
    ensures row.entry.Lift() == row.entry.PWin() - row.entry.PLoss()
    ensures row.entry.pValue == McNemar.McNemarExact(row.entry.nWin, row.entry.nLoss)
  {
    PairedRowEntry(trajectories, predicates, q, threshold, maxEvidence, row, pairs);
    PairedEntryIs(pairs, row.entry.name, p, maxEvidence, row.entry);
    PairCounts(pairs, p);
  }

  lemma PairedRowEntry(trajectories: seq<Trajectory>, predicates: Predicates, q: real, threshold: real, maxEvidence: int,
                       row: Row, pairs: seq<Pair>)
    requires row in PairedReport(McNemar.McNemarExact, trajectories, predicates, q, threshold, maxEvidence).rows
    requires pairs == PairsIn(trajectories) && row.entry.name in predicates
    ensures pairs != [] && row.testUsed == "mcnemar_exact"
    ensures PairedEntry(McNemar.McNemarExact, pairs, row.entry.name, predicates[row.entry.name], maxEvidence) == Some(row.entry)
  {
    PairedRowsAre(trajectories, predicates, q, threshold, maxEvidence, pairs);
    var entry := PairedEntryOf(McNemar.McNemarExact, pairs, predicates, maxEvidence);
    var name := RowComesFromEntry(Listing(predicates.Keys), entry, q, "mcnemar_exact", row);
    RowNamesTest(Collected(Listing(predicates.Keys), entry), q, "mcnemar_exact", row);
    PairedEntryIsNamed(pairs, predicates, maxEvidence, name, row.entry);
  }

  lemma PairedRowsAre(trajectories: seq<Trajectory>, predicates: Predicates, q: real, threshold: real, maxEvidence: int, pairs: seq<Pair>)
    requires PairedReport(McNemar.McNemarExact, trajectories, predicates, q, threshold, maxEvidence).rows != []
    requires pairs == PairsIn(trajectories)
    ensures pairs != []
    ensures PairedReport(McNemar.McNemarExact, trajectories, predicates, q, threshold, maxEvidence).rows
         == Finished(Collected(Listing(predicates.Keys), PairedEntryOf(McNemar.McNemarExact, pairs, predicates, maxEvidence)), q,
                     "mcnemar_exact")
  {
  }

  lemma PairedEntryIsNamed(pairs: seq<Pair>, predicates: Predicates, maxEvidence: int, name: string, e: Entry)
    requires pairs != [] && PairedEntryOf(McNemar.McNemarExact, pairs, predicates, maxEvidence)(name) == Some(e)
    ensures e.name == name && name in predicates
    ensures PairedEntry(McNemar.McNemarExact, pairs, name, predicates[name], maxEvidence) == Some(e)
  {
  }

  lemma PairCounts(pairs: seq<Pair>, p: Trajectory -> bool)
    ensures |Filter(pairs, OnlyThink(p))| == |set i: nat | i < |pairs| && p(pairs[i].think) && !p(pairs[i].noThink)|
    ensures |Filter(pairs, OnlyNoThink(p))| == |set i: nat | i < |pairs| && p(pairs[i].noThink) && !p(pairs[i].think)|
    ensures |Filter(pairs, InThink(p))| == |set i: nat | i < |pairs| && p(pairs[i].think)|
    ensures |Filter(pairs, InNoThink(p))| == |set i: nat | i < |pairs| && p(pairs[i].noThink)|
  {
    FilterCounts(pairs, OnlyThink(p), set i: nat | i < |pairs| && p(pairs[i].think) && !p(pairs[i].noThink));
    FilterCounts(pairs, OnlyNoThink(p), set i: nat | i < |pairs| && p(pairs[i].noThink) && !p(pairs[i].think));
    FilterCounts(pairs, InThink(p), set i: nat | i < |pairs| && p(pairs[i].think));
    FilterCounts(pairs, InNoThink(p), set i: nat | i < |pairs| && p(pairs[i].noThink));
  }

  lemma PairedEntryIs(pairs: seq<Pair>, name: string, p: Trajectory -> bool, maxEvidence: int, e: Entry)
    requires pairs != [] && PairedEntry(McNemar.McNemarExact, pairs, name, p, maxEvidence) == Some(e)
    ensures e.nWin == |Filter(pairs, OnlyThink(p))| && e.nLoss == |Filter(pairs, OnlyNoThink(p))|
    ensures e.hitsWin == |Filter(pairs, InThink(p))| && e.hitsLoss == |Filter(pairs, InNoThink(p))| && e.ofWin == e.ofLoss == |pairs|
    ensures e.pValue == McNemar.McNemarExact(e.nWin, e.nLoss)
  {
    var test: PairTest := McNemar.McNemarExact;
    assert test(e.nWin, e.nLoss) == McNemar.McNemarExact(e.nWin, e.nLoss);
  }

  // ---- the order of the rows --------------------------------------------------------------------------

  /** The most significant row first, then the larger effect, whatever its sign, then the name. */
  lemma RowsInOrder(raw: seq<Entry>, q: real, test: string, i: nat, j: nat, x: Row, y: Row)
    requires i < j < |Finished(raw, q, test)| && x == Finished(raw, q, test)[i] && y == Finished(raw, q, test)[j]
    ensures x.adjusted <= y.adjusted
    ensures x.adjusted == y.adjusted ==> var lx, ly := x.entry.Lift(), y.entry.Lift();
      (lx >= ly && lx >= -ly) || (-lx >= ly && -lx >= -ly)
    ensures x.adjusted == y.adjusted && (x.entry.Lift() == y.entry.Lift() || x.entry.Lift() == -y.entry.Lift()) ==>
      StringLe(x.entry.name, y.entry.name)
  {
    FinishedIsSorted(raw, q, test);
    assert RowLe(x, y);
  }

  // ---- evidence -----------------------------------------------------------------------------------------

  /** The first `won` ids are of winners and the others of losers for which the predicate holds. */
  ghost predicate ShowsSides(trajectories: seq<Trajectory>, threshold: real, p: Trajectory -> bool, won: nat, evidence: seq<string>) {
    forall k :: 0 <= k < |evidence| ==> IsShown(trajectories, threshold, p, evidence[k], k < won)
  }

  ghost predicate IsShown(trajectories: seq<Trajectory>, threshold: real, p: Trajectory -> bool, id: string, won: bool) {
    exists t :: t in trajectories && t.id == id && p(t) && (t.reward > threshold <==> won)
  }

  ghost predicate EachSideById(won: nat, evidence: seq<string>) {
    forall j, k :: 0 <= j < k < |evidence| && (j < won <==> k < won) ==> StringLe(evidence[j], evidence[k])
  }

  /** No trajectory left out comes before one of its side that is shown. */
  ghost predicate LeastOfSide(trajectories: seq<Trajectory>, threshold: real, p: Trajectory -> bool, won: nat, evidence: seq<string>) {
    forall t, k :: t in trajectories && p(t) && t.id !in evidence && 0 <= k < |evidence| && (t.reward > threshold <==> k < won) ==>
      StringLe(evidence[k], t.id)
  }

  /** The ids shown: first winners, then losers, for which the predicate holds, each by id; as many as
      there are and are allowed, and the least of either side. */
  lemma EvidenceInOrder(trajectories: seq<Trajectory>, threshold: real, p: Trajectory -> bool, maxEvidence: nat, won: nat, lost: nat,
                        evidence: seq<string>)
    requires won == |set i: nat | i < |trajectories| && trajectories[i].reward > threshold && p(trajectories[i])|
    requires lost == |set i: nat | i < |trajectories| && trajectories[i].reward <= threshold && p(trajectories[i])|
    requires var ordered := Sort(trajectories, IdLe);
      evidence == Evidence(Filter(ordered, Wins(threshold)), Filter(ordered, Loses(threshold)), p, maxEvidence)
    ensures |evidence| == if won + lost < maxEvidence then won + lost else maxEvidence
    ensures ShowsSides(trajectories, threshold, p, won, evidence) && EachSideById(won, evidence)
    ensures LeastOfSide(trajectories, threshold, p, won, evidence)
  {
    var w, l := Sides(trajectories, threshold, p, maxEvidence, won, lost, evidence);
    EvidenceIs(trajectories, threshold, p, maxEvidence, w, l, evidence);
  }

  /** And these are the ids a row shows. */
  lemma UnpairedRowEvidence(trajectories: seq<Trajectory>, predicates: Predicates, q: real, threshold: real, maxEvidence: nat,
                            row: Row, p: Trajectory -> bool)
    requires row in UnpairedReport(FisherTest, trajectories, predicates, q, threshold, maxEvidence).rows
    requires row.entry.name in predicates && p == predicates[row.entry.name]
    ensures var won, shown := row.entry.nWin, row.entry.evidence;
      && |shown| == (if won + row.entry.nLoss < maxEvidence then won + row.entry.nLoss else maxEvidence)
      && ShowsSides(trajectories, threshold, p, won, shown) && EachSideById(won, shown)
      && LeastOfSide(trajectories, threshold, p, won, shown)
  {
    var winners, losers := UnpairedRowEntry(trajectories, predicates, q, threshold, maxEvidence, row);
    EvidenceOfEntry(winners, losers, row.entry.name, p, maxEvidence, row.entry);
    TableIsInInput(trajectories, p, threshold);
    HitsInInput(trajectories, threshold, p);
    EvidenceInOrder(trajectories, threshold, p, maxEvidence, row.entry.nWin, row.entry.nLoss, row.entry.evidence);
  }

  lemma EvidenceOfEntry(winners: seq<Trajectory>, losers: seq<Trajectory>, name: string, p: Trajectory -> bool, maxEvidence: int, e: Entry)
    requires UnpairedEntry(FisherTest, winners, losers, name, p, maxEvidence) == Some(e)
    ensures e.evidence == Evidence(winners, losers, p, maxEvidence)
    ensures e.nWin == TableOf(winners, losers, p).a && e.nLoss == TableOf(winners, losers, p).c
  {
  }

  lemma UnpairedRowsAre(trajectories: seq<Trajectory>, predicates: Predicates, q: real, threshold: real, maxEvidence: int)
      returns (winners: seq<Trajectory>, losers: seq<Trajectory>)
    requires UnpairedReport(FisherTest, trajectories, predicates, q, threshold, maxEvidence).rows != []
    ensures var ordered := Sort(trajectories, IdLe); winners == Filter(ordered, Wins(threshold)) && losers == Filter(ordered, Loses(threshold))
    ensures UnpairedReport(FisherTest, trajectories, predicates, q, threshold, maxEvidence).rows
         == Finished(Collected(Listing(predicates.Keys), UnpairedEntryOf(FisherTest, winners, losers, predicates, maxEvidence)), q,
                     "fisher_exact")
  {
    winners, losers := Filter(Sort(trajectories, IdLe), Wins(threshold)), Filter(Sort(trajectories, IdLe), Loses(threshold));
  }

  lemma UnpairedEntryIsNamed(winners: seq<Trajectory>, losers: seq<Trajectory>, predicates: Predicates, maxEvidence: int, name: string,
                             e: Entry)
    requires UnpairedEntryOf(FisherTest, winners, losers, predicates, maxEvidence)(name) == Some(e)
    ensures e.name == name && name in predicates
    ensures UnpairedEntry(FisherTest, winners, losers, name, predicates[name], maxEvidence) == Some(e)
  {
  }

  lemma UnpairedRowEntry(trajectories: seq<Trajectory>, predicates: Predicates, q: real, threshold: real, maxEvidence: int, row: Row)
      returns (winners: seq<Trajectory>, losers: seq<Trajectory>)
    requires row in UnpairedReport(FisherTest, trajectories, predicates, q, threshold, maxEvidence).rows
    ensures var ordered := Sort(trajectories, IdLe); winners == Filter(ordered, Wins(threshold)) && losers == Filter(ordered, Loses(threshold))
    ensures row.entry.name in predicates && row.testUsed == "fisher_exact"
    ensures UnpairedEntry(FisherTest, winners, losers, row.entry.name, predicates[row.entry.name], maxEvidence) == Some(row.entry)
  {
    winners, losers := UnpairedRowsAre(trajectories, predicates, q, threshold, maxEvidence);
    var entry := UnpairedEntryOf(FisherTest, winners, losers, predicates, maxEvidence);
    var name := RowComesFromEntry(Listing(predicates.Keys), entry, q, "fisher_exact", row);
    RowNamesTest(Collected(Listing(predicates.Keys), entry), q, "fisher_exact", row);
    UnpairedEntryIsNamed(winners, losers, predicates, maxEvidence, name, row.entry);
  }

  lemma Sides(trajectories: seq<Trajectory>, threshold: real, p: Trajectory -> bool, maxEvidence: nat, won: nat, lost: nat,
              evidence: seq<string>) returns (w: seq<Trajectory>, l: seq<Trajectory>)
    requires won == |set i: nat | i < |trajectories| && trajectories[i].reward > threshold && p(trajectories[i])|
    requires lost == |set i: nat | i < |trajectories| && trajectories[i].reward <= threshold && p(trajectories[i])|
    requires var ordered := Sort(trajectories, IdLe);
      evidence == Evidence(Filter(ordered, Wins(threshold)), Filter(ordered, Loses(threshold)), p, maxEvidence)
    ensures evidence == Slice(Apply(w + l, IdOf), maxEvidence) && |w| == won && |l| == lost
    ensures IsSide(w, trajectories, threshold, true, p) && IsSide(l, trajectories, threshold, false, p)
  {
    var ordered := Sort(trajectories, IdLe);
    w, l := Filter(Filter(ordered, Wins(threshold)), p), Filter(Filter(ordered, Loses(threshold)), p);
    SideOfEvidence(trajectories, Wins(threshold), p);
    SideOfEvidence(trajectories, Loses(threshold), p);
    HitsInInput(trajectories, threshold, p);
    TableIsInInput(trajectories, p, threshold);
  }

  ghost predicate IsSide(side: seq<Trajectory>, trajectories: seq<Trajectory>, threshold: real, won: bool, p: Trajectory -> bool) {
    && (forall t :: t in side <==> t in trajectories && (t.reward > threshold <==> won) && p(t))
    && forall i, j :: 0 <= i < j < |side| ==> StringLe(side[i].id, side[j].id)
  }

  lemma EvidenceIs(trajectories: seq<Trajectory>, threshold: real, p: Trajectory -> bool, maxEvidence: nat,
                   w: seq<Trajectory>, l: seq<Trajectory>, evidence: seq<string>)
    requires evidence == Slice(Apply(w + l, IdOf), maxEvidence)
    requires IsSide(w, trajectories, threshold, true, p) && IsSide(l, trajectories, threshold, false, p)
    ensures |evidence| == if |w| + |l| < maxEvidence then |w| + |l| else maxEvidence
    ensures ShowsSides(trajectories, threshold, p, |w|, evidence) && EachSideById(|w|, evidence)
    ensures LeastOfSide(trajectories, threshold, p, |w|, evidence)
  {
    EvidenceOfSides(w, l, maxEvidence, evidence);
    SidesAreShown(trajectories, threshold, p, w, l, evidence);
    SidesAreSorted(w, l, evidence);
    forall t, k | t in trajectories && p(t) && t.id !in evidence && 0 <= k < |evidence| && (t.reward > threshold <==> k < |w|)
      ensures StringLe(evidence[k], t.id)
    {
      assert k < |w| ==> t in w;
      assert k >= |w| ==> t in l;
    }
  }

  lemma SidesAreShown(trajectories: seq<Trajectory>, threshold: real, p: Trajectory -> bool, w: seq<Trajectory>, l: seq<Trajectory>,
                      evidence: seq<string>)
    requires IsSide(w, trajectories, threshold, true, p) && IsSide(l, trajectories, threshold, false, p) && |evidence| <= |w| + |l|
    requires forall k :: 0 <= k < |evidence| ==> evidence[k] == if k < |w| then w[k].id else l[k - |w|].id
    ensures ShowsSides(trajectories, threshold, p, |w|, evidence)
  {
    forall k | 0 <= k < |evidence| ensures IsShown(trajectories, threshold, p, evidence[k], k < |w|) {
      var t := if k < |w| then w[k] else l[k - |w|];
      assert k < |w| ==> t in w;
      assert k >= |w| ==> t in l;
    }
  }

  lemma SidesAreSorted(w: seq<Trajectory>, l: seq<Trajectory>, evidence: seq<string>)
    requires |evidence| <= |w| + |l|
    requires forall k :: 0 <= k < |evidence| ==> evidence[k] == if k < |w| then w[k].id else l[k - |w|].id
    requires forall i, j :: 0 <= i < j < |w| ==> StringLe(w[i].id, w[j].id)
    requires forall i, j :: 0 <= i < j < |l| ==> StringLe(l[i].id, l[j].id)
    ensures EachSideById(|w|, evidence)
  {
    forall j, k | 0 <= j < k < |evidence| && (j < |w| <==> k < |w|) ensures StringLe(evidence[j], evidence[k]) {
      if k < |w| {
        assert StringLe(w[j].id, w[k].id);
      } else {
        assert StringLe(l[j - |w|].id, l[k - |w|].id);
      }
    }
  }

  /** One side, before the cut: the trajectories on it for which the predicate holds, by id. */
  lemma SideOfEvidence(trajectories: seq<Trajectory>, side: Trajectory -> bool, p: Trajectory -> bool)
    ensures var s := Filter(Filter(Sort(trajectories, IdLe), side), p);
      && (forall t :: t in s <==> t in trajectories && side(t) && p(t))
      && forall i, j :: 0 <= i < j < |s| ==> StringLe(s[i].id, s[j].id)
  {
    var ordered := Sort(trajectories, IdLe);
    IdLeIsOrder();
    SortSorts(trajectories, IdLe);
    SortMembers(trajectories, IdLe);
    FilterMembers(ordered, side);
    FilterMembers(Filter(ordered, side), p);
    FilterStaysSorted(ordered, side, IdLe);
    FilterStaysSorted(Filter(ordered, side), p, IdLe);
    var s := Filter(Filter(ordered, side), p);
    forall i, j | 0 <= i < j < |s| ensures StringLe(s[i].id, s[j].id) { assert IdLe(s[i], s[j]); }
  }

  lemma EvidenceOfSides(w: seq<Trajectory>, l: seq<Trajectory>, maxEvidence: nat, evidence: seq<string>)
    requires evidence == Slice(Apply(w + l, IdOf), maxEvidence)
    requires forall i, j :: 0 <= i < j < |w| ==> StringLe(w[i].id, w[j].id)
    requires forall i, j :: 0 <= i < j < |l| ==> StringLe(l[i].id, l[j].id)
    ensures |evidence| == if |w| + |l| < maxEvidence then |w| + |l| else maxEvidence
    ensures forall k :: 0 <= k < |evidence| ==> evidence[k] == if k < |w| then w[k].id else l[k - |w|].id
    ensures forall k, t :: 0 <= k < |evidence| && k < |w| && t in w && t.id !in evidence ==> StringLe(evidence[k], t.id)
    ensures forall k, t :: 0 <= k < |evidence| && |w| <= k && t in l && t.id !in evidence ==> StringLe(evidence[k], t.id)
  {
    forall k, t | 0 <= k < |evidence| && k < |w| && t in w && t.id !in evidence ensures StringLe(evidence[k], t.id) {
      var i :| 0 <= i < |w| && w[i] == t;
      ShownEarly(w, l, maxEvidence, evidence, i);
    }
    forall k, t | 0 <= k < |evidence| && |w| <= k && t in l && t.id !in evidence ensures StringLe(evidence[k], t.id) {
      var i :| 0 <= i < |l| && l[i] == t;
      ShownEarly(w, l, maxEvidence, evidence, |w| + i);
    }
  }

  lemma ShownEarly(w: seq<Trajectory>, l: seq<Trajectory>, maxEvidence: nat, evidence: seq<string>, i: nat)
    requires evidence == Slice(Apply(w + l, IdOf), maxEvidence) && i < |w| + |l|
    ensures i < |evidence| ==> (w + l)[i].id in evidence
  {
    assert i < |evidence| ==> evidence[i] == (w + l)[i].id;
  }
}
