/** What a contrast report promises about its tables, its effect sizes and its order. */
module ContrastFacts {
  import opened Models
  import opened Ordering
  import opened RealAlgebra
  import opened Wrappers
  import opened Contrast
  import BH = BenjaminiHochberg
  import Fisher
  import McNemar

  // ---- the order of the table ---------------------------------------------------------------------

  lemma RowLeIsOrder()
    ensures TotalPreorder(RowLe)
  {
    StringLeIsOrder();
    forall x: Row, y: Row ensures RowLe(x, y) || RowLe(y, x) {}
    forall x: Row, y: Row, z: Row | RowLe(x, y) && RowLe(y, z) ensures RowLe(x, z) {}
  }

  lemma IdLeIsOrder()
    ensures TotalPreorder(IdLe)
  {
    StringLeIsOrder();
  }

  /** The table lists the labelled entries by adjusted value, effect size and name. */
  lemma FinishedIsSorted(raw: seq<Entry>, q: real, test: string)
    ensures Sorted(Finished(raw, q, test), RowLe)
    ensures multiset(Finished(raw, q, test)) == multiset(Labelled(raw, Verdicts(PValues(raw), q), test))
  {
    RowLeIsOrder();
    SortSorts(Labelled(raw, Verdicts(PValues(raw), q), test), RowLe);
    SortPermutes(Labelled(raw, Verdicts(PValues(raw), q), test), RowLe);
  }

  ghost predicate IsVerdict(raw: seq<Entry>, q: real, row: Row, i: nat) {
    && i < |raw| && row.entry == raw[i]
    && row.adjusted == BH.Report(PValues(raw), q, i).adjusted && row.significant == BH.Report(PValues(raw), q, i).significant
  }

  /** Every row carries the verdict of the procedure on the p-values of the table. */
  lemma RowHasVerdict(raw: seq<Entry>, q: real, test: string, row: Row)
    requires row in Finished(raw, q, test)
    ensures exists i :: IsVerdict(raw, q, row, i)
  {
    var labelled := Labelled(raw, Verdicts(PValues(raw), q), test);
    SortMembers(labelled, RowLe);
    var i :| 0 <= i < |labelled| && labelled[i] == row;
    assert IsVerdict(raw, q, row, i);
  }

  /** The significant rows form a prefix of the table. */
  lemma SignificantRowsComeFirst(raw: seq<Entry>, q: real, test: string, i: nat, j: nat)
    requires i <= j < |Finished(raw, q, test)| && Finished(raw, q, test)[j].significant
    ensures Finished(raw, q, test)[i].significant
  {
    var rows := Finished(raw, q, test);
    FinishedIsSorted(raw, q, test);
    RowHasVerdict(raw, q, test, rows[i]);
    RowHasVerdict(raw, q, test, rows[j]);
    assert i < j ==> RowLe(rows[i], rows[j]);
  }

  /** At a rate 0 <= q < 1 the significant rows are those on or under the step-up cutoff. */
  lemma SignificantIffUnderCutoff(raw: seq<Entry>, q: real, test: string, row: Row)
    requires row in Finished(raw, q, test) && 0.0 <= q < 1.0
    ensures var p := PValues(raw);
      row.significant <==> exists k :: BH.IsCutoff(BH.Values(p), BH.Thresholds(q, |p|), k) && row.entry.pValue <= BH.Values(p)[k - 1]
  {
    RowHasVerdict(raw, q, test, row);
    var i: nat :| IsVerdict(raw, q, row, i);
    BH.StepUpRule(PValues(raw), q, i);
  }

  // ---- which predicates have a row --------------------------------------------------------------------

  lemma {:induction false} CollectedMembers(names: seq<string>, entry: string -> Option<Entry>, e: Entry)
    ensures e in Collected(names, entry) <==> exists name :: name in names && entry(name) == Some(e)
  {
    if names != [] {
      var front, last := names[..|names| - 1], names[|names| - 1];
      assert names == front + [last];
      CollectedMembers(front, entry, e);
    }
  }

  lemma FilterNonempty<T>(s: seq<T>, p: T -> bool)
    ensures |Filter(s, p)| > 0 <==> exists x :: x in s && p(x)
    ensures |Filter(s, p)| < |s| <==> exists x :: x in s && !p(x)
  {
    FilterMembers(s, p);
    if |Filter(s, p)| > 0 { assert Filter(s, p)[0] in Filter(s, p); }
    FilterAll(s, p);
  }

  lemma {:induction false} FilterAll<T>(s: seq<T>, p: T -> bool)
    ensures |Filter(s, p)| <= |s| && (|Filter(s, p)| == |s| <==> forall x :: x in s ==> p(x))
  {
    if s != [] {
      assert s == [s[0]] + s[1..];
      FilterAll(s[1..], p);
    }
  }

  /** The predicate holds of some and fails for some. */
  ghost predicate Varies(s: seq<Trajectory>, p: Trajectory -> bool) {
    (exists t :: t in s && p(t)) && (exists t :: t in s && !p(t))
  }

  lemma VariesAlike(s: seq<Trajectory>, t: seq<Trajectory>, p: Trajectory -> bool)
    requires forall x :: x in s <==> x in t
    ensures Varies(s, p) <==> Varies(t, p)
  {
  }

  /** A predicate is dropped exactly when it holds of every trajectory or of none. */
  lemma DroppedIffConstant(test: TableTest, winners: seq<Trajectory>, losers: seq<Trajectory>, name: string,
                           p: Trajectory -> bool,
                           maxEvidence: int)
    ensures UnpairedEntry(test, winners, losers, name, p, maxEvidence).Some? <==> Varies(winners + losers, p)
  {
    FilterNonempty(winners, p);
    FilterNonempty(losers, p);
  }

  function Transposed(t: Table): Table { Table(t.a, t.c, t.b, t.d) }

  function Exchange(t: Table): Table { Table(t.c, t.d, t.a, t.b) }

  /** The exact test on a table that has anything in it: a p-value in (0, 1], whichever way the
      table is read. */
  lemma TableFacts(t: Table)
    requires t.a + t.b + t.c + t.d > 0
    ensures 0.0 < FisherTest(t) <= 1.0 && FisherTest(t) == FisherTest(Transposed(t)) == FisherTest(Exchange(t))
  {
    Fisher.FisherBounds(t.a, t.b, t.c, t.d);
    Fisher.FisherTranspose(t.a, t.b, t.c, t.d);
    Fisher.FisherSwapRows(t.a, t.b, t.c, t.d);
  }

  ghost predicate IgnoresRows(test: TableTest) {
    forall t :: test(Exchange(t)) == test(t)
  }

  lemma FisherIgnoresRows()
    ensures IgnoresRows(FisherTest)
  {
    var test: TableTest := FisherTest;
    forall t ensures test(Exchange(t)) == test(t) {
      Fisher.FisherSwapRows(t.a, t.b, t.c, t.d);
      assert test(t) == FisherTest(t) && test(Exchange(t)) == FisherTest(Exchange(t));
    }
  }

  lemma ExchangedTable(test: TableTest, winners: seq<Trajectory>, losers: seq<Trajectory>, name: string,
                       p: Trajectory -> bool, maxEvidence: int)
    requires IgnoresRows(test)
    ensures var e := UnpairedEntry(test, winners, losers, name, p, maxEvidence);
      var f := UnpairedEntry(test, losers, winners, name, p, maxEvidence);
      && (e.Some? <==> f.Some?)
      && (e.Some? ==> f.value.pValue == e.value.pValue && f.value.Lift() == -e.value.Lift()
                      && f.value.nWin == e.value.nLoss && f.value.nLoss == e.value.nWin)
  {
    assert TableOf(losers, winners, p) == Exchange(TableOf(winners, losers, p));
  }

  /** Exchanging winners and losers negates the lift and leaves the p-value alone. */
  lemma ExchangingOutcomesNegatesLift(winners: seq<Trajectory>, losers: seq<Trajectory>, name: string,
                                      p: Trajectory -> bool, maxEvidence: int)
    ensures var e := UnpairedEntry(FisherTest, winners, losers, name, p, maxEvidence);
      var f := UnpairedEntry(FisherTest, losers, winners, name, p, maxEvidence);
      && (e.Some? <==> f.Some?)
      && (e.Some? ==> f.value.pValue == e.value.pValue && f.value.Lift() == -e.value.Lift()
                      && f.value.nWin == e.value.nLoss && f.value.nLoss == e.value.nWin)
  {
    FisherIgnoresRows();
    ExchangedTable(FisherTest, winners, losers, name, p, maxEvidence);
  }

  /** The unpaired report in terms of the input: who is in it, and when it is degenerate. */
  lemma UnpairedReportFacts(test: TableTest, trajectories: seq<Trajectory>, predicates: Predicates, q: real,
                            threshold: real, maxEvidence: int)
    ensures var r := UnpairedReport(test, trajectories, predicates, q, threshold, maxEvidence);
      && r.wins == |Filter(trajectories, Wins(threshold))| && r.wins + r.losses == |trajectories|
      && (r.status == NoContrast <==> !(exists t, u :: t in trajectories && u in trajectories && Wins(threshold)(t) && Loses(threshold)(u)))
  {
    var ordered := Sort(trajectories, IdLe);
    SortPermutes(trajectories, IdLe);
    MembersOfMultiset(ordered, trajectories);
    FilterIgnoresOrder(ordered, trajectories, Wins(threshold));
    MembersOfMultiset(Filter(ordered, Wins(threshold)), Filter(trajectories, Wins(threshold)));
    FilterPartitions(ordered, Wins(threshold), Loses(threshold));
    assert |multiset(Filter(ordered, Wins(threshold))) + multiset(Filter(ordered, Loses(threshold)))| == |multiset(ordered)|;
    FilterNonempty(ordered, Wins(threshold));
    FilterNonempty(ordered, Loses(threshold));
  }

  // ---- pairs ------------------------------------------------------------------------------------------------

  lemma {:induction false} DiscordantBalance(pairs: seq<Pair>, p: Trajectory -> bool)
    ensures |Filter(pairs, InThink(p))| - |Filter(pairs, InNoThink(p))| == |Filter(pairs, OnlyThink(p))| - |Filter(pairs, OnlyNoThink(p))|
    ensures |Filter(pairs, OnlyThink(p))| + |Filter(pairs, OnlyNoThink(p))| == |Filter(pairs, Discordant(p))|
  {
    if pairs != [] { DiscordantBalance(pairs[1..], p); }
  }

  lemma RateTimes(k: nat, n: nat, rate: real)
    requires n > 0 && rate == Rate(k, n)
    ensures rate * n as real == k as real
  {
  }

  lemma DifferenceTimes(x: real, y: real, z: real)
    ensures (x - y) * z == x * z - y * z
  {
  }

  /** n times the lift is b - c. */
  ghost predicate ScalesTo(lift: real, n: nat, b: nat, c: nat) {
    lift * n as real == b as real - c as real
  }

  lemma RateDifference(j: nat, k: nat, n: nat, b: nat, c: nat, x: real, y: real, lift: real)
    requires n > 0 && x == Rate(j, n) && y == Rate(k, n) && lift == x - y && j - k == b - c
    ensures ScalesTo(lift, n, b, c)
  {
    RateTimes(j, n, x);
    RateTimes(k, n, y);
    DifferenceTimes(x, y, n as real);
    BalanceInReals(j, k, b, c);
  }

  lemma BalanceInReals(j: nat, k: nat, b: nat, c: nat)
    requires j - k == b - c
    ensures j as real - k as real == b as real - c as real
  {
    assert (j - k) as real == j as real - k as real;
    assert (b - c) as real == b as real - c as real;
  }

  /** The lift times the number of pairs is b - c. */
  lemma LiftTimesPairs(test: PairTest, pairs: seq<Pair>, name: string, p: Trajectory -> bool, maxEvidence: int, e: Entry)
    requires pairs != [] && PairedEntry(test, pairs, name, p, maxEvidence) == Some(e)
    ensures ScalesTo(e.Lift(), |pairs|, e.nWin, e.nLoss)
  {
    DiscordantBalance(pairs, p);
    RateDifference(e.hitsWin, e.hitsLoss, |pairs|, e.nWin, e.nLoss, e.PWin(), e.PLoss(), e.Lift());
  }

  /** A predicate is dropped exactly when no pair disagrees on it. */
  lemma DroppedIffConcordant(test: PairTest, pairs: seq<Pair>, name: string, p: Trajectory -> bool, maxEvidence: int)
    requires pairs != []
    ensures PairedEntry(test, pairs, name, p, maxEvidence).Some? <==> exists x :: x in pairs && p(x.think) != p(x.noThink)
  {
    DiscordantBalance(pairs, p);
    FilterNonempty(pairs, Discordant(p));
  }

  function Exchanged(x: Pair): Pair { Pair(x.task, x.noThink, x.think) }

  lemma {:induction false} ExchangedCounts(pairs: seq<Pair>, p: Trajectory -> bool)
    ensures var swapped := Apply(pairs, Exchanged);
      && |Filter(swapped, OnlyThink(p))| == |Filter(pairs, OnlyNoThink(p))|
      && |Filter(swapped, OnlyNoThink(p))| == |Filter(pairs, OnlyThink(p))|
      && |Filter(swapped, InThink(p))| == |Filter(pairs, InNoThink(p))|
      && |Filter(swapped, InNoThink(p))| == |Filter(pairs, InThink(p))|
  {
    if pairs != [] {
      assert Apply(pairs, Exchanged)[1..] == Apply(pairs[1..], Exchanged);
      ExchangedCounts(pairs[1..], p);
    }
  }

  ghost predicate IgnoresSides(test: PairTest) {
    forall b, c :: test(b, c) == test(c, b)
  }

  lemma McNemarIgnoresSides()
    ensures IgnoresSides(McNemar.McNemarExact)
  {
    forall b: nat, c: nat ensures McNemar.McNemarExact(b, c) == McNemar.McNemarExact(c, b) { McNemar.McNemarSymmetric(b, c); }
  }

  lemma ExchangedEntry(test: PairTest, pairs: seq<Pair>, name: string, p: Trajectory -> bool, maxEvidence: int)
    requires pairs != [] && IgnoresSides(test)
    ensures var e, f := PairedEntry(test, pairs, name, p, maxEvidence), PairedEntry(test, Apply(pairs, Exchanged), name, p, maxEvidence);
      && (e.Some? <==> f.Some?)
      && (e.Some? ==> f.value.pValue == e.value.pValue && f.value.Lift() == -e.value.Lift())
  {
    ExchangedCounts(pairs, p);
  }

  /** Exchanging the arms negates the lift and leaves the p-value alone. */
  lemma ExchangingArmsNegatesLift(pairs: seq<Pair>, name: string, p: Trajectory -> bool, maxEvidence: int)
    requires pairs != []
    ensures var e := PairedEntry(McNemar.McNemarExact, pairs, name, p, maxEvidence);
      var f := PairedEntry(McNemar.McNemarExact, Apply(pairs, Exchanged), name, p, maxEvidence);
      && (e.Some? <==> f.Some?)
      && (e.Some? ==> f.value.pValue == e.value.pValue && f.value.Lift() == -e.value.Lift())
  {
    McNemarIgnoresSides();
    ExchangedEntry(McNemar.McNemarExact, pairs, name, p, maxEvidence);
  }

  /** The trajectory a pair takes for an arm: none of the same task and mode comes later. */
  ghost predicate IsLastOf(ordered: seq<Trajectory>, t: Trajectory, task: string, mode: Mode) {
    exists i :: 0 <= i < |ordered| && ordered[i] == t && t.task == task && t.mode == mode
      && forall j :: i < j < |ordered| ==> !(ordered[j].task == task && ordered[j].mode == mode)
  }

  ghost predicate HasArm(ordered: seq<Trajectory>, task: string, mode: Mode) {
    exists t :: t in ordered && t.task == task && t.mode == mode
  }

  lemma {:induction false} ArmsFacts(ordered: seq<Trajectory>, task: string, mode: Mode)
    ensures var arms := ArmsOf(ordered);
      && (task in arms && mode in arms[task] <==> HasArm(ordered, task, mode))
      && (task in arms && mode in arms[task] ==> IsLastOf(ordered, arms[task][mode], task, mode))
  {
    if ordered != [] {
      var front, t := ordered[..|ordered| - 1], ordered[|ordered| - 1];
      assert ordered == front + [t];
      ArmsFacts(front, task, mode);
      if t.task == task && t.mode == mode {
        assert HasArm(ordered, task, mode) by { assert t in ordered; }
        assert ordered[|ordered| - 1] == t;
      } else if HasArm(front, task, mode) {
        ArmStays(front, t, ArmsOf(front)[task][mode], task, mode);
      }
    }
  }

  lemma ArmStays(front: seq<Trajectory>, t: Trajectory, last: Trajectory, task: string, mode: Mode)
    requires IsLastOf(front, last, task, mode) && !(t.task == task && t.mode == mode)
    ensures IsLastOf(front + [t], last, task, mode) && HasArm(front + [t], task, mode)
  {
    var i :| 0 <= i < |front| && front[i] == last && forall j :: i < j < |front| ==> !(front[j].task == task && front[j].mode == mode);
    assert (front + [t])[i] == last;
    assert last in front + [t];
  }

  lemma {:induction false} PairsMembers(arms: Arms, tasks: seq<string>, x: Pair)
    ensures x in PairsOf(arms, tasks)
       <==> x.task in tasks && Complete(arms, x.task) && x.think == arms[x.task][Think] && x.noThink == arms[x.task][NoThink]
  {
    if tasks != [] {
      var front, task := tasks[..|tasks| - 1], tasks[|tasks| - 1];
      assert tasks == front + [task];
      PairsMembers(arms, front, x);
    }
  }

  /** A pair joins, for a task, the two trajectories with the greatest ids among its arms. */
  lemma PairJoinsLatestArms(trajectories: seq<Trajectory>, x: Pair)
    requires x in PairsIn(trajectories)
    ensures x.think in trajectories && x.noThink in trajectories
    ensures x.think.task == x.task == x.noThink.task && x.think.mode == Think && x.noThink.mode == NoThink
    ensures forall t :: t in trajectories && t.task == x.task ==> StringLe(t.id, (if t.mode == Think then x.think else x.noThink).id)
  {
    var ordered := Sort(trajectories, IdLe);
    var arms := ArmsOf(ordered);
    PairsMembers(arms, Listing(arms.Keys), x);
    ArmsFacts(ordered, x.task, Think);
    ArmsFacts(ordered, x.task, NoThink);
    SortMembers(trajectories, IdLe);
    forall t | t in trajectories && t.task == x.task ensures IdLe(t, if t.mode == Think then x.think else x.noThink) {
      LastHasGreatestId(trajectories, if t.mode == Think then x.think else x.noThink, t);
    }
  }

  lemma LastHasGreatestId(trajectories: seq<Trajectory>, last: Trajectory, t: Trajectory)
    requires IsLastOf(Sort(trajectories, IdLe), last, t.task, t.mode) && t in trajectories
    ensures IdLe(t, last)
  {
    IdLeIsOrder();
    SortSorts(trajectories, IdLe);
    SortMembers(trajectories, IdLe);
    LastInOrder(Sort(trajectories, IdLe), last, t);
  }

  lemma LastInOrder(ordered: seq<Trajectory>, last: Trajectory, t: Trajectory)
    requires IsLastOf(ordered, last, t.task, t.mode) && t in ordered
    requires Sorted(ordered, IdLe) && IdLe(t, t)
    ensures IdLe(t, last)
  {
    var i :| 0 <= i < |ordered| && ordered[i] == last
             && forall j :: i < j < |ordered| ==> !(ordered[j].task == t.task && ordered[j].mode == t.mode);
    var k :| 0 <= k < |ordered| && ordered[k] == t;
    assert k <= i;
  }

  /** A task has a pair exactly when the input has both of its arms; without one the report is degenerate. */
  lemma PairIffBothArms(trajectories: seq<Trajectory>, task: string)
    ensures (exists x :: x in PairsIn(trajectories) && x.task == task)
       <==> HasArm(trajectories, task, Think) && HasArm(trajectories, task, NoThink)
  {
    var ordered := Sort(trajectories, IdLe);
    var arms := ArmsOf(ordered);
    SortMembers(trajectories, IdLe);
    ArmsFacts(ordered, task, Think);
    ArmsFacts(ordered, task, NoThink);
    if Complete(arms, task) {
      var x := Pair(task, arms[task][Think], arms[task][NoThink]);
      PairsMembers(arms, Listing(arms.Keys), x);
      assert x in PairsIn(trajectories);
    }
    forall x | x in PairsIn(trajectories) && x.task == task ensures Complete(arms, task) { PairsMembers(arms, Listing(arms.Keys), x); }
  }

  // ---- the order of the input -----------------------------------------------------------------------------------

  lemma UniqueIdsDetermine(trajectories: seq<Trajectory>)
    requires DistinctBy(trajectories, IdOf)
    ensures KeyDetermines(multiset(trajectories), IdLe)
  {
    StringLeIsOrder();
    forall t, u | t in multiset(trajectories) && u in multiset(trajectories) && IdLe(t, u) && IdLe(u, t) ensures t == u {
      assert t in trajectories && u in trajectories;
      var i :| 0 <= i < |trajectories| && trajectories[i] == t;
      var j :| 0 <= j < |trajectories| && trajectories[j] == u;
      assert i == j || IdOf(trajectories[i]) == IdOf(trajectories[j]);
    }
  }

  /** With unique ids both reports are the same whatever the order of the trajectories. */
  lemma ReportsIgnoreOrder(tableTest: TableTest, pairTest: PairTest, trajectories: seq<Trajectory>,
                           trajectories': seq<Trajectory>,
                           predicates: Predicates, q: real, threshold: real, maxEvidence: int)
    requires multiset(trajectories) == multiset(trajectories') && DistinctBy(trajectories, IdOf)
    ensures UnpairedReport(tableTest, trajectories, predicates, q, threshold, maxEvidence)
         == UnpairedReport(tableTest, trajectories', predicates, q, threshold, maxEvidence)
    ensures PairedReport(pairTest, trajectories, predicates, q, threshold, maxEvidence)
         == PairedReport(pairTest, trajectories', predicates, q, threshold, maxEvidence)
  {
    IdLeIsOrder();
    UniqueIdsDetermine(trajectories);
    SortIgnoresOrder(trajectories, trajectories', IdLe);
  }

  // ---- the rows of a report ---------------------------------------------------------------------------------------

  ghost predicate HasRowFor(rows: seq<Row>, name: string) {
    exists row :: row in rows && row.entry.name == name
  }

  /** A finished table has a row for a name exactly when the name has an entry. */
  lemma RowIffEntry(names: seq<string>, entry: string -> Option<Entry>, q: real, test: string, name: string)
    requires name in names && forall n :: n in names && entry(n).Some? ==> entry(n).value.name == n
    ensures HasRowFor(Finished(Collected(names, entry), q, test), name) <==> entry(name).Some?
  {
    var raw := Collected(names, entry);
    var rows := Finished(raw, q, test);
    if row :| row in rows && row.entry.name == name {
      RowHasVerdict(raw, q, test, row);
      assert row.entry in raw;
      CollectedMembers(names, entry, row.entry);
    }
    if entry(name).Some? {
      CollectedMembers(names, entry, entry(name).value);
      EntryHasRow(raw, q, test, entry(name).value);
    }
  }

  lemma EntryHasRow(raw: seq<Entry>, q: real, test: string, e: Entry)
    requires e in raw
    ensures HasRowFor(Finished(raw, q, test), e.name)
  {
    var labelled := Labelled(raw, Verdicts(PValues(raw), q), test);
    SortMembers(labelled, RowLe);
    var i :| 0 <= i < |raw| && raw[i] == e;
    assert labelled[i] in labelled && labelled[i].entry == e;
  }

  lemma InEitherHalf(trajectories: seq<Trajectory>, threshold: real)
    ensures var ordered := Sort(trajectories, IdLe);
      forall t :: t in Filter(ordered, Wins(threshold)) + Filter(ordered, Loses(threshold)) <==> t in trajectories
  {
    var ordered := Sort(trajectories, IdLe);
    SortMembers(trajectories, IdLe);
    FilterMembers(ordered, Wins(threshold));
    FilterMembers(ordered, Loses(threshold));
  }

  /** The unpaired report has a row for exactly the predicates that tell some trajectories apart. */
  lemma UnpairedRowsAreVaryingPredicates(test: TableTest, trajectories: seq<Trajectory>, predicates: Predicates,
                                        q: real, threshold: real,
                                         maxEvidence: int, name: string)
    requires name in predicates && UnpairedReport(test, trajectories, predicates, q, threshold, maxEvidence).status == Ok
    ensures HasRowFor(UnpairedReport(test, trajectories, predicates, q, threshold, maxEvidence).rows, name)
       <==> Varies(trajectories, predicates[name])
  {
    var ordered := Sort(trajectories, IdLe);
    var winners, losers := Filter(ordered, Wins(threshold)), Filter(ordered, Loses(threshold));
    InEitherHalf(trajectories, threshold);
    VariesAlike(winners + losers, trajectories, predicates[name]);
    UnpairedRowIff(test, winners, losers, predicates, q, maxEvidence, name);
  }

  lemma UnpairedRowIff(test: TableTest, winners: seq<Trajectory>, losers: seq<Trajectory>, predicates: Predicates, q: real,
                       maxEvidence: int, name: string)
    requires name in predicates
    ensures HasRowFor(Finished(Collected(Listing(predicates.Keys), UnpairedEntryOf(test, winners, losers, predicates, maxEvidence)), q,
                               "fisher_exact"), name)
       <==> Varies(winners + losers, predicates[name])
  {
    var entry := UnpairedEntryOf(test, winners, losers, predicates, maxEvidence);
    forall n | entry(n).Some? ensures entry(n).value.name == n {}
    RowIffEntry(Listing(predicates.Keys), entry, q, "fisher_exact", name);
    DroppedIffConstant(test, winners, losers, name, predicates[name], maxEvidence);
    assert entry(name) == UnpairedEntry(test, winners, losers, name, predicates[name], maxEvidence);
  }

  /** The paired report has a row for exactly the predicates on which the arms of some task differ. */
  lemma PairedRowsAreDiscordantPredicates(test: PairTest, trajectories: seq<Trajectory>, predicates: Predicates,
                                        q: real, threshold: real, maxEvidence: int,
                                          name: string)
    requires name in predicates && PairedReport(test, trajectories, predicates, q, threshold, maxEvidence).status == Ok
    ensures HasRowFor(PairedReport(test, trajectories, predicates, q, threshold, maxEvidence).rows, name)
       <==> exists x :: x in PairsIn(trajectories) && predicates[name](x.think) != predicates[name](x.noThink)
  {
    PairedRowIff(test, PairsIn(trajectories), predicates, q, maxEvidence, name);
  }

  lemma PairedRowIff(test: PairTest, pairs: seq<Pair>, predicates: Predicates, q: real, maxEvidence: int, name: string)
    requires pairs != [] && name in predicates
    ensures HasRowFor(Finished(Collected(Listing(predicates.Keys), PairedEntryOf(test, pairs, predicates, maxEvidence)), q,
                               "mcnemar_exact"), name)
       <==> exists x :: x in pairs && predicates[name](x.think) != predicates[name](x.noThink)
  {
    var entry := PairedEntryOf(test, pairs, predicates, maxEvidence);
    forall n | entry(n).Some? ensures entry(n).value.name == n {}
    RowIffEntry(Listing(predicates.Keys), entry, q, "mcnemar_exact", name);
    DroppedIffConcordant(test, pairs, name, predicates[name], maxEvidence);
    assert entry(name) == PairedEntry(test, pairs, name, predicates[name], maxEvidence);
  }

  function Both(p: Trajectory -> bool, r: Trajectory -> bool): Trajectory -> bool { (t: Trajectory) => p(t) && r(t) }

  /** Counting in the sorted, filtered lists is counting in the input. */
  lemma CountsInInput(trajectories: seq<Trajectory>, p: Trajectory -> bool, r: Trajectory -> bool)
    ensures |Filter(Sort(trajectories, IdLe), p)| == |Filter(trajectories, p)|
    ensures |Filter(Filter(Sort(trajectories, IdLe), p), r)| == |Filter(trajectories, Both(p, r))|
  {
    var ordered := Sort(trajectories, IdLe);
    SortPermutes(trajectories, IdLe);
    FilterIgnoresOrder(ordered, trajectories, p);
    FilterIgnoresOrder(ordered, trajectories, Both(p, r));
    FilterTwice(ordered, p, r, Both(p, r));
    MembersOfMultiset(Filter(ordered, p), Filter(trajectories, p));
    MembersOfMultiset(Filter(ordered, Both(p, r)), Filter(trajectories, Both(p, r)));
  }

  /** The table of a predicate, counted in the input. */
  ghost function TableIn(trajectories: seq<Trajectory>, p: Trajectory -> bool, threshold: real): Table {
    Table(|Filter(trajectories, Both(Wins(threshold), p))|, |Filter(trajectories, Both(Wins(threshold), Not(p)))|,
          |Filter(trajectories, Both(Loses(threshold), p))|, |Filter(trajectories, Both(Loses(threshold), Not(p)))|)
  }

  function Not(p: Trajectory -> bool): Trajectory -> bool { (t: Trajectory) => !p(t) }

  lemma {:induction false} ComplementCount(s: seq<Trajectory>, p: Trajectory -> bool)
    ensures |Filter(s, p)| + |Filter(s, Not(p))| == |s|
  {
    if s != [] { ComplementCount(s[1..], p); }
  }

  lemma TableIsInInput(trajectories: seq<Trajectory>, p: Trajectory -> bool, threshold: real)
    ensures var ordered := Sort(trajectories, IdLe);
      TableOf(Filter(ordered, Wins(threshold)), Filter(ordered, Loses(threshold)), p) == TableIn(trajectories, p, threshold)
  {
    var ordered := Sort(trajectories, IdLe);
    CountsInInput(trajectories, Wins(threshold), p);
    CountsInInput(trajectories, Loses(threshold), p);
    CountsInInput(trajectories, Wins(threshold), Not(p));
    CountsInInput(trajectories, Loses(threshold), Not(p));
    ComplementCount(Filter(ordered, Wins(threshold)), p);
    ComplementCount(Filter(ordered, Loses(threshold)), p);
  }

  /** The entry's counts, its two rates and its p-value are those of the table. */
  ghost predicate TestsTable(test: TableTest, t: Table, e: Entry) {
    && e.nWin == t.a && e.nLoss == t.c && e.pValue == test(t)
    && e.hitsWin == t.a && e.ofWin == t.a + t.b && e.hitsLoss == t.c && e.ofLoss == t.c + t.d
  }

  lemma EntryTestsTable(test: TableTest, winners: seq<Trajectory>, losers: seq<Trajectory>, name: string, p: Trajectory -> bool,
                        maxEvidence: int, t: Table, e: Entry)
    requires UnpairedEntry(test, winners, losers, name, p, maxEvidence) == Some(e) && t == TableOf(winners, losers, p)
    ensures TestsTable(test, t, e) && e.name == name
  {
  }

  lemma RowComesFromEntry(names: seq<string>, entry: string -> Option<Entry>, q: real, test: string,
                          row: Row) returns (name: string)
    requires row in Finished(Collected(names, entry), q, test)
    ensures name in names && entry(name) == Some(row.entry)
  {
    RowHasVerdict(Collected(names, entry), q, test, row);
    CollectedMembers(names, entry, row.entry);
    name :| name in names && entry(name) == Some(row.entry);
  }

  /** Every row of an unpaired report is about one of the predicates and tests its 2x2 table in the
      input; the program's test is `FisherTest`. */
  lemma UnpairedRowsTestTheirTables(test: TableTest, trajectories: seq<Trajectory>, predicates: Predicates, q: real,
                                    threshold: real,
                                    maxEvidence: int, row: Row)
    requires row in UnpairedReport(test, trajectories, predicates, q, threshold, maxEvidence).rows
    ensures row.entry.name in predicates
    ensures TestsTable(test, TableIn(trajectories, predicates[row.entry.name], threshold), row.entry)
  {
    var ordered := Sort(trajectories, IdLe);
    var winners, losers := Filter(ordered, Wins(threshold)), Filter(ordered, Loses(threshold));
    var entry := UnpairedEntryOf(test, winners, losers, predicates, maxEvidence);
    var name := RowComesFromEntry(Listing(predicates.Keys), entry, q, "fisher_exact", row);
    var t := TableIn(trajectories, predicates[name], threshold);
    TableIsInInput(trajectories, predicates[name], threshold);
    EntryTestsTable(test, winners, losers, name, predicates[name], maxEvidence, t, row.entry);
  }

  /** Every row of a paired report is about one of the predicates: its counts are the pairs on which
      only one arm has it, and the lift times the number of pairs is their difference. */
  lemma PairedRowsBalance(test: PairTest, trajectories: seq<Trajectory>, predicates: Predicates, q: real, threshold: real,
                          maxEvidence: int, row: Row)
    requires row in PairedReport(test, trajectories, predicates, q, threshold, maxEvidence).rows
    ensures row.entry.name in predicates
    ensures var pairs, p := PairsIn(trajectories), predicates[row.entry.name];
      && row.entry.nWin == |Filter(pairs, OnlyThink(p))| && row.entry.nLoss == |Filter(pairs, OnlyNoThink(p))|
      && row.entry.pValue == test(row.entry.nWin, row.entry.nLoss)
      && ScalesTo(row.entry.Lift(), |pairs|, row.entry.nWin, row.entry.nLoss)
  {
    var pairs := PairsIn(trajectories);
    var name := RowComesFromEntry(Listing(predicates.Keys), PairedEntryOf(test, pairs, predicates, maxEvidence), q, "mcnemar_exact", row);
    LiftTimesPairs(test, pairs, name, predicates[name], maxEvidence, row.entry);
  }

  // ---- evidence --------------------------------------------------------------------------------------------------

  lemma SliceMembers<T>(s: seq<T>, k: int, x: T)
    ensures x in Slice(s, k) ==> x in s
    ensures k >= 0 ==> |Slice(s, k)| <= k
  {
  }

  /** The ids shown as evidence are those of trajectories of the input that satisfy the predicate,
      never more than allowed. */
  lemma EvidenceShowsPredicate(winners: seq<Trajectory>, losers: seq<Trajectory>, p: Trajectory -> bool, maxEvidence: int, id: string)
    requires id in Evidence(winners, losers, p, maxEvidence)
    ensures exists t :: (t in winners || t in losers) && p(t) && t.id == id
    ensures maxEvidence >= 0 ==> |Evidence(winners, losers, p, maxEvidence)| <= maxEvidence
  {
    var hits := Filter(winners, p) + Filter(losers, p);
    SliceMembers(Apply(hits, IdOf), maxEvidence, id);
    FilterMembers(winners, p);
    FilterMembers(losers, p);
    var i :| 0 <= i < |hits| && Apply(hits, IdOf)[i] == id;
    assert hits[i] in hits;
  }

  /** Paired evidence is the least tasks whose arms differ on the predicate: as many as there are and are
      allowed, in order, and the first of all of them. */
  lemma PairedEvidenceIsDiscordant(test: PairTest, pairs: seq<Pair>, name: string, p: Trajectory -> bool, maxEvidence: nat, e: Entry)
    requires pairs != [] && PairedEntry(test, pairs, name, p, maxEvidence) == Some(e)
    ensures forall task :: task in e.evidence ==> exists x :: x in pairs && x.task == task && p(x.think) != p(x.noThink)
    ensures |e.evidence| == if e.nWin + e.nLoss < maxEvidence then e.nWin + e.nLoss else maxEvidence
    ensures Sorted(e.evidence, StringLe)
    ensures forall x, task :: x in pairs && p(x.think) != p(x.noThink) && x.task !in e.evidence && task in e.evidence ==>
      StringLe(task, x.task)
    ensures e.evidence <= Sort(Apply(Filter(pairs, Discordant(p)), TaskOf), StringLe)
  {
    var tasks := Apply(Filter(pairs, Discordant(p)), TaskOf);
    var ordered := Sort(tasks, StringLe);
    SortMembers(tasks, StringLe);
    StringLeIsOrder();
    SortSorts(tasks, StringLe);
    DiscordantBalance(pairs, p);
    forall task | task in e.evidence ensures exists x :: x in pairs && x.task == task && p(x.think) != p(x.noThink) {
      SliceMembers(ordered, maxEvidence, task);
      DiscordantTask(pairs, p, task);
    }
    forall x, task | x in pairs && p(x.think) != p(x.noThink) && x.task !in e.evidence && task in e.evidence
      ensures StringLe(task, x.task)
    {
      TaskIsListed(pairs, p, x);
      LeftOutComesLater(ordered, maxEvidence, task, x.task);
    }
  }

  lemma TaskIsListed(pairs: seq<Pair>, p: Trajectory -> bool, x: Pair)
    requires x in pairs && p(x.think) != p(x.noThink)
    ensures x.task in Apply(Filter(pairs, Discordant(p)), TaskOf)
  {
    var differing := Filter(pairs, Discordant(p));
    FilterMembers(pairs, Discordant(p));
    var i :| 0 <= i < |differing| && differing[i] == x;
    assert Apply(differing, TaskOf)[i] == x.task;
  }

  lemma LeftOutComesLater(ordered: seq<string>, k: nat, task: string, other: string)
    requires Sorted(ordered, StringLe) && other in ordered && other !in Slice(ordered, k) && task in Slice(ordered, k)
    ensures StringLe(task, other)
  {
    var i :| 0 <= i < |Slice(ordered, k)| && Slice(ordered, k)[i] == task;
    var j :| 0 <= j < |ordered| && ordered[j] == other;
    EarlierIsIn(ordered, k, j);
  }

  lemma EarlierIsIn(ordered: seq<string>, k: nat, j: nat)
    requires j < |ordered|
    ensures j < |Slice(ordered, k)| ==> ordered[j] in Slice(ordered, k)
  {
    assert j < |Slice(ordered, k)| ==> Slice(ordered, k)[j] == ordered[j];
  }

  lemma DiscordantTask(pairs: seq<Pair>, p: Trajectory -> bool, task: string)
    requires task in Apply(Filter(pairs, Discordant(p)), TaskOf)
    ensures exists x :: x in pairs && x.task == task && p(x.think) != p(x.noThink)
  {
    var differing := Filter(pairs, Discordant(p));
    FilterMembers(pairs, Discordant(p));
    var i :| 0 <= i < |differing| && Apply(differing, TaskOf)[i] == task;
    assert differing[i] in differing;
  }
}
