/** Win/loss contrast: which predicates tell winners from losers, or one arm of a task from the
    other, with corrected p-values. */
module Contrast {
  import opened Models
  import opened Ordering
  import opened RealAlgebra
  import opened Wrappers
  import BH = BenjaminiHochberg
  import Fisher
  import McNemar

  datatype Trajectory = Trajectory(id: string, task: string, mode: Mode, reward: real, rest: string)

  type Predicates = map<string, Trajectory -> bool>

  /** A predicate before correction: how often it holds on either side, the two counts reported for
      it, the test's p-value and some ids. */
  datatype Entry = Entry(name: string, hitsWin: nat, ofWin: nat, hitsLoss: nat, ofLoss: nat, nWin: nat, nLoss: nat, pValue: real,
                         evidence: seq<string>)
  {
    function PWin(): real { Rate(hitsWin, ofWin) }

    function PLoss(): real { Rate(hitsLoss, ofLoss) }

    function Lift(): real { PWin() - PLoss() }
  }

  datatype Row = Row(entry: Entry, adjusted: real, significant: bool, testUsed: string)

  datatype Status = Ok | NoContrast | NoPairs

  datatype Report = Report(rows: seq<Row>, paired: bool, wins: nat, losses: nat, status: Status)

  predicate IdLe(t: Trajectory, u: Trajectory) { StringLe(t.id, u.id) }

  /** By adjusted significance, then effect size, then name. */
  predicate RowLe(x: Row, y: Row) {
    x.adjusted < y.adjusted
    || (x.adjusted == y.adjusted
        && (Abs(x.entry.Lift()) > Abs(y.entry.Lift())
            || (Abs(x.entry.Lift()) == Abs(y.entry.Lift()) && StringLe(x.entry.name, y.entry.name))))
  }

  // ---- correction and order ------------------------------------------------------------------------

  function PValueOf(e: Entry): real { e.pValue }

  function PValues(raw: seq<Entry>): seq<real> { Apply(raw, PValueOf) }

  /** Every entry with its verdict. */
  function Labelled(raw: seq<Entry>, verdicts: seq<BH.BHResult>, test: string): (rows: seq<Row>)
    requires |verdicts| == |raw|
    ensures |rows| == |raw|
  {
    seq(|raw|, i requires 0 <= i < |raw| => Row(raw[i], verdicts[i].adjusted, verdicts[i].significant, test))
  }

  ghost function Verdicts(p: seq<real>, q: real): (r: seq<BH.BHResult>)
    ensures |r| == |p| && forall i :: 0 <= i < |p| ==> r[i] == BH.Report(p, q, i)
  {
    seq(|p|, i requires 0 <= i < |p| => BH.Report(p, q, i))
  }

  ghost function Finished(raw: seq<Entry>, q: real, test: string): seq<Row> {
    Sort(Labelled(raw, Verdicts(PValues(raw), q), test), RowLe)
  }

  method LabelAll(raw: seq<Entry>, verdicts: seq<BH.BHResult>, test: string) returns (rows: seq<Row>)
    requires |verdicts| == |raw|
    ensures rows == Labelled(raw, verdicts, test)
  {
    rows := [];
    var i := 0;
    while i < |raw|
      invariant 0 <= i <= |raw|
      invariant rows == Labelled(raw, verdicts, test)[..i]
    {
      rows := rows + [Row(raw[i], verdicts[i].adjusted, verdicts[i].significant, test)];
      i := i + 1;
    }
  }

  method Finish(raw: seq<Entry>, q: real, test: string) returns (rows: seq<Row>)
    ensures rows == Finished(raw, q, test)
  {
    var adjusted := BH.AdjustAll(PValues(raw), q);
    assert adjusted == Verdicts(PValues(raw), q);
    var labelled := LabelAll(raw, adjusted, test);
    rows := Sort(labelled, RowLe);
  }

  /** The entries of the names that have one, in order. */
  function Collected(names: seq<string>, entry: string -> Option<Entry>): seq<Entry> {
    if names == [] then []
    else
      var last := entry(names[|names| - 1]);
      Collected(names[..|names| - 1], entry) + if last.Some? then [last.value] else []
  }

  method Collect(names: seq<string>, entry: string -> Option<Entry>) returns (raw: seq<Entry>)
    ensures raw == Collected(names, entry)
  {
    raw := [];
    var i := 0;
    while i < |names|
      invariant 0 <= i <= |names|
      invariant raw == Collected(names[..i], entry)
    {
      assert names[..i + 1][..i] == names[..i];
      var e := entry(names[i]);
      if e.Some? {
        raw := raw + [e.value];
      }
      i := i + 1;
    }
    assert names[..|names|] == names;
  }

  // ---- winners against losers -------------------------------------------------------------------------

  function Wins(threshold: real): Trajectory -> bool { (t: Trajectory) => t.reward > threshold }

  function Loses(threshold: real): Trajectory -> bool { (t: Trajectory) => !(t.reward > threshold) }

  function IdOf(t: Trajectory): string { t.id }

  /** The 2x2 table of a predicate: a, b among the winners and c, d among the losers. */
  datatype Table = Table(a: nat, b: nat, c: nat, d: nat)

  type TableTest = Table -> real
  type PairTest = (nat, nat) -> real

  function FisherTest(t: Table): real { Fisher.FisherExact(t.a, t.b, t.c, t.d) }

  function TableOf(winners: seq<Trajectory>, losers: seq<Trajectory>, p: Trajectory -> bool): Table {
    FilterShorter(winners, p);
    FilterShorter(losers, p);
    Table(|Filter(winners, p)|, |winners| - |Filter(winners, p)|, |Filter(losers, p)|, |losers| - |Filter(losers, p)|)
  }

  function Evidence(winners: seq<Trajectory>, losers: seq<Trajectory>, p: Trajectory -> bool, maxEvidence: int): seq<string> {
    Slice(Apply(Filter(winners, p) + Filter(losers, p), IdOf), maxEvidence)
  }

  /** The row of a table; none for a predicate that holds of all or of none. */
  function TableEntry(test: TableTest, name: string, t: Table, evidence: seq<string>): Option<Entry> {
    if t.a + t.c == 0 || t.b + t.d == 0 then None
    else Some(Entry(name, t.a, t.a + t.b, t.c, t.c + t.d, t.a, t.c, test(t), evidence))
  }

  function UnpairedEntry(test: TableTest, winners: seq<Trajectory>, losers: seq<Trajectory>, name: string,
                         p: Trajectory -> bool,
                         maxEvidence: int): Option<Entry>
  {
    TableEntry(test, name, TableOf(winners, losers, p), Evidence(winners, losers, p, maxEvidence))
  }

  lemma {:induction false} FilterShorter<T>(s: seq<T>, p: T -> bool)
    ensures |Filter(s, p)| <= |s|
  {
    if s != [] { FilterShorter(s[1..], p); }
  }

  function UnpairedEntryOf(test: TableTest, winners: seq<Trajectory>, losers: seq<Trajectory>, predicates: Predicates,
                           maxEvidence: int):
      string -> Option<Entry>
  {
    (name: string) => if name in predicates then UnpairedEntry(test, winners, losers, name, predicates[name], maxEvidence) else None
  }

  ghost function UnpairedReport(test: TableTest, trajectories: seq<Trajectory>, predicates: Predicates, q: real,
                                threshold: real,
                                maxEvidence: int): Report
  {
    var ordered := Sort(trajectories, IdLe);
    var winners, losers := Filter(ordered, Wins(threshold)), Filter(ordered, Loses(threshold));
    if winners == [] || losers == [] then Report([], false, |winners|, |losers|, NoContrast)
    else
      var raw := Collected(Listing(predicates.Keys), UnpairedEntryOf(test, winners, losers, predicates, maxEvidence));
      Report(Finished(raw, q, "fisher_exact"), false, |winners|, |losers|, Ok)
  }

  method UnpairedContrast(trajectories: seq<Trajectory>, predicates: Predicates, q: real, threshold: real, maxEvidence: int)
      returns (report: Report)
    ensures report == UnpairedReport(FisherTest, trajectories, predicates, q, threshold, maxEvidence)
  {
    var ordered := Sort(trajectories, IdLe);
    var winners, losers := Filter(ordered, Wins(threshold)), Filter(ordered, Loses(threshold));
    if winners == [] || losers == [] {
      return Report([], false, |winners|, |losers|, NoContrast);
    }
    var raw := Collect(Listing(predicates.Keys), UnpairedEntryOf(FisherTest, winners, losers, predicates, maxEvidence));
    var rows := Finish(raw, q, "fisher_exact");
    report := Report(rows, false, |winners|, |losers|, Ok);
  }

  // ---- the two arms of a task -----------------------------------------------------------------------------

  datatype Pair = Pair(task: string, think: Trajectory, noThink: Trajectory)

  type Arms = map<string, map<Mode, Trajectory>>

  /** The last trajectory of each task and mode. */
  function ArmsOf(ordered: seq<Trajectory>): Arms {
    if ordered == [] then map[] else WithArm(ArmsOf(ordered[..|ordered| - 1]), ordered[|ordered| - 1])
  }

  function WithArm(arms: Arms, t: Trajectory): Arms {
    arms[t.task := (if t.task in arms then arms[t.task] else map[])[t.mode := t]]
  }

  predicate Complete(arms: Arms, task: string) {
    task in arms && Think in arms[task] && NoThink in arms[task]
  }

  function PairsOf(arms: Arms, tasks: seq<string>): seq<Pair> {
    if tasks == [] then []
    else
      var task := tasks[|tasks| - 1];
      PairsOf(arms, tasks[..|tasks| - 1])
      + if Complete(arms, task) then [Pair(task, arms[task][Think], arms[task][NoThink])] else []
  }

  function OnlyThink(p: Trajectory -> bool): Pair -> bool { (x: Pair) => p(x.think) && !p(x.noThink) }

  function OnlyNoThink(p: Trajectory -> bool): Pair -> bool { (x: Pair) => p(x.noThink) && !p(x.think) }

  function Discordant(p: Trajectory -> bool): Pair -> bool { (x: Pair) => p(x.think) != p(x.noThink) }

  function InThink(p: Trajectory -> bool): Pair -> bool { (x: Pair) => p(x.think) }

  function InNoThink(p: Trajectory -> bool): Pair -> bool { (x: Pair) => p(x.noThink) }

  function TaskOf(x: Pair): string { x.task }

  /** The discordant counts of a predicate; none when no pair is discordant. */
  function PairedEntry(test: PairTest, pairs: seq<Pair>, name: string, p: Trajectory -> bool, maxEvidence: int): Option<Entry>
    requires pairs != []
  {
    var b, c := |Filter(pairs, OnlyThink(p))|, |Filter(pairs, OnlyNoThink(p))|;
    if b + c == 0 then None
    else Some(Entry(name, |Filter(pairs, InThink(p))|, |pairs|, |Filter(pairs, InNoThink(p))|, |pairs|, b, c, test(b, c),
                    Slice(Sort(Apply(Filter(pairs, Discordant(p)), TaskOf), StringLe), maxEvidence)))
  }

  function PairedEntryOf(test: PairTest, pairs: seq<Pair>, predicates: Predicates, maxEvidence: int): string -> Option<Entry>
    requires pairs != []
  {
    (name: string) => if name in predicates then PairedEntry(test, pairs, name, predicates[name], maxEvidence) else None
  }

  function PairsIn(trajectories: seq<Trajectory>): seq<Pair> {
    var arms := ArmsOf(Sort(trajectories, IdLe));
    PairsOf(arms, Listing(arms.Keys))
  }

  function ThinkWins(threshold: real): Pair -> bool { (x: Pair) => x.think.reward > threshold }

  ghost function PairedReport(test: PairTest, trajectories: seq<Trajectory>, predicates: Predicates, q: real, threshold: real,
                              maxEvidence: int): Report
  {
    var pairs := PairsIn(trajectories);
    if pairs == [] then Report([], true, 0, 0, NoPairs)
    else
      FilterShorter(pairs, ThinkWins(threshold));
      var wins := |Filter(pairs, ThinkWins(threshold))|;
      var raw := Collected(Listing(predicates.Keys), PairedEntryOf(test, pairs, predicates, maxEvidence));
      Report(Finished(raw, q, "mcnemar_exact"), true, wins, |pairs| - wins, Ok)
  }

  method BuildArms(ordered: seq<Trajectory>) returns (arms: Arms)
    ensures arms == ArmsOf(ordered)
  {
    arms := map[];
    var i := 0;
    while i < |ordered|
      invariant 0 <= i <= |ordered|
      invariant arms == ArmsOf(ordered[..i])
    {
      assert ordered[..i + 1][..i] == ordered[..i];
      var t := ordered[i];
      var group := if t.task in arms then arms[t.task] else map[];
      arms := arms[t.task := group[t.mode := t]];
      i := i + 1;
    }
    assert ordered[..|ordered|] == ordered;
  }

  /** The counting loop over the pairs. */
  method CountDiscordant(pairs: seq<Pair>, p: Trajectory -> bool) returns (b: nat, c: nat, evidence: seq<string>)
    ensures b == |Filter(pairs, OnlyThink(p))| && c == |Filter(pairs, OnlyNoThink(p))|
    ensures evidence == Apply(Filter(pairs, Discordant(p)), TaskOf)
  {
    b, c, evidence := 0, 0, [];
    var i := 0;
    while i < |pairs|
      invariant 0 <= i <= |pairs|
      invariant b == |Filter(pairs[..i], OnlyThink(p))| && c == |Filter(pairs[..i], OnlyNoThink(p))|
      invariant evidence == Apply(Filter(pairs[..i], Discordant(p)), TaskOf)
    {
      FilterOneMore(pairs, i, OnlyThink(p));
      FilterOneMore(pairs, i, OnlyNoThink(p));
      FilterOneMore(pairs, i, Discordant(p));
      var inThink, inNoThink := p(pairs[i].think), p(pairs[i].noThink);
      if inThink && !inNoThink {
        b := b + 1;
        evidence := evidence + [pairs[i].task];
      } else if inNoThink && !inThink {
        c := c + 1;
        evidence := evidence + [pairs[i].task];
      }
      i := i + 1;
    }
    assert pairs[..|pairs|] == pairs;
  }

  method PairedContrast(trajectories: seq<Trajectory>, predicates: Predicates, q: real, threshold: real, maxEvidence: int)
      returns (report: Report)
    ensures report == PairedReport(McNemar.McNemarExact, trajectories, predicates, q, threshold, maxEvidence)
  {
    var arms := BuildArms(Sort(trajectories, IdLe));
    var pairs := PairsOf(arms, Listing(arms.Keys));
    if pairs == [] {
      return Report([], true, 0, 0, NoPairs);
    }
    FilterShorter(pairs, ThinkWins(threshold));
    var wins := |Filter(pairs, ThinkWins(threshold))|;
    var names := Listing(predicates.Keys);
    var raw := CollectPaired(pairs, predicates, names, maxEvidence);
    var rows := Finish(raw, q, "mcnemar_exact");
    report := Report(rows, true, wins, |pairs| - wins, Ok);
  }

  method CollectPaired(pairs: seq<Pair>, predicates: Predicates, names: seq<string>, maxEvidence: int) returns (raw: seq<Entry>)
    requires pairs != [] && forall name :: name in names ==> name in predicates
    ensures raw == Collected(names, PairedEntryOf(McNemar.McNemarExact, pairs, predicates, maxEvidence))
  {
    raw := [];
    ghost var entry := PairedEntryOf(McNemar.McNemarExact, pairs, predicates, maxEvidence);
    var i := 0;
    while i < |names|
      invariant 0 <= i <= |names|
      invariant raw == Collected(names[..i], entry)
    {
      assert names[..i + 1][..i] == names[..i];
      var e := MakePairedEntry(pairs, names[i], predicates[names[i]], maxEvidence);
      assert e == entry(names[i]);
      if e.Some? {
        raw := raw + [e.value];
      }
      i := i + 1;
    }
    assert names[..|names|] == names;
  }

  method MakePairedEntry(pairs: seq<Pair>, name: string, p: Trajectory -> bool, maxEvidence: int) returns (e: Option<Entry>)
    requires pairs != []
    ensures e == PairedEntry(McNemar.McNemarExact, pairs, name, p, maxEvidence)
  {
    var b, c, evidence := CountDiscordant(pairs, p);
    if b + c == 0 {
      return None;
    }
    e := Some(Entry(name, |Filter(pairs, InThink(p))|, |pairs|, |Filter(pairs, InNoThink(p))|, |pairs|, b, c, McNemar.McNemarExact(b, c),
                    Slice(Sort(evidence, StringLe), maxEvidence)));
  }
}
