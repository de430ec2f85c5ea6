/** Counting action n-grams: capped counts per trajectory, document frequencies, and the rows of
    the report. Actions are canonical symbols. */
module Ngrams {
  import opened Ordering
  import opened RealAlgebra

  type Gram = seq<string>

  datatype Trajectory = Trajectory(id: string, reward: real, actions: seq<string>)

  /** counts.get(g, 0). */
  function Get(m: map<Gram, nat>, g: Gram): nat { if g in m then m[g] else 0 }

  function Cap(cap: int, x: nat): nat {
    if cap <= 0 then 0 else if x < cap then x else cap
  }

  predicate At(actions: seq<string>, g: Gram, start: nat) {
    start + |g| <= |actions| && actions[start..start + |g|] == g
  }

  /** Occurrences that start before `upTo`; they may overlap. */
  function OccBefore(actions: seq<string>, g: Gram, upTo: nat): nat {
    if upTo == 0 then 0 else OccBefore(actions, g, upTo - 1) + if At(actions, g, upTo - 1) then 1 else 0
  }

  function Occurrences(actions: seq<string>, g: Gram): nat {
    OccBefore(actions, g, |actions| + 1)
  }

  /** What one trajectory contributes to a gram. */
  function Capped(actions: seq<string>, lengths: seq<nat>, cap: int, g: Gram): nat {
    if |g| in lengths then Cap(cap, Occurrences(actions, g)) else 0
  }

  // ---- one trajectory --------------------------------------------------------------------------------

  lemma {:induction false} NoneBeyond(actions: seq<string>, g: Gram, upTo: nat)
    requires |g| > |actions| || |actions| - |g| + 1 <= upTo
    ensures OccBefore(actions, g, upTo) == if |g| > |actions| then 0 else OccBefore(actions, g, |actions| - |g| + 1)
  {
    if upTo > 0 && (|g| > |actions| || |actions| - |g| + 1 < upTo) { NoneBeyond(actions, g, upTo - 1); }
  }

  /** The table after the lengths in `done` and the starts before i for length n. */
  ghost predicate Counted(actions: seq<string>, done: seq<nat>, n: nat, i: nat, cap: int, per: map<Gram, nat>) {
    && (forall g :: Get(per, g) == if |g| in done then Cap(cap, Occurrences(actions, g))
                                   else if |g| == n then Cap(cap, OccBefore(actions, g, i)) else 0)
    && forall g :: g in per ==> per[g] > 0
  }

  ghost predicate Added(counts: map<Gram, nat>, per: map<Gram, nat>, counts': map<Gram, nat>) {
    && (forall g :: Get(counts', g) == Get(counts, g) + Get(per, g))
    && counts'.Keys == counts.Keys + per.Keys
  }

  function Bumped(m: map<Gram, nat>, g: Gram): map<Gram, nat> { m[g := Get(m, g) + 1] }

  lemma OneMoreStart(actions: seq<string>, done: seq<nat>, n: nat, i: nat, cap: int, per: map<Gram, nat>)
    requires n !in done && i + n <= |actions| && Counted(actions, done, n, i, cap, per)
    ensures var gram := actions[i..i + n];
      Counted(actions, done, n, i + 1, cap, if Get(per, gram) >= cap then per else Bumped(per, gram))
  {
    var gram := actions[i..i + n];
    forall g | |g| == n ensures At(actions, g, i) <==> g == gram {}
  }

  lemma BothBumped(counts: map<Gram, nat>, per: map<Gram, nat>, counts': map<Gram, nat>, gram: Gram)
    requires Added(counts, per, counts')
    ensures Added(counts, Bumped(per, gram), Bumped(counts', gram))
  {
  }

  /** The table after all the lengths in `done`. */
  ghost predicate CountedAll(actions: seq<string>, done: seq<nat>, cap: int, per: map<Gram, nat>) {
    && (forall g :: Get(per, g) == Capped(actions, done, cap, g))
    && forall g :: g in per ==> per[g] > 0
  }

  lemma LengthDone(actions: seq<string>, done: seq<nat>, n: nat, i: nat, cap: int, per: map<Gram, nat>)
    requires n !in done && Counted(actions, done, n, i, cap, per)
    requires if |actions| < n then i == 0 else i == |actions| - n + 1
    ensures CountedAll(actions, done + [n], cap, per)
  {
    forall g: Gram | |g| == n ensures OccBefore(actions, g, i) == Occurrences(actions, g) {
      NoneBeyond(actions, g, |actions| + 1);
    }
  }

  /** One length: every start in turn, up to the cap for each gram. */
  method CountLength(actions: seq<string>, ghost done: seq<nat>, n: nat, cap: int, per0: map<Gram, nat>,
                     counts0: map<Gram, nat>,
                     ghost start: map<Gram, nat>) returns (per: map<Gram, nat>, counts: map<Gram, nat>)
    requires n !in done && CountedAll(actions, done, cap, per0) && Added(start, per0, counts0)
    ensures CountedAll(actions, done + [n], cap, per) && Added(start, per, counts)
  {
    per, counts := per0, counts0;
    if |actions| < n {
      LengthDone(actions, done, n, 0, cap, per);
      return;
    }
    var i := 0;
    while i < |actions| - n + 1
      invariant 0 <= i <= |actions| - n + 1
      invariant Counted(actions, done, n, i, cap, per) && Added(start, per, counts)
    {
      var gram := actions[i..i + n];
      OneMoreStart(actions, done, n, i, cap, per);
      if Get(per, gram) < cap {
        BothBumped(start, per, counts, gram);
        per := Bumped(per, gram);
        counts := Bumped(counts, gram);
      }
      i := i + 1;
    }
    LengthDone(actions, done, n, i, cap, per);
  }

  /** One trajectory: what it contributes, and the running counts with that added. */
  method CountTrajectory(actions: seq<string>, lengths: seq<nat>, cap: int, counts0: map<Gram, nat>)
      returns (per: map<Gram, nat>, counts: map<Gram, nat>)
    requires Distinct(lengths)
    ensures CountedAll(actions, lengths, cap, per) && Added(counts0, per, counts)
  {
    per, counts := map[], counts0;
    var k := 0;
    while k < |lengths|
      invariant 0 <= k <= |lengths|
      invariant CountedAll(actions, lengths[..k], cap, per) && Added(counts0, per, counts)
    {
      per, counts := CountLength(actions, lengths[..k], lengths[k], cap, per, counts, counts0);
      assert lengths[..k + 1] == lengths[..k] + [lengths[k]];
      k := k + 1;
    }
    assert lengths[..|lengths|] == lengths;
  }

  // ---- all trajectories ---------------------------------------------------------------------------------

  function IsWin(t: Trajectory): bool { t.reward > 0.0 }

  function IsLoss(t: Trajectory): bool { !IsWin(t) }

  function Anyone(t: Trajectory): bool { true }

  function ContributionOf(lengths: seq<nat>, cap: int, g: Gram): Trajectory -> nat {
    (t: Trajectory) => Capped(t.actions, lengths, cap, g)
  }

  /** The count of a gram: the sum of the capped contributions. */
  function Total(trajectories: seq<Trajectory>, lengths: seq<nat>, cap: int, g: Gram): nat {
    SumOver(trajectories, ContributionOf(lengths, cap, g))
  }

  predicate Contributes(lengths: seq<nat>, cap: int, g: Gram, t: Trajectory) {
    Capped(t.actions, lengths, cap, g) > 0
  }

  /** Ids of the trajectories of a kind that contribute to the gram. */
  function DocsWith(trajectories: seq<Trajectory>, lengths: seq<nat>, cap: int, g: Gram,
                    kind: Trajectory -> bool): set<string> {
    set t | t in trajectories && kind(t) && Contributes(lengths, cap, g, t) :: t.id
  }

  function Docs(m: map<Gram, set<string>>, g: Gram): set<string> { if g in m then m[g] else {} }

  datatype Tally = Tally(counts: map<Gram, nat>, docs: map<Gram, set<string>>, winDocs: map<Gram, set<string>>,
                         lossDocs: map<Gram, set<string>>, wins: nat, losses: nat)

  ghost predicate IsTally(trajectories: seq<Trajectory>, lengths: seq<nat>, cap: int, split: bool, tally: Tally) {
    && (forall g :: Get(tally.counts, g) == Total(trajectories, lengths, cap, g))
    && (forall g :: g in tally.counts ==> tally.counts[g] > 0)
    && (forall g :: Docs(tally.docs, g) == DocsWith(trajectories, lengths, cap, g, Anyone))
    && (forall g :: Docs(tally.winDocs, g) == if split then DocsWith(trajectories, lengths, cap, g, IsWin) else {})
    && (forall g :: Docs(tally.lossDocs, g) == if split then DocsWith(trajectories, lengths, cap, g, IsLoss) else {})
    && tally.wins == |Filter(trajectories, IsWin)| && tally.losses == |Filter(trajectories, IsLoss)|
  }

  /** setdefault(gram, set()).add(id) for every gram. */
  method AddDocument(docs0: map<Gram, set<string>>, grams: set<Gram>, id: string) returns (docs: map<Gram, set<string>>)
    ensures forall g :: Docs(docs, g) == Docs(docs0, g) + if g in grams then {id} else {}
  {
    docs := docs0;
    var rest := grams;
    while rest != {}
      invariant rest <= grams
      invariant forall g :: Docs(docs, g) == Docs(docs0, g) + if g in grams - rest then {id} else {}
      decreases rest
    {
      var gram :| gram in rest;
      docs := docs[gram := Docs(docs, gram) + {id}];
      rest := rest - {gram};
    }
  }

  lemma TotalOneMore(front: seq<Trajectory>, t: Trajectory, lengths: seq<nat>, cap: int, g: Gram)
    ensures Total(front + [t], lengths, cap, g) == Total(front, lengths, cap, g) + Capped(t.actions, lengths, cap, g)
  {
    assert (front + [t])[..|front|] == front;
  }

  lemma DocsOneMore(front: seq<Trajectory>, t: Trajectory, lengths: seq<nat>, cap: int, g: Gram, kind: Trajectory -> bool)
    ensures DocsWith(front + [t], lengths, cap, g, kind)
         == DocsWith(front, lengths, cap, g, kind) + if kind(t) && Contributes(lengths, cap, g, t) then {t.id} else {}
  {
    forall u ensures u in front + [t] <==> u in front || u == t { assert (front + [t])[|front|] == t; }
  }

  lemma KindsOneMore(front: seq<Trajectory>, t: Trajectory, kind: Trajectory -> bool)
    ensures |Filter(front + [t], kind)| == |Filter(front, kind)| + if kind(t) then 1 else 0
  {
    FilterSplits(front, [t], kind);
    FilterOne(t, kind);
  }

  /** Ids filed under every gram of `per`. */
  ghost predicate Filed(docs: map<Gram, set<string>>, per: map<Gram, nat>, id: string, docs': map<Gram, set<string>>) {
    forall g :: Docs(docs', g) == Docs(docs, g) + if g in per then {id} else {}
  }

  lemma ContributesIffIn(actions: seq<string>, lengths: seq<nat>, cap: int, per: map<Gram, nat>, g: Gram)
    requires CountedAll(actions, lengths, cap, per)
    ensures g in per <==> Capped(actions, lengths, cap, g) > 0
  {
    assert Get(per, g) == Capped(actions, lengths, cap, g);
  }

  /** Filing under one kind of trajectory. */
  lemma FiledOneMore(front: seq<Trajectory>, t: Trajectory, lengths: seq<nat>, cap: int, kind: Trajectory -> bool,
                     per: map<Gram, nat>,
                     docs: map<Gram, set<string>>, docs': map<Gram, set<string>>)
    requires CountedAll(t.actions, lengths, cap, per)
    requires forall g :: Docs(docs, g) == DocsWith(front, lengths, cap, g, kind)
    requires if kind(t) then Filed(docs, per, t.id, docs') else docs' == docs
    ensures forall g :: Docs(docs', g) == DocsWith(front + [t], lengths, cap, g, kind)
  {
    forall g ensures Docs(docs', g) == DocsWith(front + [t], lengths, cap, g, kind) {
      ContributesIffIn(t.actions, lengths, cap, per, g);
      DocsOneMore(front, t, lengths, cap, g, kind);
    }
  }

  lemma CountsOneMore(front: seq<Trajectory>, t: Trajectory, lengths: seq<nat>, cap: int, per: map<Gram, nat>,
                      counts: map<Gram, nat>, counts': map<Gram, nat>)
    requires CountedAll(t.actions, lengths, cap, per) && Added(counts, per, counts')
    requires forall g :: Get(counts, g) == Total(front, lengths, cap, g)
    ensures forall g :: Get(counts', g) == Total(front + [t], lengths, cap, g)
  {
    forall g ensures Get(counts', g) == Total(front + [t], lengths, cap, g) {
      assert Get(counts', g) == Get(counts, g) + Get(per, g);
      TotalOneMore(front, t, lengths, cap, g);
    }
  }

  lemma PositiveOneMore(counts: map<Gram, nat>, per: map<Gram, nat>, counts': map<Gram, nat>)
    requires Added(counts, per, counts')
    requires (forall g :: g in counts ==> counts[g] > 0) && forall g :: g in per ==> per[g] > 0
    ensures forall g :: g in counts' ==> counts'[g] > 0
  {
    forall g | g in counts' ensures counts'[g] > 0 {
      assert Get(counts', g) == Get(counts, g) + Get(per, g);
    }
  }

  method AddTrajectory(ghost front: seq<Trajectory>, t: Trajectory, lengths: seq<nat>, cap: int, split: bool, tally: Tally)
      returns (tally': Tally)
    requires Distinct(lengths) && IsTally(front, lengths, cap, split, tally)
    ensures IsTally(front + [t], lengths, cap, split, tally')
  {
    var per, counts := CountTrajectory(t.actions, lengths, cap, tally.counts);
    var docs := AddDocument(tally.docs, per.Keys, t.id);
    var winDocs, lossDocs := tally.winDocs, tally.lossDocs;
    if split && IsWin(t) {
      winDocs := AddDocument(winDocs, per.Keys, t.id);
    } else if split {
      lossDocs := AddDocument(lossDocs, per.Keys, t.id);
    }
    tally' := Tally(counts, docs, winDocs, lossDocs,
                    tally.wins + if IsWin(t) then 1 else 0, tally.losses + if IsWin(t) then 0 else 1);
    CountsOneMore(front, t, lengths, cap, per, tally.counts, counts);
    PositiveOneMore(tally.counts, per, counts);
    FiledOneMore(front, t, lengths, cap, Anyone, per, tally.docs, docs);
    if split {
      FiledOneMore(front, t, lengths, cap, IsWin, per, tally.winDocs, winDocs);
      FiledOneMore(front, t, lengths, cap, IsLoss, per, tally.lossDocs, lossDocs);
    }
    KindsOneMore(front, t, IsWin);
    KindsOneMore(front, t, IsLoss);
  }

  predicate IdLe(t: Trajectory, u: Trajectory) { StringLe(t.id, u.id) }

  method TallyAll(ordered: seq<Trajectory>, lengths: seq<nat>, cap: int, split: bool) returns (tally: Tally)
    requires Distinct(lengths)
    ensures IsTally(ordered, lengths, cap, split, tally)
  {
    tally := Tally(map[], map[], map[], map[], 0, 0);
    var i := 0;
    while i < |ordered|
      invariant 0 <= i <= |ordered|
      invariant IsTally(ordered[..i], lengths, cap, split, tally)
    {
      tally := AddTrajectory(ordered[..i], ordered[i], lengths, cap, split, tally);
      assert ordered[..i + 1] == ordered[..i] + [ordered[i]];
      i := i + 1;
    }
    assert ordered[..|ordered|] == ordered;
  }

  // ---- the rows --------------------------------------------------------------------------------------------

  datatype Row = Row(gram: Gram, n: nat, count: nat, docFreq: nat, inWins: nat, inLosses: nat, wins: nat, losses: nat)
  {
    /** From document frequencies, not from raw counts. */
    function Lift(): real { Rate(inWins, wins) - Rate(inLosses, losses) }
  }

  predicate GramLe(a: Gram, b: Gram) {
    a == [] || (b != [] && ((a[0] != b[0] && StringLe(a[0], b[0])) || (a[0] == b[0] && GramLe(a[1..], b[1..]))))
  }

  /** By effect size, then count, then gram. */
  predicate RowLe(x: Row, y: Row) {
    Abs(x.Lift()) > Abs(y.Lift())
    || (Abs(x.Lift()) == Abs(y.Lift()) && (x.count > y.count || (x.count == y.count && GramLe(x.gram, y.gram))))
  }

  /** The row of a gram. */
  function RowOf(trajectories: seq<Trajectory>, lengths: seq<nat>, cap: int, split: bool, g: Gram): Row {
    Row(g, |g|, Total(trajectories, lengths, cap, g), |DocsWith(trajectories, lengths, cap, g, Anyone)|,
        if split then |DocsWith(trajectories, lengths, cap, g, IsWin)| else 0,
        if split then |DocsWith(trajectories, lengths, cap, g, IsLoss)| else 0,
        |Filter(trajectories, IsWin)|, |Filter(trajectories, IsLoss)|)
  }

  predicate Frequent(trajectories: seq<Trajectory>, lengths: seq<nat>, cap: int, minCount: int, g: Gram) {
    Total(trajectories, lengths, cap, g) > 0 && Total(trajectories, lengths, cap, g) >= minCount
  }

  /** The rows of the grams that occur often enough, each once, in order. */
  ghost predicate IsReport(trajectories: seq<Trajectory>, lengths: seq<nat>, cap: int, minCount: int, split: bool,
                           rows: seq<Row>) {
    && Sorted(rows, RowLe) && Distinct(rows)
    && forall row :: row in rows
         <==> Frequent(trajectories, lengths, cap, minCount, row.gram) && row == RowOf(trajectories, lengths, cap, split, row.gram)
  }

  function RowFrom(tally: Tally): Gram -> Row {
    (g: Gram) => Row(g, |g|, Get(tally.counts, g), |Docs(tally.docs, g)|, |Docs(tally.winDocs, g)|, |Docs(tally.lossDocs, g)|,
                     tally.wins, tally.losses)
  }

  function Enough(tally: Tally, minCount: int): Gram -> bool {
    (g: Gram) => Get(tally.counts, g) >= minCount
  }

  /** The keys of a table, in some order. */
  method KeysOf(counts: map<Gram, nat>) returns (keys: seq<Gram>)
    ensures Distinct(keys) && forall g :: g in keys <==> g in counts
  {
    keys := [];
    var rest := counts.Keys;
    while rest != {}
      invariant rest <= counts.Keys
      invariant Distinct(keys) && forall g :: g in keys <==> g in counts.Keys - rest
      decreases rest
    {
      var g :| g in rest;
      DistinctSnoc(keys, g);
      keys := keys + [g];
      rest := rest - {g};
    }
  }

  method MakeRows(grams: seq<Gram>, tally: Tally, minCount: int) returns (rows: seq<Row>)
    ensures rows == Apply(Filter(grams, Enough(tally, minCount)), RowFrom(tally))
  {
    rows := [];
    var i := 0;
    while i < |grams|
      invariant 0 <= i <= |grams|
      invariant rows == Apply(Filter(grams[..i], Enough(tally, minCount)), RowFrom(tally))
    {
      assert grams[..i + 1] == grams[..i] + [grams[i]];
      FilterSplits(grams[..i], [grams[i]], Enough(tally, minCount));
      FilterOne(grams[i], Enough(tally, minCount));
      if Get(tally.counts, grams[i]) >= minCount {
        rows := rows + [RowFrom(tally)(grams[i])];
      }
      i := i + 1;
    }
    assert grams[..|grams|] == grams;
  }

  predicate NatLe(x: nat, y: nat) { x <= y }

  /** sorted(set(n_values)). */
  function Lengths(nValues: seq<nat>): seq<nat> {
    if nValues == [] then []
    else
      var rest := Lengths(nValues[1..]);
      if nValues[0] in rest then rest else Insert(nValues[0], rest, NatLe)
  }

  lemma {:induction false} LengthsFacts(nValues: seq<nat>)
    ensures Distinct(Lengths(nValues)) && Sorted(Lengths(nValues), NatLe) && forall n :: n in Lengths(nValues) <==> n in nValues
    ensures forall i, j :: 0 <= i < j < |Lengths(nValues)| ==> Lengths(nValues)[i] < Lengths(nValues)[j]
  {
    if nValues != [] {
      var rest := Lengths(nValues[1..]);
      LengthsFacts(nValues[1..]);
      assert nValues == [nValues[0]] + nValues[1..];
      if nValues[0] !in rest {
        InsertDistinct(nValues[0], rest, NatLe);
        InsertSorted(nValues[0], rest, NatLe);
        InsertMembers(nValues[0], rest, NatLe);
      }
    }
  }

  lemma RowsAreDistinct(grams: seq<Gram>, tally: Tally)
    requires Distinct(grams)
    ensures Distinct(Apply(grams, RowFrom(tally)))
  {
    var rows := Apply(grams, RowFrom(tally));
    forall i, j | 0 <= i < j < |grams| ensures rows[i] != rows[j] { assert rows[i].gram == grams[i] && rows[j].gram == grams[j]; }
  }

  lemma {:induction false} FilterDistinct<T>(s: seq<T>, p: T -> bool)
    requires Distinct(s)
    ensures Distinct(Filter(s, p))
  {
    if s != [] {
      FilterDistinct(s[1..], p);
      FilterMembers(s[1..], p);
      DistinctCons(s[0], s[1..]);
      assert s == [s[0]] + s[1..];
      DistinctCons(s[0], Filter(s[1..], p));
    }
  }

  lemma RowMembers(grams: seq<Gram>, tally: Tally, row: Row)
    ensures row in Apply(grams, RowFrom(tally)) <==> row.gram in grams && row == RowFrom(tally)(row.gram)
  {
    var rows := Apply(grams, RowFrom(tally));
    if row in rows {
      var i :| 0 <= i < |grams| && rows[i] == row;
      assert row == RowFrom(tally)(grams[i]);
    }
    if row.gram in grams && row == RowFrom(tally)(row.gram) {
      var i :| 0 <= i < |grams| && grams[i] == row.gram;
      assert rows[i] == row;
    }
  }

  lemma RowFromTally(trajectories: seq<Trajectory>, lengths: seq<nat>, cap: int, split: bool, tally: Tally, g: Gram)
    requires IsTally(trajectories, lengths, cap, split, tally)
    ensures RowFrom(tally)(g) == RowOf(trajectories, lengths, cap, split, g)
    ensures g in tally.counts <==> Total(trajectories, lengths, cap, g) > 0
  {
    assert Get(tally.counts, g) == Total(trajectories, lengths, cap, g);
  }

  lemma RowsMakeReport(trajectories: seq<Trajectory>, lengths: seq<nat>, cap: int, minCount: int, split: bool, tally: Tally,
                       grams: seq<Gram>, rows: seq<Row>)
    requires IsTally(trajectories, lengths, cap, split, tally)
    requires Distinct(grams) && forall g :: g in grams <==> g in tally.counts
    requires rows == Apply(Filter(grams, Enough(tally, minCount)), RowFrom(tally))
    ensures IsReport(trajectories, lengths, cap, minCount, split, Sort(rows, RowLe))
  {
    var kept := Filter(grams, Enough(tally, minCount));
    RowLeIsOrder();
    SortSorts(rows, RowLe);
    SortMembers(rows, RowLe);
    FilterMembers(grams, Enough(tally, minCount));
    FilterDistinct(grams, Enough(tally, minCount));
    RowsAreDistinct(kept, tally);
    SortDistinct(rows, RowLe);
    forall row ensures row in rows
      <==> Frequent(trajectories, lengths, cap, minCount, row.gram) && row == RowOf(trajectories, lengths, cap, split, row.gram)
    {
      RowMembers(kept, tally, row);
      RowFromTally(trajectories, lengths, cap, split, tally, row.gram);
    }
  }

  // ---- the order -------------------------------------------------------------------------------------------------

  lemma {:induction false} GramLeTotal(a: Gram, b: Gram)
    ensures GramLe(a, b) || GramLe(b, a)
  {
    if a != [] && b != [] {
      StringLeTotal(a[0], b[0]);
      if a[0] == b[0] { GramLeTotal(a[1..], b[1..]); }
    }
  }

  lemma {:induction false} GramLeTransitive(a: Gram, b: Gram, c: Gram)
    requires GramLe(a, b) && GramLe(b, c)
    ensures GramLe(a, c)
  {
    if a != [] {
      if a[0] == b[0] == c[0] {
        GramLeTransitive(a[1..], b[1..], c[1..]);
      } else {
        if a[0] != b[0] && b[0] != c[0] { StringLeTransitive(a[0], b[0], c[0]); }
        if a[0] == c[0] { StringLeAntisymmetric(a[0], b[0]); }
      }
    }
  }

  lemma {:induction false} GramLeAntisymmetric(a: Gram, b: Gram)
    requires GramLe(a, b) && GramLe(b, a)
    ensures a == b
  {
    if a != [] && b != [] {
      if a[0] != b[0] { StringLeAntisymmetric(a[0], b[0]); }
      GramLeAntisymmetric(a[1..], b[1..]);
      assert a == [a[0]] + a[1..] && b == [b[0]] + b[1..];
    }
  }

  lemma RowLeIsOrder()
    ensures TotalPreorder(RowLe)
  {
    forall x: Row, y: Row ensures RowLe(x, y) || RowLe(y, x) { GramLeTotal(x.gram, y.gram); }
    forall x: Row, y: Row, z: Row | RowLe(x, y) && RowLe(y, z) ensures RowLe(x, z) {
      if GramLe(x.gram, y.gram) && GramLe(y.gram, z.gram) { GramLeTransitive(x.gram, y.gram, z.gram); }
    }
  }

  // ---- the report --------------------------------------------------------------------------------------------------

  datatype Report = Report(rows: seq<Row>, lengths: seq<nat>, wins: nat, losses: nat)

  method ActionNgrams(trajectories: seq<Trajectory>, nValues: seq<nat>, minCount: int, cap: int,
                      split: bool) returns (report: Report)
    ensures report.lengths == Lengths(nValues)
    ensures IsReport(trajectories, Lengths(nValues), cap, minCount, split, report.rows)
    ensures report.wins == |Filter(trajectories, IsWin)| && report.losses == |Filter(trajectories, IsLoss)|
  {
    var lengths := Lengths(nValues);
    LengthsFacts(nValues);
    var ordered := Sort(trajectories, IdLe);
    SortPermutes(trajectories, IdLe);
    var tally := TallyAll(ordered, lengths, cap, split);
    TallyIgnoresOrder(ordered, trajectories, lengths, cap, split, tally);
    var keys := KeysOf(tally.counts);
    var grams := Sort(keys, GramLe);
    SortDistinct(keys, GramLe);
    SortMembers(keys, GramLe);
    var rows := MakeRows(grams, tally, minCount);
    RowsMakeReport(trajectories, lengths, cap, minCount, split, tally, grams, rows);
    report := Report(Sort(rows, RowLe), lengths, tally.wins, tally.losses);
  }

  lemma DocsIgnoreOrder(s: seq<Trajectory>, t: seq<Trajectory>, lengths: seq<nat>, cap: int, g: Gram, kind: Trajectory -> bool)
    requires multiset(s) == multiset(t)
    ensures DocsWith(s, lengths, cap, g, kind) == DocsWith(t, lengths, cap, g, kind)
  {
    MembersOfMultiset(s, t);
  }

  lemma KindsIgnoreOrder(s: seq<Trajectory>, t: seq<Trajectory>)
    requires multiset(s) == multiset(t)
    ensures |Filter(s, IsWin)| == |Filter(t, IsWin)| && |Filter(s, IsLoss)| == |Filter(t, IsLoss)|
  {
    CountIgnoresOrder(s, t, IsWin);
    CountIgnoresOrder(s, t, IsLoss);
  }

  lemma TallyIgnoresOrder(s: seq<Trajectory>, t: seq<Trajectory>, lengths: seq<nat>, cap: int, split: bool, tally: Tally)
    requires multiset(s) == multiset(t) && IsTally(s, lengths, cap, split, tally)
    ensures IsTally(t, lengths, cap, split, tally)
  {
    KindsIgnoreOrder(s, t);
    forall g ensures Get(tally.counts, g) == Total(t, lengths, cap, g) {
      SumOverIgnoresOrder(s, t, ContributionOf(lengths, cap, g));
    }
    forall g ensures Docs(tally.docs, g) == DocsWith(t, lengths, cap, g, Anyone) { DocsIgnoreOrder(s, t, lengths, cap, g, Anyone); }
    forall g ensures Docs(tally.winDocs, g) == if split then DocsWith(t, lengths, cap, g, IsWin) else {} {
      DocsIgnoreOrder(s, t, lengths, cap, g, IsWin);
    }
    forall g ensures Docs(tally.lossDocs, g) == if split then DocsWith(t, lengths, cap, g, IsLoss) else {} {
      DocsIgnoreOrder(s, t, lengths, cap, g, IsLoss);
    }
  }
}
