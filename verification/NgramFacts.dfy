/** Conservation in the n-gram report: document frequencies, bounds, and independence of order. */
module NgramFacts {
  import opened Ordering
  import opened Ngrams

  function IdOf(t: Trajectory): string { t.id }

  function InDocs(lengths: seq<nat>, cap: int, g: Gram, kind: Trajectory -> bool): Trajectory -> bool {
    (t: Trajectory) => kind(t) && Contributes(lengths, cap, g, t)
  }

  /** With unique ids the document frequency counts trajectories. */
  lemma {:induction false} DocsAreTrajectories(trajectories: seq<Trajectory>, lengths: seq<nat>, cap: int, g: Gram,
                                        kind: Trajectory -> bool)
    requires DistinctBy(trajectories, IdOf)
    ensures |DocsWith(trajectories, lengths, cap, g, kind)| == |Filter(trajectories, InDocs(lengths, cap, g, kind))|
  {
    if trajectories != [] {
      var n := |trajectories| - 1;
      var front, t := trajectories[..n], trajectories[n];
      assert trajectories == front + [t];
      DocsAreTrajectories(front, lengths, cap, g, kind);
      DocsOneMore(front, t, lengths, cap, g, kind);
      FilterSplits(front, [t], InDocs(lengths, cap, g, kind));
      FilterOne(t, InDocs(lengths, cap, g, kind));
      assert t.id !in DocsWith(front, lengths, cap, g, kind);
    }
  }

  lemma InDocsMeans(lengths: seq<nat>, cap: int, g: Gram, kind: Trajectory -> bool, t: Trajectory)
    ensures InDocs(lengths, cap, g, kind)(t) <==> kind(t) && Contributes(lengths, cap, g, t)
  {
  }

  lemma InDocsOfKinds(lengths: seq<nat>, cap: int, g: Gram, t: Trajectory)
    ensures InDocs(lengths, cap, g, Anyone)(t) <==> Contributes(lengths, cap, g, t)
    ensures InDocs(lengths, cap, g, IsWin)(t) <==> IsWin(t) && Contributes(lengths, cap, g, t)
    ensures InDocs(lengths, cap, g, IsLoss)(t) <==> !IsWin(t) && Contributes(lengths, cap, g, t)
  {
    var anyone: Trajectory -> bool, win: Trajectory -> bool, loss: Trajectory -> bool := Anyone, IsWin, IsLoss;
    assert anyone(t) && (win(t) <==> IsWin(t)) && (loss(t) <==> !IsWin(t));
    InDocsMeans(lengths, cap, g, Anyone, t);
    InDocsMeans(lengths, cap, g, IsWin, t);
    InDocsMeans(lengths, cap, g, IsLoss, t);
  }

  lemma {:induction false} KindsPartitionDocs(trajectories: seq<Trajectory>, lengths: seq<nat>, cap: int, g: Gram)
    ensures |Filter(trajectories, InDocs(lengths, cap, g, Anyone))|
         == |Filter(trajectories, InDocs(lengths, cap, g, IsWin))| + |Filter(trajectories, InDocs(lengths, cap, g, IsLoss))|
  {
    if trajectories != [] {
      var t := trajectories[0];
      KindsPartitionDocs(trajectories[1..], lengths, cap, g);
      InDocsOfKinds(lengths, cap, g, t);
    }
  }

  /** A trajectory contains the gram: it contributes, when the cap lets anything through. */
  lemma ContributesIffOccurs(lengths: seq<nat>, cap: int, g: Gram, t: Trajectory)
    requires cap >= 1
    ensures Contributes(lengths, cap, g, t) <==> |g| in lengths && exists start :: 0 <= start <= |t.actions| && At(t.actions, g, start)
  {
    OccursSomewhere(t.actions, g, |t.actions| + 1);
  }

  lemma {:induction false} OccursSomewhere(actions: seq<string>, g: Gram, upTo: nat)
    ensures OccBefore(actions, g, upTo) > 0 <==> exists start :: 0 <= start < upTo && At(actions, g, start)
  {
    if upTo > 0 {
      OccursSomewhere(actions, g, upTo - 1);
      if At(actions, g, upTo - 1) { assert 0 <= upTo - 1 < upTo; }
    }
  }

  /** With unique ids a row's document frequency is the number of trajectories with the gram, and
      splits into those that won and those that lost. */
  lemma DocumentFrequencies(trajectories: seq<Trajectory>, lengths: seq<nat>, cap: int, split: bool, g: Gram)
    requires DistinctBy(trajectories, IdOf)
    ensures var row := RowOf(trajectories, lengths, cap, split, g);
      && row.docFreq == |Filter(trajectories, InDocs(lengths, cap, g, Anyone))|
      && (split ==> row.docFreq == row.inWins + row.inLosses && row.inWins <= row.wins && row.inLosses <= row.losses)
  {
    DocsAreTrajectories(trajectories, lengths, cap, g, Anyone);
    DocsAreTrajectories(trajectories, lengths, cap, g, IsWin);
    DocsAreTrajectories(trajectories, lengths, cap, g, IsLoss);
    KindsPartitionDocs(trajectories, lengths, cap, g);
    NoMoreThanKind(trajectories, lengths, cap, g, IsWin);
    NoMoreThanKind(trajectories, lengths, cap, g, IsLoss);
  }

  lemma {:induction false} NoMoreThanKind(trajectories: seq<Trajectory>, lengths: seq<nat>, cap: int, g: Gram,
                                        kind: Trajectory -> bool)
    ensures |Filter(trajectories, InDocs(lengths, cap, g, kind))| <= |Filter(trajectories, kind)|
  {
    if trajectories != [] {
      NoMoreThanKind(trajectories[1..], lengths, cap, g, kind);
      assert InDocs(lengths, cap, g, kind)(trajectories[0]) ==> kind(trajectories[0]);
    }
  }

  lemma {:induction false} TotalBounds(trajectories: seq<Trajectory>, lengths: seq<nat>, cap: nat, g: Gram, docs: nat,
                                       most: nat)
    requires docs == |Filter(trajectories, InDocs(lengths, cap, g, Anyone))| && most == cap * docs
    ensures docs <= Total(trajectories, lengths, cap, g) <= most
  {
    if trajectories != [] {
      var n := |trajectories| - 1;
      var front, t := trajectories[..n], trajectories[n];
      var before := |Filter(front, InDocs(lengths, cap, g, Anyone))|;
      assert trajectories == front + [t];
      TotalBounds(front, lengths, cap, g, before, cap * before);
      TotalOneMore(front, t, lengths, cap, g);
      FilterSplits(front, [t], InDocs(lengths, cap, g, Anyone));
      FilterOne(t, InDocs(lengths, cap, g, Anyone));
      InDocsOfKinds(lengths, cap, g, t);
      TimesOneMore(cap, before, docs, cap * before, most);
      assert docs == before + if Contributes(lengths, cap, g, t) then 1 else 0;
    }
  }

  lemma TimesOneMore(cap: nat, k: nat, l: nat, ck: nat, cl: nat)
    requires ck == cap * k && cl == cap * l
    ensures l == k ==> cl == ck
    ensures l == k + 1 ==> cl == ck + cap
  {
    if l == k + 1 { assert cap * (k + 1) == cap * k + cap; }
  }

  /** No trajectory counts more than `cap` times: with unique ids, docFreq <= count <= cap * docFreq. */
  lemma CountBounds(trajectories: seq<Trajectory>, lengths: seq<nat>, cap: nat, split: bool, g: Gram)
    requires DistinctBy(trajectories, IdOf)
    ensures var row := RowOf(trajectories, lengths, cap, split, g);
      row.docFreq <= row.count <= cap * row.docFreq
  {
    DocsAreTrajectories(trajectories, lengths, cap, g, Anyone);
    var docs := |Filter(trajectories, InDocs(lengths, cap, g, Anyone))|;
    TotalBounds(trajectories, lengths, cap, g, docs, cap * docs);
  }

  // ---- independence of order ---------------------------------------------------------------------

  lemma RowIgnoresOrder(s: seq<Trajectory>, t: seq<Trajectory>, lengths: seq<nat>, cap: int, split: bool, g: Gram)
    requires multiset(s) == multiset(t)
    ensures RowOf(s, lengths, cap, split, g) == RowOf(t, lengths, cap, split, g)
  {
    SumOverIgnoresOrder(s, t, ContributionOf(lengths, cap, g));
    DocsIgnoreOrder(s, t, lengths, cap, g, Anyone);
    DocsIgnoreOrder(s, t, lengths, cap, g, IsWin);
    DocsIgnoreOrder(s, t, lengths, cap, g, IsLoss);
    KindsIgnoreOrder(s, t);
  }

  lemma RowsDetermined(trajectories: seq<Trajectory>, lengths: seq<nat>, cap: int, minCount: int, split: bool, rows: seq<Row>)
    requires IsReport(trajectories, lengths, cap, minCount, split, rows)
    ensures KeyDetermines(multiset(rows), RowLe)
  {
    forall x, y | x in multiset(rows) && y in multiset(rows) && RowLe(x, y) && RowLe(y, x) ensures x == y {
      GramLeAntisymmetric(x.gram, y.gram);
      assert x in rows && y in rows;
    }
  }

  /** The contract pins the report down, and it is the same for any order of the trajectories. */
  lemma ReportIgnoresOrder(s: seq<Trajectory>, t: seq<Trajectory>, lengths: seq<nat>, cap: int, minCount: int, split: bool,
                           rows: seq<Row>, rows': seq<Row>)
    requires multiset(s) == multiset(t)
    requires IsReport(s, lengths, cap, minCount, split, rows) && IsReport(t, lengths, cap, minCount, split, rows')
    ensures rows == rows'
  {
    forall row ensures row in rows <==> row in rows' {
      RowIgnoresOrder(s, t, lengths, cap, split, row.gram);
    }
    SameElements(rows, rows');
    RowsDetermined(s, lengths, cap, minCount, split, rows);
    RowLeIsOrder();
    SortedUnique(rows, rows', RowLe);
  }
}
