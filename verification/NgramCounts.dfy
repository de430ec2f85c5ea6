/** The figures of the n-gram report, counted over positions of the input. */
module NgramCounts {
  import opened NgramFacts
  import opened Ngrams
  import opened Ordering
  import opened RealAlgebra

  /** A gram occurs as often as there are places where it stands. */
  lemma OccurrencesAreStarts(actions: seq<string>, g: Gram, starts: set<nat>)
    requires forall i: nat :: i in starts <==> i + |g| <= |actions| && actions[i..i + |g|] == g
    ensures Occurrences(actions, g) == |starts|
  {
    StartsBefore(actions, g, |actions| + 1, starts);
  }

  lemma {:induction false} StartsBefore(actions: seq<string>, g: Gram, upTo: nat, starts: set<nat>)
    requires forall i: nat :: i in starts <==> i < upTo && At(actions, g, i)
    ensures OccBefore(actions, g, upTo) == |starts|
  {
    if upTo == 0 {
      assert starts == {};
    } else {
      StartsBefore(actions, g, upTo - 1, starts - {upTo - 1});
      if At(actions, g, upTo - 1) { assert starts == (starts - {upTo - 1}) + {upTo - 1}; }
    }
  }

  /** The count of a row grows, with each trajectory, by the places where the gram stands, up to the cap. */
  lemma CountAddsUp(front: seq<Trajectory>, t: Trajectory, lengths: seq<nat>, cap: int, split: bool, g: Gram, starts: set<nat>)
    requires forall i: nat :: i in starts <==> i + |g| <= |t.actions| && t.actions[i..i + |g|] == g
    ensures RowOf([], lengths, cap, split, g).count == 0
    ensures RowOf(front + [t], lengths, cap, split, g).count - RowOf(front, lengths, cap, split, g).count
         == if |g| !in lengths || cap <= 0 then 0 else if |starts| < cap then |starts| else cap
  {
    OccurrencesAreStarts(t.actions, g, starts);
    TotalOneMore(front, t, lengths, cap, g);
  }

  ghost predicate Occurs(t: Trajectory, g: Gram) {
    exists start: nat :: StandsAt(t, g, start)
  }

  ghost predicate StandsAt(t: Trajectory, g: Gram, start: nat) {
    start + |g| <= |t.actions| && t.actions[start..start + |g|] == g
  }

  lemma ContributesIfItOccurs(lengths: seq<nat>, cap: int, g: Gram, t: Trajectory)
    requires cap >= 1 && |g| in lengths
    ensures Contributes(lengths, cap, g, t) <==> Occurs(t, g)
  {
    ContributesIffOccurs(lengths, cap, g, t);
    if start: nat :| StandsAt(t, g, start) {
      assert 0 <= start <= |t.actions| && At(t.actions, g, start);
    }
    if start :| 0 <= start <= |t.actions| && At(t.actions, g, start) {
      assert StandsAt(t, g, start);
    }
  }

  lemma DocsAt(trajectories: seq<Trajectory>, lengths: seq<nat>, cap: int, g: Gram, kind: Trajectory -> bool, at: set<nat>)
    requires DistinctBy(trajectories, IdOf) && cap >= 1 && |g| in lengths
    requires forall i: nat :: i in at <==> i < |trajectories| && kind(trajectories[i]) && Occurs(trajectories[i], g)
    ensures |DocsWith(trajectories, lengths, cap, g, kind)| == |at|
  {
    DocsAreTrajectories(trajectories, lengths, cap, g, kind);
    var test := InDocs(lengths, cap, g, kind);
    forall i: nat ensures i in at <==> i < |trajectories| && test(trajectories[i]) {
      if i < |trajectories| {
        ContributesIfItOccurs(lengths, cap, g, trajectories[i]);
        InDocsMeans(lengths, cap, g, kind, trajectories[i]);
      }
    }
    FilterCounts(trajectories, test, at);
  }

  lemma WinsAt(trajectories: seq<Trajectory>, won: set<nat>, lost: set<nat>)
    requires forall i: nat :: i in won <==> i < |trajectories| && trajectories[i].reward > 0.0
    requires forall i: nat :: i in lost <==> i < |trajectories| && trajectories[i].reward <= 0.0
    ensures |Filter(trajectories, IsWin)| == |won| && |Filter(trajectories, IsLoss)| == |lost|
  {
    var win: Trajectory -> bool, loss: Trajectory -> bool := IsWin, IsLoss;
    assert forall i: nat :: i in won <==> i < |trajectories| && win(trajectories[i]);
    assert forall i: nat :: i in lost <==> i < |trajectories| && loss(trajectories[i]);
    FilterCounts(trajectories, win, won);
    FilterCounts(trajectories, loss, lost);
  }

  /** With unique ids: a row counts the trajectories with the gram, those of them with a reward above zero and
      those without; its lift is the share among the winners less the share among the losers. */
  lemma RowCounts(trajectories: seq<Trajectory>, lengths: seq<nat>, cap: int, split: bool, g: Gram, having: set<nat>, won: set<nat>,
                  lost: set<nat>)
    requires DistinctBy(trajectories, IdOf) && cap >= 1 && |g| in lengths
    requires forall i: nat :: i in having <==> i < |trajectories| && Occurs(trajectories[i], g)
    requires forall i: nat :: i in won <==> i < |trajectories| && trajectories[i].reward > 0.0
    requires forall i: nat :: i in lost <==> i < |trajectories| && trajectories[i].reward <= 0.0
    ensures var row := RowOf(trajectories, lengths, cap, split, g);
      && row.gram == g && row.n == |g| && row.docFreq == |having| && row.wins == |won| && row.losses == |lost|
      && row.inWins == (if split then |having * won| else 0) && row.inLosses == (if split then |having * lost| else 0)
      && row.Lift() == (if won == {} then 0.0 else row.inWins as real / |won| as real)
                       - (if lost == {} then 0.0 else row.inLosses as real / |lost| as real)
  {
    WinsAt(trajectories, won, lost);
    var anyone: Trajectory -> bool, win: Trajectory -> bool, loss: Trajectory -> bool := Anyone, IsWin, IsLoss;
    assert forall i: nat :: i < |trajectories| ==> anyone(trajectories[i]) && (win(trajectories[i]) <==> trajectories[i].reward > 0.0);
    assert forall i: nat :: i < |trajectories| ==> (loss(trajectories[i]) <==> trajectories[i].reward <= 0.0);
    DocsAt(trajectories, lengths, cap, g, anyone, having);
    DocsAt(trajectories, lengths, cap, g, win, having * won);
    DocsAt(trajectories, lengths, cap, g, loss, having * lost);
  }

  /** Where two grams part, the lesser action comes first; a gram comes before what continues it. */
  lemma {:induction false} GramLeMeans(a: Gram, b: Gram)
    ensures GramLe(a, b) <==> a <= b || exists k :: PartsAt(a, b, k)
  {
    if a != [] && b != [] {
      if a[0] == b[0] {
        GramLeMeans(a[1..], b[1..]);
        assert a == [a[0]] + a[1..] && b == [b[0]] + b[1..];
        assert a <= b <==> a[1..] <= b[1..];
        if k :| PartsAt(a[1..], b[1..], k) { PartsLater(a, b, k); }
        if k :| PartsAt(a, b, k) { PartsLater(a, b, k - 1); }
      } else {
        assert PartsAt(a, b, 0) <==> StringLe(a[0], b[0]);
      }
    }
  }

  lemma PartsLater(a: Gram, b: Gram, k: int)
    requires a != [] && b != [] && a[0] == b[0]
    ensures PartsAt(a, b, k + 1) <==> PartsAt(a[1..], b[1..], k)
  {
    if 0 <= k < |a| - 1 && k < |b| - 1 {
      assert a[..k + 1] == [a[0]] + a[1..][..k] && b[..k + 1] == [b[0]] + b[1..][..k];
      assert a[..k + 1][1..] == a[1..][..k] && b[..k + 1][1..] == b[1..][..k];
    }
  }

  ghost predicate PartsAt(a: Gram, b: Gram, k: int) {
    0 <= k < |a| && k < |b| && a[..k] == b[..k] && a[k] != b[k] && StringLe(a[k], b[k])
  }

  /** The rows are those of the grams that are counted at all, and often enough; the stronger effect first,
      then the greater count, then the gram. */
  lemma RowsInOrder(trajectories: seq<Trajectory>, lengths: seq<nat>, cap: int, minCount: int, split: bool, rows: seq<Row>,
                    i: nat, j: nat)
    requires IsReport(trajectories, lengths, cap, minCount, split, rows) && i < j < |rows|
    ensures forall row :: row in rows <==> row == RowOf(trajectories, lengths, cap, split, row.gram)
                                           && row.count > 0 && row.count >= minCount
    ensures var x, y := Abs(rows[i].Lift()), Abs(rows[j].Lift());
      x > y || (x == y && (rows[i].count > rows[j].count || (rows[i].count == rows[j].count
        && (rows[i].gram <= rows[j].gram || exists k :: PartsAt(rows[i].gram, rows[j].gram, k)))))
  {
    assert RowLe(rows[i], rows[j]);
    GramLeMeans(rows[i].gram, rows[j].gram);
  }
}
