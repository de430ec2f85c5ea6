/** Conservation and independence of order in the error report. */
module ErrorFacts {
  import opened Ordering
  import opened RealAlgebra
  import opened ErrorReport

  // ---- which steps show a type -------------------------------------------------------------------

  ghost predicate Shows(detectors: seq<Detector>, t: Trajectory, step: Step, errorType: string) {
    exists d :: d in detectors && errorType in d(step, t)
  }

  lemma ApplyMembers<T, U>(s: seq<T>, f: T -> U, y: U)
    ensures y in Apply(s, f) <==> exists x :: x in s && f(x) == y
  {
    if y in Apply(s, f) {
      var i :| 0 <= i < |s| && Apply(s, f)[i] == y;
      assert s[i] in s && f(s[i]) == y;
    }
    if x :| x in s && f(x) == y {
      var i :| 0 <= i < |s| && s[i] == x;
      assert Apply(s, f)[i] == y;
    }
  }

  lemma StepEventsMembers(t: Trajectory, step: Step, detectors: seq<Detector>, e: Event)
    ensures e in StepEvents(t, detectors)(step) <==> e.id == t.id && e.step == step.index && Shows(detectors, t, step, e.errorType)
  {
    FlatMembers(detectors, Detected(t, step), e);
    forall d: Detector ensures e in Detected(t, step)(d) <==> e.id == t.id && e.step == step.index && e.errorType in d(step, t) {
      ApplyMembers(d(step, t), EventAt(t, step), e);
    }
  }

  lemma TrajectoryEventsMembers(t: Trajectory, detectors: seq<Detector>, e: Event)
    ensures e in TrajectoryEvents(detectors)(t)
       <==> e.id == t.id && exists step :: step in t.steps && e.step == step.index && Shows(detectors, t, step, e.errorType)
  {
    FlatMembers(t.steps, StepEvents(t, detectors), e);
    forall step ensures e in StepEvents(t, detectors)(step)
                     <==> e.id == t.id && e.step == step.index && Shows(detectors, t, step, e.errorType)
    {
      StepEventsMembers(t, step, detectors, e);
    }
  }

  /** A step of a trajectory in the input, and the type it shows there. */
  ghost predicate ShownAt(trajectories: seq<Trajectory>, detectors: seq<Detector>, key: Key, errorType: string) {
    exists t, step :: t in trajectories && step in t.steps && key == (t.id, step.index) && Shows(detectors, t, step, errorType)
  }

  lemma EventIsShown(trajectories: seq<Trajectory>, detectors: seq<Detector>, e: Event)
    ensures e in EventsOf(trajectories, detectors) <==> ShownAt(trajectories, detectors, KeyOf(e), e.errorType)
  {
    var ordered := Sort(trajectories, IdLe);
    SortMembers(trajectories, IdLe);
    FlatMembers(ordered, TrajectoryEvents(detectors), e);
    forall t: Trajectory ensures e in TrajectoryEvents(detectors)(t)
      <==> e.id == t.id && exists step :: step in t.steps && e.step == step.index && Shows(detectors, t, step, e.errorType)
    {
      TrajectoryEventsMembers(t, detectors, e);
    }
  }

  lemma TypesAtAreShown(trajectories: seq<Trajectory>, detectors: seq<Detector>, key: Key, errorType: string)
    ensures errorType in TypesAt(EventsOf(trajectories, detectors), key) <==> ShownAt(trajectories, detectors, key, errorType)
  {
    EventIsShown(trajectories, detectors, Event(errorType, key.0, key.1));
  }

  /** A co-occurrence entry counts exactly the steps of the input at which both types are shown. */
  lemma TogetherCountsSteps(trajectories: seq<Trajectory>, detectors: seq<Detector>, together: Together, l: string,
                            r: string, steps: set<Key>)
    requires CountsSteps(EventsOf(trajectories, detectors), together) && Before(l, r)
    requires forall key :: key in steps <==> (ShownAt(trajectories, detectors, key, l) && ShownAt(trajectories, detectors, key, r))
    ensures Get(together, l, r) == |steps|
  {
    var events := EventsOf(trajectories, detectors);
    var both := BothAt(events, KeysOf(events), l, r);
    forall key ensures key in both <==> key in steps {
      TypesAtAreShown(trajectories, detectors, key, l);
      TypesAtAreShown(trajectories, detectors, key, r);
      if l in TypesAt(events, key) {
        var e :| e in events && KeyOf(e) == key && e.errorType == l;
        assert key in KeysOf(events);
      }
    }
    assert both == steps;
  }

  /** Some step of the trajectory shows the type. */
  ghost predicate ShowsSomewhere(detectors: seq<Detector>, t: Trajectory, errorType: string) {
    exists step :: step in t.steps && Shows(detectors, t, step, errorType)
  }

  lemma IdsAreShown(trajectories: seq<Trajectory>, detectors: seq<Detector>, errorType: string, id: string)
    ensures id in IdsWith(EventsOf(trajectories, detectors), errorType)
       <==> exists t :: t in trajectories && t.id == id && ShowsSomewhere(detectors, t, errorType)
  {
    var events := EventsOf(trajectories, detectors);
    if id in IdsWith(events, errorType) {
      var e :| e in events && e.errorType == errorType && e.id == id;
      EventIsShown(trajectories, detectors, e);
      var t, step :| t in trajectories && step in t.steps && KeyOf(e) == (t.id, step.index) && Shows(detectors, t, step, errorType);
      assert ShowsSomewhere(detectors, t, errorType);
    }
    if t :| t in trajectories && t.id == id && ShowsSomewhere(detectors, t, errorType) {
      var step :| step in t.steps && Shows(detectors, t, step, errorType);
      var e := Event(errorType, t.id, step.index);
      assert ShownAt(trajectories, detectors, KeyOf(e), errorType);
      EventIsShown(trajectories, detectors, e);
    }
  }

  /** With unique ids, `trajectories_with` counts the trajectories that show the type: any selection
      of exactly those has that many members. */
  lemma TrajectoriesWithType(trajectories: seq<Trajectory>, detectors: seq<Detector>, errorType: string, showing: seq<Trajectory>,
                             maxEvidence: int)
    requires DistinctBy(trajectories, NameOf) && Distinct(showing)
    requires forall t :: t in showing <==> t in trajectories && ShowsSomewhere(detectors, t, errorType)
    ensures var row := RowOf(EventsOf(trajectories, detectors), |trajectories|, maxEvidence)(errorType);
      row.trajectoriesWith == |showing| && row.TrajectoryRate() == Rate(|showing|, |trajectories|)
  {
    var ids := Apply(showing, NameOf);
    forall i, j | 0 <= i < j < |ids| ensures ids[i] != ids[j] { DifferentIds(trajectories, showing[i], showing[j]); }
    forall id ensures id in IdsWith(EventsOf(trajectories, detectors), errorType) <==> id in Elements(ids) {
      IdsAreShown(trajectories, detectors, errorType, id);
      ApplyMembers(showing, NameOf, id);
    }
    assert IdsWith(EventsOf(trajectories, detectors), errorType) == Elements(ids);
    ElementsSize(ids);
  }

  function NameOf(t: Trajectory): string { t.id }

  lemma DifferentIds(trajectories: seq<Trajectory>, t: Trajectory, u: Trajectory)
    requires DistinctBy(trajectories, NameOf) && t in trajectories && u in trajectories && t != u
    ensures t.id != u.id
  {
    var i :| 0 <= i < |trajectories| && trajectories[i] == t;
    var j :| 0 <= j < |trajectories| && trajectories[j] == u;
    assert i < j || j < i;
  }

  // ---- conservation ------------------------------------------------------------------------------------

  function OccurrencesOf(events: seq<Event>): string -> nat { (errorType: string) => Occurrences(events, errorType) }

  lemma {:induction false} SumRaisedOnce(types: seq<string>, f: string -> nat, g: string -> nat, x: string)
    requires Distinct(types) && forall y :: g(y) == f(y) + if y == x then 1 else 0
    ensures SumOver(types, g) == SumOver(types, f) + if x in types then 1 else 0
  {
    if types != [] {
      var front, last := types[..|types| - 1], types[|types| - 1];
      assert types == front + [last];
      DistinctSnoc(front, last);
      SumRaisedOnce(front, f, g, x);
    }
  }

  lemma {:induction false} SumZero(types: seq<string>, f: string -> nat)
    requires forall y :: f(y) == 0
    ensures SumOver(types, f) == 0
  {
    if types != [] { SumZero(types[..|types| - 1], f); }
  }

  lemma {:induction false} TypesCoverEvents(types: seq<string>, events: seq<Event>)
    requires Distinct(types) && forall e :: e in events ==> e.errorType in types
    ensures SumOver(types, OccurrencesOf(events)) == |events|
  {
    if events == [] {
      SumZero(types, OccurrencesOf(events));
    } else {
      var front, e := events[..|events| - 1], events[|events| - 1];
      assert events == front + [e];
      TypesCoverEvents(types, front);
      forall y ensures Occurrences(events, y) == Occurrences(front, y) + if e.errorType == y then 1 else 0 {
        OccurrencesOneMore(front, e, y);
      }
      SumRaisedOnce(types, OccurrencesOf(front), OccurrencesOf(events), e.errorType);
    }
  }

  function OccurrencesIn(row: Row): nat { row.occurrences }

  lemma {:induction false} SumOfRows(types: seq<string>, events: seq<Event>, trajectories: nat, maxEvidence: int)
    ensures SumOver(Apply(types, RowOf(events, trajectories, maxEvidence)), OccurrencesIn) == SumOver(types, OccurrencesOf(events))
  {
    if types != [] {
      var front := types[..|types| - 1];
      var rows := Apply(types, RowOf(events, trajectories, maxEvidence));
      assert rows[..|rows| - 1] == Apply(front, RowOf(events, trajectories, maxEvidence));
      SumOfRows(front, events, trajectories, maxEvidence);
    }
  }

  /** The occurrences of the rows add up to the number of events. */
  lemma OccurrencesSumToTotal(events: seq<Event>, trajectories: nat, maxEvidence: int)
    ensures SumOver(RowsOf(events, trajectories, maxEvidence), OccurrencesIn) == |events|
  {
    var types := Listing(TypesOf(events));
    var rows := Apply(types, RowOf(events, trajectories, maxEvidence));
    ListingInOrder(TypesOf(events));
    TypesCoverEvents(types, events);
    SumOfRows(types, events, trajectories, maxEvidence);
    SortPermutes(rows, RowLe);
    SumOverIgnoresOrder(Sort(rows, RowLe), rows, OccurrencesIn);
  }

  function SumShares(rows: seq<Row>): real {
    if rows == [] then 0.0 else SumShares(rows[..|rows| - 1]) + rows[|rows| - 1].ShareOfAllErrors()
  }

  lemma RateAdds(j: nat, k: nat, n: nat)
    requires n > 0
    ensures Rate(j + k, n) == Rate(j, n) + Rate(k, n)
  {
  }

  lemma {:induction false} SharesAdd(rows: seq<Row>, total: nat)
    requires total > 0 && forall row :: row in rows ==> row.total == total
    ensures SumShares(rows) == Rate(SumOver(rows, OccurrencesIn), total)
  {
    if rows != [] {
      var front, last := rows[..|rows| - 1], rows[|rows| - 1];
      assert rows == front + [last];
      SharesAdd(front, total);
      RateAdds(SumOver(front, OccurrencesIn), last.occurrences, total);
    }
  }

  lemma WholeRate(k: nat, n: nat)
    requires k == n > 0
    ensures Rate(k, n) == 1.0
  {
  }

  lemma RowsCarryTotal(events: seq<Event>, trajectories: nat, maxEvidence: int, row: Row)
    requires row in RowsOf(events, trajectories, maxEvidence)
    ensures row.total == |events|
  {
    var rows := Apply(Listing(TypesOf(events)), RowOf(events, trajectories, maxEvidence));
    SortMembers(rows, RowLe);
    var i :| 0 <= i < |rows| && rows[i] == row;
  }

  /** When there is any event, the shares add up to one. */
  lemma SharesSumToOne(events: seq<Event>, trajectories: nat, maxEvidence: int, rows: seq<Row>)
    requires events != [] && rows == RowsOf(events, trajectories, maxEvidence)
    ensures SumShares(rows) == 1.0
  {
    forall row | row in rows ensures row.total == |events| { RowsCarryTotal(events, trajectories, maxEvidence, row); }
    OccurrencesSumToTotal(events, trajectories, maxEvidence);
    WholeShares(rows, |events|);
  }

  lemma WholeShares(rows: seq<Row>, total: nat)
    requires total > 0 && SumOver(rows, OccurrencesIn) == total && forall row :: row in rows ==> row.total == total
    ensures SumShares(rows) == 1.0
  {
    SharesAdd(rows, total);
    WholeRate(SumOver(rows, OccurrencesIn), total);
  }

  // ---- evidence ------------------------------------------------------------------------------------------

  lemma EventLeIsOrder()
    ensures TotalPreorder(EventLe)
  {
    StringLeIsOrder();
  }

  /** Evidence is the least events of the type: at most so many, in order, and none left out comes
      before one that is in. */
  lemma EvidenceIsLeast(events: seq<Event>, errorType: string, maxEvidence: nat)
    ensures var evidence, all := EvidenceOf(events, errorType, maxEvidence), Sort(Filter(events, OfType(errorType)), EventLe);
      && |evidence| == (if maxEvidence <= Occurrences(events, errorType) then maxEvidence else Occurrences(events, errorType))
      && evidence == all[..|evidence|] && Sorted(all, EventLe)
      && multiset(all) == multiset(Filter(events, OfType(errorType)))
  {
    EventLeIsOrder();
    SortSorts(Filter(events, OfType(errorType)), EventLe);
    SortPermutes(Filter(events, OfType(errorType)), EventLe);
  }

  // ---- independence of order -----------------------------------------------------------------------------

  lemma {:induction false} DetectorsInAnyOrder(t: Trajectory, step: Step, ds: seq<Detector>, ds': seq<Detector>)
    requires multiset(ds) == multiset(ds')
    ensures multiset(StepEvents(t, ds)(step)) == multiset(StepEvents(t, ds')(step))
  {
    FlatIgnoresOrder(ds, ds', Detected(t, step));
  }

  lemma TrajectoryInAnyOrder(t: Trajectory, ds: seq<Detector>, ds': seq<Detector>)
    requires multiset(ds) == multiset(ds')
    ensures multiset(TrajectoryEvents(ds)(t)) == multiset(TrajectoryEvents(ds')(t))
  {
    forall step ensures multiset(StepEvents(t, ds)(step)) == multiset(StepEvents(t, ds')(step)) {
      DetectorsInAnyOrder(t, step, ds, ds');
    }
    FlatAlike(t.steps, StepEvents(t, ds), StepEvents(t, ds'));
  }

  /** The same events come out whatever the order of the trajectories and of the detectors. */
  lemma EventsInAnyOrder(s: seq<Trajectory>, t: seq<Trajectory>, ds: seq<Detector>, ds': seq<Detector>)
    requires multiset(s) == multiset(t) && multiset(ds) == multiset(ds')
    ensures multiset(EventsOf(s, ds)) == multiset(EventsOf(t, ds'))
  {
    SortPermutes(s, IdLe);
    SortPermutes(t, IdLe);
    FlatIgnoresOrder(Sort(s, IdLe), Sort(t, IdLe), TrajectoryEvents(ds));
    forall u: Trajectory ensures multiset(TrajectoryEvents(ds)(u)) == multiset(TrajectoryEvents(ds')(u)) {
      TrajectoryInAnyOrder(u, ds, ds');
    }
    FlatAlike(Sort(t, IdLe), TrajectoryEvents(ds), TrajectoryEvents(ds'));
  }

  lemma EvidenceIgnoresOrder(events: seq<Event>, events': seq<Event>, errorType: string, maxEvidence: int)
    requires multiset(events) == multiset(events')
    ensures EvidenceOf(events, errorType, maxEvidence) == EvidenceOf(events', errorType, maxEvidence)
  {
    var mine, yours := Filter(events, OfType(errorType)), Filter(events', OfType(errorType));
    FilterIgnoresOrder(events, events', OfType(errorType));
    FilterMembers(events, OfType(errorType));
    EventLeIsOrder();
    forall x, y | x in multiset(mine) && y in multiset(mine) && EventLe(x, y) && EventLe(y, x) ensures x == y {
      assert x in mine && y in mine;
      if x.id != y.id { StringLeAntisymmetric(x.id, y.id); }
    }
    SortIgnoresOrder(mine, yours, EventLe);
  }

  lemma RowIgnoresOrder(events: seq<Event>, events': seq<Event>, trajectories: nat, maxEvidence: int, errorType: string)
    requires multiset(events) == multiset(events')
    ensures RowOf(events, trajectories, maxEvidence)(errorType) == RowOf(events', trajectories, maxEvidence)(errorType)
  {
    MembersOfMultiset(events, events');
    FilterIgnoresOrder(events, events', OfType(errorType));
    MembersOfMultiset(Filter(events, OfType(errorType)), Filter(events', OfType(errorType)));
    assert IdsWith(events, errorType) == IdsWith(events', errorType);
    EvidenceIgnoresOrder(events, events', errorType, maxEvidence);
  }

  lemma RowsIgnoreOrder(events: seq<Event>, events': seq<Event>, trajectories: nat, maxEvidence: int)
    requires multiset(events) == multiset(events')
    ensures RowsOf(events, trajectories, maxEvidence) == RowsOf(events', trajectories, maxEvidence)
  {
    MembersOfMultiset(events, events');
    assert TypesOf(events) == TypesOf(events');
    var types := Listing(TypesOf(events));
    var rows, rows' := Apply(types, RowOf(events, trajectories, maxEvidence)), Apply(types, RowOf(events', trajectories, maxEvidence));
    forall i | 0 <= i < |types| ensures rows[i] == rows'[i] { RowIgnoresOrder(events, events', trajectories, maxEvidence, types[i]); }
    assert rows == rows';
  }

  lemma TogetherIgnoresOrder(events: seq<Event>, events': seq<Event>, together: Together, together': Together)
    requires multiset(events) == multiset(events')
    requires CountsSteps(events, together) && CountsSteps(events', together')
    ensures together == together'
  {
    MembersOfMultiset(events, events');
    assert KeysOf(events) == KeysOf(events');
    forall key ensures TypesAt(events, key) == TypesAt(events', key) {}
    forall l, r ensures Get(together, l, r) == Get(together', l, r) {
      assert BothAt(events, KeysOf(events), l, r) == BothAt(events', KeysOf(events'), l, r);
    }
    forall k ensures k in together <==> k in together' { assert Get(together, k.0, k.1) == Get(together', k.0, k.1); }
    forall k | k in together ensures together[k] == together'[k] { assert Get(together, k.0, k.1) == Get(together', k.0, k.1); }
  }

  /** Rows and co-occurrence are the same whatever the order of trajectories and detectors. */
  lemma ReportIgnoresOrder(s: seq<Trajectory>, t: seq<Trajectory>, ds: seq<Detector>, ds': seq<Detector>, maxEvidence: int,
                           together: Together, together': Together)
    requires multiset(s) == multiset(t) && multiset(ds) == multiset(ds')
    requires CountsSteps(EventsOf(s, ds), together) && CountsSteps(EventsOf(t, ds'), together')
    ensures RowsOf(EventsOf(s, ds), |s|, maxEvidence) == RowsOf(EventsOf(t, ds'), |t|, maxEvidence)
    ensures together == together'
  {
    MembersOfMultiset(s, t);
    EventsInAnyOrder(s, t, ds, ds');
    RowsIgnoreOrder(EventsOf(s, ds), EventsOf(t, ds'), |s|, maxEvidence);
    TogetherIgnoresOrder(EventsOf(s, ds), EventsOf(t, ds'), together, together');
  }
}
