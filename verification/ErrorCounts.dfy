/** The figures of the error report, counted over what the detectors return. */
module ErrorCounts {
  import opened ErrorFacts
  import opened ErrorReport
  import opened Ordering

  lemma {:induction false} FilteredFlat<T(!new), U>(s: seq<T>, f: T -> seq<U>, p: U -> bool, c: T -> nat)
    requires forall x :: c(x) == |Filter(f(x), p)|
    ensures |Filter(Flat(s, f), p)| == SumOver(s, c)
  {
    if s != [] {
      var front, last := s[..|s| - 1], s[|s| - 1];
      FilteredFlat(front, f, p, c);
      FilterSplits(Flat(front, f), f(last), p);
    }
  }

  /** How often a detector names the type at a step. */
  function NamedBy(t: Trajectory, step: Step, errorType: string): Detector -> nat {
    (d: Detector) => |set j: nat | j < |d(step, t)| && d(step, t)[j] == errorType|
  }

  function NamedAt(t: Trajectory, detectors: seq<Detector>, errorType: string): Step -> nat {
    (step: Step) => SumOver(detectors, NamedBy(t, step, errorType))
  }

  function NamedIn(detectors: seq<Detector>, errorType: string): Trajectory -> nat {
    (t: Trajectory) => SumOver(t.steps, NamedAt(t, detectors, errorType))
  }

  lemma NamedByDetector(t: Trajectory, step: Step, errorType: string, d: Detector)
    ensures NamedBy(t, step, errorType)(d) == |Filter(Detected(t, step)(d), OfType(errorType))|
  {
    var events := Detected(t, step)(d);
    var test := OfType(errorType);
    var at := set j: nat | j < |d(step, t)| && d(step, t)[j] == errorType;
    forall j: nat ensures j in at <==> j < |events| && test(events[j]) {
      if j < |d(step, t)| { assert events[j] == EventAt(t, step)(d(step, t)[j]); }
    }
    FilterCounts(events, test, at);
  }

  lemma NamedAtStep(t: Trajectory, step: Step, detectors: seq<Detector>, errorType: string)
    ensures NamedAt(t, detectors, errorType)(step) == |Filter(StepEvents(t, detectors)(step), OfType(errorType))|
  {
    forall d: Detector ensures NamedBy(t, step, errorType)(d) == |Filter(Detected(t, step)(d), OfType(errorType))| {
      NamedByDetector(t, step, errorType, d);
    }
    FilteredFlat(detectors, Detected(t, step), OfType(errorType), NamedBy(t, step, errorType));
  }

  lemma NamedInTrajectory(t: Trajectory, detectors: seq<Detector>, errorType: string)
    ensures NamedIn(detectors, errorType)(t) == |Filter(TrajectoryEvents(detectors)(t), OfType(errorType))|
  {
    forall step: Step ensures NamedAt(t, detectors, errorType)(step) == |Filter(StepEvents(t, detectors)(step), OfType(errorType))| {
      NamedAtStep(t, step, detectors, errorType);
    }
    FilteredFlat(t.steps, StepEvents(t, detectors), OfType(errorType), NamedAt(t, detectors, errorType));
  }

  /** The occurrences of a type: over all trajectories, steps and detectors, the places where the detector
      names it. */
  lemma OccurrencesAreNamings(trajectories: seq<Trajectory>, detectors: seq<Detector>, errorType: string)
    ensures Occurrences(EventsOf(trajectories, detectors), errorType) == SumOver(trajectories, NamedIn(detectors, errorType))
  {
    forall t: Trajectory
      ensures NamedIn(detectors, errorType)(t) == |Filter(TrajectoryEvents(detectors)(t), OfType(errorType))|
    {
      NamedInTrajectory(t, detectors, errorType);
    }
    FilteredFlat(Sort(trajectories, IdLe), TrajectoryEvents(detectors), OfType(errorType), NamedIn(detectors, errorType));
    SortPermutes(trajectories, IdLe);
    SumOverIgnoresOrder(Sort(trajectories, IdLe), trajectories, NamedIn(detectors, errorType));
  }

  /** A type has a row when some event has it. The row counts the events of the type and the ids they carry,
      and sets them against all events and all trajectories. */
  lemma RowSays(events: seq<Event>, trajectories: nat, maxEvidence: int, errorType: string, at: set<nat>, ids: set<string>)
    requires forall k: nat :: k in at <==> k < |events| && events[k].errorType == errorType
    requires forall id :: id in ids <==> exists k: nat :: k < |events| && events[k].errorType == errorType && events[k].id == id
    ensures var row, rows := RowOf(events, trajectories, maxEvidence)(errorType), RowsOf(events, trajectories, maxEvidence);
      && (row in rows <==> at != {}) && (forall other :: other in rows && other.errorType == errorType ==> other == row)
      && row.errorType == errorType && row.occurrences == |at| && row.trajectoriesWith == |ids|
      && row.ShareOfAllErrors() == (if events == [] then 0.0 else |at| as real / |events| as real)
      && row.TrajectoryRate() == (if trajectories == 0 then 0.0 else |ids| as real / trajectories as real)
  {
    var test := OfType(errorType);
    assert forall k: nat :: k in at <==> k < |events| && test(events[k]);
    FilterCounts(events, test, at);
    forall id ensures id in ids <==> id in IdsWith(events, errorType) {
      if id in ids {
        var k: nat :| k < |events| && events[k].errorType == errorType && events[k].id == id;
        assert events[k] in events;
      }
    }
    assert ids == IdsWith(events, errorType);
    OccursIffType(events, errorType);
    RowMembers(events, trajectories, maxEvidence);
  }

  lemma RowMembers(events: seq<Event>, trajectories: nat, maxEvidence: int)
    ensures forall row: Row :: row in RowsOf(events, trajectories, maxEvidence) <==> (
      row.errorType in TypesOf(events) && row == RowOf(events, trajectories, maxEvidence)(row.errorType))
  {
    var types, f := Listing(TypesOf(events)), RowOf(events, trajectories, maxEvidence);
    SortMembers(Apply(types, f), RowLe);
    forall row: Row ensures row in Apply(types, f) <==> row.errorType in TypesOf(events) && row == f(row.errorType) {
      ApplyMembers(types, f, row);
    }
  }

  /** The largest share first; equal shares by type. */
  lemma RowsInOrder(events: seq<Event>, trajectories: nat, maxEvidence: int, i: nat, j: nat)
    requires i < j < |RowsOf(events, trajectories, maxEvidence)|
    ensures var rows := RowsOf(events, trajectories, maxEvidence);
      rows[i].ShareOfAllErrors() > rows[j].ShareOfAllErrors()
      || (rows[i].ShareOfAllErrors() == rows[j].ShareOfAllErrors() && StringLe(rows[i].errorType, rows[j].errorType))
  {
    StringLeIsOrder();
    RowLeIsTotal();
    SortSorts(Apply(Listing(TypesOf(events)), RowOf(events, trajectories, maxEvidence)), RowLe);
  }

  lemma RowLeIsTotal()
    ensures TotalPreorder(RowLe)
  {
    StringLeIsOrder();
  }

  /** By id, then by step. */
  ghost predicate NoLater(x: Event, y: Event) {
    if x.id == y.id then x.step <= y.step else StringLe(x.id, y.id)
  }

  /** Evidence: events of the type by id and step, up to the cap; what is left out comes no earlier. */
  lemma EvidenceSays(events: seq<Event>, errorType: string, maxEvidence: nat, e: Event)
    ensures var evidence := EvidenceOf(events, errorType, maxEvidence);
      && |evidence| <= maxEvidence
      && (forall k :: 0 <= k < |evidence| ==> evidence[k] in events && evidence[k].errorType == errorType)
      && (forall j, k :: 0 <= j < k < |evidence| ==> NoLater(evidence[j], evidence[k]))
      && (e in events && e.errorType == errorType && e !in evidence ==>
            |evidence| == maxEvidence && forall k :: 0 <= k < |evidence| ==> NoLater(evidence[k], e))
  {
    var all := Sort(Filter(events, OfType(errorType)), EventLe);
    EvidenceIsLeast(events, errorType, maxEvidence);
    FilterMembers(events, OfType(errorType));
    SortMembers(Filter(events, OfType(errorType)), EventLe);
    var evidence := EvidenceOf(events, errorType, maxEvidence);
    forall k | 0 <= k < |evidence| ensures evidence[k] in events && evidence[k].errorType == errorType {
      assert evidence[k] == all[k] && all[k] in all;
    }
    if e in events && e.errorType == errorType && e !in evidence {
      assert e in all;
      var i :| 0 <= i < |all| && all[i] == e;
      assert i >= |evidence|;
    }
  }
}
