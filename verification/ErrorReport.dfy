/** Failure-mode frequencies: the events the detectors find, how they are counted, which steps show
    two types together, and the evidence. Detectors are parameters. */
module ErrorReport {
  import opened Ordering
  import opened RealAlgebra

  datatype Step = Step(index: nat, rest: string)

  datatype Trajectory = Trajectory(id: string, steps: seq<Step>, rest: string)

  type Detector = (Step, Trajectory) -> seq<string>

  datatype Event = Event(errorType: string, id: string, step: nat)

  type Key = (string, nat)

  predicate IdLe(t: Trajectory, u: Trajectory) { StringLe(t.id, u.id) }

  // ---- the events --------------------------------------------------------------------------------

  function EventAt(t: Trajectory, step: Step): string -> Event {
    (errorType: string) => Event(errorType, t.id, step.index)
  }

  function Detected(t: Trajectory, step: Step): Detector -> seq<Event> {
    (d: Detector) => Apply(d(step, t), EventAt(t, step))
  }

  function StepEvents(t: Trajectory, detectors: seq<Detector>): Step -> seq<Event> {
    (step: Step) => Flat(detectors, Detected(t, step))
  }

  function TrajectoryEvents(detectors: seq<Detector>): Trajectory -> seq<Event> {
    (t: Trajectory) => Flat(t.steps, StepEvents(t, detectors))
  }

  /** Trajectories by id, steps in order, detectors in taxonomy order. */
  function EventsOf(trajectories: seq<Trajectory>, detectors: seq<Detector>): seq<Event> {
    Flat(Sort(trajectories, IdLe), TrajectoryEvents(detectors))
  }

  lemma FlatOneMore<T, U>(s: seq<T>, f: T -> seq<U>, i: nat)
    requires i < |s|
    ensures Flat(s[..i + 1], f) == Flat(s[..i], f) + f(s[i])
  {
    assert s[..i + 1][..i] == s[..i];
  }

  method DetectStep(t: Trajectory, step: Step, detectors: seq<Detector>, events0: seq<Event>) returns (events: seq<Event>)
    ensures events == events0 + StepEvents(t, detectors)(step)
  {
    events := events0;
    var k := 0;
    while k < |detectors|
      invariant 0 <= k <= |detectors|
      invariant events == events0 + Flat(detectors[..k], Detected(t, step))
    {
      FlatOneMore(detectors, Detected(t, step), k);
      events := events + Apply(detectors[k](step, t), EventAt(t, step));
      k := k + 1;
    }
    assert detectors[..|detectors|] == detectors;
  }

  method DetectTrajectory(t: Trajectory, detectors: seq<Detector>, events0: seq<Event>) returns (events: seq<Event>)
    ensures events == events0 + TrajectoryEvents(detectors)(t)
  {
    events := events0;
    var k := 0;
    while k < |t.steps|
      invariant 0 <= k <= |t.steps|
      invariant events == events0 + Flat(t.steps[..k], StepEvents(t, detectors))
    {
      FlatOneMore(t.steps, StepEvents(t, detectors), k);
      events := DetectStep(t, t.steps[k], detectors, events);
      k := k + 1;
    }
    assert t.steps[..|t.steps|] == t.steps;
  }

  method DetectAll(trajectories: seq<Trajectory>, detectors: seq<Detector>) returns (events: seq<Event>)
    ensures events == EventsOf(trajectories, detectors)
  {
    var ordered := Sort(trajectories, IdLe);
    events := [];
    var k := 0;
    while k < |ordered|
      invariant 0 <= k <= |ordered|
      invariant events == Flat(ordered[..k], TrajectoryEvents(detectors))
    {
      FlatOneMore(ordered, TrajectoryEvents(detectors), k);
      events := DetectTrajectory(ordered[k], detectors, events);
      k := k + 1;
    }
    assert ordered[..|ordered|] == ordered;
  }

  // ---- counts by type ------------------------------------------------------------------------------

  function OfType(errorType: string): Event -> bool { (e: Event) => e.errorType == errorType }

  function Occurrences(events: seq<Event>, errorType: string): nat { |Filter(events, OfType(errorType))| }

  function TypesOf(events: seq<Event>): set<string> { set e | e in events :: e.errorType }

  function IdsWith(events: seq<Event>, errorType: string): set<string> {
    set e | e in events && e.errorType == errorType :: e.id
  }

  lemma OccurrencesOneMore(front: seq<Event>, e: Event, errorType: string)
    ensures Occurrences(front + [e], errorType) == Occurrences(front, errorType) + if e.errorType == errorType then 1 else 0
  {
    FilterSplits(front, [e], OfType(errorType));
    FilterOne(e, OfType(errorType));
  }

  lemma IdsOneMore(front: seq<Event>, e: Event, errorType: string)
    ensures IdsWith(front + [e], errorType) == IdsWith(front, errorType) + if e.errorType == errorType then {e.id} else {}
  {
    forall x ensures x in front + [e] <==> x in front || x == e { assert (front + [e])[|front|] == e; }
  }

  lemma OccursIffType(events: seq<Event>, errorType: string)
    ensures Occurrences(events, errorType) > 0 <==> errorType in TypesOf(events)
  {
    FilterMembers(events, OfType(errorType));
    if Occurrences(events, errorType) > 0 { assert Filter(events, OfType(errorType))[0] in Filter(events, OfType(errorType)); }
    if errorType in TypesOf(events) {
      var e :| e in events && e.errorType == errorType;
      assert e in Filter(events, OfType(errorType));
    }
  }

  /** d.get(k, 0) and d.get(k, set()). */
  function Number(m: map<string, nat>, k: string): nat { if k in m then m[k] else 0 }

  function Ids(m: map<string, set<string>>, k: string): set<string> { if k in m then m[k] else {} }

  ghost predicate Numbered(events: seq<Event>, occurrences: map<string, nat>) {
    && (forall errorType :: Number(occurrences, errorType) == Occurrences(events, errorType))
    && forall errorType :: errorType in occurrences ==> occurrences[errorType] > 0
  }

  ghost predicate Identified(events: seq<Event>, with: map<string, set<string>>) {
    forall errorType :: Ids(with, errorType) == IdsWith(events, errorType)
  }

  lemma NumberedOneMore(front: seq<Event>, e: Event, occurrences: map<string, nat>)
    requires Numbered(front, occurrences)
    ensures Numbered(front + [e], occurrences[e.errorType := Number(occurrences, e.errorType) + 1])
  {
    var occurrences' := occurrences[e.errorType := Number(occurrences, e.errorType) + 1];
    forall errorType ensures Number(occurrences', errorType) == Occurrences(front + [e], errorType) {
      OccurrencesOneMore(front, e, errorType);
    }
  }

  lemma IdentifiedOneMore(front: seq<Event>, e: Event, with: map<string, set<string>>)
    requires Identified(front, with)
    ensures Identified(front + [e], with[e.errorType := Ids(with, e.errorType) + {e.id}])
  {
    var with' := with[e.errorType := Ids(with, e.errorType) + {e.id}];
    forall errorType ensures Ids(with', errorType) == IdsWith(front + [e], errorType) { IdsOneMore(front, e, errorType); }
  }

  method Aggregate(events: seq<Event>) returns (occurrences: map<string, nat>, with: map<string, set<string>>)
    ensures Numbered(events, occurrences) && Identified(events, with)
  {
    occurrences, with := map[], map[];
    var k := 0;
    while k < |events|
      invariant 0 <= k <= |events|
      invariant Numbered(events[..k], occurrences) && Identified(events[..k], with)
    {
      var e := events[k];
      NumberedOneMore(events[..k], e, occurrences);
      IdentifiedOneMore(events[..k], e, with);
      assert events[..k + 1] == events[..k] + [e];
      occurrences := occurrences[e.errorType := Number(occurrences, e.errorType) + 1];
      with := with[e.errorType := Ids(with, e.errorType) + {e.id}];
      k := k + 1;
    }
    assert events[..|events|] == events;
  }

  // ---- types that occur together -------------------------------------------------------------------

  function KeyOf(e: Event): Key { (e.id, e.step) }

  function KeysOf(events: seq<Event>): set<Key> { set e | e in events :: KeyOf(e) }

  function TypesAt(events: seq<Event>, key: Key): set<string> {
    set e | e in events && KeyOf(e) == key :: e.errorType
  }

  type Together = map<(string, string), nat>

  function Get(m: Together, left: string, right: string): nat { if (left, right) in m then m[(left, right)] else 0 }

  /** No pair is listed without a step that shows it. */
  ghost predicate AllPositive(m: Together) { forall k :: k in m ==> m[k] > 0 }

  predicate Before(left: string, right: string) { left != right && StringLe(left, right) }

  /** The steps that show both types. */
  ghost function BothAt(events: seq<Event>, keys: set<Key>, left: string, right: string): set<Key> {
    set key | key in keys && left in TypesAt(events, key) && right in TypesAt(events, key)
  }

  /** by_step.get(key, set()). */
  function Types(m: map<Key, set<string>>, key: Key): set<string> { if key in m then m[key] else {} }

  ghost predicate Grouped(events: seq<Event>, byStep: map<Key, set<string>>) {
    byStep.Keys == KeysOf(events) && forall key :: Types(byStep, key) == TypesAt(events, key)
  }

  lemma TypesOneMore(front: seq<Event>, e: Event, key: Key)
    ensures TypesAt(front + [e], key) == TypesAt(front, key) + if key == KeyOf(e) then {e.errorType} else {}
  {
    forall x ensures x in front + [e] <==> x in front || x == e { assert (front + [e])[|front|] == e; }
  }

  lemma GroupedOneMore(front: seq<Event>, e: Event, byStep: map<Key, set<string>>)
    requires Grouped(front, byStep)
    ensures Grouped(front + [e], byStep[KeyOf(e) := Types(byStep, KeyOf(e)) + {e.errorType}])
  {
    var byStep' := byStep[KeyOf(e) := Types(byStep, KeyOf(e)) + {e.errorType}];
    forall x ensures x in front + [e] <==> x in front || x == e { assert (front + [e])[|front|] == e; }
    assert KeysOf(front + [e]) == KeysOf(front) + {KeyOf(e)};
    forall key ensures Types(byStep', key) == TypesAt(front + [e], key) { TypesOneMore(front, e, key); }
  }

  method GroupByStep(events: seq<Event>) returns (byStep: map<Key, set<string>>)
    ensures Grouped(events, byStep)
  {
    byStep := map[];
    var k := 0;
    while k < |events|
      invariant 0 <= k <= |events|
      invariant Grouped(events[..k], byStep)
    {
      var e := events[k];
      GroupedOneMore(events[..k], e, byStep);
      assert events[..k + 1] == events[..k] + [e];
      byStep := byStep[KeyOf(e) := Types(byStep, KeyOf(e)) + {e.errorType}];
      k := k + 1;
    }
    assert events[..|events|] == events;
  }

  /** One left type with each type after it. */
  method AddPairsOf(left: string, rest: seq<string>, together0: Together) returns (together: Together)
    requires Distinct(rest) && AllPositive(together0)
    ensures forall l, r :: Get(together, l, r) == Get(together0, l, r) + if l == left && r in rest then 1 else 0
    ensures AllPositive(together)
  {
    together := together0;
    var k := 0;
    while k < |rest|
      invariant 0 <= k <= |rest|
      invariant forall l, r :: Get(together, l, r) == Get(together0, l, r) + if l == left && r in rest[..k] then 1 else 0
      invariant AllPositive(together)
    {
      assert rest[..k + 1] == rest[..k] + [rest[k]];
      assert rest[k] !in rest[..k];
      together := together[(left, rest[k]) := Get(together, left, rest[k]) + 1];
      k := k + 1;
    }
    assert rest[..|rest|] == rest;
  }

  /** l stands before r in the list, at one of its first i places. */
  ghost predicate PairIn(ordered: seq<string>, i: nat, l: string, r: string)
    requires i <= |ordered|
  {
    exists a :: 0 <= a < i && ordered[a] == l && r in ordered[a + 1..]
  }

  lemma PairOneMore(ordered: seq<string>, i: nat, l: string, r: string)
    requires i < |ordered| && Distinct(ordered)
    ensures PairIn(ordered, i + 1, l, r) <==> PairIn(ordered, i, l, r) || (l == ordered[i] && r in ordered[i + 1..])
    ensures l == ordered[i] ==> !PairIn(ordered, i, l, r)
  {
    if l == ordered[i] && r in ordered[i + 1..] { assert ordered[i] == l; }
  }

  lemma PairsOfListing(types: set<string>, l: string, r: string)
    ensures var ordered := Listing(types); PairIn(ordered, |ordered|, l, r) <==> l in types && r in types && Before(l, r)
  {
    ListingInOrder(types);
    OrderedPairs(Listing(types), l, r);
  }

  lemma OrderedPairs(ordered: seq<string>, l: string, r: string)
    requires Distinct(ordered) && Sorted(ordered, StringLe)
    ensures PairIn(ordered, |ordered|, l, r) <==> l in ordered && r in ordered && Before(l, r)
  {
    if PairIn(ordered, |ordered|, l, r) {
      var a :| 0 <= a < |ordered| && ordered[a] == l && r in ordered[a + 1..];
      var b :| 0 <= b < |ordered| - (a + 1) && ordered[a + 1..][b] == r;
      assert ordered[a + 1 + b] == r;
    }
    if l in ordered && r in ordered && Before(l, r) {
      var a :| 0 <= a < |ordered| && ordered[a] == l;
      var b :| 0 <= b < |ordered| && ordered[b] == r;
      StringLeIsOrder();
      assert a < b;
      assert ordered[a + 1..][b - a - 1] == r;
    }
  }

  /** The pairs formed by the first i types of the list. */
  ghost predicate Paired(ordered: seq<string>, i: nat, together0: Together, together: Together)
    requires i <= |ordered|
  {
    forall l, r :: Get(together, l, r) == Get(together0, l, r) + if PairIn(ordered, i, l, r) then 1 else 0
  }

  lemma PairedOneMore(ordered: seq<string>, i: nat, together0: Together, together: Together, together': Together)
    requires i < |ordered| && Distinct(ordered) && Paired(ordered, i, together0, together)
    requires forall l, r :: Get(together', l, r) == Get(together, l, r) + if l == ordered[i] && r in ordered[i + 1..] then 1 else 0
    ensures Paired(ordered, i + 1, together0, together')
  {
    forall l, r ensures Get(together', l, r) == Get(together0, l, r) + if PairIn(ordered, i + 1, l, r) then 1 else 0 {
      PairOneMore(ordered, i, l, r);
    }
  }

  /** All pairs of one step. */
  method AddPairs(types: set<string>, together0: Together) returns (together: Together)
    requires AllPositive(together0)
    ensures AllPositive(together)
    ensures forall l, r :: Get(together, l, r) == Get(together0, l, r) + if l in types && r in types && Before(l, r) then 1 else 0
  {
    var ordered := Listing(types);
    ListingInOrder(types);
    together := together0;
    var i := 0;
    while i < |ordered|
      invariant 0 <= i <= |ordered|
      invariant Paired(ordered, i, together0, together) && AllPositive(together)
    {
      assert Distinct(ordered[i + 1..]);
      var together' := AddPairsOf(ordered[i], ordered[i + 1..], together);
      PairedOneMore(ordered, i, together0, together, together');
      together := together';
      i := i + 1;
    }
    forall l, r ensures PairIn(ordered, |ordered|, l, r) <==> l in types && r in types && Before(l, r) {
      PairsOfListing(types, l, r);
    }
  }

  /** Every entry counts the steps that show both types, and every such pair has an entry. */
  ghost predicate CountsSteps(events: seq<Event>, together: Together) {
    && AllPositive(together)
    && forall l, r :: Get(together, l, r) == if Before(l, r) then |BothAt(events, KeysOf(events), l, r)| else 0
  }

  /** The steps are taken in any order: the counts do not depend on it. */
  method CountTogether(events: seq<Event>) returns (together: Together)
    ensures CountsSteps(events, together)
  {
    var byStep := GroupByStep(events);
    together := map[];
    var rest := byStep.Keys;
    while rest != {}
      invariant rest <= byStep.Keys
      invariant AllPositive(together)
      invariant forall l, r :: Get(together, l, r) == if Before(l, r) then |BothAt(events, byStep.Keys - rest, l, r)| else 0
      decreases rest
    {
      var key :| key in rest;
      together := AddPairs(byStep[key], together);
      forall l, r ensures |BothAt(events, byStep.Keys - (rest - {key}), l, r)|
        == |BothAt(events, byStep.Keys - rest, l, r)| + if l in TypesAt(events, key) && r in TypesAt(events, key) then 1 else 0
      {
        OneMoreKey(events, byStep.Keys - rest, key, l, r);
        assert byStep.Keys - (rest - {key}) == (byStep.Keys - rest) + {key};
      }
      rest := rest - {key};
    }
    assert byStep.Keys - rest == KeysOf(events);
  }

  lemma OneMoreKey(events: seq<Event>, keys: set<Key>, key: Key, l: string, r: string)
    requires key !in keys
    ensures |BothAt(events, keys + {key}, l, r)|
         == |BothAt(events, keys, l, r)| + if l in TypesAt(events, key) && r in TypesAt(events, key) then 1 else 0
  {
    var both := BothAt(events, keys, l, r);
    if l in TypesAt(events, key) && r in TypesAt(events, key) {
      assert BothAt(events, keys + {key}, l, r) == both + {key};
    } else {
      assert BothAt(events, keys + {key}, l, r) == both;
    }
  }

  // ---- the rows ------------------------------------------------------------------------------------

  datatype Row = Row(errorType: string, trajectoriesWith: nat, trajectories: nat, occurrences: nat, total: nat, evidence: seq<Event>)
  {
    function TrajectoryRate(): real { Rate(trajectoriesWith, trajectories) }

    function ShareOfAllErrors(): real { Rate(occurrences, total) }
  }

  /** By trajectory, then step. */
  predicate EventLe(x: Event, y: Event) {
    (x.id != y.id && StringLe(x.id, y.id)) || (x.id == y.id && x.step <= y.step)
  }

  predicate RowLe(x: Row, y: Row) {
    x.ShareOfAllErrors() > y.ShareOfAllErrors()
    || (x.ShareOfAllErrors() == y.ShareOfAllErrors() && StringLe(x.errorType, y.errorType))
  }

  function EvidenceOf(events: seq<Event>, errorType: string, maxEvidence: int): seq<Event> {
    Slice(Sort(Filter(events, OfType(errorType)), EventLe), maxEvidence)
  }

  function RowOf(events: seq<Event>, trajectories: nat, maxEvidence: int): string -> Row {
    (errorType: string) => Row(errorType, |IdsWith(events, errorType)|, trajectories, Occurrences(events, errorType), |events|,
                               EvidenceOf(events, errorType, maxEvidence))
  }

  /** One row for each type that occurs, the largest share first. */
  function RowsOf(events: seq<Event>, trajectories: nat, maxEvidence: int): seq<Row> {
    Sort(Apply(Listing(TypesOf(events)), RowOf(events, trajectories, maxEvidence)), RowLe)
  }

  method MakeRow(events: seq<Event>, trajectories: nat, maxEvidence: int, occurrences: map<string, nat>,
                 with: map<string, set<string>>,
                 errorType: string) returns (row: Row)
    requires Numbered(events, occurrences) && Identified(events, with)
    ensures row == RowOf(events, trajectories, maxEvidence)(errorType)
  {
    var evidence := Slice(Sort(Filter(events, OfType(errorType)), EventLe), maxEvidence);
    assert Number(occurrences, errorType) == Occurrences(events, errorType);
    assert Ids(with, errorType) == IdsWith(events, errorType);
    row := Row(errorType, |Ids(with, errorType)|, trajectories, Number(occurrences, errorType), |events|, evidence);
  }

  method MakeRows(events: seq<Event>, trajectories: nat, maxEvidence: int, occurrences: map<string, nat>,
                  with: map<string, set<string>>)
      returns (rows: seq<Row>)
    requires Numbered(events, occurrences) && Identified(events, with)
    ensures rows == RowsOf(events, trajectories, maxEvidence)
  {
    var types := Listing(occurrences.Keys);
    TypesAreKeys(events, occurrences);
    ghost var row := RowOf(events, trajectories, maxEvidence);
    rows := [];
    var i := 0;
    while i < |types|
      invariant 0 <= i <= |types|
      invariant rows == Apply(types[..i], row)
    {
      var next := MakeRow(events, trajectories, maxEvidence, occurrences, with, types[i]);
      ApplyOneMore(types, row, i);
      rows := rows + [next];
      i := i + 1;
    }
    assert types[..|types|] == types;
    rows := Sort(rows, RowLe);
  }

  lemma ApplyOneMore<T, U>(s: seq<T>, f: T -> U, i: nat)
    requires i < |s|
    ensures Apply(s[..i + 1], f) == Apply(s[..i], f) + [f(s[i])]
  {
  }

  lemma TypesAreKeys(events: seq<Event>, occurrences: map<string, nat>)
    requires Numbered(events, occurrences)
    ensures occurrences.Keys == TypesOf(events)
  {
    forall errorType ensures errorType in occurrences <==> errorType in TypesOf(events) {
      OccursIffType(events, errorType);
      assert Number(occurrences, errorType) == Occurrences(events, errorType);
    }
  }

  datatype Report = Report(rows: seq<Row>, total: nat, trajectories: nat, together: Together)

  method ErrorFrequencyReport(trajectories: seq<Trajectory>, detectors: seq<Detector>,
                              maxEvidence: int) returns (report: Report)
    ensures var events := EventsOf(trajectories, detectors);
      && report.rows == RowsOf(events, |trajectories|, maxEvidence)
      && report.total == |events| && report.trajectories == |trajectories|
      && CountsSteps(events, report.together)
  {
    var events := DetectAll(trajectories, detectors);
    var occurrences, with := Aggregate(events);
    var together := CountTogether(events);
    var rows := MakeRows(events, |trajectories|, maxEvidence, occurrences, with);
    report := Report(rows, |events|, |trajectories|, together);
  }
}
