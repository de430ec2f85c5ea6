/** The walk over a trajectory's payload: which leaves are redacted, in which order, through one state. */
module RedactTrajectory {
  import opened Models
  import opened Ordering
  import opened Placeholders
  import opened Redaction
  import opened RedactedText
  import opened Spans
  import opened Wrappers

  /** Walks a JSON value, replacing texts as it meets them. */
  method RedactValue(v: Json, detect: Detect, state: RedactionState) returns (out: Json)
    requires WellBehaved(detect) && state.Valid()
    modifies state
    ensures state.Valid() && state.log == old(state.log) + KeysIn(detect, v)
    ensures out == Redacted(detect, state.log, v) && TextsSpliced(detect, state.log, v, out)
    decreases v, 1
  {
    if v.Str? {
      var s := RedactText(v.s, detect, state);
      out := Str(s);
    } else if v.Arr? {
      out := RedactItems(v, detect, state);
    } else if v.Obj? {
      var fields := RedactFields(v, Listing(v.fields.Keys), detect, state);
      AllFieldsDone(detect, v, fields, old(state.log), state.log);
      out := Obj(fields);
    } else {
      out := v;
      assert state.log + [] == state.log;
    }
    SplicedUnder(detect, v, old(state.log), state.log);
  }

  lemma SplicedUnder(detect: Detect, v: Json, start: seq<Key>, log: seq<Key>)
    requires WellBehaved(detect) && log == start + KeysIn(detect, v)
    ensures TextsSpliced(detect, log, v, Redacted(detect, log, v))
  {
    RedactedTextsAreSpliced(detect, log, v);
  }

  lemma EarlierItemsStand(detect: Detect, v: Json, n: nat, log: seq<Key>, more: seq<Key>)
    requires WellBehaved(detect) && v.Arr? && n <= |v.items| && AllIn(KeysInItems(detect, v, n), log)
    ensures forall j :: 0 <= j < n ==> Redacted(detect, log + more, v.items[j]) == Redacted(detect, log, v.items[j])
  {
    forall j | 0 <= j < n ensures Redacted(detect, log + more, v.items[j]) == Redacted(detect, log, v.items[j]) {
      ItemKeys(detect, v, n, j);
      RedactedIsStable(detect, log, more, v.items[j]);
    }
  }

  /** The first n items have been redacted, as seen under the log. */
  ghost predicate ItemsDone(detect: Detect, v: Json, n: nat, items: seq<Json>, log: seq<Key>)
    requires WellBehaved(detect) && v.Arr?
  {
    n == |items| <= |v.items| && forall j :: 0 <= j < n ==> items[j] == Redacted(detect, log, v.items[j])
  }

  lemma OneMoreItem(detect: Detect, v: Json, n: nat, items: seq<Json>, start: seq<Key>, log: seq<Key>)
    requires WellBehaved(detect) && v.Arr? && n < |v.items| && ItemsDone(detect, v, n, items, log)
    requires log == start + KeysInItems(detect, v, n)
    ensures var log' := log + KeysIn(detect, v.items[n]);
      && log' == start + KeysInItems(detect, v, n + 1)
      && ItemsDone(detect, v, n + 1, items + [Redacted(detect, log', v.items[n])], log')
  {
    var more := KeysIn(detect, v.items[n]);
    KeysOfOneMoreItem(detect, v, n, start, log);
    EarlierItemsStand(detect, v, n, log, more);
    AppendDone(detect, v, n, items, log + more, Redacted(detect, log + more, v.items[n]));
  }

  lemma KeysOfOneMoreItem(detect: Detect, v: Json, n: nat, start: seq<Key>, log: seq<Key>)
    requires WellBehaved(detect) && v.Arr? && n < |v.items| && log == start + KeysInItems(detect, v, n)
    ensures log + KeysIn(detect, v.items[n]) == start + KeysInItems(detect, v, n + 1)
    ensures AllIn(KeysInItems(detect, v, n), log)
  {
    LogGrows(start, KeysInItems(detect, v, n), KeysIn(detect, v.items[n]));
  }

  lemma LogGrows(start: seq<Key>, done: seq<Key>, more: seq<Key>)
    ensures (start + done) + more == start + (done + more)
    ensures AllIn(done, start + done)
  {
  }

  lemma AppendDone(detect: Detect, v: Json, n: nat, items: seq<Json>, log: seq<Key>, next: Json)
    requires WellBehaved(detect) && v.Arr? && n < |v.items| && ItemsDone(detect, v, n, items, log)
    requires next == Redacted(detect, log, v.items[n])
    ensures ItemsDone(detect, v, n + 1, items + [next], log)
  {
    var more := items + [next];
    forall j | 0 <= j < n + 1 ensures more[j] == Redacted(detect, log, v.items[j]) {
      assert j < n ==> more[j] == items[j];
    }
  }

  lemma AllItemsDone(detect: Detect, v: Json, items: seq<Json>, log: seq<Key>)
    requires WellBehaved(detect) && v.Arr? && ItemsDone(detect, v, |v.items|, items, log)
    ensures Arr(items) == Redacted(detect, log, v)
  {
    assert items == seq(|v.items|, k requires 0 <= k < |v.items| => Redacted(detect, log, v.items[k]));
  }

  /** Where the loop over the items stands after the first n. */
  ghost predicate ItemLoop(detect: Detect, v: Json, n: nat, items: seq<Json>, start: seq<Key>, log: seq<Key>)
    requires WellBehaved(detect) && v.Arr?
  {
    ItemsDone(detect, v, n, items, log) && log == start + KeysInItems(detect, v, n)
  }

  lemma ItemLoopStarts(detect: Detect, v: Json, start: seq<Key>)
    requires WellBehaved(detect) && v.Arr?
    ensures ItemLoop(detect, v, 0, [], start, start)
  {
    assert start + [] == start;
  }

  lemma ItemLoopEnds(detect: Detect, v: Json, items: seq<Json>, start: seq<Key>, log: seq<Key>)
    requires WellBehaved(detect) && v.Arr? && ItemLoop(detect, v, |v.items|, items, start, log)
    ensures Arr(items) == Redacted(detect, log, v) && log == start + KeysIn(detect, v)
  {
    AllItemsDone(detect, v, items, log);
  }

  /** One pass of the loop over a list's items. */
  method RedactItem(v: Json, i: nat, items: seq<Json>, detect: Detect, state: RedactionState, ghost start: seq<Key>)
      returns (more: seq<Json>)
    requires WellBehaved(detect) && state.Valid() && v.Arr? && i < |v.items|
    requires ItemLoop(detect, v, i, items, start, state.log)
    modifies state
    ensures state.Valid() && ItemLoop(detect, v, i + 1, more, start, state.log)
    decreases v, 0, 0
  {
    OneMoreItem(detect, v, i, items, start, state.log);
    var item := RedactValue(v.items[i], detect, state);
    more := items + [item];
  }

  method RedactItems(v: Json, detect: Detect, state: RedactionState) returns (out: Json)
    requires WellBehaved(detect) && state.Valid() && v.Arr?
    modifies state
    ensures state.Valid() && state.log == old(state.log) + KeysIn(detect, v)
    ensures out == Redacted(detect, state.log, v)
    decreases v, 0, 1
  {
    ghost var start := state.log;
    var items: seq<Json> := [];
    var i := 0;
    ItemLoopStarts(detect, v, start);
    while i < |v.items|
      invariant 0 <= i <= |v.items| && state.Valid()
      invariant ItemLoop(detect, v, i, items, start, state.log)
    {
      items := RedactItem(v, i, items, detect, state, start);
      i := i + 1;
    }
    ItemLoopEnds(detect, v, items, start, state.log);
    out := Arr(items);
  }

  lemma EarlierFieldsStand(detect: Detect, v: Json, names: seq<string>, log: seq<Key>, more: seq<Key>)
    requires WellBehaved(detect) && v.Obj? && forall n :: n in names ==> n in v.fields
    requires AllIn(KeysInFields(detect, v, names), log)
    ensures forall n :: n in names ==> Redacted(detect, log + more, v.fields[n]) == Redacted(detect, log, v.fields[n])
  {
    forall n | n in names ensures Redacted(detect, log + more, v.fields[n]) == Redacted(detect, log, v.fields[n]) {
      FieldKeys(detect, v, names, n);
      RedactedIsStable(detect, log, more, v.fields[n]);
    }
  }

  /** The fields of the map have been redacted, as seen under the log. */
  ghost predicate FieldsDone(detect: Detect, v: Json, fields: map<string, Json>, log: seq<Key>)
    requires WellBehaved(detect) && v.Obj?
  {
    forall n :: n in fields ==> n in v.fields && fields[n] == Redacted(detect, log, v.fields[n])
  }

  lemma EarlierDoneFieldsStand(detect: Detect, v: Json, names: seq<string>, fields: map<string, Json>, log: seq<Key>,
                               more: seq<Key>)
    requires WellBehaved(detect) && v.Obj? && FieldsDone(detect, v, fields, log)
    requires (forall n :: n in names ==> n in v.fields) && (forall n :: n in fields ==> n in names)
    requires AllIn(KeysInFields(detect, v, names), log)
    ensures FieldsDone(detect, v, fields, log + more)
  {
    EarlierFieldsStand(detect, v, names, log, more);
  }

  lemma KeysInOneMoreField(detect: Detect, v: Json, names: seq<string>, name: string)
    requires WellBehaved(detect) && v.Obj? && name in v.fields && forall n :: n in names ==> n in v.fields
    ensures (forall n :: n in names + [name] ==> n in v.fields)
    ensures KeysInFields(detect, v, names + [name]) == KeysInFields(detect, v, names) + KeysIn(detect, v.fields[name])
  {
    assert (names + [name])[..|names|] == names;
  }

  lemma KeysOfOneMoreField(detect: Detect, v: Json, names: seq<string>, name: string, start: seq<Key>, log: seq<Key>)
    requires WellBehaved(detect) && v.Obj? && name in v.fields && forall n :: n in names ==> n in v.fields
    requires log == start + KeysInFields(detect, v, names)
    ensures (forall n :: n in names + [name] ==> n in v.fields)
    ensures log + KeysIn(detect, v.fields[name]) == start + KeysInFields(detect, v, names + [name])
    ensures AllIn(KeysInFields(detect, v, names), log)
  {
    KeysInOneMoreField(detect, v, names, name);
    LogGrows(start, KeysInFields(detect, v, names), KeysIn(detect, v.fields[name]));
  }

  /** Where the loop over the sorted keys stands once it is through with `names`. */
  ghost predicate FieldLoop(detect: Detect, v: Json, names: seq<string>, fields: map<string, Json>, start: seq<Key>,
                            log: seq<Key>)
    requires WellBehaved(detect) && v.Obj?
  {
    && (forall name :: name in names ==> name in v.fields)
    && (forall name :: name in fields <==> name in names)
    && FieldsDone(detect, v, fields, log)
    && log == start + KeysInFields(detect, v, names)
  }

  lemma FieldLoopStep(detect: Detect, v: Json, names: seq<string>, name: string, fields: map<string, Json>,
                      start: seq<Key>, log: seq<Key>)
    requires WellBehaved(detect) && v.Obj? && name in v.fields && FieldLoop(detect, v, names, fields, start, log)
    ensures var log' := log + KeysIn(detect, v.fields[name]);
      FieldLoop(detect, v, names + [name], fields[name := Redacted(detect, log', v.fields[name])], start, log')
  {
    KeysOfOneMoreField(detect, v, names, name, start, log);
    EarlierDoneFieldsStand(detect, v, names, fields, log, KeysIn(detect, v.fields[name]));
    OneMoreDone(detect, v, fields, name, log + KeysIn(detect, v.fields[name]));
    assert forall other :: other in names + [name] <==> other in names || other == name;
  }

  lemma OneMoreDone(detect: Detect, v: Json, fields: map<string, Json>, name: string, log: seq<Key>)
    requires WellBehaved(detect) && v.Obj? && name in v.fields && FieldsDone(detect, v, fields, log)
    ensures FieldsDone(detect, v, fields[name := Redacted(detect, log, v.fields[name])], log)
  {
  }

  lemma AllFieldsDone(detect: Detect, v: Json, fields: map<string, Json>, start: seq<Key>, log: seq<Key>)
    requires WellBehaved(detect) && v.Obj? && FieldLoop(detect, v, Listing(v.fields.Keys), fields, start, log)
    ensures Obj(fields) == Redacted(detect, log, v) && log == start + KeysIn(detect, v)
  {
    assert fields.Keys == v.fields.Keys;
    assert fields == map name | name in v.fields :: Redacted(detect, log, v.fields[name]);
  }

  /** One pass of the loop over an object's keys. */
  method RedactField(v: Json, name: string, fields: map<string, Json>, detect: Detect, state: RedactionState,
                     ghost names: seq<string>, ghost start: seq<Key>)
      returns (more: map<string, Json>)
    requires WellBehaved(detect) && state.Valid() && v.Obj? && name in v.fields
    requires FieldLoop(detect, v, names, fields, start, state.log)
    modifies state
    ensures state.Valid() && FieldLoop(detect, v, names + [name], more, start, state.log)
    decreases v, 0, 0
  {
    FieldLoopStep(detect, v, names, name, fields, start, state.log);
    var field := RedactValue(v.fields[name], detect, state);
    more := fields[name := field];
  }

  /** The pass over the sorted keys. */
  method RedactFields(v: Json, names: seq<string>, detect: Detect, state: RedactionState) returns (fields: map<string, Json>)
    requires WellBehaved(detect) && state.Valid() && v.Obj? && forall n :: n in names ==> n in v.fields
    modifies state
    ensures state.Valid() && FieldLoop(detect, v, names, fields, old(state.log), state.log)
    decreases v, 0, 1, |names|
  {
    if names == [] {
      fields := map[];
      assert state.log + [] == state.log;
    } else {
      var front, last := names[..|names| - 1], names[|names| - 1];
      assert names == front + [last];
      fields := RedactFields(v, front, detect, state);
      fields := RedactField(v, last, fields, detect, state, front, old(state.log));
    }
  }

  // ---- the trajectory --------------------------------------------------------------------------

  /** The parts of a step: the leaves that are redacted, in the order a reader meets them, and the rest. */
  datatype Leaf = ObservationText | OutputText | ReasoningText | ActionText | Arguments | ArgumentsRaw | ResultText
                | Other(field: string)

  const LEAVES := [ObservationText, OutputText, ReasoningText, ActionText, Arguments, ArgumentsRaw, ResultText]

  type Path = (nat, Leaf)

  /** The parts of the trajectory that are present and not null. */
  type Payload = map<Path, Json>

  function StepPaths(step: nat): (r: seq<Path>)
    ensures |r| == 7
  {
    seq(7, i requires 0 <= i < 7 => (step, LEAVES[i]))
  }

  function PathsOf(steps: nat): seq<Path> {
    if steps == 0 then [] else PathsOf(steps - 1) + StepPaths(steps - 1)
  }

  lemma {:induction false} PathsCover(steps: nat, path: Path)
    ensures path in PathsOf(steps) <==> path.0 < steps && !path.1.Other?
  {
    if steps > 0 {
      PathsCover(steps - 1, path);
      if path.0 == steps - 1 && !path.1.Other? {
        var k := match path.1 {
          case ObservationText => 0 case OutputText => 1 case ReasoningText => 2 case ActionText => 3
          case Arguments => 4 case ArgumentsRaw => 5 case ResultText => 6
        };
        assert StepPaths(steps - 1)[k] == path;
      }
    }
  }

  lemma {:induction false} PathsDistinct(steps: nat)
    ensures Distinct(PathsOf(steps))
  {
    if steps > 0 {
      PathsDistinct(steps - 1);
      var front, last := PathsOf(steps - 1), StepPaths(steps - 1);
      forall i | 0 <= i < |front| ensures front[i].0 < steps - 1 {
        assert front[i] in front;
        PathsCover(steps - 1, front[i]);
      }
    }
  }

  /** Step by step, and within a step what the environment said, what the model said, what it did and
      what came back. */
  lemma {:induction false} PathsInOrder(steps: nat, step: nat)
    requires step < steps
    ensures |PathsOf(steps)| == 7 * steps
    ensures PathsOf(steps)[7 * step..7 * step + 7]
         == [(step, ObservationText), (step, OutputText), (step, ReasoningText), (step, ActionText), (step, Arguments),
             (step, ArgumentsRaw), (step, ResultText)]
  {
    if step < steps - 1 {
      PathsInOrder(steps - 1, step);
      assert PathsOf(steps)[7 * step..7 * step + 7] == PathsOf(steps - 1)[7 * step..7 * step + 7];
    } else {
      PathsLength(steps - 1);
      assert PathsOf(steps)[7 * step..7 * step + 7] == StepPaths(step);
    }
  }

  lemma {:induction false} PathsLength(steps: nat)
    ensures |PathsOf(steps)| == 7 * steps
  {
    if steps > 0 { PathsLength(steps - 1); }
  }

  /** Every replacement along the paths, in order; absent leaves contribute nothing. */
  ghost function KeysAlong(detect: Detect, payload: Payload, paths: seq<Path>): seq<Key>
    requires WellBehaved(detect)
  {
    if paths == [] then []
    else
      var last := paths[|paths| - 1];
      KeysAlong(detect, payload, paths[..|paths| - 1]) + (if last in payload then KeysIn(detect, payload[last]) else [])
  }

  /** Leaves are met in the order of their paths; a path without a leaf holds nothing. */
  lemma {:induction false} PathsAreReadInOrder(detect: Detect, payload: Payload, a: seq<Path>, b: seq<Path>, path: Path)
    requires WellBehaved(detect)
    ensures KeysAlong(detect, payload, [path]) == if path in payload then KeysIn(detect, payload[path]) else []
    ensures KeysAlong(detect, payload, a + b) == KeysAlong(detect, payload, a) + KeysAlong(detect, payload, b)
    decreases |b|
  {
    assert [path][..0] == [];
    assert KeysAlong(detect, payload, []) == [];
    if b == [] {
      assert a + b == a && KeysAlong(detect, payload, a) + [] == KeysAlong(detect, payload, a);
    } else {
      var front, last := b[..|b| - 1], b[|b| - 1];
      assert (a + b)[..|a + b| - 1] == a + front && (a + b)[|a + b| - 1] == last;
      PathsAreReadInOrder(detect, payload, a, front, path);
      Regroup(KeysAlong(detect, payload, a), KeysAlong(detect, payload, front),
              if last in payload then KeysIn(detect, payload[last]) else []);
    }
  }

  lemma {:induction false} PathKeys(detect: Detect, payload: Payload, paths: seq<Path>, path: Path)
    requires WellBehaved(detect) && path in paths && path in payload
    ensures forall k :: k in KeysIn(detect, payload[path]) ==> k in KeysAlong(detect, payload, paths)
  {
    var front, last := paths[..|paths| - 1], paths[|paths| - 1];
    assert paths == front + [last];
    if path != last { PathKeys(detect, payload, front, path); }
  }

  lemma EarlierPathsStand(detect: Detect, payload: Payload, paths: seq<Path>, log: seq<Key>, more: seq<Key>)
    requires WellBehaved(detect) && AllIn(KeysAlong(detect, payload, paths), log)
    ensures forall p :: p in paths && p in payload ==>
      Redacted(detect, log + more, payload[p]) == Redacted(detect, log, payload[p])
  {
    forall p | p in paths && p in payload ensures Redacted(detect, log + more, payload[p]) == Redacted(detect, log, payload[p]) {
      PathKeys(detect, payload, paths, p);
      RedactedIsStable(detect, log, more, payload[p]);
    }
  }

  /** The leaves on the paths have been rewritten, as seen under the log, and no others. */
  ghost predicate PathsDone(detect: Detect, payload: Payload, paths: seq<Path>, redacted: Payload, log: seq<Key>)
    requires WellBehaved(detect)
  {
    && redacted.Keys == payload.Keys
    && forall p :: p in payload ==> redacted[p] == if p in paths then Redacted(detect, log, payload[p]) else payload[p]
  }

  lemma KeysOfOneMorePath(detect: Detect, payload: Payload, paths: seq<Path>, path: Path, start: seq<Key>, log: seq<Key>)
    requires WellBehaved(detect) && log == start + KeysAlong(detect, payload, paths)
    ensures (if path in payload then log + KeysIn(detect, payload[path]) else log)
         == start + KeysAlong(detect, payload, paths + [path])
    ensures AllIn(KeysAlong(detect, payload, paths), log)
  {
    assert (paths + [path])[..|paths|] == paths;
    assert log + [] == log;
  }

  lemma OneMorePathDone(detect: Detect, payload: Payload, paths: seq<Path>, path: Path, redacted: Payload, log: seq<Key>)
    requires WellBehaved(detect) && path !in paths && PathsDone(detect, payload, paths, redacted, log)
    ensures PathsDone(detect, payload, paths + [path],
                      if path in payload then redacted[path := Redacted(detect, log, payload[path])] else redacted, log)
  {
    assert forall other :: other in paths + [path] <==> other in paths || other == path;
  }

  lemma PathsStayDone(detect: Detect, payload: Payload, paths: seq<Path>, redacted: Payload, log: seq<Key>, more: seq<Key>)
    requires WellBehaved(detect) && PathsDone(detect, payload, paths, redacted, log)
    requires AllIn(KeysAlong(detect, payload, paths), log)
    ensures PathsDone(detect, payload, paths, redacted, log + more)
  {
    EarlierPathsStand(detect, payload, paths, log, more);
  }

  lemma AllPathsDone(detect: Detect, payload: Payload, steps: nat, redacted: Payload, log: seq<Key>)
    requires WellBehaved(detect) && PathsDone(detect, payload, PathsOf(steps), redacted, log)
    ensures redacted.Keys == payload.Keys
    ensures forall p :: p in payload ==>
      redacted[p] == if p.0 < steps && !p.1.Other? then Redacted(detect, log, payload[p]) else payload[p]
  {
    forall p | p in payload ensures p in PathsOf(steps) <==> p.0 < steps && !p.1.Other? { PathsCover(steps, p); }
  }

  /** Where the loop over the paths stands once it is through with `paths`. */
  ghost predicate PathLoop(detect: Detect, payload: Payload, paths: seq<Path>, redacted: Payload, start: seq<Key>,
                           log: seq<Key>)
    requires WellBehaved(detect)
  {
    PathsDone(detect, payload, paths, redacted, log) && log == start + KeysAlong(detect, payload, paths)
  }

  lemma PathLoopStep(detect: Detect, payload: Payload, paths: seq<Path>, path: Path, redacted: Payload, start: seq<Key>,
                     log: seq<Key>)
    requires WellBehaved(detect) && path !in paths && PathLoop(detect, payload, paths, redacted, start, log)
    ensures var log' := if path in payload then log + KeysIn(detect, payload[path]) else log;
      PathLoop(detect, payload, paths + [path],
               if path in payload then redacted[path := Redacted(detect, log', payload[path])] else redacted, start, log')
  {
    KeysOfOneMorePath(detect, payload, paths, path, start, log);
    if path in payload {
      PathsStayDone(detect, payload, paths, redacted, log, KeysIn(detect, payload[path]));
      OneMorePathDone(detect, payload, paths, path, redacted, log + KeysIn(detect, payload[path]));
    } else {
      OneMorePathDone(detect, payload, paths, path, redacted, log);
    }
  }

  /** One pass of the loop over the paths; a leaf that is absent or null is skipped. */
  method RedactPath(redacted: Payload, path: Path, detect: Detect, state: RedactionState,
                    ghost payload: Payload, ghost paths: seq<Path>, ghost start: seq<Key>)
      returns (next: Payload)
    requires WellBehaved(detect) && state.Valid() && path !in paths
    requires PathLoop(detect, payload, paths, redacted, start, state.log)
    modifies state
    ensures state.Valid() && PathLoop(detect, payload, paths + [path], next, start, state.log)
  {
    PathLoopStep(detect, payload, paths, path, redacted, start, state.log);
    next := redacted;
    if path in redacted {
      var value := RedactValue(redacted[path], detect, state);
      next := redacted[path := value];
    }
  }

  lemma PathLoopStarts(detect: Detect, payload: Payload, start: seq<Key>)
    requires WellBehaved(detect)
    ensures PathLoop(detect, payload, [], payload, start, start)
  {
    assert start + [] == start;
  }

  /** Rewrites the leaves in path order and reports the counts by class. The result reads as if every
      leaf had been redacted with the finished table; everything else is as it was. */
  method RedactPayload(payload: Payload, steps: nat, detect: Detect, state: RedactionState)
      returns (redacted: Payload, counts: map<string, nat>)
    requires WellBehaved(detect) && state.Valid()
    modifies state
    ensures state.Valid() && state.log == old(state.log) + KeysAlong(detect, payload, PathsOf(steps))
    ensures redacted.Keys == payload.Keys
    ensures forall p :: p in payload ==>
      redacted[p] == if p.0 < steps && !p.1.Other? then Redacted(detect, state.log, payload[p]) else payload[p]
    ensures forall p :: p in payload && p.0 < steps && !p.1.Other? ==> TextsSpliced(detect, state.log, payload[p], redacted[p])
    ensures counts == TableOf(state.log).counts
  {
    ghost var start := state.log;
    var paths := PathsOf(steps);
    PathsDistinct(steps);
    redacted := payload;
    var i := 0;
    PathLoopStarts(detect, payload, start);
    assert paths[..0] == [];
    while i < |paths|
      invariant 0 <= i <= |paths| && state.Valid()
      invariant PathLoop(detect, payload, paths[..i], redacted, start, state.log)
    {
      NextIsNew(paths, i);
      redacted := RedactPath(redacted, paths[i], detect, state, payload, paths[..i], start);
      i := i + 1;
    }
    assert paths[..|paths|] == paths;
    AllPathsDone(detect, payload, steps, redacted, state.log);
    AllTextsSpliced(detect, payload, steps, redacted, start, state.log);
    counts := state.counts;
  }

  /** Every text of every redacted leaf stands in the output with its spans replaced. */
  lemma AllTextsSpliced(detect: Detect, payload: Payload, steps: nat, redacted: Payload, start: seq<Key>, log: seq<Key>)
    requires WellBehaved(detect) && log == start + KeysAlong(detect, payload, PathsOf(steps)) && redacted.Keys == payload.Keys
    requires forall p :: p in payload && p.0 < steps && !p.1.Other? ==> redacted[p] == Redacted(detect, log, payload[p])
    ensures forall p :: p in payload && p.0 < steps && !p.1.Other? ==> TextsSpliced(detect, log, payload[p], redacted[p])
  {
    forall p | p in payload && p.0 < steps && !p.1.Other? ensures TextsSpliced(detect, log, payload[p], redacted[p]) {
      PathsCover(steps, p);
      PathKeys(detect, payload, PathsOf(steps), p);
      RedactedTextsAreSpliced(detect, log, payload[p]);
    }
  }

  lemma NextIsNew(paths: seq<Path>, i: nat)
    requires Distinct(paths) && i < |paths|
    ensures paths[i] !in paths[..i] && paths[..i] + [paths[i]] == paths[..i + 1]
  {
  }

  /** Anywhere in a redacted trajectory, two stretches that replaced a span read the same if and only if
      the spans had the same class and value. */
  lemma SameStringIffSameValueAnywhere(detect: Detect, log: seq<Key>, payload: Payload, redacted: Payload,
                                       p: Path, route: seq<Hop>, text: string, i: nat, q: Path, otherRoute: seq<Hop>, other: string, j: nat)
    requires p in payload && q in payload && p in redacted && q in redacted
    requires TextsSpliced(detect, log, payload[p], redacted[p]) && TextsSpliced(detect, log, payload[q], redacted[q])
    requires ValueAt(payload[p], route) == Some(Str(text)) && i < |Resolved(detect(text))|
    requires ValueAt(payload[q], otherRoute) == Some(Str(other)) && j < |Resolved(detect(other))|
    ensures exists out, at, otherOut, otherAt, end: nat, otherEnd: nat ::
      && ValueAt(redacted[p], route) == Some(Str(out)) && Spliced(detect, log, text, out, at)
      && ValueAt(redacted[q], otherRoute) == Some(Str(otherOut)) && Spliced(detect, log, other, otherOut, otherAt)
      && EndsAt(detect, log, text, out, at, i, end) && EndsAt(detect, log, other, otherOut, otherAt, j, otherEnd)
      && (out[at[i]..end] == otherOut[otherAt[j]..otherEnd]
          <==> Resolved(detect(text))[i].cls == Resolved(detect(other))[j].cls
               && Resolved(detect(text))[i].text == Resolved(detect(other))[j].text)
  {
    var out, at := SplicedTextAt(detect, log, payload[p], redacted[p], route, text);
    var otherOut, otherAt := SplicedTextAt(detect, log, payload[q], redacted[q], otherRoute, other);
    var end, otherEnd := StampEnd(detect, log, text, out, at, i), StampEnd(detect, log, other, otherOut, otherAt, j);
    SameStretchIffSameValue(detect, log, text, out, at, i, end, other, otherOut, otherAt, j, otherEnd);
    assert EndsAt(detect, log, text, out, at, i, end) && EndsAt(detect, log, other, otherOut, otherAt, j, otherEnd);
  }
}
