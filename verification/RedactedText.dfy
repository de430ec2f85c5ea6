/** What redaction does to the texts themselves: wherever a text stands in a value, the output is the
    text with every resolved span cut out and its placeholder put in. */
module RedactedText {
  import opened Models
  import opened Ordering
  import opened Placeholders
  import opened Redaction
  import opened Spans
  import opened Wrappers

  // ---- one text -----------------------------------------------------------------------------------

  /** The placeholder of a class and value: the class, and how many values of it were met up to there. */
  ghost function Stamp(log: seq<Key>, cls: string, value: string): string
    requires (cls, value) in log
  {
    "<" + cls + "_" + Decimal(|set k | k in log[..First(log, (cls, value)) + 1] && k.0 == cls|) + ">"
  }

  ghost predicate AllMet(log: seq<Key>, spans: seq<Span>) {
    forall i :: 0 <= i < |spans| ==> (spans[i].cls, spans[i].text) in log
  }

  ghost function Stamps(log: seq<Key>, spans: seq<Span>): (r: seq<string>)
    requires AllMet(log, spans)
    ensures |r| == |spans| && forall i :: 0 <= i < |spans| ==> r[i] == Stamp(log, spans[i].cls, spans[i].text)
  {
    seq(|spans|, i requires 0 <= i < |spans| => Stamp(log, spans[i].cls, spans[i].text))
  }

  /** In order and inside the text, from the cursor on. */
  ghost predicate InText(text: string, cursor: nat, spans: seq<Span>) {
    && cursor <= |text|
    && (forall i :: 0 <= i < |spans| ==> cursor <= spans[i].start <= spans[i].end <= |text|)
    && forall i, j :: 0 <= i && j == i + 1 && j < |spans| ==> spans[i].end <= spans[j].start
  }

  /** Where the i-th kept stretch starts and ends: before the first span, between neighbours, after the last. */
  function GapStart(cursor: nat, spans: seq<Span>, i: nat): nat
    requires i <= |spans|
  {
    if i == 0 then cursor else spans[i - 1].end
  }

  function GapEnd(text: string, spans: seq<Span>, i: nat): nat
    requires i <= |spans|
  {
    if i == |spans| then |text| else spans[i].start
  }

  lemma GapInText(text: string, cursor: nat, spans: seq<Span>, i: nat)
    requires InText(text, cursor, spans) && i <= |spans|
    ensures GapStart(cursor, spans, i) <= GapEnd(text, spans, i) <= |text|
  {
  }

  ghost function Gap(text: string, cursor: nat, spans: seq<Span>, i: nat): string
    requires InText(text, cursor, spans) && i <= |spans|
  {
    GapInText(text, cursor, spans, i);
    text[GapStart(cursor, spans, i)..GapEnd(text, spans, i)]
  }

  ghost function Gaps(text: string, cursor: nat, spans: seq<Span>): (r: seq<string>)
    requires InText(text, cursor, spans)
    ensures |r| == |spans| + 1 && forall i :: 0 <= i <= |spans| ==> r[i] == Gap(text, cursor, spans, i)
  {
    seq(|spans| + 1, i requires 0 <= i <= |spans| => Gap(text, cursor, spans, i))
  }

  /** The string stands at the position. */
  ghost predicate Stands(out: string, at: nat, part: string) {
    at + |part| <= |out| && out[at..at + |part|] == part
  }

  /** Where the i-th gap begins: at the start, or behind a stamp. */
  function GapAt(stamps: seq<string>, at: seq<nat>, i: nat): nat
    requires i <= |stamps| == |at|
  {
    if i == 0 then 0 else at[i - 1] + |stamps[i - 1]|
  }

  /** The i-th stamp stands right behind the i-th gap. */
  ghost predicate StampPlaced(out: string, at: seq<nat>, stamps: seq<string>, gaps: seq<string>, i: nat)
    requires i < |stamps| == |at| && i < |gaps|
  {
    Stands(out, at[i], stamps[i]) && at[i] == GapAt(stamps, at, i) + |gaps[i]|
  }

  ghost predicate GapPlaced(out: string, at: seq<nat>, stamps: seq<string>, gaps: seq<string>, i: nat)
    requires i <= |stamps| == |at| && i < |gaps|
  {
    Stands(out, GapAt(stamps, at, i), gaps[i])
  }

  /** Gaps and stamps in turn, nothing else: the i-th stamp stands at position at[i]. */
  ghost predicate Woven(out: string, at: seq<nat>, stamps: seq<string>, gaps: seq<string>) {
    && |at| == |stamps| && |gaps| == |stamps| + 1
    && (forall i :: 0 <= i < |stamps| ==> StampPlaced(out, at, stamps, gaps, i))
    && (forall i :: 0 <= i <= |stamps| ==> GapPlaced(out, at, stamps, gaps, i))
    && |out| == GapAt(stamps, at, |stamps|) + |gaps[|stamps|]|
  }

  lemma StampIsShown(log: seq<Key>, cls: string, value: string)
    requires (cls, value) in log
    ensures Show(log, (cls, value)) == Stamp(log, cls, value)
  {
    NumberIsRankOfFirstEncounter(log, (cls, value));
  }

  lemma {:induction false} ShownJoins(log: seq<Key>, a: seq<Piece>, b: seq<Piece>)
    ensures Shown(log, a + b) == Shown(log, a) + Shown(log, b)
    ensures KeysOf(a + b) == KeysOf(a) + KeysOf(b)
  {
    if b == [] {
      assert a + b == a;
    } else {
      var front, last := b[..|b| - 1], b[|b| - 1];
      assert b == front + [last] && a + b == (a + front) + [last];
      ShownJoins(log, a, front);
      JoinOneMore(log, a, front, last);
    }
  }

  lemma JoinOneMore(log: seq<Key>, a: seq<Piece>, front: seq<Piece>, last: Piece)
    requires Shown(log, a + front) == Shown(log, a) + Shown(log, front) && KeysOf(a + front) == KeysOf(a) + KeysOf(front)
    ensures Shown(log, (a + front) + [last]) == Shown(log, a) + Shown(log, front + [last])
    ensures KeysOf((a + front) + [last]) == KeysOf(a) + KeysOf(front + [last])
  {
    ShownAppends(log, a + front, last);
    ShownAppends(log, front, last);
    Regroup(Shown(log, a), Shown(log, front), ShowPiece(log, last));
    Regroup(KeysOf(a), KeysOf(front), KeyOf(last));
  }

  lemma ShownOfTwo(log: seq<Key>, kept: string, cls: string, value: string)
    ensures Shown(log, [Kept(kept), Replaced(cls, value)]) == kept + Show(log, (cls, value))
    ensures KeysOf([Kept(kept), Replaced(cls, value)]) == [(cls, value)]
  {
    ShownAppends(log, [], Kept(kept));
    ShownAppends(log, [Kept(kept)], Replaced(cls, value));
    assert [] + [Kept(kept)] == [Kept(kept)] && [Kept(kept)] + [Replaced(cls, value)] == [Kept(kept), Replaced(cls, value)];
    assert Shown(log, []) + kept == kept;
    assert KeysOf([]) + [] == [] && [] + [(cls, value)] == [(cls, value)];
  }

  lemma ShownOfCut(log: seq<Key>, text: string, spans: seq<Span>, cursor: nat)
    requires cursor <= |text| && AllFit(text, spans) && Laid(spans, cursor) && spans != []
    ensures cursor <= spans[0].start <= spans[0].end <= |text|
    ensures AllFit(text, spans[1..]) && Laid(spans[1..], spans[0].end)
    ensures Shown(log, Cut(text, spans, cursor))
         == text[cursor..spans[0].start] + (Show(log, (spans[0].cls, spans[0].text)) + Shown(log, Cut(text, spans[1..], spans[0].end)))
    ensures KeysOf(Cut(text, spans, cursor)) == [(spans[0].cls, spans[0].text)] + KeysOf(Cut(text, spans[1..], spans[0].end))
  {
    var s, rest := spans[0], spans[1..];
    assert Fits(text, s) && AllFit(text, rest);
    var kept := text[cursor..s.start];
    var later := Cut(text, rest, s.end);
    ShownJoins(log, [Kept(kept), Replaced(s.cls, s.text)], later);
    ShownOfTwo(log, kept, s.cls, s.text);
    Regroup(kept, Show(log, (s.cls, s.text)), Shown(log, later));
  }

  /** The keys of a text are those of its resolved spans, in order. */
  lemma {:induction false} KeysOfCut(text: string, spans: seq<Span>, cursor: nat)
    requires cursor <= |text| && AllFit(text, spans) && Laid(spans, cursor)
    ensures |KeysOf(Cut(text, spans, cursor))| == |spans|
    ensures forall i :: 0 <= i < |spans| ==> KeysOf(Cut(text, spans, cursor))[i] == (spans[i].cls, spans[i].text)
  {
    if spans == [] {
      assert Cut(text, spans, cursor) == [] + [Kept(text[cursor..])];
      ShownAppends([], [], Kept(text[cursor..]));
    } else {
      ShownOfCut([], text, spans, cursor);
      KeysOfCut(text, spans[1..], spans[0].end);
    }
  }

  lemma KeysOfText(detect: Detect, text: string)
    requires WellBehaved(detect)
    ensures |KeysOf(PiecesOf(detect, text))| == |Resolved(detect(text))|
    ensures forall i :: 0 <= i < |Resolved(detect(text))| ==>
      KeysOf(PiecesOf(detect, text))[i] == (Resolved(detect(text))[i].cls, Resolved(detect(text))[i].text)
  {
    ResolvedFit(detect, text);
    KeysOfCut(text, Resolved(detect(text)), 0);
  }

  /** Positions moved to the right. */
  function Shifted(at: seq<nat>, far: nat): (r: seq<nat>)
    ensures |r| == |at| && forall i :: 0 <= i < |at| ==> r[i] == at[i] + far
  {
    seq(|at|, i requires 0 <= i < |at| => at[i] + far)
  }

  lemma StandsLater(head: string, out: string, at: nat, part: string)
    requires Stands(out, at, part)
    ensures Stands(head + out, at + |head|, part)
  {
    assert (head + out)[at + |head|..at + |head| + |part|] == out[at..at + |part|];
  }

  lemma HeadStands(gap: string, stamp: string, out: string)
    ensures Stands(gap + (stamp + out), 0, gap) && Stands(gap + (stamp + out), |gap|, stamp)
    ensures gap + (stamp + out) == (gap + stamp) + out
  {
  }

  /** One more gap and stamp in front. */
  lemma WeaveOneMore(out: string, at: seq<nat>, stamps: seq<string>, gaps: seq<string>, gap: string, stamp: string)
    requires Woven(out, at, stamps, gaps)
    ensures Woven(gap + (stamp + out), [|gap|] + Shifted(at, |gap + stamp|), [stamp] + stamps, [gap] + gaps)
  {
    var whole, places := gap + (stamp + out), [|gap|] + Shifted(at, |gap + stamp|);
    var stamps', gaps' := [stamp] + stamps, [gap] + gaps;
    HeadStands(gap, stamp, out);
    forall i | 0 <= i < |stamps'| ensures StampPlaced(whole, places, stamps', gaps', i) {
      if i > 0 {
        assert StampPlaced(out, at, stamps, gaps, i - 1);
        StampLater(out, at, stamps, gaps, gap, stamp, i - 1);
      }
    }
    forall i | 0 <= i <= |stamps'| ensures GapPlaced(whole, places, stamps', gaps', i) {
      if i > 0 {
        assert GapPlaced(out, at, stamps, gaps, i - 1);
        GapLater(out, at, stamps, gaps, gap, stamp, i - 1);
      }
    }
    GapMoves(stamps, at, gap, stamp, |stamps|);
  }

  lemma GapMoves(stamps: seq<string>, at: seq<nat>, gap: string, stamp: string, i: nat)
    requires i <= |stamps| == |at|
    ensures GapAt([stamp] + stamps, [|gap|] + Shifted(at, |gap + stamp|), i + 1) == GapAt(stamps, at, i) + |gap + stamp|
  {
  }

  lemma StampLater(out: string, at: seq<nat>, stamps: seq<string>, gaps: seq<string>, gap: string, stamp: string, i: nat)
    requires i < |stamps| == |at| && i < |gaps| && StampPlaced(out, at, stamps, gaps, i)
    ensures StampPlaced(gap + (stamp + out), [|gap|] + Shifted(at, |gap + stamp|), [stamp] + stamps, [gap] + gaps, i + 1)
  {
    HeadStands(gap, stamp, out);
    StandsLater(gap + stamp, out, at[i], stamps[i]);
    GapMoves(stamps, at, gap, stamp, i);
  }

  lemma GapLater(out: string, at: seq<nat>, stamps: seq<string>, gaps: seq<string>, gap: string, stamp: string, i: nat)
    requires i <= |stamps| == |at| && i < |gaps| && GapPlaced(out, at, stamps, gaps, i)
    ensures GapPlaced(gap + (stamp + out), [|gap|] + Shifted(at, |gap + stamp|), [stamp] + stamps, [gap] + gaps, i + 1)
  {
    HeadStands(gap, stamp, out);
    StandsLater(gap + stamp, out, GapAt(stamps, at, i), gaps[i]);
    GapMoves(stamps, at, gap, stamp, i);
  }

  lemma GapOneMore(text: string, cursor: nat, spans: seq<Span>, i: nat)
    requires spans != [] && InText(text, cursor, spans) && InText(text, spans[0].end, spans[1..]) && 0 < i <= |spans|
    ensures Gap(text, cursor, spans, i) == Gap(text, spans[0].end, spans[1..], i - 1)
  {
  }

  lemma GapsOneMore(text: string, cursor: nat, spans: seq<Span>)
    requires spans != [] && InText(text, cursor, spans) && InText(text, spans[0].end, spans[1..])
    ensures Gaps(text, cursor, spans) == [text[cursor..spans[0].start]] + Gaps(text, spans[0].end, spans[1..])
  {
    var mine, more := Gaps(text, cursor, spans), [text[cursor..spans[0].start]] + Gaps(text, spans[0].end, spans[1..]);
    forall i | 0 <= i <= |spans| ensures mine[i] == more[i] {
      if i > 0 { GapOneMore(text, cursor, spans, i); }
    }
  }

  lemma LaidInText(text: string, cursor: nat, spans: seq<Span>)
    requires cursor <= |text| && AllFit(text, spans) && Laid(spans, cursor)
    ensures InText(text, cursor, spans)
  {
    forall i | 0 <= i < |spans| ensures cursor <= spans[i].start <= spans[i].end <= |text| { assert Fits(text, spans[i]); }
  }

  lemma {:induction false} ShownIsWoven(log: seq<Key>, text: string, spans: seq<Span>, cursor: nat) returns (at: seq<nat>)
    requires cursor <= |text| && AllFit(text, spans) && Laid(spans, cursor) && AllMet(log, spans)
    ensures InText(text, cursor, spans)
    ensures Woven(Shown(log, Cut(text, spans, cursor)), at, Stamps(log, spans), Gaps(text, cursor, spans))
  {
    LaidInText(text, cursor, spans);
    if spans == [] {
      at := [];
      ShownOfRest(log, text, cursor);
    } else {
      ShownOfCut(log, text, spans, cursor);
      RestIsMet(log, spans);
      var later := ShownIsWoven(log, text, spans[1..], spans[0].end);
      at := WovenOneMore(log, text, spans, cursor, Shown(log, Cut(text, spans[1..], spans[0].end)), later);
    }
  }

  lemma WovenOneMore(log: seq<Key>, text: string, spans: seq<Span>, cursor: nat, out: string, later: seq<nat>) returns (at: seq<nat>)
    requires spans != [] && AllMet(log, spans) && AllMet(log, spans[1..])
    requires InText(text, cursor, spans) && InText(text, spans[0].end, spans[1..])
    requires Woven(out, later, Stamps(log, spans[1..]), Gaps(text, spans[0].end, spans[1..]))
    ensures Woven(text[cursor..spans[0].start] + (Show(log, (spans[0].cls, spans[0].text)) + out), at, Stamps(log, spans),
                  Gaps(text, cursor, spans))
  {
    var kept, stamp := text[cursor..spans[0].start], Stamp(log, spans[0].cls, spans[0].text);
    StampIsShown(log, spans[0].cls, spans[0].text);
    RestIsMet(log, spans);
    GapsOneMore(text, cursor, spans);
    at := WeaveInto(out, later, Stamps(log, spans[1..]), Gaps(text, spans[0].end, spans[1..]), kept, stamp,
                    Stamps(log, spans), Gaps(text, cursor, spans));
  }

  lemma WeaveInto(out: string, later: seq<nat>, stamps: seq<string>, gaps: seq<string>, gap: string, stamp: string,
                  allStamps: seq<string>, allGaps: seq<string>) returns (at: seq<nat>)
    requires Woven(out, later, stamps, gaps) && allStamps == [stamp] + stamps && allGaps == [gap] + gaps
    ensures Woven(gap + (stamp + out), at, allStamps, allGaps)
  {
    WeaveOneMore(out, later, stamps, gaps, gap, stamp);
    at := [|gap|] + Shifted(later, |gap + stamp|);
  }

  lemma ShownOfRest(log: seq<Key>, text: string, cursor: nat)
    requires cursor <= |text|
    ensures Shown(log, Cut(text, [], cursor)) == text[cursor..]
  {
    var last := Kept(text[cursor..]);
    assert Cut(text, [], cursor) == [] + [last];
    ShownAppends(log, [], last);
    assert "" + text[cursor..] == text[cursor..];
  }

  lemma RestIsMet(log: seq<Key>, spans: seq<Span>)
    requires spans != [] && AllMet(log, spans)
    ensures AllMet(log, spans[1..]) && Stamps(log, spans) == [Stamp(log, spans[0].cls, spans[0].text)] + Stamps(log, spans[1..])
  {
    var rest := spans[1..];
    forall i | 0 <= i < |rest| ensures (rest[i].cls, rest[i].text) in log { assert rest[i] == spans[i + 1]; }
    forall i | 0 <= i < |rest| ensures Stamps(log, spans)[i + 1] == Stamps(log, rest)[i] { assert rest[i] == spans[i + 1]; }
  }

  // ---- the order of encounter -----------------------------------------------------------------------

  lemma {:induction false} ItemsBefore(detect: Detect, a: seq<Json>, b: seq<Json>, n: nat)
    requires WellBehaved(detect) && n <= |a|
    ensures KeysInItems(detect, Arr(a + b), n) == KeysInItems(detect, Arr(a), n)
  {
    if n > 0 {
      ItemsBefore(detect, a, b, n - 1);
      assert (a + b)[n - 1] == a[n - 1];
    }
  }

  lemma {:induction false} ItemsAfter(detect: Detect, a: seq<Json>, b: seq<Json>, n: nat)
    requires WellBehaved(detect) && n <= |b|
    ensures KeysInItems(detect, Arr(a + b), |a| + n) == KeysIn(detect, Arr(a)) + KeysInItems(detect, Arr(b), n)
  {
    if n == 0 {
      ItemsBefore(detect, a, b, |a|);
      assert KeysIn(detect, Arr(a)) + [] == KeysIn(detect, Arr(a));
    } else {
      ItemsAfter(detect, a, b, n - 1);
      assert (a + b)[|a| + n - 1] == b[n - 1];
      Regroup(KeysIn(detect, Arr(a)), KeysInItems(detect, Arr(b), n - 1), KeysIn(detect, b[n - 1]));
    }
  }

  /** Values are met in list order: what the front of a list holds comes first. */
  lemma ListsAreReadInOrder(detect: Detect, v: Json, a: seq<Json>, b: seq<Json>)
    requires WellBehaved(detect)
    ensures KeysIn(detect, Arr([])) == [] && KeysIn(detect, Arr([v])) == KeysIn(detect, v)
    ensures KeysIn(detect, Arr(a + b)) == KeysIn(detect, Arr(a)) + KeysIn(detect, Arr(b))
  {
    ItemsAfter(detect, a, b, |b|);
    assert KeysInItems(detect, Arr([v]), 0) == [];
    assert KeysInItems(detect, Arr([v]), 1) == [] + KeysIn(detect, v);
  }

  lemma {:induction false} FieldsAfter(detect: Detect, fields: map<string, Json>, name: string, names: seq<string>)
    requires WellBehaved(detect) && name in fields && name !in names && forall n :: n in names ==> n in fields
    ensures forall n :: n in [name] + names ==> n in fields
    ensures forall n :: n in names ==> n in fields - {name}
    ensures KeysInFields(detect, Obj(fields), [name] + names)
         == KeysIn(detect, fields[name]) + KeysInFields(detect, Obj(fields - {name}), names)
  {
    var all := [name] + names;
    if names == [] {
      assert all[..0] == [];
      assert [] + KeysIn(detect, fields[name]) == KeysIn(detect, fields[name]) == KeysIn(detect, fields[name]) + [];
    } else {
      var front, last := names[..|names| - 1], names[|names| - 1];
      assert names == front + [last];
      assert all[..|all| - 1] == [name] + front && all[|all| - 1] == last;
      FieldsAfter(detect, fields, name, front);
      assert last in names;
      Regroup(KeysIn(detect, fields[name]), KeysInFields(detect, Obj(fields - {name}), front), KeysIn(detect, fields[last]));
    }
  }

  /** Fields are met by name: what stands under the least name comes first. */
  lemma ObjectsAreReadByName(detect: Detect, fields: map<string, Json>, name: string)
    requires WellBehaved(detect) && name in fields && forall n :: n in fields ==> StringLe(name, n)
    ensures KeysIn(detect, Obj(fields)) == KeysIn(detect, fields[name]) + KeysIn(detect, Obj(fields - {name}))
  {
    var names := Listing(fields.Keys - {name});
    ListingStarts(fields.Keys, name);
    FieldsAfter(detect, fields, name, names);
    KeysOfObject(detect, fields, [name] + names);
    KeysOfObject(detect, fields - {name}, names);
  }

  lemma ListingStarts(names: set<string>, name: string)
    requires name in names && forall n :: n in names ==> StringLe(name, n)
    ensures Listing(names) == [name] + Listing(names - {name})
  {
    StringLeAntisymmetric(Least(names), name);
  }

  lemma KeysOfObject(detect: Detect, fields: map<string, Json>, names: seq<string>)
    requires WellBehaved(detect) && names == Listing(fields.Keys)
    ensures KeysIn(detect, Obj(fields)) == KeysInFields(detect, Obj(fields), names)
  {
  }

  // ---- every text of a value ------------------------------------------------------------------------

  datatype Hop = Item(i: nat) | Field(name: string)

  /** The value a route leads to, through list items and object fields. */
  function ValueAt(v: Json, route: seq<Hop>): Option<Json> {
    if route == [] then Some(v)
    else match route[0]
      case Item(i) => if v.Arr? && i < |v.items| then ValueAt(v.items[i], route[1..]) else None
      case Field(name) => if v.Obj? && name in v.fields then ValueAt(v.fields[name], route[1..]) else None
  }

  /** The text as the program puts it out, given everything replaced so far. */
  ghost predicate Spliced(detect: Detect, log: seq<Key>, text: string, out: string, at: seq<nat>) {
    var spans := Resolved(detect(text));
    AllMet(log, spans) && InText(text, 0, spans) && Woven(out, at, Stamps(log, spans), Gaps(text, 0, spans))
  }

  /** Every text of the one value, however deep, stands spliced at the same place of the other. */
  ghost predicate TextsSpliced(detect: Detect, log: seq<Key>, before: Json, after: Json) {
    forall route :: TextSpliced(detect, log, ValueAt(before, route), ValueAt(after, route))
  }

  ghost predicate TextSpliced(detect: Detect, log: seq<Key>, before: Option<Json>, after: Option<Json>) {
    before.Some? && before.value.Str? ==>
      after.Some? && after.value.Str? && exists at :: Spliced(detect, log, before.value.s, after.value.s, at)
  }

  lemma OneTextSpliced(detect: Detect, log: seq<Key>, text: string)
    requires WellBehaved(detect) && AllIn(KeysOf(PiecesOf(detect, text)), log)
    ensures exists at :: Spliced(detect, log, text, Shown(log, PiecesOf(detect, text)), at)
  {
    var spans := Resolved(detect(text));
    ResolvedFit(detect, text);
    KeysOfText(detect, text);
    forall i | 0 <= i < |spans| ensures (spans[i].cls, spans[i].text) in log {
      assert KeysOf(PiecesOf(detect, text))[i] in KeysOf(PiecesOf(detect, text));
    }
    var at := ShownIsWoven(log, text, spans, 0);
    assert Spliced(detect, log, text, Shown(log, PiecesOf(detect, text)), at);
  }

  lemma {:induction false} TextAtRoute(detect: Detect, log: seq<Key>, v: Json, route: seq<Hop>)
    requires WellBehaved(detect) && AllIn(KeysIn(detect, v), log)
    ensures TextSpliced(detect, log, ValueAt(v, route), ValueAt(Redacted(detect, log, v), route))
    decreases |route|
  {
    if route == [] {
      if v.Str? { OneTextSpliced(detect, log, v.s); }
    } else if route[0].Item? {
      if v.Arr? && route[0].i < |v.items| {
        ItemKeys(detect, v, |v.items|, route[0].i);
        TextAtRoute(detect, log, v.items[route[0].i], route[1..]);
      }
    } else if v.Obj? && route[0].name in v.fields {
      FieldKeys(detect, v, Listing(v.fields.Keys), route[0].name);
      TextAtRoute(detect, log, v.fields[route[0].name], route[1..]);
    }
  }

  /** Redacting a value splices every text in it. */
  lemma RedactedTextsAreSpliced(detect: Detect, log: seq<Key>, v: Json)
    requires WellBehaved(detect) && AllIn(KeysIn(detect, v), log)
    ensures TextsSpliced(detect, log, v, Redacted(detect, log, v))
  {
    forall route ensures TextSpliced(detect, log, ValueAt(v, route), ValueAt(Redacted(detect, log, v), route)) {
      TextAtRoute(detect, log, v, route);
    }
  }

  /** Two stretches of two outputs where spans stood read the same exactly when class and value do. */
  lemma SameStretchIffSameValue(detect: Detect, log: seq<Key>, text: string, out: string, at: seq<nat>, i: nat, end: nat,
                                other: string, otherOut: string, otherAt: seq<nat>, j: nat, otherEnd: nat)
    requires Spliced(detect, log, text, out, at) && Spliced(detect, log, other, otherOut, otherAt)
    requires i < |Resolved(detect(text))| && j < |Resolved(detect(other))|
    requires end == at[i] + |Stamps(log, Resolved(detect(text)))[i]|
    requires otherEnd == otherAt[j] + |Stamps(log, Resolved(detect(other)))[j]|
    ensures end <= |out| && otherEnd <= |otherOut|
    ensures out[at[i]..end] == otherOut[otherAt[j]..otherEnd]
       <==> (Resolved(detect(text))[i].cls == Resolved(detect(other))[j].cls
             && Resolved(detect(text))[i].text == Resolved(detect(other))[j].text)
  {
    var s, t := Resolved(detect(text))[i], Resolved(detect(other))[j];
    StampStands(detect, log, text, out, at, i);
    StampStands(detect, log, other, otherOut, otherAt, j);
    SameStampIffSameKey(log, (s.cls, s.text), (t.cls, t.text));
  }

  lemma StampStands(detect: Detect, log: seq<Key>, text: string, out: string, at: seq<nat>, i: nat)
    requires Spliced(detect, log, text, out, at) && i < |Resolved(detect(text))|
    ensures var s := Resolved(detect(text))[i];
      (s.cls, s.text) in log && i < |at| && Stands(out, at[i], Stamp(log, s.cls, s.text))
  {
    var spans := Resolved(detect(text));
    assert StampPlaced(out, at, Stamps(log, spans), Gaps(text, 0, spans), i);
  }

  /** The stretch of the i-th span's placeholder ends there. */
  ghost predicate EndsAt(detect: Detect, log: seq<Key>, text: string, out: string, at: seq<nat>, i: nat, end: nat) {
    && AllMet(log, Resolved(detect(text))) && i < |Resolved(detect(text))| && i < |at|
    && at[i] <= end <= |out| && end == at[i] + |Stamps(log, Resolved(detect(text)))[i]|
  }

  ghost function StampEnd(detect: Detect, log: seq<Key>, text: string, out: string, at: seq<nat>, i: nat): (end: nat)
    requires Spliced(detect, log, text, out, at) && i < |Resolved(detect(text))|
    ensures EndsAt(detect, log, text, out, at, i, end)
  {
    StampStands(detect, log, text, out, at, i);
    at[i] + |Stamps(log, Resolved(detect(text)))[i]|
  }

  lemma SplicedTextAt(detect: Detect, log: seq<Key>, before: Json, after: Json, route: seq<Hop>, text: string)
      returns (out: string, at: seq<nat>)
    requires TextsSpliced(detect, log, before, after) && ValueAt(before, route) == Some(Str(text))
    ensures ValueAt(after, route) == Some(Str(out)) && Spliced(detect, log, text, out, at)
  {
    assert TextSpliced(detect, log, ValueAt(before, route), ValueAt(after, route));
    out := ValueAt(after, route).value.s;
    at :| Spliced(detect, log, text, out, at);
  }

  lemma SameStampIffSameKey(log: seq<Key>, key: Key, other: Key)
    requires key in log && other in log
    ensures Stamp(log, key.0, key.1) == Stamp(log, other.0, other.1) <==> key == other
  {
    StampIsShown(log, key.0, key.1);
    StampIsShown(log, other.0, other.1);
    SamePlaceholderIffSameValue(log, key, other);
  }
}
