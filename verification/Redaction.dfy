/** Redacting texts, JSON values and a whole trajectory through one placeholder table. */
module Redaction {
  import opened Models
  import opened Ordering
  import opened Spans
  import opened Placeholders

  /** The validated matches of all detectors on a text, detector by detector. */
  type Detect = string -> seq<Span>

  ghost predicate WellBehaved(detect: Detect) {
    forall text :: AllFit(text, detect(text))
  }

  // ---- one text ------------------------------------------------------------------------

  ghost function PiecesOf(detect: Detect, text: string): seq<Piece>
    requires WellBehaved(detect)
  {
    ResolvedFit(detect, text);
    Cut(text, Resolved(detect(text)), 0)
  }

  lemma ResolvedFit(detect: Detect, text: string)
    requires WellBehaved(detect)
    ensures AllFit(text, Resolved(detect(text))) && Laid(Resolved(detect(text)), 0)
  {
    assert AllFit(text, detect(text));
    forall s | s in detect(text) ensures s.start < s.end { assert Fits(text, s); }
    ResolvedFacts(detect(text));
  }

  function KeyOf(piece: Piece): seq<Key> {
    match piece
    case Kept(_) => []
    case Replaced(cls, value) => [(cls, value)]
  }

  /** The class and value of every replaced piece, in order. */
  function KeysOf(pieces: seq<Piece>): seq<Key> {
    if pieces == [] then [] else KeysOf(pieces[..|pieces| - 1]) + KeyOf(pieces[|pieces| - 1])
  }

  /** How a key is shown under a log. */
  function Show(log: seq<Key>, key: Key): string {
    if key in log then PlaceholderOf(log, key).Text() else ""
  }

  function ShowPiece(log: seq<Key>, piece: Piece): string {
    match piece
    case Kept(t) => t
    case Replaced(cls, value) => Show(log, (cls, value))
  }

  /** The pieces joined, with placeholders in place of the replaced ones. */
  function Shown(log: seq<Key>, pieces: seq<Piece>): string {
    if pieces == [] then "" else Shown(log, pieces[..|pieces| - 1]) + ShowPiece(log, pieces[|pieces| - 1])
  }

  ghost predicate AllIn(keys: seq<Key>, log: seq<Key>) {
    forall k :: k in keys ==> k in log
  }

  lemma ShowIsStable(log: seq<Key>, more: seq<Key>, key: Key)
    requires key in log
    ensures Show(log + more, key) == Show(log, key)
  {
    AssignmentIsStable(log, more, key);
  }

  lemma {:induction false} ShownIsStable(log: seq<Key>, more: seq<Key>, pieces: seq<Piece>)
    requires AllIn(KeysOf(pieces), log)
    ensures Shown(log + more, pieces) == Shown(log, pieces)
  {
    if pieces != [] {
      var front, last := pieces[..|pieces| - 1], pieces[|pieces| - 1];
      assert AllIn(KeysOf(front), log);
      ShownIsStable(log, more, front);
      if last.Replaced? {
        assert (last.cls, last.value) in KeyOf(last);
        ShowIsStable(log, more, (last.cls, last.value));
      }
    }
  }

  /** Appending one more piece. */
  lemma ShownAppends(log: seq<Key>, pieces: seq<Piece>, last: Piece)
    ensures Shown(log, pieces + [last]) == Shown(log, pieces) + ShowPiece(log, last)
    ensures KeysOf(pieces + [last]) == KeysOf(pieces) + KeyOf(last)
  {
    assert (pieces + [last])[..|pieces|] == pieces;
  }

  /** Splices the text span by span, taking placeholders from the state. */
  method RedactText(text: string, detect: Detect, state: RedactionState) returns (redacted: string)
    requires WellBehaved(detect) && state.Valid()
    modifies state
    ensures state.Valid() && state.log == old(state.log) + KeysOf(PiecesOf(detect, text))
    ensures redacted == Shown(state.log, PiecesOf(detect, text))
  {
    var spans := FindSpans(detect(text));
    ResolvedFit(detect, text);
    ghost var pieces: seq<Piece> := [];
    redacted := "";
    var cursor := 0;
    var i := 0;
    while i < |spans|
      invariant 0 <= i <= |spans| && 0 <= cursor <= |text|
      invariant AllFit(text, spans[i..]) && Laid(spans[i..], cursor)
      invariant pieces + Cut(text, spans[i..], cursor) == PiecesOf(detect, text)
      invariant state.Valid() && state.log == old(state.log) + KeysOf(pieces)
      invariant redacted == Shown(state.log, pieces)
    {
      CutStep(text, spans, i, cursor, pieces);
      var span := spans[i];
      ghost var before, kept := state.log, text[cursor..span.start];
      var placeholder := state.PlaceholderFor(span.cls, span.text);
      OneSpan(before, old(state.log), pieces, kept, span);
      redacted := redacted + text[cursor..span.start] + placeholder.Text();
      pieces := pieces + [Kept(kept), Replaced(span.cls, span.text)];
      cursor := span.end;
      i := i + 1;
    }
    assert spans[|spans|..] == [];
    ShownAppends(state.log, pieces, Kept(text[cursor..]));
    assert KeysOf(pieces) + [] == KeysOf(pieces);
    redacted := redacted + text[cursor..];
  }

  lemma CutStep(text: string, spans: seq<Span>, i: nat, cursor: nat, pieces: seq<Piece>)
    requires i < |spans| && cursor <= |text| && AllFit(text, spans[i..]) && Laid(spans[i..], cursor)
    ensures var s := spans[i];
      && cursor <= s.start < s.end <= |text| && AllFit(text, spans[i + 1..]) && Laid(spans[i + 1..], s.end)
      && pieces + Cut(text, spans[i..], cursor)
         == (pieces + [Kept(text[cursor..s.start]), Replaced(s.cls, s.text)]) + Cut(text, spans[i + 1..], s.end)
  {
    var left, rest, s := spans[i..], spans[i + 1..], spans[i];
    assert left[0] == s && left[1..] == rest;
    assert s in left && Fits(text, s);
    forall t | t in rest ensures Fits(text, t) { assert t in left; }
    var later := Cut(text, rest, s.end);
    var two := [Kept(text[cursor..s.start]), Replaced(s.cls, s.text)];
    assert pieces + (two + later) == (pieces + two) + later;
  }

  /** The effect of one span on the log and on the output so far. */
  lemma OneSpan(log: seq<Key>, start: seq<Key>, pieces: seq<Piece>, kept: string, span: Span)
    requires log == start + KeysOf(pieces)
    ensures var key, two := (span.cls, span.text), [Kept(kept), Replaced(span.cls, span.text)];
      && log + [key] == start + KeysOf(pieces + two)
      && Shown(log + [key], pieces + two) == Shown(log, pieces) + kept + PlaceholderOf(log + [key], key).Text()
  {
    var key, first, second := (span.cls, span.text), Kept(kept), Replaced(span.cls, span.text);
    assert pieces + [first, second] == (pieces + [first]) + [second];
    ShownAppends(log + [key], pieces + [first], second);
    ShownAppends(log + [key], pieces, first);
    assert KeysOf(pieces) + [] == KeysOf(pieces);
    ShownIsStable(log, [key], pieces);
  }

  // ---- JSON values -----------------------------------------------------------------------

  /** Every replacement inside a value, in traversal order: objects by sorted key. */
  ghost function KeysIn(detect: Detect, v: Json): seq<Key>
    requires WellBehaved(detect)
    decreases v, 0
  {
    match v
    case Str(s) => KeysOf(PiecesOf(detect, s))
    case Arr(items) => KeysInItems(detect, v, |items|)
    case Obj(fields) => KeysInFields(detect, v, Listing(fields.Keys))
    case _ => []
  }

  ghost function KeysInItems(detect: Detect, v: Json, n: nat): seq<Key>
    requires WellBehaved(detect) && v.Arr? && n <= |v.items|
    decreases v, 0, n
  {
    if n == 0 then [] else KeysInItems(detect, v, n - 1) + KeysIn(detect, v.items[n - 1])
  }

  ghost function KeysInFields(detect: Detect, v: Json, names: seq<string>): seq<Key>
    requires WellBehaved(detect) && v.Obj? && forall name :: name in names ==> name in v.fields
    decreases v, 0, |names|
  {
    if names == [] then []
    else
      var last := names[|names| - 1];
      assert last in names;
      KeysInFields(detect, v, names[..|names| - 1]) + KeysIn(detect, v.fields[last])
  }

  /** The value with every text shown under one and the same log. */
  ghost function Redacted(detect: Detect, log: seq<Key>, v: Json): Json
    requires WellBehaved(detect)
    decreases v
  {
    match v
    case Str(s) => Str(Shown(log, PiecesOf(detect, s)))
    case Arr(items) => Arr(seq(|items|, i requires 0 <= i < |items| => Redacted(detect, log, items[i])))
    case Obj(fields) => Obj(map name | name in fields :: Redacted(detect, log, fields[name]))
    case _ => v
  }

  lemma {:induction false} ItemKeys(detect: Detect, v: Json, n: nat, i: nat)
    requires WellBehaved(detect) && v.Arr? && i < n <= |v.items|
    ensures forall k :: k in KeysIn(detect, v.items[i]) ==> k in KeysInItems(detect, v, n)
    decreases n
  {
    if i < n - 1 { ItemKeys(detect, v, n - 1, i); }
    MembersOfJoin(KeysInItems(detect, v, n - 1), KeysIn(detect, v.items[n - 1]), KeysInItems(detect, v, n));
  }

  lemma MembersOfJoin<T>(s: seq<T>, t: seq<T>, joined: seq<T>)
    requires joined == s + t
    ensures forall x :: x in joined <==> x in s || x in t
  {
  }

  lemma {:induction false} FieldKeys(detect: Detect, v: Json, names: seq<string>, name: string)
    requires WellBehaved(detect) && v.Obj? && forall n :: n in names ==> n in v.fields
    requires name in names
    ensures forall k :: k in KeysIn(detect, v.fields[name]) ==> k in KeysInFields(detect, v, names)
    decreases |names|
  {
    var front, last := names[..|names| - 1], names[|names| - 1];
    assert names == front + [last];
    if name != last { FieldKeys(detect, v, front, name); }
  }

  lemma ItemwiseEqual(detect: Detect, log: seq<Key>, log': seq<Key>, v: Json)
    requires WellBehaved(detect) && v.Arr?
    requires forall i :: 0 <= i < |v.items| ==> Redacted(detect, log, v.items[i]) == Redacted(detect, log', v.items[i])
    ensures Redacted(detect, log, v) == Redacted(detect, log', v)
  {
  }

  lemma FieldwiseEqual(detect: Detect, log: seq<Key>, log': seq<Key>, v: Json)
    requires WellBehaved(detect) && v.Obj?
    requires forall name :: name in v.fields ==> Redacted(detect, log, v.fields[name]) == Redacted(detect, log', v.fields[name])
    ensures Redacted(detect, log, v) == Redacted(detect, log', v)
  {
  }

  /** Later replacements do not change how a value was redacted. */
  lemma {:induction false} RedactedIsStable(detect: Detect, log: seq<Key>, more: seq<Key>, v: Json)
    requires WellBehaved(detect) && AllIn(KeysIn(detect, v), log)
    ensures Redacted(detect, log + more, v) == Redacted(detect, log, v)
    decreases v
  {
    if v.Str? {
      ShownIsStable(log, more, PiecesOf(detect, v.s));
    } else if v.Arr? {
      forall i | 0 <= i < |v.items| ensures Redacted(detect, log + more, v.items[i]) == Redacted(detect, log, v.items[i]) {
        ItemKeys(detect, v, |v.items|, i);
        RedactedIsStable(detect, log, more, v.items[i]);
      }
      ItemwiseEqual(detect, log + more, log, v);
    } else if v.Obj? {
      forall name | name in v.fields ensures Redacted(detect, log + more, v.fields[name]) == Redacted(detect, log, v.fields[name]) {
        FieldKeys(detect, v, Listing(v.fields.Keys), name);
        RedactedIsStable(detect, log, more, v.fields[name]);
      }
      FieldwiseEqual(detect, log + more, log, v);
    }
  }

  /** The same value up to its texts: same constructors, lengths, keys and scalars. */
  ghost predicate SameShape(v: Json, w: Json) {
    match v
    case Str(_) => w.Str?
    case Arr(items) => w.Arr? && |w.items| == |items| && forall i :: 0 <= i < |items| ==> SameShape(items[i], w.items[i])
    case Obj(fields) => w.Obj? && w.fields.Keys == fields.Keys && forall name :: name in fields ==> SameShape(fields[name], w.fields[name])
    case _ => w == v
  }

  lemma {:induction false} RedactionKeepsShape(detect: Detect, log: seq<Key>, v: Json)
    requires WellBehaved(detect)
    ensures SameShape(v, Redacted(detect, log, v))
    decreases v
  {
    match v
    case Arr(items) =>
      forall i | 0 <= i < |items| ensures SameShape(items[i], Redacted(detect, log, items[i])) {
        RedactionKeepsShape(detect, log, items[i]);
      }
    case Obj(fields) =>
      forall name | name in fields ensures SameShape(fields[name], Redacted(detect, log, fields[name])) {
        RedactionKeepsShape(detect, log, fields[name]);
      }
    case _ =>
  }
}
