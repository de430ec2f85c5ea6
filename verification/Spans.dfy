/** Which detector matches survive, and how the text is cut around them. The matches of the
    regular expressions are an arbitrary list of nonempty spans of the text. */
module Spans {
  import opened Ordering

  datatype Span = Span(start: nat, end: nat, cls: string, priority: nat, text: string)

  /** The sort key: leftmost, then longest, then the better priority. */
  predicate SpanLe(s: Span, t: Span) {
    s.start < t.start || (s.start == t.start &&
    (s.end - s.start > t.end - t.start || (s.end - s.start == t.end - t.start && s.priority <= t.priority)))
  }

  ghost predicate Fits(text: string, span: Span) {
    span.start < span.end <= |text| && span.text == text[span.start..span.end]
  }

  ghost predicate AllFit(text: string, spans: seq<Span>) {
    forall s :: s in spans ==> Fits(text, s)
  }

  /** The greedy pass: take a span when it starts at or after the end of the last one taken. */
  function Sweep(found: seq<Span>, cursor: int): seq<Span> {
    if found == [] then []
    else if found[0].start >= cursor then [found[0]] + Sweep(found[1..], found[0].end)
    else Sweep(found[1..], cursor)
  }

  function Resolved(found: seq<Span>): seq<Span> {
    Sweep(Sort(found, SpanLe), -1)
  }

  method FindSpans(found: seq<Span>) returns (resolved: seq<Span>)
    ensures resolved == Resolved(found)
  {
    var ordered := Sort(found, SpanLe);
    resolved := [];
    var cursor: int := -1;
    var i := 0;
    while i < |ordered|
      invariant 0 <= i <= |ordered|
      invariant resolved + Sweep(ordered[i..], cursor) == Resolved(found)
    {
      SweepStep(ordered, i, cursor, resolved);
      if ordered[i].start >= cursor {
        resolved := resolved + [ordered[i]];
        cursor := ordered[i].end;
      }
      i := i + 1;
    }
    assert ordered[|ordered|..] == [];
    assert resolved + [] == resolved;
  }

  lemma SweepStep(ordered: seq<Span>, i: nat, cursor: int, resolved: seq<Span>)
    requires i < |ordered|
    ensures resolved + Sweep(ordered[i..], cursor)
         == if ordered[i].start >= cursor then (resolved + [ordered[i]]) + Sweep(ordered[i + 1..], ordered[i].end)
            else resolved + Sweep(ordered[i + 1..], cursor)
  {
    assert ordered[i..][0] == ordered[i] && ordered[i..][1..] == ordered[i + 1..];
    assert resolved + ([ordered[i]] + Sweep(ordered[i + 1..], ordered[i].end))
        == (resolved + [ordered[i]]) + Sweep(ordered[i + 1..], ordered[i].end);
  }

  // ---- the resolved spans -------------------------------------------------------------------

  /** In order and disjoint, the first no earlier than the cursor. */
  ghost predicate Laid(spans: seq<Span>, cursor: int) {
    && (forall i :: 0 <= i < |spans| ==> cursor <= spans[i].start)
    && (forall i, j :: 0 <= i < j < |spans| ==> spans[i].end <= spans[j].start)
  }

  /** Some span holds the position. */
  predicate Holds(spans: seq<Span>, at: nat) {
    exists s :: s in spans && s.start <= at < s.end
  }

  ghost predicate Nonempty(spans: seq<Span>) {
    forall s :: s in spans ==> s.start < s.end
  }

  lemma ConsLays(first: Span, later: seq<Span>, cursor: int)
    requires cursor <= first.start < first.end && Laid(later, first.end)
    ensures Laid([first] + later, cursor)
  {
    var spans := [first] + later;
    forall i | 0 <= i < |spans| ensures cursor <= spans[i].start {
      assert i > 0 ==> spans[i] == later[i - 1];
    }
    forall i, j | 0 <= i < j < |spans| ensures spans[i].end <= spans[j].start {
      assert spans[j] == later[j - 1] && (i > 0 ==> spans[i] == later[i - 1]);
    }
  }

  lemma {:induction false} SweepLays(found: seq<Span>, cursor: int)
    requires Nonempty(found)
    ensures Laid(Sweep(found, cursor), cursor)
    ensures forall s :: s in Sweep(found, cursor) ==> s in found
  {
    if found != [] {
      var first, rest := found[0], found[1..];
      assert found == [first] + rest;
      assert Nonempty(rest) && first in found;
      if first.start >= cursor {
        SweepLays(rest, first.end);
        ConsLays(first, Sweep(rest, first.end), cursor);
      } else {
        SweepLays(rest, cursor);
      }
    }
  }

  /** A candidate that starts at or after the cursor has its first character taken. */
  lemma {:induction false} SweepHoldsStarts(found: seq<Span>, cursor: int, candidate: Span)
    requires Nonempty(found) && Sorted(found, SpanLe) && candidate in found && candidate.start >= cursor
    ensures Holds(Sweep(found, cursor), candidate.start)
  {
    var first, rest := found[0], found[1..];
    assert found == [first] + rest;
    assert Nonempty(rest) && first in found;
    if first.start >= cursor {
      var later := Sweep(rest, first.end);
      if candidate.start < first.end {
        assert SpanLe(first, candidate) || first == candidate;
        assert first in [first] + later;
      } else {
        SweepHoldsStarts(rest, first.end, candidate);
        var s :| s in later && s.start <= candidate.start < s.end;
        assert s in [first] + later;
      }
    } else {
      SweepHoldsStarts(rest, cursor, candidate);
    }
  }

  lemma SpanOrderIsTotal()
    ensures TotalPreorder(SpanLe)
  {
  }

  /** The resolved spans are candidates, in order and disjoint, and the first character of every
      candidate lies in one of them. */
  lemma ResolvedFacts(found: seq<Span>)
    requires Nonempty(found)
    ensures Laid(Resolved(found), -1)
    ensures forall s :: s in Resolved(found) ==> s in found
    ensures forall s :: s in found ==> Holds(Resolved(found), s.start)
  {
    SpanOrderIsTotal();
    SortSorts(found, SpanLe);
    SortMembers(found, SpanLe);
    var ordered := Sort(found, SpanLe);
    SweepLays(ordered, -1);
    forall s | s in found ensures Holds(Resolved(found), s.start) { SweepHoldsStarts(ordered, -1, s); }
  }

  /** Detector order is immaterial when no two candidates share extent and priority. */
  lemma ResolvedIgnoresOrder(found: seq<Span>, found': seq<Span>)
    requires multiset(found) == multiset(found') && TellApart(found)
    ensures Resolved(found) == Resolved(found')
  {
    SpanOrderIsTotal();
    forall s, t | s in multiset(found) && t in multiset(found) && SpanLe(s, t) && SpanLe(t, s) ensures s == t {
      assert s in found && t in found;
    }
    SortIgnoresOrder(found, found', SpanLe);
  }

  lemma {:induction false} SweepTakesFirstAtStart(found: seq<Span>, cursor: int, taken: Span, other: Span)
    requires Nonempty(found) && Sorted(found, SpanLe)
    requires taken in Sweep(found, cursor) && other in found && other.start == taken.start
    ensures SpanLe(taken, other)
  {
    var first, rest := found[0], found[1..];
    assert found == [first] + rest;
    assert Nonempty(rest) && first in found;
    SweepLays(rest, if first.start >= cursor then first.end else cursor);
    if first.start >= cursor && taken == first {
      assert SpanLe(first, other) || other == first;
    } else {
      if other != first {
        SweepTakesFirstAtStart(rest, if first.start >= cursor then first.end else cursor, taken, other);
      }
    }
  }

  /** The longest candidate wins among those with the same start, and among those the best priority. */
  lemma LongestWinsAtEqualStart(found: seq<Span>, taken: Span, other: Span)
    requires Nonempty(found) && taken in Resolved(found) && other in found && other.start == taken.start
    ensures other.end <= taken.end
    ensures other.end == taken.end ==> taken.priority <= other.priority
  {
    SpanOrderIsTotal();
    SortSorts(found, SpanLe);
    SortMembers(found, SpanLe);
    SweepTakesFirstAtStart(Sort(found, SpanLe), -1, taken, other);
  }

  /** The longest of the candidates with its start, and of those with its extent the best by priority. */
  ghost predicate LeadsItsStart(found: seq<Span>, c: Span) {
    c in found && forall s :: s in found && s.start == c.start && s != c ==>
      s.end < c.end || (s.end == c.end && c.priority < s.priority)
  }

  /** No two candidates have the same extent and priority. */
  ghost predicate TellApart(found: seq<Span>) {
    forall s, t :: s in found && t in found && s.start == t.start && s.end == t.end && s.priority == t.priority ==> s == t
  }

  /** A span that starts earlier reaches past the start of the candidate. */
  ghost predicate Overtaken(taken: seq<Span>, c: Span) {
    exists s :: s in taken && s.start < c.start < s.end
  }

  lemma OvertakenCons(first: Span, later: seq<Span>, c: Span)
    ensures Overtaken([first] + later, c) <==> first.start < c.start < first.end || Overtaken(later, c)
  {
    if first.start < c.start < first.end { assert first in [first] + later; }
    if s :| s in later && s.start < c.start < s.end { assert s in [first] + later; }
  }

  lemma {:induction false} SweepKeepsUnlessOvertaken(found: seq<Span>, cursor: int, c: Span)
    requires Nonempty(found) && Sorted(found, SpanLe) && LeadsItsStart(found, c)
    ensures c in Sweep(found, cursor) <==> cursor <= c.start && !Overtaken(Sweep(found, cursor), c)
  {
    var first, rest := found[0], found[1..];
    assert found == [first] + rest;
    assert Nonempty(rest) && first in found;
    SweepLays(found, cursor);
    if first != c {
      assert SpanLe(first, c);
      assert first.start < c.start && LeadsItsStart(rest, c);
      if first.start >= cursor {
        SweepKeepsUnlessOvertaken(rest, first.end, c);
        OvertakenCons(first, Sweep(rest, first.end), c);
      } else {
        SweepKeepsUnlessOvertaken(rest, cursor, c);
      }
    } else if first.start >= cursor {
      assert Sweep(found, cursor)[0] == c;
    }
  }

  /** A candidate that leads its start is kept exactly when no kept span that starts earlier reaches
      past that start: its length does not matter. */
  lemma KeptIffNotOvertaken(found: seq<Span>, c: Span)
    requires Nonempty(found) && LeadsItsStart(found, c)
    ensures c in Resolved(found) <==> !Overtaken(Resolved(found), c)
  {
    SpanOrderIsTotal();
    SortSorts(found, SpanLe);
    SortMembers(found, SpanLe);
    SweepKeepsUnlessOvertaken(Sort(found, SpanLe), -1, c);
  }

  /** No resolved span reaches past the start of another. */
  lemma LaidApart(spans: seq<Span>, cursor: int, s: Span, c: Span)
    requires Laid(spans, cursor) && s in spans && c in spans && c.start < c.end
    ensures !(s.start < c.start < s.end)
  {
    var i :| 0 <= i < |spans| && spans[i] == s;
    var j :| 0 <= j < |spans| && spans[j] == c;
    assert i < j ==> s.end <= c.start;
    assert j < i ==> c.end <= s.start;
  }

  lemma HolderStartsThere(found: seq<Span>, taken: seq<Span>, c: Span) returns (s: Span)
    requires Holds(taken, c.start) && !Overtaken(found, c) && forall t :: t in taken ==> t in found
    ensures s in taken && s.start == c.start
  {
    s :| s in taken && s.start <= c.start < s.end;
    assert s in found;
  }

  /** A candidate that none reaches has all of its extent taken, by a span with its start. */
  lemma UnreachedIsHeld(found: seq<Span>, c: Span) returns (s: Span)
    requires Nonempty(found) && c in found && !Overtaken(found, c)
    ensures s in Resolved(found) && s.start == c.start && c.end <= s.end
  {
    ResolvedFacts(found);
    s := HolderStartsThere(found, Resolved(found), c);
    LongestWinsAtEqualStart(found, s, c);
  }

  lemma ReachedIsLost(found: seq<Span>, reaching: Span, c: Span)
    requires Nonempty(found) && reaching in found && !Overtaken(found, reaching)
    requires reaching.start < c.start < reaching.end
    ensures c !in Resolved(found)
  {
    var s := UnreachedIsHeld(found, reaching);
    ResolvedFacts(found);
    if c in Resolved(found) {
      LaidApart(Resolved(found), -1, s, c);
    }
  }

  lemma UnreachedIsKept(found: seq<Span>, c: Span)
    requires Nonempty(found) && LeadsItsStart(found, c) && !Overtaken(found, c)
    ensures c in Resolved(found)
  {
    ResolvedFacts(found);
    KeptIffNotOvertaken(found, c);
  }

  /** Read off the candidates: one that leads its start is kept when no candidate that starts earlier
      reaches past that start, and it is lost when one does that is reached by none itself. Where the
      reaching candidates are reached by none, the condition is exact. */
  lemma KeptIffUnreached(found: seq<Span>, c: Span)
    requires Nonempty(found) && LeadsItsStart(found, c)
    ensures !Overtaken(found, c) ==> c in Resolved(found)
    ensures (exists s :: s in found && s.start < c.start < s.end && !Overtaken(found, s)) ==> c !in Resolved(found)
    ensures (forall s :: s in found && s.start < c.start < s.end ==> !Overtaken(found, s)) ==>
      (c in Resolved(found) <==> !Overtaken(found, c))
  {
    if !Overtaken(found, c) { UnreachedIsKept(found, c); }
    forall s | s in found && s.start < c.start < s.end && !Overtaken(found, s) ensures c !in Resolved(found) {
      ReachedIsLost(found, s, c);
    }
  }

  /** No candidate that leads its start and wins reaches past the start from before. */
  ghost predicate Wins(found: seq<Span>, c: Span)
    decreases c.start
  {
    forall s :: s in found && s.start < c.start && c.start < s.end && LeadsItsStart(found, s) ==> !Wins(found, s)
  }

  lemma KeptLeadsItsStart(found: seq<Span>, c: Span)
    requires Nonempty(found) && TellApart(found) && c in Resolved(found)
    ensures LeadsItsStart(found, c)
  {
    ResolvedFacts(found);
    SpanOrderIsTotal();
    SortSorts(found, SpanLe);
    SortMembers(found, SpanLe);
    forall s | s in found && s.start == c.start && s != c ensures s.end < c.end || (s.end == c.end && c.priority < s.priority) {
      SweepTakesFirstAtStart(Sort(found, SpanLe), -1, c, s);
      assert s in multiset(found) && c in multiset(found);
    }
  }

  /** Which candidates are kept, in terms of the candidates alone: those that come first at their start
      and that no winning candidate reaches past. */
  lemma {:induction false} KeptIffWins(found: seq<Span>, c: Span)
    requires Nonempty(found) && TellApart(found)
    ensures c in Resolved(found) <==> LeadsItsStart(found, c) && Wins(found, c)
    decreases c.start
  {
    forall s | s in found && s.start < c.start && c.start < s.end
      ensures s in Resolved(found) <==> LeadsItsStart(found, s) && Wins(found, s)
    {
      KeptIffWins(found, s);
    }
    ResolvedFacts(found);
    if c in Resolved(found) { KeptLeadsItsStart(found, c); }
    if LeadsItsStart(found, c) { KeptIffNotOvertaken(found, c); }
  }

  // ---- cutting the text -----------------------------------------------------------------

  /** A piece of the output: a stretch kept as it is, or a span to be replaced. */
  datatype Piece = Kept(text: string) | Replaced(cls: string, value: string)

  function Cut(text: string, spans: seq<Span>, cursor: nat): seq<Piece>
    requires cursor <= |text| && AllFit(text, spans) && Laid(spans, cursor)
  {
    if spans == [] then [Kept(text[cursor..])]
    else
      var s, rest := spans[0], spans[1..];
      assert Fits(text, s) && AllFit(text, rest);
      [Kept(text[cursor..s.start]), Replaced(s.cls, s.text)] + Cut(text, rest, s.end)
  }

  /** Every replaced piece put back as the text it stood for. */
  function PutBack(pieces: seq<Piece>): string {
    if pieces == [] then ""
    else (match pieces[0] case Kept(t) => t case Replaced(_, value) => value) + PutBack(pieces[1..])
  }

  /** Putting the spans back gives the input: the splice loses and invents nothing. */
  lemma {:induction false} CutPutsBack(text: string, spans: seq<Span>, cursor: nat)
    requires cursor <= |text| && AllFit(text, spans) && Laid(spans, cursor)
    ensures PutBack(Cut(text, spans, cursor)) == text[cursor..]
  {
    if spans == [] {
      var last := [Kept(text[cursor..])];
      assert last[1..] == [];
      assert text[cursor..] + "" == text[cursor..];
    } else {
      var s, rest := spans[0], spans[1..];
      assert Fits(text, s) && AllFit(text, rest);
      CutPutsBack(text, rest, s.end);
      var kept, later := text[cursor..s.start], Cut(text, rest, s.end);
      PutBackTwo(kept, s.cls, s.text, later);
      assert kept + (text[s.start..s.end] + text[s.end..]) == text[cursor..];
    }
  }

  lemma PutBackTwo(kept: string, cls: string, value: string, later: seq<Piece>)
    ensures PutBack([Kept(kept), Replaced(cls, value)] + later) == kept + (value + PutBack(later))
  {
    var pieces := [Kept(kept), Replaced(cls, value)] + later;
    assert pieces[1..] == [Replaced(cls, value)] + later;
    assert pieces[1..][1..] == later;
  }

  // ---- a longer span that loses ------------------------------------------------------------

  /** The two matches of the built-in detectors in this text: the phone number starts earlier, so the
      longer address is lost and its tail stays in the text. */
  lemma EmailLosesToPhone()
    ensures var text := "555 123 4567@example.com";
      var phone, email := Span(0, 12, "PHONE", 3, "555 123 4567"), Span(8, 24, "EMAIL", 0, "4567@example.com");
      && AllFit(text, [email, phone]) && email.end - email.start > phone.end - phone.start
      && Resolved([email, phone]) == [phone]
      && Cut(text, [phone], 0) == [Kept(""), Replaced("PHONE", "555 123 4567"), Kept("@example.com")]
  {
    var text := "555 123 4567@example.com";
    var phone, email := Span(0, 12, "PHONE", 3, "555 123 4567"), Span(8, 24, "EMAIL", 0, "4567@example.com");
    assert text[0..12] == "555 123 4567";
    assert text[8..24] == "4567@example.com";
    assert text[12..24] == text[12..] == "@example.com" && text[0..0] == "";
    EarlierOfTwo(phone, email);
    CutAroundOne(text, phone);
  }

  lemma EarlierOfTwo(s: Span, t: Span)
    requires s.start < t.start < s.end && s.start < s.end
    ensures Resolved([t, s]) == [s]
  {
    assert [t, s][1..] == [s] && [s][1..] == [] && [s, t][1..] == [t] && [t][1..] == [];
    assert Sort([s], SpanLe) == Insert(s, [], SpanLe) == [s];
    assert Insert(t, [], SpanLe) == [t];
    assert Sort([t, s], SpanLe) == Insert(t, [s], SpanLe) == [s, t];
    assert Sweep([t], s.end) == Sweep([], s.end) == [];
    assert Sweep([s, t], -1) == [s] + Sweep([t], s.end);
  }

  lemma CutAroundOne(text: string, s: Span)
    requires Fits(text, s)
    ensures Cut(text, [s], 0) == [Kept(text[0..s.start]), Replaced(s.cls, s.text), Kept(text[s.end..])]
  {
    assert [s][1..] == [];
    assert Cut(text, [], s.end) == [Kept(text[s.end..])];
  }
}
