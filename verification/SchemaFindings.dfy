/** What the classifier reports, where, and in which order. A finding is traced by the names that lead to it. */
module SchemaFindings {
  import opened Models
  import opened Ordering
  import opened SchemaDiff
  import opened Wrappers

  /** The names from the root to the property, that one included, and what is said of it. */
  datatype Entry = Entry(walk: seq<string>, finding: Finding)

  /** The node is limited to listed values. */
  predicate Limited(node: Node) {
    node.enumeration.Some? || (node.constant.Some? && node.constant.value != Null)
  }

  /** The node lists the value; a constant counts when there is no enum. */
  predicate Lists(node: Node, v: Json) {
    if node.enumeration.Some? then v in node.enumeration.value
    else node.constant == Some(v) && v != Null
  }

  ghost predicate Narrows(before: Node, after: Node, lost: set<Json>) {
    Limited(before) && Limited(after) && lost != {} && forall v :: v in lost <==> Lists(before, v) && !Lists(after, v)
  }

  /** The property called `name` of these two nodes breaks as the finding says. */
  ghost predicate Breaks(oldDefs: Defs, newDefs: Defs, before: Node, after: Node, name: string, where: string, finding: Finding) {
    var olds, news := Properties(oldDefs, before), Properties(newDefs, after);
    var newlyAsked := name in Required(newDefs, after) && name !in Required(oldDefs, before);
    match finding
    case PropertyRemoved(at) => at == where && name in olds && name !in news
    case BecameRequired(at) => at == where && name in olds && name in news && newlyAsked
    case EnumNarrowed(at, lost) =>
      at == where && name in olds && name in news && Narrows(Resolve(oldDefs, olds[name]), Resolve(newDefs, news[name]), lost)
    case NewRequired(at) => at == where && name !in olds && newlyAsked
  }

  /** The names lead down both schemas, through old nodes that have properties, to a property that breaks;
      the finding names it by the names joined with dots. */
  ghost predicate IsFinding(oldDefs: Defs, newDefs: Defs, before: Node, after: Node, path: string, walk: seq<string>,
                            finding: Finding)
    decreases |walk|
  {
    && walk != []
    && var olds, news := Properties(oldDefs, before), Properties(newDefs, after);
       var where := if path == "" then walk[0] else path + "." + walk[0];
       if |walk| == 1 then Breaks(oldDefs, newDefs, before, after, walk[0], where, finding)
       else
         && walk[0] in olds && walk[0] in news && Properties(oldDefs, olds[walk[0]]) != map[]
         && IsFinding(oldDefs, newDefs, Resolve(oldDefs, olds[walk[0]]), Resolve(newDefs, news[walk[0]]), where, walk[1..], finding)
  }

  /** New names that are required come after everything about the old ones. */
  predicate Late(e: Entry) {
    |e.walk| == 1 && e.finding.NewRequired?
  }

  /** The order of the report: by name; a property before what is below it, and its new requirement before
      the values it lost. */
  predicate Precedes(d: Entry, e: Entry)
    decreases |d.walk|
  {
    && d.walk != [] && e.walk != []
    && if Late(d) != Late(e) then Late(e)
       else if d.walk[0] != e.walk[0] then StringLe(d.walk[0], e.walk[0])
       else if |d.walk| == 1 then |e.walk| > 1 || (d.finding.BecameRequired? && e.finding.EnumNarrowed?)
       else |e.walk| > 1 && Precedes(Entry(d.walk[1..], d.finding), Entry(e.walk[1..], e.finding))
  }

  /** Exactly the entries with the property, each once, in order. */
  ghost predicate Traces(entries: seq<Entry>, p: Entry -> bool) {
    (forall e :: e in entries <==> p(e)) && forall i, j :: 0 <= i < j < |entries| ==> Precedes(entries[i], entries[j])
  }

  function Findings(entries: seq<Entry>): (r: seq<Finding>)
    ensures |r| == |entries| && forall i :: 0 <= i < |r| ==> r[i] == entries[i].finding
  {
    seq(|entries|, i requires 0 <= i < |entries| => entries[i].finding)
  }

  lemma Join(a: seq<Entry>, b: seq<Entry>, p: Entry -> bool, q: Entry -> bool, both: Entry -> bool)
    requires Traces(a, p) && Traces(b, q)
    requires forall e :: both(e) <==> p(e) || q(e)
    requires forall d, e :: p(d) && q(e) ==> Precedes(d, e)
    ensures Traces(a + b, both) && Findings(a + b) == Findings(a) + Findings(b)
  {
    var s := a + b;
    forall i, j | 0 <= i < j < |s| ensures Precedes(s[i], s[j]) {
      if i < |a| && |a| <= j {
        assert s[i] in a && s[j] in b;
      }
    }
  }

  // ---- the parts of a report --------------------------------------------------------------------

  ghost function Here(oldDefs: Defs, newDefs: Defs, before: Node, after: Node, path: string): Entry -> bool {
    (e: Entry) => IsFinding(oldDefs, newDefs, before, after, path, e.walk, e.finding)
  }

  /** What is said of one old name. */
  ghost predicate AboutName(oldDefs: Defs, newDefs: Defs, before: Node, after: Node, path: string, name: string, e: Entry) {
    IsFinding(oldDefs, newDefs, before, after, path, e.walk, e.finding) && e.walk[0] == name && !Late(e)
  }

  ghost function ThisName(oldDefs: Defs, newDefs: Defs, before: Node, after: Node, path: string, name: string): Entry -> bool {
    (e: Entry) => AboutName(oldDefs, newDefs, before, after, path, name, e)
  }

  ghost function TheseNames(oldDefs: Defs, newDefs: Defs, before: Node, after: Node, path: string, names: seq<string>): Entry -> bool {
    (e: Entry) => e.walk != [] && e.walk[0] in names && AboutName(oldDefs, newDefs, before, after, path, e.walk[0], e)
  }

  ghost function NewNames(oldProps: set<string>, path: string, names: seq<string>): Entry -> bool {
    (e: Entry) => |e.walk| == 1 && e.walk[0] in names && e.walk[0] !in oldProps && e.finding == NewRequired(Where(path, e.walk[0]))
  }

  ghost function OneEntry(entry: Entry, present: bool): Entry -> bool {
    (e: Entry) => present && e == entry
  }

  ghost function Below(oldDefs: Defs, newDefs: Defs, before: Node, after: Node, path: string, name: string): Entry -> bool {
    (e: Entry) => |e.walk| > 1 && AboutName(oldDefs, newDefs, before, after, path, name, e)
  }

  function Prefixed(name: string, entries: seq<Entry>): (r: seq<Entry>)
    ensures |r| == |entries| && forall i :: 0 <= i < |r| ==> r[i] == Entry([name] + entries[i].walk, entries[i].finding)
  {
    seq(|entries|, i requires 0 <= i < |entries| => Entry([name] + entries[i].walk, entries[i].finding))
  }

  lemma PrefixedPrecede(name: string, d: Entry, e: Entry)
    requires Precedes(d, e)
    ensures Precedes(Entry([name] + d.walk, d.finding), Entry([name] + e.walk, e.finding))
  {
    assert ([name] + d.walk)[1..] == d.walk && ([name] + e.walk)[1..] == e.walk;
  }

  /** A report on the nodes below `name`, told from above. */
  lemma TracesBelow(oldDefs: Defs, newDefs: Defs, before: Node, after: Node, path: string, name: string, entries: seq<Entry>)
    requires name in Properties(oldDefs, before) && name in Properties(newDefs, after)
    requires Properties(oldDefs, Properties(oldDefs, before)[name]) != map[]
    requires Traces(entries, Here(oldDefs, newDefs, Resolve(oldDefs, Properties(oldDefs, before)[name]),
                                  Resolve(newDefs, Properties(newDefs, after)[name]), Where(path, name)))
    ensures Traces(Prefixed(name, entries), Below(oldDefs, newDefs, before, after, path, name))
    ensures Findings(Prefixed(name, entries)) == Findings(entries)
  {
    var told := Prefixed(name, entries);
    forall e ensures e in told <==> Below(oldDefs, newDefs, before, after, path, name)(e) {
      if e in told {
        var i :| 0 <= i < |told| && told[i] == e;
        assert entries[i] in entries && e.walk[1..] == entries[i].walk;
      }
      if Below(oldDefs, newDefs, before, after, path, name)(e) {
        var inner := Entry(e.walk[1..], e.finding);
        assert inner in entries;
        var i :| 0 <= i < |entries| && entries[i] == inner;
        assert [name] + inner.walk == e.walk;
        assert told[i] == e;
      }
    }
    forall i, j | 0 <= i < j < |told| ensures Precedes(told[i], told[j]) {
      PrefixedPrecede(name, entries[i], entries[j]);
    }
  }

  lemma LostIsNarrowed(before: Node, after: Node, lost: set<Json>)
    ensures Narrows(before, after, lost) <==> lost == Lost(before, after) && lost != {}
  {
    forall v ensures EnumValues(before).Some? && v in EnumValues(before).value <==> Lists(before, v) {}
    forall v ensures EnumValues(after).Some? && v in EnumValues(after).value <==> Lists(after, v) {}
    if Narrows(before, after, lost) {
      assert lost == Lost(before, after);
    }
  }

  /** The three parts of what is said of one name that both sides have. */
  lemma NameParts(oldDefs: Defs, newDefs: Defs, before: Node, after: Node, path: string, name: string, e: Entry)
    requires name in Properties(oldDefs, before) && name in Properties(newDefs, after)
    ensures var lost := Lost(Resolve(oldDefs, Properties(oldDefs, before)[name]), Resolve(newDefs, Properties(newDefs, after)[name]));
      AboutName(oldDefs, newDefs, before, after, path, name, e) <==>
      || (name in Required(newDefs, after) && name !in Required(oldDefs, before)
          && e == Entry([name], BecameRequired(Where(path, name))))
      || (lost != {} && e == Entry([name], EnumNarrowed(Where(path, name), lost)))
      || (|e.walk| > 1 && AboutName(oldDefs, newDefs, before, after, path, name, e))
  {
    if |e.walk| == 1 && e.walk[0] == name {
      assert e.walk == [name];
      if e.finding.EnumNarrowed? {
        LostIsNarrowed(Resolve(oldDefs, Properties(oldDefs, before)[name]), Resolve(newDefs, Properties(newDefs, after)[name]),
                       e.finding.lost);
      }
    }
    LostIsNarrowed(Resolve(oldDefs, Properties(oldDefs, before)[name]), Resolve(newDefs, Properties(newDefs, after)[name]),
                   Lost(Resolve(oldDefs, Properties(oldDefs, before)[name]), Resolve(newDefs, Properties(newDefs, after)[name])));
  }

  // ---- the whole report ------------------------------------------------------------------------------

  lemma OneOrNone(entry: Entry, present: bool) returns (entries: seq<Entry>)
    ensures Traces(entries, OneEntry(entry, present))
    ensures Findings(entries) == if present then [entry.finding] else []
  {
    entries := if present then [entry] else [];
  }

  lemma RemovedIsAll(oldDefs: Defs, newDefs: Defs, before: Node, after: Node, path: string, name: string)
    requires name in Properties(oldDefs, before) && name !in Properties(newDefs, after)
    ensures Traces([Entry([name], PropertyRemoved(Where(path, name)))], ThisName(oldDefs, newDefs, before, after, path, name))
    ensures Findings([Entry([name], PropertyRemoved(Where(path, name)))]) == [PropertyRemoved(Where(path, name))]
  {
    forall e | AboutName(oldDefs, newDefs, before, after, path, name, e)
      ensures e == Entry([name], PropertyRemoved(Where(path, name)))
    {
      assert e.walk == [name];
    }
  }

  lemma NameJoins(oldDefs: Defs, newDefs: Defs, before: Node, after: Node, path: string, name: string, isAsked: bool,
                  lost: set<Json>, isNarrowed: bool, asked: seq<Entry>, narrowed: seq<Entry>, nested: seq<Entry>)
      returns (entries: seq<Entry>)
    requires name in Properties(oldDefs, before) && name in Properties(newDefs, after)
    requires isAsked <==> name in Required(newDefs, after) && name !in Required(oldDefs, before)
    requires lost == Lost(Resolve(oldDefs, Properties(oldDefs, before)[name]), Resolve(newDefs, Properties(newDefs, after)[name]))
    requires isNarrowed <==> lost != {}
    requires Traces(asked, OneEntry(Entry([name], BecameRequired(Where(path, name))), isAsked))
    requires Traces(narrowed, OneEntry(Entry([name], EnumNarrowed(Where(path, name), lost)), isNarrowed))
    requires Traces(nested, Below(oldDefs, newDefs, before, after, path, name))
    ensures Traces(entries, ThisName(oldDefs, newDefs, before, after, path, name))
    ensures Findings(entries) == Findings(asked) + Findings(narrowed) + Findings(nested)
  {
    var p := OneEntry(Entry([name], BecameRequired(Where(path, name))), isAsked);
    var q := OneEntry(Entry([name], EnumNarrowed(Where(path, name), lost)), isNarrowed);
    var below, whole := Below(oldDefs, newDefs, before, after, path, name), ThisName(oldDefs, newDefs, before, after, path, name);
    var pq := (e: Entry) => p(e) || q(e);
    Join(asked, narrowed, p, q, pq);
    forall e ensures whole(e) <==> pq(e) || below(e) {
      NameParts(oldDefs, newDefs, before, after, path, name, e);
    }
    Join(asked + narrowed, nested, pq, below, whole);
    entries := asked + narrowed + nested;
  }

  lemma NothingBelow(oldDefs: Defs, newDefs: Defs, before: Node, after: Node, path: string, name: string)
    requires name in Properties(oldDefs, before) && Properties(oldDefs, Properties(oldDefs, before)[name]) == map[]
    ensures Traces([], Below(oldDefs, newDefs, before, after, path, name)) && Findings([]) == []
  {
  }

  lemma NameIsTraced(oldDefs: Defs, newDefs: Defs, before: Node, after: Node, path: string, name: string,
                     ranks: Ranking, level: nat) returns (entries: seq<Entry>)
    requires Acyclic(oldDefs, ranks) && RefsBelow(oldDefs, ranks, before, level) && name in Properties(oldDefs, before)
    ensures Traces(entries, ThisName(oldDefs, newDefs, before, after, path, name))
    ensures OfName(oldDefs, newDefs, before, after, path, name, ranks, level) == Findings(entries)
    decreases level, before, 0
  {
    if name !in Properties(newDefs, after) {
      entries := [Entry([name], PropertyRemoved(Where(path, name)))];
      RemovedIsAll(oldDefs, newDefs, before, after, path, name);
    } else {
      var oldChild, newChild := Properties(oldDefs, before)[name], Properties(newDefs, after)[name];
      var l := ResolvedLevel(oldDefs, ranks, before, level);
      ResolveDescends(oldDefs, ranks, before, level);
      ResolveDescends(oldDefs, ranks, oldChild, l);
      var lost := Lost(Resolve(oldDefs, oldChild), Resolve(newDefs, newChild));
      var isAsked, isNarrowed := name in Required(newDefs, after) && name !in Required(oldDefs, before), lost != {};
      var asked := OneOrNone(Entry([name], BecameRequired(Where(path, name))), isAsked);
      var narrowed := OneOrNone(Entry([name], EnumNarrowed(Where(path, name), lost)), isNarrowed);
      var nested: seq<Entry> := [];
      if Properties(oldDefs, oldChild) != map[] {
        var inner := ReportIsTraced(oldDefs, newDefs, Resolve(oldDefs, oldChild), Resolve(newDefs, newChild), Where(path, name),
                                    ranks, ResolvedLevel(oldDefs, ranks, oldChild, l));
        TracesBelow(oldDefs, newDefs, before, after, path, name, inner);
        nested := Prefixed(name, inner);
      } else {
        NothingBelow(oldDefs, newDefs, before, after, path, name);
      }
      entries := NameJoins(oldDefs, newDefs, before, after, path, name, isAsked, lost, isNarrowed, asked, narrowed, nested);
    }
  }

  lemma NamesJoin(oldDefs: Defs, newDefs: Defs, before: Node, after: Node, path: string, names: seq<string>,
                  a: seq<Entry>, b: seq<Entry>)
    requires names != [] && Distinct(names) && Sorted(names, StringLe)
    requires Traces(a, ThisName(oldDefs, newDefs, before, after, path, names[0]))
    requires Traces(b, TheseNames(oldDefs, newDefs, before, after, path, names[1..]))
    ensures Traces(a + b, TheseNames(oldDefs, newDefs, before, after, path, names))
    ensures Findings(a + b) == Findings(a) + Findings(b)
  {
    assert names == [names[0]] + names[1..];
    Join(a, b, ThisName(oldDefs, newDefs, before, after, path, names[0]),
         TheseNames(oldDefs, newDefs, before, after, path, names[1..]), TheseNames(oldDefs, newDefs, before, after, path, names));
  }

  lemma NamesAreTraced(oldDefs: Defs, newDefs: Defs, before: Node, after: Node, path: string, names: seq<string>,
                       ranks: Ranking, level: nat) returns (entries: seq<Entry>)
    requires Acyclic(oldDefs, ranks) && RefsBelow(oldDefs, ranks, before, level)
    requires forall name :: name in names ==> name in Properties(oldDefs, before)
    requires Distinct(names) && Sorted(names, StringLe)
    ensures Traces(entries, TheseNames(oldDefs, newDefs, before, after, path, names))
    ensures OfNames(oldDefs, newDefs, before, after, path, names, ranks, level) == Findings(entries)
    decreases level, before, 1, |names|
  {
    if names == [] {
      entries := [];
    } else {
      assert names == [names[0]] + names[1..];
      var first := NameIsTraced(oldDefs, newDefs, before, after, path, names[0], ranks, level);
      var rest := NamesAreTraced(oldDefs, newDefs, before, after, path, names[1..], ranks, level);
      NamesJoin(oldDefs, newDefs, before, after, path, names, first, rest);
      entries := first + rest;
    }
  }

  lemma {:induction false} NewNamesAreTraced(oldProps: set<string>, path: string, names: seq<string>) returns (entries: seq<Entry>)
    requires Distinct(names) && Sorted(names, StringLe)
    ensures Traces(entries, NewNames(oldProps, path, names)) && NewlyRequired(oldProps, path, names) == Findings(entries)
  {
    if names == [] {
      entries := [];
    } else {
      assert names == [names[0]] + names[1..];
      var entry := Entry([names[0]], NewRequired(Where(path, names[0])));
      var isNew := names[0] !in oldProps;
      var p, q, whole := OneEntry(entry, isNew), NewNames(oldProps, path, names[1..]), NewNames(oldProps, path, names);
      var first := OneOrNone(entry, isNew);
      var rest := NewNamesAreTraced(oldProps, path, names[1..]);
      forall e ensures whole(e) <==> p(e) || q(e) {
        if |e.walk| == 1 { assert e.walk == [e.walk[0]]; }
      }
      Join(first, rest, p, q, whole);
      entries := first + rest;
    }
  }

  lemma OldOrNew(oldDefs: Defs, newDefs: Defs, before: Node, after: Node, path: string, e: Entry)
    ensures var olds := Properties(oldDefs, before).Keys;
      Here(oldDefs, newDefs, before, after, path)(e) <==>
      || TheseNames(oldDefs, newDefs, before, after, path, Listing(olds))(e)
      || NewNames(olds, path, Listing(Required(newDefs, after) - Required(oldDefs, before)))(e)
  {
    var olds := Properties(oldDefs, before).Keys;
    assert TheseNames(oldDefs, newDefs, before, after, path, Listing(olds))(e)
      <==> e.walk != [] && e.walk[0] in olds && Here(oldDefs, newDefs, before, after, path)(e) && !Late(e);
    LateIsNew(oldDefs, newDefs, before, after, path, e);
  }

  /** What comes last is about names the old node does not have, and all of that comes last. */
  lemma LateIsNew(oldDefs: Defs, newDefs: Defs, before: Node, after: Node, path: string, e: Entry)
    ensures var olds := Properties(oldDefs, before).Keys;
      NewNames(olds, path, Listing(Required(newDefs, after) - Required(oldDefs, before)))(e) <==>
      e.walk != [] && Here(oldDefs, newDefs, before, after, path)(e) && (e.walk[0] !in olds || Late(e))
  {
    if |e.walk| == 1 { assert e.walk == [e.walk[0]]; }
  }

  lemma NamesAndNewNames(oldDefs: Defs, newDefs: Defs, before: Node, after: Node, path: string, a: seq<Entry>, b: seq<Entry>)
    requires Traces(a, TheseNames(oldDefs, newDefs, before, after, path, Listing(Properties(oldDefs, before).Keys)))
    requires Traces(b, NewNames(Properties(oldDefs, before).Keys, path, Listing(Required(newDefs, after) - Required(oldDefs, before))))
    ensures Traces(a + b, Here(oldDefs, newDefs, before, after, path)) && Findings(a + b) == Findings(a) + Findings(b)
  {
    var p := TheseNames(oldDefs, newDefs, before, after, path, Listing(Properties(oldDefs, before).Keys));
    var q := NewNames(Properties(oldDefs, before).Keys, path, Listing(Required(newDefs, after) - Required(oldDefs, before)));
    var whole := Here(oldDefs, newDefs, before, after, path);
    forall e ensures whole(e) <==> p(e) || q(e) { OldOrNew(oldDefs, newDefs, before, after, path, e); }
    Join(a, b, p, q, whole);
  }

  /** The report is the findings traced by some walk, each walk once for each finding, in order. */
  lemma ReportIsTraced(oldDefs: Defs, newDefs: Defs, before: Node, after: Node, path: string, ranks: Ranking, level: nat)
      returns (entries: seq<Entry>)
    requires Acyclic(oldDefs, ranks) && RefsBelow(oldDefs, ranks, before, level)
    ensures Traces(entries, Here(oldDefs, newDefs, before, after, path))
    ensures BreakingChanges(oldDefs, newDefs, before, after, path, ranks, level) == Findings(entries)
    decreases level, before, 2
  {
    var olds := Properties(oldDefs, before).Keys;
    var asked := Required(newDefs, after) - Required(oldDefs, before);
    ListingInOrder(olds);
    ListingInOrder(asked);
    var first := NamesAreTraced(oldDefs, newDefs, before, after, path, Listing(olds), ranks, level);
    var rest := NewNamesAreTraced(olds, path, Listing(asked));
    NamesAndNewNames(oldDefs, newDefs, before, after, path, first, rest);
    entries := first + rest;
  }
}
