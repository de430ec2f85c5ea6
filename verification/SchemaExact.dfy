/** What an empty report is worth: the exact condition on which it means that every record the old
    schema accepts is accepted by the new one, and when empty reports add up over two steps. */
module SchemaExact {
  import opened Models
  import opened SchemaDiff
  import opened Wrappers

  /** A leaf somebody can satisfy: its enum is inhabited and of its kind, its constant is not null. */
  predicate LeafShaped(r: Node) {
    && r.properties == map[] && r.required == {}
    && (r.enumeration.Some? ==>
          r.constant.None? && r.enumeration.value != {} && forall v :: v in r.enumeration.value ==> HasKind(v, r.kind))
    && (r.constant.Some? ==> !r.constant.value.Null? && HasKind(r.constant.value, r.kind))
  }

  /** References resolve in one step, objects require only what they declare, leaves are inhabited. */
  ghost predicate WellShaped(defs: Defs, ranks: Ranking, node: Node, level: nat)
    requires Acyclic(defs, ranks) && RefsBelow(defs, ranks, node, level)
    decreases level, node
  {
    var r := Resolve(defs, node);
    ResolveDescends(defs, ranks, node, level);
    && r.ref.None?
    && (r.kind != ObjectKind ==> LeafShaped(r))
    && (r.kind == ObjectKind ==>
          && r.enumeration.None? && r.constant.None? && r.required <= r.properties.Keys
          && forall name :: name in r.properties ==>
               WellShaped(defs, ranks, r.properties[name], ResolvedLevel(defs, ranks, node, level)))
  }

  // ---- what the classifier does not look at -----------------------------------------------------

  /** Every value of the kind is listed: only null and the two truth values can be. */
  predicate Exhausts(values: set<Json>, kind: Kind) {
    (kind.NullKind? && Null in values) || (kind.BooleanKind? && Bool(false) in values && Bool(true) in values)
  }

  /** Two leaves where the classifier compares nothing but enums. A new enum must list the whole old
      kind, a dropped one must have been of the new kind, and with no enum kinds may only widen. */
  predicate LeafKeeps(ro: Node, rn: Node) {
    match (EnumValues(ro), EnumValues(rn))
    case (Some(_), Some(_)) => true
    case (Some(values), None) => forall v :: v in values ==> HasKind(v, rn.kind)
    case (None, Some(values)) => Exhausts(values, ro.kind)
    case (None, None) => ro.kind == rn.kind || (ro.kind.IntegerKind? && rn.kind.NumberKind?)
  }

  ghost predicate Keeps(oldDefs: Defs, newDefs: Defs, before: Node, after: Node, ranks: Ranking, level: nat)
    requires Acyclic(oldDefs, ranks) && RefsBelow(oldDefs, ranks, before, level)
    decreases level, before, 1
  {
    var ro, rn := Resolve(oldDefs, before), Resolve(newDefs, after);
    ResolveDescends(oldDefs, ranks, before, level);
    if ro.kind.ObjectKind? && rn.kind.ObjectKind? then
      && (ro.properties == map[] ==> rn.required == {})
      && KeepsShared(oldDefs, newDefs, ro, rn, ranks, ResolvedLevel(oldDefs, ranks, before, level))
    else
      !ro.kind.ObjectKind? && !rn.kind.ObjectKind? && LeafKeeps(ro, rn)
  }

  ghost predicate KeepsShared(oldDefs: Defs, newDefs: Defs, before: Node, after: Node, ranks: Ranking, level: nat)
    requires Acyclic(oldDefs, ranks) && RefsBelow(oldDefs, ranks, before, level)
    decreases level, before, 0
  {
    forall name :: name in before.properties && name in after.properties ==>
      Keeps(oldDefs, newDefs, before.properties[name], after.properties[name], ranks, level)
  }

  // ---- every well-shaped schema accepts something ----------------------------------------------

  function DefaultOf(kind: Kind): (v: Json)
    ensures HasKind(v, kind)
  {
    match kind
    case ObjectKind => Obj(map[])
    case StringKind => Str("")
    case NumberKind => Number(0.0)
    case IntegerKind => Integer(0)
    case BooleanKind => Bool(false)
    case NullKind => Null
    case ArrayKind => Arr([])
  }

  /** A record with the required properties and no others. */
  ghost function Sample(defs: Defs, ranks: Ranking, node: Node, level: nat): (v: Json)
    requires Acyclic(defs, ranks) && RefsBelow(defs, ranks, node, level) && WellShaped(defs, ranks, node, level)
    ensures Accepts(defs, node, v)
    ensures Resolve(defs, node).kind == ObjectKind ==> v.Obj? && v.fields.Keys == Required(defs, node)
    decreases level, node
  {
    var r := Resolve(defs, node);
    ResolveDescends(defs, ranks, node, level);
    TargetInOneStep(defs, node);
    if r.kind == ObjectKind then
      Obj(map name | name in r.required :: Sample(defs, ranks, r.properties[name], ResolvedLevel(defs, ranks, node, level)))
    else if r.enumeration.Some? then
      var v :| v in r.enumeration.value;
      v
    else if r.constant.Some? then r.constant.value
    else DefaultOf(r.kind)
  }

  // ---- exactness ---------------------------------------------------------------------------

  /** Nothing to report about a property whose old and new schemas are these. */
  ghost predicate ChildFine(oldDefs: Defs, newDefs: Defs, before: Node, after: Node, ranks: Ranking, level: nat)
    requires Acyclic(oldDefs, ranks) && RefsBelow(oldDefs, ranks, before, level)
  {
    ResolveDescends(oldDefs, ranks, before, level);
    && Lost(Resolve(oldDefs, before), Resolve(newDefs, after)) == {}
    && (Properties(oldDefs, before) != map[] ==>
          Fine(oldDefs, newDefs, Resolve(oldDefs, before), Resolve(newDefs, after), ranks,
               ResolvedLevel(oldDefs, ranks, before, level)))
  }

  /** Pairwise different values of an infinite kind. */
  function Candidate(kind: Kind, n: nat): (v: Json)
    requires !kind.ObjectKind? && !kind.NullKind? && !kind.BooleanKind?
    ensures HasKind(v, kind)
  {
    if kind.StringKind? then Str(seq(n, _ => 'a'))
    else if kind.ArrayKind? then Arr(seq(n, _ => Null))
    else Integer(n)
  }

  function CandidateSize(v: Json): int {
    match v
    case Str(s) => |s|
    case Arr(items) => |items|
    case Integer(i) => i
    case _ => 0
  }

  lemma {:induction false} CandidatesFit(values: set<Json>, kind: Kind, n: nat)
    requires !kind.ObjectKind? && !kind.NullKind? && !kind.BooleanKind?
    requires forall k: nat :: k < n ==> Candidate(kind, k) in values
    ensures n <= |values|
  {
    if n > 0 {
      var last := Candidate(kind, n - 1);
      forall k: nat | k < n - 1 ensures Candidate(kind, k) in values - {last} {
        assert CandidateSize(Candidate(kind, k)) == k && CandidateSize(last) == n - 1;
      }
      CandidatesFit(values - {last}, kind, n - 1);
    }
  }

  /** A finite enum that holds every value of a kind exhausts a finite kind. */
  lemma EnumOfWholeKind(values: set<Json>, kind: Kind)
    requires !kind.ObjectKind?
    ensures Exhausts(values, kind) <==> forall v :: HasKind(v, kind) ==> v in values
  {
    if kind.BooleanKind? {
      forall v | Exhausts(values, kind) && HasKind(v, kind) ensures v in values {
        assert v == Bool(false) || v == Bool(true);
      }
    } else if !kind.NullKind? {
      if forall v :: HasKind(v, kind) ==> v in values {
        CandidatesFit(values, kind, |values| + 1);
      }
    }
  }

  lemma WiderKind(kind: Kind, wider: Kind)
    requires !kind.ObjectKind?
    ensures (forall v :: HasKind(v, kind) ==> HasKind(v, wider)) <==> (kind == wider || (kind.IntegerKind? && wider.NumberKind?))
  {
    if kind.NumberKind? {
      assert HasKind(Number(0.5), kind);
    }
    assert HasKind(DefaultOf(kind), kind);
  }

  lemma LeafExact(oldDefs: Defs, newDefs: Defs, before: Node, after: Node)
    requires var ro, rn := Resolve(oldDefs, before), Resolve(newDefs, after);
      && ro.ref.None? && rn.ref.None?
      && !ro.kind.ObjectKind? && !rn.kind.ObjectKind? && LeafShaped(ro) && LeafShaped(rn)
    ensures var ro, rn := Resolve(oldDefs, before), Resolve(newDefs, after);
      (Lost(ro, rn) == {} && LeafKeeps(ro, rn)) <==> Compatible(oldDefs, newDefs, before, after)
  {
    var ro, rn := Resolve(oldDefs, before), Resolve(newDefs, after);
    TargetInOneStep(oldDefs, before);
    TargetInOneStep(newDefs, after);
    forall v ensures Accepts(oldDefs, before, v) <==> LeafAccepts(ro, v) {}
    forall v ensures Accepts(newDefs, after, v) <==> LeafAccepts(rn, v) {}
    LeafValuesExact(ro, rn);
    if Compatible(oldDefs, newDefs, before, after) {
      forall v | LeafAccepts(ro, v) ensures LeafAccepts(rn, v) { assert Accepts(oldDefs, before, v); }
    }
  }

  lemma NothingLost(before: Node, after: Node)
    ensures Lost(before, after) == {} <==>
      (EnumValues(before).Some? && EnumValues(after).Some? ==> EnumValues(before).value <= EnumValues(after).value)
  {
    if Lost(before, after) == {} && EnumValues(before).Some? && EnumValues(after).Some? {
      forall v | v in EnumValues(before).value ensures v in EnumValues(after).value {
        assert v !in Lost(before, after);
      }
    }
  }

  lemma LeafValuesExact(ro: Node, rn: Node)
    requires !ro.kind.ObjectKind? && LeafShaped(ro) && LeafShaped(rn)
    ensures (Lost(ro, rn) == {} && LeafKeeps(ro, rn)) <==> forall v :: LeafAccepts(ro, v) ==> LeafAccepts(rn, v)
  {
    match (EnumValues(ro), EnumValues(rn))
    case (Some(values), Some(newValues)) =>
      NothingLost(ro, rn);
      assert forall v :: LeafAccepts(ro, v) <==> v in values;
      assert forall v :: LeafAccepts(rn, v) <==> v in newValues;
    case (Some(values), None) =>
      assert forall v :: LeafAccepts(ro, v) <==> v in values;
    case (None, Some(newValues)) =>
      EnumOfWholeKind(newValues, ro.kind);
      assert forall v :: LeafAccepts(rn, v) <==> v in newValues;
      assert forall v :: LeafAccepts(ro, v) <==> HasKind(v, ro.kind);
    case (None, None) =>
      WiderKind(ro.kind, rn.kind);
      assert forall v :: LeafAccepts(ro, v) <==> HasKind(v, ro.kind);
      assert forall v :: LeafAccepts(rn, v) <==> HasKind(v, rn.kind);
  }

  predicate LeafAccepts(r: Node, v: Json) {
    HasKind(v, r.kind) && (EnumValues(r).Some? ==> v in EnumValues(r).value)
  }

  lemma AcceptsResolved(defs: Defs, node: Node, v: Json)
    requires Resolve(defs, node).ref.None?
    ensures Accepts(defs, node, v) <==> Accepts(defs, Resolve(defs, node), v)
  {
    TargetInOneStep(defs, node);
    TargetInOneStep(defs, Resolve(defs, node));
  }

  /** Both sides of a pair of nodes, each with its own ranks. */
  ghost predicate Shaped(oldDefs: Defs, newDefs: Defs, before: Node, after: Node,
                         ranks: Ranking, level: nat, newRanks: Ranking, newLevel: nat)
  {
    && Acyclic(oldDefs, ranks) && RefsBelow(oldDefs, ranks, before, level) && WellShaped(oldDefs, ranks, before, level)
    && Acyclic(newDefs, newRanks) && RefsBelow(newDefs, newRanks, after, newLevel)
    && WellShaped(newDefs, newRanks, after, newLevel)
  }

  /** Resolving keeps a pair a pair. */
  lemma ShapedResolves(oldDefs: Defs, newDefs: Defs, before: Node, after: Node,
                       ranks: Ranking, level: nat, newRanks: Ranking, newLevel: nat)
    requires Shaped(oldDefs, newDefs, before, after, ranks, level, newRanks, newLevel)
    ensures Shaped(oldDefs, newDefs, Resolve(oldDefs, before), Resolve(newDefs, after),
                   ranks, ResolvedLevel(oldDefs, ranks, before, level), newRanks, ResolvedLevel(newDefs, newRanks, after, newLevel))
  {
    ResolveDescends(oldDefs, ranks, before, level);
    ResolveDescends(newDefs, newRanks, after, newLevel);
  }

  /** So does going down to a shared property of two resolved objects. */
  lemma ShapedDescends(oldDefs: Defs, newDefs: Defs, before: Node, after: Node,
                       ranks: Ranking, level: nat, newRanks: Ranking, newLevel: nat, name: string)
    requires Shaped(oldDefs, newDefs, before, after, ranks, level, newRanks, newLevel)
    requires before.ref.None? && after.ref.None? && before.kind == after.kind == ObjectKind
    requires name in before.properties && name in after.properties
    ensures Shaped(oldDefs, newDefs, before.properties[name], after.properties[name], ranks, level, newRanks, newLevel)
  {
    ResolveDescends(oldDefs, ranks, before, level);
    ResolveDescends(newDefs, newRanks, after, newLevel);
  }

  /** A sample record with one more property, whose value its schema accepts, is accepted. */
  lemma SampleWith(defs: Defs, ranks: Ranking, node: Node, level: nat, name: string, v: Json) returns (record: Json)
    requires Acyclic(defs, ranks) && RefsBelow(defs, ranks, node, level) && WellShaped(defs, ranks, node, level)
    requires node.ref.None? && node.kind == ObjectKind && name in node.properties
    requires Accepts(defs, node.properties[name], v)
    ensures Accepts(defs, node, record) && record.Obj? && name in record.fields && record.fields[name] == v
  {
    var sample := Sample(defs, ranks, node, level);
    record := Obj(sample.fields[name := v]);
  }

  lemma {:induction false} CompatibleImpliesFine(oldDefs: Defs, newDefs: Defs, before: Node, after: Node,
                                                 ranks: Ranking, level: nat, newRanks: Ranking, newLevel: nat)
    requires Shaped(oldDefs, newDefs, before, after, ranks, level, newRanks, newLevel)
    requires before.ref.None? && after.ref.None? && before.kind == after.kind == ObjectKind
    requires Compatible(oldDefs, newDefs, before, after)
    ensures Fine(oldDefs, newDefs, before, after, ranks, level) && KeepsShared(oldDefs, newDefs, before, after, ranks, level)
    decreases level, before, 0
  {
    var sample := Sample(oldDefs, ranks, before, level);
    assert Accepts(newDefs, after, sample);
    forall name | name in before.properties
      ensures NameIsFine(oldDefs, newDefs, before, after, name, ranks, level)
      ensures Keeps(oldDefs, newDefs, before.properties[name], after.properties[name], ranks, level)
    {
      var oldChild := before.properties[name];
      ResolveDescends(oldDefs, ranks, before, level);
      var record := SampleWith(oldDefs, ranks, before, level, name, Sample(oldDefs, ranks, oldChild, level));
      assert Accepts(newDefs, after, record);
      assert name in after.properties;
      var newChild := after.properties[name];
      ShapedDescends(oldDefs, newDefs, before, after, ranks, level, newRanks, newLevel, name);
      forall v | Accepts(oldDefs, oldChild, v) ensures Accepts(newDefs, newChild, v) {
        var other := SampleWith(oldDefs, ranks, before, level, name, v);
        assert Accepts(newDefs, after, other);
      }
      NodeExact(oldDefs, newDefs, oldChild, newChild, ranks, level, newRanks, newLevel);
    }
  }

  lemma {:induction false} FineImpliesCompatible(oldDefs: Defs, newDefs: Defs, before: Node, after: Node,
                                                 ranks: Ranking, level: nat, newRanks: Ranking, newLevel: nat)
    requires Shaped(oldDefs, newDefs, before, after, ranks, level, newRanks, newLevel)
    requires before.ref.None? && after.ref.None? && before.kind == after.kind == ObjectKind
    requires Fine(oldDefs, newDefs, before, after, ranks, level) && KeepsShared(oldDefs, newDefs, before, after, ranks, level)
    ensures Compatible(oldDefs, newDefs, before, after)
    decreases level, before, 0
  {
    forall v | Accepts(oldDefs, before, v) ensures Accepts(newDefs, after, v) {
      assert after.required <= before.required by {
        forall name | name in after.required ensures name in before.required {
          if name in before.properties {
            assert NameIsFine(oldDefs, newDefs, before, after, name, ranks, level);
          }
        }
      }
      forall name | name in v.fields
        ensures name in after.properties && Accepts(newDefs, after.properties[name], v.fields[name])
      {
        assert NameIsFine(oldDefs, newDefs, before, after, name, ranks, level);
        ShapedDescends(oldDefs, newDefs, before, after, ranks, level, newRanks, newLevel, name);
        NodeExact(oldDefs, newDefs, before.properties[name], after.properties[name], ranks, level, newRanks, newLevel);
      }
    }
  }

  /** A record of its own kind keeps a schema from being compatible with one of the other sort. */
  lemma ObjectAgainstLeaf(oldDefs: Defs, newDefs: Defs, before: Node, after: Node,
                          ranks: Ranking, level: nat, newRanks: Ranking, newLevel: nat)
    requires Shaped(oldDefs, newDefs, before, after, ranks, level, newRanks, newLevel)
    requires Resolve(oldDefs, before).kind.ObjectKind? != Resolve(newDefs, after).kind.ObjectKind?
    ensures !Compatible(oldDefs, newDefs, before, after)
  {
    var sample := Sample(oldDefs, ranks, before, level);
    TargetInOneStep(oldDefs, before);
    TargetInOneStep(newDefs, after);
    assert Accepts(oldDefs, before, sample) && !Accepts(newDefs, after, sample);
  }

  lemma {:induction false} ObjectsExact(oldDefs: Defs, newDefs: Defs, before: Node, after: Node,
                                        ranks: Ranking, level: nat, newRanks: Ranking, newLevel: nat)
    requires Shaped(oldDefs, newDefs, before, after, ranks, level, newRanks, newLevel)
    requires before.ref.None? && after.ref.None? && before.kind == after.kind == ObjectKind
    ensures (Fine(oldDefs, newDefs, before, after, ranks, level) && KeepsShared(oldDefs, newDefs, before, after, ranks, level))
       <==> Compatible(oldDefs, newDefs, before, after)
    decreases level, before, 1
  {
    if Compatible(oldDefs, newDefs, before, after) {
      CompatibleImpliesFine(oldDefs, newDefs, before, after, ranks, level, newRanks, newLevel);
    }
    if Fine(oldDefs, newDefs, before, after, ranks, level) && KeepsShared(oldDefs, newDefs, before, after, ranks, level) {
      FineImpliesCompatible(oldDefs, newDefs, before, after, ranks, level, newRanks, newLevel);
    }
  }

  /** What the classifier compares is unchanged and what it does not look at stays put, exactly when
      the new node accepts all the old one does. */
  lemma {:induction false} NodeExact(oldDefs: Defs, newDefs: Defs, before: Node, after: Node,
                                     ranks: Ranking, level: nat, newRanks: Ranking, newLevel: nat)
    requires Shaped(oldDefs, newDefs, before, after, ranks, level, newRanks, newLevel)
    ensures (ChildFine(oldDefs, newDefs, before, after, ranks, level) && Keeps(oldDefs, newDefs, before, after, ranks, level))
       <==> Compatible(oldDefs, newDefs, before, after)
    decreases level, before, 2
  {
    var ro, rn := Resolve(oldDefs, before), Resolve(newDefs, after);
    var l, l' := ResolvedLevel(oldDefs, ranks, before, level), ResolvedLevel(newDefs, newRanks, after, newLevel);
    ShapedResolves(oldDefs, newDefs, before, after, ranks, level, newRanks, newLevel);
    if ro.kind.ObjectKind? != rn.kind.ObjectKind? {
      ObjectAgainstLeaf(oldDefs, newDefs, before, after, ranks, level, newRanks, newLevel);
    } else if !ro.kind.ObjectKind? {
      LeafExact(oldDefs, newDefs, before, after);
    } else {
      ResolvedCompatible(oldDefs, newDefs, before, after);
      ResolveDescends(oldDefs, ranks, before, level);
      if ro.properties == map[] {
        EmptyObjectExact(oldDefs, newDefs, ro, rn);
      } else {
        ObjectsExact(oldDefs, newDefs, ro, rn, ranks, l, newRanks, l');
      }
    }
  }

  lemma ResolvedCompatible(oldDefs: Defs, newDefs: Defs, before: Node, after: Node)
    requires Resolve(oldDefs, before).ref.None? && Resolve(newDefs, after).ref.None?
    ensures Compatible(oldDefs, newDefs, before, after) <==> Compatible(oldDefs, newDefs, Resolve(oldDefs, before), Resolve(newDefs, after))
  {
    forall v ensures Accepts(oldDefs, before, v) <==> Accepts(oldDefs, Resolve(oldDefs, before), v) {
      AcceptsResolved(oldDefs, before, v);
    }
    forall v ensures Accepts(newDefs, after, v) <==> Accepts(newDefs, Resolve(newDefs, after), v) {
      AcceptsResolved(newDefs, after, v);
    }
  }

  /** An object that declares nothing accepts only the empty record. */
  lemma EmptyObjectExact(oldDefs: Defs, newDefs: Defs, ro: Node, rn: Node)
    requires ro.ref.None? && rn.ref.None? && ro.kind == ObjectKind && rn.kind == ObjectKind
    requires ro.properties == map[] && ro.required == {} && ro.enumeration.None? && ro.constant.None?
    requires rn.enumeration.None? && rn.constant.None?
    ensures rn.required == {} <==> Compatible(oldDefs, newDefs, ro, rn)
  {
    assert Accepts(oldDefs, ro, Obj(map[]));
    assert Accepts(newDefs, rn, Obj(map[])) <==> rn.required == {};
  }

  // ---- the main results --------------------------------------------------------------------

  /** For well-shaped schemas no valid record is lost if and only if the report is empty and what
      the classifier does not look at stays put below the root. */
  lemma CompatibleIffReportedAndKept(oldDefs: Defs, newDefs: Defs, before: Node, after: Node, path: string,
                                     ranks: Ranking, level: nat, newRanks: Ranking, newLevel: nat)
    requires Shaped(oldDefs, newDefs, before, after, ranks, level, newRanks, newLevel)
    requires before.ref.None? && after.ref.None? && before.kind == ObjectKind
    ensures Compatible(oldDefs, newDefs, before, after)
       <==> (BreakingChanges(oldDefs, newDefs, before, after, path, ranks, level) == []
             && after.kind == ObjectKind && KeepsShared(oldDefs, newDefs, before, after, ranks, level))
  {
    EmptyIffFine(oldDefs, newDefs, before, after, path, ranks, level);
    if after.kind == ObjectKind {
      ObjectsExact(oldDefs, newDefs, before, after, ranks, level, newRanks, newLevel);
    } else {
      ObjectAgainstLeaf(oldDefs, newDefs, before, after, ranks, level, newRanks, newLevel);
    }
  }

  /** Where all of that stays put, the report is empty if and only if no valid record is lost. */
  lemma ReportIsEmptyIffCompatible(oldDefs: Defs, newDefs: Defs, before: Node, after: Node, path: string,
                                   ranks: Ranking, level: nat, newRanks: Ranking, newLevel: nat)
    requires Shaped(oldDefs, newDefs, before, after, ranks, level, newRanks, newLevel)
    requires before.ref.None? && after.ref.None? && before.kind == after.kind == ObjectKind
    requires KeepsShared(oldDefs, newDefs, before, after, ranks, level)
    ensures BreakingChanges(oldDefs, newDefs, before, after, path, ranks, level) == []
       <==> Compatible(oldDefs, newDefs, before, after)
  {
    CompatibleIffReportedAndKept(oldDefs, newDefs, before, after, path, ranks, level, newRanks, newLevel);
  }

  /** Two such steps without findings make a jump without findings that keeps all of it too. */
  lemma ReportIsTransitive(defs1: Defs, defs2: Defs, defs3: Defs, node1: Node, node2: Node, node3: Node, path: string,
                           ranks1: Ranking, level1: nat, ranks2: Ranking, level2: nat, ranks3: Ranking, level3: nat)
    requires Shaped(defs1, defs2, node1, node2, ranks1, level1, ranks2, level2)
    requires Shaped(defs2, defs3, node2, node3, ranks2, level2, ranks3, level3)
    requires node1.ref.None? && node2.ref.None? && node3.ref.None? && node1.kind == node2.kind == node3.kind == ObjectKind
    requires KeepsShared(defs1, defs2, node1, node2, ranks1, level1) && KeepsShared(defs2, defs3, node2, node3, ranks2, level2)
    requires BreakingChanges(defs1, defs2, node1, node2, path, ranks1, level1) == []
    requires BreakingChanges(defs2, defs3, node2, node3, path, ranks2, level2) == []
    ensures BreakingChanges(defs1, defs3, node1, node3, path, ranks1, level1) == []
    ensures KeepsShared(defs1, defs3, node1, node3, ranks1, level1)
  {
    CompatibleIffReportedAndKept(defs1, defs2, node1, node2, path, ranks1, level1, ranks2, level2);
    CompatibleIffReportedAndKept(defs2, defs3, node2, node3, path, ranks2, level2, ranks3, level3);
    CompatibleIffReportedAndKept(defs1, defs3, node1, node3, path, ranks1, level1, ranks3, level3);
  }

  lemma {:induction false} FineReflexive(defs: Defs, node: Node, ranks: Ranking, level: nat)
    requires Acyclic(defs, ranks) && RefsBelow(defs, ranks, node, level)
    ensures Fine(defs, defs, node, node, ranks, level)
    decreases level, node
  {
    forall name | name in Properties(defs, node) ensures NameIsFine(defs, defs, node, node, name, ranks, level) {
      var child, l := Properties(defs, node)[name], ResolvedLevel(defs, ranks, node, level);
      ResolveDescends(defs, ranks, node, level);
      ResolveDescends(defs, ranks, child, l);
      if Properties(defs, child) != map[] {
        FineReflexive(defs, Resolve(defs, child), ranks, ResolvedLevel(defs, ranks, child, l));
      }
    }
  }

  /** Any acyclic schema, of whatever shape, is compatible with itself. */
  lemma ReportIsReflexive(defs: Defs, node: Node, path: string, ranks: Ranking, level: nat)
    requires Acyclic(defs, ranks) && RefsBelow(defs, ranks, node, level)
    ensures BreakingChanges(defs, defs, node, node, path, ranks, level) == []
  {
    FineReflexive(defs, node, ranks, level);
    EmptyIffFine(defs, defs, node, node, path, ranks, level);
  }

  // ---- two steps ---------------------------------------------------------------------------------

  /** Where the middle schema dropped an enum, the third has not brought back a narrower one. */
  ghost predicate EnumsComeBackWhole(defs1: Defs, defs2: Defs, defs3: Defs, node1: Node, node2: Node, node3: Node,
                                     ranks: Ranking, level: nat)
    requires Acyclic(defs1, ranks) && RefsBelow(defs1, ranks, node1, level)
    decreases level, node1, 0
  {
    ResolveDescends(defs1, ranks, node1, level);
    forall name :: name in Properties(defs1, node1) && name in Properties(defs2, node2) && name in Properties(defs3, node3) ==>
      EnumComesBackWhole(defs1, defs2, defs3, Properties(defs1, node1)[name], Properties(defs2, node2)[name],
                         Properties(defs3, node3)[name], ranks, ResolvedLevel(defs1, ranks, node1, level))
  }

  ghost predicate EnumComesBackWhole(defs1: Defs, defs2: Defs, defs3: Defs, child1: Node, child2: Node, child3: Node,
                                     ranks: Ranking, level: nat)
    requires Acyclic(defs1, ranks) && RefsBelow(defs1, ranks, child1, level)
    decreases level, child1, 1
  {
    var r1, r2, r3 := Resolve(defs1, child1), Resolve(defs2, child2), Resolve(defs3, child3);
    ResolveDescends(defs1, ranks, child1, level);
    && (EnumValues(r1).Some? && EnumValues(r2).None? && EnumValues(r3).Some? ==> EnumValues(r1).value <= EnumValues(r3).value)
    && (r1.properties != map[] ==>
          EnumsComeBackWhole(defs1, defs2, defs3, r1, r2, r3, ranks, ResolvedLevel(defs1, ranks, child1, level)))
  }

  /** A definition is never a reference to another one. */
  predicate OneStep(defs: Defs) {
    forall name :: name in defs ==> Resolve(defs, defs[name]) == defs[name]
  }

  lemma ResolvedOnce(defs: Defs, node: Node)
    requires OneStep(defs)
    ensures Resolve(defs, Resolve(defs, node)) == Resolve(defs, node)
  {
  }

  /** Without chains of references, a step without findings never leaves a nested object bare. */
  lemma MiddleKeepsProperties(oldDefs: Defs, newDefs: Defs, before: Node, after: Node, ranks: Ranking, level: nat)
    requires OneStep(oldDefs) && OneStep(newDefs)
    requires Acyclic(oldDefs, ranks) && RefsBelow(oldDefs, ranks, before, level)
    requires ChildFine(oldDefs, newDefs, before, after, ranks, level) && Properties(oldDefs, before) != map[]
    ensures Properties(newDefs, after) != map[]
  {
    var ro, rn, l := Resolve(oldDefs, before), Resolve(newDefs, after), ResolvedLevel(oldDefs, ranks, before, level);
    ResolveDescends(oldDefs, ranks, before, level);
    ResolvedOnce(oldDefs, before);
    ResolvedOnce(newDefs, after);
    var name :| name in ro.properties;
    assert Fine(oldDefs, newDefs, ro, rn, ranks, l);
    assert NameIsFine(oldDefs, newDefs, ro, rn, name, ranks, l);
  }

  lemma {:induction false} ChildFineTwice(defs1: Defs, defs2: Defs, defs3: Defs, child1: Node, child2: Node, child3: Node,
                                          ranks1: Ranking, level1: nat, ranks2: Ranking, level2: nat)
    requires OneStep(defs1) && OneStep(defs2)
    requires Acyclic(defs1, ranks1) && RefsBelow(defs1, ranks1, child1, level1)
    requires Acyclic(defs2, ranks2) && RefsBelow(defs2, ranks2, child2, level2)
    requires ChildFine(defs1, defs2, child1, child2, ranks1, level1) && ChildFine(defs2, defs3, child2, child3, ranks2, level2)
    ensures ChildFine(defs1, defs3, child1, child3, ranks1, level1)
       <==> EnumComesBackWhole(defs1, defs2, defs3, child1, child2, child3, ranks1, level1)
    decreases level1, child1, 1
  {
    var r1, r2, r3 := Resolve(defs1, child1), Resolve(defs2, child2), Resolve(defs3, child3);
    ResolveDescends(defs1, ranks1, child1, level1);
    ResolveDescends(defs2, ranks2, child2, level2);
    NothingLost(r1, r2);
    NothingLost(r2, r3);
    NothingLost(r1, r3);
    if r1.properties != map[] {
      MiddleKeepsProperties(defs1, defs2, child1, child2, ranks1, level1);
      var l1, l2 := ResolvedLevel(defs1, ranks1, child1, level1), ResolvedLevel(defs2, ranks2, child2, level2);
      FineTwice(defs1, defs2, defs3, r1, r2, r3, ranks1, l1, ranks2, l2);
    }
  }

  lemma {:induction false} FineTwice(defs1: Defs, defs2: Defs, defs3: Defs, node1: Node, node2: Node, node3: Node,
                                     ranks1: Ranking, level1: nat, ranks2: Ranking, level2: nat)
    requires OneStep(defs1) && OneStep(defs2)
    requires Acyclic(defs1, ranks1) && RefsBelow(defs1, ranks1, node1, level1)
    requires Acyclic(defs2, ranks2) && RefsBelow(defs2, ranks2, node2, level2)
    requires Fine(defs1, defs2, node1, node2, ranks1, level1) && Fine(defs2, defs3, node2, node3, ranks2, level2)
    ensures Fine(defs1, defs3, node1, node3, ranks1, level1)
       <==> EnumsComeBackWhole(defs1, defs2, defs3, node1, node2, node3, ranks1, level1)
    decreases level1, node1, 0
  {
    ResolveDescends(defs1, ranks1, node1, level1);
    ResolveDescends(defs2, ranks2, node2, level2);
    var l1, l2 := ResolvedLevel(defs1, ranks1, node1, level1), ResolvedLevel(defs2, ranks2, node2, level2);
    forall name | name in Properties(defs1, node1)
      ensures name in Properties(defs2, node2) && name in Properties(defs3, node3)
      ensures ChildFine(defs1, defs3, Properties(defs1, node1)[name], Properties(defs3, node3)[name], ranks1, l1)
         <==> EnumComesBackWhole(defs1, defs2, defs3, Properties(defs1, node1)[name], Properties(defs2, node2)[name],
                                 Properties(defs3, node3)[name], ranks1, l1)
    {
      assert NameIsFine(defs1, defs2, node1, node2, name, ranks1, level1);
      assert NameIsFine(defs2, defs3, node2, node3, name, ranks2, level2);
      ChildFineTwice(defs1, defs2, defs3, Properties(defs1, node1)[name], Properties(defs2, node2)[name],
                     Properties(defs3, node3)[name], ranks1, l1, ranks2, l2);
    }
    RequiredTwice(defs1, defs2, defs3, node1, node2, node3, ranks1, level1, ranks2, level2);
    FineByChildren(defs1, defs3, node1, node3, ranks1, level1);
  }

  ghost predicate ChildrenFine(oldDefs: Defs, newDefs: Defs, before: Node, after: Node, ranks: Ranking, level: nat)
    requires Acyclic(oldDefs, ranks) && RefsBelow(oldDefs, ranks, before, level)
    requires Properties(oldDefs, before).Keys <= Properties(newDefs, after).Keys
  {
    ResolveDescends(oldDefs, ranks, before, level);
    forall name :: name in Properties(oldDefs, before) ==>
      ChildFine(oldDefs, newDefs, Properties(oldDefs, before)[name], Properties(newDefs, after)[name], ranks,
                ResolvedLevel(oldDefs, ranks, before, level))
  }

  lemma FineByChildren(oldDefs: Defs, newDefs: Defs, before: Node, after: Node, ranks: Ranking, level: nat)
    requires Acyclic(oldDefs, ranks) && RefsBelow(oldDefs, ranks, before, level)
    requires Required(newDefs, after) <= Required(oldDefs, before)
    requires Properties(oldDefs, before).Keys <= Properties(newDefs, after).Keys
    ensures Fine(oldDefs, newDefs, before, after, ranks, level)
       <==> ChildrenFine(oldDefs, newDefs, before, after, ranks, level)
  {
    ResolveDescends(oldDefs, ranks, before, level);
    forall name | name in Properties(oldDefs, before)
      ensures NameIsFine(oldDefs, newDefs, before, after, name, ranks, level) <==>
        ChildFine(oldDefs, newDefs, Properties(oldDefs, before)[name], Properties(newDefs, after)[name], ranks,
                        ResolvedLevel(oldDefs, ranks, before, level))
    {
      ResolveDescends(oldDefs, ranks, Properties(oldDefs, before)[name], ResolvedLevel(oldDefs, ranks, before, level));
    }
  }

  lemma RequiredTwice(defs1: Defs, defs2: Defs, defs3: Defs, node1: Node, node2: Node, node3: Node,
                      ranks1: Ranking, level1: nat, ranks2: Ranking, level2: nat)
    requires Acyclic(defs1, ranks1) && RefsBelow(defs1, ranks1, node1, level1)
    requires Acyclic(defs2, ranks2) && RefsBelow(defs2, ranks2, node2, level2)
    requires Fine(defs1, defs2, node1, node2, ranks1, level1) && Fine(defs2, defs3, node2, node3, ranks2, level2)
    ensures Required(defs3, node3) <= Required(defs2, node2) <= Required(defs1, node1)
  {
    forall name | name in Required(defs2, node2) ensures name in Required(defs1, node1) {
      if name in Properties(defs1, node1) {
        assert NameIsFine(defs1, defs2, node1, node2, name, ranks1, level1);
      }
    }
    forall name | name in Required(defs3, node3) ensures name in Required(defs2, node2) {
      if name in Properties(defs2, node2) {
        assert NameIsFine(defs2, defs3, node2, node3, name, ranks2, level2);
      }
    }
  }

  /** Two steps without findings: the jump has none if and only if no enum that the middle schema
      dropped comes back narrower. Nothing is asked of the schemas but that the first two reach every
      node in one reference; `ChainHidesFromTheNextStep` shows what a chain does. */
  lemma ReportAddsUpIffEnumsComeBackWhole(defs1: Defs, defs2: Defs, defs3: Defs, node1: Node, node2: Node, node3: Node,
                                          path: string, ranks1: Ranking, level1: nat, ranks2: Ranking, level2: nat)
    requires OneStep(defs1) && OneStep(defs2)
    requires Acyclic(defs1, ranks1) && RefsBelow(defs1, ranks1, node1, level1)
    requires Acyclic(defs2, ranks2) && RefsBelow(defs2, ranks2, node2, level2)
    requires BreakingChanges(defs1, defs2, node1, node2, path, ranks1, level1) == []
    requires BreakingChanges(defs2, defs3, node2, node3, path, ranks2, level2) == []
    ensures BreakingChanges(defs1, defs3, node1, node3, path, ranks1, level1) == []
       <==> EnumsComeBackWhole(defs1, defs2, defs3, node1, node2, node3, ranks1, level1)
  {
    EmptyIffFine(defs1, defs2, node1, node2, path, ranks1, level1);
    EmptyIffFine(defs2, defs3, node2, node3, path, ranks2, level2);
    EmptyIffFine(defs1, defs3, node1, node3, path, ranks1, level1);
    FineTwice(defs1, defs2, defs3, node1, node2, node3, ranks1, level1, ranks2, level2);
  }

  /** Dropping an enum and bringing part of it back takes two steps without findings; the jump has one. */
  lemma DroppedEnumComesBackNarrower(name: string)
    ensures var whole, part := Leaf(StringKind, Some({Str("x"), Str("y")})), Leaf(StringKind, Some({Str("x")}));
      var schema1, schema2 := Object(map[name := whole], {}), Object(map[name := Leaf(StringKind, None)], {});
      var schema3 := Object(map[name := part], {});
      && RefsBelow(map[], map[], schema1, 0) && RefsBelow(map[], map[], schema2, 0)
      && BreakingChanges(map[], map[], schema1, schema2, "", map[], 0) == []
      && BreakingChanges(map[], map[], schema2, schema3, "", map[], 0) == []
      && BreakingChanges(map[], map[], schema1, schema3, "", map[], 0) != []
  {
    var whole, part := Leaf(StringKind, Some({Str("x"), Str("y")})), Leaf(StringKind, Some({Str("x")}));
    OnePropertyReport(name, whole, Leaf(StringKind, None));
    OnePropertyReport(name, Leaf(StringKind, None), part);
    assert Str("y") in Lost(whole, part);
    OneProperty(map[], map[], name, whole, part, map[], 0);
  }

  // ---- the changes it does not see ------------------------------------------------------------

  function Leaf(kind: Kind, enumeration: Option<set<Json>>): Node {
    Node(None, kind, map[], {}, enumeration, None)
  }

  function Object(properties: map<string, Node>, required: set<string>): Node {
    Node(None, ObjectKind, properties, required, None, None)
  }

  /** A pair of one-property objects is reported for that property only. */
  lemma OneProperty(oldDefs: Defs, newDefs: Defs, name: string, oldChild: Node, newChild: Node, ranks: Ranking, level: nat)
    requires Acyclic(oldDefs, ranks) && RefsBelow(oldDefs, ranks, oldChild, level)
    ensures RefsBelow(oldDefs, ranks, Object(map[name := oldChild], {}), level)
    ensures BreakingChanges(oldDefs, newDefs, Object(map[name := oldChild], {}), Object(map[name := newChild], {}), "", ranks, level) == []
       <==> ChildFine(oldDefs, newDefs, oldChild, newChild, ranks, level)
  {
    var before, after := Object(map[name := oldChild], {}), Object(map[name := newChild], {});
    FineByChildren(oldDefs, newDefs, before, after, ranks, level);
    OnlyChild(oldDefs, newDefs, name, oldChild, newChild, ranks, level);
    EmptyIffFine(oldDefs, newDefs, before, after, "", ranks, level);
  }

  lemma OnlyChild(oldDefs: Defs, newDefs: Defs, name: string, oldChild: Node, newChild: Node, ranks: Ranking, level: nat)
    requires Acyclic(oldDefs, ranks) && RefsBelow(oldDefs, ranks, oldChild, level)
    ensures RefsBelow(oldDefs, ranks, Object(map[name := oldChild], {}), level)
    ensures ChildrenFine(oldDefs, newDefs, Object(map[name := oldChild], {}), Object(map[name := newChild], {}), ranks, level)
       <==> ChildFine(oldDefs, newDefs, oldChild, newChild, ranks, level)
  {
    var before, after := Object(map[name := oldChild], {}), Object(map[name := newChild], {});
    assert name in Properties(oldDefs, before) && Properties(oldDefs, before)[name] == oldChild;
    assert Properties(newDefs, after)[name] == newChild;
  }

  lemma OnePropertyReport(name: string, oldChild: Node, newChild: Node)
    requires oldChild.ref.None? && newChild.ref.None? && oldChild.properties == map[]
    requires Lost(oldChild, newChild) == {}
    ensures Acyclic(map[], map[]) && RefsBelow(map[], map[], Object(map[name := oldChild], {}), 0)
    ensures BreakingChanges(map[], map[], Object(map[name := oldChild], {}), Object(map[name := newChild], {}), "", map[], 0) == []
  {
    assert RefsBelow(map[], map[], oldChild, 0);
    OneProperty(map[], map[], name, oldChild, newChild, map[], 0);
  }

  lemma OneFieldLost(oldDefs: Defs, newDefs: Defs, name: string, oldChild: Node, newChild: Node, v: Json)
    requires Accepts(oldDefs, oldChild, v) && !Accepts(newDefs, newChild, v)
    ensures !Compatible(oldDefs, newDefs, Object(map[name := oldChild], {}), Object(map[name := newChild], {}))
  {
    var before, after := Object(map[name := oldChild], {}), Object(map[name := newChild], {});
    var record := Obj(map[name := v]);
    assert Accepts(oldDefs, before, record);
    assert !Accepts(newDefs, after, record) by {
      assert name in record.fields && after.properties[name] == newChild;
    }
  }

  /** A leaf that changes its kind is not reported, though old records are lost. */
  lemma KindChangeIsMissed(name: string)
    ensures var before, after := Object(map[name := Leaf(StringKind, None)], {}), Object(map[name := Leaf(IntegerKind, None)], {});
      && RefsBelow(map[], map[], before, 0)
      && BreakingChanges(map[], map[], before, after, "", map[], 0) == []
      && !Compatible(map[], map[], before, after)
  {
    OnePropertyReport(name, Leaf(StringKind, None), Leaf(IntegerKind, None));
    OneFieldLost(map[], map[], name, Leaf(StringKind, None), Leaf(IntegerKind, None), Str("x"));
  }

  /** Nor is an enum put where there was none. */
  lemma NewEnumIsMissed(name: string)
    ensures var before := Object(map[name := Leaf(StringKind, None)], {});
      var after := Object(map[name := Leaf(StringKind, Some({Str("x")}))], {});
      && RefsBelow(map[], map[], before, 0)
      && BreakingChanges(map[], map[], before, after, "", map[], 0) == []
      && !Compatible(map[], map[], before, after)
  {
    OnePropertyReport(name, Leaf(StringKind, None), Leaf(StringKind, Some({Str("x")})));
    OneFieldLost(map[], map[], name, Leaf(StringKind, None), Leaf(StringKind, Some({Str("x")})), Str("y"));
  }

  /** Nor a requirement added to a nested object that declared no properties. */
  lemma NewRequirementOfEmptyObjectIsMissed(name: string)
    ensures var before := Object(map[name := Object(map[], {})], {});
      var after := Object(map[name := Object(map["x" := Leaf(StringKind, None)], {"x"})], {});
      && RefsBelow(map[], map[], before, 0)
      && BreakingChanges(map[], map[], before, after, "", map[], 0) == []
      && !Compatible(map[], map[], before, after)
  {
    OnePropertyReport(name, Object(map[], {}), Object(map["x" := Leaf(StringKind, None)], {"x"}));
    OneFieldLost(map[], map[], name, Object(map[], {}), Object(map["x" := Leaf(StringKind, None)], {"x"}), Obj(map[]));
  }

  // ---- chains of references -------------------------------------------------------------------------

  function Ref(name: string): Node {
    Node(Some(name), ObjectKind, map[], {}, None, None)
  }

  /** An object with one text, behind a definition that only refers to another. */
  function Inner(x: string): Node { Object(map[x := Leaf(StringKind, None)], {}) }

  function ChainedDefs(x: string): Defs { map["A" := Ref("B"), "B" := Inner(x)] }

  function ChainedRanks(): Ranking { map["A" := 1, "B" := 0] }

  function Chained(name: string): Node { Object(map[name := Ref("A")], {}) }

  function Flattened(name: string): Node { Object(map[name := Leaf(StringKind, None)], {}) }

  lemma ChainIsAcyclic(x: string)
    ensures Acyclic(ChainedDefs(x), ChainedRanks()) && RefsBelow(ChainedDefs(x), ChainedRanks(), Ref("A"), 2)
  {
    assert RefsBelow(ChainedDefs(x), ChainedRanks(), Leaf(StringKind, None), 0);
    assert RefsBelow(ChainedDefs(x), ChainedRanks(), Inner(x), 0);
  }

  lemma ChainTarget(x: string)
    ensures Target(ChainedDefs(x), Ref("A")) == Inner(x)
  {
    var defs := ChainedDefs(x);
    assert Chase(defs, Inner(x), {"A", "B"}) == Inner(x);
    assert {"A"} + {"B"} == {"A", "B"} && {} + {"A"} == {"A"};
    assert Chase(defs, Ref("B"), {"A"}) == Inner(x);
  }

  /** The classifier looks one reference far and sees no properties behind a chain: an object turned into
      a text gives no finding, though old records are lost. */
  lemma ChainIsNotFollowed(name: string, x: string)
    ensures Acyclic(ChainedDefs(x), ChainedRanks()) && RefsBelow(ChainedDefs(x), ChainedRanks(), Chained(name), 2)
    ensures BreakingChanges(ChainedDefs(x), map[], Chained(name), Flattened(name), "", ChainedRanks(), 2) == []
    ensures !Compatible(ChainedDefs(x), map[], Chained(name), Flattened(name))
  {
    ChainIsAcyclic(x);
    ChainTarget(x);
    OneProperty(ChainedDefs(x), map[], name, Ref("A"), Leaf(StringKind, None), ChainedRanks(), 2);
    OneFieldLost(ChainedDefs(x), map[], name, Ref("A"), Leaf(StringKind, None), Obj(map[]));
  }

  /** So empty reports do not add up across a chain, with no enum anywhere: putting the object behind a
      chain gives no finding, nor does the next step that removes its property, but the jump does. */
  lemma ChainHidesFromTheNextStep(name: string, x: string)
    ensures var first := Object(map[name := Inner(x)], {});
      && RefsBelow(map[], map[], first, 0)
      && Acyclic(ChainedDefs(x), ChainedRanks()) && RefsBelow(ChainedDefs(x), ChainedRanks(), Chained(name), 2)
      && BreakingChanges(map[], ChainedDefs(x), first, Chained(name), "", map[], 0) == []
      && BreakingChanges(ChainedDefs(x), map[], Chained(name), Flattened(name), "", ChainedRanks(), 2) == []
      && BreakingChanges(map[], map[], first, Flattened(name), "", map[], 0) != []
  {
    ChainIsNotFollowed(name, x);
    InnerBehindChain(x);
    OneProperty(map[], ChainedDefs(x), name, Inner(x), Ref("A"), map[], 0);
    OneProperty(map[], map[], name, Inner(x), Leaf(StringKind, None), map[], 0);
  }

  lemma InnerBehindChain(x: string)
    ensures RefsBelow(map[], map[], Inner(x), 0)
    ensures ChildFine(map[], ChainedDefs(x), Inner(x), Ref("A"), map[], 0)
    ensures !ChildFine(map[], map[], Inner(x), Leaf(StringKind, None), map[], 0)
  {
    assert RefsBelow(map[], map[], Leaf(StringKind, None), 0);
    assert Properties(ChainedDefs(x), Ref("B")) == Inner(x).properties;
    assert NameIsFine(map[], ChainedDefs(x), Inner(x), Ref("B"), x, map[], 0);
    assert !NameIsFine(map[], map[], Inner(x), Leaf(StringKind, None), x, map[], 0);
  }
}
