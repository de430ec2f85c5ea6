/** The compatibility classifier of the schema registry, held against what the schemas accept. */
module SchemaDiff {
  import opened Models
  import opened Ordering
  import opened Wrappers

  datatype Kind = ObjectKind | StringKind | NumberKind | IntegerKind | BooleanKind | NullKind | ArrayKind

  /** One schema node. `ref` is the name behind a local reference into the definitions; absent
      `properties` and `required` read as empty. */
  datatype Node = Node(
    ref: Option<string>,
    kind: Kind,
    properties: map<string, Node>,
    required: set<string>,
    enumeration: Option<set<Json>>,
    constant: Option<Json>)

  type Defs = map<string, Node>

  // ---- the accessors -------------------------------------------------------------------

  /** Follows a local reference one level. */
  function Resolve(defs: Defs, node: Node): Node {
    if node.ref.Some? && node.ref.value in defs then defs[node.ref.value] else node
  }

  function Properties(defs: Defs, node: Node): map<string, Node> {
    Resolve(defs, node).properties
  }

  function Required(defs: Defs, node: Node): set<string> {
    Resolve(defs, node).required
  }

  /** A `const` of null counts as no constant at all. */
  function EnumValues(node: Node): Option<set<Json>> {
    match node.enumeration
    case Some(values) => Some(values)
    case None => if node.constant.Some? && !node.constant.value.Null? then Some({node.constant.value}) else None
  }

  // ---- acyclicity -----------------------------------------------------------------------

  type Ranking = map<string, nat>

  /** Every reference under the node leads to a definition ranked below the level. */
  ghost predicate RefsBelow(defs: Defs, ranks: Ranking, node: Node, level: nat)
    decreases node
  {
    && (node.ref.Some? && node.ref.value in defs ==> node.ref.value in ranks && ranks[node.ref.value] < level)
    && forall name :: name in node.properties ==> RefsBelow(defs, ranks, node.properties[name], level)
  }

  /** The ranks witness that following references and properties always ends. */
  ghost predicate Acyclic(defs: Defs, ranks: Ranking) {
    forall name :: name in defs ==> name in ranks && RefsBelow(defs, ranks, defs[name], ranks[name])
  }

  /** The level that goes with a resolved node. */
  ghost function ResolvedLevel(defs: Defs, ranks: Ranking, node: Node, level: nat): nat
    requires Acyclic(defs, ranks)
  {
    if node.ref.Some? && node.ref.value in defs then ranks[node.ref.value] else level
  }

  lemma ResolveDescends(defs: Defs, ranks: Ranking, node: Node, level: nat)
    requires Acyclic(defs, ranks) && RefsBelow(defs, ranks, node, level)
    ensures var l := ResolvedLevel(defs, ranks, node, level);
      && RefsBelow(defs, ranks, Resolve(defs, node), l)
      && (l < level || (l == level && Resolve(defs, node) == node))
      && forall name :: name in Properties(defs, node) ==> RefsBelow(defs, ranks, Properties(defs, node)[name], l)
  {
  }

  // ---- the findings -----------------------------------------------------------------------

  datatype Finding =
    | PropertyRemoved(where: string)
    | BecameRequired(where: string)
    | EnumNarrowed(where: string, lost: set<Json>)
    | NewRequired(where: string)

  function Where(path: string, name: string): string {
    if path == "" then name else path + "." + name
  }

  /** The members an enum lost, when both sides have one. */
  function Lost(before: Node, after: Node): set<Json> {
    if EnumValues(before).Some? && EnumValues(after).Some? then EnumValues(before).value - EnumValues(after).value else {}
  }

  function OfName(oldDefs: Defs, newDefs: Defs, before: Node, after: Node, path: string, name: string,
                  ghost ranks: Ranking, ghost level: nat): seq<Finding>
    requires Acyclic(oldDefs, ranks) && RefsBelow(oldDefs, ranks, before, level)
    requires name in Properties(oldDefs, before)
    decreases level, before, 0
  {
    var where := Where(path, name);
    if name !in Properties(newDefs, after) then [PropertyRemoved(where)]
    else
      var oldChild, newChild := Properties(oldDefs, before)[name], Properties(newDefs, after)[name];
      ResolveDescends(oldDefs, ranks, before, level);
      ghost var l := ResolvedLevel(oldDefs, ranks, before, level);
      ResolveDescends(oldDefs, ranks, oldChild, l);
      var lost := Lost(Resolve(oldDefs, oldChild), Resolve(newDefs, newChild));
      (if name in Required(newDefs, after) && name !in Required(oldDefs, before) then [BecameRequired(where)] else [])
      + (if lost != {} then [EnumNarrowed(where, lost)] else [])
      + (if Properties(oldDefs, oldChild) != map[] then
           BreakingChanges(oldDefs, newDefs, Resolve(oldDefs, oldChild), Resolve(newDefs, newChild), where,
                           ranks, ResolvedLevel(oldDefs, ranks, oldChild, l))
         else [])
  }

  function OfNames(oldDefs: Defs, newDefs: Defs, before: Node, after: Node, path: string, names: seq<string>,
                   ghost ranks: Ranking, ghost level: nat): seq<Finding>
    requires Acyclic(oldDefs, ranks) && RefsBelow(oldDefs, ranks, before, level)
    requires forall name :: name in names ==> name in Properties(oldDefs, before)
    decreases level, before, 1, |names|
  {
    if names == [] then []
    else
      assert names[0] in names;
      OfName(oldDefs, newDefs, before, after, path, names[0], ranks, level)
      + OfNames(oldDefs, newDefs, before, after, path, names[1..], ranks, level)
  }

  function NewlyRequired(oldProps: set<string>, path: string, names: seq<string>): seq<Finding> {
    if names == [] then []
    else (if names[0] !in oldProps then [NewRequired(Where(path, names[0]))] else [])
         + NewlyRequired(oldProps, path, names[1..])
  }

  /** Every difference from `before` to `after` the classifier calls breaking, in report order. */
  function BreakingChanges(oldDefs: Defs, newDefs: Defs, before: Node, after: Node, path: string,
                           ghost ranks: Ranking, ghost level: nat): seq<Finding>
    requires Acyclic(oldDefs, ranks) && RefsBelow(oldDefs, ranks, before, level)
    decreases level, before, 2
  {
    OfNames(oldDefs, newDefs, before, after, path, Listing(Properties(oldDefs, before).Keys), ranks, level)
    + NewlyRequired(Properties(oldDefs, before).Keys, path, Listing(Required(newDefs, after) - Required(oldDefs, before)))
  }

  // ---- what a schema accepts --------------------------------------------------------------------

  predicate HasKind(v: Json, kind: Kind) {
    match kind
    case ObjectKind => v.Obj?
    case StringKind => v.Str?
    case NumberKind => v.Number? || v.Integer?
    case IntegerKind => v.Integer?
    case BooleanKind => v.Bool?
    case NullKind => v.Null?
    case ArrayKind => v.Arr?
  }

  /** Follows references to the end, unlike the classifier; a circle of references leads nowhere. */
  function Chase(defs: Defs, node: Node, seen: set<string>): Node
    decreases |defs.Keys - seen|
  {
    if node.ref.Some? && node.ref.value in defs && node.ref.value !in seen then
      assert defs.Keys - (seen + {node.ref.value}) == (defs.Keys - seen) - {node.ref.value};
      Chase(defs, defs[node.ref.value], seen + {node.ref.value})
    else node
  }

  function Target(defs: Defs, node: Node): Node {
    Chase(defs, node, {})
  }

  lemma TargetInOneStep(defs: Defs, node: Node)
    requires Resolve(defs, node).ref.None?
    ensures Target(defs, node) == Resolve(defs, node)
  {
    if node.ref.Some? && node.ref.value in defs {
      assert Chase(defs, defs[node.ref.value], {} + {node.ref.value}) == defs[node.ref.value];
    }
  }

  /** Validation with closed objects: no properties but the declared ones. */
  ghost predicate Accepts(defs: Defs, node: Node, v: Json)
    decreases v
  {
    var r := Target(defs, node);
    && HasKind(v, r.kind)
    && (r.enumeration.Some? ==> v in r.enumeration.value)
    && (r.constant.Some? ==> v == r.constant.value)
    && (r.kind == ObjectKind ==>
          && r.required <= v.fields.Keys <= r.properties.Keys
          && forall name :: name in v.fields ==> Accepts(defs, r.properties[name], v.fields[name]))
  }

  ghost predicate Compatible(oldDefs: Defs, newDefs: Defs, before: Node, after: Node) {
    forall v :: Accepts(oldDefs, before, v) ==> Accepts(newDefs, after, v)
  }

  // ---- the classifier as the program runs it ------------------------------------------------

  /** The loop over the names of the old properties, recursing into nested objects. */
  method FindInProperties(oldDefs: Defs, newDefs: Defs, before: Node, after: Node, path: string, names: seq<string>,
                          ghost ranks: Ranking, ghost level: nat) returns (findings: seq<Finding>)
    requires Acyclic(oldDefs, ranks) && RefsBelow(oldDefs, ranks, before, level)
    requires forall name :: name in names ==> name in Properties(oldDefs, before)
    ensures findings == OfNames(oldDefs, newDefs, before, after, path, names, ranks, level)
    decreases level, before, 1
  {
    findings := [];
    ghost var whole := OfNames(oldDefs, newDefs, before, after, path, names, ranks, level);
    assert names[0..] == names;
    var i := 0;
    while i < |names|
      invariant 0 <= i <= |names|
      invariant forall name :: name in names[i..] ==> name in Properties(oldDefs, before)
      invariant findings + OfNames(oldDefs, newDefs, before, after, path, names[i..], ranks, level) == whole
    {
      OfNamesStep(oldDefs, newDefs, before, after, path, names, i, ranks, level, findings);
      var found := FindInProperty(oldDefs, newDefs, before, after, path, names[i], ranks, level);
      findings := findings + found;
      i := i + 1;
    }
    assert names[|names|..] == [];
    assert findings + [] == findings;
  }

  lemma OfNamesStep(oldDefs: Defs, newDefs: Defs, before: Node, after: Node, path: string, names: seq<string>, i: nat,
                    ranks: Ranking, level: nat, findings: seq<Finding>)
    requires Acyclic(oldDefs, ranks) && RefsBelow(oldDefs, ranks, before, level) && i < |names|
    requires forall name :: name in names[i..] ==> name in Properties(oldDefs, before)
    ensures names[i] in Properties(oldDefs, before)
    ensures forall name :: name in names[i + 1..] ==> name in Properties(oldDefs, before)
    ensures findings + OfNames(oldDefs, newDefs, before, after, path, names[i..], ranks, level)
         == (findings + OfName(oldDefs, newDefs, before, after, path, names[i], ranks, level))
            + OfNames(oldDefs, newDefs, before, after, path, names[i + 1..], ranks, level)
  {
    var left := names[i..];
    assert left[0] == names[i] && left[1..] == names[i + 1..];
    assert left[0] in left;
    assert forall name :: name in left[1..] ==> name in left;
    Regroup(findings, OfName(oldDefs, newDefs, before, after, path, names[i], ranks, level),
            OfNames(oldDefs, newDefs, before, after, path, names[i + 1..], ranks, level));
  }

  /** The second loop: requirements on names the old schema never had. */
  lemma NewlyRequiredFrom(oldProps: set<string>, path: string, names: seq<string>, j: nat)
    requires j < |names|
    ensures NewlyRequired(oldProps, path, names[j..])
         == (if names[j] !in oldProps then [NewRequired(Where(path, names[j]))] else []) + NewlyRequired(oldProps, path, names[j + 1..])
  {
    assert names[j..][0] == names[j] && names[j..][1..] == names[j + 1..];
  }

  method FindNewlyRequired(oldProps: set<string>, path: string, names: seq<string>) returns (findings: seq<Finding>)
    ensures findings == NewlyRequired(oldProps, path, names)
  {
    findings := [];
    assert names[0..] == names;
    var j := 0;
    while j < |names|
      invariant 0 <= j <= |names|
      invariant findings + NewlyRequired(oldProps, path, names[j..]) == NewlyRequired(oldProps, path, names)
    {
      NewlyRequiredFrom(oldProps, path, names, j);
      ghost var was, rest := findings, NewlyRequired(oldProps, path, names[j + 1..]);
      ghost var one := if names[j] !in oldProps then [NewRequired(Where(path, names[j]))] else [];
      if names[j] !in oldProps {
        findings := findings + [NewRequired(Where(path, names[j]))];
      }
      assert findings == was + one;
      Regroup(was, one, rest);
      j := j + 1;
    }
    assert names[|names|..] == [];
    assert findings + [] == findings;
  }

  method FindBreakingChanges(oldDefs: Defs, newDefs: Defs, before: Node, after: Node, path: string,
                             ghost ranks: Ranking, ghost level: nat) returns (findings: seq<Finding>)
    requires Acyclic(oldDefs, ranks) && RefsBelow(oldDefs, ranks, before, level)
    ensures findings == BreakingChanges(oldDefs, newDefs, before, after, path, ranks, level)
    decreases level, before, 2
  {
    var oldProps := Properties(oldDefs, before);
    findings := FindInProperties(oldDefs, newDefs, before, after, path, Listing(oldProps.Keys), ranks, level);
    var added := FindNewlyRequired(oldProps.Keys, path, Listing(Required(newDefs, after) - Required(oldDefs, before)));
    findings := findings + added;
  }

  /** One pass of the first loop. */
  method FindInProperty(oldDefs: Defs, newDefs: Defs, before: Node, after: Node, path: string, name: string,
                        ghost ranks: Ranking, ghost level: nat) returns (found: seq<Finding>)
    requires Acyclic(oldDefs, ranks) && RefsBelow(oldDefs, ranks, before, level)
    requires name in Properties(oldDefs, before)
    ensures found == OfName(oldDefs, newDefs, before, after, path, name, ranks, level)
    decreases level, before, 0
  {
    var where := Where(path, name);
    if name !in Properties(newDefs, after) {
      return [PropertyRemoved(where)];
    }
    var required, narrowed, nested: seq<Finding> := [], [], [];
    if name in Required(newDefs, after) && name !in Required(oldDefs, before) {
      required := [BecameRequired(where)];
    }
    var oldChild, newChild := Properties(oldDefs, before)[name], Properties(newDefs, after)[name];
    ghost var l := ResolvedLevel(oldDefs, ranks, before, level);
    ResolveDescends(oldDefs, ranks, before, level);
    ResolveDescends(oldDefs, ranks, oldChild, l);
    var lost := Lost(Resolve(oldDefs, oldChild), Resolve(newDefs, newChild));
    if lost != {} {
      narrowed := [EnumNarrowed(where, lost)];
    }
    if Properties(oldDefs, oldChild) != map[] {
      nested := FindBreakingChanges(oldDefs, newDefs, Resolve(oldDefs, oldChild), Resolve(newDefs, newChild), where,
                                    ranks, ResolvedLevel(oldDefs, ranks, oldChild, l));
    }
    found := required + narrowed + nested;
  }

  // ---- emptiness, without paths ------------------------------------------------------------------

  /** No finding anywhere below the two nodes. */
  ghost predicate Fine(oldDefs: Defs, newDefs: Defs, before: Node, after: Node, ranks: Ranking, level: nat)
    requires Acyclic(oldDefs, ranks) && RefsBelow(oldDefs, ranks, before, level)
    decreases level, before, 1
  {
    && Required(newDefs, after) <= Required(oldDefs, before) + Properties(oldDefs, before).Keys
    && forall name :: name in Properties(oldDefs, before) ==>
         NameIsFine(oldDefs, newDefs, before, after, name, ranks, level)
  }

  ghost predicate NameIsFine(oldDefs: Defs, newDefs: Defs, before: Node, after: Node, name: string, ranks: Ranking, level: nat)
    requires Acyclic(oldDefs, ranks) && RefsBelow(oldDefs, ranks, before, level)
    requires name in Properties(oldDefs, before)
    decreases level, before, 0
  {
    && name in Properties(newDefs, after)
    && (name in Required(newDefs, after) ==> name in Required(oldDefs, before))
    && var oldChild, newChild := Properties(oldDefs, before)[name], Properties(newDefs, after)[name];
       var l := ResolvedLevel(oldDefs, ranks, before, level);
       ResolveDescends(oldDefs, ranks, before, level);
       ResolveDescends(oldDefs, ranks, oldChild, l);
       && Lost(Resolve(oldDefs, oldChild), Resolve(newDefs, newChild)) == {}
       && (Properties(oldDefs, oldChild) != map[] ==>
             Fine(oldDefs, newDefs, Resolve(oldDefs, oldChild), Resolve(newDefs, newChild), ranks,
                  ResolvedLevel(oldDefs, ranks, oldChild, l)))
  }

  lemma {:induction false} NewlyRequiredEmpty(oldProps: set<string>, path: string, names: seq<string>)
    ensures NewlyRequired(oldProps, path, names) == [] <==> forall name :: name in names ==> name in oldProps
  {
    if names != [] {
      NewlyRequiredEmpty(oldProps, path, names[1..]);
      assert names == [names[0]] + names[1..];
    }
  }

  lemma {:induction false} OfNameEmpty(oldDefs: Defs, newDefs: Defs, before: Node, after: Node, path: string, name: string,
                                       ranks: Ranking, level: nat)
    requires Acyclic(oldDefs, ranks) && RefsBelow(oldDefs, ranks, before, level)
    requires name in Properties(oldDefs, before)
    ensures OfName(oldDefs, newDefs, before, after, path, name, ranks, level) == []
       <==> NameIsFine(oldDefs, newDefs, before, after, name, ranks, level)
    decreases level, before, 0
  {
    if name in Properties(newDefs, after) {
      var oldChild, newChild := Properties(oldDefs, before)[name], Properties(newDefs, after)[name];
      var l := ResolvedLevel(oldDefs, ranks, before, level);
      ResolveDescends(oldDefs, ranks, before, level);
      ResolveDescends(oldDefs, ranks, oldChild, l);
      if Properties(oldDefs, oldChild) != map[] {
        EmptyIffFine(oldDefs, newDefs, Resolve(oldDefs, oldChild), Resolve(newDefs, newChild), Where(path, name),
                     ranks, ResolvedLevel(oldDefs, ranks, oldChild, l));
      }
    }
  }

  lemma {:induction false} OfNamesEmpty(oldDefs: Defs, newDefs: Defs, before: Node, after: Node, path: string,
                                        names: seq<string>,
                                        ranks: Ranking, level: nat)
    requires Acyclic(oldDefs, ranks) && RefsBelow(oldDefs, ranks, before, level)
    requires forall name :: name in names ==> name in Properties(oldDefs, before)
    ensures OfNames(oldDefs, newDefs, before, after, path, names, ranks, level) == []
       <==> forall name :: name in names ==> NameIsFine(oldDefs, newDefs, before, after, name, ranks, level)
    decreases level, before, 1, |names|
  {
    if names != [] {
      assert names == [names[0]] + names[1..];
      OfNameEmpty(oldDefs, newDefs, before, after, path, names[0], ranks, level);
      OfNamesEmpty(oldDefs, newDefs, before, after, path, names[1..], ranks, level);
    }
  }

  lemma {:induction false} EmptyIffFine(oldDefs: Defs, newDefs: Defs, before: Node, after: Node, path: string,
                                        ranks: Ranking, level: nat)
    requires Acyclic(oldDefs, ranks) && RefsBelow(oldDefs, ranks, before, level)
    ensures BreakingChanges(oldDefs, newDefs, before, after, path, ranks, level) == []
       <==> Fine(oldDefs, newDefs, before, after, ranks, level)
    decreases level, before, 2
  {
    var props := Properties(oldDefs, before);
    OfNamesEmpty(oldDefs, newDefs, before, after, path, Listing(props.Keys), ranks, level);
    NewlyRequiredEmpty(props.Keys, path, Listing(Required(newDefs, after) - Required(oldDefs, before)));
  }
}
