/** Python's `sorted`: a stable insertion sort over a total preorder, the lexicographic
    order on strings, and the facts about them that the reports rely on. */
module Ordering {

  ghost predicate TotalPreorder<T(!new)>(le: (T, T) -> bool) {
    && (forall x, y :: le(x, y) || le(y, x))
    && (forall x, y, z :: le(x, y) && le(y, z) ==> le(x, z))
  }

  ghost predicate Sorted<T>(s: seq<T>, le: (T, T) -> bool) {
    forall i, j :: 0 <= i < j < |s| ==> le(s[i], s[j])
  }

  /** The sort key tells the elements of `s` apart. */
  ghost predicate KeyDetermines<T(!new)>(m: multiset<T>, le: (T, T) -> bool) {
    forall x, y :: x in m && y in m && le(x, y) && le(y, x) ==> x == y
  }

  function Insert<T>(x: T, s: seq<T>, le: (T, T) -> bool): (r: seq<T>)
    ensures |r| == |s| + 1
  {
    if s == [] then [x]
    else if le(x, s[0]) then [x] + s
    else [s[0]] + Insert(x, s[1..], le)
  }

  /** Stable: an element goes in front of its equals, and the sequence is consumed from the right. */
  function Sort<T>(s: seq<T>, le: (T, T) -> bool): (r: seq<T>)
    ensures |r| == |s|
  {
    if s == [] then [] else Insert(s[0], Sort(s[1..], le), le)
  }

  lemma {:induction false} InsertPermutes<T>(x: T, s: seq<T>, le: (T, T) -> bool)
    ensures multiset(Insert(x, s, le)) == multiset(s) + multiset{x}
  {
    if s != [] {
      assert s == [s[0]] + s[1..];
      InsertPermutes(x, s[1..], le);
    }
  }

  lemma {:induction false} SortPermutes<T>(s: seq<T>, le: (T, T) -> bool)
    ensures multiset(Sort(s, le)) == multiset(s)
  {
    if s != [] {
      assert s == [s[0]] + s[1..];
      SortPermutes(s[1..], le);
      InsertPermutes(s[0], Sort(s[1..], le), le);
    }
  }

  lemma InsertMembers<T>(x: T, s: seq<T>, le: (T, T) -> bool)
    ensures forall y :: y in Insert(x, s, le) <==> y == x || y in s
  {
    InsertPermutes(x, s, le);
    forall y ensures y in Insert(x, s, le) <==> y == x || y in s {
      assert y in multiset(Insert(x, s, le)) <==> y in multiset(s) + multiset{x};
    }
  }

  lemma {:induction false} InsertSorted<T(!new)>(x: T, s: seq<T>, le: (T, T) -> bool)
    requires TotalPreorder(le) && Sorted(s, le)
    ensures Sorted(Insert(x, s, le), le)
  {
    if s != [] && !le(x, s[0]) {
      InsertSorted(x, s[1..], le);
      var tail := Insert(x, s[1..], le);
      InsertMembers(x, s[1..], le);
      forall k | 0 <= k < |tail| ensures le(s[0], tail[k]) {
        assert tail[k] in tail;
      }
    }
  }

  lemma {:induction false} SortSorts<T(!new)>(s: seq<T>, le: (T, T) -> bool)
    requires TotalPreorder(le)
    ensures Sorted(Sort(s, le), le)
  {
    if s != [] {
      SortSorts(s[1..], le);
      InsertSorted(s[0], Sort(s[1..], le), le);
    }
  }

  lemma SortMembers<T>(s: seq<T>, le: (T, T) -> bool)
    ensures forall x :: x in Sort(s, le) <==> x in s
  {
    SortPermutes(s, le);
    forall x ensures x in Sort(s, le) <==> x in s {
      assert x in multiset(Sort(s, le)) <==> x in multiset(s);
    }
  }

  /** Two sorted arrangements of the same elements agree when the key tells elements apart. */
  lemma {:induction false} SortedUnique<T(!new)>(a: seq<T>, b: seq<T>, le: (T, T) -> bool)
    requires Sorted(a, le) && Sorted(b, le) && multiset(a) == multiset(b)
    requires TotalPreorder(le) && KeyDetermines(multiset(a), le)
    ensures a == b
  {
    assert |a| == |multiset(a)| == |multiset(b)| == |b|;
    if a != [] {
      assert a[0] in multiset(b) && b[0] in multiset(a);
      assert le(a[0], b[0]) && le(b[0], a[0]);
      TailMultiset(a);
      TailMultiset(b);
      SortedUnique(a[1..], b[1..], le);
    }
  }

  lemma TailMultiset<T>(s: seq<T>)
    requires s != []
    ensures multiset(s[1..]) == multiset(s) - multiset{s[0]}
  {
    assert s == [s[0]] + s[1..];
  }

  lemma SortIgnoresOrder<T(!new)>(s: seq<T>, t: seq<T>, le: (T, T) -> bool)
    requires TotalPreorder(le) && multiset(s) == multiset(t) && KeyDetermines(multiset(s), le)
    ensures Sort(s, le) == Sort(t, le)
  {
    SortSorts(s, le);
    SortSorts(t, le);
    SortPermutes(s, le);
    SortPermutes(t, le);
    SortedUnique(Sort(s, le), Sort(t, le), le);
  }

  /** Sorting a sorted sequence changes nothing, whatever the key: the sort is stable. */
  lemma {:induction false} SortOfSorted<T(!new)>(s: seq<T>, le: (T, T) -> bool)
    requires TotalPreorder(le) && Sorted(s, le)
    ensures Sort(s, le) == s
  {
    if s != [] {
      SortOfSorted(s[1..], le);
      assert s == [s[0]] + s[1..];
      assert le(s[0], s[0]);
      if |s| > 1 {
        assert le(s[0], s[1..][0]);
      }
    }
  }

  ghost predicate Distinct<T>(s: seq<T>) {
    forall i, j :: 0 <= i < j < |s| ==> s[i] != s[j]
  }

  /** No two elements share a key. */
  ghost predicate DistinctBy<T, U>(s: seq<T>, key: T -> U) {
    forall i, j :: 0 <= i < j < |s| ==> key(s[i]) != key(s[j])
  }

  lemma {:induction false} InsertDistinct<T>(x: T, s: seq<T>, le: (T, T) -> bool)
    requires x !in s && Distinct(s)
    ensures Distinct(Insert(x, s, le))
  {
    if s != [] && !le(x, s[0]) {
      InsertDistinct(x, s[1..], le);
      var tail := Insert(x, s[1..], le);
      InsertMembers(x, s[1..], le);
      forall k | 0 <= k < |tail| ensures s[0] != tail[k] {
        assert tail[k] in tail;
      }
    }
  }

  lemma {:induction false} SortDistinct<T>(s: seq<T>, le: (T, T) -> bool)
    requires Distinct(s)
    ensures Distinct(Sort(s, le))
  {
    if s != [] {
      SortDistinct(s[1..], le);
      SortMembers(s[1..], le);
      InsertDistinct(s[0], Sort(s[1..], le), le);
    }
  }

  // ---- filtering -------------------------------------------------------------------

  function Filter<T>(s: seq<T>, p: T -> bool): seq<T> {
    if s == [] then [] else (if p(s[0]) then [s[0]] else []) + Filter(s[1..], p)
  }

  lemma {:induction false} FilterMembers<T>(s: seq<T>, p: T -> bool)
    ensures forall x :: x in Filter(s, p) <==> x in s && p(x)
  {
    if s != [] {
      FilterMembers(s[1..], p);
      assert s == [s[0]] + s[1..];
    }
  }

  lemma {:induction false} FilterSplits<T>(s: seq<T>, t: seq<T>, p: T -> bool)
    ensures Filter(s + t, p) == Filter(s, p) + Filter(t, p)
  {
    if s == [] {
      assert s + t == t;
    } else {
      FilterSplits(s[1..], t, p);
      assert (s + t)[1..] == s[1..] + t;
      var first, rest, last := if p(s[0]) then [s[0]] else [], Filter(s[1..], p), Filter(t, p);
      assert first + (rest + last) == (first + rest) + last;
    }
  }

  /** Taking one occurrence out. */
  lemma WithoutOne<T>(s: seq<T>, j: nat)
    requires j < |s|
    ensures multiset(s[..j] + s[j + 1..]) == multiset(s) - multiset{s[j]}
  {
    assert s == s[..j] + [s[j]] + s[j + 1..];
  }

  /** What the filter keeps of one element. */
  function Kept<T>(x: T, p: T -> bool): multiset<T> {
    if p(x) then multiset{x} else multiset{}
  }

  lemma FilterAround<T>(front: seq<T>, x: T, back: seq<T>, p: T -> bool)
    ensures Filter(front + ([x] + back), p) == Filter(front, p) + (Filter([x], p) + Filter(back, p))
  {
    FilterSplits(front, [x] + back, p);
    FilterSplits([x], back, p);
  }

  lemma FilterAroundAgain<T>(front: seq<T>, x: T, back: seq<T>, p: T -> bool)
    ensures multiset(Filter(front + ([x] + back), p)) == multiset(Filter(front + back, p)) + Kept(x, p)
  {
    FilterAround(front, x, back, p);
    FilterSplits(front, back, p);
    FilterOne(x, p);
    MultisetOfThree(Filter(front, p), Filter([x], p), Filter(back, p));
  }

  lemma SplitAround<T>(s: seq<T>, j: nat)
    requires j < |s|
    ensures s == s[..j] + ([s[j]] + s[j + 1..])
  {
  }

  lemma FilterWithoutOne<T>(s: seq<T>, p: T -> bool, j: nat)
    requires j < |s|
    ensures multiset(Filter(s, p)) == multiset(Filter(s[..j] + s[j + 1..], p)) + Kept(s[j], p)
  {
    SplitAround(s, j);
    FilterAroundAgain(s[..j], s[j], s[j + 1..], p);
  }

  lemma FilterOne<T>(x: T, p: T -> bool)
    ensures Filter([x], p) == if p(x) then [x] else []
  {
    assert [x][1..] == [];
  }

  lemma FilterCons<T>(x: T, rest: seq<T>, p: T -> bool)
    ensures Filter([x] + rest, p) == (if p(x) then [x] else []) + Filter(rest, p)
  {
    FilterSplits([x], rest, p);
    FilterOne(x, p);
  }

  lemma FilterSnoc<T>(front: seq<T>, x: T, p: T -> bool)
    ensures Filter(front + [x], p) == Filter(front, p) + (if p(x) then [x] else [])
  {
    FilterSplits(front, [x], p);
    FilterOne(x, p);
  }

  lemma FilterOneMore<T>(s: seq<T>, i: nat, p: T -> bool)
    requires i < |s|
    ensures Filter(s[..i + 1], p) == Filter(s[..i], p) + (if p(s[i]) then [s[i]] else [])
  {
    assert s[..i + 1] == s[..i] + [s[i]];
    FilterSnoc(s[..i], s[i], p);
  }

  lemma {:induction false} FilterTwice<T>(s: seq<T>, p: T -> bool, q: T -> bool, both: T -> bool)
    requires forall x :: both(x) <==> p(x) && q(x)
    ensures Filter(Filter(s, p), q) == Filter(s, both)
  {
    if s != [] {
      FilterTwice(s[1..], p, q, both);
      var kept, rest := Filter(s, p), Filter(s[1..], p);
      if p(s[0]) {
        assert kept[0] == s[0] && kept[1..] == rest;
      } else {
        assert kept == rest;
      }
    }
  }

  lemma HeadIsLeast<T(!new)>(s: seq<T>, x: T, le: (T, T) -> bool)
    requires s != [] && Sorted(s, le) && x in s[1..]
    ensures le(s[0], x)
  {
    var j :| 0 <= j < |s[1..]| && s[1..][j] == x;
    assert s[j + 1] == x;
  }

  lemma {:induction false} FilterStaysSorted<T(!new)>(s: seq<T>, p: T -> bool, le: (T, T) -> bool)
    requires Sorted(s, le)
    ensures Sorted(Filter(s, p), le)
  {
    if s != [] {
      var rest := Filter(s[1..], p);
      FilterStaysSorted(s[1..], p, le);
      FilterMembers(s[1..], p);
      forall x | x in rest ensures le(s[0], x) { HeadIsLeast(s, x, le); }
    }
  }

  lemma OneIsEmpty<T>(a: seq<T>, b: seq<T>, c: seq<T>)
    requires a == [] || b == []
    ensures a + (b + c) == b + (a + c)
  {
    assert [] + c == c;
    assert [] + (b + c) == b + c && [] + (a + c) == a + c;
  }

  lemma {:induction false} InsertIsStable<T>(x: T, s: seq<T>, le: (T, T) -> bool, p: T -> bool)
    requires forall y, z :: p(y) && p(z) ==> le(y, z)
    ensures Filter(Insert(x, s, le), p) == (if p(x) then [x] else []) + Filter(s, p)
  {
    if s != [] && !le(x, s[0]) {
      var front, mine := if p(s[0]) then [s[0]] else [], if p(x) then [x] else [];
      InsertIsStable(x, s[1..], le, p);
      FilterCons(s[0], Insert(x, s[1..], le), p);
      OneIsEmpty(front, mine, Filter(s[1..], p));
    } else {
      FilterCons(x, s, p);
    }
  }

  /** The sort is stable: elements that the order does not tell apart keep their order. */
  lemma {:induction false} SortIsStable<T>(s: seq<T>, le: (T, T) -> bool, p: T -> bool)
    requires forall y, z :: p(y) && p(z) ==> le(y, z)
    ensures Filter(Sort(s, le), p) == Filter(s, p)
  {
    if s != [] {
      SortIsStable(s[1..], le, p);
      InsertIsStable(s[0], Sort(s[1..], le), le, p);
    }
  }

  lemma {:induction false} FilterNone<T>(s: seq<T>, p: T -> bool)
    requires forall i :: 0 <= i < |s| ==> !p(s[i])
    ensures Filter(s, p) == []
  {
    if s != [] { FilterNone(s[1..], p); }
  }

  lemma MultisetOfThree<T>(a: seq<T>, b: seq<T>, c: seq<T>)
    ensures multiset(a + (b + c)) == multiset(a + c) + multiset(b)
  {
  }

  /** Where a rearrangement has the first element, and what is left on both sides. */
  lemma FirstElsewhere<T>(s: seq<T>, t: seq<T>) returns (j: nat)
    requires multiset(s) == multiset(t) && s != []
    ensures j < |t| && t[j] == s[0]
    ensures multiset(s[..0] + s[1..]) == multiset(t[..j] + t[j + 1..])
    ensures |s[..0] + s[1..]| == |s| - 1
  {
    MembersOfMultiset(s, t);
    assert s[0] in t;
    j :| 0 <= j < |t| && t[j] == s[0];
    WithoutOne(s, 0);
    WithoutOne(t, j);
  }

  lemma {:induction false} FilterIgnoresOrder<T>(s: seq<T>, t: seq<T>, p: T -> bool)
    requires multiset(s) == multiset(t)
    ensures multiset(Filter(s, p)) == multiset(Filter(t, p))
    decreases |s|
  {
    if s == [] {
      MembersOfMultiset(s, t);
    } else {
      var j := FirstElsewhere(s, t);
      var s', t' := s[..0] + s[1..], t[..j] + t[j + 1..];
      FilterIgnoresOrder(s', t', p);
      calc {
        multiset(Filter(s, p));
        { FilterWithoutOne(s, p, 0); }
        multiset(Filter(s', p)) + Kept(s[0], p);
        multiset(Filter(t', p)) + Kept(t[j], p);
        { FilterWithoutOne(t, p, j); }
        multiset(Filter(t, p));
      }
    }
  }

  lemma MembersOfMultiset<T>(s: seq<T>, t: seq<T>)
    requires multiset(s) == multiset(t)
    ensures |s| == |t| && forall x :: x in s <==> x in t
  {
    assert |s| == |multiset(s)| == |multiset(t)| == |t|;
    forall x ensures x in s <==> x in t { assert x in multiset(s) <==> x in multiset(t); }
  }

  lemma CountIgnoresOrder<T>(s: seq<T>, t: seq<T>, p: T -> bool)
    requires multiset(s) == multiset(t)
    ensures |Filter(s, p)| == |Filter(t, p)|
  {
    FilterIgnoresOrder(s, t, p);
    MembersOfMultiset(Filter(s, p), Filter(t, p));
  }

  /** Two complementary filters take a list apart. */
  lemma {:induction false} FilterPartitions<T>(s: seq<T>, p: T -> bool, q: T -> bool)
    requires forall x :: x in s ==> p(x) != q(x)
    ensures multiset(Filter(s, p)) + multiset(Filter(s, q)) == multiset(s)
  {
    if s != [] {
      assert s == [s[0]] + s[1..];
      FilterPartitions(s[1..], p, q);
    }
  }

  /** `[f(x) for x in s]`. */
  function Apply<T, U>(s: seq<T>, f: T -> U): (r: seq<U>)
    ensures |r| == |s| && forall i :: 0 <= i < |s| ==> r[i] == f(s[i])
  {
    seq(|s|, i requires 0 <= i < |s| => f(s[i]))
  }

  lemma {:induction false} ApplyIgnoresOrder<T, U>(s: seq<T>, t: seq<T>, f: T -> U)
    requires multiset(s) == multiset(t)
    ensures multiset(Apply(s, f)) == multiset(Apply(t, f))
    decreases |s|
  {
    if s == [] {
      MembersOfMultiset(s, t);
    } else {
      var j := FirstElsewhere(s, t);
      ApplyIgnoresOrder(s[..0] + s[1..], t[..j] + t[j + 1..], f);
      ApplyWithoutOne(s, f, 0);
      ApplyWithoutOne(t, f, j);
    }
  }

  lemma ApplyWithoutOne<T, U>(s: seq<T>, f: T -> U, j: nat)
    requires j < |s|
    ensures multiset(Apply(s, f)) == multiset(Apply(s[..j] + s[j + 1..], f)) + multiset{f(s[j])}
  {
    WithoutOne(Apply(s, f), j);
    assert Apply(s, f)[..j] + Apply(s, f)[j + 1..] == Apply(s[..j] + s[j + 1..], f);
    assert Apply(s, f)[j] == f(s[j]) && f(s[j]) in Apply(s, f);
  }

  ghost predicate Injective<T(!new), U>(f: T -> U) {
    forall x, y :: f(x) == f(y) ==> x == y
  }

  lemma ApplyToRest<T, U>(s: seq<T>, f: T -> U, j: nat)
    requires j < |s|
    ensures Apply(s[..j] + s[j + 1..], f) == Apply(s, f)[..j] + Apply(s, f)[j + 1..]
  {
  }

  /** The function tells the elements of the sequence apart. */
  ghost predicate InjectiveOn<T(!new), U>(s: seq<T>, f: T -> U) {
    forall x, y :: x in s && y in s && f(x) == f(y) ==> x == y
  }

  /** A function that tells the elements apart keeps different collections different. */
  lemma {:induction false} ApplyInjective<T(!new), U>(s: seq<T>, t: seq<T>, f: T -> U)
    requires InjectiveOn(s + t, f) && multiset(Apply(s, f)) == multiset(Apply(t, f))
    ensures multiset(s) == multiset(t)
    decreases |s|
  {
    if s == [] {
      MembersOfMultiset(Apply(s, f), Apply(t, f));
    } else {
      var j := SameImageElsewhere(s, t, f);
      RestsAreMembers(s, t, j);
      ApplyInjective(s[..0] + s[1..], t[..j] + t[j + 1..], f);
      ReinsertOne(s, t, 0, j);
    }
  }

  lemma RestsAreMembers<T>(s: seq<T>, t: seq<T>, j: nat)
    requires s != [] && j < |t|
    ensures forall x :: x in (s[..0] + s[1..]) + (t[..j] + t[j + 1..]) ==> x in s + t
  {
  }

  lemma SameImageElsewhere<T(!new), U>(s: seq<T>, t: seq<T>, f: T -> U) returns (j: nat)
    requires InjectiveOn(s + t, f) && s != [] && multiset(Apply(s, f)) == multiset(Apply(t, f))
    ensures j < |t| && s[0] == t[j]
    ensures multiset(Apply(s[..0] + s[1..], f)) == multiset(Apply(t[..j] + t[j + 1..], f))
  {
    j := FirstElsewhere(Apply(s, f), Apply(t, f));
    ApplyToRest(s, f, 0);
    ApplyToRest(t, f, j);
    assert f(t[j]) == f(s[0]);
    assert s[0] in s + t && t[j] in s + t;
  }

  lemma ReinsertOne<T>(s: seq<T>, t: seq<T>, i: nat, j: nat)
    requires i < |s| && j < |t| && s[i] == t[j]
    requires multiset(s[..i] + s[i + 1..]) == multiset(t[..j] + t[j + 1..])
    ensures multiset(s) == multiset(t)
  {
    assert s == s[..i] + ([s[i]] + s[i + 1..]) && t == t[..j] + ([t[j]] + t[j + 1..]);
    MultisetOfThree(s[..i], [s[i]], s[i + 1..]);
    MultisetOfThree(t[..j], [t[j]], t[j + 1..]);
  }

  /** sum(f(x) for x in s). */
  function SumOver<T>(s: seq<T>, f: T -> nat): nat {
    if s == [] then 0 else SumOver(s[..|s| - 1], f) + f(s[|s| - 1])
  }

  lemma {:induction false} SumOverSplits<T>(s: seq<T>, t: seq<T>, f: T -> nat)
    ensures SumOver(s + t, f) == SumOver(s, f) + SumOver(t, f)
  {
    if t == [] {
      assert s + t == s;
    } else {
      assert (s + t)[..|s + t| - 1] == s + t[..|t| - 1];
      SumOverSplits(s, t[..|t| - 1], f);
    }
  }

  lemma SumOverWithoutOne<T>(s: seq<T>, f: T -> nat, j: nat)
    requires j < |s|
    ensures SumOver(s, f) == SumOver(s[..j] + s[j + 1..], f) + f(s[j])
  {
    var front, one, back := s[..j], [s[j]], s[j + 1..];
    assert s == front + (one + back);
    SumOverSplits(front, one + back, f);
    SumOverSplits(one, back, f);
    SumOverSplits(front, back, f);
    assert one[..0] == [];
  }

  lemma {:induction false} SumOverIgnoresOrder<T>(s: seq<T>, t: seq<T>, f: T -> nat)
    requires multiset(s) == multiset(t)
    ensures SumOver(s, f) == SumOver(t, f)
    decreases |s|
  {
    if s == [] {
      MembersOfMultiset(s, t);
    } else {
      var j := FirstElsewhere(s, t);
      var s', t' := s[..0] + s[1..], t[..j] + t[j + 1..];
      SumOverIgnoresOrder(s', t', f);
      SumOverWithoutOne(s, f, 0);
      SumOverWithoutOne(t, f, j);
    }
  }

  /** `[y for x in s for y in f(x)]`. */
  function Flat<T, U>(s: seq<T>, f: T -> seq<U>): seq<U> {
    if s == [] then [] else Flat(s[..|s| - 1], f) + f(s[|s| - 1])
  }

  lemma {:induction false} FlatSplits<T, U>(s: seq<T>, t: seq<T>, f: T -> seq<U>)
    ensures Flat(s + t, f) == Flat(s, f) + Flat(t, f)
  {
    if t == [] {
      assert s + t == s;
    } else {
      assert (s + t)[..|s + t| - 1] == s + t[..|t| - 1];
      FlatSplits(s, t[..|t| - 1], f);
    }
  }

  lemma FlatAround<T, U>(front: seq<T>, x: T, back: seq<T>, f: T -> seq<U>)
    ensures multiset(Flat(front + ([x] + back), f)) == multiset(Flat(front + back, f)) + multiset(f(x))
  {
    FlatSplits(front, [x] + back, f);
    FlatSplits([x], back, f);
    FlatSplits(front, back, f);
    assert [x][..0] == [];
    assert Flat([x], f) == f(x);
    MultisetOfThree(Flat(front, f), Flat([x], f), Flat(back, f));
  }

  lemma FlatWithoutOne<T, U>(s: seq<T>, f: T -> seq<U>, j: nat)
    requires j < |s|
    ensures multiset(Flat(s, f)) == multiset(Flat(s[..j] + s[j + 1..], f)) + multiset(f(s[j]))
  {
    SplitAround(s, j);
    FlatAround(s[..j], s[j], s[j + 1..], f);
  }

  lemma FlatAgreesWithOneMore<T, U>(s: seq<T>, t: seq<T>, f: T -> seq<U>, i: nat, j: nat)
    requires i < |s| && j < |t| && s[i] == t[j]
    requires multiset(Flat(s[..i] + s[i + 1..], f)) == multiset(Flat(t[..j] + t[j + 1..], f))
    ensures multiset(Flat(s, f)) == multiset(Flat(t, f))
  {
    FlatWithoutOne(s, f, i);
    FlatWithoutOne(t, f, j);
  }

  lemma {:induction false} FlatIgnoresOrder<T, U>(s: seq<T>, t: seq<T>, f: T -> seq<U>)
    requires multiset(s) == multiset(t)
    ensures multiset(Flat(s, f)) == multiset(Flat(t, f))
    decreases |s|
  {
    if s == [] {
      MembersOfMultiset(s, t);
    } else {
      var j := FirstElsewhere(s, t);
      FlatIgnoresOrder(s[..0] + s[1..], t[..j] + t[j + 1..], f);
      FlatAgreesWithOneMore(s, t, f, 0, j);
    }
  }

  lemma {:induction false} FlatAlike<T, U>(s: seq<T>, f: T -> seq<U>, g: T -> seq<U>)
    requires forall x :: x in s ==> multiset(f(x)) == multiset(g(x))
    ensures multiset(Flat(s, f)) == multiset(Flat(s, g))
  {
    if s != [] {
      var front, last := s[..|s| - 1], s[|s| - 1];
      assert s == front + [last];
      FlatAlike(front, f, g);
    }
  }

  lemma {:induction false} FlatMembers<T, U>(s: seq<T>, f: T -> seq<U>, y: U)
    ensures y in Flat(s, f) <==> exists x :: x in s && y in f(x)
  {
    if s != [] {
      var front, last := s[..|s| - 1], s[|s| - 1];
      assert s == front + [last];
      FlatMembers(front, f, y);
    }
  }

  lemma Regroup<T>(a: seq<T>, b: seq<T>, c: seq<T>)
    ensures a + (b + c) == (a + b) + c
  {
  }

  function Min(x: int, y: int): int { if x < y then x else y }

  /** Python's `s[:k]`; a negative bound counts from the end. */
  function Slice<T>(s: seq<T>, k: int): seq<T> {
    if k < 0 then (if |s| + k <= 0 then [] else s[..|s| + k])
    else if k <= |s| then s[..k] else s
  }

  // ---- repetitions -----------------------------------------------------------------

  lemma DistinctOfMultiset<T>(s: seq<T>, t: seq<T>)
    requires multiset(s) == multiset(t) && Distinct(t)
    ensures Distinct(s) && |s| == |t| && forall x :: x in s <==> x in t
  {
    MembersOfMultiset(s, t);
    forall i, j | 0 <= i < j < |s| ensures s[i] != s[j] {
      MultiplicityOfDistinct(t, s[i]);
      if s[i] == s[j] { TwoOccurrences(s, i, j); }
    }
  }

  lemma TwoOccurrences<T>(s: seq<T>, i: nat, j: nat)
    requires i < j < |s| && s[i] == s[j]
    ensures multiset(s)[s[i]] >= 2
  {
    assert s == s[..j] + [s[j]] + s[j + 1..];
    assert s[..j][i] in s[..j];
  }

  lemma {:induction false} MultiplicityOfDistinct<T>(t: seq<T>, x: T)
    requires Distinct(t)
    ensures multiset(t)[x] <= 1
  {
    if t != [] {
      assert t == [t[0]] + t[1..];
      MultiplicityOfDistinct(t[1..], x);
      if t[0] == x { assert x !in t[1..]; }
    }
  }

  // ---- counting by position -----------------------------------------------------------------

  /** A filter keeps as many elements as there are positions that satisfy it. */
  lemma {:induction false} FilterCounts<T>(s: seq<T>, p: T -> bool, at: set<nat>)
    requires forall i: nat :: i in at <==> i < |s| && p(s[i])
    ensures |Filter(s, p)| == |at|
  {
    if s == [] {
      assert at == {};
    } else {
      var n := |s| - 1;
      var front := s[..n];
      assert s == front + [s[n]];
      var earlier := at - {n};
      forall i: nat ensures i in earlier <==> i < |front| && p(front[i]) {}
      FilterSnoc(front, s[n], p);
      FilterCounts(front, p, earlier);
      assert n in at ==> at == earlier + {n};
      assert n !in at ==> at == earlier;
    }
  }

  /** A filter reads off the positions that satisfy it, in order. */
  lemma {:induction false} FilterPositions<T>(s: seq<T>, p: T -> bool) returns (at: seq<nat>)
    ensures ReadsOff(Filter(s, p), s, at) && forall i: nat :: i in at <==> i < |s| && p(s[i])
  {
    if s == [] {
      at := [];
    } else {
      var n := |s| - 1;
      var front := s[..n];
      assert s == front + [s[n]];
      FilterSnoc(front, s[n], p);
      at := FilterPositions(front, p);
      ReadsOffLonger(Filter(front, p), front, s, at);
      if p(s[n]) {
        ReadsOffOneMore(Filter(front, p), front, s, at);
        at := at + [n];
      } else {
        assert Filter(s, p) == Filter(front, p);
      }
    }
  }

  /** The elements stand at these positions, from left to right. */
  ghost predicate ReadsOff<T>(picked: seq<T>, s: seq<T>, at: seq<nat>) {
    && |at| == |picked| && (forall k :: 0 <= k < |at| ==> at[k] < |s| && picked[k] == s[at[k]])
    && forall j, k :: 0 <= j < k < |at| ==> at[j] < at[k]
  }

  lemma ReadsOffLonger<T>(picked: seq<T>, front: seq<T>, s: seq<T>, at: seq<nat>)
    requires ReadsOff(picked, front, at) && front <= s
    ensures ReadsOff(picked, s, at)
  {
  }

  lemma ReadsOffOneMore<T>(picked: seq<T>, front: seq<T>, s: seq<T>, at: seq<nat>)
    requires ReadsOff(picked, front, at) && |s| == |front| + 1 && front <= s
    ensures ReadsOff(picked + [s[|front|]], s, at + [|front|])
  {
  }

  /** Two lists without repetitions and with the same elements are rearrangements of each other. */
  lemma SameElements<T>(s: seq<T>, t: seq<T>)
    requires Distinct(s) && Distinct(t) && forall x :: x in s <==> x in t
    ensures multiset(s) == multiset(t)
  {
    forall x ensures multiset(s)[x] == multiset(t)[x] {
      MultiplicityOfDistinct(s, x);
      MultiplicityOfDistinct(t, x);
      assert x in multiset(s) <==> x in s;
      assert x in multiset(t) <==> x in t;
    }
  }

  function Elements<T(==)>(s: seq<T>): set<T> {
    set x | x in s
  }

  lemma DistinctSnoc<T>(s: seq<T>, x: T)
    ensures Distinct(s + [x]) <==> Distinct(s) && x !in s
  {
    if Distinct(s + [x]) {
      forall i, j | 0 <= i < j < |s| ensures s[i] != s[j] {
        assert (s + [x])[i] == s[i] && (s + [x])[j] == s[j];
      }
      forall i | 0 <= i < |s| ensures s[i] != x { assert (s + [x])[i] == s[i] && (s + [x])[|s|] == x; }
    }
    if Distinct(s) && x !in s {
      forall i, j | 0 <= i < j < |s| + 1 ensures (s + [x])[i] != (s + [x])[j] { assert s[i] in s; }
    }
  }

  lemma DistinctCons<T>(x: T, rest: seq<T>)
    ensures Distinct([x] + rest) <==> Distinct(rest) && x !in rest
  {
    var s := [x] + rest;
    if Distinct(rest) && x !in rest {
      forall i, j | 0 <= i < j < |s| ensures s[i] != s[j] {
        assert s[j] == rest[j - 1] && rest[j - 1] in rest;
        if i > 0 { assert s[i] == rest[i - 1]; }
      }
    }
    if Distinct(s) {
      forall j | 0 <= j < |rest| ensures rest[j] != x { assert s[0] == x && rest[j] == s[j + 1]; }
      forall i, j | 0 <= i < j < |rest| ensures rest[i] != rest[j] { assert rest[i] == s[i + 1] && rest[j] == s[j + 1]; }
    }
  }

  /** A sequence has as many elements as positions exactly when it has no repetitions. */
  lemma {:induction false} ElementsSize<T>(s: seq<T>)
    ensures |Elements(s)| <= |s| && (|Elements(s)| == |s| <==> Distinct(s))
  {
    if s != [] {
      var rest := s[1..];
      assert s == [s[0]] + rest;
      ElementsSize(rest);
      DistinctCons(s[0], rest);
      assert Elements(s) == Elements(rest) + {s[0]};
    }
  }

  // ---- strings ------------------------------------------------------------

  predicate StringLe(a: string, b: string) {
    a == [] || (b != [] && (a[0] < b[0] || (a[0] == b[0] && StringLe(a[1..], b[1..]))))
  }

  lemma {:induction false} StringLeTotal(a: string, b: string)
    ensures StringLe(a, b) || StringLe(b, a)
  {
    if a != [] && b != [] && a[0] == b[0] {
      StringLeTotal(a[1..], b[1..]);
    }
  }

  lemma {:induction false} StringLeTransitive(a: string, b: string, c: string)
    requires StringLe(a, b) && StringLe(b, c)
    ensures StringLe(a, c)
  {
    if a != [] && a[0] == b[0] && b[0] == c[0] {
      StringLeTransitive(a[1..], b[1..], c[1..]);
    }
  }

  lemma {:induction false} StringLeAntisymmetric(a: string, b: string)
    requires StringLe(a, b) && StringLe(b, a)
    ensures a == b
  {
    if a != [] && b != [] {
      StringLeAntisymmetric(a[1..], b[1..]);
      assert a == [a[0]] + a[1..] && b == [b[0]] + b[1..];
    }
  }

  /** A prefix comes first; otherwise the first difference decides. */
  lemma {:induction false} StringLeMeans(a: string, b: string)
    ensures StringLe(a, b) <==> a <= b || exists k :: 0 <= k < |a| && k < |b| && a[..k] == b[..k] && a[k] < b[k]
  {
    if a != "" && b != "" {
      if a[0] == b[0] {
        StringLeMeans(a[1..], b[1..]);
        if k :| 0 <= k < |a[1..]| && k < |b[1..]| && a[1..][..k] == b[1..][..k] && a[1..][k] < b[1..][k] {
          assert a[..k + 1] == [a[0]] + a[1..][..k] && b[..k + 1] == [b[0]] + b[1..][..k];
        }
        if k :| 0 <= k < |a| && k < |b| && a[..k] == b[..k] && a[k] < b[k] {
          assert a[1..][..k - 1] == a[..k][1..] && b[1..][..k - 1] == b[..k][1..];
        }
        assert a == [a[0]] + a[1..] && b == [b[0]] + b[1..];
      } else {
        assert a[..0] == b[..0];
      }
    }
  }

  lemma StringLeIsOrder()
    ensures TotalPreorder(StringLe)
    ensures forall a, b :: StringLe(a, b) && StringLe(b, a) ==> a == b
  {
    forall a, b ensures StringLe(a, b) || StringLe(b, a) { StringLeTotal(a, b); }
    forall a, b, c | StringLe(a, b) && StringLe(b, c) ensures StringLe(a, c) { StringLeTransitive(a, b, c); }
    forall a, b | StringLe(a, b) && StringLe(b, a) ensures a == b { StringLeAntisymmetric(a, b); }
  }

  // ---- sets of strings, listed in order ----------------------------------------

  predicate IsLeast(s: set<string>, x: string) {
    x in s && forall y :: y in s ==> StringLe(x, y)
  }

  lemma LeastOfTwo(s: set<string>, p: string, q: string)
    requires p in s && IsLeast(s - {p}, q)
    ensures IsLeast(s, if StringLe(p, q) then p else q)
  {
    StringLeTotal(p, q);
    StringLeTotal(p, p);
    var x := if StringLe(p, q) then p else q;
    forall y | y in s ensures StringLe(x, y) {
      if y != p && x == p { StringLeTransitive(p, q, y); }
    }
  }

  lemma {:induction false} LeastExists(s: set<string>)
    requires s != {}
    ensures exists x :: IsLeast(s, x)
  {
    var p :| p in s;
    if s == {p} {
      StringLeTotal(p, p);
      assert IsLeast(s, p);
    } else {
      LeastExists(s - {p});
      var q :| IsLeast(s - {p}, q);
      LeastOfTwo(s, p, q);
    }
  }

  /** The least string of a set; the order makes the choice unique. */
  function Least(s: set<string>): (x: string)
    requires s != {}
    ensures x in s && forall y :: y in s ==> StringLe(x, y)
  {
    LeastExists(s);
    StringLeIsOrder();
    var x :| IsLeast(s, x);
    x
  }

  /** `sorted(set)`: every element once, in order. */
  function Listing(s: set<string>): (r: seq<string>)
    ensures forall x :: x in r <==> x in s
    ensures |r| == |s|
  {
    if s == {} then []
    else
      var x := Least(s);
      [x] + Listing(s - {x})
  }

  lemma ConsInOrder<T>(x: T, rest: seq<T>, le: (T, T) -> bool)
    requires Distinct(rest) && Sorted(rest, le)
    requires forall k :: 0 <= k < |rest| ==> rest[k] != x && le(x, rest[k])
    ensures Distinct([x] + rest) && Sorted([x] + rest, le)
  {
  }

  lemma {:induction false} ListingInOrder(s: set<string>)
    ensures Distinct(Listing(s)) && Sorted(Listing(s), StringLe)
    decreases |s|
  {
    if s != {} {
      var x := Least(s);
      var rest := Listing(s - {x});
      ListingInOrder(s - {x});
      forall k | 0 <= k < |rest| ensures rest[k] != x && StringLe(x, rest[k]) {
        assert rest[k] in rest;
      }
      ConsInOrder(x, rest, StringLe);
    }
  }

  lemma DistinctSameElements<T>(s: seq<T>, t: seq<T>)
    requires Distinct(s) && Distinct(t) && forall x :: x in s <==> x in t
    ensures multiset(s) == multiset(t)
  {
    forall x ensures multiset(s)[x] == multiset(t)[x] {
      MultiplicityOfDistinct(s, x);
      MultiplicityOfDistinct(t, x);
      assert x in s <==> x in t;
      assert x in multiset(s) <==> x in s;
      assert x in multiset(t) <==> x in t;
    }
  }

  /** A set of strings has one listing in order. */
  lemma ListingUnique(s: set<string>, t: seq<string>)
    requires Distinct(t) && Sorted(t, StringLe) && forall x :: x in t <==> x in s
    ensures t == Listing(s)
  {
    ListingInOrder(s);
    DistinctSameElements(Listing(s), t);
    StringLeIsOrder();
    SortedUnique(Listing(s), t, StringLe);
  }
}
