/** The per-trajectory placeholder table: which number a redacted value gets, and the string it
    is rendered as. */
module Placeholders {

  /** A detector class and the text it matched. */
  type Key = (string, string)

  // ---- rendering -----------------------------------------------------------------------

  function Digit(d: nat): char
    requires d < 10
  {
    "0123456789"[d]
  }

  function Decimal(n: nat): (s: string)
    ensures |s| >= 1
  {
    if n < 10 then [Digit(n)] else Decimal(n / 10) + [Digit(n % 10)]
  }

  /** A typed placeholder, and the string it is shown as. */
  datatype Placeholder = Placeholder(cls: string, index: nat) {
    function Text(): string {
      "<" + cls + "_" + Decimal(index) + ">"
    }
  }

  lemma DigitInjective(d: nat, e: nat)
    requires d < 10 && e < 10 && Digit(d) == Digit(e)
    ensures d == e
  {
  }

  lemma {:induction false} DecimalInjective(m: nat, n: nat)
    requires Decimal(m) == Decimal(n)
    ensures m == n
  {
    var s := Decimal(m);
    assert s[|s| - 1] == Digit(m % 10) == Digit(n % 10);
    DigitInjective(m % 10, n % 10);
    assert |Decimal(m)| >= 2 <==> m >= 10;
    assert |Decimal(n)| >= 2 <==> n >= 10;
    if m >= 10 {
      assert s[..|s| - 1] == Decimal(m / 10) == Decimal(n / 10);
      DecimalInjective(m / 10, n / 10);
    }
  }

  /** What a string of digits says. */
  function Numeral(s: string): int {
    if s == "" then 0 else 10 * Numeral(s[..|s| - 1]) + (s[|s| - 1] as int - '0' as int)
  }

  /** The number can be read back, in digits and without leading zeros. */
  lemma {:induction false} DecimalReadsBack(n: nat)
    ensures Numeral(Decimal(n)) == n
    ensures forall c :: c in Decimal(n) ==> '0' <= c <= '9'
    ensures n > 0 ==> Decimal(n)[0] != '0'
  {
    assert forall d: nat :: d < 10 ==> Digit(d) as int == '0' as int + d;
    if n < 10 {
      assert Decimal(n) == [Digit(n)] && [Digit(n)][..0] == "";
    } else {
      DecimalReadsBack(n / 10);
      var s := Decimal(n);
      assert s[..|s| - 1] == Decimal(n / 10) && s[|s| - 1] == Digit(n % 10);
    }
  }

  lemma {:induction false} DecimalHasNoUnderscore(n: nat)
    ensures '_' !in Decimal(n)
  {
    if n >= 10 { DecimalHasNoUnderscore(n / 10); }
  }

  lemma LastUnderscore(a: string, x: string)
    requires '_' !in x
    ensures (a + "_" + x)[|a|] == '_'
    ensures forall k :: |a| < k < |a + "_" + x| ==> (a + "_" + x)[k] != '_'
  {
    forall k | |a| < k < |a + "_" + x| ensures (a + "_" + x)[k] != '_' {
      assert (a + "_" + x)[k] == x[k - |a| - 1];
    }
  }

  /** The last underscore separates the class from the number, whatever the class contains. */
  lemma SplitAtLastUnderscore(a: string, x: string, b: string, y: string)
    requires a + "_" + x == b + "_" + y && '_' !in x && '_' !in y
    ensures a == b && x == y
  {
    var s := a + "_" + x;
    LastUnderscore(a, x);
    LastUnderscore(b, y);
    assert |a| == |b|;
    assert a == s[..|a|] && b == s[..|b|];
    assert x == s[|a| + 1..] && y == s[|b| + 1..];
  }

  lemma TextInjective(p: Placeholder, q: Placeholder)
    requires p.Text() == q.Text()
    ensures p == q
  {
    var s, t := p.Text(), q.Text();
    assert s[1..|s| - 1] == p.cls + "_" + Decimal(p.index);
    assert t[1..|t| - 1] == q.cls + "_" + Decimal(q.index);
    DecimalHasNoUnderscore(p.index);
    DecimalHasNoUnderscore(q.index);
    SplitAtLastUnderscore(p.cls, Decimal(p.index), q.cls, Decimal(q.index));
    DecimalInjective(p.index, q.index);
  }

  // ---- the table as a function of everything replaced so far ------------------------------

  datatype Table = Table(numbers: map<Key, nat>, nextIndex: map<string, nat>, counts: map<string, nat>)

  function Lookup(m: map<string, nat>, cls: string): nat {
    if cls in m then m[cls] else 0
  }

  /** One replacement: a new key takes the next number of its class, and the class count goes up. */
  function Add(t: Table, key: Key): Table {
    var index := Lookup(t.nextIndex, key.0) + 1;
    var counts := t.counts[key.0 := Lookup(t.counts, key.0) + 1];
    if key in t.numbers then t.(counts := counts)
    else Table(t.numbers[key := index], t.nextIndex[key.0 := index], counts)
  }

  /** `log` lists the replacements in the order they were made. */
  function TableOf(log: seq<Key>): Table {
    if log == [] then Table(map[], map[], map[]) else Add(TableOf(log[..|log| - 1]), log[|log| - 1])
  }

  lemma {:induction false} AssignedKeys(log: seq<Key>)
    ensures forall k :: k in TableOf(log).numbers <==> k in log
  {
    if log != [] {
      var front, last := log[..|log| - 1], log[|log| - 1];
      AssignedKeys(front);
      assert log == front + [last];
    }
  }

  /** The placeholder of a replaced key, given the whole log. */
  function PlaceholderOf(log: seq<Key>, key: Key): Placeholder
    requires key in log
  {
    AssignedKeys(log);
    Placeholder(key.0, TableOf(log).numbers[key])
  }

  // ---- what the numbers are ------------------------------------------------------------------

  ghost function DistinctOf(log: seq<Key>, cls: string): set<Key> {
    set k | k in log && k.0 == cls
  }

  function First(log: seq<Key>, key: Key): (i: nat)
    requires key in log
    ensures i < |log| && log[i] == key && key !in log[..i]
  {
    if log[0] == key then 0
    else
      assert log == [log[0]] + log[1..];
      var j := First(log[1..], key);
      assert log[..j + 1] == [log[0]] + log[1..][..j];
      j + 1
  }

  lemma DistinctGrows(front: seq<Key>, last: Key, cls: string)
    ensures DistinctOf(front + [last], cls)
         == if last.0 == cls then DistinctOf(front, cls) + {last} else DistinctOf(front, cls)
  {
  }

  /** The next number of a class counts its distinct values. */
  lemma {:induction false} NextCountsDistinct(log: seq<Key>, cls: string)
    ensures Lookup(TableOf(log).nextIndex, cls) == |DistinctOf(log, cls)|
  {
    if log != [] {
      var front, last := log[..|log| - 1], log[|log| - 1];
      NextCountsDistinct(front, cls);
      AssignedKeys(front);
      assert log == front + [last];
      DistinctGrows(front, last, cls);
      if last in front && last.0 == cls {
        assert DistinctOf(front, cls) + {last} == DistinctOf(front, cls);
      }
    }
  }

  lemma NotBefore(log: seq<Key>, key: Key, i: nat)
    requires i <= |log| && key !in log[..i]
    ensures forall k :: 0 <= k < i ==> log[k] != key
  {
    forall k | 0 <= k < i ensures log[k] != key {
      assert log[k] in log[..i];
    }
  }

  lemma FirstIsUnique(log: seq<Key>, key: Key, i: nat)
    requires i < |log| && log[i] == key && key !in log[..i]
    ensures First(log, key) == i
  {
    NotBefore(log, key, i);
    NotBefore(log, key, First(log, key));
  }

  lemma FirstIsStable(log: seq<Key>, more: seq<Key>, key: Key)
    requires key in log
    ensures key in log + more && First(log + more, key) == First(log, key)
  {
    assert (log + more)[..First(log, key)] == log[..First(log, key)];
    FirstIsUnique(log + more, key, First(log, key));
  }

  /** Once made, an assignment never changes. */
  lemma {:induction false} AssignmentIsStable(log: seq<Key>, more: seq<Key>, key: Key)
    requires key in log
    ensures key in log + more && PlaceholderOf(log + more, key) == PlaceholderOf(log, key)
    ensures key in TableOf(log).numbers && key in TableOf(log + more).numbers
    ensures TableOf(log + more).numbers[key] == TableOf(log).numbers[key]
    decreases |more|
  {
    AssignedKeys(log);
    if more == [] {
      assert log + more == log;
    } else {
      var front, last := more[..|more| - 1], more[|more| - 1];
      AssignmentIsStable(log, front, key);
      AssignedKeys(log + front);
      assert (log + more)[..|log + more| - 1] == log + front;
    }
  }

  /** A value's number is how many distinct values of its class had been met when it first was. */
  lemma {:induction false} NumberIsRankOfFirstEncounter(log: seq<Key>, key: Key)
    requires key in log
    ensures key in TableOf(log).numbers
    ensures TableOf(log).numbers[key] == |DistinctOf(log[..First(log, key) + 1], key.0)|
  {
    var front, last := log[..|log| - 1], log[|log| - 1];
    assert log == front + [last];
    if key in front {
      NumberIsRankOfFirstEncounter(front, key);
      OlderNumber(front, last, key);
    } else {
      NewestNumber(front, key);
    }
  }

  /** A key met before keeps its number and its first encounter. */
  lemma OlderNumber(front: seq<Key>, last: Key, key: Key)
    requires key in front
    ensures var log := front + [last];
      && key in TableOf(front).numbers && key in TableOf(log).numbers
      && TableOf(log).numbers[key] == TableOf(front).numbers[key]
      && log[..First(log, key) + 1] == front[..First(front, key) + 1]
  {
    AssignmentIsStable(front, [last], key);
    FirstIsStable(front, [last], key);
  }

  /** A key met for the first time gets the next number of its class. */
  lemma NewestNumber(front: seq<Key>, key: Key)
    requires key !in front
    ensures var log := front + [key];
      && key in TableOf(log).numbers && First(log, key) == |front| && log[..|front| + 1] == log
      && TableOf(log).numbers[key] == |DistinctOf(log, key.0)|
  {
    var log := front + [key];
    TableGrows(front, key);
    AssignedKeys(front);
    assert log[..|front|] == front;
    FirstIsUnique(log, key, |front|);
    NextCountsDistinct(front, key.0);
    DistinctGrows(front, key, key.0);
    assert key !in DistinctOf(front, key.0);
  }

  lemma RankGrows(log: seq<Key>, i: nat, j: nat, cls: string)
    requires i < j <= |log|
    ensures DistinctOf(log[..i], cls) <= DistinctOf(log[..j], cls)
    ensures |DistinctOf(log[..i], cls)| <= |DistinctOf(log[..j], cls)|
  {
    assert log[..i] == log[..j][..i];
    SubsetSize(DistinctOf(log[..i], cls), DistinctOf(log[..j], cls));
  }

  lemma SubsetSize<T>(a: set<T>, b: set<T>)
    requires a <= b
    ensures |a| <= |b| && (|a| == |b| ==> a == b)
  {
    assert b == a + (b - a);
    assert |b| == |a| + |b - a|;
  }

  /** Numbers of one class follow the order of first encounter, hence are distinct. */
  lemma NumbersFollowFirstEncounter(log: seq<Key>, key: Key, other: Key)
    requires key in log && other in log && key.0 == other.0
    ensures key in TableOf(log).numbers && other in TableOf(log).numbers
    ensures TableOf(log).numbers[key] < TableOf(log).numbers[other] <==> First(log, key) < First(log, other)
    ensures TableOf(log).numbers[key] == TableOf(log).numbers[other] <==> key == other
  {
    NumberIsRankOfFirstEncounter(log, key);
    NumberIsRankOfFirstEncounter(log, other);
    if First(log, key) < First(log, other) {
      EarlierHasSmallerRank(log, key, other);
    } else if First(log, other) < First(log, key) {
      EarlierHasSmallerRank(log, other, key);
    }
  }

  lemma EarlierHasSmallerRank(log: seq<Key>, key: Key, other: Key)
    requires key in log && other in log && key.0 == other.0 && First(log, key) < First(log, other)
    ensures |DistinctOf(log[..First(log, key) + 1], key.0)| < |DistinctOf(log[..First(log, other) + 1], key.0)|
  {
    NotYet(log, First(log, key) + 1, First(log, other), other);
    RankGrowsWith(log, First(log, key) + 1, First(log, other) + 1, other);
  }

  lemma NotYet(log: seq<Key>, i: nat, j: nat, other: Key)
    requires i <= j < |log| && log[j] == other && other !in log[..j]
    ensures other in log[..j + 1] && other !in log[..i]
  {
    assert log[..j + 1][j] == other;
    assert log[..i] == log[..j][..i];
  }

  lemma RankGrowsWith(log: seq<Key>, i: nat, j: nat, other: Key)
    requires i < j <= |log| && other in log[..j] && other !in log[..i]
    ensures |DistinctOf(log[..i], other.0)| < |DistinctOf(log[..j], other.0)|
  {
    RankGrows(log, i, j, other.0);
    var early, late := DistinctOf(log[..i], other.0), DistinctOf(log[..j], other.0);
    assert other in late && other !in early;
    SubsetSize(early, late);
  }

  /** The numbers of a class are exactly 1 to the next number. */
  lemma {:induction false} NumbersAreDense(log: seq<Key>, cls: string, n: nat)
    ensures 1 <= n <= Lookup(TableOf(log).nextIndex, cls)
       <==> exists key :: key in TableOf(log).numbers && key.0 == cls && TableOf(log).numbers[key] == n
  {
    if log != [] {
      var front, last := log[..|log| - 1], log[|log| - 1];
      var t, u := TableOf(front), TableOf(log);
      NumbersAreDense(front, cls, n);
      if last !in t.numbers && last.0 == cls {
        if n == Lookup(u.nextIndex, cls) {
          assert u.numbers[last] == n;
        } else {
          if 1 <= n <= Lookup(u.nextIndex, cls) {
            var key :| key in t.numbers && key.0 == cls && t.numbers[key] == n;
            assert u.numbers[key] == n;
          }
          if key :| key in u.numbers && key.0 == cls && u.numbers[key] == n {
            assert key != last && t.numbers[key] == n;
          }
        }
      } else {
        if key :| key in t.numbers && key.0 == cls && t.numbers[key] == n {
          assert u.numbers[key] == n;
        }
        if key :| key in u.numbers && key.0 == cls && u.numbers[key] == n {
          assert t.numbers[key] == n;
        }
      }
    }
  }

  /** Two replacements show the same string if and only if they replaced the same class and value. */
  lemma SamePlaceholderIffSameValue(log: seq<Key>, key: Key, other: Key)
    requires key in log && other in log
    ensures PlaceholderOf(log, key).Text() == PlaceholderOf(log, other).Text() <==> key == other
  {
    AssignedKeys(log);
    if PlaceholderOf(log, key).Text() == PlaceholderOf(log, other).Text() {
      TextInjective(PlaceholderOf(log, key), PlaceholderOf(log, other));
      NumbersFollowFirstEncounter(log, key, other);
    }
  }

  lemma AddCounts(t: Table, key: Key, cls: string)
    ensures var u := Add(t, key);
      && (cls in u.counts <==> cls in t.counts || key.0 == cls)
      && (cls in u.counts ==> u.counts[cls] == (if cls in t.counts then t.counts[cls] else 0) + if key.0 == cls then 1 else 0)
  {
  }

  lemma OneMorePosition(at: set<nat>, n: nat)
    ensures at != {} <==> at - {n} != {} || n in at
    ensures |at| == |at - {n}| + if n in at then 1 else 0
  {
    assert n in at ==> at == (at - {n}) + {n};
    assert n !in at ==> at == at - {n};
  }

  lemma {:induction false} CountsGrow(log: seq<Key>, cls: string, at: set<nat>)
    requires forall i: nat :: i in at <==> i < |log| && log[i].0 == cls
    ensures cls in TableOf(log).counts <==> at != {}
    ensures cls in TableOf(log).counts ==> TableOf(log).counts[cls] == |at|
  {
    if log == [] {
      assert at == {};
    } else {
      var n := |log| - 1;
      var front := log[..n];
      forall i: nat ensures i in at - {n} <==> i < |front| && front[i].0 == cls {}
      CountsGrow(front, cls, at - {n});
      AddCounts(TableOf(front), log[n], cls);
      OneMorePosition(at, n);
    }
  }

  /** The reported counts are the numbers of replacements, class by class. */
  lemma CountsAreReplacements(log: seq<Key>, cls: string)
    ensures var at := set i: nat | i < |log| && log[i].0 == cls;
      && (cls in TableOf(log).counts <==> at != {})
      && (cls in TableOf(log).counts ==> TableOf(log).counts[cls] == |at|)
  {
    CountsGrow(log, cls, set i: nat | i < |log| && log[i].0 == cls);
  }

  lemma TableGrows(log: seq<Key>, key: Key)
    ensures TableOf(log + [key]) == Add(TableOf(log), key)
  {
    assert (log + [key])[..|log + [key]| - 1] == log;
  }

  function Rendered(numbers: map<Key, nat>): map<Key, Placeholder> {
    map key | key in numbers :: Placeholder(key.0, numbers[key])
  }

  lemma RenderedGrows(numbers: map<Key, nat>, key: Key, index: nat)
    ensures Rendered(numbers[key := index]) == Rendered(numbers)[key := Placeholder(key.0, index)]
  {
  }

  lemma RenderedIsPlaceholderOf(log: seq<Key>, key: Key)
    requires key in log
    ensures key in Rendered(TableOf(log).numbers) && Rendered(TableOf(log).numbers)[key] == PlaceholderOf(log, key)
  {
    AssignedKeys(log);
  }

  // ---- the state the program keeps -----------------------------------------------------------

  class RedactionState {
    var given: map<Key, Placeholder>
    var nextIndex: map<string, nat>
    var counts: map<string, nat>
    ghost var log: seq<Key>

    ghost predicate Valid()
      reads this
    {
      var t := TableOf(log);
      given == Rendered(t.numbers) && nextIndex == t.nextIndex && counts == t.counts
    }

    constructor ()
      ensures Valid() && log == []
    {
      given, nextIndex, counts, log := map[], map[], map[], [];
    }

    method PlaceholderFor(cls: string, value: string) returns (placeholder: Placeholder)
      requires Valid()
      modifies this
      ensures Valid() && log == old(log) + [(cls, value)]
      ensures placeholder == PlaceholderOf(log, (cls, value))
    {
      var key := (cls, value);
      TableGrows(log, key);
      if key !in given {
        var index := Lookup(nextIndex, cls) + 1;
        RenderedGrows(TableOf(log).numbers, key, index);
        nextIndex := nextIndex[cls := index];
        given := given[key := Placeholder(cls, index)];
      }
      counts := counts[cls := Lookup(counts, cls) + 1];
      log := log + [key];
      RenderedIsPlaceholderOf(log, key);
      placeholder := given[key];
    }
  }
}
