/** Content-addressed train/test splits. The hash and the canonical serialisation are
    parameters; where content addressing needs it the one is injective and the other without
    collisions at hand. */
module Splits {
  import opened Hashing
  import opened Ordering

  datatype Payload = Payload(domain: string, strategy: string, seed: int, train: seq<string>, test: seq<string>)

  datatype Split = Split(domain: string, strategy: string, seed: int, train: seq<string>, test: seq<string>, sha256: string)

  /** `encode` renders the canonical payload, `sha` hashes the bytes. */
  datatype Addressing = Addressing(encode: Payload -> string, sha: string -> string)

  /** The payload the address is taken over: both id lists sorted, the creation time left out. */
  function Canonical(domain: string, strategy: string, seed: int, train: seq<string>, test: seq<string>): Payload {
    Payload(domain, strategy, seed, Sort(train, StringLe), Sort(test, StringLe))
  }

  /** The text the address is the hash of. */
  function Encoded(a: Addressing, domain: string, strategy: string, seed: int, train: seq<string>, test: seq<string>): string {
    a.encode(Canonical(domain, strategy, seed, train, test))
  }

  function Address(a: Addressing, domain: string, strategy: string, seed: int, train: seq<string>, test: seq<string>): string {
    a.sha(Encoded(a, domain, strategy, seed, train, test))
  }

  /** The recorded address is that of the content. */
  predicate Verifies(a: Addressing, split: Split) {
    Address(a, split.domain, split.strategy, split.seed, split.train, split.test) == split.sha256
  }

  /** Among splits that verify, the address determines the content up to the order of the ids. */
  lemma AddressDeterminesContent(a: Addressing, s: Split, t: Split)
    requires Injective(a.encode)
    requires Digest(a.sha, iset{Encoded(a, s.domain, s.strategy, s.seed, s.train, s.test),
                                Encoded(a, t.domain, t.strategy, t.seed, t.train, t.test)})
    requires Verifies(a, s) && Verifies(a, t)
    ensures s.sha256 == t.sha256 <==>
      s.domain == t.domain && s.strategy == t.strategy && s.seed == t.seed
      && multiset(s.train) == multiset(t.train) && multiset(s.test) == multiset(t.test)
  {
    SortPermutes(s.train, StringLe);
    SortPermutes(t.train, StringLe);
    SortPermutes(s.test, StringLe);
    SortPermutes(t.test, StringLe);
    StringLeIsOrder();
    if multiset(s.train) == multiset(t.train) && multiset(s.test) == multiset(t.test) {
      SortIgnoresOrder(s.train, t.train, StringLe);
      SortIgnoresOrder(s.test, t.test, StringLe);
    }
  }

  datatype Built = Ok(split: Split) | TooFewTasks(distinct: nat)

  function Unique(taskIds: seq<string>): set<string> {
    set t | t in taskIds
  }

  ghost predicate Permutes(shuffle: seq<string> -> seq<string>) {
    forall pool :: multiset(shuffle(pool)) == multiset(pool)
  }

  lemma ShuffleKeepsLength(shuffle: seq<string> -> seq<string>, pool: seq<string>)
    requires Permutes(shuffle)
    ensures |shuffle(pool)| == |pool|
  {
    assert |multiset(shuffle(pool))| == |multiset(pool)|;
  }

  /** Samples a fresh split; `shuffle` is whatever permutation the seeded generator yields. */
  function Build(a: Addressing, domain: string, strategy: string, seed: int, taskIds: seq<string>,
                 trainSize: nat, testSize: nat, shuffle: seq<string> -> seq<string>): Built
    requires Permutes(shuffle)
  {
    var pool := Listing(Unique(taskIds));
    if |pool| < trainSize + testSize then TooFewTasks(|pool|)
    else
      ShuffleKeepsLength(shuffle, pool);
      var shuffled := shuffle(pool);
      Ok(SplitOf(a, domain, strategy, seed, shuffled[..trainSize], shuffled[trainSize..trainSize + testSize]))
  }

  function SplitOf(a: Addressing, domain: string, strategy: string, seed: int, trainIds: seq<string>, testIds: seq<string>): Split {
    var train, test := Sort(trainIds, StringLe), Sort(testIds, StringLe);
    Split(domain, strategy, seed, train, test, Address(a, domain, strategy, seed, train, test))
  }

  /** A built split verifies, has the requested sizes, draws both halves from the pool without
      repetition, and the halves are disjoint. */
  lemma BuiltSplitsAreSound(a: Addressing, domain: string, strategy: string, seed: int, taskIds: seq<string>,
                            trainSize: nat, testSize: nat, shuffle: seq<string> -> seq<string>)
    requires Permutes(shuffle)
    ensures var r := Build(a, domain, strategy, seed, taskIds, trainSize, testSize, shuffle);
      && (r.Ok? <==> trainSize + testSize <= |Unique(taskIds)|)
      && (r.Ok? ==>
            && Verifies(a, r.split)
            && |r.split.train| == trainSize && |r.split.test| == testSize
            && Distinct(r.split.train) && Distinct(r.split.test)
            && (forall t :: t in r.split.train ==> t in taskIds && t !in r.split.test)
            && (forall t :: t in r.split.test ==> t in taskIds))
  {
    var pool := Listing(Unique(taskIds));
    ListingInOrder(Unique(taskIds));
    var shuffled := shuffle(pool);
    assert multiset(shuffled) == multiset(pool);
    DistinctOfMultiset(shuffled, pool);
    if trainSize + testSize <= |pool| {
      HalvesFacts(shuffled, trainSize, testSize);
    }
  }

  /** Two consecutive stretches of a list without repetitions, each sorted. */
  lemma HalvesFacts(shuffled: seq<string>, trainSize: nat, testSize: nat)
    requires Distinct(shuffled) && trainSize + testSize <= |shuffled|
    ensures var train, test := Sort(shuffled[..trainSize], StringLe), Sort(shuffled[trainSize..trainSize + testSize], StringLe);
      && Distinct(train) && Distinct(test)
      && (forall t :: t in train ==> t in shuffled && t !in test)
      && (forall t :: t in test ==> t in shuffled)
  {
    var first, second := shuffled[..trainSize], shuffled[trainSize..trainSize + testSize];
    SortDistinct(first, StringLe);
    SortDistinct(second, StringLe);
    SortMembers(first, StringLe);
    SortMembers(second, StringLe);
  }

  /** What a build returns, in terms of the distinct ids in order: the number of them when they are too few;
      otherwise the first ids of the shuffled pool and those after them, both sorted, under their address. */
  lemma BuiltSplitSays(a: Addressing, domain: string, strategy: string, seed: int, taskIds: seq<string>, trainSize: nat,
                       testSize: nat, shuffle: seq<string> -> seq<string>, pool: seq<string>)
    requires Permutes(shuffle) && Distinct(pool) && Sorted(pool, StringLe) && forall t :: t in pool <==> t in taskIds
    ensures |shuffle(pool)| == |pool|
    ensures var r := Build(a, domain, strategy, seed, taskIds, trainSize, testSize, shuffle);
      if |pool| < trainSize + testSize then r == TooFewTasks(|pool|)
      else r.Ok? && IsSplitOf(a, domain, strategy, seed, shuffle(pool)[..trainSize],
                              shuffle(pool)[trainSize..trainSize + testSize], r.split)
  {
    ListingUnique(Unique(taskIds), pool);
    BuildIs(a, domain, strategy, seed, taskIds, trainSize, testSize, shuffle, pool);
    if trainSize + testSize <= |pool| {
      SplitSays(a, domain, strategy, seed, shuffle(pool)[..trainSize], shuffle(pool)[trainSize..trainSize + testSize]);
    }
  }

  lemma BuildIs(a: Addressing, domain: string, strategy: string, seed: int, taskIds: seq<string>, trainSize: nat, testSize: nat,
                shuffle: seq<string> -> seq<string>, pool: seq<string>)
    requires Permutes(shuffle) && pool == Listing(Unique(taskIds))
    ensures |shuffle(pool)| == |pool|
    ensures Build(a, domain, strategy, seed, taskIds, trainSize, testSize, shuffle)
         == if |pool| < trainSize + testSize then TooFewTasks(|pool|)
            else Ok(SplitOf(a, domain, strategy, seed, shuffle(pool)[..trainSize], shuffle(pool)[trainSize..trainSize + testSize]))
  {
    ShuffleKeepsLength(shuffle, pool);
  }

  ghost predicate IsSplitOf(a: Addressing, domain: string, strategy: string, seed: int, trainIds: seq<string>,
                            testIds: seq<string>, split: Split) {
    && split.domain == domain && split.strategy == strategy && split.seed == seed
    && IsSortOf(split.train, trainIds) && IsSortOf(split.test, testIds)
    && split.sha256 == a.sha(a.encode(Payload(domain, strategy, seed, split.train, split.test)))
  }

  lemma SplitSays(a: Addressing, domain: string, strategy: string, seed: int, trainIds: seq<string>, testIds: seq<string>)
    ensures IsSplitOf(a, domain, strategy, seed, trainIds, testIds, SplitOf(a, domain, strategy, seed, trainIds, testIds))
  {
    SortSettles(trainIds);
    SortSettles(testIds);
  }

  ghost predicate IsSortOf(sorted: seq<string>, ids: seq<string>) {
    multiset(sorted) == multiset(ids) && forall i, j :: 0 <= i < j < |sorted| ==> StringLe(sorted[i], sorted[j])
  }

  lemma SortSettles(ids: seq<string>)
    ensures IsSortOf(Sort(ids, StringLe), ids) && Sort(Sort(ids, StringLe), StringLe) == Sort(ids, StringLe)
  {
    StringLeIsOrder();
    SortSorts(ids, StringLe);
    SortPermutes(ids, StringLe);
    SortOfSorted(Sort(ids, StringLe), StringLe);
  }

  /** The order and the repetitions of the ids handed in do not matter. */
  lemma BuildIgnoresOrder(a: Addressing, domain: string, strategy: string, seed: int, taskIds: seq<string>,
                          taskIds': seq<string>,
                          trainSize: nat, testSize: nat, shuffle: seq<string> -> seq<string>)
    requires Permutes(shuffle)
    requires forall t :: t in taskIds <==> t in taskIds'
    ensures Build(a, domain, strategy, seed, taskIds, trainSize, testSize, shuffle)
         == Build(a, domain, strategy, seed, taskIds', trainSize, testSize, shuffle)
  {
    assert Unique(taskIds) == Unique(taskIds');
  }
}
