/** The corpus root: a hash over the sorted hashes of the files. */
module Merkle {
  import opened Hashing
  import opened Ordering

  function JoinLines(lines: seq<string>): string {
    if lines == [] then ""
    else if |lines| == 1 then lines[0]
    else lines[0] + "\n" + JoinLines(lines[1..])
  }

  /** The text the root is the hash of: the hashes in order, one a line. */
  function RootText(hashes: seq<string>): string {
    JoinLines(Sort(hashes, StringLe))
  }

  function Root(sha: string -> string, hashes: seq<string>): string {
    sha(RootText(hashes))
  }

  /** The root is a function of the hashes and not of the order they were collected in. */
  lemma RootIgnoresOrder(sha: string -> string, hashes: seq<string>, hashes': seq<string>)
    requires multiset(hashes) == multiset(hashes')
    ensures Root(sha, hashes) == Root(sha, hashes')
  {
    StringLeIsOrder();
    SortIgnoresOrder(hashes, hashes', StringLe);
  }

  /** Lines are joined by a line break between any two of them, and by nothing else. */
  lemma {:induction false} LinesAreJoined(a: seq<string>, b: seq<string>, line: string)
    ensures JoinLines([]) == "" && JoinLines([line]) == line
    ensures a != [] && b != [] ==> JoinLines(a + b) == JoinLines(a) + "\n" + JoinLines(b)
  {
    if |a| > 1 && b != [] {
      LinesAreJoined(a[1..], b, line);
      assert (a + b)[1..] == a[1..] + b;
    } else if |a| == 1 && b != [] {
      assert (a + b)[1..] == b;
    }
  }

  /** The root is the hash of the joined lines of the hashes in ascending order. */
  lemma RootIsOfSortedHashes(sha: string -> string, hashes: seq<string>) returns (sorted: seq<string>)
    ensures multiset(sorted) == multiset(hashes) && forall i, j :: 0 <= i < j < |sorted| ==> StringLe(sorted[i], sorted[j])
    ensures Root(sha, hashes) == sha(JoinLines(sorted))
  {
    sorted := Sort(hashes, StringLe);
    StringLeIsOrder();
    SortSorts(hashes, StringLe);
    SortPermutes(hashes, StringLe);
  }

  // ---- the root determines the hashes ---------------------------------------------------------

  ghost predicate AreDigests(hashes: seq<string>) {
    forall h :: h in hashes ==> |h| == 64
  }

  lemma JoinedFront(lines: seq<string>)
    requires lines != [] && AreDigests(lines)
    ensures |JoinLines(lines)| >= 64 && JoinLines(lines)[..64] == lines[0]
    ensures |lines| > 1 ==> |JoinLines(lines)| > 64 && JoinLines(lines)[65..] == JoinLines(lines[1..])
    ensures |lines| == 1 ==> |JoinLines(lines)| == 64
  {
    assert lines[0] in lines;
    if |lines| > 1 { assert (lines[0] + "\n")[..64] == lines[0]; }
  }

  /** Lines of one length can be read back from the text that joins them. */
  lemma {:induction false} JoinIsInjective(a: seq<string>, b: seq<string>)
    requires AreDigests(a) && AreDigests(b) && JoinLines(a) == JoinLines(b)
    ensures a == b
  {
    if a != [] { JoinedFront(a); }
    if b != [] { JoinedFront(b); }
    if a != [] && b != [] {
      assert a[0] == b[0];
      if |a| > 1 {
        assert forall h :: h in a[1..] ==> h in a;
        assert forall h :: h in b[1..] ==> h in b;
        JoinIsInjective(a[1..], b[1..]);
      }
      assert a == [a[0]] + a[1..] && b == [b[0]] + b[1..];
    }
  }

  /** Two lists of digests have the same root exactly when they hold the same digests equally often. */
  lemma RootDeterminesHashes(sha: string -> string, hashes: seq<string>, hashes': seq<string>)
    requires Digest(sha, iset{RootText(hashes), RootText(hashes')}) && AreDigests(hashes) && AreDigests(hashes')
    ensures Root(sha, hashes) == Root(sha, hashes') <==> multiset(hashes) == multiset(hashes')
  {
    if multiset(hashes) == multiset(hashes') {
      RootIgnoresOrder(sha, hashes, hashes');
    }
    if Root(sha, hashes) == Root(sha, hashes') {
      SortMembers(hashes, StringLe);
      SortMembers(hashes', StringLe);
      JoinIsInjective(Sort(hashes, StringLe), Sort(hashes', StringLe));
      SortPermutes(hashes, StringLe);
      SortPermutes(hashes', StringLe);
    }
  }
}
