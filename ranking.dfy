/**
 * Ranking in `fetchStations` and `loadAndRender`:
 * `sort((a, b) => (b.votes || 0) - (a.votes || 0))`, a stable sort by
 * descending votes (a missing count is 0), and in `fetchStations` the cut
 * `slice(0, 50)`.
 */
module Ranking {
  import opened Stations

  /** The bound of `slice(0, 50)`. */
  const MaxResults: nat := 50

  function Min(a: nat, b: nat): nat {
    if a <= b then a else b
  }

  /** Votes never increase along `xs`. */
  predicate NonIncreasing(xs: seq<Station>) {
    forall i, j :: 0 <= i < j < |xs| ==> Votes(xs[i]) >= Votes(xs[j])
  }

  /** The stations of `xs` with exactly `v` votes, in their order in `xs`. */
  function WithVotes(xs: seq<Station>, v: int): seq<Station> {
    if xs == [] then []
    else (if Votes(xs[0]) == v then [xs[0]] else []) + WithVotes(xs[1..], v)
  }

  /** Places `x`, which came before every station of `s`, after the stations
      of `s` with more votes and before the others. */
  function Insert(x: Station, s: seq<Station>): (r: seq<Station>)
    ensures multiset(r) == multiset(s) + multiset{x}
  {
    if s == [] || Votes(s[0]) <= Votes(x) then [x] + s
    else
      assert s == [s[0]] + s[1..];
      [s[0]] + Insert(x, s[1..])
  }

  /** Inserting below a bound that every station respects keeps the bound. */
  lemma {:induction false} InsertBounded(x: Station, s: seq<Station>, v: int)
    requires Votes(x) <= v
    requires forall k :: 0 <= k < |s| ==> Votes(s[k]) <= v
    ensures forall k :: 0 <= k < |Insert(x, s)| ==> Votes(Insert(x, s)[k]) <= v
  {
    var r := Insert(x, s);
    if s == [] || Votes(s[0]) <= Votes(x) {
      assert forall k :: 0 < k < |r| ==> r[k] == s[k - 1];
    } else {
      var tail := s[1..];
      assert forall k :: 0 <= k < |tail| ==> tail[k] == s[k + 1];
      InsertBounded(x, tail, v);
      var t := Insert(x, tail);
      assert forall k :: 0 < k < |r| ==> r[k] == t[k - 1];
    }
  }

  /** Inserting into a list in vote order keeps it in vote order. */
  lemma {:induction false} InsertSorted(x: Station, s: seq<Station>)
    requires NonIncreasing(s)
    ensures NonIncreasing(Insert(x, s))
  {
    var r := Insert(x, s);
    if s != [] && Votes(s[0]) > Votes(x) {
      var tail := s[1..];
      assert NonIncreasing(tail) by {
        assert forall k :: 0 <= k < |tail| ==> tail[k] == s[k + 1];
      }
      InsertSorted(x, tail);
      InsertBounded(x, tail, Votes(s[0]));
      var t := Insert(x, tail);
      assert r == [s[0]] + t;
      forall i, j | 0 <= i < j < |r| ensures Votes(r[i]) >= Votes(r[j]) {
        assert r[j] == t[j - 1];
        if i > 0 {
          assert r[i] == t[i - 1];
        }
      }
    } else {
      assert forall j :: 0 < j < |r| ==> r[j] == s[j - 1];
    }
  }

  /** Inserting `x` in front of the stations with its vote count: the
      insertion is stable. */
  lemma {:induction false} InsertStable(x: Station, s: seq<Station>, v: int)
    ensures WithVotes(Insert(x, s), v) == (if Votes(x) == v then [x] else []) + WithVotes(s, v)
  {
    if s == [] || Votes(s[0]) <= Votes(x) {
      assert ([x] + s)[1..] == s;
    } else {
      InsertStable(x, s[1..], v);
      var r := Insert(x, s);
      assert r[1..] == Insert(x, s[1..]);
    }
  }

  /** The stable sort by descending votes. */
  function SortByVotes(xs: seq<Station>): (r: seq<Station>)
    ensures multiset(r) == multiset(xs) && |r| == |xs|
  {
    if xs == [] then []
    else
      assert xs == [xs[0]] + xs[1..];
      var r := Insert(xs[0], SortByVotes(xs[1..]));
      assert |r| == |multiset(r)|;
      r
  }

  /** The sorted list is in non-increasing vote order, and for every vote
      count it holds the stations with that count in their input order. */
  lemma {:induction false} SortByVotesSpec(xs: seq<Station>)
    ensures NonIncreasing(SortByVotes(xs))
    ensures forall v :: WithVotes(SortByVotes(xs), v) == WithVotes(xs, v)
  {
    if xs != [] {
      SortByVotesSpec(xs[1..]);
      InsertSorted(xs[0], SortByVotes(xs[1..]));
      forall v ensures WithVotes(SortByVotes(xs), v) == WithVotes(xs, v) {
        InsertStable(xs[0], SortByVotes(xs[1..]), v);
      }
    }
  }

  /** A prefix keeps, for every vote count, a prefix of the stations with
      that count. */
  lemma {:induction false} WithVotesPrefix(xs: seq<Station>, n: nat, v: int)
    requires n <= |xs|
    ensures WithVotes(xs[..n], v) <= WithVotes(xs, v)
  {
    if n > 0 {
      WithVotesPrefix(xs[1..], n - 1, v);
      assert xs[..n][1..] == xs[1..][..n - 1];
    }
  }

  /** `sort(...).slice(0, 50)`: the first 50 stations of the sorted list, or
      all of them when there are fewer. */
  function Rank(xs: seq<Station>): (r: seq<Station>)
    ensures |r| == Min(|xs|, MaxResults)
  {
    SortByVotes(xs)[..Min(|xs|, MaxResults)]
  }

  /** The ranked list is in non-increasing vote order, draws only on the
      input, and for every vote count holds a prefix of the input's stations
      with that count: equal votes keep their input order. */
  lemma RankOrdered(xs: seq<Station>)
    ensures NonIncreasing(Rank(xs))
    ensures multiset(Rank(xs)) <= multiset(xs)
    ensures forall v :: WithVotes(Rank(xs), v) <= WithVotes(xs, v)
  {
    var sorted := SortByVotes(xs);
    SortByVotesSpec(xs);
    var n := Min(|xs|, MaxResults);
    var r := sorted[..n];
    assert sorted == r + sorted[n..];
    forall v ensures WithVotes(r, v) <= WithVotes(xs, v) {
      WithVotesPrefix(sorted, n, v);
    }
  }

  /** Truncation drops no station that has more votes than one it keeps. */
  lemma RankKeepsBest(xs: seq<Station>)
    ensures forall s, t :: s in multiset(xs) - multiset(Rank(xs)) && t in Rank(xs) ==> Votes(s) <= Votes(t)
  {
    var sorted := SortByVotes(xs);
    SortByVotesSpec(xs);
    var n := Min(|xs|, MaxResults);
    var r := sorted[..n];
    assert sorted == r + sorted[n..];
    assert multiset(xs) == multiset(r) + multiset(sorted[n..]);
    forall s, t | s in multiset(xs) - multiset(r) && t in r ensures Votes(s) <= Votes(t) {
      assert s in sorted[n..];
      var a :| 0 <= a < |sorted[n..]| && sorted[n..][a] == s;
      var b :| 0 <= b < |r| && r[b] == t;
      assert sorted[b] == t && sorted[n + a] == s;
    }
  }

  /** Sorting a list whose keys are distinct keeps them distinct. */
  lemma {:induction false} SortKeepsDistinctKeys(xs: seq<Station>)
    requires DistinctKeys(xs)
    ensures DistinctKeys(SortByVotes(xs))
  {
    var r := SortByVotes(xs);
    forall i, j | 0 <= i < j < |r| ensures KeyOf(r[i]) != KeyOf(r[j]) {
      assert r[i] in multiset(xs) && r[j] in multiset(xs);
      var a :| 0 <= a < |xs| && xs[a] == r[i];
      var b :| 0 <= b < |xs| && xs[b] == r[j];
      if a == b {
        // the same station of xs would occur twice in r
        MultiplicityTwo(r, i, j);
        SingleOccurrence(xs, a);
        assert false;
      }
    }
  }

  /** Two positions holding the same station give it multiplicity two. */
  lemma MultiplicityTwo(r: seq<Station>, i: nat, j: nat)
    requires i < j < |r| && r[i] == r[j]
    ensures multiset(r)[r[i]] >= 2
  {
    assert r == r[..i] + [r[i]] + r[i + 1..j] + [r[j]] + r[j + 1..];
  }

  /** In a list with distinct keys, every station occurs once. */
  lemma SingleOccurrence(xs: seq<Station>, a: nat)
    requires DistinctKeys(xs) && a < |xs|
    ensures multiset(xs)[xs[a]] == 1
  {
    assert xs == xs[..a] + [xs[a]] + xs[a + 1..];
    assert xs[a] !in xs[..a];
    assert xs[a] !in xs[a + 1..];
    assert multiset(xs[..a])[xs[a]] == 0;
    assert multiset(xs[a + 1..])[xs[a]] == 0;
  }

  /** Ranking a list with distinct keys keeps them distinct. */
  lemma RankKeepsDistinctKeys(xs: seq<Station>)
    requires DistinctKeys(xs)
    ensures DistinctKeys(Rank(xs))
  {
    SortKeepsDistinctKeys(xs);
    var r := Rank(xs);
    assert forall i :: 0 <= i < |r| ==> r[i] == SortByVotes(xs)[i];
  }
}
