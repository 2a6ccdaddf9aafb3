/**
 * Station records as the directory returns them. Every field may be
 * absent; only the fields the query pipeline and the card rendering read
 * are kept.
 */
module Stations {
  import opened Wrappers

  datatype Station = Station(
    stationUuid: Option<string>,
    name: string,
    urlResolved: Option<string>,
    countryCode: Option<string>,
    tags: Option<string>,
    votes: Option<int>)

  /** The merge key `stationuuid || url_resolved`: the uuid unless it is
      absent or empty, otherwise the resolved URL as it is, which may itself
      be absent. `null` and `undefined` are one absent key here, so every
      station without a uuid or URL shares it. */
  type Key = Option<string>

  function KeyOf(s: Station): Key {
    if s.stationUuid.Some? && s.stationUuid.value != "" then s.stationUuid else s.urlResolved
  }

  /** `votes || 0` */
  function Votes(s: Station): int {
    s.votes.GetOr(0)
  }

  /** The keys of the stations of `xs`. */
  function KeySet(xs: seq<Station>): set<Key> {
    set s | s in xs :: KeyOf(s)
  }

  /** No two stations of `xs` share a key. */
  predicate DistinctKeys(xs: seq<Station>) {
    forall i, j :: 0 <= i < j < |xs| ==> KeyOf(xs[i]) != KeyOf(xs[j])
  }

  /** The keys of a non-empty list: the first station's and the rest's. */
  lemma KeySetCons(xs: seq<Station>)
    requires xs != []
    ensures KeySet(xs) == {KeyOf(xs[0])} + KeySet(xs[1..])
  {
    assert forall s :: s in xs <==> s == xs[0] || s in xs[1..];
  }

  /** Lists holding the same stations have the same keys. */
  lemma KeySetMultiset(a: seq<Station>, b: seq<Station>)
    requires multiset(a) == multiset(b)
    ensures KeySet(a) == KeySet(b)
  {
    assert forall s :: s in a <==> s in multiset(a);
    assert forall s :: s in b <==> s in multiset(b);
  }

  /** Stations with distinct keys are as many as their keys. */
  lemma {:induction false} DistinctKeysCount(xs: seq<Station>)
    requires DistinctKeys(xs)
    ensures |KeySet(xs)| == |xs|
  {
    if xs != [] {
      var tail := xs[1..];
      assert DistinctKeys(tail) by {
        assert forall j :: 0 <= j < |tail| ==> tail[j] == xs[j + 1];
      }
      DistinctKeysCount(tail);
      KeySetCons(xs);
      assert KeyOf(xs[0]) !in KeySet(tail) by {
        forall s | s in tail ensures KeyOf(s) != KeyOf(xs[0]) {
          var j :| 0 <= j < |tail| && tail[j] == s;
          assert xs[j + 1] == s;
        }
      }
    }
  }
}
