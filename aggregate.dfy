/**
 * Fan-in in `fetchStations`: the per-term batches are flattened in term
 * order, and a `Map` keyed by `stationuuid || url_resolved` keeps the first
 * station seen for each key; the merged list is the map's values in
 * insertion order.
 */
module Aggregate {
  import opened Stations

  /** `batches.flat()`: term order, then the directory's order within a batch. */
  function Flatten(batches: seq<seq<Station>>): seq<Station> {
    if batches == [] then [] else batches[0] + Flatten(batches[1..])
  }

  /** A station is in the flattened list exactly when it is in some batch. */
  lemma {:induction false} FlattenMembers(batches: seq<seq<Station>>, s: Station)
    ensures s in Flatten(batches) <==> exists i :: 0 <= i < |batches| && s in batches[i]
  {
    if batches != [] {
      FlattenMembers(batches[1..], s);
      assert forall i :: 1 <= i < |batches| ==> batches[i] == batches[1..][i - 1];
      if s in Flatten(batches[1..]) {
        var i :| 0 <= i < |batches[1..]| && s in batches[1..][i];
        assert s in batches[i + 1];
      }
    }
  }

  /** An empty batch (a lookup that found nothing, or a response that was
      not OK) contributes nothing: removing it leaves the flattened list as
      it was. */
  lemma {:induction false} FlattenSkipEmpty(batches: seq<seq<Station>>, i: nat)
    requires i < |batches| && batches[i] == []
    ensures Flatten(batches) == Flatten(batches[..i] + batches[i + 1..])
  {
    if i > 0 {
      FlattenSkipEmpty(batches[1..], i - 1);
      assert batches[1..][..i - 1] + batches[1..][i..] == (batches[..i] + batches[i + 1..])[1..];
    } else {
      assert batches[..i] + batches[i + 1..] == batches[1..];
    }
  }

  /** The flattened list is empty exactly when every batch is. */
  lemma {:induction false} FlattenEmptyIff(batches: seq<seq<Station>>)
    ensures Flatten(batches) == [] <==> forall i :: 0 <= i < |batches| ==> batches[i] == []
  {
    if batches != [] {
      FlattenEmptyIff(batches[1..]);
      assert forall i :: 1 <= i < |batches| ==> batches[i] == batches[1..][i - 1];
    }
  }

  /** The position of the first station of `xs` whose key is `k`. */
  function FirstIndex(xs: seq<Station>, k: Key): (i: nat)
    requires k in KeySet(xs)
    ensures i < |xs| && KeyOf(xs[i]) == k
    ensures forall j :: 0 <= j < i ==> KeyOf(xs[j]) != k
  {
    if KeyOf(xs[0]) == k then 0
    else
      assert k in KeySet(xs[1..]) by {
        var s :| s in xs && KeyOf(s) == k;
        assert s != xs[0];
        assert forall t :: t in xs ==> t == xs[0] || t in xs[1..];
      }
      1 + FirstIndex(xs[1..], k)
  }

  lemma KeySetAppend(p: seq<Station>, x: Station)
    ensures KeySet(p + [x]) == KeySet(p) + {KeyOf(x)}
  {
    assert forall s :: s in p + [x] <==> s in p || s == x;
  }

  /** Appending a station moves no first occurrence, and gives a new key its
      first occurrence at the end. */
  lemma {:induction false} FirstIndexAppend(p: seq<Station>, x: Station)
    ensures KeySet(p + [x]) == KeySet(p) + {KeyOf(x)}
    ensures forall k :: k in KeySet(p) ==> FirstIndex(p + [x], k) == FirstIndex(p, k)
    ensures KeyOf(x) !in KeySet(p) ==> FirstIndex(p + [x], KeyOf(x)) == |p|
  {
    KeySetAppend(p, x);
    forall k | k in KeySet(p) ensures FirstIndex(p + [x], k) == FirstIndex(p, k) {
      var i := FirstIndex(p, k);
      assert (p + [x])[i] == p[i];
    }
    if KeyOf(x) !in KeySet(p) {
      var i' := FirstIndex(p + [x], KeyOf(x));
      assert forall j :: 0 <= j < |p| ==> (p + [x])[j] == p[j] && p[j] in p;
    }
  }

  /** The merged list: the stations of `xs` whose key has not been seen
      before them, in order. */
  function Dedup(xs: seq<Station>): seq<Station>
  {
    if xs == [] then []
    else
      var d := Dedup(xs[..|xs| - 1]);
      var x := xs[|xs| - 1];
      if KeyOf(x) in KeySet(d) then d else d + [x]
  }

  /** Merging `p` and then one more station. */
  lemma DedupAppend(p: seq<Station>, x: Station)
    ensures Dedup(p + [x]) == if KeyOf(x) in KeySet(Dedup(p)) then Dedup(p) else Dedup(p) + [x]
  {
    assert (p + [x])[..|p|] == p;
  }

  /** The merged list holds each key of the input once: no two merged
      stations share a key, and no key is lost. */
  lemma {:induction false} DedupKeys(xs: seq<Station>)
    ensures DistinctKeys(Dedup(xs))
    ensures KeySet(Dedup(xs)) == KeySet(xs)
  {
    if xs != [] {
      var p := xs[..|xs| - 1];
      var x := xs[|xs| - 1];
      assert xs == p + [x];
      DedupKeys(p);
      DedupAppend(p, x);
      KeySetAppend(p, x);
      var d := Dedup(p);
      if KeyOf(x) !in KeySet(d) {
        KeySetAppend(d, x);
        assert forall j :: 0 <= j < |d| ==> KeyOf(d[j]) in KeySet(d);
      }
    }
  }

  /** For each key the merged list keeps the station that first carried it. */
  lemma {:induction false} DedupFirstWins(xs: seq<Station>)
    ensures forall j :: 0 <= j < |Dedup(xs)| ==>
              KeyOf(Dedup(xs)[j]) in KeySet(xs)
              && Dedup(xs)[j] == xs[FirstIndex(xs, KeyOf(Dedup(xs)[j]))]
  {
    if xs != [] {
      var p := xs[..|xs| - 1];
      var x := xs[|xs| - 1];
      assert xs == p + [x];
      DedupFirstWins(p);
      DedupKeys(p);
      DedupAppend(p, x);
      FirstIndexAppend(p, x);
      var d := Dedup(p);
      var r := Dedup(xs);
      forall j | 0 <= j < |r|
        ensures KeyOf(r[j]) in KeySet(xs) && r[j] == xs[FirstIndex(xs, KeyOf(r[j]))]
      {
        if j < |d| {
          assert r[j] == d[j];
          var k := KeyOf(d[j]);
          assert d[j] in d;
          assert k in KeySet(p);
          var f := FirstIndex(p, k);
          assert FirstIndex(xs, k) == f;
          assert xs[f] == p[f];
        } else {
          assert r[j] == x && KeyOf(x) !in KeySet(p);
          assert FirstIndex(xs, KeyOf(x)) == |p|;
        }
      }
    }
  }

  /** The stations of `r` carry keys of `xs`, in order of their first
      appearance in `xs`. */
  predicate InFirstAppearanceOrder(r: seq<Station>, xs: seq<Station>) {
    && (forall j :: 0 <= j < |r| ==> KeyOf(r[j]) in KeySet(xs))
    && (forall j, j' :: 0 <= j < j' < |r| ==> FirstIndex(xs, KeyOf(r[j])) < FirstIndex(xs, KeyOf(r[j'])))
  }

  lemma DedupOrderStep(p: seq<Station>, x: Station)
    requires InFirstAppearanceOrder(Dedup(p), p)
    ensures InFirstAppearanceOrder(Dedup(p + [x]), p + [x])
  {
    var xs := p + [x];
    DedupKeys(p);
    DedupAppend(p, x);
    FirstIndexAppend(p, x);
    var d := Dedup(p);
    var r := Dedup(xs);
    forall j | 0 <= j < |d|
      ensures KeyOf(d[j]) in KeySet(p) && KeyOf(d[j]) in KeySet(xs)
      ensures FirstIndex(xs, KeyOf(d[j])) == FirstIndex(p, KeyOf(d[j])) < |p|
    {
      assert d[j] in d;
    }
    assert forall j :: 0 <= j < |d| ==> r[j] == d[j];
    forall j | 0 <= j < |r| ensures KeyOf(r[j]) in KeySet(xs) {
      if j == |d| { assert r[j] == x; }
    }
    forall j, j' | 0 <= j < j' < |r|
      ensures FirstIndex(xs, KeyOf(r[j])) < FirstIndex(xs, KeyOf(r[j']))
    {
      if j' == |d| {
        assert r[j'] == x;
        assert KeyOf(x) !in KeySet(p);
      }
    }
  }

  /** The merged list keeps the keys in order of first appearance. */
  lemma {:induction false} DedupOrder(xs: seq<Station>)
    ensures forall j :: 0 <= j < |Dedup(xs)| ==> KeyOf(Dedup(xs)[j]) in KeySet(xs)
    ensures forall j, j' :: 0 <= j < j' < |Dedup(xs)| ==>
              FirstIndex(xs, KeyOf(Dedup(xs)[j])) < FirstIndex(xs, KeyOf(Dedup(xs)[j']))
  {
    if xs != [] {
      var p := xs[..|xs| - 1];
      assert xs == p + [xs[|xs| - 1]];
      DedupOrder(p);
      DedupOrderStep(p, xs[|xs| - 1]);
    }
  }

  /** Merging is empty exactly when there is nothing to merge. */
  lemma DedupEmptyIff(xs: seq<Station>)
    ensures Dedup(xs) == [] <==> xs == []
  {
    DedupKeys(xs);
    if xs != [] {
      assert KeyOf(xs[0]) in KeySet(xs);
    }
  }

  /** The merged list has one station per distinct key of the input. */
  lemma DedupCount(xs: seq<Station>)
    ensures |Dedup(xs)| == |KeySet(xs)|
  {
    DedupKeys(xs);
    DistinctKeysCount(Dedup(xs));
  }

  /** The `forEach` over `batches.flat()` that fills the `Map`, and
      `Array.from(seen.values())`: `order` is the map's insertion order. */
  method MergeBatches(batches: seq<seq<Station>>) returns (merged: seq<Station>)
    ensures merged == Dedup(Flatten(batches))
  {
    var flat := Flatten(batches);
    var seen: map<Key, Station> := map[];
    var order: seq<Key> := [];
    ghost var done: seq<Station> := [];
    var i := 0;
    while i < |flat|
      invariant 0 <= i <= |flat|
      invariant done == Dedup(flat[..i])
      invariant seen.Keys == KeySet(done)
      invariant |order| == |done|
      invariant forall j :: 0 <= j < |order| ==>
                  order[j] in seen && order[j] == KeyOf(done[j]) && seen[order[j]] == done[j]
    {
      var s := flat[i];
      var k := KeyOf(s);
      assert flat[..i + 1] == flat[..i] + [s];
      DedupAppend(flat[..i], s);
      if k !in seen {
        KeySetAppend(done, s);
        seen := seen[k := s];
        order := order + [k];
        done := done + [s];
      }
      i := i + 1;
    }
    assert flat[..i] == flat;
    merged := seq(|order|, j requires 0 <= j < |order| => seen[order[j]]);
  }
}
