/**
 * `fetchStations(query, field, sortBy)`: extract the terms, send one
 * `/search` request per term, wait for all of them (`Promise.all`, which
 * keeps term order whatever order the responses arrive in), turn a response
 * that is not OK into an empty batch, merge the batches and rank the result.
 * The network is a parameter: the directory is a function from request to
 * response.
 */
module Lookup {
  import opened Text
  import opened Terms
  import opened Stations
  import opened Aggregate
  import opened Ranking

  /** The body of one `/search` request: the term, the field and the
      forwarded sort key (`filter_dead` is always true and not recorded). */
  datatype Request = Request(term: string, field: Field, sortBy: string)

  /** A directory response: OK with its list of stations, or not OK. */
  datatype Response = Ok(stations: seq<Station>) | NotOk

  /** The station directory as the page sees it. */
  type Directory = Request -> Response

  /** `r.ok ? r.json() : []` */
  function BatchOf(response: Response): seq<Station> {
    match response
    case Ok(stations) => stations
    case NotOk => []
  }

  /** One request per term, in term order. */
  function Requests(query: string, field: Field, sortBy: string): seq<Request> {
    var terms := ExtractTerms(query, field);
    seq(|terms|, i requires 0 <= i < |terms| => Request(terms[i], field, sortBy))
  }

  /** The batches `Promise.all` resolves to: in request order. */
  function Batches(dir: Directory, requests: seq<Request>): seq<seq<Station>> {
    seq(|requests|, i requires 0 <= i < |requests| => BatchOf(dir(requests[i])))
  }

  /** The list `fetchStations` resolves to. */
  function Fetched(query: string, field: Field, sortBy: string, dir: Directory): seq<Station> {
    Rank(Dedup(Flatten(Batches(dir, Requests(query, field, sortBy)))))
  }

  /** `fetchStations`: `sent` are the requests it makes. */
  method FetchStations(query: string, field: Field, sortBy: string, dir: Directory)
    returns (stations: seq<Station>, sent: seq<Request>)
    ensures sent == Requests(query, field, sortBy)
    ensures stations == Fetched(query, field, sortBy, dir)
  {
    var terms := ExtractTerms(query, field);
    sent := seq(|terms|, i requires 0 <= i < |terms| => Request(terms[i], field, sortBy));
    var batches := seq(|sent|, i requires 0 <= i < |sent| => BatchOf(dir(sent[i])));
    var merged := MergeBatches(batches);
    stations := Rank(merged);
  }

  /** A blank query sends no request in either mode. */
  lemma BlankQueryNoRequests(query: string, field: Field, sortBy: string)
    requires Trim(query) == ""
    ensures Requests(query, field, sortBy) == []
  {
    TrimEmptyIff(query);
    match field
    case Tag =>
      TagTermsEmptyIff(query);
    case Name =>
      NameTermsEmptyIff(query);
  }

  /** The result of `fetchStations`: no two stations share a key, votes
      never increase, every station came from some batch, and there are as
      many stations as distinct keys across the batches, up to 50. */
  lemma FetchedShape(query: string, field: Field, sortBy: string, dir: Directory)
    ensures var batches := Batches(dir, Requests(query, field, sortBy));
            var r := Fetched(query, field, sortBy, dir);
            && DistinctKeys(r)
            && NonIncreasing(r)
            && |r| == Min(|KeySet(Flatten(batches))|, MaxResults)
            && forall s :: s in r ==> exists i :: 0 <= i < |batches| && s in batches[i]
  {
    var batches := Batches(dir, Requests(query, field, sortBy));
    var merged := Dedup(Flatten(batches));
    var r := Rank(merged);
    DedupKeys(Flatten(batches));
    DedupCount(Flatten(batches));
    DedupFirstWins(Flatten(batches));
    RankKeepsDistinctKeys(merged);
    RankOrdered(merged);
    forall s | s in r ensures exists i :: 0 <= i < |batches| && s in batches[i] {
      assert s in multiset(merged);
      var j :| 0 <= j < |merged| && merged[j] == s;
      FlattenMembers(batches, s);
    }
  }

  /** Below the bound nothing is lost: the result carries exactly the keys
      found across all batches. */
  lemma FetchedKeepsAllKeys(query: string, field: Field, sortBy: string, dir: Directory)
    requires |KeySet(Flatten(Batches(dir, Requests(query, field, sortBy))))| <= MaxResults
    ensures KeySet(Fetched(query, field, sortBy, dir))
            == KeySet(Flatten(Batches(dir, Requests(query, field, sortBy))))
  {
    var flat := Flatten(Batches(dir, Requests(query, field, sortBy)));
    var merged := Dedup(flat);
    DedupKeys(flat);
    DedupCount(flat);
    var r := Rank(merged);
    assert r == SortByVotes(merged);
    KeySetMultiset(r, merged);
  }

  /** The batches of some requests flatten to nothing exactly when every
      response is empty or not OK. */
  lemma BatchesEmptyIff(dir: Directory, requests: seq<Request>)
    ensures Flatten(Batches(dir, requests)) == []
            <==> forall i :: 0 <= i < |requests| ==> BatchOf(dir(requests[i])) == []
  {
    var batches := Batches(dir, requests);
    FlattenEmptyIff(batches);
    assert forall i :: 0 <= i < |requests| ==> batches[i] == BatchOf(dir(requests[i]));
  }

  /** `fetchStations` finds nothing exactly when every lookup came back empty
      or not OK. */
  lemma FetchedEmptyIff(query: string, field: Field, sortBy: string, dir: Directory)
    ensures var requests := Requests(query, field, sortBy);
            Fetched(query, field, sortBy, dir) == []
            <==> forall i :: 0 <= i < |requests| ==> BatchOf(dir(requests[i])) == []
  {
    var requests := Requests(query, field, sortBy);
    var flat := Flatten(Batches(dir, requests));
    BatchesEmptyIff(dir, requests);
    DedupEmptyIff(flat);
    assert |Rank(Dedup(flat))| == Min(|Dedup(flat)|, MaxResults);
  }
}
