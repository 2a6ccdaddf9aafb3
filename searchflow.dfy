/**
 * `search()`: the query box's trimmed text is searched by name, unless the
 * AI refinement suggests tags, in which case the trimmed tags are searched
 * by tag; a tag search that finds nothing is retried once by name on the
 * raw text. The AI reply is a parameter: its `tags` when they are a
 * non-null string, or nothing when the call failed or carried no usable
 * tags.
 */
module SearchFlow {
  import opened Wrappers
  import opened Text
  import opened Terms
  import opened Stations
  import opened Lookup
  import opened Render

  /** One call of `fetchStations`: its query and its field. */
  datatype Pass = Pass(query: string, field: Field)

  /** What a search leaves behind: nothing when the box is blank, otherwise
      the passes run, every `/search` request sent, the stations rendered
      and the results area. */
  datatype Outcome =
    | Skipped
    | Done(passes: seq<Pass>, requests: seq<Request>, stations: seq<Station>, view: View)

  /** `finalQuery` and `field` after the AI step: tag mode on the trimmed
      tags when they are a non-empty string, name mode on `raw` otherwise. */
  function FirstPass(raw: string, aiTags: Option<string>): Pass {
    if aiTags.Some? && aiTags.value != "" then Pass(Trim(aiTags.value), Tag) else Pass(raw, Name)
  }

  /** What `search()` does when the query box holds `input`. */
  function SearchResult(input: string, aiTags: Option<string>, sortBy: string, dir: Directory): Outcome {
    var raw := Trim(input);
    if raw == "" then Skipped else Passes(raw, FirstPass(raw, aiTags), sortBy, dir)
  }

  /** The passes after the AI step: `first`, then the name search on `raw`
      if `first` was a tag search that found nothing. */
  function Passes(raw: string, first: Pass, sortBy: string, dir: Directory): Outcome {
    var found := Fetched(first.query, first.field, sortBy, dir);
    if first.field == Tag && |found| == 0 then
      var stations := Fetched(raw, Name, sortBy, dir);
      Done([first, Pass(raw, Name)], Requests(first.query, first.field, sortBy) + Requests(raw, Name, sortBy),
           stations, ViewOf(stations))
    else
      Done([first], Requests(first.query, first.field, sortBy), found, ViewOf(found))
  }

  /** `search()`: the AI step, the first pass, at most one fallback pass and
      the rendering, step by step. */
  method Search(input: string, aiTags: Option<string>, sortBy: string, dir: Directory)
    returns (outcome: Outcome)
    ensures outcome == SearchResult(input, aiTags, sortBy, dir)
  {
    var raw := Trim(input);
    if raw == "" {
      return Skipped;
    }
    var finalQuery := raw;
    var field := Name;
    if aiTags.Some? && aiTags.value != "" {
      finalQuery := Trim(aiTags.value);
      field := Tag;
    }
    var first := Pass(finalQuery, field);
    var passes := [first];
    var stations, requests := FetchStations(finalQuery, field, sortBy, dir);
    if field == Tag && |stations| == 0 {
      var more;
      stations, more := FetchStations(raw, Name, sortBy, dir);
      passes := [first, Pass(raw, Name)];
      requests := requests + more;
    }
    var view := RenderStations(stations);
    outcome := Done(passes, requests, stations, view);
  }

  /** After the AI step there are one or two passes: `first`, and a second
      exactly when `first` was a tag search that found nothing, which is a
      name search on the raw text and is never followed by a third. The
      requests are those of the passes in order, and the stations shown are
      the last pass's result. */
  lemma PassesSpec(raw: string, first: Pass, sortBy: string, dir: Directory)
    ensures var outcome := Passes(raw, first, sortBy, dir);
            var last := outcome.passes[|outcome.passes| - 1];
            && outcome.Done?
            && 1 <= |outcome.passes| <= 2
            && outcome.passes[0] == first
            && (|outcome.passes| == 2 <==> first.field == Tag && Fetched(first.query, Tag, sortBy, dir) == [])
            && (|outcome.passes| == 2 ==> last == Pass(raw, Name))
            && outcome.requests == Requests(first.query, first.field, sortBy)
                                   + (if |outcome.passes| == 2 then Requests(raw, Name, sortBy) else [])
            && outcome.stations == Fetched(last.query, last.field, sortBy, dir)
            && outcome.view == ViewOf(outcome.stations)
  {
    var found := Fetched(first.query, first.field, sortBy, dir);
    var outcome := Passes(raw, first, sortBy, dir);
    if first.field == Tag && |found| == 0 {
      assert outcome.passes == [first, Pass(raw, Name)];
    } else {
      assert outcome.passes == [first];
      assert first.field == Tag ==> found != [];
    }
  }

  /** A blank query box does nothing; otherwise the first pass is a tag
      search exactly when the AI suggested tags, and the passes follow it as
      `PassesSpec` states. */
  lemma SearchResultSpec(input: string, aiTags: Option<string>, sortBy: string, dir: Directory)
    ensures SearchResult(input, aiTags, sortBy, dir).Skipped? <==> Trim(input) == ""
    ensures var raw := Trim(input);
            var first := FirstPass(raw, aiTags);
            && (first.field == Tag <==> aiTags.Some? && aiTags.value != "")
            && (raw != "" ==> SearchResult(input, aiTags, sortBy, dir) == Passes(raw, first, sortBy, dir))
  {
    var raw := Trim(input);
    PassesSpec(raw, FirstPass(raw, aiTags), sortBy, dir);
  }

  /** The search falls back to names exactly when the AI suggested tags and
      every tag lookup came back empty or not OK. */
  lemma FallbackIff(raw: string, aiTags: Option<string>, sortBy: string, dir: Directory)
    ensures var first := FirstPass(raw, aiTags);
            var requests := Requests(first.query, Tag, sortBy);
            first.field == Tag && Fetched(first.query, Tag, sortBy, dir) == []
            <==> aiTags.Some? && aiTags.value != ""
                 && forall i :: 0 <= i < |requests| ==> BatchOf(dir(requests[i])) == []
  {
    var first := FirstPass(raw, aiTags);
    FetchedEmptyIff(first.query, Tag, sortBy, dir);
  }

  /** Tags made only of commas and whitespace give no tag lookup at all, so
      the search always falls back to names. */
  lemma BlankTagsFallBack(raw: string, tags: string, sortBy: string, dir: Directory)
    requires tags != "" && AllIn(tags, {','} + Whitespace)
    ensures var first := FirstPass(raw, Some(tags));
            && first.field == Tag
            && Requests(first.query, Tag, sortBy) == []
            && Fetched(first.query, Tag, sortBy, dir) == []
  {
    var cs := {','} + Whitespace;
    var t := Trim(tags);
    TrimAllIn(tags, cs);
    TagTermsEmptyIff(t);
    assert ExtractTerms(t, Tag) == [];
    FetchedEmptyIff(t, Tag, sortBy, dir);
  }

  /** The name-mode fallback runs on non-blank text, so it sends at least one
      request. */
  lemma FallbackSendsRequests(raw: string, sortBy: string)
    requires Trim(raw) != ""
    ensures |Requests(raw, Name, sortBy)| >= 1
  {
    NameTermsEmptyIff(raw);
  }
}
