# Smart radio search: the query pipeline

This project models the station search of the smart radio page, the inline
script of `backend/app.py`, in Dafny. A listener types a query. The page first
asks the AI refinement endpoint for tags. If it gets any, it searches the
trimmed tags by tag; otherwise it searches the raw text by name. A tag search
that finds nothing is retried once by name on the raw text. A search is
answered as follows:

- The query is cut into terms: comma pieces, trimmed, for tags; runs of
  whitespace for names.
- One `/search` request is sent per term.
- The batches are merged in term order, and the first station seen for each
  `stationuuid || url_resolved` key wins.
- The merged list is sorted by descending votes (stably) and cut to 50.

The result is rendered as cards. A station whose stream URL, after an
`http://` to `https://` upgrade, is not an https URL gets no card. Every
card keeps the station's rank number in the list, a flag made of
regional-indicator letters, and its first five tags, followed by an ellipsis
only when there are more than five.
The genre and country filters go through `loadAndRender`. It filters the
directory's answer by exact country code and sorts it by votes without
truncation.

Modules, one per part of the pipeline:

- `Wrappers`: `Option`.
- `Text`: JavaScript `trim`, `split` on a character set and on whitespace
  runs, `join` and `filter(Boolean)`.
- `Terms`: term extraction.
- `Stations`: the station record and its merge key.
- `Aggregate`: flattening and the first-wins merge.
- `Ranking`: the stable vote sort and the cut to 50.
- `Lookup`: `fetchStations`.
- `Render`: the flag, the URL rule, the tag line, `renderStations`, the
  country filter and `loadAndRender`.
- `SearchFlow`: `search`.

The network is a parameter. The station directory is a total function from
request to response (OK with stations, or not OK). The AI reply is an
`Option<string>`: its `tags` when they are a string, `None` when the call
failed or carried no usable tags. The merge loop, the card loop, `search`,
`fetchStations` and `loadAndRender` are methods. Each is proved equal to a
specification function, and the lemmas state that function's properties.

Four things the page does not do; the model follows the code:

- Terms are not de-duplicated. `"jazz, jazz"` sends two lookups for `jazz`
  (`Terms.DuplicatesKept`). Re-extraction gives the same sequence, not a
  set.
- Tag mode trims each comma piece but does not fold whitespace inside a
  tag.
- The page always sorts by `votes`. The `sortBy` value is only forwarded to
  the directory with each request.
- `fetchStations` always cuts to 50. The page has no 10-station "top"
  bound; `loadAndRender` sorts without cutting.

## Model

| member | source | states |
|---|---|---|
| `Text.Trim` | backend/app.py:189 | the trim neither starts nor ends with JavaScript whitespace |
| `Text.TrimSpec` | backend/app.py:225 | the trim is a contiguous piece of the input with only whitespace before and after it |
| `Text.TrimEmptyIff` | backend/app.py:189-190 | the trim is empty exactly when the input is all whitespace (the blank query that `search` ignores) |
| `Text.TrimTrimmed` | backend/app.py:206 | trimming an already trimmed string changes nothing |
| `Text.Split` | backend/app.py:225 | `split` always yields at least one piece |
| `Text.SplitSpec` | backend/app.py:225 | no piece contains a separator, and a separator-free string is its own only piece |
| `Text.SplitRuns` | backend/app.py:226 | `split(/\s+/)` always yields at least one piece |
| `Text.SplitConcat` | backend/app.py:225 | the pieces of `a + sep + b` are the pieces of `a` followed by those of `b` |
| `Text.JoinSplit` | backend/app.py:225 | joining the pieces of a split with the separator restores the string |
| `Text.SplitJoin` | backend/app.py:225 | splitting a join of separator-free pieces gives the pieces back |
| `Text.SplitPiecesAllIn` | backend/app.py:225 | all pieces lie in a character set exactly when the string lies in it plus the separators |
| `Text.DropEmpty` | backend/app.py:225-226 | `filter(Boolean)` keeps only non-empty pieces, each taken from its input, and yields nothing exactly when every piece is empty; it distributes over concatenation (`Text.DropEmptyConcat`) |
| `Text.DropEmptyConcat` | backend/app.py:225-226 | `filter(Boolean)` distributes over concatenation |
| `Text.SplitRunsWords` | backend/app.py:226 | after dropping empties, splitting on whitespace runs equals splitting on single whitespace characters |
| `Terms.TagTerms` | backend/app.py:225 | tag-mode extraction (comma pieces, trimmed, empties dropped): its terms are non-empty, trimmed and comma-free (`Terms.TagTermsWellFormed`), it yields nothing exactly for commas and whitespace (`Terms.TagTermsEmptyIff`), it follows concatenation (`Terms.TagTermsConcat`, `Terms.TagTermsCons`), and joining its terms with commas gives them back (`Terms.TagTermsJoin`) |
| `Terms.NameTerms` | backend/app.py:226 | name-mode extraction (whitespace runs, empties dropped): its terms are non-empty and whitespace-free (`Terms.NameTermsWellFormed`), it yields nothing exactly for a blank query (`Terms.NameTermsEmptyIff`), it follows concatenation (`Terms.NameTermsConcat`), and joining its terms with spaces gives them back (`Terms.NameTermsJoin`) |
| `Terms.ExtractTerms` | backend/app.py:224-226 | the field picks the mode; extraction is idempotent on its own output (`Terms.TermsIdempotent`), gives nothing for the empty query (`Terms.EmptyQueryNoTerms`) and keeps repeated terms (`Terms.DuplicatesKept`) |
| `Terms.TrimEachConcat` | backend/app.py:225 | trimming every piece distributes over concatenation |
| `Terms.TagTermsWellFormed` | backend/app.py:225 | every tag term is non-empty, trimmed and comma-free |
| `Terms.NameTermsWellFormed` | backend/app.py:226 | every name term is non-empty and holds no whitespace |
| `Terms.NameTermsSingleSplit` | backend/app.py:226 | name terms are the non-empty pieces of a split on single whitespace characters |
| `Terms.TagTermsConcat` | backend/app.py:225 | the tag terms of `a + "," + b` are those of `a` followed by those of `b` |
| `Terms.NameTermsConcat` | backend/app.py:226 | the name terms of `a`, a whitespace character and `b` are those of `a` followed by those of `b` |
| `Terms.TagTermsSingle` | backend/app.py:225 | a comma-free query is one tag term, its trim, unless it is blank |
| `Terms.NameTermsSingle` | backend/app.py:226 | a whitespace-free query is one name term, itself, unless it is empty |
| `Terms.TagTermsEmptyIff` | backend/app.py:225 | tag mode yields no term exactly when the query is only commas and whitespace |
| `Terms.NameTermsEmptyIff` | backend/app.py:226 | name mode yields no term exactly when the query trims to nothing |
| `Terms.EmptyQueryNoTerms` | backend/app.py:224-226 | the empty query yields no term in either mode |
| `Terms.TagTermOnly` | backend/app.py:225 | a well-formed tag term on its own extracts to itself |
| `Terms.TagTermsCons` | backend/app.py:225 | a tag term, a comma and more text extract to that term in front of the rest's terms |
| `Terms.TagTermsJoin` | backend/app.py:225 | joining tag terms with commas and extracting again gives the same terms |
| `Terms.TagTermsJoinStep` | backend/app.py:225 | the inductive step of that round trip |
| `Terms.NameTermsJoin` | backend/app.py:226 | joining name terms with spaces and extracting again gives the same terms |
| `Terms.TermsIdempotent` | backend/app.py:224-226 | in both modes, extraction is idempotent on its own output |
| `Terms.SpacedTagTerm` | backend/app.py:225 | a space before a tag term does not change what is extracted |
| `Terms.DuplicatesKept` | backend/app.py:224-226 | repeated terms are not merged: `"jazz, jazz"` gives two `jazz` lookups |
| `Stations.KeyOf` | backend/app.py:238 | the merge key, `stationuuid` or else `url_resolved`: the uuid when present and non-empty, otherwise the resolved URL; the merge keeps one station per key (`Aggregate.DedupKeys`, `Aggregate.DedupCount`) |
| `Stations.Votes` | backend/app.py:243 | the sort key, the vote count or zero for a station without a vote count; the sort orders by it (`Ranking.SortByVotesSpec`) and the cut keeps the highest (`Ranking.RankKeepsBest`) |
| `Stations.DistinctKeysCount` | backend/app.py:238 | stations with pairwise distinct keys are as many as their keys |
| `Aggregate.Flatten` | backend/app.py:237 | `batches.flat()`, the batches in order: membership (`Aggregate.FlattenMembers`), empty batches vanish (`Aggregate.FlattenSkipEmpty`), emptiness (`Aggregate.FlattenEmptyIff`) |
| `Aggregate.FlattenMembers` | backend/app.py:237 | a station is in `batches.flat()` exactly when it is in some batch |
| `Aggregate.FlattenSkipEmpty` | backend/app.py:233-237 | an empty batch (nothing found, or a response that was not OK) contributes nothing |
| `Aggregate.FlattenEmptyIff` | backend/app.py:237 | the flattened list is empty exactly when every batch is |
| `Aggregate.FirstIndex` | backend/app.py:237-239 | the first position of a key: it carries the key and no earlier position does |
| `Aggregate.FirstIndexAppend` | backend/app.py:237-239 | appending a station moves no first occurrence and gives a new key its first occurrence at the end |
| `Aggregate.Dedup` | backend/app.py:236-242 | the `Map` merge: distinct keys and no key lost (`Aggregate.DedupKeys`), the first station of each key wins (`Aggregate.DedupFirstWins`), first-appearance order (`Aggregate.DedupOrder`), one station per key (`Aggregate.DedupCount`); the loop `Aggregate.MergeBatches` computes it |
| `Aggregate.DedupKeys` | backend/app.py:236-240 | the merge holds pairwise distinct keys and exactly the keys of the input |
| `Aggregate.DedupFirstWins` | backend/app.py:236-240 | for every key the merge keeps the station at that key's first position |
| `Aggregate.DedupOrder` | backend/app.py:239-242 | the merged stations follow the order of their keys' first appearance (the `Map`'s insertion order) |
| `Aggregate.DedupOrderStep` | backend/app.py:239-242 | one more station keeps that order |
| `Aggregate.DedupEmptyIff` | backend/app.py:236-240 | the merge is empty exactly when the input is |
| `Aggregate.DedupCount` | backend/app.py:236-240 | the merge holds one station per distinct key |
| `Aggregate.MergeBatches` | backend/app.py:236-242 | the `Map` loop returns the first-wins merge of the flattened batches |
| `Ranking.Insert` | backend/app.py:243 | insertion adds exactly one station and loses none |
| `Ranking.InsertBounded` | backend/app.py:243 | inserting below a vote bound that every station respects keeps the bound |
| `Ranking.InsertSorted` | backend/app.py:243 | insertion into a vote-ordered list keeps it vote-ordered |
| `Ranking.InsertStable` | backend/app.py:243 | the inserted station goes before every station with the same votes |
| `Ranking.SortByVotes` | backend/app.py:243 | the sort is a permutation of its input |
| `Ranking.SortByVotesSpec` | backend/app.py:243 | the sort is in non-increasing vote order and stable: each vote count keeps its input order |
| `Ranking.WithVotesPrefix` | backend/app.py:244 | a prefix keeps a prefix of the stations of each vote count |
| `Ranking.Rank` | backend/app.py:242-244 | the ranked list has `min(n, 50)` stations |
| `Ranking.RankOrdered` | backend/app.py:242-244 | the ranked list is vote-ordered, draws only on its input, and keeps equal-vote stations in input order |
| `Ranking.RankKeepsBest` | backend/app.py:244 | the cut to 50 drops no station with more votes than one it keeps |
| `Ranking.SortKeepsDistinctKeys` | backend/app.py:243 | sorting keeps keys distinct |
| `Ranking.RankKeepsDistinctKeys` | backend/app.py:242-244 | ranking keeps keys distinct |
| `Lookup.BatchOf` | backend/app.py:233 | a response that is not OK contributes an empty batch (`Aggregate.FlattenSkipEmpty`, `Lookup.BatchesEmptyIff`) |
| `Lookup.Requests` | backend/app.py:224-234 | one request per extracted term, in term order, each with the pass's field and sort key; `Lookup.FetchStations` sends exactly these, and a blank query sends none (`Lookup.BlankQueryNoRequests`) |
| `Lookup.Batches` | backend/app.py:228-234 | `Promise.all`'s result, one batch per request in request order; it flattens to nothing exactly when every response is empty or not OK (`Lookup.BatchesEmptyIff`) |
| `Lookup.Fetched` | backend/app.py:223-245 | the list `fetchStations` resolves to: distinct keys, vote order, at most 50 (`Lookup.FetchedShape`), every key kept when there are at most 50 (`Lookup.FetchedKeepsAllKeys`), empty exactly when every lookup is (`Lookup.FetchedEmptyIff`); `Lookup.FetchStations` computes it |
| `Lookup.FetchStations` | backend/app.py:223-245 | `fetchStations` sends one request per term in term order and returns the ranked merge of the batches |
| `Lookup.BlankQueryNoRequests` | backend/app.py:224-228 | a blank query sends no request in either mode |
| `Lookup.FetchedShape` | backend/app.py:228-244 | the result has distinct keys and non-increasing votes, draws only on the batches, and has `min(distinct keys, 50)` stations |
| `Lookup.FetchedKeepsAllKeys` | backend/app.py:236-244 | with at most 50 distinct keys, every key found survives |
| `Lookup.BatchesEmptyIff` | backend/app.py:228-237 | the batches flatten to nothing exactly when every response is empty or not OK |
| `Lookup.FetchedEmptyIff` | backend/app.py:228-244 | `fetchStations` finds nothing exactly when every lookup came back empty or not OK |
| `Render.CountryCodeToFlag` | backend/app.py:77-83 | the flag has one code point per character of the code, and none for an absent or empty code |
| `Render.FlagRoundTrip` | backend/app.py:77-83 | a code of letters becomes regional indicators only, and reading them back gives the upper-cased code |
| `Render.FlagIgnoresCase` | backend/app.py:79-80 | two letter codes give the same flag exactly when they agree up to case |
| `Render.UpgradeUrl` | backend/app.py:256-257 | `http://` becomes `https://` with the same remainder (`Render.UpgradeKeepsAddress`); a second upgrade changes nothing (`Render.UpgradeIdempotent`) |
| `Render.Playable` | backend/app.py:256-258 | the card condition: a resolved URL starting with `http://` or `https://` (`Render.PlayableIff`) |
| `Render.PlayableIff` | backend/app.py:256-258 | a station gets a card exactly when its resolved URL is present and starts with `http://` or `https://` |
| `Render.UpgradeIdempotent` | backend/app.py:257 | upgrading a second time changes nothing |
| `Render.UpgradeKeepsAddress` | backend/app.py:257 | the upgrade turns an `http://` URL into an `https://` URL with the same remainder |
| `Render.TagLine.All` | backend/app.py:263 | a station's tags, split on commas, trimmed, empties dropped; every shown tag is a well-formed tag term (`Render.TagLineComplete`) |
| `Render.TagLine.Shown` | backend/app.py:264 | the first five tags, all of them when there are fewer (`Render.TagLineComplete`) |
| `Render.TagLine.More` | backend/app.py:266 | the ellipsis, exactly when some tag is not shown (`Render.TagLineComplete`) |
| `Render.TagLineComplete` | backend/app.py:263-266 | a card shows the first five tags (all of them when there are fewer), the ellipsis exactly when some are hidden, and only well-formed tags |
| `Render.CardsOf` | backend/app.py:255-278 | the cards of a list: exactly the playable stations get one (`Render.CardsOfComplete`, `Render.PlayableCarded`), each with its rank number and its own data (`Render.CardsOfPositions`, `Render.CardsOfContent`), in rank order (`Render.CardsOfIncreasing`); the loop `Render.RenderStations` computes it |
| `Render.CardsOfPositions` | backend/app.py:255-258 | every card carries the rank number of a playable station |
| `Render.CardsOfContent` | backend/app.py:255-277 | every card shows the name, flag, upgraded URL and tags of the station its rank number names |
| `Render.CardsOfIncreasing` | backend/app.py:255 | rank numbers increase along the cards |
| `Render.PlayableCarded` | backend/app.py:255-258 | every playable station gets a card |
| `Render.CardsOfComplete` | backend/app.py:255-258 | a station gets a card exactly when it is playable |
| `Render.ViewOf` | backend/app.py:248-278 | the results area: the message for an empty list, otherwise the cards; every card's URL is https (`Render.CardsPlayable`), and it is blank exactly when no station is playable (`Render.BlankView`) |
| `Render.CardsPlayable` | backend/app.py:256-258 | every card's URL is an https URL |
| `Render.BlankView` | backend/app.py:251-258 | the results area is left with no card and no message exactly when there are stations and none is playable |
| `Render.RenderStations` | backend/app.py:248-278 | the card loop leaves the "No stations found" message for an empty list, otherwise the cards of the playable stations |
| `Render.InCountry` | backend/app.py:178 | the exact-code filter: every copy of a matching station kept, every other dropped (`Render.InCountryCount`), in order (`Render.InCountryConcat`) |
| `Render.CountryFilter` | backend/app.py:177-178 | no filter for an empty choice, the exact-code filter otherwise; it keeps order (`Render.CountryFilterConcat`) |
| `Render.Arranged` | backend/app.py:176-180 | the list `loadAndRender` renders: the chosen country's stations, vote-ordered and stable (`Render.ArrangedSpec`) |
| `Render.InCountryCount` | backend/app.py:178 | the filter keeps every copy of a station of the chosen country and drops every other station |
| `Render.CountryFilterConcat` | backend/app.py:178 | filtering keeps order: it distributes over concatenation |
| `Render.InCountryConcat` | backend/app.py:178 | the exact-code filter distributes over concatenation |
| `Render.ArrangedSpec` | backend/app.py:176-180 | the list `loadAndRender` renders holds exactly the stations of the chosen country (all when none is chosen), in stable non-increasing vote order |
| `Render.LoadAndRender` | backend/app.py:156-185 | a response that is not OK shows the failure message; otherwise the filtered, sorted list is rendered, uncut |
| `SearchFlow.FirstPass` | backend/app.py:197-209 | a tag search on the trimmed tags when the AI gave non-empty tags, else a name search on the raw text (`SearchFlow.SearchResultSpec`) |
| `SearchFlow.SearchResult` | backend/app.py:188-220 | what `search` does: nothing for a blank box, otherwise the passes (`SearchFlow.SearchResultSpec`, `SearchFlow.FallbackIff`); `SearchFlow.Search` computes it |
| `SearchFlow.Passes` | backend/app.py:214-219 | the first pass, then the name fallback exactly when a tag pass found nothing (`SearchFlow.PassesSpec`, `SearchFlow.BlankTagsFallBack`, `SearchFlow.FallbackSendsRequests`) |
| `SearchFlow.Search` | backend/app.py:188-220 | `search` returns exactly `SearchResult`: nothing on a blank box, otherwise the AI-chosen first pass, at most one name fallback and the rendered cards |
| `SearchFlow.PassesSpec` | backend/app.py:214-219 | one or two passes. The second comes exactly when the first was a tag search that found nothing, and it is a name search on the raw text. The requests are the passes' requests in order, and the last pass's stations are rendered |
| `SearchFlow.SearchResultSpec` | backend/app.py:188-209 | a blank box does nothing; otherwise the first pass is a tag search exactly when the AI suggested non-empty tags |
| `SearchFlow.FallbackIff` | backend/app.py:205-217 | the name fallback runs exactly when the AI suggested tags and every tag lookup came back empty or not OK |
| `SearchFlow.BlankTagsFallBack` | backend/app.py:205-217 | tags made only of commas and whitespace send no tag request and always fall back to names |
| `SearchFlow.FallbackSendsRequests` | backend/app.py:217 | the name fallback on a non-blank text sends at least one request |

## Left out

- Network: all network, timing and concurrency are left out. The directory and the AI endpoint are parameters. `Promise.all` is modelled by its result in request order. The directory is a function, so two identical requests (the two `jazz` lookups of `Terms.DuplicatesKept`) get identical answers; the page sends two independent fetches, which may answer differently.
- Failed lookups: a rejected `fetch` or a body that is not JSON is not modelled. In `fetchStations` it would abort `search`; in `loadAndRender` it lands in the `catch` and shows "Failed to load stations." (lines 182-183), the same page `Render.LoadAndRender` gives a response that is not OK.
- Non-array bodies: an OK response whose JSON is not a list of station objects is not modelled; in the model every OK body is a list of stations. In the page, an object, string, number or boolean body is kept by `flat()` as one pseudo-station (lines 233-237), which makes the result non-empty and suppresses the name fallback. A `null` body, or a `null` element of an array body, makes `s.stationuuid` (line 238) throw: `fetchStations` rejects and `search` aborts (lines 214 and 217 are outside any `try`), as for a rejected fetch. In `loadAndRender` a body that is not an array fails at `filter` or `sort` and shows "Failed to load stations." (lines 178-183).
- AI errors: the AI step's failure paths (a network error, JSON that fails to parse, `tags` that are not a string) all become `None`. The page's messages in `aiResult` are not modelled.
- `Stations.KeyOf`: `null` and `undefined` as `url_resolved` both become the absent key. The page's `Map` compares keys with SameValueZero, so it keeps these two apart: `[{url_resolved: null}, {}]` without uuids keeps both stations on the page, while the model merges them and keeps only the first.
- `Render.CountryCodeToFlag`: it upper-cases ASCII letters only. JavaScript's `toUpperCase` of other characters (which may change the length) is not modelled. The flag is a sequence of code points, not a UTF-16 string.
- Markup: the DOM, HTML strings, the "Unknown country" and "—" fillers, clicks, bitrate, codec, emoji images (`twemoji`) and the audio players (one playing at a time) are left out. A card holds the rank number, name, flag, stream URL and tag line. The country name (line 270) and the click, vote, bitrate and codec line (lines 273-274) are not part of a card.
- `initFilters` (lines 106-153) is not part of this model. That covers the country list, the genre list and the change handlers that call `loadAndRender` with `{top: true}` or a genre tag. `LoadAndRender` takes the directory's response and the country select's value as parameters.
- `Render.LoadAndRender`: the country filter compares codes exactly, as the source does. The select's option values are lower-cased (line 114). Whether they can ever match a station's `countrycode` depends on the casing the directory uses, which is not part of this model.
- Click-to-search: clicking a tag to search it (lines 92-98) and the Enter key are not modelled. They only call `search` with the box's new text.
