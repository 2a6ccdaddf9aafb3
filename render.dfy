/**
 * What the page shows: `countryCodeToFlag`, the http-to-https upgrade and
 * the https-only rule of `renderStations`, the tag line of a card (the
 * first five tags, then an ellipsis only when there are more than five),
 * the cards themselves, and `loadAndRender`'s country filter and vote sort.
 * Markup, styling, emoji images and audio are not modelled. A card holds
 * the rank number, name, flag, stream URL and tag line; the country name
 * and the clicks, votes, bitrate and codec lines are not part of it.
 */
module Render {
  import opened Wrappers
  import opened Text
  import opened Terms
  import opened Stations
  import opened Ranking
  import opened Lookup

  // ---- countryCodeToFlag --------------------------------------------------

  /** The code point of REGIONAL INDICATOR SYMBOL LETTER A. */
  const RegionalIndicatorA: int := 0x1F1E6

  /** `toUpperCase` on ASCII; other characters are left as they are. */
  function UpperAscii(c: char): char {
    if 'a' <= c <= 'z' then (c as int - 32) as char else c
  }

  function UpperAll(s: string): string {
    seq(|s|, i requires 0 <= i < |s| => UpperAscii(s[i]))
  }

  predicate AsciiLetters(s: string) {
    forall i :: 0 <= i < |s| ==> 'a' <= s[i] <= 'z' || 'A' <= s[i] <= 'Z'
  }

  predicate IsRegionalIndicator(cp: int) {
    RegionalIndicatorA <= cp < RegionalIndicatorA + 26
  }

  /** `countryCodeToFlag(cc)`, as the code points of the flag string: each
      character `c` of the upper-cased code gives `0x1F1E6 + c - 65`; an
      absent or empty code gives the empty string. */
  function CountryCodeToFlag(cc: Option<string>): (flag: seq<int>)
    ensures |flag| == if cc.Some? then |cc.value| else 0
  {
    if cc.None? || cc.value == "" then []
    else
      var code := cc.value;
      seq(|code|, i requires 0 <= i < |code| => RegionalIndicatorA + UpperAscii(code[i]) as int - 'A' as int)
  }

  /** The letter a regional indicator stands for. */
  function RegionalLetter(cp: int): (c: char)
    requires IsRegionalIndicator(cp)
    ensures 'A' <= c <= 'Z'
  {
    ('A' as int + cp - RegionalIndicatorA) as char
  }

  /** Reads a flag back as the code it was made from. */
  function FlagCode(flag: seq<int>): (code: string)
    requires forall i :: 0 <= i < |flag| ==> IsRegionalIndicator(flag[i])
    ensures |code| == |flag|
  {
    seq(|flag|, i requires 0 <= i < |flag| => RegionalLetter(flag[i]))
  }

  /** A code of letters becomes regional indicators only, and reading them
      back gives the upper-cased code. */
  lemma FlagRoundTrip(cc: string)
    requires AsciiLetters(cc)
    ensures var flag := CountryCodeToFlag(Some(cc));
            && (forall i :: 0 <= i < |flag| ==> IsRegionalIndicator(flag[i]))
            && FlagCode(flag) == UpperAll(cc)
  {
    var flag := CountryCodeToFlag(Some(cc));
    if cc != "" {
      forall i | 0 <= i < |cc|
        ensures IsRegionalIndicator(flag[i]) && RegionalLetter(flag[i]) == UpperAll(cc)[i]
      {
        assert flag[i] == RegionalIndicatorA + UpperAscii(cc[i]) as int - 'A' as int;
      }
    }
  }

  /** Two codes of letters give the same flag exactly when they agree up to
      case. */
  lemma FlagIgnoresCase(a: string, b: string)
    requires AsciiLetters(a) && AsciiLetters(b)
    ensures CountryCodeToFlag(Some(a)) == CountryCodeToFlag(Some(b)) <==> UpperAll(a) == UpperAll(b)
  {
    FlagRoundTrip(a);
    FlagRoundTrip(b);
    if UpperAll(a) == UpperAll(b) {
      assert |a| == |b|;
      if a != "" {
        forall i | 0 <= i < |a|
          ensures CountryCodeToFlag(Some(a))[i] == CountryCodeToFlag(Some(b))[i]
        {
          assert UpperAll(a)[i] == UpperAll(b)[i];
        }
      }
    }
  }

  // ---- the stream URL -----------------------------------------------------

  const HttpScheme: string := "http://"
  const HttpsScheme: string := "https://"

  /** `url_resolved || ""`, with a leading `http://` replaced by `https://`. */
  function UpgradeUrl(url: Option<string>): string {
    var raw := url.GetOr("");
    if StartsWith(raw, HttpScheme) then HttpsScheme + raw[|HttpScheme|..] else raw
  }

  /** A station gets a card only if its upgraded URL is an https URL. */
  predicate Playable(s: Station) {
    StartsWith(UpgradeUrl(s.urlResolved), HttpsScheme)
  }

  /** A station is playable exactly when its resolved URL is present and is
      an http or an https URL. */
  lemma PlayableIff(s: Station)
    ensures Playable(s) <==>
            s.urlResolved.Some? && (StartsWith(s.urlResolved.value, HttpScheme) || StartsWith(s.urlResolved.value, HttpsScheme))
  {
    var raw := s.urlResolved.GetOr("");
    if StartsWith(raw, HttpScheme) {
      var u := HttpsScheme + raw[|HttpScheme|..];
      assert u[..|HttpsScheme|] == HttpsScheme;
    }
    if s.urlResolved.None? {
      assert raw == "";
    }
  }

  /** The upgrade changes nothing the second time: an upgraded URL never
      starts with `http://`. */
  lemma UpgradeIdempotent(url: Option<string>)
    ensures UpgradeUrl(Some(UpgradeUrl(url))) == UpgradeUrl(url)
  {
    var raw := url.GetOr("");
    if StartsWith(raw, HttpScheme) {
      var u := HttpsScheme + raw[|HttpScheme|..];
      assert u[4] != HttpScheme[4];
    }
  }

  /** The upgrade keeps everything after the scheme. */
  lemma UpgradeKeepsAddress(url: Option<string>)
    requires url.Some? && StartsWith(url.value, HttpScheme)
    ensures StartsWith(UpgradeUrl(url), HttpsScheme)
    ensures UpgradeUrl(url)[|HttpsScheme|..] == url.value[|HttpScheme|..]
  {
    var u := UpgradeUrl(url);
    assert u == HttpsScheme + url.value[|HttpScheme|..];
    assert u[..|HttpsScheme|] == HttpsScheme;
  }

  // ---- the tag line -------------------------------------------------------

  /** `disp = tagsArr.slice(0, 5)` */
  const MaxShownTags: nat := 5

  /** The tag line of a card, fixed by the station's `tags` field: the
      tags it shows and whether `", …"` follows them. */
  datatype TagLine = TagLine(tags: Option<string>) {
    /** `(s.tags || "").split(",").map(t => t.trim()).filter(Boolean)` */
    function All(): seq<string> {
      TagTerms(tags.GetOr(""))
    }

    /** `tagsArr.slice(0, 5)` */
    function Shown(): seq<string> {
      All()[..Min(|All()|, MaxShownTags)]
    }

    /** `tagsArr.length > 5` */
    predicate More() {
      |All()| > MaxShownTags
    }
  }

  /** A card shows the first five tags, or all of them when there are
      fewer; the ellipsis follows exactly when some tag is not shown, and
      every shown tag is non-empty, trimmed and comma-free. */
  lemma TagLineComplete(line: TagLine)
    ensures line.Shown() <= line.All()
    ensures |line.Shown()| == Min(|line.All()|, MaxShownTags)
    ensures !line.More() <==> line.Shown() == line.All()
    ensures forall k :: 0 <= k < |line.Shown()| ==> IsTagTerm(line.Shown()[k])
  {
    var all := line.All();
    TagTermsWellFormed(line.tags.GetOr(""));
    assert forall k :: 0 <= k < |line.Shown()| ==> line.Shown()[k] == all[k];
  }

  // ---- cards --------------------------------------------------------------

  /** A card: its rank number `#i+1`, the name, the flag, the stream URL and
      the tag line. */
  datatype Card = Card(position: nat, name: string, flag: seq<int>, url: string, tags: TagLine)

  /** The results area: the "No stations found" message, or the cards. */
  datatype View = NoStations | Cards(cards: seq<Card>)

  function CardOf(s: Station, position: nat): Card {
    Card(position, s.name, CountryCodeToFlag(s.countryCode), UpgradeUrl(s.urlResolved), TagLine(s.tags))
  }

  /** The cards `renderStations` appends, in order: one for each station
      whose upgraded URL is an https URL, numbered by its rank in the whole
      list. */
  function CardsOf(stations: seq<Station>): seq<Card> {
    if stations == [] then []
    else
      var n := |stations|;
      var prior := CardsOf(stations[..n - 1]);
      if Playable(stations[n - 1]) then prior + [CardOf(stations[n - 1], n)] else prior
  }

  /** The rank numbers on the cards, in order. */
  function Positions(cards: seq<Card>): seq<nat> {
    seq(|cards|, j requires 0 <= j < |cards| => cards[j].position)
  }

  /** Every card carries the rank number of a playable station. */
  lemma {:induction false} CardsOfPositions(stations: seq<Station>)
    ensures forall j :: 0 <= j < |CardsOf(stations)| ==>
              1 <= CardsOf(stations)[j].position <= |stations|
              && Playable(stations[CardsOf(stations)[j].position - 1])
  {
    if stations != [] {
      var n := |stations|;
      var p := stations[..n - 1];
      CardsOfPositions(p);
      var cards := CardsOf(stations);
      var prior := CardsOf(p);
      forall j | 0 <= j < |cards|
        ensures 1 <= cards[j].position <= n && Playable(stations[cards[j].position - 1])
      {
        if j < |prior| {
          assert cards[j] == prior[j];
          assert p[prior[j].position - 1] == stations[prior[j].position - 1];
        }
      }
    }
  }

  /** Every card is the card of the station its rank number names. */
  lemma {:induction false} CardsOfContent(stations: seq<Station>)
    ensures forall j :: 0 <= j < |CardsOf(stations)| ==>
              var c := CardsOf(stations)[j];
              1 <= c.position <= |stations| && c == CardOf(stations[c.position - 1], c.position)
  {
    if stations != [] {
      var n := |stations|;
      var p := stations[..n - 1];
      CardsOfContent(p);
      var cards := CardsOf(stations);
      var prior := CardsOf(p);
      forall j | 0 <= j < |cards|
        ensures 1 <= cards[j].position <= n
                && cards[j] == CardOf(stations[cards[j].position - 1], cards[j].position)
      {
        if j < |prior| {
          var c := prior[j];
          assert cards[j] == c;
          assert p[c.position - 1] == stations[c.position - 1];
        }
      }
    }
  }

  /** Rank numbers increase along the cards: they follow the list's order. */
  lemma {:induction false} CardsOfIncreasing(stations: seq<Station>)
    ensures forall j, j' :: 0 <= j < j' < |CardsOf(stations)| ==>
              CardsOf(stations)[j].position < CardsOf(stations)[j'].position
  {
    if stations != [] {
      var n := |stations|;
      var p := stations[..n - 1];
      CardsOfIncreasing(p);
      CardsOfPositions(p);
      var cards := CardsOf(stations);
      var prior := CardsOf(p);
      forall j, j' | 0 <= j < j' < |cards| ensures cards[j].position < cards[j'].position {
        assert cards[j] == prior[j];
        if j' < |prior| {
          assert cards[j'] == prior[j'];
        }
      }
    }
  }

  /** A playable station gets a card. */
  lemma {:induction false} PlayableCarded(stations: seq<Station>, i: nat)
    requires i < |stations| && Playable(stations[i])
    ensures i + 1 in Positions(CardsOf(stations))
  {
    var n := |stations|;
    var p := stations[..n - 1];
    var cards := CardsOf(stations);
    var prior := CardsOf(p);
    if i == n - 1 {
      assert Positions(cards)[|prior|] == n;
    } else {
      assert p[i] == stations[i];
      PlayableCarded(p, i);
      assert Positions(prior) <= Positions(cards);
    }
  }

  /** A station gets a card exactly when it is playable. */
  lemma CardsOfComplete(stations: seq<Station>)
    ensures forall i :: 0 <= i < |stations| ==>
              (Playable(stations[i]) <==> i + 1 in Positions(CardsOf(stations)))
  {
    var cards := CardsOf(stations);
    var ps := Positions(cards);
    CardsOfPositions(stations);
    forall i | 0 <= i < |stations| ensures Playable(stations[i]) <==> i + 1 in ps {
      if Playable(stations[i]) {
        PlayableCarded(stations, i);
      }
      if i + 1 in ps {
        var k :| 0 <= k < |ps| && ps[k] == i + 1;
        assert cards[k].position == i + 1;
      }
    }
  }

  /** What `renderStations(stations)` leaves in the results area. */
  function ViewOf(stations: seq<Station>): View {
    if stations == [] then NoStations else Cards(CardsOf(stations))
  }

  /** Every card shows a playable station with an https stream URL. */
  lemma CardsPlayable(stations: seq<Station>)
    ensures ViewOf(stations).Cards? ==>
              forall j :: 0 <= j < |ViewOf(stations).cards| ==> StartsWith(ViewOf(stations).cards[j].url, HttpsScheme)
  {
    CardsOfContent(stations);
    CardsOfPositions(stations);
  }

  /** With stations to show but none playable, the results area is left
      blank rather than showing the "No stations found" message. */
  lemma BlankView(stations: seq<Station>)
    ensures ViewOf(stations) == Cards([]) <==>
            stations != [] && forall i :: 0 <= i < |stations| ==> !Playable(stations[i])
  {
    CardsOfComplete(stations);
    CardsOfPositions(stations);
    var cards := CardsOf(stations);
    if stations != [] && cards != [] {
      assert Playable(stations[cards[0].position - 1]);
    }
  }

  /** One more station appends its card exactly when it is playable. */
  lemma CardsOfStep(stations: seq<Station>, i: nat)
    requires i < |stations|
    ensures CardsOf(stations[..i + 1])
            == CardsOf(stations[..i]) + (if Playable(stations[i]) then [CardOf(stations[i], i + 1)] else [])
  {
    assert stations[..i + 1][..i] == stations[..i];
  }

  /** `renderStations(stations)` */
  method RenderStations(stations: seq<Station>) returns (view: View)
    ensures view == ViewOf(stations)
  {
    if |stations| == 0 {
      return NoStations;
    }
    var cards: seq<Card> := [];
    assert stations[..0] == [];
    var i := 0;
    while i < |stations|
      invariant 0 <= i <= |stations|
      invariant cards == CardsOf(stations[..i])
    {
      var s := stations[i];
      var url := UpgradeUrl(s.urlResolved);
      CardsOfStep(stations, i);
      if StartsWith(url, HttpsScheme) {
        cards := cards + [Card(i + 1, s.name, CountryCodeToFlag(s.countryCode), url, TagLine(s.tags))];
      }
      i := i + 1;
    }
    assert stations[..i] == stations;
    view := Cards(cards);
  }

  // ---- loadAndRender ------------------------------------------------------

  /** The stations whose country code is exactly `cc`, in order. */
  function InCountry(stations: seq<Station>, cc: string): seq<Station> {
    if stations == [] then []
    else
      (if stations[0].countryCode == Some(cc) then [stations[0]] else []) + InCountry(stations[1..], cc)
  }

  /** The filter keeps every copy of a station of the country and drops
      every other station. */
  lemma {:induction false} InCountryCount(stations: seq<Station>, cc: string, s: Station)
    ensures multiset(InCountry(stations, cc))[s] == if s.countryCode == Some(cc) then multiset(stations)[s] else 0
  {
    if stations != [] {
      InCountryCount(stations[1..], cc, s);
      assert stations == [stations[0]] + stations[1..];
    }
  }

  /** `if (cc) stations = stations.filter(s => s.countrycode === cc)`: the
      comparison is exact, so case matters. */
  function CountryFilter(stations: seq<Station>, cc: string): seq<Station> {
    if cc == "" then stations else InCountry(stations, cc)
  }

  /** Filtering keeps order: filtering a concatenation is concatenating the
      filtered parts. */
  lemma {:induction false} CountryFilterConcat(a: seq<Station>, b: seq<Station>, cc: string)
    ensures CountryFilter(a + b, cc) == CountryFilter(a, cc) + CountryFilter(b, cc)
  {
    if cc != "" {
      InCountryConcat(a, b, cc);
    }
  }

  lemma {:induction false} InCountryConcat(a: seq<Station>, b: seq<Station>, cc: string)
    ensures InCountry(a + b, cc) == InCountry(a, cc) + InCountry(b, cc)
  {
    if a == [] {
      assert a + b == b;
    } else {
      var ab := a + b;
      assert ab[0] == a[0];
      assert ab[1..] == a[1..] + b;
      InCountryConcat(a[1..], b, cc);
    }
  }

  /** The list `loadAndRender` renders: filtered, then sorted by votes, and
      not cut to 50. */
  function Arranged(stations: seq<Station>, cc: string): seq<Station> {
    SortByVotes(CountryFilter(stations, cc))
  }

  /** The arranged list holds exactly the stations of the chosen country
      (all of them when no country is chosen), in non-increasing vote order,
      equal votes in response order. */
  lemma ArrangedSpec(stations: seq<Station>, cc: string)
    ensures var r := Arranged(stations, cc);
            && (cc == "" ==> multiset(r) == multiset(stations))
            && (cc != "" ==> forall s :: multiset(r)[s] == if s.countryCode == Some(cc) then multiset(stations)[s] else 0)
            && NonIncreasing(r)
            && forall v :: WithVotes(r, v) == WithVotes(CountryFilter(stations, cc), v)
  {
    SortByVotesSpec(CountryFilter(stations, cc));
    if cc != "" {
      forall s ensures multiset(Arranged(stations, cc))[s]
                       == if s.countryCode == Some(cc) then multiset(stations)[s] else 0
      {
        InCountryCount(stations, cc, s);
      }
    }
  }

  /** What the results area ends up as after `loadAndRender`. */
  datatype Page = LoadFailed | Rendered(view: View)

  /** `loadAndRender(opts)` once the `/search` response is in; `cc` is the
      country select's value. */
  method LoadAndRender(response: Response, cc: string) returns (page: Page)
    ensures response.NotOk? ==> page == LoadFailed
    ensures response.Ok? ==> page == Rendered(ViewOf(Arranged(response.stations, cc)))
  {
    if response.NotOk? {
      return LoadFailed;
    }
    var stations := response.stations;
    if cc != "" {
      stations := InCountry(stations, cc);
    }
    stations := SortByVotes(stations);
    var view := RenderStations(stations);
    page := Rendered(view);
  }
}
