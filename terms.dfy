/**
 * Term extraction in `fetchStations`: a query becomes the list of search
 * terms, one directory lookup each. In tag mode the query is split on
 * commas and every piece trimmed; in name mode it is split on runs of
 * whitespace; in both, empty pieces are dropped. Terms are not
 * de-duplicated.
 */
module Terms {
  import opened Text

  /** The `field` of a lookup: match station names or station tags. */
  datatype Field = Name | Tag

  /** A term of tag mode: non-empty, trimmed, without a comma. */
  predicate IsTagTerm(t: string) {
    t != "" && Trimmed(t) && NoneIn(t, {','})
  }

  /** A term of name mode: non-empty, without whitespace. */
  predicate IsNameTerm(t: string) {
    t != "" && NoneIn(t, Whitespace)
  }

  /** `.map(s => s.trim())` */
  function TrimEach(xs: seq<string>): seq<string> {
    seq(|xs|, k requires 0 <= k < |xs| => Trim(xs[k]))
  }

  /** `query.split(",").map(s => s.trim()).filter(Boolean)` */
  function TagTerms(query: string): seq<string> {
    DropEmpty(TrimEach(Split(query, {','})))
  }

  /** `query.split(/\s+/).filter(Boolean)` */
  function NameTerms(query: string): seq<string> {
    DropEmpty(SplitRuns(query))
  }

  function ExtractTerms(query: string, field: Field): seq<string> {
    match field
    case Tag => TagTerms(query)
    case Name => NameTerms(query)
  }

  lemma TrimEachConcat(a: seq<string>, b: seq<string>)
    ensures TrimEach(a + b) == TrimEach(a) + TrimEach(b)
  {
    var l := TrimEach(a + b);
    var r := TrimEach(a) + TrimEach(b);
    assert |l| == |r|;
    forall k | 0 <= k < |l| ensures l[k] == r[k] {
      if k < |a| {
        assert (a + b)[k] == a[k];
      } else {
        assert (a + b)[k] == b[k - |a|];
      }
    }
  }

  /** Every tag term is non-empty, trimmed and comma-free. */
  lemma TagTermsWellFormed(query: string)
    ensures forall k :: 0 <= k < |TagTerms(query)| ==> IsTagTerm(TagTerms(query)[k])
  {
    var pieces := Split(query, {','});
    var trimmed := TrimEach(pieces);
    SplitSpec(query, {','});
    forall k | 0 <= k < |trimmed|
      ensures Trimmed(trimmed[k]) && NoneIn(trimmed[k], {','})
    {
      TrimNoneIn(pieces[k], {','});
    }
  }

  /** Every name term is non-empty and has no whitespace in it. */
  lemma NameTermsWellFormed(query: string)
    ensures forall k :: 0 <= k < |NameTerms(query)| ==> IsNameTerm(NameTerms(query)[k])
  {
    SplitRunsWords(query);
    SplitSpec(query, Whitespace);
  }

  /** Name mode reads the same words as a split on every single whitespace
      character. */
  lemma NameTermsSingleSplit(query: string)
    ensures NameTerms(query) == DropEmpty(Split(query, Whitespace))
  {
    SplitRunsWords(query);
  }

  /** Order: the tag terms of `a + "," + b` are those of `a` followed by
      those of `b`. */
  lemma TagTermsConcat(a: string, b: string)
    ensures TagTerms(a + [','] + b) == TagTerms(a) + TagTerms(b)
  {
    SplitConcat(a, ',', b, {','});
    TrimEachConcat(Split(a, {','}), Split(b, {','}));
    DropEmptyConcat(TrimEach(Split(a, {','})), TrimEach(Split(b, {','})));
  }

  /** Order: the name terms of `a`, a whitespace character, `b` are those of
      `a` followed by those of `b`. */
  lemma NameTermsConcat(a: string, c: char, b: string)
    requires c in Whitespace
    ensures NameTerms(a + [c] + b) == NameTerms(a) + NameTerms(b)
  {
    NameTermsSingleSplit(a + [c] + b);
    NameTermsSingleSplit(a);
    NameTermsSingleSplit(b);
    SplitConcat(a, c, b, Whitespace);
    DropEmptyConcat(Split(a, Whitespace), Split(b, Whitespace));
  }

  /** A comma-free query is one term, its trim, unless it is blank. */
  lemma TagTermsSingle(query: string)
    requires NoneIn(query, {','})
    ensures TagTerms(query) == if Trim(query) == "" then [] else [Trim(query)]
  {
    SplitSpec(query, {','});
    assert TrimEach([query]) == [Trim(query)];
  }

  /** A query without whitespace is one term, itself, unless it is empty. */
  lemma NameTermsSingle(query: string)
    requires NoneIn(query, Whitespace)
    ensures NameTerms(query) == if query == "" then [] else [query]
  {
    NameTermsSingleSplit(query);
    SplitSpec(query, Whitespace);
  }

  /** Tag mode yields no term exactly when the query holds nothing but
      commas and whitespace. */
  lemma TagTermsEmptyIff(query: string)
    ensures TagTerms(query) == [] <==> AllIn(query, {','} + Whitespace)
  {
    var pieces := Split(query, {','});
    SplitPiecesAllIn(query, {','}, Whitespace);
    forall k | 0 <= k < |pieces|
      ensures TrimEach(pieces)[k] == "" <==> AllIn(pieces[k], Whitespace)
    {
      TrimEmptyIff(pieces[k]);
    }
  }

  /** Name mode yields no term, and so no lookup, exactly when the query is
      empty or all whitespace. */
  lemma NameTermsEmptyIff(query: string)
    ensures NameTerms(query) == [] <==> Trim(query) == ""
  {
    NameTermsSingleSplit(query);
    var pieces := Split(query, Whitespace);
    SplitPiecesAllIn(query, Whitespace, {});
    TrimEmptyIff(query);
    assert Whitespace + {} == Whitespace;
    forall k | 0 <= k < |pieces|
      ensures pieces[k] == "" <==> AllIn(pieces[k], {})
    {
      AllInNothing(pieces[k]);
    }
  }

  lemma AllInNothing(s: string)
    ensures AllIn(s, {}) <==> s == ""
  {
    var none: set<char> := {};
    if s != "" {
      assert s[0] !in none;
      assert !AllIn(s, none);
    }
  }

  /** The empty query has no terms in either mode. */
  lemma EmptyQueryNoTerms()
    ensures TagTerms("") == [] && NameTerms("") == []
  {
    assert Split("", {','}) == [""];
    assert TrimEach([""]) == [""];
  }

  /** A tag term on its own extracts to itself. */
  lemma TagTermOnly(t: string)
    requires IsTagTerm(t)
    ensures TagTerms(t) == [t]
  {
    TagTermsSingle(t);
    TrimTrimmed(t);
  }

  /** A tag term followed by a comma adds itself in front of the terms of
      what follows. */
  lemma TagTermsCons(t: string, rest: string)
    requires IsTagTerm(t)
    ensures TagTerms(t + [','] + rest) == [t] + TagTerms(rest)
  {
    TagTermOnly(t);
    TagTermsConcat(t, rest);
  }

  /** Re-joining tag terms with commas and extracting again gives the same
      terms. */
  lemma {:induction false} TagTermsJoin(terms: seq<string>)
    requires forall k :: 0 <= k < |terms| ==> IsTagTerm(terms[k])
    ensures TagTerms(Join(terms, ',')) == terms
  {
    if terms == [] {
      EmptyQueryNoTerms();
    } else if |terms| == 1 {
      TagTermOnly(terms[0]);
      assert Join(terms, ',') == terms[0];
    } else {
      var tail := terms[1..];
      assert forall k :: 0 <= k < |tail| ==> tail[k] == terms[k + 1];
      TagTermsJoin(tail);
      TagTermsJoinStep(terms);
    }
  }

  /** The step of `TagTermsJoin`: a first term in front of terms that
      already survive the round trip. */
  lemma TagTermsJoinStep(terms: seq<string>)
    requires |terms| >= 2 && IsTagTerm(terms[0])
    requires TagTerms(Join(terms[1..], ',')) == terms[1..]
    ensures TagTerms(Join(terms, ',')) == terms
  {
    var rest := Join(terms[1..], ',');
    assert Join(terms, ',') == terms[0] + [','] + rest;
    TagTermsCons(terms[0], rest);
    assert terms == [terms[0]] + terms[1..];
  }

  /** Re-joining name terms with spaces and extracting again gives the same
      terms. */
  lemma {:induction false} NameTermsJoin(terms: seq<string>)
    requires forall k :: 0 <= k < |terms| ==> IsNameTerm(terms[k])
    ensures NameTerms(Join(terms, ' ')) == terms
  {
    if terms == [] {
      EmptyQueryNoTerms();
    } else if |terms| == 1 {
      NameTermsSingle(terms[0]);
    } else {
      var rest := Join(terms[1..], ' ');
      assert Join(terms, ' ') == terms[0] + [' '] + rest;
      NameTermsJoin(terms[1..]);
      NameTermsSingle(terms[0]);
      NameTermsConcat(terms[0], ' ', rest);
      assert terms == [terms[0]] + terms[1..];
    }
  }

  /** Extraction is idempotent on its own canonical output. */
  lemma TermsIdempotent(query: string, field: Field)
    ensures field == Tag ==> TagTerms(Join(ExtractTerms(query, field), ',')) == ExtractTerms(query, field)
    ensures field == Name ==> NameTerms(Join(ExtractTerms(query, field), ' ')) == ExtractTerms(query, field)
  {
    if field == Tag {
      TagTermsWellFormed(query);
      TagTermsJoin(TagTerms(query));
    } else {
      NameTermsWellFormed(query);
      NameTermsJoin(NameTerms(query));
    }
  }

  /** A space before a tag term does not change what is extracted. */
  lemma SpacedTagTerm(t: string)
    requires IsTagTerm(t)
    ensures TagTerms([' '] + t) == [t]
  {
    var spaced := [' '] + t;
    assert spaced[1..] == t;
    TrimStartStep(spaced);
    TrimTrimmed(t);
    assert Trim(spaced) == t;
    assert NoneIn(spaced, {','}) by {
      forall k | 0 <= k < |spaced| ensures spaced[k] != ',' {
        if k > 0 {
          assert spaced[k] == t[k - 1];
        }
      }
    }
    TagTermsSingle(spaced);
  }

  /** Repeated terms are kept: `"jazz, jazz"` gives two lookups for
      `"jazz"`. */
  lemma DuplicatesKept(t: string)
    requires IsTagTerm(t)
    ensures TagTerms(t + ", " + t) == [t, t]
  {
    var q := t + [','] + ([' '] + t);
    assert q == t + ", " + t;
    SpacedTagTerm(t);
    TagTermsCons(t, [' '] + t);
  }
}
