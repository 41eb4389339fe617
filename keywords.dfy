/** `extract_keywords(text, max_keywords=20)`: the normalised tokens that are
    not keyword stopwords and are longer than three characters, ranked by
    `Counter(...).most_common(max_keywords)` and kept when they occur more
    than once. */
module Keywords {
  import opened CharClasses
  import opened Tokenize
  import opened Counting
  import opened Stopwords

  /** `word not in stopwords and len(word) > 3`. */
  predicate IsKeywordToken(w: string) {
    w !in KeywordStopwords && |w| > 3
  }

  /** The filtered token list that is counted. */
  function KeywordTokens(text: string): seq<string> {
    Filter(IsKeywordToken, Tokens(text))
  }

  /** `extract_keywords(text, max_keywords)`. */
  function ExtractKeywords(text: string, maxKeywords: int := 20): (r: seq<string>)
    ensures forall w :: w in r ==> IsKeywordToken(w) && Count(KeywordTokens(text), w) >= 2
  {
    Top(KeywordTokens(text), maxKeywords)
  }

  /** At most `max_keywords` keywords, pairwise distinct; each is longer than
      three characters, is not a stopword, and occurs at least twice among the
      normalised tokens of the text. */
  lemma KeywordsSpec(text: string, maxKeywords: int)
    ensures |ExtractKeywords(text, maxKeywords)| <= if maxKeywords < 0 then 0 else maxKeywords
    ensures NoDups(ExtractKeywords(text, maxKeywords))
    ensures forall i :: 0 <= i < |ExtractKeywords(text, maxKeywords)| ==>
      && |ExtractKeywords(text, maxKeywords)[i]| > 3
      && ExtractKeywords(text, maxKeywords)[i] !in KeywordStopwords
      && Count(Tokens(text), ExtractKeywords(text, maxKeywords)[i]) >= 2
  {
    var r := ExtractKeywords(text, maxKeywords);
    TopSpec(KeywordTokens(text), maxKeywords);
    forall i | 0 <= i < |r|
      ensures IsKeywordToken(r[i]) && Count(Tokens(text), r[i]) >= 2
    {
      assert r[i] in r;
      var k :| 0 <= k < |KeywordTokens(text)| && KeywordTokens(text)[k] == r[i];
      FilterCount(IsKeywordToken, Tokens(text), r[i]);
    }
  }

  /** Keywords come out in rank order: a keyword's count among the filtered
      tokens is its count among all tokens, counts never increase along the
      list, and equal counts keep the order of first occurrence in the
      filtered tokens. */
  lemma KeywordsRanked(text: string, maxKeywords: int)
    ensures forall i :: 0 <= i < |ExtractKeywords(text, maxKeywords)| ==>
      Count(KeywordTokens(text), ExtractKeywords(text, maxKeywords)[i]) == Count(Tokens(text), ExtractKeywords(text, maxKeywords)[i])
    ensures forall i, j :: 0 <= i < j < |ExtractKeywords(text, maxKeywords)| ==>
      Before(KeywordTokens(text), ExtractKeywords(text, maxKeywords)[i], ExtractKeywords(text, maxKeywords)[j])
  {
    var r := ExtractKeywords(text, maxKeywords);
    TopSpec(KeywordTokens(text), maxKeywords);
    forall i | 0 <= i < |r|
      ensures Count(KeywordTokens(text), r[i]) == Count(Tokens(text), r[i])
    {
      assert r[i] in r;
      var k :| 0 <= k < |KeywordTokens(text)| && KeywordTokens(text)[k] == r[i];
      FilterCount(IsKeywordToken, Tokens(text), r[i]);
    }
  }

  /** No qualifying repeated token is missing unless the list already holds
      `max_keywords` words that all rank above it. */
  lemma KeywordsComplete(text: string, maxKeywords: int, w: string)
    requires w in Tokens(text) && IsKeywordToken(w) && Count(Tokens(text), w) >= 2
    requires w !in ExtractKeywords(text, maxKeywords)
    ensures |ExtractKeywords(text, maxKeywords)| == if maxKeywords < 0 then 0 else maxKeywords
    ensures forall y :: y in ExtractKeywords(text, maxKeywords) ==> Before(KeywordTokens(text), y, w)
  {
    FilterCount(IsKeywordToken, Tokens(text), w);
    assert w in multiset(KeywordTokens(text));
    TopComplete(KeywordTokens(text), maxKeywords, w);
  }

  /** Keywords are runs of word characters: no whitespace, no punctuation and
      no ASCII capital letter. */
  lemma KeywordsAreWords(text: string, maxKeywords: int)
    ensures forall i, k :: 0 <= i < |ExtractKeywords(text, maxKeywords)| && 0 <= k < |ExtractKeywords(text, maxKeywords)[i]| ==>
      var c := ExtractKeywords(text, maxKeywords)[i][k];
      IsWordChar(c) && !IsSpace(c) && !IsAsciiUpper(c)
  {
    var r := ExtractKeywords(text, maxKeywords);
    TopSpec(KeywordTokens(text), maxKeywords);
    forall i, k | 0 <= i < |r| && 0 <= k < |r[i]|
      ensures IsWordChar(r[i][k]) && !IsSpace(r[i][k]) && !IsAsciiUpper(r[i][k])
    {
      assert r[i] in r;
      var j :| 0 <= j < |KeywordTokens(text)| && KeywordTokens(text)[j] == r[i];
      TokenIsWord(text, r[i]);
    }
  }

  /** Text whose every token is a stopword or at most three characters long
      yields no keywords. */
  lemma NoContentNoKeywords(text: string, maxKeywords: int)
    requires forall i :: 0 <= i < |Tokens(text)| ==> !IsKeywordToken(Tokens(text)[i])
    ensures ExtractKeywords(text, maxKeywords) == []
  {
    FilterNone(IsKeywordToken, Tokens(text));
    assert Distinct<string>([]) == [];
  }

  /** Empty text yields no keywords. */
  lemma EmptyTextNoKeywords(maxKeywords: int)
    ensures ExtractKeywords("", maxKeywords) == []
  {
    EmptyTextHasNoTokens();
    NoContentNoKeywords("", maxKeywords);
  }
}
