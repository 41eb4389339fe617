/** `extract_phrases(text, max_phrases=10)`: the normalised tokens that are
    not phrase stopwords and are longer than two characters; every two-word
    window of that filtered list, then every three-word window, appended to a
    list; the list ranked by `Counter(...).most_common(max_phrases)` and kept
    when a phrase occurs more than once. */
module Phrases {
  import opened CharClasses
  import opened Tokenize
  import opened Counting
  import opened Stopwords
  import Keywords

  /** `word not in stopwords and len(word) > 2`. */
  predicate IsPhraseToken(w: string) {
    w !in PhraseStopwords && |w| > 2
  }

  /** The filtered token list the windows run over. */
  function PhraseTokens(text: string): seq<string> {
    Filter(IsPhraseToken, Tokens(text))
  }

  /** A token as `split()` produces it: non-empty, no whitespace. */
  predicate IsWord(w: string) {
    w != [] && SpaceFree(w)
  }

  predicate AreWords(ws: seq<string>) {
    forall k :: 0 <= k < |ws| ==> IsWord(ws[k])
  }

  /** `f"{a} {b}"`. */
  function Bigram(a: string, b: string): string {
    a + " " + b
  }

  /** `f"{a} {b} {c}"`. */
  function Trigram(a: string, b: string, c: string): string {
    a + " " + b + " " + c
  }

  /** The two-word windows of `ws`, in position order. */
  function Bigrams(ws: seq<string>): seq<string> {
    var n := if |ws| < 2 then 0 else |ws| - 1;
    seq(n, i requires 0 <= i < n => Bigram(ws[i], ws[i + 1]))
  }

  /** The three-word windows of `ws`, in position order. */
  function Trigrams(ws: seq<string>): seq<string> {
    var n := if |ws| < 3 then 0 else |ws| - 2;
    seq(n, i requires 0 <= i < n => Trigram(ws[i], ws[i + 1], ws[i + 2]))
  }

  /** The list that is counted: all bigrams, then all trigrams. */
  function Candidates(ws: seq<string>): seq<string> {
    Bigrams(ws) + Trigrams(ws)
  }

  /** What `extract_phrases(text, max_phrases)` returns. */
  function PhraseRanking(text: string, maxPhrases: int): (r: seq<string>)
    ensures forall p :: p in r ==> Count(Candidates(PhraseTokens(text)), p) >= 2
  {
    Top(Candidates(PhraseTokens(text)), maxPhrases)
  }

  /** One more iteration of the bigram loop appends the next bigram. */
  lemma BigramsPrefix(ws: seq<string>, i: nat)
    requires i < |ws| - 1
    ensures Bigrams(ws)[..i + 1] == Bigrams(ws)[..i] + [Bigram(ws[i], ws[i + 1])]
  {
    var b := Bigrams(ws);
    assert b[i] == Bigram(ws[i], ws[i + 1]);
    assert b[..i + 1] == b[..i] + [b[i]];
  }

  /** One more iteration of the trigram loop appends the next trigram. */
  lemma TrigramsPrefix(ws: seq<string>, i: nat)
    requires i < |ws| - 2
    ensures Trigrams(ws)[..i + 1] == Trigrams(ws)[..i] + [Trigram(ws[i], ws[i + 1], ws[i + 2])]
  {
    var t := Trigrams(ws);
    assert t[i] == Trigram(ws[i], ws[i + 1], ws[i + 2]);
    assert t[..i + 1] == t[..i] + [t[i]];
  }

  /** `extract_phrases(text, max_phrases)`: the two index loops append to
      `phrases`, which is then counted and ranked. */
  method ExtractPhrases(text: string, maxPhrases: int := 10) returns (result: seq<string>)
    ensures result == PhraseRanking(text, maxPhrases)
  {
    var words := PhraseTokens(text);
    var phrases: seq<string> := [];
    var i := 0;
    while i < |words| - 1
      invariant 0 <= i <= |Bigrams(words)|
      invariant phrases == Bigrams(words)[..i]
    {
      BigramsPrefix(words, i);
      phrases := phrases + [Bigram(words[i], words[i + 1])];
      i := i + 1;
    }
    assert Bigrams(words)[..i] == Bigrams(words);
    i := 0;
    while i < |words| - 2
      invariant 0 <= i <= |Trigrams(words)|
      invariant phrases == Bigrams(words) + Trigrams(words)[..i]
    {
      TrigramsPrefix(words, i);
      phrases := phrases + [Trigram(words[i], words[i + 1], words[i + 2])];
      i := i + 1;
    }
    assert Trigrams(words)[..i] == Trigrams(words);
    result := Top(phrases, maxPhrases);
  }

  /** With n filtered tokens there are max(0, n - 1) bigrams followed by
      max(0, n - 2) trigrams; fewer than two tokens give no candidate. */
  lemma CandidatesLength(ws: seq<string>)
    ensures |Candidates(ws)| == (if |ws| < 2 then 0 else |ws| - 1) + (if |ws| < 3 then 0 else |ws| - 2)
    ensures |ws| < 2 ==> Candidates(ws) == []
  {
  }

  /** The candidate list starts with the bigram at every position, in order. */
  lemma CandidatesBigramsFirst(ws: seq<string>, k: int)
    requires 0 <= k < |ws| - 1
    ensures Candidates(ws)[k] == Bigram(ws[k], ws[k + 1])
  {
  }

  /** After the bigrams come the trigrams at every position, in order. */
  lemma CandidatesTrigramsNext(ws: seq<string>, k: int)
    requires 0 <= k < |ws| - 2
    ensures Candidates(ws)[|ws| - 1 + k] == Trigram(ws[k], ws[k + 1], ws[k + 2])
  {
    assert |Bigrams(ws)| == |ws| - 1;
    assert Candidates(ws)[|ws| - 1 + k] == Trigrams(ws)[k];
  }

  /** A word holds no space. */
  lemma NoSpaceInWord(w: string)
    requires IsWord(w)
    ensures multiset(w)[' '] == 0
  {
    assert IsSpace(' ');
    assert ' ' !in w;
  }

  /** A bigram splits back into its two words and holds exactly one space. */
  lemma BigramWords(a: string, b: string)
    requires IsWord(a) && IsWord(b)
    ensures Split(Bigram(a, b)) == [a, b]
    ensures multiset(Bigram(a, b))[' '] == 1
  {
    assert [a, b][1..] == [b];
    assert JoinSpaces([a, b]) == Bigram(a, b);
    SplitJoin([a, b]);
    NoSpaceInWord(a);
    NoSpaceInWord(b);
  }

  /** A trigram splits back into its three words and holds exactly two
      spaces. */
  lemma TrigramWords(a: string, b: string, c: string)
    requires IsWord(a) && IsWord(b) && IsWord(c)
    ensures Split(Trigram(a, b, c)) == [a, b, c]
    ensures multiset(Trigram(a, b, c))[' '] == 2
  {
    assert [a, b, c][1..] == [b, c] && [b, c][1..] == [c];
    assert JoinSpaces([b, c]) == b + " " + c;
    assert JoinSpaces([a, b, c]) == a + " " + (b + " " + c);
    assert Trigram(a, b, c) == a + " " + (b + " " + c);
    SplitJoin([a, b, c]);
    NoSpaceInWord(a);
    NoSpaceInWord(b);
    NoSpaceInWord(c);
  }

  /** A bigram string never equals a trigram string. */
  lemma BigramIsNeverTrigram(a: string, b: string, c: string, d: string, e: string)
    requires IsWord(a) && IsWord(b) && IsWord(c) && IsWord(d) && IsWord(e)
    ensures Bigram(a, b) != Trigram(c, d, e)
  {
    BigramWords(a, b);
    TrigramWords(c, d, e);
  }

  lemma BigramsCons(ws: seq<string>)
    requires |ws| >= 2
    ensures Bigrams(ws) == [Bigram(ws[0], ws[1])] + Bigrams(ws[1..])
  {
  }

  lemma TrigramsCons(ws: seq<string>)
    requires |ws| >= 3
    ensures Trigrams(ws) == [Trigram(ws[0], ws[1], ws[2])] + Trigrams(ws[1..])
  {
  }

  lemma {:induction false} TrigramsBelowBigrams(ws: seq<string>, a: string, b: string, c: string)
    requires AreWords(ws) && IsWord(a) && IsWord(b) && IsWord(c)
    ensures Count(Trigrams(ws), Trigram(a, b, c)) <= Count(Bigrams(ws), Bigram(a, b))
  {
    if |ws| >= 3 {
      TrigramsCons(ws);
      BigramsCons(ws);
      TrigramsBelowBigrams(ws[1..], a, b, c);
      if Trigram(ws[0], ws[1], ws[2]) == Trigram(a, b, c) {
        TrigramWords(ws[0], ws[1], ws[2]);
        TrigramWords(a, b, c);
      }
    }
  }

  /** No trigram in the candidate list. */
  lemma {:induction false} BigramNotAmongTrigrams(ws: seq<string>, a: string, b: string)
    requires AreWords(ws) && IsWord(a) && IsWord(b)
    ensures Count(Trigrams(ws), Bigram(a, b)) == 0
  {
    if |ws| >= 3 {
      TrigramsCons(ws);
      BigramNotAmongTrigrams(ws[1..], a, b);
      BigramIsNeverTrigram(a, b, ws[0], ws[1], ws[2]);
    }
  }

  /** No bigram in the candidate list equals a trigram. */
  lemma {:induction false} TrigramNotAmongBigrams(ws: seq<string>, a: string, b: string, c: string)
    requires AreWords(ws) && IsWord(a) && IsWord(b) && IsWord(c)
    ensures Count(Bigrams(ws), Trigram(a, b, c)) == 0
  {
    if |ws| >= 2 {
      BigramsCons(ws);
      TrigramNotAmongBigrams(ws[1..], a, b, c);
      BigramIsNeverTrigram(ws[0], ws[1], a, b, c);
    }
  }

  /** Every window "a b c" starts with the window "a b" at the same index, so
      a trigram is never counted more often than its leading bigram. */
  lemma TrigramCountAtMostBigramCount(ws: seq<string>, a: string, b: string, c: string)
    requires AreWords(ws) && IsWord(a) && IsWord(b) && IsWord(c)
    ensures Count(Candidates(ws), Trigram(a, b, c)) <= Count(Candidates(ws), Bigram(a, b))
  {
    TrigramsBelowBigrams(ws, a, b, c);
    TrigramNotAmongBigrams(ws, a, b, c);
  }

  /** The filtered tokens are tokens of the text that are longer than two
      characters and not phrase stopwords; each keeps its count among all
      tokens. */
  lemma PhraseTokensSpec(text: string)
    ensures forall k :: 0 <= k < |PhraseTokens(text)| ==>
      && IsWord(PhraseTokens(text)[k])
      && |PhraseTokens(text)[k]| > 2
      && PhraseTokens(text)[k] !in PhraseStopwords
      && Count(PhraseTokens(text), PhraseTokens(text)[k]) == Count(Tokens(text), PhraseTokens(text)[k])
  {
    var ws := PhraseTokens(text);
    forall k | 0 <= k < |ws|
      ensures IsWord(ws[k]) && Count(ws, ws[k]) == Count(Tokens(text), ws[k])
    {
      var j :| 0 <= j < |Tokens(text)| && Tokens(text)[j] == ws[k];
      assert IsWord(Tokens(text)[j]);
      FilterCount(IsPhraseToken, Tokens(text), ws[k]);
    }
  }

  /** Keyword tokens are the phrase tokens filtered once more: both come from
      the same normalisation and differ only in the stopword set and the
      length threshold. */
  lemma KeywordTokensRefinePhraseTokens(text: string)
    ensures Keywords.KeywordTokens(text) == Filter(Keywords.IsKeywordToken, PhraseTokens(text))
  {
    FilterFilter(Keywords.IsKeywordToken, IsPhraseToken, Tokens(text));
  }

  /** A stopword between two kept tokens is removed before the windows are
      taken, so the two tokens form a bigram together. */
  lemma StopwordsDoNotBreakAdjacency(a: string, s: string, b: string)
    requires IsPhraseToken(a) && !IsPhraseToken(s) && IsPhraseToken(b)
    ensures Candidates(Filter(IsPhraseToken, [a, s, b])) == [Bigram(a, b)]
  {
    assert [a, s, b][1..] == [s, b];
    assert [s, b][1..] == [b];
    assert [b][1..] == [];
    assert Filter(IsPhraseToken, [b]) == [b];
    assert Filter(IsPhraseToken, [s, b]) == [b];
    assert Filter(IsPhraseToken, [a, s, b]) == [a, b];
  }

  /** At most `max_phrases` phrases, pairwise distinct, each occurring at
      least twice among the candidates, in strictly decreasing rank: counts
      never increase, and equal counts keep the order of first insertion into
      the candidate list. */
  lemma PhraseRankingSpec(text: string, maxPhrases: int)
    ensures |PhraseRanking(text, maxPhrases)| <= if maxPhrases < 0 then 0 else maxPhrases
    ensures NoDups(PhraseRanking(text, maxPhrases))
    ensures forall i :: 0 <= i < |PhraseRanking(text, maxPhrases)| ==>
      Count(Candidates(PhraseTokens(text)), PhraseRanking(text, maxPhrases)[i]) >= 2
    ensures forall i, j :: 0 <= i < j < |PhraseRanking(text, maxPhrases)| ==>
      Before(Candidates(PhraseTokens(text)), PhraseRanking(text, maxPhrases)[i], PhraseRanking(text, maxPhrases)[j])
  {
    var r := PhraseRanking(text, maxPhrases);
    TopSpec(Candidates(PhraseTokens(text)), maxPhrases);
    forall i | 0 <= i < |r|
      ensures Count(Candidates(PhraseTokens(text)), r[i]) >= 2
    {
      assert r[i] in r;
    }
  }

  /** Among phrases with the same count, every bigram comes before every
      trigram: a bigram is first inserted before any trigram is. */
  lemma TiedBigramsFirst(text: string, maxPhrases: int, i: int, j: int)
    requires 0 <= i < j < |PhraseRanking(text, maxPhrases)|
    requires PhraseRanking(text, maxPhrases)[j] in Bigrams(PhraseTokens(text))
    requires Count(Candidates(PhraseTokens(text)), PhraseRanking(text, maxPhrases)[i])
          == Count(Candidates(PhraseTokens(text)), PhraseRanking(text, maxPhrases)[j])
    ensures PhraseRanking(text, maxPhrases)[i] in Bigrams(PhraseTokens(text))
  {
    var ws := PhraseTokens(text);
    var c := Candidates(ws);
    var r := PhraseRanking(text, maxPhrases);
    PhraseRankingSpec(text, maxPhrases);
    assert Before(c, r[i], r[j]);
    var m := |Bigrams(ws)|;
    assert c[..m] == Bigrams(ws);
    FirstIndexInPrefix(c, m, r[j]);
    var fi := FirstIndex(c, r[i]);
    assert fi < m;
    assert c[fi] == Bigrams(ws)[fi];
  }

  /** A candidate is two or three consecutive words joined by single
      spaces. */
  lemma CandidateIsWindow(ws: seq<string>, p: string)
    requires p in Candidates(ws)
    ensures || (exists k :: 0 <= k < |ws| - 1 && p == Bigram(ws[k], ws[k + 1]))
            || (exists k :: 0 <= k < |ws| - 2 && p == Trigram(ws[k], ws[k + 1], ws[k + 2]))
  {
    var q :| 0 <= q < |Candidates(ws)| && Candidates(ws)[q] == p;
    CandidatesLength(ws);
    if q < |ws| - 1 {
      CandidatesBigramsFirst(ws, q);
      assert p == Bigram(ws[q], ws[q + 1]);
    } else {
      var k := q - (|ws| - 1);
      CandidatesTrigramsNext(ws, k);
      assert p == Trigram(ws[k], ws[k + 1], ws[k + 2]);
    }
  }

  /** A candidate over words splits back into two words and holds one
      space, or into three words and holds two. */
  lemma CandidateSplits(ws: seq<string>, p: string)
    requires AreWords(ws)
    requires p in Candidates(ws)
    ensures || (|Split(p)| == 2 && multiset(p)[' '] == 1)
            || (|Split(p)| == 3 && multiset(p)[' '] == 2)
  {
    var q :| 0 <= q < |Candidates(ws)| && Candidates(ws)[q] == p;
    CandidatesLength(ws);
    if q < |ws| - 1 {
      CandidatesBigramsFirst(ws, q);
      assert p == Bigram(ws[q], ws[q + 1]);
      BigramWords(ws[q], ws[q + 1]);
      assert |Split(p)| == 2 && multiset(p)[' '] == 1;
    } else {
      var k := q - (|ws| - 1);
      CandidatesTrigramsNext(ws, k);
      assert p == Trigram(ws[k], ws[k + 1], ws[k + 2]);
      TrigramWords(ws[k], ws[k + 1], ws[k + 2]);
      assert |Split(p)| == 3 && multiset(p)[' '] == 2;
    }
  }

  /** Every phrase is two or three consecutive filtered tokens joined by
      single spaces, so it splits back into two words and holds one space, or
      into three words and holds two. */
  lemma PhrasesAreWindows(text: string, maxPhrases: int, i: int)
    requires 0 <= i < |PhraseRanking(text, maxPhrases)|
    ensures var ws, p := PhraseTokens(text), PhraseRanking(text, maxPhrases)[i];
      || (exists k :: 0 <= k < |ws| - 1 && p == Bigram(ws[k], ws[k + 1]))
      || (exists k :: 0 <= k < |ws| - 2 && p == Trigram(ws[k], ws[k + 1], ws[k + 2]))
    ensures var p := PhraseRanking(text, maxPhrases)[i];
      || (|Split(p)| == 2 && multiset(p)[' '] == 1)
      || (|Split(p)| == 3 && multiset(p)[' '] == 2)
  {
    var ws := PhraseTokens(text);
    var p := PhraseRanking(text, maxPhrases)[i];
    TopSpec(Candidates(ws), maxPhrases);
    assert p in PhraseRanking(text, maxPhrases);
    CandidateIsWindow(ws, p);
    PhraseTokensSpec(text);
    CandidateSplits(ws, p);
  }

  /** Fewer than two filtered tokens give no phrase. */
  lemma FewTokensNoPhrases(text: string, maxPhrases: int)
    requires |PhraseTokens(text)| < 2
    ensures PhraseRanking(text, maxPhrases) == []
  {
    assert Candidates(PhraseTokens(text)) == [];
    assert Distinct<string>([]) == [];
  }

  /** Empty text gives no phrase. */
  lemma EmptyTextNoPhrases(maxPhrases: int)
    ensures PhraseRanking("", maxPhrases) == []
  {
    EmptyTextHasNoTokens();
    FewTokensNoPhrases("", maxPhrases);
  }
}
