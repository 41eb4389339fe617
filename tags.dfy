/** `extract_potential_tags(text)`: the first three matches of the
    capitalised-run pattern `\b[A-Z][a-z]+ (?:[A-Z][a-z]+ )*[A-Z][a-z]+\b`,
    then the five most common words (kept when they occur more than once)
    among the matches of `\b[a-zA-Z]{4,}\b` on the lower-cased text that are
    not tag stopwords; the two lists are merged through a `set`, listed in
    the set's own order, cut to five, and every tag longer than twenty
    characters is cut to twenty characters followed by "...". */
module Tags {
  import opened CharClasses
  import opened Stopwords
  import opened Counting

  datatype Option<T> = None | Some(value: T)

  /** A match of a pattern: the characters `s[lo..hi]`. */
  datatype Span = Span(lo: nat, hi: nat)

  /** The two patterns `extract_potential_tags` searches for. */
  datatype Pattern =
    | CapitalisedRun   // \b[A-Z][a-z]+ (?:[A-Z][a-z]+ )*[A-Z][a-z]+\b
    | LetterWord       // \b[a-zA-Z]{4,}\b

  /** `\b` at position `k`: a word character on exactly one side. */
  predicate BoundaryAt(s: string, k: nat)
    requires k <= |s|
  {
    (k > 0 && IsWordChar(s[k - 1])) != (k < |s| && IsWordChar(s[k]))
  }

  // ---------------------------------------------------------------------
  // The capitalised-run pattern

  /** End of the run of ASCII lower-case letters that starts at `i`. */
  function LowerRunEnd(s: string, i: nat): (e: nat)
    requires i <= |s|
    ensures i <= e <= |s|
    ensures forall k :: i <= k < e ==> IsAsciiLower(s[k])
    ensures e == |s| || !IsAsciiLower(s[e])
    decreases |s| - i
  {
    if i < |s| && IsAsciiLower(s[i]) then LowerRunEnd(s, i + 1) else i
  }

  /** `[A-Z][a-z]+` at `i`: the end of the word, the lower-case run taken
      whole (a shorter run is never followed by a space or a `\b`). */
  function CapWordEnd(s: string, i: nat): (r: Option<nat>)
    requires i <= |s|
    ensures r.Some? ==> i + 2 <= r.value <= |s| && IsAsciiUpper(s[i])
    ensures r.Some? ==> forall k :: i < k < r.value ==> IsAsciiLower(s[k])
    ensures r.Some? ==> r.value == |s| || !IsAsciiLower(s[r.value])
    ensures r.None? <==> !(i + 1 < |s| && IsAsciiUpper(s[i]) && IsAsciiLower(s[i + 1]))
  {
    if i + 1 < |s| && IsAsciiUpper(s[i]) && IsAsciiLower(s[i + 1]) then Some(LowerRunEnd(s, i + 1)) else None
  }

  /** The ends of the capitalised words chained from `i`: each next word
      starts right after a single space that follows the previous one. */
  function ChainEnds(s: string, i: nat): (ends: seq<nat>)
    requires i <= |s|
    ensures forall k :: 0 <= k < |ends| ==> i + 2 <= ends[k] <= |s|
    ensures forall j, k :: 0 <= j < k < |ends| ==> ends[j] < ends[k]
    ensures forall k :: 0 <= k < |ends| - 1 ==> ends[k] < |s| && s[ends[k]] == ' '
    ensures |ends| > 0 <==> CapWordEnd(s, i).Some?
    ensures |ends| > 0 ==> ends[0] == CapWordEnd(s, i).value
    decreases |s| - i
  {
    match CapWordEnd(s, i)
    case None => []
    case Some(e) => [e] + (if e < |s| && s[e] == ' ' then ChainEnds(s, e + 1) else [])
  }

  /** Inside a run of capitalised words, `s[k]` is a capital exactly when it
      follows a space, and a space only ever follows a lower-case letter. */
  predicate FollowsInRun(s: string, k: nat)
    requires 0 < k < |s|
  {
    && (IsAsciiUpper(s[k]) <==> s[k - 1] == ' ')
    && (s[k] == ' ' ==> IsAsciiLower(s[k - 1]))
  }

  /** `s[p..e]` is one or more `[A-Z][a-z]+` words joined by single spaces. */
  predicate CapRun(s: string, p: nat, e: nat) {
    && p + 2 <= e <= |s|
    && IsAsciiUpper(s[p]) && IsAsciiLower(s[e - 1])
    && (forall k :: p <= k < e ==> IsAsciiUpper(s[k]) || IsAsciiLower(s[k]) || s[k] == ' ')
    && (forall k :: p < k < e ==> FollowsInRun(s, k))
  }

  /** The capitalised-run pattern matches `s[p..e]`: two or more words, with
      a `\b` on both sides. */
  predicate CapMatches(s: string, p: nat, e: nat) {
    && p <= e <= |s|
    && CapRun(s, p, e)
    && (exists j :: p < j < e && s[j] == ' ')
    && BoundaryAt(s, p) && BoundaryAt(s, e)
  }

  /** Which chained end the regex engine settles on: the star is greedy, so
      the match takes the whole chain when a `\b` follows it and otherwise
      gives back the last word (a space, hence a `\b`, follows every earlier
      word). */
  function PickEnd(s: string, ends: seq<nat>): (r: Option<nat>)
    requires forall k :: 0 <= k < |ends| ==> ends[k] <= |s|
    ensures r.Some? ==> r.value in ends
  {
    var m := |ends|;
    if m >= 2 && BoundaryAt(s, ends[m - 1]) then Some(ends[m - 1])
    else if m >= 3 then Some(ends[m - 2])
    else None
  }

  /** The regex engine at position `p`. */
  function CapMatchAt(s: string, p: nat): (r: Option<nat>)
    requires p <= |s|
    ensures r.Some? ==> p < r.value <= |s|
  {
    if !BoundaryAt(s, p) then None else PickEnd(s, ChainEnds(s, p))
  }

  lemma CapWordIsRun(s: string, i: nat)
    requires i <= |s| && CapWordEnd(s, i).Some?
    ensures CapRun(s, i, CapWordEnd(s, i).value)
  {
  }

  /** A word, a space and a run make a longer run. */
  lemma JoinRuns(s: string, i: nat, m: nat, e: nat)
    requires CapRun(s, i, m) && m < |s| && s[m] == ' ' && CapRun(s, m + 1, e)
    ensures CapRun(s, i, e)
  {
  }

  /** Every chained end closes a run of capitalised words. */
  lemma {:induction false} ChainSound(s: string, i: nat)
    requires i <= |s|
    ensures forall k :: 0 <= k < |ChainEnds(s, i)| ==> CapRun(s, i, ChainEnds(s, i)[k])
    decreases |s| - i
  {
    var ends := ChainEnds(s, i);
    if |ends| > 0 {
      var e := ends[0];
      CapWordIsRun(s, i);
      if e < |s| && s[e] == ' ' {
        ChainSound(s, e + 1);
        var rest := ChainEnds(s, e + 1);
        assert ends == [e] + rest;
        forall k | 1 <= k < |ends|
          ensures CapRun(s, i, ends[k])
        {
          assert ends[k] == rest[k - 1];
          JoinRuns(s, i, e, ends[k]);
        }
      }
    }
  }

  /** The first word of a run is a `[A-Z][a-z]+` word, and it ends where the
      run ends or at a space. */
  lemma FirstWordOfRun(s: string, i: nat, e: nat)
    requires CapRun(s, i, e) && (e == |s| || !IsAsciiLower(s[e]))
    ensures CapWordEnd(s, i).Some? && CapWordEnd(s, i).value <= e
    ensures CapWordEnd(s, i).value < e ==> s[CapWordEnd(s, i).value] == ' '
  {
    assert FollowsInRun(s, i + 1);
    var e1 := CapWordEnd(s, i).value;
    assert e1 <= e;
    if e1 < e {
      assert FollowsInRun(s, e1);
    }
  }

  /** After the first word and its space comes a shorter run. */
  lemma RestOfRun(s: string, i: nat, e1: nat, e: nat)
    requires CapRun(s, i, e) && i < e1 < e && s[e1] == ' '
    ensures CapRun(s, e1 + 1, e)
  {
    assert FollowsInRun(s, e1 + 1);
  }

  /** The chain from `i` is its first word's end followed by the chain after
      the space. */
  lemma ChainStep(s: string, i: nat)
    requires i <= |s| && CapWordEnd(s, i).Some?
    requires CapWordEnd(s, i).value < |s| && s[CapWordEnd(s, i).value] == ' '
    ensures ChainEnds(s, i) == [CapWordEnd(s, i).value] + ChainEnds(s, CapWordEnd(s, i).value + 1)
  {
  }

  /** Every run of capitalised words that is not followed by a lower-case
      letter ends at one of the chained ends. */
  lemma {:induction false} ChainComplete(s: string, i: nat, e: nat)
    requires CapRun(s, i, e) && (e == |s| || !IsAsciiLower(s[e]))
    ensures e in ChainEnds(s, i)
    decreases |s| - i
  {
    FirstWordOfRun(s, i, e);
    var e1 := CapWordEnd(s, i).value;
    if e1 < e {
      RestOfRun(s, i, e1, e);
      ChainComplete(s, e1 + 1, e);
      ChainStep(s, i);
    }
  }

  /** A lower-case ASCII letter is a word character; a space is not. */
  lemma LowerIsWordChar(c: char)
    ensures IsAsciiLower(c) ==> IsWordChar(c)
    ensures !IsWordChar(' ')
  {
  }

  /** The engine picks the last end when a `\b` follows it, and otherwise
      the one before, which a space follows. */
  lemma PickEndShape(s: string, ends: seq<nat>)
    requires forall j :: 0 <= j < |ends| ==> ends[j] <= |s|
    requires forall j :: 0 <= j < |ends| - 1 ==> ends[j] < |s| && s[ends[j]] == ' '
    requires PickEnd(s, ends).Some?
    ensures |ends| >= 2
    ensures || (PickEnd(s, ends).value == ends[|ends| - 1] && BoundaryAt(s, ends[|ends| - 1]))
            || (|ends| >= 3 && PickEnd(s, ends).value == ends[|ends| - 2] && s[ends[|ends| - 2]] == ' ')
  {
  }

  /** What `CapMatchAt` finds is a match. */
  lemma CapMatchAtSound(s: string, p: nat)
    requires p <= |s| && CapMatchAt(s, p).Some?
    ensures CapMatches(s, p, CapMatchAt(s, p).value)
  {
    var ends := ChainEnds(s, p);
    var m := |ends|;
    var e := CapMatchAt(s, p).value;
    PickEndShape(s, ends);
    ChainSound(s, p);
    if e == ends[m - 1] && BoundaryAt(s, e) {
      assert CapRun(s, p, ends[m - 1]);
    } else {
      assert CapRun(s, p, ends[m - 2]);
      LowerIsWordChar(s[e - 1]);
    }
    assert p < ends[0] < e && s[ends[0]] == ' ';
  }

  /** A match is followed by no lower-case letter. */
  lemma NoLowerAfterMatch(s: string, p: nat, e: nat)
    requires CapMatches(s, p, e)
    ensures e == |s| || !IsAsciiLower(s[e])
  {
    LowerIsWordChar(s[e - 1]);
    if e < |s| {
      LowerIsWordChar(s[e]);
    }
  }

  /** A match ends at a chained end other than the first: it spans two or
      more words. */
  lemma MatchIsLaterChainEnd(s: string, p: nat, e: nat)
    requires CapMatches(s, p, e)
    ensures exists k :: 1 <= k < |ChainEnds(s, p)| && ChainEnds(s, p)[k] == e
  {
    NoLowerAfterMatch(s, p, e);
    ChainComplete(s, p, e);
    var ends := ChainEnds(s, p);
    var k :| 0 <= k < |ends| && ends[k] == e;
    var j :| p < j < e && s[j] == ' ';
    assert k != 0;
  }

  /** Of increasing ends, one after the first with a `\b` after it ends no
      later than the one the engine picks. */
  lemma PickEndCovers(s: string, ends: seq<nat>, k: nat)
    requires forall j :: 0 <= j < |ends| ==> ends[j] <= |s|
    requires forall j, l :: 0 <= j < l < |ends| ==> ends[j] < ends[l]
    requires 1 <= k < |ends| && BoundaryAt(s, ends[k])
    ensures PickEnd(s, ends).Some? && ends[k] <= PickEnd(s, ends).value
  {
    var m := |ends|;
    if !BoundaryAt(s, ends[m - 1]) {
      assert k < m - 1;
    }
  }

  /** A later chained end with a `\b` after it ends no later than what
      `CapMatchAt` finds. */
  lemma LaterChainEndIsCovered(s: string, p: nat, k: nat)
    requires p <= |s| && BoundaryAt(s, p)
    requires 1 <= k < |ChainEnds(s, p)| && BoundaryAt(s, ChainEnds(s, p)[k])
    ensures CapMatchAt(s, p).Some? && ChainEnds(s, p)[k] <= CapMatchAt(s, p).value
  {
    PickEndCovers(s, ChainEnds(s, p), k);
  }

  /** Every match at `p` ends no later than what `CapMatchAt` finds. */
  lemma CapMatchAtLongest(s: string, p: nat, e: nat)
    requires CapMatches(s, p, e)
    ensures CapMatchAt(s, p).Some? && e <= CapMatchAt(s, p).value
  {
    MatchIsLaterChainEnd(s, p, e);
    var k :| 1 <= k < |ChainEnds(s, p)| && ChainEnds(s, p)[k] == e;
    LaterChainEndIsCovered(s, p, k);
  }

  /** The capitalised-run pattern matches at `p` exactly when `CapMatchAt`
      finds an end, and the end it finds is the longest match. */
  lemma CapMatchAtIsLongestMatch(s: string, p: nat)
    requires p <= |s|
    ensures CapMatchAt(s, p).Some? ==> CapMatches(s, p, CapMatchAt(s, p).value)
    ensures forall e: nat :: CapMatches(s, p, e) ==> CapMatchAt(s, p).Some? && e <= CapMatchAt(s, p).value
  {
    if CapMatchAt(s, p).Some? {
      CapMatchAtSound(s, p);
    }
    forall e: nat | CapMatches(s, p, e)
      ensures CapMatchAt(s, p).Some? && e <= CapMatchAt(s, p).value
    {
      CapMatchAtLongest(s, p, e);
    }
  }

  // ---------------------------------------------------------------------
  // The letter-word pattern

  /** End of the run of ASCII letters that starts at `i`. */
  function LetterRunEnd(s: string, i: nat): (e: nat)
    requires i <= |s|
    ensures i <= e <= |s|
    ensures forall k :: i <= k < e ==> IsAsciiLetter(s[k])
    ensures e == |s| || !IsAsciiLetter(s[e])
    decreases |s| - i
  {
    if i < |s| && IsAsciiLetter(s[i]) then LetterRunEnd(s, i + 1) else i
  }

  /** `s[p..e]` is a maximal run of word characters made only of ASCII
      letters, at least four long. */
  predicate LetterWordAt(s: string, p: nat, e: nat) {
    && p + 4 <= e <= |s|
    && (forall k :: p <= k < e ==> IsAsciiLetter(s[k]))
    && (p == 0 || !IsWordChar(s[p - 1]))
    && (e == |s| || !IsWordChar(s[e]))
  }

  /** The regex engine at position `p`: `\b`, the letter run taken whole
      (a shorter one never ends at a `\b`), at least four long, `\b`. */
  function LetterMatchAt(s: string, p: nat): (r: Option<nat>)
    requires p <= |s|
    ensures r.Some? ==> p < r.value <= |s|
  {
    var e := LetterRunEnd(s, p);
    if BoundaryAt(s, p) && e - p >= 4 && BoundaryAt(s, e) then Some(e) else None
  }

  /** The letter-word pattern matches `s[p..e]` exactly when that is a
      maximal word run of at least four ASCII letters: `"abcd5"` and
      `"café"` never match. */
  lemma LetterMatchAtIsMaximalRun(s: string, p: nat)
    requires p <= |s|
    ensures forall e: nat :: LetterMatchAt(s, p) == Some(e) <==> LetterWordAt(s, p, e)
  {
    var r := LetterRunEnd(s, p);
    forall e: nat | LetterWordAt(s, p, e)
      ensures LetterMatchAt(s, p) == Some(e)
    {
      assert IsWordChar(s[p]);
      assert IsWordChar(s[e - 1]);
    }
    if LetterMatchAt(s, p).Some? {
      assert IsWordChar(s[p]) && IsWordChar(s[r - 1]);
    }
  }

  // ---------------------------------------------------------------------
  // re.findall

  /** One search attempt of `pattern` at position `p`. */
  function MatchAt(pattern: Pattern, s: string, p: nat): (r: Option<nat>)
    requires p <= |s|
    ensures r.Some? ==> p < r.value <= |s|
  {
    match pattern
    case CapitalisedRun => CapMatchAt(s, p)
    case LetterWord => LetterMatchAt(s, p)
  }

  /** The outcome of a search attempt at every position `0..|s|`. */
  function Attempts(pattern: Pattern, s: string): (m: seq<Option<nat>>)
    ensures |m| == |s| + 1
    ensures ValidAttempts(m)
  {
    seq(|s| + 1, p requires 0 <= p <= |s| => MatchAt(pattern, s, p))
  }

  /** Every successful attempt ends after it starts and inside the string. */
  predicate ValidAttempts(m: seq<Option<nat>>) {
    forall p :: 0 <= p < |m| && m[p].Some? ==> p < m[p].value < |m|
  }

  /** `re.findall` from position `p`, over the attempts `m`: scan left to
      right, record a match and resume at its end, or move one position on.
      The matches found are successful attempts, in order, not overlapping. */
  function Scan(m: seq<Option<nat>>, p: nat): (spans: seq<Span>)
    requires ValidAttempts(m) && p < |m|
    ensures forall k :: 0 <= k < |spans| ==> p <= spans[k].lo < spans[k].hi < |m| && m[spans[k].lo] == Some(spans[k].hi)
    ensures forall k :: 0 <= k < |spans| - 1 ==> spans[k].hi <= spans[k + 1].lo
    decreases |m| - p
  {
    if p == |m| - 1 then []
    else
      match m[p]
      case Some(e) =>
        var rest := Scan(m, e);
        var spans := [Span(p, e)] + rest;
        assert forall k :: 1 <= k < |spans| ==> spans[k] == rest[k - 1];
        spans
      case None =>
        Scan(m, p + 1)
  }

  /** A successful attempt is recorded and the scan resumes at its end. */
  lemma ScanTakes(m: seq<Option<nat>>, p: nat)
    requires ValidAttempts(m) && p < |m| && m[p].Some?
    ensures Scan(m, p) == [Span(p, m[p].value)] + Scan(m, m[p].value)
  {
  }

  /** A failed attempt moves the scan one position on. */
  lemma ScanSkips(m: seq<Option<nat>>, p: nat)
    requires ValidAttempts(m) && p < |m| - 1 && m[p].None?
    ensures Scan(m, p) == Scan(m, p + 1)
  {
  }

  /** A position covered by the scan that resumes after a match is covered
      by the scan that recorded the match. */
  lemma CoveredAfterTake(m: seq<Option<nat>>, p: nat, q: nat)
    requires ValidAttempts(m) && p < |m| && m[p].Some?
    requires exists k :: 0 <= k < |Scan(m, m[p].value)| && Scan(m, m[p].value)[k].lo <= q < Scan(m, m[p].value)[k].hi
    ensures exists k :: 0 <= k < |Scan(m, p)| && Scan(m, p)[k].lo <= q < Scan(m, p)[k].hi
  {
    var rest := Scan(m, m[p].value);
    ScanTakes(m, p);
    var k :| 0 <= k < |rest| && rest[k].lo <= q < rest[k].hi;
    assert Scan(m, p)[k + 1] == rest[k];
  }

  /** The scan misses nothing: every position where an attempt succeeds lies
      inside one of the matches found. */
  lemma {:induction false} ScanIsLeftmost(m: seq<Option<nat>>, p: nat, q: nat)
    requires ValidAttempts(m) && p <= q < |m| && m[q].Some?
    ensures exists k :: 0 <= k < |Scan(m, p)| && Scan(m, p)[k].lo <= q < Scan(m, p)[k].hi
    decreases |m| - p
  {
    if m[p].Some? {
      var e := m[p].value;
      if q < e {
        ScanTakes(m, p);
        assert Scan(m, p)[0] == Span(p, e);
      } else {
        ScanIsLeftmost(m, e, q);
        CoveredAfterTake(m, p, q);
      }
    } else {
      ScanSkips(m, p);
      ScanIsLeftmost(m, p + 1, q);
    }
  }

  /** `re.findall(pattern, s)` as spans. */
  function FindAll(pattern: Pattern, s: string): (spans: seq<Span>)
    ensures forall k :: 0 <= k < |spans| ==>
      && spans[k].lo < spans[k].hi <= |s|
      && MatchAt(pattern, s, spans[k].lo) == Some(spans[k].hi)
    ensures forall k :: 0 <= k < |spans| - 1 ==> spans[k].hi <= spans[k + 1].lo
  {
    Scan(Attempts(pattern, s), 0)
  }

  /** `re.findall` misses no match: every position where the pattern matches
      lies inside one of the matches it returns. */
  lemma FindAllIsLeftmost(pattern: Pattern, s: string, q: nat)
    requires q <= |s| && MatchAt(pattern, s, q).Some?
    ensures exists k :: 0 <= k < |FindAll(pattern, s)| && FindAll(pattern, s)[k].lo <= q < FindAll(pattern, s)[k].hi
  {
    var m := Attempts(pattern, s);
    ScanIsLeftmost(m, 0, q);
    var k :| 0 <= k < |Scan(m, 0)| && Scan(m, 0)[k].lo <= q < Scan(m, 0)[k].hi;
    assert FindAll(pattern, s)[k] == Scan(m, 0)[k];
  }

  /** The matched strings, in order. */
  function Texts(s: string, spans: seq<Span>): (ts: seq<string>)
    requires forall k :: 0 <= k < |spans| ==> spans[k].lo <= spans[k].hi <= |s|
    ensures |ts| == |spans|
    ensures forall k :: 0 <= k < |ts| ==> ts[k] == s[spans[k].lo..spans[k].hi]
  {
    seq(|spans|, k requires 0 <= k < |spans| => s[spans[k].lo..spans[k].hi])
  }

  // ---------------------------------------------------------------------
  // extract_potential_tags

  /** `re.findall(capitalized_pattern, text)`. */
  function CapitalisedPhrases(text: string): (r: seq<string>)
    ensures |r| == |FindAll(CapitalisedRun, text)|
    ensures forall k :: 0 <= k < |r| ==> r[k] != []
  {
    Texts(text, FindAll(CapitalisedRun, text))
  }

  /** `re.findall(r'\b[a-zA-Z]{4,}\b', text.lower())`. */
  function LetterWords(text: string): (r: seq<string>)
    ensures |r| == |FindAll(LetterWord, Lower(text))|
    ensures forall k :: 0 <= k < |r| ==> r[k] != []
  {
    var low := Lower(text);
    Texts(low, FindAll(LetterWord, low))
  }

  predicate IsTagWord(w: string) {
    w !in TagStopwords
  }

  /** `filtered_words`. */
  function TagWords(text: string): (r: seq<string>)
    ensures forall w :: w in r ==> w !in TagStopwords && w in LetterWords(text)
  {
    Filter(IsTagWord, LetterWords(text))
  }

  /** `common_words`: the five most common filtered words, kept when they
      occur more than once. */
  function CommonWords(text: string): (r: seq<string>)
    ensures |r| <= 5
    ensures forall w :: w in r ==> Count(TagWords(text), w) >= 2
  {
    TopSpec(TagWords(text), 5);
    Top(TagWords(text), 5)
  }

  /** `capitalized_phrases[:3] + common_words`. */
  function TagCandidates(text: string): (r: seq<string>)
    ensures |r| <= 8
  {
    Take(CapitalisedPhrases(text), 3) + CommonWords(text)
  }

  /** `set(...)` of the candidates. */
  function TagPool(text: string): set<string> {
    set c | c in TagCandidates(text)
  }

  /** `xs` lists every element of `s` exactly once, in some order. */
  predicate IsListing(xs: seq<string>, s: set<string>) {
    && NoDups(xs)
    && (forall i :: 0 <= i < |xs| ==> xs[i] in s)
    && (forall x :: x in s ==> x in xs)
  }

  /** `tag[:20] + '...' if len(tag) > 20 else tag`. */
  function Truncate(t: string): (r: string)
    ensures |r| <= 23
    ensures |t| <= 20 ==> r == t
    ensures |t| > 20 ==> |r| == 23 && r[..20] == t[..20] && r[20..] == "..."
  {
    if |t| > 20 then t[..20] + "..." else t
  }

  /** `[... for tag in all_tags[:5]]` for the listing `all_tags`. */
  function TagsOf(listing: seq<string>): (r: seq<string>)
    ensures |r| == if |listing| < 5 then |listing| else 5
    ensures forall i :: 0 <= i < |r| ==> |r[i]| <= 23 && (|listing[i]| <= 20 ==> r[i] == listing[i])
  {
    var n := if |listing| < 5 then |listing| else 5;
    seq(n, i requires 0 <= i < n => Truncate(listing[i]))
  }

  /** `list(set)`: the elements of `s` in an order this model leaves open,
      as the iteration order of a Python set is not fixed. */
  method ListOfSet(s: set<string>) returns (xs: seq<string>)
    ensures IsListing(xs, s)
  {
    xs := [];
    var rest := s;
    while rest != {}
      invariant NoDups(xs)
      invariant forall i :: 0 <= i < |xs| ==> xs[i] in s && xs[i] !in rest
      invariant forall x :: x in s ==> x in xs || x in rest
      invariant rest <= s
      decreases |rest|
    {
      var x :| x in rest;
      xs := xs + [x];
      rest := rest - {x};
    }
  }

  /** `extract_potential_tags(text)`: at most five tags, one per distinct
      candidate, each cut to twenty characters plus "..." when longer; which
      candidates are kept depends on the set's order. */
  method ExtractPotentialTags(text: string) returns (tags: seq<string>)
    ensures |tags| == if |TagPool(text)| < 5 then |TagPool(text)| else 5
    ensures exists listing :: IsListing(listing, TagPool(text)) && tags == TagsOf(listing)
  {
    var listing := ListOfSet(TagPool(text));
    ListingLength(listing, TagPool(text));
    tags := TagsOf(listing);
  }

  // ---------------------------------------------------------------------
  // Properties

  /** A listing has one entry per element of the set. */
  lemma {:induction false} ListingLength(xs: seq<string>, s: set<string>)
    requires IsListing(xs, s)
    ensures |xs| == |s|
  {
    if xs == [] {
      assert s == {};
    } else {
      var s' := s - {xs[0]};
      forall i | 0 <= i < |xs[1..]|
        ensures xs[1..][i] in s'
      {
        assert xs[1..][i] == xs[i + 1] && xs[i + 1] != xs[0];
      }
      forall x | x in s'
        ensures x in xs[1..]
      {
        assert x in xs;
        var i :| 0 <= i < |xs| && xs[i] == x;
        assert i != 0;
        assert xs[1..][i - 1] == x;
      }
      assert NoDups(xs[1..]) by {
        forall i, j | 0 <= i < j < |xs[1..]|
          ensures xs[1..][i] != xs[1..][j]
        {
          assert xs[1..][i] == xs[i + 1] && xs[1..][j] == xs[j + 1];
        }
      }
      ListingLength(xs[1..], s');
    }
  }

  /** Deduplication never adds elements. */
  lemma {:induction false} SetOfSeqSize(c: seq<string>)
    ensures |set x | x in c| <= |c|
  {
    if c != [] {
      SetOfSeqSize(c[1..]);
      assert (set x | x in c) == (set x | x in c[1..]) + {c[0]} by {
        forall x | x in c
          ensures x in c[1..] || x == c[0]
        {
          var i :| 0 <= i < |c| && c[i] == x;
          if i > 0 {
            assert c[1..][i - 1] == x;
          }
        }
      }
    }
  }

  /** There are at most eight distinct candidates: three phrases and five
      words. */
  lemma TagPoolSize(text: string)
    ensures |TagPool(text)| <= 8
  {
    TopSpec(TagWords(text), 5);
    SetOfSeqSize(TagCandidates(text));
  }

  /** Each letter word is four or more lower-case ASCII letters. */
  lemma LetterWordIsLower(text: string, j: nat)
    requires j < |LetterWords(text)|
    ensures |LetterWords(text)[j]| >= 4
    ensures forall k :: 0 <= k < |LetterWords(text)[j]| ==> IsAsciiLower(LetterWords(text)[j][k])
  {
    var low := Lower(text);
    var sp := FindAll(LetterWord, low)[j];
    var w := LetterWords(text)[j];
    assert w == low[sp.lo..sp.hi];
    LetterMatchAtIsMaximalRun(low, sp.lo);
    assert LetterWordAt(low, sp.lo, sp.hi);
    forall k | 0 <= k < |w|
      ensures IsAsciiLower(w[k])
    {
      assert w[k] == Fold(text[sp.lo + k]);
    }
  }

  /** Every filtered word is a match of the letter-word pattern on the
      lower-cased text: at least four lower-case ASCII letters, bounded by
      non-word characters, and not a tag stopword. */
  lemma TagWordsAreLetterWords(text: string)
    ensures forall i :: 0 <= i < |TagWords(text)| ==>
      && |TagWords(text)[i]| >= 4
      && TagWords(text)[i] !in TagStopwords
      && (forall k :: 0 <= k < |TagWords(text)[i]| ==> IsAsciiLower(TagWords(text)[i][k]))
  {
    var ws := LetterWords(text);
    forall i | 0 <= i < |TagWords(text)|
      ensures |TagWords(text)[i]| >= 4
      ensures forall k :: 0 <= k < |TagWords(text)[i]| ==> IsAsciiLower(TagWords(text)[i][k])
    {
      var j :| 0 <= j < |ws| && ws[j] == TagWords(text)[i];
      LetterWordIsLower(text, j);
    }
  }

  /** Each capitalised phrase is the longest match of the pattern at its
      start. */
  lemma CapitalisedPhraseIsLongestMatch(text: string, k: nat)
    requires k < |FindAll(CapitalisedRun, text)|
    ensures var sp := FindAll(CapitalisedRun, text)[k];
      && CapitalisedPhrases(text)[k] == text[sp.lo..sp.hi]
      && CapMatches(text, sp.lo, sp.hi)
      && forall e: nat :: CapMatches(text, sp.lo, e) ==> e <= sp.hi
  {
    CapMatchAtIsLongestMatch(text, FindAll(CapitalisedRun, text)[k].lo);
  }

  /** Each common word has at least four lower-case ASCII letters, is not a
      tag stopword, and occurs at least twice among the filtered words. */
  lemma CommonWordFacts(text: string, c: string)
    requires c in CommonWords(text)
    ensures |c| >= 4 && c !in TagStopwords
    ensures forall k :: 0 <= k < |c| ==> IsAsciiLower(c[k])
    ensures Count(TagWords(text), c) >= 2
  {
    TopSpec(TagWords(text), 5);
    TagWordsAreLetterWords(text);
    var i :| 0 <= i < |TagWords(text)| && TagWords(text)[i] == c;
  }

  /** Every distinct candidate is one of the first three matches of the
      capitalised-run pattern, each the longest match at its position, or one
      of the five most common filtered words, which occurs at least twice. */
  lemma TagPoolMembers(text: string, c: string)
    requires c in TagPool(text)
    ensures || (exists k: nat :: k < 3 && k < |FindAll(CapitalisedRun, text)| && c == CapitalisedPhrases(text)[k]
                  && CapMatches(text, FindAll(CapitalisedRun, text)[k].lo, FindAll(CapitalisedRun, text)[k].hi)
                  && forall e: nat :: CapMatches(text, FindAll(CapitalisedRun, text)[k].lo, e) ==> e <= FindAll(CapitalisedRun, text)[k].hi)
            || (&& c in CommonWords(text)
                && |c| >= 4 && c !in TagStopwords
                && (forall k :: 0 <= k < |c| ==> IsAsciiLower(c[k]))
                && Count(TagWords(text), c) >= 2)
  {
    var caps := CapitalisedPhrases(text);
    assert c in TagCandidates(text);
    if c in Take(caps, 3) {
      var k :| 0 <= k < |Take(caps, 3)| && Take(caps, 3)[k] == c;
      assert caps[k] == c;
      CapitalisedPhraseIsLongestMatch(text, k);
    } else {
      CommonWordFacts(text, c);
    }
  }

  /** For every order of the set: at most five tags, one for each of the
      first distinct candidates in that order, each the candidate itself when
      it has at most twenty characters and otherwise its first twenty
      characters followed by "...". */
  lemma TagsSpec(text: string, listing: seq<string>)
    requires IsListing(listing, TagPool(text))
    ensures |TagsOf(listing)| == if |TagPool(text)| < 5 then |TagPool(text)| else 5
    ensures forall i :: 0 <= i < |TagsOf(listing)| ==>
      && listing[i] in TagPool(text)
      && (|listing[i]| <= 20 ==> TagsOf(listing)[i] == listing[i])
      && (|listing[i]| > 20 ==> TagsOf(listing)[i] == listing[i][..20] + "...")
    ensures forall i, j :: 0 <= i < j < |TagsOf(listing)| ==> listing[i] != listing[j]
  {
    ListingLength(listing, TagPool(text));
  }

  /** Cutting a tag twice is cutting it once. */
  lemma TruncateIdempotent(t: string)
    ensures Truncate(Truncate(t)) == Truncate(t)
  {
    if |t| > 20 {
      assert Truncate(t)[..20] == t[..20];
    }
  }

  /** Text with no capitalised run and no non-stopword letter word that
      occurs twice gives no tag, whatever the set's order. */
  lemma NoCandidatesNoTags(text: string, listing: seq<string>)
    requires FindAll(CapitalisedRun, text) == []
    requires forall w :: w in TagWords(text) ==> Count(TagWords(text), w) < 2
    requires IsListing(listing, TagPool(text))
    ensures TagsOf(listing) == []
  {
    NoCandidates(text);
    ListingLength(listing, TagPool(text));
  }

  lemma NoCandidates(text: string)
    requires FindAll(CapitalisedRun, text) == []
    requires forall w :: w in TagWords(text) ==> Count(TagWords(text), w) < 2
    ensures TagCandidates(text) == []
  {
    TopOfUnrepeated(TagWords(text), 5);
    assert CapitalisedPhrases(text) == [];
  }

  /** Empty text gives no tag. */
  lemma EmptyTextNoTags(listing: seq<string>)
    requires IsListing(listing, TagPool(""))
    ensures TagsOf(listing) == []
  {
    assert Lower("") == "";
    NoCandidatesNoTags("", listing);
  }

  /** A scan over attempts that all fail finds nothing. */
  lemma {:induction false} ScanOfFailures(m: seq<Option<nat>>, p: nat)
    requires ValidAttempts(m) && p < |m|
    requires forall q :: p <= q < |m| ==> m[q].None?
    ensures Scan(m, p) == []
    decreases |m| - p
  {
    if p < |m| - 1 {
      ScanOfFailures(m, p + 1);
    }
  }

  /** The letter-word pattern skips a letter run glued to a digit and a run
      holding a non-ASCII letter: "abcd5 café" yields no word. */
  lemma DigitsAndAccentsBlockWords()
    ensures LetterWords("abcd5 café") == []
  {
    var s := "abcd5 café";
    assert Lower(s) == s;
    var m := Attempts(LetterWord, s);
    forall q | 0 <= q < |m|
      ensures m[q].None?
    {
      assert m[q] == LetterMatchAt(s, q);
      NoLetterMatchInExample(q);
    }
    ScanOfFailures(m, 0);
  }

  lemma NoLetterMatchInExample(q: nat)
    requires q <= 10
    ensures LetterMatchAt("abcd5 café", q).None?
  {
    var s := "abcd5 café";
    assert IsWordChar(s[3]) && IsWordChar(s[4]);
    assert IsWordChar(s[8]) && IsWordChar(s[9]) && !IsAsciiLetter(s[9]);
    if q == 0 {
      assert LetterRunEnd(s, 4) == 4;
      assert LetterRunEnd(s, 0) == 4;
    } else if q == 6 {
      assert LetterRunEnd(s, 9) == 9;
      assert LetterRunEnd(s, 6) == 9;
    } else if q in {1, 2, 3, 7, 8, 9} {
      assert IsWordChar(s[q - 1]);
    }
  }

  /** Two capitalised stopwords still make a tag: "This That" is a match of
      the capitalised-run pattern, so text made only of stopwords can yield a
      tag. */
  lemma CapitalisedStopwordsMakeATag(listing: seq<string>)
    requires IsListing(listing, TagPool("This That"))
    ensures "This That" in TagPool("This That")
    ensures |TagsOf(listing)| >= 1
  {
    StopwordPairInPool();
    ListingLength(listing, TagPool("This That"));
  }

  lemma StopwordPairInPool()
    ensures "This That" in TagPool("This That")
  {
    StopwordPairIsMatched();
    WholeTextMatchInPool("This That");
  }

  /** Text that is one capitalised match from end to end is a candidate. */
  lemma WholeTextMatchInPool(text: string)
    requires FindAll(CapitalisedRun, text) == [Span(0, |text|)]
    ensures text in TagPool(text)
  {
    var caps := CapitalisedPhrases(text);
    assert caps[0] == text[0..|text|] == text;
    assert Take(caps, 3)[0] == caps[0];
    assert TagCandidates(text)[0] == caps[0];
  }

  lemma StopwordPairIsMatched()
    ensures FindAll(CapitalisedRun, "This That") == [Span(0, 9)]
  {
    var s := "This That";
    StopwordPairChain();
    assert CapMatchAt(s, 0) == Some(9);
    var m := Attempts(CapitalisedRun, s);
    assert m[0] == Some(9);
    assert Scan(m, 9) == [];
  }

  lemma StopwordPairChain()
    ensures ChainEnds("This That", 0) == [4, 9]
  {
    var s := "This That";
    assert LowerRunEnd(s, 9) == 9;
    assert LowerRunEnd(s, 6) == 9;
    assert CapWordEnd(s, 5) == Some(9);
    assert ChainEnds(s, 5) == [9];
    assert LowerRunEnd(s, 4) == 4;
    assert LowerRunEnd(s, 1) == 4;
    assert CapWordEnd(s, 0) == Some(4);
  }
}
