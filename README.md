# Document-metadata analysers, modelled in Dafny

The document parser service turns the text it extracts from an uploaded file
into metadata. Four pure helpers do that work, and this project models them and
proves properties about them:

- `detect_file_type` maps a path's extension to one of six labels.
- `extract_keywords` returns the words that occur more than once, most
  frequent first.
- `extract_phrases` returns the two- and three-word windows that occur more
  than once.
- `extract_potential_tags` returns up to five tags: capitalised runs such as
  "New York City", and frequent words.

`main.py` and `app.py` hold the same four functions line for line. Only their
comments differ, so their line numbers differ. The table cites `main.py` for
`detect_file_type`, `extract_potential_tags` and `extract_keywords`, and
`app.py` for `extract_phrases`. The corresponding line ranges are:

- `main.py:37-51` and `app.py:36-49`: `detect_file_type`
- `main.py:118-142` and `app.py:111-129`: `extract_potential_tags`
- `main.py:144-174` and `app.py:131-155`: `extract_keywords`
- `main.py:176-208` and `app.py:157-180`: `extract_phrases`

## Modules

- **CharClasses** (`charclasses.dfy`): Python's whitespace class (`\s`,
  `str.isspace`, `str.split`), the word class `\w`, and `str.lower()` applied
  character by character.
- **Stopwords** (`stopwords.dfy`): the three stopword sets.
  - The keyword set has 123 words and contains the phrase set (26 words).
  - The tag set has 16 words.
- **Tokenize** (`tokenize.dfy`): the normalisation the keyword and phrase
  helpers share:
  - `lower()`;
  - `re.sub(r'[^\w\s]', '', ...)`;
  - `split()`.
- **Counting** (`counting.dfy`): `Counter(xs).most_common(n)`, followed by the
  `count > 1` filter.
  - Items are listed distinct, in the order of their first occurrence. This is
    `Counter`'s insertion order.
  - They are then sorted stably by decreasing count and the first `n` are
    taken. This is what `most_common`/`heapq.nlargest` do.
  - The count filter then keeps a prefix of that list.
- **Keywords** (`keywords.dfy`): `extract_keywords`.
- **Phrases** (`phrases.dfy`): `extract_phrases`. It is an imperative method
  whose two loops append bigrams and then trigrams. It is proved equal to a
  declarative definition of the windows.
- **Tags** (`tags.dfy`): `extract_potential_tags`.
  - `re.findall` is a left-to-right scan over the result of a match attempt at
    every position.
  - The engine's behaviour for both patterns is modelled and proved to be the
    regex semantics:
    - the capitalised-run pattern returns the longest match;
    - the letter-word pattern matches exactly the maximal `\w` runs of four or
      more ASCII letters.
  - `list(set(...))` is a method that lists the set in an order it does not
    fix. The tag lemmas hold for every such order.
- **FileTypes** (`filetypes.dfy`): `detect_file_type`, with a POSIX
  `os.path.splitext`.

Two facts about the code are worth knowing:

- The keyword stopword set lists 123 distinct words (`main.py:155-166`), and
  all of them are modelled.
- Text made only of stopwords can still yield a tag. Two capitalised
  stopwords such as "This That" match the capitalised-run pattern and become a
  tag (`Tags.CapitalisedStopwordsMakeATag`). What the code does guarantee is
  proved in `Tags.NoCandidatesNoTags`: text with no capitalised run, and no
  non-stopword letter word occurring twice, gives `[]`.

## Model

| member | source | states |
|---|---|---|
| CharClasses.Fold | main.py:147 | lower-casing a character yields no ASCII capital, and keeps the letter, word and whitespace classes and every character that has no lower-case form |
| CharClasses.IsSpace | main.py:149-152 | no contract of its own: the exact set of characters `str.isspace()` accepts, which `\s` and `split()` use; its properties are stated by `CharClasses.SpaceAndWordClasses` |
| CharClasses.IsWordChar | main.py:149 | no contract of its own: `\w`, exact up to U+00FF; its properties are stated by `CharClasses.SpaceAndWordClasses` |
| CharClasses.SpaceAndWordClasses | main.py:149-152 | `\w` and `\s` never overlap; ASCII letters, digits and '_' are word characters; space, tab, newline and carriage return are whitespace |
| CharClasses.Lower | main.py:147 | `lower()` keeps the length of the text and leaves no ASCII capital |
| Tokenize.StripPunctuation | main.py:149 | what remains after deleting `[^\w\s]` consists only of word and whitespace characters, all taken from the input |
| Tokenize.StripPunctuationKeeps | main.py:149 | every word or whitespace character survives as many times as it occurs: only the deleted class is removed |
| Tokenize.Split | main.py:152 | `split()` yields non-empty tokens free of whitespace, drawn from the input, that together spell the input with its whitespace removed |
| Tokenize.TokenEnd | main.py:152 | the run of non-whitespace from a position ends at the first whitespace character or at the end of the text |
| Tokenize.SplitJoin | main.py:152 | splitting a single-space join of whitespace-free tokens gives the tokens back |
| Tokenize.SplitAtSpace | main.py:152 | a whitespace character separates: splitting `a + [c] + b` gives the tokens of `a` followed by the tokens of `b`. With `Tokenize.SplitWord` and `Split("") == []` this fixes `split()` as the maximal runs of non-whitespace |
| Tokenize.Tokens | main.py:147-152 | every normalised token is non-empty and free of whitespace |
| Tokenize.TokensAreWords | main.py:147-152 | every normalised token is a non-empty run of word characters with no whitespace and no ASCII capital |
| Tokenize.StripPunctuationAppend | main.py:149 | deleting punctuation works piece by piece: on a concatenation it is the concatenation of the results |
| Tokenize.StripPunctuationOfWord | main.py:149 | text made only of word characters is left unchanged |
| Tokenize.StripAroundPunctuation | main.py:149 | a punctuation character between two runs of word characters is deleted and the runs become adjacent |
| Tokenize.SplitWord | main.py:152 | a non-empty string without whitespace splits into itself |
| Tokenize.TokenIsWord | main.py:147-152 | any single token is non-empty word characters, no whitespace and no ASCII capital |
| Tokenize.PunctuationIsDeleted | main.py:147-152 | punctuation is deleted, not treated as a separator: word, punctuation, word ("e-mail") is the single lower-cased token "email" |
| Tokenize.EmptyTextHasNoTokens | main.py:147-152 | empty text has no tokens |
| Counting.FirstIndex | main.py:171 | the position of an item's first occurrence holds that item |
| Counting.FirstIndexIsFirst | main.py:171 | no position before the first occurrence holds the item |
| Counting.FirstIndexIs | main.py:171 | a position holding the item with no occurrence before it is the first occurrence |
| Counting.Distinct | main.py:171 | `Counter`'s keys: duplicate-free, exactly the items of the input, ordered by first occurrence |
| Counting.Filter | main.py:168 | a list comprehension's filter keeps only items that pass the test, all drawn from the input; `Counting.FilterAppend` states that they keep their input order |
| Counting.FilterAppend | main.py:168 | filtering a concatenation concatenates the filtered parts, so the kept items stay in input order |
| Counting.FilterCount | main.py:168 | filtering keeps the count of every item that passes the test |
| Counting.FilterNone | main.py:168 | a filter that no item passes yields `[]` |
| Counting.FilterFilter | main.py:168 | filtering by a weaker test and then a stronger one is filtering by the stronger one |
| Counting.Take | main.py:174 | `most_common(n)` keeps a prefix of the list: `[]` when `n <= 0`, exactly `n` items when `n` fits, and the whole list when `n` is at least its length |
| Counting.Rank | main.py:171-174 | `most_common()` with no limit is a permutation of `Counter`'s distinct keys |
| Counting.MostCommon | main.py:174 | `most_common(n)` is a prefix of the full ranking: `[]` when `n <= 0`, `n` items when `n` fits, and the whole ranking otherwise |
| Counting.KeepRepeated | main.py:174 | `if count > 1` keeps only items of the list that occur more than once, and never lengthens it |
| Counting.Top | main.py:171-174 | every item kept occurs in the input at least twice |
| Counting.BeforeTransitive | main.py:174 | the ranking order (higher count, or equal count and earlier first occurrence) is transitive |
| Counting.RankedCons | main.py:174 | an item ranked before every item of a ranked list can head it |
| Counting.InsertByCount | main.py:174 | no contract of its own: one step of the stable sort inside `most_common`, placing an item after every item counted at least as often; its properties are stated by `Counting.InsertRanked` |
| Counting.SortByCount | main.py:174 | no contract of its own: the stable sort by decreasing count inside `most_common`, over the keys in first-occurrence order; its properties are stated by `Counting.SortByCountRanked` and `Counting.Rank` |
| Counting.InsertRanked | main.py:174 | inserting a later-seen item after every item counted at least as often keeps the list ranked and adds exactly that item |
| Counting.SortByCountRanked | main.py:174 | the stable sort by decreasing count yields a ranked permutation of the distinct items |
| Counting.RankSpec | main.py:171-174 | the full `most_common()` order is ranked, duplicate-free, and holds exactly the items of the input |
| Counting.KeepRepeatedIsPrefix | main.py:174 | `if count > 1` on a ranked list keeps a prefix, made of exactly the items counted more than once |
| Counting.KeepRepeatedAll | main.py:174 | when every item of the list occurs at least twice, `if count > 1` keeps the whole list |
| Counting.TopSpec | main.py:171-174 | the result has at most `max(n, 0)` items, is duplicate-free and ranked, and every item occurs at least twice |
| Counting.TopComplete | main.py:171-174 | an item that occurs at least twice is missing only if the result already has `n` items and all of them rank above it |
| Counting.KeepRepeatedNone | main.py:174 | `if count > 1` keeps nothing of a list whose items all occur fewer than two times |
| Counting.TopOfUnrepeated | main.py:171-174 | input in which no item occurs twice gives `[]` |
| Keywords.IsKeywordToken | main.py:168 | no contract of its own: the test `word not in stopwords and len(word) > 3`; what passes it is stated by `Keywords.KeywordsSpec` |
| Keywords.KeywordTokens | main.py:147-168 | no contract of its own: the normalised tokens that pass the keyword test, in text order; their counts are stated by `Keywords.KeywordsRanked` |
| Keywords.ExtractKeywords | main.py:144-174 | every keyword passes the stopword and length filter and occurs at least twice among the filtered tokens |
| Keywords.KeywordsSpec | main.py:144-174 | at most `max_keywords` distinct keywords; each is longer than three characters, is not a stopword, and occurs at least twice among the normalised tokens |
| Keywords.KeywordsRanked | main.py:168-174 | each keyword's count among the filtered tokens equals its count among all tokens; counts never increase, and equal counts keep first-occurrence order |
| Keywords.KeywordsComplete | main.py:168-174 | a repeated qualifying token is left out only when `max_keywords` higher-ranked keywords fill the list |
| Keywords.KeywordsAreWords | main.py:147-174 | keywords contain no whitespace, no non-`\w` character and no ASCII capital |
| Keywords.NoContentNoKeywords | main.py:168-174 | text whose tokens are all stopwords or at most three characters long yields `[]` |
| Keywords.EmptyTextNoKeywords | main.py:144-174 | empty text yields `[]` |
| Phrases.IsPhraseToken | app.py:167 | no contract of its own: the test `word not in stopwords and len(word) > 2`; what passes it is stated by `Phrases.PhraseTokensSpec` |
| Phrases.PhraseTokens | app.py:158-167 | no contract of its own: the normalised tokens that pass the phrase test, in text order; stated by `Phrases.PhraseTokensSpec` |
| Phrases.Bigram | app.py:172 | no contract of its own: two words joined by one space; stated by `Phrases.BigramWords` |
| Phrases.Trigram | app.py:175 | no contract of its own: three words joined by single spaces; stated by `Phrases.TrigramWords` |
| Phrases.Bigrams | app.py:171-172 | no contract of its own: the bigram at every position, in order; the loop that builds it is `Phrases.ExtractPhrases` and its shape is stated by `Phrases.CandidatesBigramsFirst` |
| Phrases.Trigrams | app.py:174-175 | no contract of its own: the trigram at every position, in order; stated by `Phrases.CandidatesTrigramsNext` |
| Phrases.Candidates | app.py:169-175 | no contract of its own: the bigrams followed by the trigrams; stated by `Phrases.CandidatesLength` and `Phrases.CandidateIsWindow` |
| Phrases.ExtractPhrases | app.py:157-180 | the two append loops build exactly the bigrams followed by the trigrams, and the result is their ranking |
| Phrases.BigramsPrefix | app.py:171-172 | each iteration of the first loop appends the bigram at the next position |
| Phrases.TrigramsPrefix | app.py:174-175 | each iteration of the second loop appends the trigram at the next position |
| Phrases.CandidatesLength | app.py:169-175 | `n` filtered tokens give `max(0, n-1) + max(0, n-2)` candidates, and fewer than two tokens give none |
| Phrases.CandidatesBigramsFirst | app.py:171-172 | the candidate list starts with the bigram at every position, in position order |
| Phrases.CandidatesTrigramsNext | app.py:174-175 | the trigrams at every position follow the bigrams, in position order |
| Phrases.BigramWords | app.py:172 | a bigram splits back into its two words and holds exactly one space |
| Phrases.TrigramWords | app.py:175 | a trigram splits back into its three words and holds exactly two spaces |
| Phrases.BigramIsNeverTrigram | app.py:172-175 | no bigram string equals a trigram string |
| Phrases.TrigramsBelowBigrams | app.py:171-175 | every window "a b c" starts with a window "a b" at the same index |
| Phrases.BigramNotAmongTrigrams | app.py:172-175 | a bigram never occurs among the trigrams |
| Phrases.TrigramNotAmongBigrams | app.py:172-175 | a trigram never occurs among the bigrams |
| Phrases.TrigramCountAtMostBigramCount | app.py:171-177 | the count of "a b c" never exceeds the count of "a b" |
| Phrases.PhraseTokensSpec | app.py:158-167 | filtered tokens are whitespace-free words longer than two characters, not stopwords, with their counts among all tokens unchanged |
| Phrases.KeywordTokensRefinePhraseTokens | app.py:151-167 | keyword tokens are the phrase tokens filtered once more: same normalisation, stricter stopwords and length |
| Phrases.StopwordsDoNotBreakAdjacency | app.py:167-172 | a stopword between two kept tokens is removed before windowing, so the two form a bigram |
| Phrases.PhraseRankingSpec | app.py:177-180 | at most `max_phrases` distinct phrases, each occurring at least twice among the candidates, in decreasing rank |
| Phrases.PhraseRanking | app.py:157-180 | every phrase occurs at least twice among the bigram and trigram candidates |
| Phrases.TiedBigramsFirst | app.py:169-180 | among phrases with equal counts, every bigram precedes every trigram |
| Phrases.CandidateIsWindow | app.py:169-175 | every candidate is a window of two or three consecutive filtered tokens |
| Phrases.CandidateSplits | app.py:169-175 | every candidate over words splits into two words with one space, or three words with two spaces |
| Phrases.PhrasesAreWindows | app.py:161-180 | every phrase is such a window, and has exactly one space (bigram) or exactly two spaces (trigram) |
| Phrases.FewTokensNoPhrases | app.py:167-180 | fewer than two filtered tokens yield `[]` |
| Phrases.EmptyTextNoPhrases | app.py:157-180 | empty text yields `[]` |
| Tags.BoundaryAt | main.py:124-128 | no contract of its own: `\b`, a word character on exactly one side of the position; used by `Tags.CapMatchAtSound` and `Tags.LetterMatchAtIsMaximalRun` |
| Tags.CapRun | main.py:124 | no contract of its own: the declarative meaning of `[A-Z][a-z]+( [A-Z][a-z]+)*`; the engine is related to it by `Tags.ChainSound` and `Tags.ChainComplete` |
| Tags.CapMatches | main.py:124 | no contract of its own: the declarative meaning of the whole capitalised-run pattern (a run of two or more words with `\b` on both sides); the engine is related to it by `Tags.CapMatchAtIsLongestMatch` |
| Tags.LowerRunEnd | main.py:124 | `[a-z]+` taken greedily ends at the first character that is not a lower-case ASCII letter |
| Tags.CapWordEnd | main.py:124 | `[A-Z][a-z]+` matches at a position exactly when a capital is followed by a lower-case letter, and it takes the whole lower-case run |
| Tags.ChainEnds | main.py:124 | the words of a chain end in increasing order, and each word but the last is followed by a single space |
| Tags.PickEnd | main.py:124 | the end the engine settles on is one of the chained ends |
| Tags.CapMatchAt | main.py:124 | a match found at a position ends after it and within the text |
| Tags.CapWordIsRun | main.py:124 | one capitalised word is a run of capitalised words |
| Tags.JoinRuns | main.py:124 | a run, a space and a run make a longer run |
| Tags.ChainSound | main.py:124 | every chain end closes a run of capitalised words joined by single spaces |
| Tags.FirstWordOfRun | main.py:124 | a run starts with a `[A-Z][a-z]+` word that ends where the run ends or at a space |
| Tags.RestOfRun | main.py:124 | after the first word and its space, the rest of a run is a run |
| Tags.ChainStep | main.py:124 | a word followed by a space continues the chain after the space |
| Tags.ChainComplete | main.py:124 | every such run not followed by a lower-case letter ends at a chain end |
| Tags.PickEndShape | main.py:124 | the engine takes the last chained end when a `\b` follows it, and otherwise the one before, which a space follows |
| Tags.CapMatchAtSound | main.py:124 | what the engine returns at a position is a match: two or more capitalised words joined by single spaces, with `\b` on both sides |
| Tags.NoLowerAfterMatch | main.py:124 | no lower-case letter follows a match |
| Tags.MatchIsLaterChainEnd | main.py:124 | a match ends at a chained end other than the first, since it spans two or more words |
| Tags.PickEndCovers | main.py:124 | of increasing ends, any one after the first with a `\b` after it ends no later than the one the engine picks |
| Tags.LaterChainEndIsCovered | main.py:124 | the same holds for the ends of the chain at a position |
| Tags.CapMatchAtLongest | main.py:124 | every match at a position ends no later than what the engine returns |
| Tags.CapMatchAtIsLongestMatch | main.py:124 | the engine finds a match exactly when one exists, and it finds the longest |
| Tags.LetterRunEnd | main.py:128 | `[a-zA-Z]` repeated greedily ends at the first character that is not an ASCII letter |
| Tags.LetterWordAt | main.py:128 | no contract of its own: the declarative meaning of `\b[a-zA-Z]{4,}\b`; the engine is related to it by `Tags.LetterMatchAtIsMaximalRun` |
| Tags.LetterMatchAtIsMaximalRun | main.py:128 | `\b[a-zA-Z]{4,}\b` matches exactly the maximal runs of word characters that are ASCII letters only and at least four long |
| Tags.LetterMatchAt | main.py:128 | a match found at a position ends after it and within the text |
| Tags.MatchAt | main.py:124-128 | an attempt of either pattern at a position that succeeds ends after it and within the text |
| Tags.Attempts | main.py:125-128 | one attempt per position `0..len(text)`, every success ending inside the text |
| Tags.Scan | main.py:125 | `findall`'s scan returns successful match attempts, in order and not overlapping |
| Tags.ScanTakes | main.py:125 | a successful attempt is recorded and the scan resumes at the match's end |
| Tags.ScanSkips | main.py:125 | a failed attempt moves the scan one position on |
| Tags.CoveredAfterTake | main.py:125 | a position covered after a recorded match is covered by the whole scan |
| Tags.ScanIsLeftmost | main.py:125 | every position where an attempt succeeds lies inside a returned match |
| Tags.FindAll | main.py:125-128 | every span `findall` returns is the pattern's match at its start, and the spans are in order and do not overlap |
| Tags.FindAllIsLeftmost | main.py:125-128 | `findall` misses no position where the pattern matches |
| Tags.Texts | main.py:125 | the matched strings are the spans' characters, in order |
| Tags.CapitalisedPhrases | main.py:124-125 | one non-empty string per match of the capitalised-run pattern |
| Tags.LetterWords | main.py:128 | one non-empty string per match of the letter-word pattern on the lower-cased text |
| Tags.TagWords | main.py:130-132 | the filtered words are letter words that are not tag stopwords |
| Tags.CommonWords | main.py:135-136 | at most five words, each occurring at least twice among the filtered words |
| Tags.TagCandidates | main.py:139 | at most eight candidates: three phrases and five words |
| Tags.TagsOf | main.py:142 | `min(5, listing length)` tags of at most 23 characters, each entry of at most 20 characters unchanged |
| Tags.Truncate | main.py:142 | a tag of at most 20 characters is kept; a longer one becomes its first 20 characters followed by "..." (23 characters) |
| Tags.TruncateIdempotent | main.py:142 | truncating twice is truncating once |
| Tags.TagPool | main.py:139 | no contract of its own: `set(...)` of the candidates; stated by `Tags.TagPoolSize` and `Tags.TagPoolMembers` |
| Tags.IsListing | main.py:139 | no contract of its own: what `list(set)` may return, each element once in any order; stated by `Tags.ListOfSet` and `Tags.ListingLength` |
| Tags.ListOfSet | main.py:139 | `list(set)` lists every element exactly once, in some order |
| Tags.ListingLength | main.py:139 | such a listing has one entry per set element |
| Tags.SetOfSeqSize | main.py:139 | deduplicating a list never adds elements |
| Tags.TagPoolSize | main.py:139 | there are at most eight distinct candidates |
| Tags.ExtractPotentialTags | main.py:118-142 | `min(5, number of distinct candidates)` tags, obtained by truncating the first entries of some listing of the candidate set |
| Tags.TagsSpec | main.py:139-142 | for every order of the set: `min(5, pool size)` tags, from pairwise distinct candidates, each untouched or truncated to 20 characters plus "..." |
| Tags.LetterWordIsLower | main.py:128 | each letter word is four or more lower-case ASCII letters |
| Tags.TagWordsAreLetterWords | main.py:128-132 | the filtered words have at least four lower-case ASCII letters and are not tag stopwords |
| Tags.CapitalisedPhraseIsLongestMatch | main.py:124-125 | each capitalised phrase is the longest match of the pattern at its start |
| Tags.CommonWordFacts | main.py:128-136 | each common word has four or more lower-case ASCII letters, is not a stopword, and occurs at least twice |
| Tags.TagPoolMembers | main.py:124-139 | every distinct candidate is one of the first three capitalised matches, or one of the top five repeated words |
| Tags.NoCandidatesNoTags | main.py:124-142 | text with no capitalised run and no non-stopword letter word occurring twice gives no tag, in every order |
| Tags.NoCandidates | main.py:124-139 | no capitalised match and no filtered word occurring twice leave no candidate |
| Tags.WholeTextMatchInPool | main.py:124-139 | text that is one capitalised match from end to end is itself a candidate |
| Tags.EmptyTextNoTags | main.py:118-142 | empty text gives no tag |
| Tags.ScanOfFailures | main.py:125 | a scan over attempts that all fail finds nothing |
| Tags.DigitsAndAccentsBlockWords | main.py:128 | "abcd5 café" yields no letter word: a run glued to a digit and a run with a non-ASCII letter never match |
| Tags.CapitalisedStopwordsMakeATag | main.py:124-139 | "This That" is a capitalised match and therefore a tag, although both words are stopwords |
| FileTypes.LastIndex | main.py:39 | `rfind`: the last position holding the character, or -1 |
| FileTypes.Extension | main.py:39 | a non-empty extension is a suffix of the path that starts with '.' and has no further '.' or '/'; when there is one is stated by `FileTypes.ExtensionOfPath`, `FileTypes.LeadingDotsNoExtension`, `FileTypes.AllDotsNoExtension` and `FileTypes.NoDotNoExtension` |
| FileTypes.KindOfExtension | main.py:40-51 | the if/elif chain always yields one of `pdf`, `docx`, `txt`, `image`, `csv`, `unknown` |
| FileTypes.DetectFileType | main.py:37-51 | the result is always one of `pdf`, `docx`, `txt`, `image`, `csv`, `unknown` |
| FileTypes.DetectFileTypeByTable | main.py:40-51 | the if/elif chain equals a lookup in the extension table, with "unknown" for any other extension or none |
| FileTypes.FoldKeepsSeparators | main.py:39 | lower-casing neither creates nor removes '.' or '/' |
| FileTypes.LastIndexOfLower | main.py:39 | lower-casing leaves the positions of '.' and '/' unchanged |
| FileTypes.ExtensionOfLower | main.py:39 | the extension of the lower-cased path is the lower-cased extension |
| FileTypes.LowerIdempotent | main.py:39 | lower-casing twice is lower-casing once |
| FileTypes.DetectFileTypeIgnoresCase | main.py:39-51 | the label does not depend on the case of the path |
| FileTypes.ExtensionOfPath | main.py:39 | a directory prefix (empty or ending in '/'), a name that holds no '/' and some character other than '.', then '.' and a suffix without '.' or '/': the extension is '.' plus that suffix; the name may start with dots, since only leading dots are skipped |
| FileTypes.ExtensionOfName | main.py:39 | the same for a bare name without a directory |
| FileTypes.LeadingDotsNoExtension | main.py:39 | a last component made only of leading dots, then '.' and a suffix without '.' or '/', has no extension |
| FileTypes.AllDotsNoExtension | main.py:39 | a last component made only of dots has no extension |
| FileTypes.NoDotNoExtension | main.py:39 | a last path component without '.' has no extension |
| FileTypes.KindOfName | main.py:39-51 | such a path, with or without a directory, gets the table's label for its lower-cased suffix |
| FileTypes.UpperCasePdf | main.py:39-41 | "report.PDF" is `pdf` |
| FileTypes.TempUploadIsPdf | main.py:39-41 | an absolute temporary-file path such as "/tmp/tmpk3x9.pdf" is `pdf` |
| FileTypes.JpegIsImage | main.py:39-47 | "photo.jpeg" is `image` |
| FileTypes.UpperCaseGif | main.py:39-47 | "ANIM.GIF" is `image` |
| FileTypes.ArchiveIsUnknown | main.py:39-51 | "archive.tar.gz" is `unknown`: only the last extension counts |
| FileTypes.NoExtensionIsUnknown | main.py:39-51 | "notes" is `unknown` |
| FileTypes.HiddenFileIsUnknown | main.py:39-51 | the hidden file ".pdf" has no extension, so it is `unknown` |
| FileTypes.HiddenNameWithExtensionIsPdf | main.py:39-41 | "/tmp/.env.pdf" is `pdf`: only the leading dot of a hidden name is skipped |
| FileTypes.LeadingDotsAreUnknown | main.py:39-51 | "..pdf" has no extension, so it is `unknown` |
| FileTypes.DirectoryDotIsUnknown | main.py:39-51 | "dir.pdf/readme" is `unknown`: a dot in a directory name is no extension |

## Left out

- The HTTP service is not modelled: the FastAPI app, CORS, the response model,
  `/health`, `parse_document` and its temporary files. This is I/O and
  framework plumbing.
- The text extractors for PDF, DOCX, images (OCR) and CSV, and the dispatch
  over them, are not modelled. They call foreign libraries on files.
- `gunicorn_conf.py` is not modelled. It is deployment configuration.
- CharClasses.IsWordChar: `\w` is exact up to U+00FF. Above it, every character that is neither
  whitespace nor in the General Punctuation block U+2000-U+206F counts as a
  word character. Python's full Unicode tables are not available here.
- CharClasses.IsSpace: whitespace is the exact set that `str.isspace()` accepts.
- CharClasses.Fold: lower-cases only ASCII and Latin-1 capitals, and never
  changes a string's length. Python's `lower()` also maps other scripts, and
  can change the length. On such text the model's outputs differ from
  Python's. The Kelvin sign U+212A lower-cases to ASCII 'k', so Python finds
  the letter word "kelvin" in "\u212Aelvin" and the model finds none. 'İ'
  lower-cases to 'i' plus the combining dot U+0307, which is not `\w` and is
  deleted, so Python's token for "İstanbul" is "istanbul" and the model's is
  "İstanbul".
- Tags.ExtractPotentialTags: does not fix the order of `list(set(...))`. Python
  iterates a set in an order that depends on string-hash randomisation, so
  which five of more than five candidates are kept, and their order, is
  unspecified here. Every tag lemma holds for all orders.
- FileTypes.Extension: follows POSIX `os.path.splitext`. The Windows
  variant, which also splits on '\' and drive letters, is not modelled. Its
  own contract describes only a non-empty result. When there is an extension
  is stated by `FileTypes.ExtensionOfPath` (a name with a non-dot character,
  leading dots allowed), `FileTypes.LeadingDotsNoExtension` and
  `FileTypes.AllDotsNoExtension` (only dots before the last '.'),
  `FileTypes.NoDotNoExtension` and the examples.
- Counting.Take: a negative `max_keywords` or `max_phrases` gives `[]`, as
  `heapq.nlargest` does. The defaults 20 and 10 are the methods' default
  parameters.
- Exceptions are not modelled: the analysers never raise on string input.
