/** The three stopword sets of the analysers. The keyword set has 123 words;
    it contains all 26 words of the phrase set, and is written here as that set
    together with the 97 others. */
module Stopwords {

  /** Words never counted as phrase tokens (26 words). */
  const PhraseStopwords: set<string> := {
      "a", "an", "the", "and", "or", "but", "is", "are", "was", "were", "be", "been", "being",
      "to", "of", "in", "for", "with", "by", "at", "this", "that", "these", "those", "it",
      "its"
    }

  /** Words never counted as keyword tokens (123 words). */
  const KeywordStopwords: set<string> := PhraseStopwords + {
      "about", "above", "after", "again", "against", "all", "am", "any", "as", "because",
      "before", "below", "between", "both", "could", "did", "do", "does", "doing", "down",
      "during", "each", "few", "from", "further", "had", "has", "have", "having", "he", "her",
      "here", "hers", "herself", "him", "himself", "his", "how", "i", "if", "into", "itself",
      "me", "more", "most", "my", "myself", "no", "nor", "not", "off", "on", "once", "only",
      "other", "ought", "our", "ours", "ourselves", "out", "over", "own", "same", "she",
      "should", "so", "some", "such", "than", "their", "theirs", "them", "themselves", "then",
      "there", "they", "through", "too", "under", "until", "up", "very", "we", "what", "when",
      "where", "which", "while", "who", "whom", "why", "would", "you", "your", "yours",
      "yourself", "yourselves"
    }

  /** Words never taken as frequent-word tags (16 words). */
  const TagStopwords: set<string> := {
      "this", "that", "with", "from", "have", "were", "what", "when", "where", "which", "their",
      "there", "about", "would", "could", "should"
    }
}
