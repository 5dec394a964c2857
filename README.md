# TF-IDF extractive summarizer, modelled in Dafny

The model covers `summarize_text(text, N=3)`, the extractive summarizer
behind the Streamlit text-summary application. The function works in these
steps:

- It splits the text into sentences. Every sentence is treated as one
  document.
- It counts, for every word, how many sentences contain it (the document
  frequency, DF).
- It computes each sentence's term frequencies (TF) over its alphanumeric,
  non-stopword, lower-cased tokens.
- Each word's inverse document frequency (IDF) is `log(total / (1 + DF))`.
- A sentence scores the mean of its TF-IDF weights, or 0 when it has no
  words.
- The summary keeps the `N` best-scoring sentences. Ties are broken by
  sentence position. The kept sentences are emitted in document order,
  joined by single spaces.

Modules:

- `tokens.dfy` (`Tokens`): the toolkit of outside pieces and the word filter.
- `sums.dfy` (`Sums`): exact sums over the values of a map, and
  order independence of those sums.
- `frequency.dfy` (`Frequency`): DF, TF and IDF, and the loops that build
  them.
- `scoring.dfy` (`Scoring`): TF-IDF weights and sentence scores.
- `selection.dfy` (`Selection`): the stable descending ranking, Python's
  `[:N]` slice, and the ascending re-sort.
- `text.dfy` (`Text`): `' '.join`.
- `summarizer.dfy` (`Summarizer`): the whole function, and properties of the
  summary.

The source's loops are methods. Each method is proved equal to a function
that specifies it (`CountDocFreq`, `BuildTfMatrix`, `BuildTfIdfMatrix`,
`MeanWeight`, `ComputeScores`, `SummarizeText`). The list and dict
comprehensions are functions.

For a sentence with words, the TF values add up to exactly 1
(`TfSumsToOne`). Each distinct word's count is divided by the token count,
and those counts add up to the token count.

## Model

| member | source | states |
|---|---|---|
| `Tokens.Kept` | app.py:22 | a token survives the filter when it is alphanumeric and not a stopword; `Filtered` and `DistinctKept` state what this filter keeps |
| `Tokens.Count` | app.py:30 | `words.count(w)` is at most the list length, and positive exactly when `w` occurs |
| `Tokens.Filtered` | app.py:28 | the kept tokens are exactly the alphanumeric non-stopword tokens; each kept word keeps its number of occurrences and every other word has none |
| `Tokens.SentenceWords` | app.py:28 | a word is in a sentence's word list iff it is a token of the lower-cased sentence and passes the filter |
| `Tokens.WordsOf` | app.py:27-28 | one filtered word list per sentence, aligned by index |
| `Sums.SumValues` | app.py:40 | `sum(tfidf.values())` in exact arithmetic; an all-zero map, the empty one included, sums to 0 |
| `Sums.SumOver` | app.py:40 | the sum over a key set taken one key at a time in an unspecified order; `SumOverRemove` shows the order cannot matter |
| `Sums.SumOverRemove` | app.py:40 | the sum of the map's values does not depend on which key is visited first, so it is independent of dict order |
| `Sums.SumOverAgree` | app.py:40 | two maps that agree on a key set have equal sums over it |
| `Sums.SumValuesBump` | app.py:40 | raising one value by `d` raises the sum by `d` |
| `Sums.SumOverZero` | app.py:40 | all-zero values sum to 0 |
| `Sums.SumOverLowerBound` | app.py:40 | values at least `lo` sum to at least `count * lo` |
| `Sums.SumOverUpperBound` | app.py:40 | values at most `hi` sum to at most `count * hi` |
| `Sums.MeanBetween` | app.py:40 | a sum between `n*lo` and `n*hi` has its mean between `lo` and `hi` |
| `Frequency.PrefixStep` | app.py:20-24 | one more sentence adds its words to the vocabulary and one to each of their sentence counts |
| `Frequency.VocabularyMembers` | app.py:19-24 | the vocabulary is exactly the words occurring in some sentence |
| `Frequency.ContainingBounds` | app.py:19-24 | a word's sentence count is at most the number of sentences, and positive iff some sentence holds it |
| `Frequency.DocFreq` | app.py:19-24 | `doc_per_word` has a key iff some sentence holds that word, and each count lies between 1 and the number of sentences |
| `Frequency.CountDocFreq` | app.py:19-24 | the DF loop produces exactly `DocFreq` of the sentences' word lists |
| `Frequency.DistinctKept` | app.py:21-22 | filtering the token set gives exactly the distinct kept words of the sentence |
| `Frequency.AddSentence` | app.py:23-24 | each distinct word's count rises by one, starting from 0; other counts and keys are unchanged |
| `Frequency.Tf` | app.py:29-30 | TF covers exactly the sentence's words, each value is count over length and lies in (0, 1]; a wordless sentence has the empty map |
| `Frequency.SharesInUnit` | app.py:30 | every count-over-length share lies in (0, 1] |
| `Frequency.TfMatrix` | app.py:26-31 | one TF map per sentence, aligned by index |
| `Frequency.BuildTfMatrix` | app.py:26-31 | the TF loop produces exactly `TfMatrix` of the sentences' word lists |
| `Frequency.CountSharesSum` | app.py:30 | the shares count/len over a key set covering the words sum to `len(words)/len` |
| `Frequency.TfSumsToOne` | app.py:29-30 | the TF values of a sentence with words sum to exactly 1 |
| `Frequency.Idf` | app.py:33 | the IDF map has exactly the DF map's keys |
| `Frequency.IdfQuotient` | app.py:33 | the exact quotient `total / (1 + DF)` is positive iff there are sentences, below 1 iff the divisor exceeds the number of sentences, and 1 iff they are equal |
| `Frequency.IdfQuotientRange` | app.py:33 | the logarithm's argument is always positive; it is below 1 iff the word is in every sentence, and equal to 1 iff the word is in all sentences but one |
| `Frequency.DocFreqKeysKept` | app.py:19-22 | every DF key is a kept token of some sentence |
| `Frequency.TfKeysInIdf` | app.py:33-37 | every TF key has an IDF entry |
| `Scoring.TfIdf` | app.py:37 | a sentence's TF-IDF map has exactly its TF map's keys |
| `Scoring.TfIdfMatrix` | app.py:35-38 | one TF-IDF map per sentence, aligned by index |
| `Scoring.BuildTfIdfMatrix` | app.py:35-38 | the TF-IDF loop produces exactly `TfIdfMatrix` |
| `Scoring.TfIdfWithoutDefault` | app.py:33-37 | in the summarizer a sentence's TF-IDF map holds exactly its words, each with a DF entry, so the `get` default is never used |
| `Scoring.TfIdfWeight` | app.py:33-37 | a word with a TF value and a DF entry weighs its TF value times `ln(total / (1 + DF))` |
| `Scoring.Score` | app.py:40 | a sentence's score times its number of weights is the sum of its weights; an empty map scores 0 |
| `Scoring.ScoreBetween` | app.py:40 | a score lies between the smallest and the largest weight of the sentence |
| `Scoring.WordlessSentenceScoresZero` | app.py:30-40 | a sentence without kept words scores 0 |
| `Scoring.Scores` | app.py:40 | one score per sentence, aligned by index |
| `Scoring.MeanWeight` | app.py:40 | summing the weights in any key order and dividing by their number gives `Score` |
| `Scoring.ComputeScores` | app.py:40 | the score list is exactly `Scores` |
| `Selection.RankedCons` | app.py:41 | prepending an index that ranks before every entry keeps a list ranked |
| `Selection.Insert` | app.py:41 | inserting into a ranked list keeps it ranked, adds exactly that index, and keeps every earlier-ranking index ahead of it |
| `Selection.RankPrefix` | app.py:41 | ranking the first `k` indices gives a ranked list of exactly `0 .. k-1` |
| `Selection.Ranking` | app.py:41 | all indices ordered by descending score, equal scores in ascending index order, as the stable `sorted(..., reverse=True)` leaves them |
| `Selection.RankedHead` | app.py:41 | the head of a ranked list ranks before each of its other members |
| `Selection.RankedUnique` | app.py:41 | two ranked lists with the same members are equal |
| `Selection.RankingIsUnique` | app.py:41 | any stable descending ordering of all indices is `Ranking`, so the sort's result is determined |
| `Selection.SliceLength` | app.py:41 | `a[:N]` keeps exactly the indices before the stop position, a negative `N` counting from the end, and never more than the list |
| `Selection.TopIndices` | app.py:41 | `top_indices` is ranked and has `SliceLength(N, len)` entries |
| `Selection.TopIndicesDominate` | app.py:41 | every chosen index scores at least as high as every left-out index, and wins a tie only by coming first |
| `Selection.TopIndicesAll` | app.py:41 | with `N` at least the sentence count, every index is chosen |
| `Selection.IncreasingCons` | app.py:42 | a value no larger than a sorted list's head keeps it sorted when prepended |
| `Selection.InsertAscending` | app.py:42 | ascending insertion keeps order and adds exactly one copy of the value |
| `Selection.SortAscending` | app.py:42 | `sorted(top_indices)` is ascending, a permutation of its input, and strictly ascending on distinct input |
| `Selection.SameMembers` | app.py:42 | equal multisets give equal length and membership |
| `Selection.RankedDistinct` | app.py:41 | a ranked list has no repeated index |
| `Selection.Chosen` | app.py:41-42 | the emitted indices are strictly ascending, valid, `SliceLength(N, len)` many, and exactly `top_indices` |
| `Selection.AscendingCover` | app.py:42 | a strictly ascending list of all of `0 .. len-1` is `0, 1, ..., len-1` |
| `Selection.AscendingLower` | app.py:42 | entry `k` of a strictly ascending list is at least `k` |
| `Selection.AscendingUpper` | app.py:42 | entry `k` of a strictly ascending list bounded by `len` with `len` entries is at most `k` |
| `Selection.ChosenAll` | app.py:41-42 | with `N` at least the sentence count, the emitted indices are `0 .. len-1` in order |
| `Text.Join` | app.py:42 | `' '.join`: the result is as long as all parts plus one separator per gap; no parts give the empty string |
| `Text.JoinAt` | app.py:42 | the joined string is the parts before any part, one space, the part verbatim, one space, and the parts after it |
| `Summarizer.SentenceScores` | app.py:15-40 | one score per sentence |
| `Summarizer.SummarySentences` | app.py:42 | the emitted sentences are `SliceLength(N, len)` many, each the sentence at the chosen index |
| `Summarizer.Compose` | app.py:42 | no sentences give the empty summary, and the summary opens with the first chosen sentence; `SummaryPlacesSentence` and `SummaryOfAll` place every chosen sentence |
| `Summarizer.Summary` | app.py:14-43 | the value `summarize_text` returns; a text without sentences gives the empty summary, and a one-sentence text gives that sentence for any `N >= 1` |
| `Summarizer.SummarizeText` | app.py:14-43 | the method's summary is `Summary(text, N)`: the chosen sentences, in document order, joined by spaces |
| `Summarizer.SummaryPlacesSentence` | app.py:42 | every chosen sentence appears verbatim in the summary, between the chosen sentences before and after it |
| `Summarizer.SummaryOfAll` | app.py:41-42 | with `N` at least the sentence count, the summary is every sentence joined by spaces |
| `Summarizer.WordlessChosenOnlyOverNonPositive` | app.py:30-41 | a wordless sentence is chosen over another only if that one scores at most 0, and on a tie only if it comes first |

## Left out

- The Streamlit interface (app.py:45 onwards): text input, file upload, `.docx` reading and display. These are I/O.
- `nltk.download` (app.py:10-11). It fetches data over the network, so it is I/O.
- `sent_tokenize`, `word_tokenize`, `str.lower`, `str.isalnum` and the English stopword list are not modelled. They are fields of the `Toolkit` parameter, and every property holds for any choice of them.
- `math.log` is the abstract `ln` field of `Toolkit`. `Frequency.IdfQuotientRange` states what its argument is; properties of the logarithm (its sign, say) are not modelled.
- Floating point: all arithmetic is exact `real`, so rounding in `count/length`, the division inside the logarithm and the mean is not modelled. In particular, floating-point TF values may sum to slightly off 1.
- Python's dict and set iteration orders are not modelled. The model's sums visit keys in an unspecified order, and `Sums.SumOverRemove` shows the order cannot matter in exact arithmetic; under floating point it could.
- Timsort itself is not modelled. `Selection.Ranking` is a stable insertion sort, and `Selection.RankingIsUnique` shows that every stable descending sort gives that same list.
- `Scoring.Score` is a ghost function defined through the ghost sum `Sums.SumValues`. The executable `Scoring.MeanWeight` is proved equal to it.
