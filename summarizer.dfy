/** `summarize_text`: split the text into sentences, score every sentence by
    the mean TF-IDF weight of its words, keep the `n` best-scoring sentences
    and emit them in document order, separated by single spaces. */
module Summarizer {
  import opened Tokens
  import opened Frequency
  import opened Scoring
  import opened Selection
  import opened Text

  /** The score of every sentence, as the pipeline computes it. */
  ghost function SentenceScores(kit: Toolkit, sentences: seq<string>): (s: seq<real>)
    ensures |s| == |sentences|
  {
    var ws := WordsOf(kit, sentences);
    var idf := Idf(DocFreq(ws), |sentences|, kit.ln);
    Scores(TfIdfMatrix(TfMatrix(ws), idf))
  }

  /** The chosen sentences, in document order. */
  function SummarySentences(sentences: seq<string>, scores: seq<real>, n: int): (r: seq<string>)
    requires |scores| == |sentences|
    ensures |r| == SliceLength(n, |sentences|)
    ensures forall k :: 0 <= k < |r| ==> r[k] == sentences[Chosen(scores, n)[k]]
  {
    var order := Chosen(scores, n);
    seq(|order|, k requires 0 <= k < |order| => sentences[order[k]])
  }

  /** The summary text (app.py:42): the chosen sentences in document order,
      joined with single spaces. */
  function Compose(sentences: seq<string>, scores: seq<real>, n: int): (r: string)
    requires |scores| == |sentences|
    ensures |sentences| == 0 ==> r == ""
    ensures SliceLength(n, |sentences|) > 0 ==> sentences[Chosen(scores, n)[0]] <= r
  {
    var parts := SummarySentences(sentences, scores, n);
    if |parts| > 0 then
      JoinAt(parts, " ", 0);
      assert parts[..0] == [];
      Join(parts, " ")
    else Join(parts, " ")
  }

  /** The summary `summarize_text(text, n)` returns. A text without
      sentences gives the empty summary; a text of one sentence gives that
      sentence for every positive `n`. */
  ghost function Summary(kit: Toolkit, text: string, n: int): (r: string)
    ensures kit.splitSentences(text) == [] ==> r == ""
    ensures |kit.splitSentences(text)| == 1 && n >= 1 ==> r == kit.splitSentences(text)[0]
  {
    var sentences := kit.splitSentences(text);
    var scores := SentenceScores(kit, sentences);
    if n >= |sentences| then
      SummaryOfAll(sentences, scores, n);
      Compose(sentences, scores, n)
    else Compose(sentences, scores, n)
  }

  /** `summarize_text(text, N=3)`. */
  method SummarizeText(kit: Toolkit, text: string, n: int := 3) returns (summary: string)
    ensures summary == Summary(kit, text, n)
  {
    var sentences := kit.splitSentences(text);
    var totalSentences := |sentences|;
    var docPerWord := CountDocFreq(kit, sentences);
    var tfMatrix := BuildTfMatrix(kit, sentences);
    var idfMatrix := Idf(docPerWord, totalSentences, kit.ln);
    var tfidfMatrix := BuildTfIdfMatrix(tfMatrix, idfMatrix);
    var scores := ComputeScores(tfidfMatrix);
    summary := Compose(sentences, scores, n);
  }

  /** Each chosen sentence appears verbatim in the summary, preceded by the
      chosen sentences before it and followed by those after it, with one
      space between neighbours. */
  lemma SummaryPlacesSentence(sentences: seq<string>, scores: seq<real>, n: int, k: nat)
    requires |scores| == |sentences|
    requires k < SliceLength(n, |sentences|)
    ensures
      var parts := SummarySentences(sentences, scores, n);
      Compose(sentences, scores, n)
        == Join(parts[..k], " ") + (if k > 0 then " " else "") + sentences[Chosen(scores, n)[k]]
         + (if k + 1 < |parts| then " " + Join(parts[k + 1..], " ") else "")
  {
    JoinAt(SummarySentences(sentences, scores, n), " ", k);
  }

  /** With `n` at least the number of sentences, the summary is every
      sentence in document order. */
  lemma SummaryOfAll(sentences: seq<string>, scores: seq<real>, n: int)
    requires |scores| == |sentences|
    requires n >= |sentences|
    ensures Compose(sentences, scores, n) == Join(sentences, " ")
  {
    ChosenAll(scores, n);
    assert SummarySentences(sentences, scores, n) == sentences;
  }

  /** A sentence without words (stopwords and punctuation only) is chosen
      over another sentence only when that sentence scores at most 0, and
      on a tie only when it comes first. */
  lemma WordlessChosenOnlyOverNonPositive(kit: Toolkit, sentences: seq<string>, n: int, i: nat, j: nat)
    requires i < |sentences| && SentenceWords(kit, sentences[i]) == []
    requires i in Chosen(SentenceScores(kit, sentences), n)
    requires j < |sentences| && j !in Chosen(SentenceScores(kit, sentences), n)
    ensures SentenceScores(kit, sentences)[j] <= 0.0
    ensures SentenceScores(kit, sentences)[j] == 0.0 ==> i < j
  {
    var ws := WordsOf(kit, sentences);
    var scores := SentenceScores(kit, sentences);
    WordlessSentenceScoresZero(ws, kit.ln, i);
    TopIndicesDominate(scores, n, i, j);
  }
}
