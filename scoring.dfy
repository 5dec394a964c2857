/** TF-IDF weights and the per-sentence score: the mean of the TF-IDF
    weights of the sentence's distinct words, or 0 for a sentence without
    words. */
module Scoring {
  import opened Tokens
  import opened Sums
  import opened Frequency

  /** The TF-IDF weights of one sentence (app.py:37): each TF value times
      the word's IDF, with 0 standing in for a word the IDF map lacks. */
  function TfIdf(tf: map<string, real>, idf: map<string, real>): (m: map<string, real>)
    ensures m.Keys == tf.Keys
  {
    map w | w in tf :: tf[w] * (if w in idf then idf[w] else 0.0)
  }

  /** The TF-IDF maps of all sentences, aligned by index. */
  function TfIdfMatrix(tfMatrix: seq<map<string, real>>, idf: map<string, real>): (m: seq<map<string, real>>)
    ensures |m| == |tfMatrix|
    ensures forall i :: 0 <= i < |m| ==> m[i] == TfIdf(tfMatrix[i], idf)
  {
    seq(|tfMatrix|, i requires 0 <= i < |tfMatrix| => TfIdf(tfMatrix[i], idf))
  }

  /** The loop of `summarize_text` that appends one TF-IDF map per sentence
      to `tfidf_matrix`. */
  method BuildTfIdfMatrix(tfMatrix: seq<map<string, real>>, idf: map<string, real>)
    returns (tfidfMatrix: seq<map<string, real>>)
    ensures tfidfMatrix == TfIdfMatrix(tfMatrix, idf)
  {
    tfidfMatrix := [];
    for i := 0 to |tfMatrix|
      invariant tfidfMatrix == TfIdfMatrix(tfMatrix[..i], idf)
    {
      tfidfMatrix := tfidfMatrix + [TfIdf(tfMatrix[i], idf)];
    }
    assert tfMatrix[..|tfMatrix|] == tfMatrix;
  }

  /** Within the summarizer, a sentence's TF-IDF map holds exactly the
      sentence's words, and each of them has a DF entry, so the default 0
      of the IDF lookup at app.py:37 is never used; `TfIdfWeight` then gives
      each weight as the TF value times `ln(total / (1 + DF))`. */
  lemma TfIdfWithoutDefault(ws: seq<seq<string>>, ln: real -> real, i: nat, w: string)
    requires i < |ws|
    ensures w in TfIdf(Tf(ws[i]), Idf(DocFreq(ws), |ws|, ln)) <==> w in ws[i]
    ensures w in ws[i] ==> w in DocFreq(ws)
  {
  }

  /** A word with both a TF value and a DF entry has as its TF-IDF weight
      the TF value times `ln(total / (1 + DF))`. */
  lemma TfIdfWeight(tf: map<string, real>, df: map<string, nat>, total: nat, ln: real -> real, w: string)
    requires w in tf && w in df
    ensures w in TfIdf(tf, Idf(df, total, ln))
    ensures TfIdf(tf, Idf(df, total, ln))[w] == tf[w] * ln(IdfQuotient(total, df[w]))
  {
  }

  /** The score of one sentence: the mean of its TF-IDF weights, 0 when it
      has none. */
  ghost function Score(tfidf: map<string, real>): (s: real)
    ensures |tfidf| == 0 ==> s == 0.0
    ensures |tfidf| > 0 ==> s * |tfidf| as real == SumValues(tfidf)
  {
    if |tfidf| > 0 then
      DivTimes(SumValues(tfidf), |tfidf| as real);
      SumValues(tfidf) / |tfidf| as real
    else 0.0
  }

  /** The mean lies between the smallest and the largest weight, so a
      sentence does not score higher merely for having more words. */
  lemma ScoreBetween(tfidf: map<string, real>, lo: real, hi: real)
    requires |tfidf| > 0
    requires forall w :: w in tfidf ==> lo <= tfidf[w] <= hi
    ensures lo <= Score(tfidf) <= hi
  {
    SumOverLowerBound(tfidf, tfidf.Keys, lo);
    SumOverUpperBound(tfidf, tfidf.Keys, hi);
    MeanBetween(SumValues(tfidf), |tfidf| as real, lo, hi);
  }

  /** A sentence with no word that survives the filter (only stopwords and
      punctuation, say) scores exactly 0. */
  lemma WordlessSentenceScoresZero(ws: seq<seq<string>>, ln: real -> real, i: nat)
    requires i < |ws| && |ws[i]| == 0
    ensures Score(TfIdf(Tf(ws[i]), Idf(DocFreq(ws), |ws|, ln))) == 0.0
  {
  }

  /** The scores of all sentences, aligned by index. */
  ghost function Scores(tfidfMatrix: seq<map<string, real>>): (s: seq<real>)
    ensures |s| == |tfidfMatrix|
    ensures forall i :: 0 <= i < |s| ==> s[i] == Score(tfidfMatrix[i])
  {
    seq(|tfidfMatrix|, i requires 0 <= i < |tfidfMatrix| => Score(tfidfMatrix[i]))
  }

  /** The score of one sentence as app.py:40 computes it: the weights are
      added one key at a time, in whatever order the keys are visited, and
      the total is divided by their number; a sentence without weights
      scores 0. */
  method MeanWeight(tfidf: map<string, real>) returns (score: real)
    ensures score == Score(tfidf)
  {
    if |tfidf| == 0 {
      return 0.0;
    }
    var total := 0.0;
    var todo := tfidf.Keys;
    while todo != {}
      invariant todo <= tfidf.Keys
      invariant total + SumOver(tfidf, todo) == SumValues(tfidf)
      decreases todo
    {
      var w :| w in todo;
      SumOverRemove(tfidf, todo, w);
      total := total + tfidf[w];
      todo := todo - {w};
    }
    score := total / |tfidf| as real;
  }

  /** The list comprehension that builds `scores`. */
  method ComputeScores(tfidfMatrix: seq<map<string, real>>) returns (scores: seq<real>)
    ensures scores == Scores(tfidfMatrix)
  {
    scores := [];
    for i := 0 to |tfidfMatrix|
      invariant |scores| == i
      invariant forall k :: 0 <= k < i ==> scores[k] == Score(tfidfMatrix[k])
    {
      var s := MeanWeight(tfidfMatrix[i]);
      scores := scores + [s];
    }
  }
}
