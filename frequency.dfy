/** Frequency statistics over the sentences of one text, each sentence
    treated as a pseudo-document: document frequency (DF), per-sentence term
    frequency (TF) and inverse document frequency (IDF). */
module Frequency {
  import opened Tokens
  import opened Sums

  /** Every word that survives the filter in at least one sentence. */
  function Vocabulary(ws: seq<seq<string>>): set<string> {
    if |ws| == 0 then {}
    else
      var last := ws[|ws| - 1];
      Vocabulary(ws[..|ws| - 1]) + set w | w in last
  }

  /** The number of sentences whose word list contains `w`; a sentence that
      holds `w` several times counts once. */
  function Containing(ws: seq<seq<string>>, w: string): nat {
    if |ws| == 0 then 0
    else Containing(ws[..|ws| - 1], w) + (if w in ws[|ws| - 1] then 1 else 0)
  }

  /** Extending the sentences by one adds that sentence's words to the
      vocabulary and one to the count of each of them. */
  lemma PrefixStep(ws: seq<seq<string>>, i: nat)
    requires i < |ws|
    ensures Vocabulary(ws[..i + 1]) == Vocabulary(ws[..i]) + set w | w in ws[i]
    ensures forall w :: Containing(ws[..i + 1], w) == Containing(ws[..i], w) + (if w in ws[i] then 1 else 0)
  {
    var p := ws[..i + 1];
    assert p[..|p| - 1] == ws[..i] && p[|p| - 1] == ws[i];
  }

  /** The vocabulary is exactly the words found in some sentence. */
  lemma {:induction false} VocabularyMembers(ws: seq<seq<string>>)
    ensures forall w :: w in Vocabulary(ws) <==> exists i :: 0 <= i < |ws| && w in ws[i]
  {
    if |ws| > 0 {
      var init := ws[..|ws| - 1];
      VocabularyMembers(init);
      assert forall i :: 0 <= i < |init| ==> init[i] == ws[i];
    }
  }

  /** A word is counted in at most every sentence, and in at least one
      exactly when some sentence holds it. */
  lemma {:induction false} ContainingBounds(ws: seq<seq<string>>, w: string)
    ensures Containing(ws, w) <= |ws|
    ensures Containing(ws, w) > 0 <==> exists i :: 0 <= i < |ws| && w in ws[i]
  {
    if |ws| > 0 {
      var init := ws[..|ws| - 1];
      ContainingBounds(init, w);
      assert forall i :: 0 <= i < |init| ==> init[i] == ws[i];
    }
  }

  /** Document frequency: for every word of the vocabulary, the number of
      sentences that contain it. */
  function DocFreq(ws: seq<seq<string>>): (df: map<string, nat>)
    ensures forall w :: w in df <==> exists i :: 0 <= i < |ws| && w in ws[i]
    ensures forall w :: w in df ==> 1 <= df[w] <= |ws|
  {
    VocabularyMembers(ws);
    assert forall w :: w in Vocabulary(ws) ==> 1 <= Containing(ws, w) <= |ws| by {
      forall w | w in Vocabulary(ws) {
        ContainingBounds(ws, w);
      }
    }
    map w | w in Vocabulary(ws) :: Containing(ws, w)
  }

  /** The loop of `summarize_text` that fills `doc_per_word`, one sentence
      at a time. */
  method CountDocFreq(kit: Toolkit, sentences: seq<string>) returns (df: map<string, nat>)
    ensures df == DocFreq(WordsOf(kit, sentences))
  {
    ghost var ws := WordsOf(kit, sentences);
    df := map[];
    for i := 0 to |sentences|
      invariant forall w :: w in df <==> w in Vocabulary(ws[..i])
      invariant forall w :: w in df ==> df[w] == Containing(ws[..i], w)
      invariant forall w :: w !in df ==> Containing(ws[..i], w) == 0
    {
      var words := DistinctKept(kit, kit.wordTokenize(kit.lower(sentences[i])));
      PrefixStep(ws, i);
      df := AddSentence(df, words);
    }
    assert ws[..|sentences|] == ws;
  }

  /** The distinct tokens of one sentence that pass the filter
      (app.py:21-22): duplicates are dropped first, then the filter keeps
      the alphanumeric tokens that are not stopwords. */
  function DistinctKept(kit: Toolkit, tokens: seq<string>): (r: set<string>)
    ensures forall t :: t in r <==> t in Filtered(kit, tokens)
  {
    var distinct := set t | t in tokens;
    set t | t in distinct && Kept(kit, t)
  }

  /** The inner loop: every distinct kept word of one sentence has its
      count raised by one, starting from 0 for a word not seen before. */
  method AddSentence(df0: map<string, nat>, words: set<string>) returns (df: map<string, nat>)
    ensures forall w :: w in df <==> w in df0 || w in words
    ensures forall w :: w in df ==>
      df[w] == (if w in df0 then df0[w] else 0) + (if w in words then 1 else 0)
  {
    df := df0;
    var todo := words;
    while todo != {}
      invariant todo <= words
      invariant forall w :: w in df <==> w in df0 || w in words - todo
      invariant forall w :: w in df ==>
        df[w] == (if w in df0 then df0[w] else 0) + (if w in words - todo then 1 else 0)
      decreases todo
    {
      var w :| w in todo;
      df := df[w := (if w in df then df[w] else 0) + 1];
      todo := todo - {w};
    }
  }

  /** Term frequency of one sentence: each distinct word mapped to its count
      divided by the sentence's word count; empty for a sentence without
      words, so no division by zero occurs. */
  function Tf(words: seq<string>): (tf: map<string, real>)
    ensures |words| == 0 ==> tf == map[]
    ensures forall w :: w in tf <==> w in words
    ensures forall w :: w in tf ==> tf[w] == Count(words, w) as real / |words| as real
    ensures forall w :: w in tf ==> 0.0 < tf[w] <= 1.0
  {
    SharesInUnit(words);
    if |words| > 0 then map w | w in words :: Count(words, w) as real / |words| as real
    else map[]
  }

  lemma SharesInUnit(words: seq<string>)
    ensures forall w :: w in words ==> 0.0 < Count(words, w) as real / |words| as real <= 1.0
  {
    forall w | w in words {
      DivInUnit(Count(words, w) as real, |words| as real);
    }
  }

  /** The term-frequency maps of all sentences, aligned by index. */
  function TfMatrix(ws: seq<seq<string>>): (m: seq<map<string, real>>)
    ensures |m| == |ws|
    ensures forall i :: 0 <= i < |ws| ==> m[i] == Tf(ws[i])
  {
    seq(|ws|, i requires 0 <= i < |ws| => Tf(ws[i]))
  }

  /** The loop of `summarize_text` that appends one TF map per sentence to
      `tf_matrix`. */
  method BuildTfMatrix(kit: Toolkit, sentences: seq<string>) returns (tfMatrix: seq<map<string, real>>)
    ensures tfMatrix == TfMatrix(WordsOf(kit, sentences))
  {
    ghost var ws := WordsOf(kit, sentences);
    tfMatrix := [];
    for i := 0 to |sentences|
      invariant tfMatrix == TfMatrix(ws[..i])
    {
      var words := Filtered(kit, kit.wordTokenize(kit.lower(sentences[i])));
      tfMatrix := tfMatrix + [Tf(words)];
    }
    assert ws[..|sentences|] == ws;
  }

  /** The counts of the words of `ws`, divided by `len`, over a key set that
      covers every word of `ws`. */
  function CountShares(ks: set<string>, ws: seq<string>, len: nat): (m: map<string, real>)
    requires len > 0
    ensures m.Keys == ks
  {
    map w | w in ks :: Count(ws, w) as real / len as real
  }

  lemma {:induction false} CountSharesSum(ks: set<string>, ws: seq<string>, len: nat)
    requires len > 0
    requires forall w :: w in ws ==> w in ks
    ensures SumValues(CountShares(ks, ws, len)) == |ws| as real / len as real
  {
    var m := CountShares(ks, ws, len);
    if |ws| == 0 {
      SumOverZero(m, ks);
    } else {
      var x, rest := ws[0], ws[1..];
      var d := len as real;
      var mr := CountShares(ks, rest, len);
      CountSharesSum(ks, rest, len);
      CountSharesStep(ks, ws, len);
      SumValuesBump(mr, x, 1.0 / d);
      assert |ws| as real == |rest| as real + 1.0;
      DivAdd(|rest| as real, 1.0, d);
    }
  }

  /** Taking the first word off raises that word's share by `1 / len` and
      leaves every other share as it was. */
  lemma CountSharesStep(ks: set<string>, ws: seq<string>, len: nat)
    requires len > 0 && |ws| > 0 && ws[0] in ks
    ensures var mr := CountShares(ks, ws[1..], len);
      CountShares(ks, ws, len) == mr[ws[0] := mr[ws[0]] + 1.0 / len as real]
  {
    var m, mr := CountShares(ks, ws, len), CountShares(ks, ws[1..], len);
    var x, d := ws[0], len as real;
    forall w | w in ks ensures m[w] == mr[w] + (if w == x then 1.0 / d else 0.0) {
      var c := Count(ws[1..], w) as real;
      if w == x {
        assert Count(ws, w) as real == c + 1.0;
        DivAdd(c, 1.0, d);
      } else {
        assert Count(ws, w) as real == c;
      }
    }
  }

  /** For a sentence with words, the TF values add up to exactly 1: the
      counts of its distinct words add up to its word count. */
  lemma TfSumsToOne(words: seq<string>)
    requires |words| > 0
    ensures SumValues(Tf(words)) == 1.0
  {
    var ks := set w | w in words;
    assert Tf(words) == CountShares(ks, words, |words|);
    CountSharesSum(ks, words, |words|);
    DivSelf(|words| as real);
  }

  /** Inverse document frequency: `ln(total / (1 + DF[w]))` for every word of
      the document-frequency map, with the quotient taken exactly. */
  function Idf(df: map<string, nat>, total: nat, ln: real -> real): (idf: map<string, real>)
    ensures idf.Keys == df.Keys
  {
    map w | w in df :: ln(IdfQuotient(total, df[w]))
  }

  /** The argument handed to the logarithm, the exact quotient of the
      number of sentences by one more than the word's DF: it is positive
      when there are sentences, below 1 exactly when the divisor is larger
      than the number of sentences, and 1 exactly when the two are equal. */
  function IdfQuotient(total: nat, df: nat): (q: real)
    ensures q > 0.0 <==> total > 0
    ensures q < 1.0 <==> total < 1 + df
    ensures q == 1.0 <==> total == 1 + df
  {
    var n, d := total as real, (1 + df) as real;
    DivBelowOne(n, d);
    DivIsOne(n, d);
    DivPositive(n, d);
    n / d
  }

  /** Over the document-frequency map of the sentences, the logarithm is
      always applied to a positive number, and that number is below 1,
      where `math.log` would give a negative value, exactly for a word found
      in every sentence. */
  lemma IdfQuotientRange(ws: seq<seq<string>>, w: string)
    requires w in DocFreq(ws)
    ensures 0.0 < IdfQuotient(|ws|, DocFreq(ws)[w])
    ensures IdfQuotient(|ws|, DocFreq(ws)[w]) < 1.0 <==> DocFreq(ws)[w] == |ws|
    ensures IdfQuotient(|ws|, DocFreq(ws)[w]) == 1.0 <==> DocFreq(ws)[w] + 1 == |ws|
  {
    var d := DocFreq(ws)[w];
    assert 1 <= d <= |ws|;
  }

  /** Every key of the document-frequency map is a token of some sentence
      that passed the filter: it is alphanumeric and not a stopword. */
  lemma DocFreqKeysKept(kit: Toolkit, sentences: seq<string>, w: string)
    requires w in DocFreq(WordsOf(kit, sentences))
    ensures Kept(kit, w)
    ensures exists i :: 0 <= i < |sentences| && w in kit.wordTokenize(kit.lower(sentences[i]))
  {
    var ws := WordsOf(kit, sentences);
    var i :| 0 <= i < |ws| && w in ws[i];
    assert w in SentenceWords(kit, sentences[i]);
  }

  /** Every TF key of a sentence is a key of the IDF map, so the default
      0 of the IDF lookup at app.py:37 is never taken. */
  lemma TfKeysInIdf(ws: seq<seq<string>>, ln: real -> real, i: nat)
    requires i < |ws|
    ensures Tf(ws[i]).Keys <= Idf(DocFreq(ws), |ws|, ln).Keys
  {
  }
}
