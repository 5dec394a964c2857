/** The language toolkit the summarizer depends on, and the filtered word
    list of one sentence.

    Sentence splitting, word tokenizing, lower-casing, the alphanumeric test,
    the English stopword list and the natural logarithm all come from outside
    the summarizer (NLTK and the Python runtime). They are modelled as the
    fields of a `Toolkit` value that the caller supplies, so every property
    proved here holds for any splitter, tokenizer and stopword set. */
module Tokens {

  datatype Toolkit = Toolkit(
    splitSentences: string -> seq<string>,  // sent_tokenize
    wordTokenize: string -> seq<string>,    // word_tokenize
    lower: string -> string,                // str.lower
    isAlnum: string -> bool,                // str.isalnum
    stopWords: set<string>,                 // set(stopwords.words('english'))
    ln: real -> real                        // math.log
  )

  /** A token survives the filter when it is alphanumeric and not a stopword. */
  predicate Kept(kit: Toolkit, w: string) {
    kit.isAlnum(w) && w !in kit.stopWords
  }

  /** Number of occurrences of `w` in `ws` (Python's `list.count`). */
  function Count(ws: seq<string>, w: string): (c: nat)
    ensures c <= |ws|
    ensures c > 0 <==> w in ws
  {
    if |ws| == 0 then 0
    else (if ws[0] == w then 1 else 0) + Count(ws[1..], w)
  }

  /** The tokens of `ts` that pass the filter, in order, duplicates kept. */
  function Filtered(kit: Toolkit, ts: seq<string>): (r: seq<string>)
    ensures |r| <= |ts|
    ensures forall w :: w in r <==> w in ts && Kept(kit, w)
    ensures forall w :: Count(r, w) == if Kept(kit, w) then Count(ts, w) else 0
  {
    if |ts| == 0 then []
    else
      var rest := Filtered(kit, ts[1..]);
      if Kept(kit, ts[0]) then
        assert ([ts[0]] + rest)[1..] == rest;
        [ts[0]] + rest
      else rest
  }

  /** The filtered word list of one sentence: tokens of the lower-cased
      sentence that are alphanumeric and not stopwords. */
  function SentenceWords(kit: Toolkit, sentence: string): (r: seq<string>)
    ensures forall w :: w in r <==> w in kit.wordTokenize(kit.lower(sentence)) && Kept(kit, w)
  {
    Filtered(kit, kit.wordTokenize(kit.lower(sentence)))
  }

  /** The filtered word list of every sentence, aligned by index. */
  function WordsOf(kit: Toolkit, sentences: seq<string>): (r: seq<seq<string>>)
    ensures |r| == |sentences|
    ensures forall i :: 0 <= i < |sentences| ==> r[i] == SentenceWords(kit, sentences[i])
  {
    seq(|sentences|, i requires 0 <= i < |sentences| => SentenceWords(kit, sentences[i]))
  }
}
