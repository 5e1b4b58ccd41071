/**
 * `preprocess_message` of src/rosetta_search/nlp_utils.py (and its copy in
 * commit_analyser/db_index.py). NLTK's tokenizer, stop-word list and lemmatizer,
 * and the Unicode letter test behind `str.isalpha`, are parameters.
 */
module NlpUtils {
  import Text

  /** The NLTK collaborators and the letter class used by `str.isalpha`. */
  datatype Nltk = Nltk(
    tokenize: string -> seq<string>,
    stopwords: seq<string>,
    lemmatize: string -> string,
    isLetter: char -> bool)

  /** `w.isalpha()`: non-empty and made of letters only. */
  predicate IsAlpha(nltk: Nltk, w: string)
  {
    |w| > 0 && forall i :: 0 <= i < |w| ==> nltk.isLetter(w[i])
  }

  /** The filter of the first comprehension, applied to the word as the tokenizer produced it. */
  predicate Kept(nltk: Nltk, w: string)
  {
    w !in nltk.stopwords && IsAlpha(nltk, w)
  }

  /** The comprehension below over the words from position `from` on. */
  function FilterLowerFrom(nltk: Nltk, words: seq<string>, from: nat): (ts: seq<string>)
    requires from <= |words|
    ensures |ts| <= |words| - from
    decreases |words| - from
  {
    if from == |words| then []
    else (if Kept(nltk, words[from]) then [Text.Lower(words[from])] else []) + FilterLowerFrom(nltk, words, from + 1)
  }

  /** `[word.lower() for word in words if word not in stop_words and word.isalpha()]`. */
  function FilterLower(nltk: Nltk, words: seq<string>): (ts: seq<string>)
    ensures |ts| <= |words|
  {
    FilterLowerFrom(nltk, words, 0)
  }

  /** `[lemmatizer.lemmatize(word) for word in tokens]`. */
  function Lemmatized(nltk: Nltk, ws: seq<string>): (ts: seq<string>)
    ensures |ts| == |ws|
    ensures forall k :: 0 <= k < |ws| ==> ts[k] == nltk.lemmatize(ws[k])
  {
    seq(|ws|, k requires 0 <= k < |ws| => nltk.lemmatize(ws[k]))
  }

  /** `preprocess_message(message)`: the normalised tokens and their space-joined string. */
  function PreprocessMessage(nltk: Nltk, message: string): (r: (seq<string>, string))
    ensures r.1 == Text.Join(r.0, " ")
    ensures |r.0| <= |nltk.tokenize(message)|
  {
    var tokens := Lemmatized(nltk, FilterLower(nltk, nltk.tokenize(message)));
    (tokens, Text.Join(tokens, " "))
  }

  /** The positions `j >= from` of `words` whose word passes the filter, in increasing order. */
  function KeptFrom(nltk: Nltk, words: seq<string>, from: nat): (js: seq<nat>)
    ensures forall k :: 0 <= k < |js| ==> from <= js[k] < |words| && Kept(nltk, words[js[k]])
    ensures forall k, m :: 0 <= k < m < |js| ==> js[k] < js[m]
    ensures forall j :: from <= j < |words| && Kept(nltk, words[j]) ==> j in js
    decreases |words| - from
  {
    if from >= |words| then []
    else (if Kept(nltk, words[from]) then [from] else []) + KeptFrom(nltk, words, from + 1)
  }

  /**
   * The first comprehension keeps exactly the words that pass the filter, in
   * their original order, and lower-cases each of them.
   */
  lemma {:induction false} FilterLowerKeepsKeptWords(nltk: Nltk, words: seq<string>, from: nat)
    requires from <= |words|
    ensures var ts, js := FilterLowerFrom(nltk, words, from), KeptFrom(nltk, words, from);
      |ts| == |js| && forall k :: 0 <= k < |ts| ==> ts[k] == Text.Lower(words[js[k]])
    decreases |words| - from
  {
    if from < |words| {
      FilterLowerKeepsKeptWords(nltk, words, from + 1);
      var ts', js' := FilterLowerFrom(nltk, words, from + 1), KeptFrom(nltk, words, from + 1);
      var ts, js := FilterLowerFrom(nltk, words, from), KeptFrom(nltk, words, from);
      if Kept(nltk, words[from]) {
        forall k | 0 <= k < |ts| ensures ts[k] == Text.Lower(words[js[k]]) {
          if k > 0 {
            assert ts[k] == ts'[k - 1] && js[k] == js'[k - 1];
          }
        }
      }
    }
  }

  /**
   * Each output token of `preprocess_message` is `lemmatize(lower(w))` for the
   * corresponding kept word `w`, and a word is kept iff it passes the filter
   * (tested before lower-casing); the kept words keep their relative order.
   */
  lemma PreprocessTokensSpec(nltk: Nltk, message: string)
    ensures var words, tokens, js := nltk.tokenize(message), PreprocessMessage(nltk, message).0, KeptFrom(nltk, nltk.tokenize(message), 0);
      && |tokens| == |js|
      && (forall k :: 0 <= k < |tokens| ==> tokens[k] == nltk.lemmatize(Text.Lower(words[js[k]])))
      && (forall j :: 0 <= j < |words| ==> (j in js <==> Kept(nltk, words[j])))
      && (forall k, m :: 0 <= k < m < |js| ==> js[k] < js[m])
  {
    var words := nltk.tokenize(message);
    FilterLowerKeepsKeptWords(nltk, words, 0);
  }
}
