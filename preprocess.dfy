/**
 * The string clean-up helpers of old_attempts/preprocess.py. Regular-expression
 * classes `\w`, `\s` and `\d` are abstract character predicates; the only facts
 * assumed about them are those of CharClasses.WellFormed.
 */
module Preprocess {
  import Text

  /** The character classes `\w` (isWord), `\s` (isSpace) and `\d` (isDigit). */
  datatype CharClasses = CharClasses(isWord: char -> bool, isSpace: char -> bool, isDigit: char -> bool)
  {
    /** Every digit is a word character, and the blank ' ' is a space and not a word character. */
    predicate WellFormed()
    {
      && (forall c :: isDigit(c) ==> isWord(c))
      && isSpace(' ')
      && !isWord(' ')
    }
  }

  predicate NoDigit(cc: CharClasses, s: string)
  {
    forall i :: 0 <= i < |s| ==> !cc.isDigit(s[i])
  }

  predicate AllSpace(cc: CharClasses, s: string)
  {
    forall i :: 0 <= i < |s| ==> cc.isSpace(s[i])
  }

  predicate NoAdjacentSpaces(cc: CharClasses, s: string)
  {
    forall i :: 0 <= i < |s| - 1 ==> !(cc.isSpace(s[i]) && cc.isSpace(s[i + 1]))
  }

  // ---------------------------------------------------------------- remove_puncts

  /** One character of `re.sub(r'[^\w\s]', " ", s)`. */
  function PunctToBlank(cc: CharClasses, c: char): char
  {
    if !cc.isWord(c) && !cc.isSpace(c) then ' ' else c
  }

  /** `re.sub(r'[^\w\s]', " ", s)`: every character that is neither a word nor a space character becomes a blank. */
  function RemovePuncts(cc: CharClasses, s: string): (r: string)
    ensures |r| == |s|
    ensures forall i :: 0 <= i < |s| && (cc.isWord(s[i]) || cc.isSpace(s[i])) ==> r[i] == s[i]
    ensures forall i :: 0 <= i < |s| && !cc.isWord(s[i]) && !cc.isSpace(s[i]) ==> r[i] == ' '
  {
    if |s| == 0 then [] else [PunctToBlank(cc, s[0])] + RemovePuncts(cc, s[1..])
  }

  /** When ' ' is a space character, only word and space characters are left. */
  lemma RemovePunctsLeavesWordsAndSpaces(cc: CharClasses, s: string, i: int)
    requires cc.WellFormed()
    requires 0 <= i < |s|
    ensures cc.isWord(RemovePuncts(cc, s)[i]) || cc.isSpace(RemovePuncts(cc, s)[i])
  {
  }

  /** Removing punctuation twice is removing it once. */
  lemma {:induction false} RemovePunctsIdempotent(cc: CharClasses, s: string)
    requires cc.WellFormed()
    ensures RemovePuncts(cc, RemovePuncts(cc, s)) == RemovePuncts(cc, s)
  {
    var r := RemovePuncts(cc, s);
    forall i | 0 <= i < |r| ensures RemovePuncts(cc, r)[i] == r[i] {
      RemovePunctsLeavesWordsAndSpaces(cc, s, i);
    }
  }

  // ---------------------------------------------------------------- remove_number_strings

  /** Length of the longest prefix of `s` made of word characters. */
  function WordRun(cc: CharClasses, s: string): (n: nat)
    ensures n <= |s|
    ensures forall k :: 0 <= k < n ==> cc.isWord(s[k])
    ensures n < |s| ==> !cc.isWord(s[n])
  {
    if |s| == 0 || !cc.isWord(s[0]) then 0 else 1 + WordRun(cc, s[1..])
  }

  /** Length of the longest prefix of `s` made of space characters. */
  function SpaceRun(cc: CharClasses, s: string): (n: nat)
    ensures n <= |s|
    ensures forall k :: 0 <= k < n ==> cc.isSpace(s[k])
    ensures n < |s| ==> !cc.isSpace(s[n])
  {
    if |s| == 0 || !cc.isSpace(s[0]) then 0 else 1 + SpaceRun(cc, s[1..])
  }

  predicate HasDigit(cc: CharClasses, s: string)
  {
    exists k :: 0 <= k < |s| && cc.isDigit(s[k])
  }

  /**
   * `re.sub(r'\w*\d\w*', " ", s)`. The scanner tries a match at each position in
   * turn: the greedy `\w*` takes the whole run of word characters there and backs
   * off to the run's last digit, so a match exists exactly when that run holds a
   * digit, and the trailing `\w*` then extends it to the end of the run. A match
   * is replaced by one blank; otherwise one character is copied and the scanner
   * moves on.
   */
  function SubNumberWords(cc: CharClasses, s: string): (r: string)
    requires cc.WellFormed()
    ensures NoDigit(cc, r)
    ensures |r| <= |s|
    decreases |s|
  {
    if |s| == 0 then []
    else
      var n := WordRun(cc, s);
      if HasDigit(cc, s[..n]) then " " + SubNumberWords(cc, s[n..])
      else
        assert cc.isWord(s[0]) ==> n > 0 && s[..n][0] == s[0];
        [s[0]] + SubNumberWords(cc, s[1..])
  }

  /** With no digit there is nothing to match, so the substitution copies the string. */
  lemma {:induction false} SubNumberWordsKeepsDigitFree(cc: CharClasses, s: string)
    requires cc.WellFormed() && NoDigit(cc, s)
    ensures SubNumberWords(cc, s) == s
    decreases |s|
  {
    if |s| > 0 {
      var n := WordRun(cc, s);
      assert !HasDigit(cc, s[..n]) by {
        forall k | 0 <= k < n ensures !cc.isDigit(s[..n][k]) {
          assert s[..n][k] == s[k];
        }
      }
      assert NoDigit(cc, s[1..]) by {
        forall k | 0 <= k < |s| - 1 ensures !cc.isDigit(s[1..][k]) {
          assert s[1..][k] == s[k + 1];
        }
      }
      SubNumberWordsKeepsDigitFree(cc, s[1..]);
      assert s == [s[0]] + s[1..];
    }
  }

  /** Number of leading space characters. */
  function LeadEnd(cc: CharClasses, s: string): (i: nat)
    ensures i <= |s|
    ensures forall k :: 0 <= k < i ==> cc.isSpace(s[k])
    ensures i < |s| ==> !cc.isSpace(s[i])
  {
    SpaceRun(cc, s)
  }

  /** Index where the trailing space characters start. */
  function TrailStart(cc: CharClasses, s: string): (j: nat)
    ensures j <= |s|
    ensures forall k :: j <= k < |s| ==> cc.isSpace(s[k])
    ensures j > 0 ==> !cc.isSpace(s[j - 1])
  {
    if |s| == 0 || !cc.isSpace(s[|s| - 1]) then |s| else TrailStart(cc, s[..|s| - 1])
  }

  /** `s.strip()`: the slice of `s` between its leading and its trailing spaces. */
  function Strip(cc: CharClasses, s: string): (r: string)
    ensures |r| <= |s|
    ensures exists i, j :: 0 <= i <= j <= |s| && r == s[i..j] && AllSpace(cc, s[..i]) && AllSpace(cc, s[j..])
    ensures |r| > 0 ==> !cc.isSpace(r[0]) && !cc.isSpace(r[|r| - 1])
  {
    var i, j := LeadEnd(cc, s), TrailStart(cc, s);
    if i == |s| then
      assert s[i..i] == [];
      []
    else
      assert i < j;
      s[i..j]
  }

  /** A string with no space at either end is its own strip, so stripping twice is stripping once. */
  lemma StripIdempotent(cc: CharClasses, s: string)
    ensures Strip(cc, Strip(cc, s)) == Strip(cc, s)
  {
    var r := Strip(cc, s);
    if |r| > 0 {
      assert LeadEnd(cc, r) == 0;
      assert TrailStart(cc, r) == |r|;
      assert r[0..|r|] == r;
    }
  }

  /** A slice of a digit-free string is digit-free. */
  lemma SliceNoDigit(cc: CharClasses, s: string, i: int, j: int)
    requires NoDigit(cc, s) && 0 <= i <= j <= |s|
    ensures NoDigit(cc, s[i..j])
  {
    assert forall k :: 0 <= k < j - i ==> s[i..j][k] == s[i + k];
  }

  /** `re.sub(r'\w*\d\w*', " ", s).strip()`. */
  function RemoveNumberStrings(cc: CharClasses, s: string): (r: string)
    requires cc.WellFormed()
    ensures |r| <= |s|
    ensures NoDigit(cc, r)
    ensures |r| > 0 ==> !cc.isSpace(r[0]) && !cc.isSpace(r[|r| - 1])
  {
    var t := SubNumberWords(cc, s);
    var r := Strip(cc, t);
    var i, j :| 0 <= i <= j <= |t| && r == t[i..j];
    SliceNoDigit(cc, t, i, j);
    r
  }

  /** On a digit-free string only the strip acts, and a second application changes nothing. */
  lemma RemoveNumberStringsIdempotent(cc: CharClasses, s: string)
    requires cc.WellFormed()
    ensures NoDigit(cc, s) ==> RemoveNumberStrings(cc, s) == Strip(cc, s)
    ensures RemoveNumberStrings(cc, RemoveNumberStrings(cc, s)) == RemoveNumberStrings(cc, s)
  {
    if NoDigit(cc, s) {
      SubNumberWordsKeepsDigitFree(cc, s);
    }
    var r := RemoveNumberStrings(cc, s);
    SubNumberWordsKeepsDigitFree(cc, r);
    StripIdempotent(cc, SubNumberWords(cc, s));
  }

  // ---------------------------------------------------------------- remove_duplicate_whitespaces

  /**
   * `re.sub("\s\s+", " ", s)`: a run of two or more space characters at the scan
   * position is replaced by one blank; otherwise one character is copied.
   */
  function DedupSpaces(cc: CharClasses, s: string): (r: string)
    requires cc.WellFormed()
    ensures |r| <= |s|
    ensures |r| == 0 <==> |s| == 0
    ensures |r| > 0 ==> (cc.isSpace(r[0]) <==> cc.isSpace(s[0]))
    ensures NoAdjacentSpaces(cc, r)
    decreases |s|
  {
    if |s| == 0 then []
    else
      var n := SpaceRun(cc, s);
      if n >= 2 then " " + DedupSpaces(cc, s[n..])
      else [s[0]] + DedupSpaces(cc, s[1..])
  }

  // ---------------------------------------------------------------- lowercase_all

  /** `s.lower()` over ASCII. */
  function LowercaseAll(s: string): (r: string)
    ensures |r| == |s|
    ensures Text.Lower(r) == r
  {
    Text.LowerIdempotent(s);
    Text.Lower(s)
  }

  // ---------------------------------------------------------------- word_count

  /**
   * The first position at or after `i` whose character is not (`space`) or is
   * (`!space`) a space character, or `|s|` when there is none.
   */
  function SkipFrom(cc: CharClasses, s: string, i: nat, space: bool): (j: nat)
    requires i <= |s|
    ensures i <= j <= |s|
    ensures forall k :: i <= k < j ==> cc.isSpace(s[k]) == space
    ensures j < |s| ==> cc.isSpace(s[j]) != space
    ensures i < |s| && cc.isSpace(s[i]) == space ==> i < j
    decreases |s| - i
  {
    if i == |s| || cc.isSpace(s[i]) != space then i else SkipFrom(cc, s, i + 1, space)
  }

  /** `s[i..].split()`: the maximal runs of non-space characters from position `i` on, in order. */
  function WordsFrom(cc: CharClasses, s: string, i: nat): seq<string>
    requires i <= |s|
    decreases |s| - i
  {
    var j := SkipFrom(cc, s, i, true);
    if j == |s| then []
    else
      var e := SkipFrom(cc, s, j, false);
      [s[j..e]] + WordsFrom(cc, s, e)
  }

  /** `s.split()`. */
  function Words(cc: CharClasses, s: string): seq<string>
  {
    WordsFrom(cc, s, 0)
  }

  lemma {:induction false} WordsFromArePieces(cc: CharClasses, s: string, i: nat)
    requires i <= |s|
    ensures forall k :: 0 <= k < |WordsFrom(cc, s, i)| ==> |WordsFrom(cc, s, i)[k]| > 0
    ensures forall k, m :: 0 <= k < |WordsFrom(cc, s, i)| && 0 <= m < |WordsFrom(cc, s, i)[k]| ==> !cc.isSpace(WordsFrom(cc, s, i)[k][m])
    decreases |s| - i
  {
    var j := SkipFrom(cc, s, i, true);
    if j < |s| {
      var e := SkipFrom(cc, s, j, false);
      var w := s[j..e];
      assert forall m :: 0 <= m < |w| ==> w[m] == s[j + m];
      var rest := WordsFrom(cc, s, e);
      WordsFromArePieces(cc, s, e);
      assert WordsFrom(cc, s, i) == [w] + rest;
      forall k, m | 0 <= k < |[w] + rest| && 0 <= m < |([w] + rest)[k]|
        ensures !cc.isSpace(([w] + rest)[k][m])
      {
        if k > 0 {
          assert ([w] + rest)[k] == rest[k - 1];
        }
      }
    }
  }

  /** The pieces of `split()` are non-empty and hold no space character. */
  lemma WordsArePieces(cc: CharClasses, s: string)
    ensures forall k :: 0 <= k < |Words(cc, s)| ==> |Words(cc, s)[k]| > 0
    ensures forall k, m :: 0 <= k < |Words(cc, s)| && 0 <= m < |Words(cc, s)[k]| ==> !cc.isSpace(Words(cc, s)[k][m])
  {
    WordsFromArePieces(cc, s, 0);
  }

  /** `split()` gives no piece exactly when the string is all whitespace. */
  lemma WordsEmptyIffAllSpace(cc: CharClasses, s: string)
    ensures |Words(cc, s)| == 0 <==> AllSpace(cc, s)
  {
    var j := SkipFrom(cc, s, 0, true);
    if j < |s| {
      assert !AllSpace(cc, s);
    }
  }

  /** `len(s.split())`. */
  function WordCount(cc: CharClasses, s: string): nat
  {
    |Words(cc, s)|
  }

  /** Position `k` starts a run: a non-space character at the start or after a space character. */
  predicate IsRunStart(cc: CharClasses, s: string, k: nat)
    requires k < |s|
  {
    !cc.isSpace(s[k]) && (k == 0 || cc.isSpace(s[k - 1]))
  }

  /** The independent count: the run starts at positions `i` and beyond. */
  function RunStarts(cc: CharClasses, s: string, i: nat): nat
    requires i <= |s|
    decreases |s| - i
  {
    if i == |s| then 0 else (if IsRunStart(cc, s, i) then 1 else 0) + RunStarts(cc, s, i + 1)
  }

  /** A stretch without run starts adds nothing to the count. */
  lemma {:induction false} NoRunStartsBetween(cc: CharClasses, s: string, i: nat, j: nat)
    requires i <= j <= |s|
    requires forall k :: i <= k < j ==> !IsRunStart(cc, s, k)
    ensures RunStarts(cc, s, i) == RunStarts(cc, s, j)
    decreases j - i
  {
    if i < j {
      NoRunStartsBetween(cc, s, i + 1, j);
    }
  }

  lemma {:induction false} WordsFromCountsRuns(cc: CharClasses, s: string, i: nat)
    requires i <= |s|
    requires i == 0 || i == |s| || cc.isSpace(s[i - 1]) || cc.isSpace(s[i])
    ensures |WordsFrom(cc, s, i)| == RunStarts(cc, s, i)
    decreases |s| - i
  {
    var j := SkipFrom(cc, s, i, true);
    NoRunStartsBetween(cc, s, i, j);
    if j < |s| {
      var e := SkipFrom(cc, s, j, false);
      assert IsRunStart(cc, s, j) by {
        if j > i {
          assert cc.isSpace(s[j - 1]);
        }
      }
      forall k | j + 1 <= k < e
        ensures !IsRunStart(cc, s, k)
      {
        assert !cc.isSpace(s[k - 1]);
      }
      NoRunStartsBetween(cc, s, j + 1, e);
      WordsFromCountsRuns(cc, s, e);
    }
  }

  /** `word_count(s)` equals the number of maximal non-whitespace runs of `s`. */
  lemma WordCountCountsRuns(cc: CharClasses, s: string)
    ensures WordCount(cc, s) == RunStarts(cc, s, 0)
  {
    WordsFromCountsRuns(cc, s, 0);
  }
}
