/**
 * The ranked search result of src/rosetta_search/file_result.py: a file, the
 * distinct query tokens that reached it and the tokens matched in it with their
 * tf-idf. Results compare lexicographically by (number of query tokens, sum of
 * tf-idf). Sums are exact reals (no float rounding). MatchedToken
 * (rosetta_search/matched_token.py) is not part of this model beyond its two fields.
 */
module FileResults {
  import opened Wrappers

  /** `MatchedToken(matched_token, tf_idf)`. */
  datatype MatchedToken = MatchedToken(token: string, tfIdf: real)

  /** `sum(t.tf_idf for t in ms)`, added from the left. */
  function Sum(ms: seq<MatchedToken>): real
  {
    if |ms| == 0 then 0.0 else Sum(ms[..|ms| - 1]) + ms[|ms| - 1].tfIdf
  }

  /** What `__gt__` looks at: how many distinct query tokens, and the tf-idf total. */
  datatype Rank = Rank(count: nat, total: real)

  /**
   * `__gt__` on two ranks: Some(true) and Some(false) for the explicit returns,
   * None where the method falls off its end.
   */
  function Compare(a: Rank, b: Rank): (r: Option<bool>)
    ensures r == Some(true) <==> a.count > b.count || (a.count == b.count && a.total > b.total)
    ensures r == Some(false) <==> a.count < b.count || (a.count == b.count && a.total < b.total)
    ensures r == None <==> a == b
  {
    if a.count > b.count then Some(true)
    else if a.count < b.count then Some(false)
    else if a.total > b.total then Some(true)
    else if a.total < b.total then Some(false)
    else None
  }

  /** `a > a` is falsy. */
  lemma CompareIrreflexive(a: Rank)
    ensures Compare(a, a) == None
  {
  }

  /** `a > b` and `b > a` are never both true, and one of them is exactly when the ranks differ. */
  lemma CompareAsymmetric(a: Rank, b: Rank)
    ensures !(Compare(a, b) == Some(true) && Compare(b, a) == Some(true))
    ensures Compare(a, b) == Some(true) <==> Compare(b, a) == Some(false)
  {
  }

  lemma CompareTransitive(a: Rank, b: Rank, c: Rank)
    requires Compare(a, b) == Some(true) && Compare(b, c) == Some(true)
    ensures Compare(a, c) == Some(true)
  {
  }

  /** More distinct query tokens win whatever the tf-idf. */
  lemma CountDominates(a: Rank, b: Rank)
    requires a.count > b.count
    ensures Compare(a, b) == Some(true) && Compare(b, a) == Some(false)
  {
  }

  /** `FileResult(filepath)`. */
  class FileResult {
    const filepath: string
    var queryTokens: set<string>
    var matchedTokens: seq<MatchedToken>

    constructor (filepath: string)
      ensures this.filepath == filepath && queryTokens == {} && matchedTokens == []
    {
      this.filepath := filepath;
      queryTokens := {};
      matchedTokens := [];
    }

    function Key(): Rank
      reads this
    {
      Rank(|queryTokens|, Sum(matchedTokens))
    }

    /** `__eq__`: the same file, whatever was accumulated. */
    function Eq(other: FileResult): (r: bool)
      reads this, other
      ensures r <==> filepath == other.filepath
    {
      filepath == other.filepath
    }

    /** `__hash__`: the string hash `h` of the path. */
    function Hash(h: string -> int): int
      reads this
    {
      h(filepath)
    }

    /** Equal results hash alike. */
    lemma EqualHashAlike(other: FileResult, h: string -> int)
      requires Eq(other)
      ensures Hash(h) == other.Hash(h)
    {
    }

    /** `add_matched_token(matched_token, tf_idf)`: one entry appended; the total grows by `tfIdf`. */
    method AddMatchedToken(token: string, tfIdf: real)
      modifies this
      ensures matchedTokens == old(matchedTokens) + [MatchedToken(token, tfIdf)]
      ensures queryTokens == old(queryTokens)
      ensures Key() == Rank(old(Key()).count, old(Key()).total + tfIdf)
    {
      matchedTokens := matchedTokens + [MatchedToken(token, tfIdf)];
      assert matchedTokens[..|matchedTokens| - 1] == old(matchedTokens);
    }

    /** `add_query_token(query_token)`: set insertion, so repeating it changes nothing. */
    method AddQueryToken(token: string)
      modifies this
      ensures queryTokens == old(queryTokens) + {token}
      ensures matchedTokens == old(matchedTokens)
      ensures token in old(queryTokens) ==> Key() == old(Key())
      ensures token !in old(queryTokens) ==> Key().count == old(Key()).count + 1
    {
      if token in queryTokens {
        assert queryTokens + {token} == queryTokens;
      }
      queryTokens := queryTokens + {token};
    }

    /** `self > other`. */
    function Gt(other: FileResult): (r: Option<bool>)
      reads this, other
      ensures r == Some(true) <==>
        (|queryTokens| > |other.queryTokens| || (|queryTokens| == |other.queryTokens| && Sum(matchedTokens) > Sum(other.matchedTokens)))
      ensures r == Some(false) <==>
        (|queryTokens| < |other.queryTokens| || (|queryTokens| == |other.queryTokens| && Sum(matchedTokens) < Sum(other.matchedTokens)))
      ensures r == None <==> |queryTokens| == |other.queryTokens| && Sum(matchedTokens) == Sum(other.matchedTokens)
    {
      Compare(Key(), other.Key())
    }
  }
}
