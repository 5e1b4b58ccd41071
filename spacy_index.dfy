/**
 * The spaCy prototype `Index` of commit_analyser/spacy_similarity_index.py:
 * the lemmas of the non-stop tokens of each commit message mapped to the files
 * the commit touched. The loaded pipeline `nlp` is a parameter producing, for a
 * text, its tokens with their `is_stop` flag and `lemma_`.
 */
module SpacyIndex {
  import opened Wrappers
  import Git
  import opened InvertedIndex

  /** The two attributes of a spaCy token the module reads: `is_stop` and `lemma_`. */
  datatype SpacyToken = SpacyToken(isStop: bool, lemmaForm: string)

  type Nlp = string -> seq<SpacyToken>

  /** The lemmas of the non-stop tokens of `doc`, in document order. */
  function Lemmas(doc: seq<SpacyToken>): seq<string>
    decreases |doc|
  {
    if |doc| == 0 then []
    else Lemmas(doc[..|doc| - 1]) + if doc[|doc| - 1].isStop then [] else [doc[|doc| - 1].lemmaForm]
  }

  /** The positions of the non-stop tokens of `doc`, increasing. */
  function NonStop(doc: seq<SpacyToken>): (js: seq<nat>)
    ensures forall k :: 0 <= k < |js| ==> js[k] < |doc| && !doc[js[k]].isStop
    ensures forall k, m :: 0 <= k < m < |js| ==> js[k] < js[m]
    ensures forall j :: 0 <= j < |doc| && !doc[j].isStop ==> j in js
    decreases |doc|
  {
    if |doc| == 0 then []
    else NonStop(doc[..|doc| - 1]) + if doc[|doc| - 1].isStop then [] else [|doc| - 1]
  }

  /**
   * The lemmas are those of exactly the non-stop tokens, in their order, so
   * there are never more of them than tokens.
   */
  lemma {:induction false} LemmasOfNonStopTokens(doc: seq<SpacyToken>)
    ensures |Lemmas(doc)| == |NonStop(doc)| <= |doc|
    ensures forall k :: 0 <= k < |Lemmas(doc)| ==> Lemmas(doc)[k] == doc[NonStop(doc)[k]].lemmaForm
    decreases |doc|
  {
    if |doc| > 0 {
      var init := doc[..|doc| - 1];
      LemmasOfNonStopTokens(init);
      assert forall j :: 0 <= j < |init| ==> init[j] == doc[j];
    }
  }

  /** The message pipeline `process_message(message)` (and its copy `process_query`). */
  method ProcessMessage(nlp: Nlp, message: string) returns (lemmas: seq<string>)
    ensures lemmas == Lemmas(nlp(message))
    ensures |lemmas| <= |nlp(message)|
  {
    var doc := nlp(message);
    lemmas := [];
    var i := 0;
    while i < |doc|
      invariant 0 <= i <= |doc|
      invariant lemmas == Lemmas(doc[..i])
    {
      assert doc[..i + 1][..i] == doc[..i];
      if !doc[i].isStop {
        lemmas := lemmas + [doc[i].lemmaForm];
      }
      i := i + 1;
    }
    assert doc[..|doc|] == doc;
    LemmasOfNonStopTokens(doc);
  }

  /** The tokens a commit message contributes to the index. */
  function MessageLemmas(nlp: Nlp): string -> seq<string>
  {
    message => Lemmas(nlp(message))
  }

  /** One entry of `search`'s list: `index[word]`, or the string "empty". */
  datatype Entry = Files(files: set<string>) | Empty

  class Index {
    const repo: Git.Repo
    const nlp: Nlp
    var index: InvertedIndex.Index
    /** `stats["last_updated"]`, `stats["initial_build_time"]`, `stats["last_indexed_commit"]`; None while the key is absent. */
    var lastUpdated: Option<int>
    var initialBuildTime: Option<int>
    var lastIndexedCommit: Option<string>

    /** `build_index` sets `last_updated` before the first commit can set `last_indexed_commit`. */
    predicate Valid()
      reads this
    {
      lastIndexedCommit.Some? ==> lastUpdated.Some?
    }

    /** Without a bare repository the constructor builds the index. */
    constructor (repo: Git.Repo, nlp: Nlp, startTime: int, endTime: int)
      ensures Valid() && this.repo == repo && this.nlp == nlp
      ensures repo.bare ==> index == map[] && lastUpdated.None? && initialBuildTime.None? && lastIndexedCommit.None?
      ensures !repo.bare ==> index == Walk(map[], MessageLemmas(nlp), repo.history)
      ensures !repo.bare ==> lastUpdated == Some(startTime) && initialBuildTime == Some(endTime - startTime)
      ensures !repo.bare ==> lastIndexedCommit == if |repo.history| == 0 then None else Some(repo.history[|repo.history| - 1].hexsha)
    {
      this.repo := repo;
      this.nlp := nlp;
      index := map[];
      lastUpdated, initialBuildTime, lastIndexedCommit := None, None, None;
      new;
      if !repo.bare {
        BuildIndex(startTime, endTime);
      }
    }

    /** `add(tokens, file)`: `file` joins the set of every token; nothing else changes. */
    method Add(tokens: seq<string>, file: string)
      modifies this
      ensures index == InvertedIndex.Add(old(index), tokens, file)
      ensures forall t :: t in tokens ==> t in index && file in index[t]
      ensures index.Keys == old(index).Keys + (set t | t in tokens)
      ensures forall w :: w in index && w !in tokens ==> index[w] == old(index)[w]
      ensures forall w :: w in old(index) ==> old(index)[w] <= index[w]
      ensures lastUpdated == old(lastUpdated) && initialBuildTime == old(initialBuildTime) && lastIndexedCommit == old(lastIndexedCommit)
    {
      var i := 0;
      while i < |tokens|
        invariant 0 <= i <= |tokens|
        invariant index == InvertedIndex.Add(old(index), tokens[..i], file)
        invariant lastUpdated == old(lastUpdated) && initialBuildTime == old(initialBuildTime) && lastIndexedCommit == old(lastIndexedCommit)
      {
        assert tokens[..i + 1][..i] == tokens[..i];
        var token := tokens[i];
        if token in index {
          index := index[token := index[token] + {file}];
        } else {
          index := index[token := {file}];
        }
        i := i + 1;
      }
      assert tokens[..|tokens|] == tokens;
      AddSpec(old(index), tokens, file);
    }

    /** `search(query)`: one entry per lemma of the query, in order. */
    method Search(query: string) returns (results: seq<Entry>)
      ensures |results| == |Lemmas(nlp(query))|
      ensures forall k :: 0 <= k < |results| ==>
        results[k] == if Lemmas(nlp(query))[k] in index then Files(index[Lemmas(nlp(query))[k]]) else Empty
    {
      var lemmas := ProcessMessage(nlp, query);
      results := [];
      var i := 0;
      while i < |lemmas|
        invariant 0 <= i <= |lemmas|
        invariant |results| == i
        invariant forall k :: 0 <= k < i ==> results[k] == if lemmas[k] in index then Files(index[lemmas[k]]) else Empty
      {
        var word := lemmas[i];
        if word in index {
          results := results + [Files(index[word])];
        } else {
          results := results + [Empty];
        }
        i := i + 1;
      }
    }

    /**
     * The loop shared by `build_index` and `update_index`: each commit
     * overwrites the last indexed commit, then its lemmas are added to each of
     * its files.
     */
    method WalkCommits(cs: seq<Git.Commit>)
      modifies this
      ensures index == Walk(old(index), MessageLemmas(nlp), cs)
      ensures lastIndexedCommit == if |cs| == 0 then old(lastIndexedCommit) else Some(cs[|cs| - 1].hexsha)
      ensures lastUpdated == old(lastUpdated) && initialBuildTime == old(initialBuildTime)
    {
      var i := 0;
      while i < |cs|
        invariant 0 <= i <= |cs|
        invariant index == Walk(old(index), MessageLemmas(nlp), cs[..i])
        invariant lastIndexedCommit == if i == 0 then old(lastIndexedCommit) else Some(cs[i - 1].hexsha)
        invariant lastUpdated == old(lastUpdated) && initialBuildTime == old(initialBuildTime)
      {
        assert cs[..i + 1][..i] == cs[..i];
        var c := cs[i];
        lastIndexedCommit := Some(c.hexsha);
        var tokens := ProcessMessage(nlp, c.message);
        assert tokens == MessageLemmas(nlp)(c.message);
        ghost var index0 := index;
        var j := 0;
        while j < |c.files|
          invariant 0 <= j <= |c.files|
          invariant index == AddToFiles(index0, tokens, c.files[..j])
          invariant lastIndexedCommit == Some(c.hexsha)
          invariant lastUpdated == old(lastUpdated) && initialBuildTime == old(initialBuildTime)
        {
          assert c.files[..j + 1][..j] == c.files[..j];
          Add(tokens, c.files[j]);
          j := j + 1;
        }
        assert c.files[..|c.files|] == c.files;
        i := i + 1;
      }
      assert cs[..|cs|] == cs;
    }

    /** `build_index()`: the time, the walk over the whole history, then the build time. */
    method BuildIndex(startTime: int, endTime: int)
      modifies this
      ensures Valid()
      ensures index == Walk(old(index), MessageLemmas(nlp), repo.history) && Grows(old(index), index)
      ensures lastIndexedCommit == if |repo.history| == 0 then old(lastIndexedCommit) else Some(repo.history[|repo.history| - 1].hexsha)
      ensures lastUpdated == Some(startTime) && initialBuildTime == Some(endTime - startTime)
    {
      lastUpdated := Some(startTime);
      WalkCommits(repo.history);
      WalkSpec(old(index), MessageLemmas(nlp), repo.history);
      initialBuildTime := Some(endTime - startTime);
    }

    /**
     * `update_index()`: walks `"<last_indexed_commit>..HEAD"`, then records the
     * time. With no commits yielded the last indexed commit stays.
     */
    method UpdateIndex(now: int) returns (out: Outcome<IndexError>)
      requires Valid()
      modifies this
      ensures Valid() && initialBuildTime == old(initialBuildTime) && Grows(old(index), index)
      ensures old(lastIndexedCommit).None? ==> out == Fail(KeyError) && unchanged(this)
      ensures old(lastIndexedCommit).Some? ==>
        match repo.revList(Git.RangeArg(old(lastIndexedCommit)))
        case None => out == Fail(BadRevision) && unchanged(this)
        case Some(cs) =>
          out == Pass && index == Walk(old(index), MessageLemmas(nlp), cs) && lastUpdated == Some(now) &&
          lastIndexedCommit == if |cs| == 0 then old(lastIndexedCommit) else Some(cs[|cs| - 1].hexsha)
    {
      if lastIndexedCommit.None? {
        return Fail(KeyError);
      }
      var commits := repo.revList(Git.RangeArg(lastIndexedCommit));
      if commits.None? {
        return Fail(BadRevision);
      }
      WalkCommits(commits.value);
      WalkSpec(old(index), MessageLemmas(nlp), commits.value);
      lastUpdated := Some(now);
      return Pass;
    }
  }

  /** `stats["last_indexed_commit"]` read while absent (KeyError), or git rejecting the range. */
  datatype IndexError = KeyError | BadRevision
}
