/**
 * The first prototype `Index` of commit_analyser/index.py: raw NLTK word tokens
 * of each commit message mapped to the files the commit touched, with a `stats`
 * dictionary. `word_tokenize` is the parameter `tokenize`; clock readings are
 * parameters.
 */
module CommitIndex {
  import opened Wrappers
  import Git
  import opened InvertedIndex

  /** `stats["last_indexed_commit"]` read while absent (KeyError), or git rejecting the range. */
  datatype IndexError = KeyError | BadRevision

  /** `Index(repo_path)`. */
  class Index {
    const repo: Git.Repo
    const tokenize: string -> seq<string>
    var index: InvertedIndex.Index
    /** `stats["last_updated"]`, `stats["initial_build_time"]`, `stats["last_indexed_commit"]`; None while the key is absent. */
    var lastUpdated: Option<int>
    var initialBuildTime: Option<int>
    var lastIndexedCommit: Option<string>

    /** `build_index` sets `last_updated` before the first commit can set `last_indexed_commit`. */
    predicate Valid()
      reads this
    {
      lastIndexedCommit.Some? ==> lastUpdated.Some?
    }

    /** Without a bare repository the constructor builds the index. */
    constructor (repo: Git.Repo, tokenize: string -> seq<string>, startTime: int, endTime: int)
      ensures Valid() && this.repo == repo && this.tokenize == tokenize
      ensures repo.bare ==> index == map[] && lastUpdated.None? && initialBuildTime.None? && lastIndexedCommit.None?
      ensures !repo.bare ==> index == Walk(map[], tokenize, repo.history)
      ensures !repo.bare ==> lastUpdated == Some(startTime) && initialBuildTime == Some(endTime - startTime)
      ensures !repo.bare ==> lastIndexedCommit == if |repo.history| == 0 then None else Some(repo.history[|repo.history| - 1].hexsha)
    {
      this.repo := repo;
      this.tokenize := tokenize;
      index := map[];
      lastUpdated, initialBuildTime, lastIndexedCommit := None, None, None;
      new;
      if !repo.bare {
        BuildIndex(startTime, endTime);
      }
    }

    /** `add(message, file)`: the message's tokens each get `file`. */
    method Add(message: string, file: string)
      modifies this
      ensures index == InvertedIndex.Add(old(index), tokenize(message), file)
      ensures Grows(old(index), index)
      ensures forall t :: t in tokenize(message) ==> t in index && file in index[t]
      ensures forall w :: w in old(index) && w !in tokenize(message) ==> w in index && index[w] == old(index)[w]
      ensures lastUpdated == old(lastUpdated) && initialBuildTime == old(initialBuildTime) && lastIndexedCommit == old(lastIndexedCommit)
    {
      var tokens := tokenize(message);
      var i := 0;
      while i < |tokens|
        invariant 0 <= i <= |tokens|
        invariant index == InvertedIndex.Add(old(index), tokens[..i], file)
        invariant lastUpdated == old(lastUpdated) && initialBuildTime == old(initialBuildTime) && lastIndexedCommit == old(lastIndexedCommit)
      {
        assert tokens[..i + 1][..i] == tokens[..i];
        var token := tokens[i];
        if token in index {
          index := index[token := index[token] + {file}];
        } else {
          index := index[token := {file}];
        }
        i := i + 1;
      }
      assert tokens[..|tokens|] == tokens;
      AddGrows(old(index), tokens, file);
      AddSpec(old(index), tokens, file);
    }

    /** `search(query)`: the stored set, or "No results found" (Missing). */
    function Search(query: string): (r: Lookup)
      reads this
      ensures r.Found? <==> query in index
      ensures r.Found? ==> r.files == index[query]
    {
      InvertedIndex.Search(index, query)
    }

    /**
     * The loop shared by `build_index` and `update_index`: each commit
     * overwrites the last indexed commit, then its message is added to each of
     * its files.
     */
    method WalkCommits(cs: seq<Git.Commit>)
      modifies this
      ensures index == Walk(old(index), tokenize, cs)
      ensures lastIndexedCommit == if |cs| == 0 then old(lastIndexedCommit) else Some(cs[|cs| - 1].hexsha)
      ensures lastUpdated == old(lastUpdated) && initialBuildTime == old(initialBuildTime)
    {
      var i := 0;
      while i < |cs|
        invariant 0 <= i <= |cs|
        invariant index == Walk(old(index), tokenize, cs[..i])
        invariant lastIndexedCommit == if i == 0 then old(lastIndexedCommit) else Some(cs[i - 1].hexsha)
        invariant lastUpdated == old(lastUpdated) && initialBuildTime == old(initialBuildTime)
      {
        assert cs[..i + 1][..i] == cs[..i];
        var c := cs[i];
        lastIndexedCommit := Some(c.hexsha);
        ghost var index0 := index;
        var j := 0;
        while j < |c.files|
          invariant 0 <= j <= |c.files|
          invariant index == AddToFiles(index0, tokenize(c.message), c.files[..j])
          invariant lastIndexedCommit == Some(c.hexsha)
          invariant lastUpdated == old(lastUpdated) && initialBuildTime == old(initialBuildTime)
        {
          assert c.files[..j + 1][..j] == c.files[..j];
          Add(c.message, c.files[j]);
          j := j + 1;
        }
        assert c.files[..|c.files|] == c.files;
        i := i + 1;
      }
      assert cs[..|cs|] == cs;
    }

    /** `build_index()`: the time, the walk over the whole history, then the build time. */
    method BuildIndex(startTime: int, endTime: int)
      modifies this
      ensures Valid()
      ensures index == Walk(old(index), tokenize, repo.history) && Grows(old(index), index)
      ensures lastIndexedCommit == if |repo.history| == 0 then old(lastIndexedCommit) else Some(repo.history[|repo.history| - 1].hexsha)
      ensures lastUpdated == Some(startTime) && initialBuildTime == Some(endTime - startTime)
    {
      lastUpdated := Some(startTime);
      WalkCommits(repo.history);
      WalkSpec(old(index), tokenize, repo.history);
      initialBuildTime := Some(endTime - startTime);
    }

    /**
     * `update_index()`: walks `"<last_indexed_commit>..HEAD"`, then records the
     * time. With no commits yielded the last indexed commit stays.
     */
    method UpdateIndex(now: int) returns (out: Outcome<IndexError>)
      requires Valid()
      modifies this
      ensures Valid() && initialBuildTime == old(initialBuildTime) && Grows(old(index), index)
      ensures old(lastIndexedCommit).None? ==> out == Fail(KeyError) && unchanged(this)
      ensures old(lastIndexedCommit).Some? ==>
        match repo.revList(Git.RangeArg(old(lastIndexedCommit)))
        case None => out == Fail(BadRevision) && unchanged(this)
        case Some(cs) =>
          out == Pass && index == Walk(old(index), tokenize, cs) && lastUpdated == Some(now) &&
          lastIndexedCommit == if |cs| == 0 then old(lastIndexedCommit) else Some(cs[|cs| - 1].hexsha)
    {
      if lastIndexedCommit.None? {
        return Fail(KeyError);
      }
      var commits := repo.revList(Git.RangeArg(lastIndexedCommit));
      if commits.None? {
        return Fail(BadRevision);
      }
      WalkCommits(commits.value);
      WalkSpec(old(index), tokenize, commits.value);
      lastUpdated := Some(now);
      return Pass;
    }
  }

  /**
   * An update that follows a build leaves the index where one walk over the
   * history and then the range would: updates continue, they never rebuild.
   */
  lemma BuildThenUpdate(tokenize: string -> seq<string>, history: seq<Git.Commit>, range: seq<Git.Commit>)
    ensures Walk(Walk(map[], tokenize, history), tokenize, range) == Walk(map[], tokenize, history + range)
    ensures Grows(Walk(map[], tokenize, history), Walk(map[], tokenize, history + range))
  {
    WalkAppend(map[], tokenize, history, range);
    WalkSpec(Walk(map[], tokenize, history), tokenize, range);
  }
}
