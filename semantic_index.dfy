/**
 * The indexing driver of semantic_search/index.py. Its store
 * (semantic_search/database.py) is not part of this model, so the store is a
 * log of the calls the driver makes, with the two answers the driver reads from
 * it (`index_is_empty()` and `get_last_indexed_rev()`) fixed when it is opened.
 * Construction checks for a repository, creates the tables, builds or updates,
 * and recomputes tf-idf.
 */
module SemanticIndex {
  import opened Wrappers
  import Git
  import NlpUtils

  /** A call on the store, with the arguments the driver passes. */
  datatype Call =
    | CreateDbTables
    | InsertIntoCommits(commit: Git.Commit, message: string)
    | InsertIntoTokensFiles(commit: Git.Commit, tokens: seq<string>)
    | MetaUpdate(startTime: int, endTime: int, startRev: string, endRev: string, numberOfCommits: nat)
    | UpdateTfidf

  /** "Folder is not git repository", `start_rev` read while unbound, or git rejecting the range. */
  datatype IndexError = NotARepository | UnboundStartRev | BadRevision

  /** The store: the calls made on it so far and its two answers. */
  class Store {
    var calls: seq<Call>
    const indexEmpty: bool
    const lastIndexedRev: Option<string>

    constructor (indexEmpty: bool, lastIndexedRev: Option<string>)
      ensures calls == [] && this.indexEmpty == indexEmpty && this.lastIndexedRev == lastIndexedRev
    {
      calls := [];
      this.indexEmpty := indexEmpty;
      this.lastIndexedRev := lastIndexedRev;
    }

    method Record(c: Call)
      modifies this
      ensures calls == old(calls) + [c]
    {
      calls := calls + [c];
    }
  }

  /** The calls of the `for commit in ...` loop: per commit, its commit insert and then its link insert. */
  function WalkCalls(nltk: NlpUtils.Nltk, cs: seq<Git.Commit>): seq<Call>
    decreases |cs|
  {
    if |cs| == 0 then []
    else
      var c := cs[|cs| - 1];
      var pm := NlpUtils.PreprocessMessage(nltk, c.message);
      WalkCalls(nltk, cs[..|cs| - 1]) + [InsertIntoCommits(c, pm.1), InsertIntoTokensFiles(c, pm.0)]
  }

  /** Commit `i` causes exactly calls `2i` and `2i + 1`, in iteration order, and nothing else is called. */
  lemma {:induction false} WalkCallsShape(nltk: NlpUtils.Nltk, cs: seq<Git.Commit>)
    ensures |WalkCalls(nltk, cs)| == 2 * |cs|
    ensures forall i :: 0 <= i < |cs| ==>
      && WalkCalls(nltk, cs)[2 * i] == InsertIntoCommits(cs[i], NlpUtils.PreprocessMessage(nltk, cs[i].message).1)
      && WalkCalls(nltk, cs)[2 * i + 1] == InsertIntoTokensFiles(cs[i], NlpUtils.PreprocessMessage(nltk, cs[i].message).0)
    decreases |cs|
  {
    if |cs| > 0 {
      var init, c := cs[..|cs| - 1], cs[|cs| - 1];
      var pm := NlpUtils.PreprocessMessage(nltk, c.message);
      var w0, two := WalkCalls(nltk, init), [InsertIntoCommits(c, pm.1), InsertIntoTokensFiles(c, pm.0)];
      WalkCallsShape(nltk, init);
      assert WalkCalls(nltk, cs) == w0 + two;
      forall i | 0 <= i < |cs|
        ensures (w0 + two)[2 * i] == InsertIntoCommits(cs[i], NlpUtils.PreprocessMessage(nltk, cs[i].message).1)
        ensures (w0 + two)[2 * i + 1] == InsertIntoTokensFiles(cs[i], NlpUtils.PreprocessMessage(nltk, cs[i].message).0)
      {
        if i < |init| {
          assert init[i] == cs[i];
          assert (w0 + two)[2 * i] == w0[2 * i] && (w0 + two)[2 * i + 1] == w0[2 * i + 1];
        } else {
          assert (w0 + two)[2 * i] == two[0] && (w0 + two)[2 * i + 1] == two[1];
        }
      }
    }
  }

  /** The walk over `cs`, then one run record when it yielded a commit. */
  function RunCalls(nltk: NlpUtils.Nltk, cs: seq<Git.Commit>, head: string, startTime: int, endTime: int): seq<Call>
  {
    WalkCalls(nltk, cs) + if |cs| == 0 then [] else [MetaUpdate(startTime, endTime, cs[|cs| - 1].hexsha, head, |cs|)]
  }

  /** `build_index()`: the walk over the whole history, then one run record; an empty history raises first. */
  function BuildCalls(nltk: NlpUtils.Nltk, repo: Git.Repo, startTime: int, endTime: int): seq<Call>
  {
    RunCalls(nltk, repo.history, repo.head, startTime, endTime)
  }

  /** `update_index()`: the walk over `"<rev>..HEAD"`, then a run record only when it yielded a commit. */
  function UpdateCalls(nltk: NlpUtils.Nltk, repo: Git.Repo, lastRev: Option<string>, startTime: int, endTime: int): seq<Call>
  {
    match repo.revList(Git.RangeArg(lastRev))
    case None => []
    case Some(cs) => RunCalls(nltk, cs, repo.head, startTime, endTime)
  }

  /** The error, if any, that ends construction. */
  function OpenError(repo: Git.Repo, indexEmpty: bool, lastRev: Option<string>): Option<IndexError>
  {
    if repo.bare then Some(NotARepository)
    else if indexEmpty then (if |repo.history| == 0 then Some(UnboundStartRev) else None)
    else if repo.revList(Git.RangeArg(lastRev)).None? then Some(BadRevision)
    else None
  }

  /** Every call construction makes, in order. */
  function OpenCalls(nltk: NlpUtils.Nltk, repo: Git.Repo, indexEmpty: bool, lastRev: Option<string>, startTime: int, endTime: int): seq<Call>
  {
    if repo.bare then []
    else
      [CreateDbTables]
      + (if indexEmpty then BuildCalls(nltk, repo, startTime, endTime) else UpdateCalls(nltk, repo, lastRev, startTime, endTime))
      + (if OpenError(repo, indexEmpty, lastRev).None? then [UpdateTfidf] else [])
  }

  /** The number of run records among `calls`. */
  function RecordCount(calls: seq<Call>): nat
  {
    if |calls| == 0 then 0 else (if calls[0].MetaUpdate? then 1 else 0) + RecordCount(calls[1..])
  }

  lemma {:induction false} RecordCountAppend(a: seq<Call>, b: seq<Call>)
    ensures RecordCount(a + b) == RecordCount(a) + RecordCount(b)
    decreases |a|
  {
    if |a| == 0 {
      assert a + b == b;
    } else {
      assert (a + b)[1..] == a[1..] + b;
      RecordCountAppend(a[1..], b);
    }
  }

  /** A walk makes no run record. */
  lemma {:induction false} WalkRecordsNothing(nltk: NlpUtils.Nltk, cs: seq<Git.Commit>)
    ensures RecordCount(WalkCalls(nltk, cs)) == 0
    decreases |cs|
  {
    if |cs| > 0 {
      var c := cs[|cs| - 1];
      var pm := NlpUtils.PreprocessMessage(nltk, c.message);
      var two := [InsertIntoCommits(c, pm.1), InsertIntoTokensFiles(c, pm.0)];
      WalkRecordsNothing(nltk, cs[..|cs| - 1]);
      RecordCountAppend(WalkCalls(nltk, cs[..|cs| - 1]), two);
      assert two[1..][1..] == [];
      assert RecordCount(two) == RecordCount(two[1..]) == RecordCount(two[1..][1..]) == 0;
    }
  }

  /** A walk and its record write one run record exactly when the walk yielded a commit, and nothing at all otherwise. */
  lemma RunCallsRecordOnce(nltk: NlpUtils.Nltk, cs: seq<Git.Commit>, head: string, startTime: int, endTime: int)
    ensures RecordCount(RunCalls(nltk, cs, head, startTime, endTime)) == if |cs| > 0 then 1 else 0
    ensures |cs| == 0 ==> RunCalls(nltk, cs, head, startTime, endTime) == []
  {
    WalkRecordsNothing(nltk, cs);
    WalkCallsShape(nltk, cs);
    if |cs| > 0 {
      RecordCountAppend(WalkCalls(nltk, cs), [MetaUpdate(startTime, endTime, cs[|cs| - 1].hexsha, head, |cs|)]);
    }
  }

  /**
   * Construction creates the tables first, then builds or updates but never
   * both: at most one run record is written, exactly one when the walk yielded
   * a commit, and tf-idf is recomputed once, last, exactly when nothing raised.
   */
  lemma OpenCallsShape(nltk: NlpUtils.Nltk, repo: Git.Repo, indexEmpty: bool, lastRev: Option<string>, startTime: int, endTime: int)
    requires !repo.bare
    ensures var calls := OpenCalls(nltk, repo, indexEmpty, lastRev, startTime, endTime);
      && |calls| > 0 && calls[0] == CreateDbTables
      && RecordCount(calls) <= 1
      && (indexEmpty ==> (RecordCount(calls) == 1 <==> |repo.history| > 0))
      && (!indexEmpty ==> (RecordCount(calls) == 1 <==> exists cs :: repo.revList(Git.RangeArg(lastRev)) == Some(cs) && |cs| > 0))
      && (calls[|calls| - 1] == UpdateTfidf <==> OpenError(repo, indexEmpty, lastRev).None?)
  {
    var tail := if OpenError(repo, indexEmpty, lastRev).None? then [UpdateTfidf] else [];
    var mid := if indexEmpty then BuildCalls(nltk, repo, startTime, endTime) else UpdateCalls(nltk, repo, lastRev, startTime, endTime);
    var calls := OpenCalls(nltk, repo, indexEmpty, lastRev, startTime, endTime);
    assert calls == [CreateDbTables] + mid + tail;
    RecordCountAppend([CreateDbTables] + mid, tail);
    RecordCountAppend([CreateDbTables], mid);
    var rev := repo.revList(Git.RangeArg(lastRev));
    if indexEmpty {
      RunCallsRecordOnce(nltk, repo.history, repo.head, startTime, endTime);
    } else if rev.Some? {
      RunCallsRecordOnce(nltk, rev.value, repo.head, startTime, endTime);
    }
    if OpenError(repo, indexEmpty, lastRev).Some? {
      assert mid == [];
    }
  }

  /** `Index(repo_path)`. */
  class Index {
    const repo: Git.Repo
    const store: Store
    const nltk: NlpUtils.Nltk

    constructor (repo: Git.Repo, store: Store, nltk: NlpUtils.Nltk)
      ensures this.repo == repo && this.store == store && this.nltk == nltk
    {
      this.repo := repo;
      this.store := store;
      this.nltk := nltk;
    }

    /**
     * `Index.__init__`: raises on a bare repository; otherwise creates the
     * tables, builds when the index is empty and updates otherwise, and then
     * recomputes tf-idf.
     */
    static method Open(repo: Git.Repo, store: Store, nltk: NlpUtils.Nltk, startTime: int, endTime: int) returns (r: Result<Index, IndexError>)
      modifies store
      ensures store.calls == old(store.calls) + OpenCalls(nltk, repo, store.indexEmpty, store.lastIndexedRev, startTime, endTime)
      ensures match OpenError(repo, store.indexEmpty, store.lastIndexedRev)
        case Some(e) => r == Failure(e)
        case None => r.Success? && fresh(r.value) && r.value.repo == repo && r.value.store == store
    {
      if repo.bare {
        return Failure(NotARepository);
      }
      var index := new Index(repo, store, nltk);
      store.Record(CreateDbTables);
      var err;
      if store.indexEmpty {
        err := index.BuildIndex(startTime, endTime);
      } else {
        err := index.UpdateIndex(startTime, endTime);
      }
      if err.Some? {
        return Failure(err.value);
      }
      store.Record(UpdateTfidf);
      return Success(index);
    }

    /** The loop both index methods share. */
    method Walk(cs: seq<Git.Commit>)
      modifies store
      ensures store.calls == old(store.calls) + WalkCalls(nltk, cs)
    {
      var i := 0;
      while i < |cs|
        invariant 0 <= i <= |cs|
        invariant store.calls == old(store.calls) + WalkCalls(nltk, cs[..i])
      {
        assert cs[..i + 1][..i] == cs[..i];
        var pm := NlpUtils.PreprocessMessage(nltk, cs[i].message);
        store.Record(InsertIntoCommits(cs[i], pm.1));
        store.Record(InsertIntoTokensFiles(cs[i], pm.0));
        i := i + 1;
      }
      assert cs[..|cs|] == cs;
    }

    /** `build_index()`. */
    method BuildIndex(startTime: int, endTime: int) returns (err: Option<IndexError>)
      modifies store
      ensures store.calls == old(store.calls) + BuildCalls(nltk, repo, startTime, endTime)
      ensures err == if |repo.history| == 0 then Some(UnboundStartRev) else None
    {
      var cs := repo.history;
      Walk(cs);
      if |cs| == 0 {
        return Some(UnboundStartRev);
      }
      store.Record(MetaUpdate(startTime, endTime, cs[|cs| - 1].hexsha, repo.head, |cs|));
      return None;
    }

    /** `update_index()`. */
    method UpdateIndex(startTime: int, endTime: int) returns (err: Option<IndexError>)
      modifies store
      ensures store.calls == old(store.calls) + UpdateCalls(nltk, repo, store.lastIndexedRev, startTime, endTime)
      ensures err == if repo.revList(Git.RangeArg(store.lastIndexedRev)).None? then Some(BadRevision) else None
    {
      var commits := repo.revList(Git.RangeArg(store.lastIndexedRev));
      if commits.None? {
        return Some(BadRevision);
      }
      var cs := commits.value;
      Walk(cs);
      if |cs| > 0 {
        store.Record(MetaUpdate(startTime, endTime, cs[|cs| - 1].hexsha, repo.head, |cs|));
      }
      return None;
    }
  }
}
