/**
 * The indexing driver of src/rosetta_search/rosetta_index.py. Each commit the
 * repository yields is normalised and written to the store with one commit
 * insert followed by one link insert; a run then appends one record to the
 * update ledger. What a run does to the tables is the fold `AbsorbAll`; the
 * class methods are the loops, proved to follow it. The clock is a parameter.
 */
module RosettaIndexing {
  import opened Wrappers
  import Git
  import NlpUtils
  import opened RosettaDatabase

  /** A failing store statement, "Index is empty", git rejecting the range, or `start_rev` read while unbound. */
  datatype IndexError = Db(error: DbError) | IndexEmpty | BadRevision | UnboundStartRev

  /** Where a walk over commits stopped: the tables as the statements left them, and the error, if any, that ended it. */
  datatype Run = Run(tables: Tables, error: Option<DbError>)

  /** One loop iteration: `insert_into_commits` with the normalised message, then `insert_into_tokens_files` with its tokens. */
  function Absorb(t: Tables, nltk: NlpUtils.Nltk, c: Git.Commit): Run
  {
    var pm := NlpUtils.PreprocessMessage(nltk, c.message);
    match InsertCommit(t, c, pm.1)
    case Failure(e) => Run(t, Some(e))
    case Success(t1) =>
      match InsertLinks(t1, c, pm.0)
      case Failure(e) => Run(t1, Some(e))
      case Success(t2) => Run(t2, None)
  }

  /** The loop over `cs`: iterations in order, the first exception ending it with the earlier writes kept. */
  function AbsorbAll(t: Tables, nltk: NlpUtils.Nltk, cs: seq<Git.Commit>): Run
    decreases |cs|
  {
    if |cs| == 0 then Run(t, None)
    else
      var r := AbsorbAll(t, nltk, cs[..|cs| - 1]);
      if r.error.Some? then r else Absorb(r.tables, nltk, cs[|cs| - 1])
  }

  /** The hashes of `cs` are pairwise distinct and none is a key of `commits` yet. */
  ghost predicate FreshHashes(commits: map<string, CommitRow>, cs: seq<Git.Commit>)
  {
    && (forall i :: 0 <= i < |cs| ==> cs[i].hexsha !in commits)
    && (forall i, j :: 0 <= i < j < |cs| ==> cs[i].hexsha != cs[j].hexsha)
  }

  /** The row `insert_into_commits` writes for `c`. */
  function RowOf(nltk: NlpUtils.Nltk, c: Git.Commit): CommitRow
  {
    CommitRow(c.hexsha, c.datetime, NlpUtils.PreprocessMessage(nltk, c.message).1, c.author, c.insertions, c.deletions)
  }

  /**
   * One iteration succeeds exactly when the tables exist and the hash is new;
   * it then adds exactly that commit's row. A failure names its statement and
   * leaves the tables as they were.
   */
  lemma AbsorbCommits(t: Tables, nltk: NlpUtils.Nltk, c: Git.Commit)
    ensures var r := Absorb(t, nltk, c);
      && r.tables.created == t.created && r.tables.updates == t.updates
      && (r.error.None? <==> t.created && c.hexsha !in t.commits)
      && (!t.created ==> r.error == Some(NoSuchTable) && r.tables == t)
      && (t.created && c.hexsha in t.commits ==> r.error == Some(UniqueConstraint) && r.tables == t)
      && (r.error.None? ==> r.tables.commits == t.commits[c.hexsha := RowOf(nltk, c)])
  {
  }

  /** One iteration keeps the tables consistent. */
  lemma AbsorbConsistent(t: Tables, nltk: NlpUtils.Nltk, c: Git.Commit)
    requires Consistent(t)
    ensures Consistent(Absorb(t, nltk, c).tables)
  {
    var pm := NlpUtils.PreprocessMessage(nltk, c.message);
    InsertCommitConsistent(t, c, pm.1);
    var i := InsertCommit(t, c, pm.1);
    if i.Success? {
      InsertLinksConsistent(i.value, c, pm.0);
    }
  }

  /** A walk keeps the tables consistent, never touches the ledger, and can only stop on a missing table or a repeated hash. */
  lemma {:induction false} AbsorbAllInvariant(t: Tables, nltk: NlpUtils.Nltk, cs: seq<Git.Commit>)
    requires Consistent(t)
    ensures var r := AbsorbAll(t, nltk, cs);
      && Consistent(r.tables)
      && r.tables.created == t.created && r.tables.updates == t.updates
      && (r.error.Some? ==> r.error == Some(NoSuchTable) || r.error == Some(UniqueConstraint))
    decreases |cs|
  {
    if |cs| > 0 {
      AbsorbAllInvariant(t, nltk, cs[..|cs| - 1]);
      var r := AbsorbAll(t, nltk, cs[..|cs| - 1]);
      if r.error.None? {
        AbsorbCommits(r.tables, nltk, cs[|cs| - 1]);
        AbsorbConsistent(r.tables, nltk, cs[|cs| - 1]);
      }
    }
  }

  /** A walk never drops or creates the tables. */
  lemma {:induction false} AbsorbAllCreated(t: Tables, nltk: NlpUtils.Nltk, cs: seq<Git.Commit>)
    ensures AbsorbAll(t, nltk, cs).tables.created == t.created
    decreases |cs|
  {
    if |cs| > 0 {
      AbsorbAllCreated(t, nltk, cs[..|cs| - 1]);
      AbsorbCommits(AbsorbAll(t, nltk, cs[..|cs| - 1]).tables, nltk, cs[|cs| - 1]);
    }
  }

  /** The hashes a walk yields. */
  function HashesOf(cs: seq<Git.Commit>): set<string>
  {
    set i | 0 <= i < |cs| :: cs[i].hexsha
  }

  lemma HashesOfSnoc(cs: seq<Git.Commit>)
    requires |cs| > 0
    ensures HashesOf(cs) == HashesOf(cs[..|cs| - 1]) + {cs[|cs| - 1].hexsha}
  {
    var init := cs[..|cs| - 1];
    assert forall i :: 0 <= i < |init| ==> init[i] == cs[i];
    forall h | h in HashesOf(cs)
      ensures h in HashesOf(init) + {cs[|cs| - 1].hexsha}
    {
      var i :| 0 <= i < |cs| && cs[i].hexsha == h;
      if i < |init| {
        assert init[i].hexsha == h;
      }
    }
  }

  /**
   * A successful walk adds exactly one `commits` row per yielded commit, holding
   * its normalised message, and keeps every row there before.
   */
  lemma {:induction false} AbsorbAllRows(t: Tables, nltk: NlpUtils.Nltk, cs: seq<Git.Commit>)
    ensures var r := AbsorbAll(t, nltk, cs);
      r.error.None? ==>
        && r.tables.commits.Keys == t.commits.Keys + HashesOf(cs)
        && (forall i :: 0 <= i < |cs| ==> r.tables.commits[cs[i].hexsha] == RowOf(nltk, cs[i]))
        && (forall h :: h in t.commits ==> r.tables.commits[h] == t.commits[h])
    decreases |cs|
  {
    if |cs| > 0 {
      var init := cs[..|cs| - 1];
      var c := cs[|cs| - 1];
      AbsorbAllRows(t, nltk, init);
      AbsorbAllCreated(t, nltk, init);
      var r := AbsorbAll(t, nltk, init);
      if r.error.None? {
        AbsorbCommits(r.tables, nltk, c);
        HashesOfSnoc(cs);
        var done := Absorb(r.tables, nltk, c);
        assert AbsorbAll(t, nltk, cs) == done;
        if done.error.None? {
          RowsSnoc(nltk, r.tables.commits, done.tables.commits, init, c);
          assert cs == init + [c];
        }
      }
    }
  }

  /** Appending the row of a new commit keeps the rows of the commits before it. */
  lemma RowsSnoc(nltk: NlpUtils.Nltk, before: map<string, CommitRow>, after: map<string, CommitRow>, init: seq<Git.Commit>, c: Git.Commit)
    requires forall h :: h in HashesOf(init) ==> h in before
    requires forall i :: 0 <= i < |init| ==> before[init[i].hexsha] == RowOf(nltk, init[i])
    requires after == before[c.hexsha := RowOf(nltk, c)]
    requires c.hexsha !in before
    ensures forall i :: 0 <= i < |init + [c]| ==> after[(init + [c])[i].hexsha] == RowOf(nltk, (init + [c])[i])
  {
    forall i | 0 <= i < |init + [c]|
      ensures after[(init + [c])[i].hexsha] == RowOf(nltk, (init + [c])[i])
    {
      if i < |init| {
        assert init[i].hexsha in HashesOf(init);
      }
    }
  }

  /** Freshness of a walk is freshness of all but its last commit, plus that commit's hash being new. */
  lemma FreshHashesSnoc(commits: map<string, CommitRow>, cs: seq<Git.Commit>)
    requires |cs| > 0
    ensures FreshHashes(commits, cs) <==>
      FreshHashes(commits, cs[..|cs| - 1]) && cs[|cs| - 1].hexsha !in commits && cs[|cs| - 1].hexsha !in HashesOf(cs[..|cs| - 1])
  {
    var init := cs[..|cs| - 1];
    assert forall i :: 0 <= i < |init| ==> init[i] == cs[i];
    assert cs[|cs| - 1].hexsha in HashesOf(init) <==> exists i :: 0 <= i < |init| && init[i].hexsha == cs[|cs| - 1].hexsha;
  }

  /** The walk succeeds exactly when it is empty or the tables exist, and every hash is new and yielded once. */
  lemma {:induction false} AbsorbAllSucceedsIff(t: Tables, nltk: NlpUtils.Nltk, cs: seq<Git.Commit>)
    ensures AbsorbAll(t, nltk, cs).error.None? <==> (|cs| == 0 || t.created) && FreshHashes(t.commits, cs)
    decreases |cs|
  {
    if |cs| > 0 {
      var init := cs[..|cs| - 1];
      var c := cs[|cs| - 1];
      AbsorbAllSucceedsIff(t, nltk, init);
      AbsorbAllCreated(t, nltk, init);
      FreshHashesSnoc(t.commits, cs);
      var r := AbsorbAll(t, nltk, init);
      if r.error.None? {
        AbsorbAllRows(t, nltk, init);
        AbsorbCommits(r.tables, nltk, c);
      }
    }
  }

  /** On created tables a walk never stops on a missing table. */
  lemma {:induction false} AbsorbAllFindsTables(t: Tables, nltk: NlpUtils.Nltk, cs: seq<Git.Commit>)
    requires t.created
    ensures AbsorbAll(t, nltk, cs).error != Some(NoSuchTable)
    decreases |cs|
  {
    if |cs| > 0 {
      AbsorbAllFindsTables(t, nltk, cs[..|cs| - 1]);
      AbsorbAllCreated(t, nltk, cs[..|cs| - 1]);
      AbsorbCommits(AbsorbAll(t, nltk, cs[..|cs| - 1]).tables, nltk, cs[|cs| - 1]);
    }
  }

  /**
   * A walk that yields a commit already indexed stops on the primary key of
   * `commits`: what an update from a stale watermark meets.
   */
  lemma RewalkFails(t: Tables, nltk: NlpUtils.Nltk, cs: seq<Git.Commit>, j: nat)
    requires Consistent(t) && t.created
    requires j < |cs| && cs[j].hexsha in t.commits
    ensures AbsorbAll(t, nltk, cs).error == Some(UniqueConstraint)
  {
    AbsorbAllSucceedsIff(t, nltk, cs);
    AbsorbAllInvariant(t, nltk, cs);
    AbsorbAllFindsTables(t, nltk, cs);
  }

  /** As written, a run ending no earlier than every recorded run leaves `get_last_indexed_rev` where it was. */
  lemma AsWrittenWatermarkStays(t: Tables, nltk: NlpUtils.Nltk, cs: seq<Git.Commit>, startTime: int, endTime: int, head: string)
    requires Consistent(t) && t.created && |t.updates| > 0
    requires forall j :: 0 <= j < |t.updates| ==> t.updates[j].endTime <= endTime
    requires |cs| > 0
    ensures var r := AbsorbAll(t, nltk, cs);
      var m := MetaUpdate(r.tables, startTime, endTime, cs[|cs| - 1].hexsha, head, |cs|);
      m.Success? && LastIndexedRev(m.value) == LastIndexedRev(t)
  {
    AbsorbAllInvariant(t, nltk, cs);
    var r := AbsorbAll(t, nltk, cs);
    WatermarkIgnoresLaterRecords(r.tables, UpdateRow(r.tables.nextId, startTime, endTime, cs[|cs| - 1].hexsha, head, |cs|));
  }

  /** With the intended watermark, a run that ends last moves the watermark to the head it indexed up to. */
  lemma CorrectedWatermarkAdvances(t: Tables, nltk: NlpUtils.Nltk, cs: seq<Git.Commit>, startTime: int, endTime: int, head: string)
    requires Consistent(t) && t.created && |cs| > 0
    requires forall j :: 0 <= j < |t.updates| ==> t.updates[j].endTime <= endTime
    ensures var r := AbsorbAll(t, nltk, cs);
      var m := MetaUpdate(r.tables, startTime, endTime, cs[|cs| - 1].hexsha, head, |cs|);
      m.Success? && LatestIndexedRev(m.value) == Success(Some(head))
  {
    AbsorbAllInvariant(t, nltk, cs);
    var r := AbsorbAll(t, nltk, cs);
    LatestWatermarkAdvances(r.tables, UpdateRow(r.tables.nextId, startTime, endTime, cs[|cs| - 1].hexsha, head, |cs|));
  }

  /** `RosettaIndex`: a repository, the store, and the NLTK collaborators `preprocess_message` uses. */
  class RosettaIndex {
    const repo: Git.Repo
    const database: Database
    const nltk: NlpUtils.Nltk

    ghost predicate Valid()
      reads this, database
    {
      database.Valid() && database.created
    }

    constructor (repo: Git.Repo, database: Database, nltk: NlpUtils.Nltk)
      requires database.Valid() && database.created
      ensures Valid()
      ensures this.repo == repo && this.database == database && this.nltk == nltk
    {
      this.repo := repo;
      this.database := database;
      this.nltk := nltk;
    }

    /**
     * `RosettaIndex(repo_path, db_path)`: opens the store on the database file
     * `file` and raises "Index is empty" when it holds no commit rows.
     */
    static method Open(repo: Git.Repo, file: Tables, nltk: NlpUtils.Nltk) returns (r: Result<RosettaIndex, IndexError>)
      requires Consistent(file)
      ensures r.Failure? <==> |file.commits| == 0
      ensures r.Failure? ==> r.error == IndexEmpty
      ensures r.Success? ==> fresh(r.value) && fresh(r.value.database) && r.value.Valid()
      ensures r.Success? ==> r.value.repo == repo && r.value.nltk == nltk && r.value.database.State() == file.(created := true)
    {
      var db := new Database(file);
      var empty := db.IndexIsEmpty();
      if empty == Success(true) {
        return Failure(IndexEmpty);
      }
      var index := new RosettaIndex(repo, db, nltk);
      return Success(index);
    }

    /** The `for commit in ...` loop both index methods share. */
    method IndexCommits(cs: seq<Git.Commit>) returns (err: Option<DbError>)
      requires Valid()
      modifies database
      ensures Valid()
      ensures database.State() == AbsorbAll(old(database.State()), nltk, cs).tables
      ensures err == AbsorbAll(old(database.State()), nltk, cs).error
    {
      ghost var t0 := database.State();
      var i := 0;
      while i < |cs|
        invariant 0 <= i <= |cs|
        invariant Valid()
        invariant AbsorbAll(t0, nltk, cs[..i]) == Run(database.State(), None)
      {
        assert cs[..i + 1][..i] == cs[..i];
        var pm := NlpUtils.PreprocessMessage(nltk, cs[i].message);
        var out := database.InsertIntoCommits(cs[i], pm.1);
        if out.Fail? {
          AbsorbAllPrefix(t0, nltk, cs, i + 1);
          return Some(out.error);
        }
        out := database.InsertIntoTokensFiles(cs[i], pm.0);
        i := i + 1;
      }
      assert cs[..|cs|] == cs;
      return None;
    }

    /**
     * `build_index()`: walks the whole history, then records one run starting at
     * the last commit yielded, ending at head, counting the commits. An empty
     * history leaves `start_rev` unbound, which raises before the record.
     */
    method BuildIndex(startTime: int, endTime: int) returns (out: Outcome<IndexError>)
      requires Valid()
      modifies database
      ensures Valid()
      ensures var run := AbsorbAll(old(database.State()), nltk, repo.history);
        if run.error.Some? then out == Fail(Db(run.error.value)) && database.State() == run.tables
        else if |repo.history| == 0 then out == Fail(UnboundStartRev) && database.State() == run.tables
        else out == Pass && database.State() == run.tables.(
          updates := run.tables.updates + [UpdateRow(run.tables.nextId, startTime, endTime, repo.history[|repo.history| - 1].hexsha, repo.head, |repo.history|)],
          nextId := run.tables.nextId + 1)
    {
      ghost var t0 := database.State();
      AbsorbAllInvariant(t0, nltk, repo.history);
      var err := IndexCommits(repo.history);
      if err.Some? {
        return Fail(Db(err.value));
      }
      if |repo.history| == 0 {
        return Fail(UnboundStartRev);
      }
      var startRev := repo.history[|repo.history| - 1].hexsha;
      var o := database.InsertUpdate(startTime, endTime, startRev, repo.head, |repo.history|);
      return Pass;
    }

    /**
     * `update_index()`: walks `"<get_last_indexed_rev()>..HEAD"`, from the head
     * of the EARLIEST recorded run, so commits indexed by later runs are yielded
     * again and their insert fails on the primary key (RewalkFails). A range git
     * rejects raises. A non-empty walk records one run; an empty one records
     * nothing. Returns the number of commits walked and the end time.
     */
    method UpdateIndex(startTime: int, endTime: int) returns (r: Result<(nat, int), IndexError>)
      requires Valid()
      modifies database
      ensures Valid()
      ensures var arg := Git.RangeArg(LastIndexedRev(old(database.State())).value);
        match repo.revList(arg)
        case None => r == Failure(BadRevision) && database.State() == old(database.State())
        case Some(cs) =>
          var run := AbsorbAll(old(database.State()), nltk, cs);
          if run.error.Some? then r == Failure(Db(run.error.value)) && database.State() == run.tables
          else if |cs| == 0 then r == Success((0, endTime)) && database.State() == old(database.State())
          else r == Success((|cs|, endTime)) && database.State() == run.tables.(
            updates := run.tables.updates + [UpdateRow(run.tables.nextId, startTime, endTime, cs[|cs| - 1].hexsha, repo.head, |cs|)],
            nextId := run.tables.nextId + 1)
    {
      var last := database.GetLastIndexedRev();
      var commits := repo.revList(Git.RangeArg(last.value));
      if commits.None? {
        return Failure(BadRevision);
      }
      var cs := commits.value;
      ghost var t0 := database.State();
      AbsorbAllInvariant(t0, nltk, cs);
      var err := IndexCommits(cs);
      if err.Some? {
        return Failure(Db(err.value));
      }
      if |cs| == 0 {
        return Success((0, endTime));
      }
      var o := database.InsertUpdate(startTime, endTime, cs[|cs| - 1].hexsha, repo.head, |cs|);
      return Success((|cs|, endTime));
    }
  }

  /** A walk that fails at commit `n - 1` fails, with the same tables, on every longer walk. */
  lemma {:induction false} AbsorbAllPrefix(t: Tables, nltk: NlpUtils.Nltk, cs: seq<Git.Commit>, n: nat)
    requires n <= |cs| && AbsorbAll(t, nltk, cs[..n]).error.Some?
    ensures AbsorbAll(t, nltk, cs) == AbsorbAll(t, nltk, cs[..n])
    decreases |cs| - n
  {
    if n < |cs| {
      assert cs[..n + 1][..n] == cs[..n];
      AbsorbAllPrefix(t, nltk, cs, n + 1);
    } else {
      assert cs[..n] == cs;
    }
  }
}
