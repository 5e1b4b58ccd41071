/** The records GitPython supplies to the indexers, as plain values. */
module Git {
  import opened Wrappers

  /**
   * A commit: `hexsha`, `committed_datetime.isoformat()`, `author.name`,
   * `stats.total['insertions']`, `stats.total['deletions']`, the keys of
   * `stats.files` (a dict, so without repetitions) and the raw `message`.
   */
  datatype CommitData = CommitData(
    hexsha: string,
    datetime: string,
    author: string,
    insertions: int,
    deletions: int,
    files: seq<string>,
    message: string)

  predicate NoDuplicates<T(==)>(s: seq<T>)
  {
    forall i, j :: 0 <= i < j < |s| ==> s[i] != s[j]
  }

  /** Without duplicates, the head does not recur and the tail has no duplicates either. */
  lemma NoDuplicatesTail<T>(s: seq<T>)
    requires NoDuplicates(s) && |s| > 0
    ensures NoDuplicates(s[1..]) && s[0] !in s[1..]
  {
    forall j | 0 <= j < |s| - 1 ensures s[1..][j] != s[0] {
      assert s[1..][j] == s[j + 1];
    }
    forall i, j | 0 <= i < j < |s| - 1 ensures s[1..][i] != s[1..][j] {
      assert s[1..][i] == s[i + 1] && s[1..][j] == s[j + 1];
    }
  }

  type Commit = c: CommitData | NoDuplicates(c.files) witness CommitData("", "", "", 0, 0, [], "")

  /**
   * A repository: whether it is bare, the hexsha of `head.commit`, the commits
   * `iter_commits()` yields, and what `iter_commits(rev_range)` yields for a
   * revision-range argument (None when git rejects the range).
   */
  datatype Repo = Repo(
    bare: bool,
    head: string,
    history: seq<Commit>,
    revList: string -> Option<seq<Commit>>)

  /** Python's `'{}..HEAD'.format(rev)`; a missing revision is formatted as "None". */
  function RangeArg(rev: Option<string>): (r: string)
    ensures rev.Some? ==> r == rev.value + "..HEAD"
    ensures rev.None? ==> r == "None..HEAD"
  {
    (match rev case Some(v) => v case None => "None") + "..HEAD"
  }
}
