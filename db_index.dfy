/**
 * The prototype `DbIndex` of commit_analyser/db_index.py: an in-memory inverted
 * index from normalised tokens to files, the normalised message of every commit,
 * and for every file the messages of the commits touching it joined by spaces,
 * plus a `stats` dictionary. The module's `preprocess_message` is the same
 * pipeline as NlpUtils.PreprocessMessage. Clock readings are parameters.
 */
module DbIndexing {
  import opened Wrappers
  import Git
  import Text
  import NlpUtils
  import opened InvertedIndex

  /** `stats["last_indexed_commit"]` read before any build (KeyError), or git rejecting the range. */
  datatype IndexError = KeyError | BadRevision

  /** The three dictionaries the walks change. */
  datatype Indexes = Indexes(index: Index, messageIndex: map<string, string>, fileToMessages: map<string, string>)

  /** `file_to_messages[file] += ' ' + message`, or `= message` on KeyError. */
  function Note(ftm: map<string, string>, file: string, message: string): map<string, string>
  {
    ftm[file := if file in ftm then ftm[file] + " " + message else message]
  }

  /** The `file_to_messages` updates for each file of one commit. */
  function NoteAll(ftm: map<string, string>, files: seq<string>, message: string): map<string, string>
    decreases |files|
  {
    if |files| == 0 then ftm else Note(NoteAll(ftm, files[..|files| - 1], message), files[|files| - 1], message)
  }

  /** For distinct files, each file's entry gets `message` once and no other entry changes. */
  lemma {:induction false} NoteAllSpec(ftm: map<string, string>, files: seq<string>, message: string)
    requires Git.NoDuplicates(files)
    ensures NoteAll(ftm, files, message).Keys == ftm.Keys + (set f | f in files)
    ensures forall f :: f in NoteAll(ftm, files, message) ==>
      NoteAll(ftm, files, message)[f] == if f !in files then ftm[f] else if f in ftm then ftm[f] + " " + message else message
    decreases |files|
  {
    if |files| > 0 {
      var init := files[..|files| - 1];
      var last := files[|files| - 1];
      assert files == init + [last];
      assert Git.NoDuplicates(init);
      assert last !in init;
      NoteAllSpec(ftm, init, message);
      assert (set f | f in files) == (set f | f in init) + {last};
    }
  }

  /** One iteration of `build_index`'s loop. */
  function BuildStep(s: Indexes, nltk: NlpUtils.Nltk, c: Git.Commit): Indexes
  {
    var pm := NlpUtils.PreprocessMessage(nltk, c.message);
    Indexes(AddToFiles(s.index, pm.0, c.files), s.messageIndex[c.hexsha := pm.1], NoteAll(s.fileToMessages, c.files, pm.1))
  }

  function BuildWalk(s: Indexes, nltk: NlpUtils.Nltk, cs: seq<Git.Commit>): Indexes
    decreases |cs|
  {
    if |cs| == 0 then s else BuildStep(BuildWalk(s, nltk, cs[..|cs| - 1]), nltk, cs[|cs| - 1])
  }

  /** One iteration of `update_index`'s loop: `file_to_messages` is not touched. */
  function UpdateStep(s: Indexes, nltk: NlpUtils.Nltk, c: Git.Commit): Indexes
  {
    var pm := NlpUtils.PreprocessMessage(nltk, c.message);
    s.(index := AddToFiles(s.index, pm.0, c.files), messageIndex := s.messageIndex[c.hexsha := pm.1])
  }

  function UpdateWalk(s: Indexes, nltk: NlpUtils.Nltk, cs: seq<Git.Commit>): Indexes
    decreases |cs|
  {
    if |cs| == 0 then s else UpdateStep(UpdateWalk(s, nltk, cs[..|cs| - 1]), nltk, cs[|cs| - 1])
  }

  /** The normalised messages of the commits of `cs` that touch `file`, in iteration order. */
  function Touching(nltk: NlpUtils.Nltk, cs: seq<Git.Commit>, file: string): seq<string>
    decreases |cs|
  {
    if |cs| == 0 then []
    else
      var c := cs[|cs| - 1];
      Touching(nltk, cs[..|cs| - 1], file) + if file in c.files then [NlpUtils.PreprocessMessage(nltk, c.message).1] else []
  }

  /**
   * Starting from no messages, after the build walk a file has an entry exactly
   * when some commit touched it, and the entry is the messages of the commits
   * touching it, in iteration order, joined with single spaces.
   */
  lemma {:induction false} FileToMessagesJoin(s: Indexes, nltk: NlpUtils.Nltk, cs: seq<Git.Commit>)
    requires s.fileToMessages == map[]
    ensures forall f :: f in BuildWalk(s, nltk, cs).fileToMessages <==> |Touching(nltk, cs, f)| > 0
    ensures forall f :: f in BuildWalk(s, nltk, cs).fileToMessages ==>
      BuildWalk(s, nltk, cs).fileToMessages[f] == Text.Join(Touching(nltk, cs, f), " ")
    decreases |cs|
  {
    if |cs| > 0 {
      var init := cs[..|cs| - 1];
      var c := cs[|cs| - 1];
      var m := NlpUtils.PreprocessMessage(nltk, c.message).1;
      FileToMessagesJoin(s, nltk, init);
      var before := BuildWalk(s, nltk, init).fileToMessages;
      var after := BuildWalk(s, nltk, cs).fileToMessages;
      assert after == NoteAll(before, c.files, m);
      NoteAllSpec(before, c.files, m);
      forall f
        ensures f in after <==> |Touching(nltk, cs, f)| > 0
        ensures f in after ==> after[f] == Text.Join(Touching(nltk, cs, f), " ")
      {
        var prior := Touching(nltk, init, f);
        if f in c.files {
          assert Touching(nltk, cs, f) == prior + [m];
          if |prior| > 0 {
            Text.JoinSnoc(prior, m, " ");
          } else {
            assert Touching(nltk, cs, f) == [m];
          }
        } else {
          assert Touching(nltk, cs, f) == prior;
        }
      }
    }
  }

  /** With distinct hashes, the build walk stores every commit's normalised message under its hash. */
  lemma {:induction false} MessageIndexHoldsMessages(s: Indexes, nltk: NlpUtils.Nltk, cs: seq<Git.Commit>)
    requires forall i, j :: 0 <= i < j < |cs| ==> cs[i].hexsha != cs[j].hexsha
    ensures forall i :: 0 <= i < |cs| ==>
      cs[i].hexsha in BuildWalk(s, nltk, cs).messageIndex &&
      BuildWalk(s, nltk, cs).messageIndex[cs[i].hexsha] == NlpUtils.PreprocessMessage(nltk, cs[i].message).1
    decreases |cs|
  {
    if |cs| > 0 {
      var init := cs[..|cs| - 1];
      MessageIndexHoldsMessages(s, nltk, init);
      assert forall i :: 0 <= i < |init| ==> init[i] == cs[i];
    }
  }

  /** Both walks only grow the token index. */
  lemma {:induction false} WalksGrowIndex(s: Indexes, nltk: NlpUtils.Nltk, cs: seq<Git.Commit>)
    ensures Grows(s.index, BuildWalk(s, nltk, cs).index)
    ensures Grows(s.index, UpdateWalk(s, nltk, cs).index)
    ensures BuildWalk(s, nltk, cs).index == UpdateWalk(s, nltk, cs).index
    decreases |cs|
  {
    if |cs| > 0 {
      var init := cs[..|cs| - 1];
      var c := cs[|cs| - 1];
      WalksGrowIndex(s, nltk, init);
      var b := BuildWalk(s, nltk, init);
      AddToFilesSpec(b.index, NlpUtils.PreprocessMessage(nltk, c.message).0, c.files);
      GrowsTransitive(s.index, b.index, BuildWalk(s, nltk, cs).index);
    }
  }

  /** The update walk never touches `file_to_messages`. */
  lemma {:induction false} UpdateKeepsFileMessages(s: Indexes, nltk: NlpUtils.Nltk, cs: seq<Git.Commit>)
    ensures UpdateWalk(s, nltk, cs).fileToMessages == s.fileToMessages
    decreases |cs|
  {
    if |cs| > 0 {
      UpdateKeepsFileMessages(s, nltk, cs[..|cs| - 1]);
    }
  }

  /** `DbIndex(repo_path)`. */
  class DbIndex {
    const repo: Git.Repo
    const nltk: NlpUtils.Nltk
    var index: Index
    var messageIndex: map<string, string>
    var fileToMessages: map<string, string>
    /** `stats["last_updated"]`, `stats["initial_build_time"]`, `stats["last_indexed_commit"]`; None while the key is absent. */
    var lastUpdated: Option<int>
    var initialBuildTime: Option<int>
    var lastIndexedCommit: Option<string>

    function State(): Indexes
      reads this
    {
      Indexes(index, messageIndex, fileToMessages)
    }

    /** Empty dictionaries, then `build_index()` unless the repository is bare. */
    constructor (repo: Git.Repo, nltk: NlpUtils.Nltk, startTime: int, endTime: int)
      ensures this.repo == repo && this.nltk == nltk
      ensures repo.bare ==> State() == Indexes(map[], map[], map[]) && lastUpdated.None? && initialBuildTime.None? && lastIndexedCommit.None?
      ensures !repo.bare ==> State() == BuildWalk(Indexes(map[], map[], map[]), nltk, repo.history)
      ensures !repo.bare ==> lastUpdated == Some(startTime) && initialBuildTime == Some(endTime - startTime) && lastIndexedCommit == Some(repo.head)
    {
      this.repo := repo;
      this.nltk := nltk;
      index, messageIndex, fileToMessages := map[], map[], map[];
      lastUpdated, initialBuildTime, lastIndexedCommit := None, None, None;
      new;
      if !repo.bare {
        BuildIndex(startTime, endTime);
      }
    }

    /** `add(tokens, file)`. */
    method Add(tokens: seq<string>, file: string)
      modifies this
      ensures index == InvertedIndex.Add(old(index), tokens, file)
      ensures messageIndex == old(messageIndex) && fileToMessages == old(fileToMessages)
      ensures lastUpdated == old(lastUpdated) && initialBuildTime == old(initialBuildTime) && lastIndexedCommit == old(lastIndexedCommit)
    {
      var i := 0;
      while i < |tokens|
        invariant 0 <= i <= |tokens|
        invariant index == InvertedIndex.Add(old(index), tokens[..i], file)
        invariant messageIndex == old(messageIndex) && fileToMessages == old(fileToMessages)
        invariant lastUpdated == old(lastUpdated) && initialBuildTime == old(initialBuildTime) && lastIndexedCommit == old(lastIndexedCommit)
      {
        assert tokens[..i + 1][..i] == tokens[..i];
        var token := tokens[i];
        if token in index {
          index := index[token := index[token] + {file}];
        } else {
          index := index[token := {file}];
        }
        i := i + 1;
      }
      assert tokens[..|tokens|] == tokens;
    }

    /** The inner loop of `build_index()`: each file gets the tokens, and the message is noted for it. */
    method AddFilesNoting(tokens: seq<string>, files: seq<string>, message: string)
      modifies this
      ensures index == AddToFiles(old(index), tokens, files)
      ensures fileToMessages == NoteAll(old(fileToMessages), files, message)
      ensures messageIndex == old(messageIndex)
      ensures lastUpdated == old(lastUpdated) && initialBuildTime == old(initialBuildTime) && lastIndexedCommit == old(lastIndexedCommit)
    {
      var j := 0;
      while j < |files|
        invariant 0 <= j <= |files|
        invariant index == AddToFiles(old(index), tokens, files[..j])
        invariant fileToMessages == NoteAll(old(fileToMessages), files[..j], message)
        invariant messageIndex == old(messageIndex)
        invariant lastUpdated == old(lastUpdated) && initialBuildTime == old(initialBuildTime) && lastIndexedCommit == old(lastIndexedCommit)
      {
        assert files[..j + 1][..j] == files[..j];
        var file := files[j];
        Add(tokens, file);
        if file in fileToMessages {
          fileToMessages := fileToMessages[file := fileToMessages[file] + " " + message];
        } else {
          fileToMessages := fileToMessages[file := message];
        }
        j := j + 1;
      }
      assert files[..|files|] == files;
    }

    /**
     * `build_index()`: the walk over the whole history, then the build time and
     * the head as the last indexed commit.
     */
    method BuildIndex(startTime: int, endTime: int)
      modifies this
      ensures State() == BuildWalk(old(State()), nltk, repo.history)
      ensures lastUpdated == Some(startTime) && initialBuildTime == Some(endTime - startTime) && lastIndexedCommit == Some(repo.head)
    {
      lastUpdated := Some(startTime);
      ghost var s0 := State();
      var cs := repo.history;
      var i := 0;
      while i < |cs|
        invariant 0 <= i <= |cs|
        invariant State() == BuildWalk(s0, nltk, cs[..i])
        invariant lastUpdated == Some(startTime)
      {
        assert cs[..i + 1][..i] == cs[..i];
        var c := cs[i];
        var pm := NlpUtils.PreprocessMessage(nltk, c.message);
        messageIndex := messageIndex[c.hexsha := pm.1];
        AddFilesNoting(pm.0, c.files, pm.1);
        i := i + 1;
      }
      assert cs[..|cs|] == cs;
      initialBuildTime := Some(endTime - startTime);
      lastIndexedCommit := Some(repo.head);
    }

    /** The loop of `update_index()` over the commits of the range. */
    method WalkRange(cs: seq<Git.Commit>)
      modifies this
      ensures State() == UpdateWalk(old(State()), nltk, cs) && fileToMessages == old(fileToMessages)
      ensures lastUpdated == old(lastUpdated) && initialBuildTime == old(initialBuildTime) && lastIndexedCommit == old(lastIndexedCommit)
    {
      var i := 0;
      while i < |cs|
        invariant 0 <= i <= |cs|
        invariant State() == UpdateWalk(old(State()), nltk, cs[..i])
        invariant lastUpdated == old(lastUpdated) && initialBuildTime == old(initialBuildTime) && lastIndexedCommit == old(lastIndexedCommit)
      {
        assert cs[..i + 1][..i] == cs[..i];
        var c := cs[i];
        var pm := NlpUtils.PreprocessMessage(nltk, c.message);
        messageIndex := messageIndex[c.hexsha := pm.1];
        ghost var index0, ftm0, mi0 := index, fileToMessages, messageIndex;
        var j := 0;
        while j < |c.files|
          invariant 0 <= j <= |c.files|
          invariant index == AddToFiles(index0, pm.0, c.files[..j])
          invariant messageIndex == mi0 && fileToMessages == ftm0
          invariant lastUpdated == old(lastUpdated) && initialBuildTime == old(initialBuildTime) && lastIndexedCommit == old(lastIndexedCommit)
        {
          assert c.files[..j + 1][..j] == c.files[..j];
          Add(pm.0, c.files[j]);
          j := j + 1;
        }
        assert c.files[..|c.files|] == c.files;
        i := i + 1;
      }
      assert cs[..|cs|] == cs;
      UpdateKeepsFileMessages(old(State()), nltk, cs);
    }

    /**
     * `update_index()`: records the time, walks `"<last_indexed_commit>..HEAD"`
     * without touching `file_to_messages`, then sets the last indexed commit to
     * the head. Reading the watermark before any build raises KeyError.
     */
    method UpdateIndex(now: int) returns (out: Outcome<IndexError>)
      modifies this
      ensures lastUpdated == Some(now) && initialBuildTime == old(initialBuildTime)
      ensures fileToMessages == old(fileToMessages)
      ensures old(lastIndexedCommit).None? ==> out == Fail(KeyError) && State() == old(State()) && lastIndexedCommit == old(lastIndexedCommit)
      ensures old(lastIndexedCommit).Some? ==>
        match repo.revList(Git.RangeArg(old(lastIndexedCommit)))
        case None => out == Fail(BadRevision) && State() == old(State()) && lastIndexedCommit == old(lastIndexedCommit)
        case Some(cs) => out == Pass && State() == UpdateWalk(old(State()), nltk, cs) && lastIndexedCommit == Some(repo.head)
    {
      lastUpdated := Some(now);
      if lastIndexedCommit.None? {
        return Fail(KeyError);
      }
      var commits := repo.revList(Git.RangeArg(lastIndexedCommit));
      if commits.None? {
        return Fail(BadRevision);
      }
      WalkRange(commits.value);
      lastIndexedCommit := Some(repo.head);
      return Pass;
    }
  }
}
