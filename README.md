# rosetta_search in Dafny

A verified model of the core of rosetta_search. This commit-message search index
links the normalised tokens of each commit's message to the files the commit
touched, scores (token, file) pairs by tf-idf and ranks candidate files.

The model has one module per core source file:

- **RosettaDatabase** (`database.dfy`): the SQLite store of `src/rosetta_search/database.py`.
  - The six tables are a `Tables` value; the `Database` class holds them as fields and changes them in place.
  - Every statement is a pure transition (`InsertCommit`, `InsertLinks`, `MetaUpdate`), and each class method is proved to perform it.
  - The invariant `Consistent` (unique strings, valid foreign keys, increasing fresh ids) is kept by every write.
  - The tf-idf counts `tf`, `df` and `N` are computed exactly.
  - `get_files_for_token`, `get_all_tokens` and `update_all_tf_idf` are loops proved against what the queries return.
- **RosettaIndexing** (`rosetta_index.dfy`): the driver of `src/rosetta_search/rosetta_index.py`.
  - What one walk over commits does to the tables is the fold `AbsorbAll`; the class loops are proved to follow it.
  - Lemmas say when a walk succeeds, which rows it adds, and how the update ledger and its watermark move.
- **SemanticIndex** (`semantic_index.dfy`): the driver of `semantic_search/index.py`, against a store that records the calls made on it.
- **FileResults** (`file_result.dfy`): the ranked search result and its lexicographic comparison.
- **InvertedIndex** (`inverted_index.dfy`): the dictionary-of-sets index shared by the three prototypes in `commit_analyser/`, with `add`, the commit walk and lookup.
- **DbIndexing**, **CommitIndex**, **SpacyIndex** (`db_index.dfy`, `commit_index.dfy`, `spacy_index.dfy`): the three in-memory prototype indexes, as classes whose methods are proved against the walks.
- **NlpUtils** (`nlp_utils.dfy`): `preprocess_message`, with NLTK as parameters.
- **Preprocess** (`preprocess.dfy`): the string clean-up helpers of `old_attempts/preprocess.py`, with regex character classes as parameters.
- **Text**, **Git**, **Wrappers**: `join`, ASCII `lower`, commit and repository records, and Option/Result/Outcome.

Collaborators the model cannot see are parameters:

- NLTK's tokenizer, stop-word list and lemmatizer
- the letter test of `str.isalpha`
- spaCy's pipeline
- SQLite's `LIKE`
- `math.log2`
- the regex classes `\w`, `\s` and `\d`
- Python's `hash`
- GitPython's commit walk (`iter_commits()`, and `iter_commits(range)` as a function that may reject a range)
- clock readings

## Model

| member | source | states |
|---|---|---|
| Text.Join | src/rosetta_search/nlp_utils.py:11 | `' '.join`: an empty list gives "", one token gives itself, and otherwise the length is the tokens' total plus one separator between each neighbouring pair |
| Text.JoinSnoc | commit_analyser/db_index.py:50-53 | appending one more string to a non-empty join adds exactly one separator and the string |
| Text.Lower | src/rosetta_search/nlp_utils.py:8 | `lower()` keeps the length and maps each character through ASCII lower-casing |
| Text.LowerIdempotent | old_attempts/preprocess.py:32-33 | lower-casing twice is lower-casing once |
| Text.LowerHasNoUpper | old_attempts/preprocess.py:32-33 | no upper-case ASCII letter is left after lower-casing |
| NlpUtils.FilterLower | src/rosetta_search/nlp_utils.py:8 | the filtering comprehension never produces more tokens than it is given |
| NlpUtils.Lemmatized | src/rosetta_search/nlp_utils.py:10 | the lemmatizing comprehension keeps the length and lemmatizes each position |
| NlpUtils.PreprocessMessage | src/rosetta_search/nlp_utils.py:5-11 | the returned string is the returned tokens joined by single spaces, and there are never more tokens than the tokenizer produced words |
| NlpUtils.KeptFrom | src/rosetta_search/nlp_utils.py:8 | the positions whose word passes the filter, in increasing order: each listed one passes, and every passing one is listed |
| NlpUtils.FilterLowerKeepsKeptWords | src/rosetta_search/nlp_utils.py:8 | the filter keeps exactly the passing words, in order, each lower-cased |
| NlpUtils.PreprocessTokensSpec | src/rosetta_search/nlp_utils.py:7-10 | output token k is `lemmatize(lower(w))` for the k-th kept word; a word is kept iff it is alphabetic and not a stop word before lower-casing; the order is preserved |
| Git.RangeArg | src/rosetta_search/rosetta_index.py:30 | `'{}..HEAD'.format(rev)`: the revision followed by "..HEAD", and "None..HEAD" when there is none |
| Preprocess.RemovePuncts | old_attempts/preprocess.py:10-11 | keeps the length; word and space characters are unchanged; every other character becomes a blank |
| Preprocess.RemovePunctsLeavesWordsAndSpaces | old_attempts/preprocess.py:10-11 | afterwards every character is a word or a space character |
| Preprocess.RemovePunctsIdempotent | old_attempts/preprocess.py:10-11 | removing punctuation twice is removing it once |
| Preprocess.SubNumberWords | old_attempts/preprocess.py:25 | `re.sub(r'\w*\d\w*', " ", s)` leaves no digit and never lengthens the string |
| Preprocess.SubNumberWordsKeepsDigitFree | old_attempts/preprocess.py:25 | on a string with no digit the substitution changes nothing |
| Preprocess.Strip | old_attempts/preprocess.py:25 | `strip()` returns a slice with only spaces cut on either side, is never longer, and the result neither starts nor ends with a space |
| Preprocess.StripIdempotent | old_attempts/preprocess.py:25 | stripping twice is stripping once |
| Preprocess.RemoveNumberStrings | old_attempts/preprocess.py:24-25 | the result has no digit, no leading or trailing whitespace, and is never longer than the input |
| Preprocess.RemoveNumberStringsIdempotent | old_attempts/preprocess.py:24-25 | on a digit-free string only the strip acts, and applying the function again changes nothing |
| Preprocess.DedupSpaces | old_attempts/preprocess.py:28-29 | the result never has two adjacent space characters, is never longer, is empty only for empty input, and starts with a space iff the input does |
| Preprocess.LowercaseAll | old_attempts/preprocess.py:32-33 | keeps the length and is a fixed point of lower-casing, so applying it again changes nothing |
| Preprocess.WordsArePieces | old_attempts/preprocess.py:37 | `split()` gives non-empty pieces containing no space character |
| Preprocess.WordCountCountsRuns | old_attempts/preprocess.py:36-37 | `word_count` equals the number of maximal non-whitespace runs, counted independently as positions where a non-space follows a space or the start |
| Preprocess.WordsEmptyIffAllSpace | old_attempts/preprocess.py:36-37 | `split()` gives no piece, so `word_count` is 0, exactly for the empty and the all-whitespace strings |
| RosettaDatabase.InsertCommit | src/rosetta_search/database.py:46-66 | fails with no such table before `create_tables`, and on a hash already present (primary key); otherwise adds exactly the commit's row, with the given message, and changes nothing else |
| RosettaDatabase.InsertOrIgnore | src/rosetta_search/database.py:72-78 | INSERT OR IGNORE: the keys become the old keys plus the values; present entries keep their ids; new ones get fresh ids; one uuid is drawn per value |
| RosettaDatabase.InsertOrIgnorePresent | src/rosetta_search/database.py:72-78 | re-inserting values that are all present leaves the table unchanged |
| RosettaDatabase.InsertOrIgnoreIdempotent | src/rosetta_search/database.py:84-89 | inserting the same values twice gives the table of inserting them once |
| RosettaDatabase.InsertOrIgnoreInjective | src/rosetta_search/database.py:134-142 | the UNIQUE string columns keep distinct ids, all below the id counter |
| RosettaDatabase.IdsOf | src/rosetta_search/database.py:80-82 | the id look-up returns, position by position, the id of each requested key |
| RosettaDatabase.Cross | src/rosetta_search/database.py:95 | the token × file comprehension has one row per pair, with fresh increasing ids and no score yet |
| RosettaDatabase.TfCross | src/rosetta_search/database.py:95 | each (token id, file id) pair of the cross product is linked by exactly one new row, and no other pair is |
| RosettaDatabase.CommitLinks | src/rosetta_search/database.py:99 | one `commits_files` row per file id, with the commit's hash and consecutive fresh ids |
| RosettaDatabase.InsertLinks | src/rosetta_search/database.py:68-104 | fails only when there are no tables; otherwise the file and token tables gain exactly the commit's paths and tokens, keep existing ids, and leave commits and updates alone |
| RosettaDatabase.InsertLinksAddsCrossProduct | src/rosetta_search/database.py:95-97 | for every token string and file path, the number of rows linking them grows by one when both belong to the commit and by zero otherwise; repeated tokens collapse |
| RosettaDatabase.MetaUpdate | src/rosetta_search/database.py:106-119 | fails only without tables; otherwise appends exactly one ledger row with a fresh id and the given fields |
| RosettaDatabase.InsertCommitConsistent | src/rosetta_search/database.py:46-66 | a successful commit insert keeps the table invariant |
| RosettaDatabase.InsertLinksConsistent | src/rosetta_search/database.py:68-104 | the link insert keeps the invariant: unique strings, valid foreign keys, increasing ids |
| RosettaDatabase.MetaUpdateConsistent | src/rosetta_search/database.py:106-119 | a ledger insert keeps the invariant |
| RosettaDatabase.DfAtMostN | src/rosetta_search/database.py:261-268 | a token's document frequency never exceeds the number of files |
| RosettaDatabase.SameLinksSameCounts | src/rosetta_search/database.py:257-266 | tf and df read only the token and file columns, not ids or scores |
| RosettaDatabase.IntegerScoreFor | src/rosetta_search/database.py:255-283 | the query as written: no such table without tables; `log2(0)` fails exactly when N < df + 1; otherwise tf and the integer quotient N/(df+1) |
| RosettaDatabase.IntegerScoreFailsIffLinkedToEveryFile | src/rosetta_search/database.py:269 | as written, a score fails exactly when the token is linked to every file |
| RosettaDatabase.IntegerRescoreSucceedsIff | src/rosetta_search/database.py:311-316 | as written, rescoring every row succeeds iff no linked token is linked to every file |
| RosettaDatabase.SingleFileIndexFailsAsWritten | src/rosetta_search/database.py:269 | a consistent one-commit, one-file index on which the query as written fails while the real quotient gives a score |
| RosettaDatabase.ScoreFor | src/rosetta_search/database.py:255-283 | the intended tf-idf: no such table without tables; fails exactly when there are no files; otherwise tf, N and df of the pair |
| RosettaDatabase.LinkedPairsHaveScores | src/rosetta_search/database.py:311-316 | every linked pair of a consistent store has a score |
| RosettaDatabase.ScoresAgreeOnExactQuotient | src/rosetta_search/database.py:269 | where N is a multiple of df + 1, the as-written and the intended scores denote the same number |
| RosettaDatabase.RescoreKeepsTables | src/rosetta_search/database.py:315-316 | rewriting scores keeps the invariant and every tf-idf, both as written and as intended |
| RosettaDatabase.FirstUnscorable | src/rosetta_search/database.py:311-316 | the first row, from a given one on, whose score as written fails; every row before it scores |
| RosettaDatabase.RescoreRows | src/rosetta_search/database.py:309-317 | the pass as written: scores only change; the rows before the first unscorable one hold their score as written, the rest are untouched; it succeeds iff every row scores, and otherwise fails on `log2(0)` |
| RosettaDatabase.RescoreRowsOutcome | src/rosetta_search/database.py:309-317 | after the pass the invariant holds; it succeeds iff no row's token is linked to every file; a full pass leaves every score current |
| RosettaDatabase.EqualPairsEqualScores | src/rosetta_search/database.py:311-316 | after a full pass, rows sharing a (token, file) pair carry the same score |
| RosettaDatabase.CoversStep | src/rosetta_search/database.py:209-218 | the grouping loop keeps every path of a matching row covered |
| RosettaDatabase.GroupByPath | src/rosetta_search/database.py:209-218 | `GROUP BY f.filepath`: one matching row per path, no path twice, every path of a matching row present |
| RosettaDatabase.ScoreGroups | src/rosetta_search/database.py:223-227 | the result loop succeeds iff every grouped row scores as written, then pairs each path with its row's score in order; a failure is some row's failure |
| RosettaDatabase.FailingGroupSaturated | src/rosetta_search/database.py:225 | a grouped row that fails to score on created tables fails on `log2(0)`, and some matching row's token is linked to every file |
| RosettaDatabase.ScoredGroupsJustified | src/rosetta_search/database.py:224-227 | once every grouped row scores, each entry is a matching row's path with that row's score as written |
| RosettaDatabase.ScoredGroupsUnsaturated | src/rosetta_search/database.py:224-227 | once every grouped row scores, some matching row's token is not linked to every file |
| RosettaDatabase.EarliestIndex | src/rosetta_search/database.py:178 | `ORDER BY end_time LIMIT 1`: a row whose end time is minimal, and the first such |
| RosettaDatabase.LastIndexedRev | src/rosetta_search/database.py:173-188 | as written: no such table without tables; None iff the ledger is empty; else the end_rev of a row with the smallest end time |
| RosettaDatabase.WatermarkIgnoresLaterRecords | src/rosetta_search/database.py:178 | appending a row that ends no earlier than all others leaves the as-written result unchanged |
| RosettaDatabase.LatestIndex | src/rosetta_search/database.py:178 | a row whose end time is maximal, and the last such |
| RosettaDatabase.LatestIndexedRev | src/rosetta_search/database.py:173-188 | the intended watermark: as above but the end_rev of a row with the greatest end time |
| RosettaDatabase.AscendingWatermarkLags | src/rosetta_search/database.py:178 | a consistent two-run ledger where the query as written reports the first run's end_rev and the intended one the second's |
| RosettaDatabase.LatestWatermarkAdvances | src/rosetta_search/database.py:178 | with the intended ordering, the watermark moves to the row just appended |
| RosettaDatabase.Database.constructor | src/rosetta_search/database.py:13-16 | opening a database file keeps its rows and leaves the tables created |
| RosettaDatabase.Database.DbIsEmpty | src/rosetta_search/database.py:18-30 | true exactly when the `commits` table does not exist |
| RosettaDatabase.Database.IndexIsEmpty | src/rosetta_search/database.py:32-44 | no such table without tables; otherwise true iff `commits` has no rows |
| RosettaDatabase.Database.CreateTables | src/rosetta_search/database.py:121-171 | `CREATE TABLE IF NOT EXISTS`: the tables exist afterwards and no row changes |
| RosettaDatabase.Database.InsertIntoCommits | src/rosetta_search/database.py:46-66 | performs InsertCommit: on success the state is its result, on failure the error is returned and nothing changes; the invariant is kept |
| RosettaDatabase.Database.InsertIntoTokensFiles | src/rosetta_search/database.py:68-104 | performs InsertLinks, with the same success/failure split, keeping the invariant |
| RosettaDatabase.Database.InsertUpdate | src/rosetta_search/database.py:106-119 | performs MetaUpdate, with the same success/failure split, keeping the invariant |
| RosettaDatabase.Database.GetLastIndexedRev | src/rosetta_search/database.py:173-188 | answers LastIndexedRev of the current tables: the end_rev of the run that ends earliest |
| RosettaDatabase.Database.GetTfIdf | src/rosetta_search/database.py:255-283 | answers IntegerScoreFor of the current tables; on a consistent store it raises on `log2(0)` iff the token is linked to every file |
| RosettaDatabase.Database.GetVocabSize | src/rosetta_search/database.py:320-326 | no such table without tables; otherwise the number of token rows |
| RosettaDatabase.Database.GetAllTokens | src/rosetta_search/database.py:240-253 | no such table without tables; otherwise exactly one (id, string) pair per token row, no string twice |
| RosettaDatabase.Database.GetFilesForToken | src/rosetta_search/database.py:204-227 | no such table without tables; a failure is `log2(0)` and implies a matching row whose token is linked to every file; it succeeds when no matching row is, and fails when some row matches and all matching rows are; on success one entry per path (no path twice), each a matching row's path with that row's score as written, every matching path present |
| RosettaDatabase.Database.UpdateAllTfIdf | src/rosetta_search/database.py:285-318 | no such table without tables; only scores change; succeeds iff no row's token is linked to every file; otherwise fails on `log2(0)` at the first unscorable row, with the rows before it rescored and the rest untouched; after a full pass every row holds its pair's current score; the invariant is kept |
| RosettaIndexing.AbsorbCommits | src/rosetta_search/rosetta_index.py:20-22 | one iteration succeeds iff the tables exist and the hash is new; it then adds exactly the commit's row; a failure names the statement and changes nothing |
| RosettaIndexing.AbsorbConsistent | src/rosetta_search/rosetta_index.py:20-22 | one iteration keeps the store invariant |
| RosettaIndexing.AbsorbAllInvariant | src/rosetta_search/rosetta_index.py:17-22 | a walk keeps the invariant, never touches the ledger, and can only stop on a missing table or a repeated hash |
| RosettaIndexing.AbsorbAllCreated | src/rosetta_search/rosetta_index.py:17-22 | a walk never creates or drops the tables |
| RosettaIndexing.AbsorbAllRows | src/rosetta_search/rosetta_index.py:17-22 | a successful walk adds exactly one commit row per yielded commit, holding its normalised message, and keeps all earlier rows |
| RosettaIndexing.AbsorbAllSucceedsIff | src/rosetta_search/rosetta_index.py:17-22 | a walk succeeds iff it is empty or the tables exist, and every hash is new and yielded once |
| RosettaIndexing.AbsorbAllPrefix | src/rosetta_search/rosetta_index.py:17-22 | once a walk fails, later commits change nothing |
| RosettaIndexing.AbsorbAllFindsTables | src/rosetta_search/rosetta_index.py:34-39 | on created tables a walk never stops on a missing table |
| RosettaIndexing.RewalkFails | src/rosetta_search/rosetta_index.py:30-39 | a walk that yields a commit already indexed stops on the primary key of `commits` |
| RosettaIndexing.AsWrittenWatermarkStays | src/rosetta_search/rosetta_index.py:30 | as written, recording a run that ends last leaves `get_last_indexed_rev` where it was |
| RosettaIndexing.CorrectedWatermarkAdvances | src/rosetta_search/rosetta_index.py:30 | with the intended watermark, recording a run that ends last moves it to the run's head |
| RosettaIndexing.RosettaIndex.constructor | src/rosetta_search/rosetta_index.py:8-10 | keeps the repository, the store and the NLP collaborators |
| RosettaIndexing.RosettaIndex.Open | src/rosetta_search/rosetta_index.py:8-12 | raises "Index is empty" exactly when the file has no commit rows; otherwise a fresh index over the opened store |
| RosettaIndexing.RosettaIndex.IndexCommits | src/rosetta_search/rosetta_index.py:17-22 | the loop leaves the store and the error exactly as AbsorbAll says |
| RosettaIndexing.RosettaIndex.BuildIndex | src/rosetta_search/rosetta_index.py:14-27 | the walk over the whole history, then one ledger row (start_rev = last yielded commit, end_rev = head, the commit count); an empty history raises before the row |
| RosettaIndexing.RosettaIndex.UpdateIndex | src/rosetta_search/rosetta_index.py:29-44 | walks `"<watermark>..HEAD"` from the as-written watermark LastIndexedRev; a rejected range raises; no commits gives (0, end time) and no row; k commits gives one row with k and start_rev = last yielded, returning k |
| SemanticIndex.WalkCallsShape | semantic_search/index.py:30-35 | commit i causes exactly calls 2i (commit insert) and 2i + 1 (token-file insert), in order, and no other calls |
| SemanticIndex.WalkRecordsNothing | semantic_search/index.py:47-52 | the walk itself writes no run record |
| SemanticIndex.OpenCallsShape | semantic_search/index.py:15-24 | tables are created first; build or update runs, never both; at most one run record, exactly one when a commit was yielded; tf-idf is recomputed once, last, iff nothing raised |
| SemanticIndex.Index.Open | semantic_search/index.py:11-24 | the calls made are exactly OpenCalls, and the construction fails with exactly OpenError |
| SemanticIndex.Index.Walk | semantic_search/index.py:30-35 | the loop makes exactly WalkCalls |
| SemanticIndex.Index.BuildIndex | semantic_search/index.py:26-40 | the walk over the history, then one run record; an empty history leaves start_rev unbound and raises |
| SemanticIndex.Index.UpdateIndex | semantic_search/index.py:42-58 | walks `"<rev>..HEAD"`; a record only when a commit was yielded; a rejected range raises |
| FileResults.Compare | src/rosetta_search/file_result.py:22-30 | true iff more query tokens, or as many and a larger tf-idf sum; false for the mirror case; falls through exactly when both are equal |
| FileResults.CompareIrreflexive | src/rosetta_search/file_result.py:22-30 | `a > a` is never true |
| FileResults.CompareAsymmetric | src/rosetta_search/file_result.py:22-30 | `a > b` and `b > a` are never both true; `a > b` is true exactly when `b > a` is false |
| FileResults.CompareTransitive | src/rosetta_search/file_result.py:22-30 | the ordering is transitive |
| FileResults.CountDominates | src/rosetta_search/file_result.py:23-26 | more distinct query tokens win whatever the tf-idf |
| FileResults.FileResult.constructor | src/rosetta_search/file_result.py:5-8 | the path with no query and no matched tokens |
| FileResults.FileResult.Eq | src/rosetta_search/file_result.py:13-14 | equal exactly when the paths are equal |
| FileResults.FileResult.EqualHashAlike | src/rosetta_search/file_result.py:10-14 | equal results hash alike |
| FileResults.FileResult.AddMatchedToken | src/rosetta_search/file_result.py:16-17 | appends one entry; the query tokens stay; the tf-idf total grows by the token's tf-idf |
| FileResults.FileResult.AddQueryToken | src/rosetta_search/file_result.py:19-20 | set insertion: a repeated token leaves the rank unchanged; a new one raises the count by one |
| FileResults.FileResult.Gt | src/rosetta_search/file_result.py:22-30 | `__gt__` on the fields: the same three cases as Compare |
| InvertedIndex.AddSpec | commit_analyser/db_index.py:72-77 | `add(tokens, file)`: the keys become the old keys plus the tokens; each token's set gains `file`; every other key keeps its set |
| InvertedIndex.AddIdempotent | commit_analyser/db_index.py:72-77 | repeating the same `add` leaves the index unchanged |
| InvertedIndex.AddGrows | commit_analyser/db_index.py:72-77 | `add` removes no key and no file, and links every token to `file` |
| InvertedIndex.AddToFilesSpec | commit_analyser/db_index.py:48-49 | adding a commit's tokens for each of its files only grows the index and links every token to every file |
| InvertedIndex.WalkSpec | commit_analyser/index.py:28-32 | a walk only grows the index, and links every token of every walked commit to every file it touched |
| InvertedIndex.WalkAppend | commit_analyser/index.py:40-44 | walking a range after a walk is the walk over both: an update continues the build |
| InvertedIndex.Search | commit_analyser/index.py:56-60 | found exactly when the query is a key, holding that key's set |
| InvertedIndex.SearchAfterAdd | commit_analyser/index.py:48-60 | after `add`, every added token is found with `file`, and every other query answers as before |
| DbIndexing.NoteAllSpec | commit_analyser/db_index.py:48-53 | for distinct files, each file's entry gains " " + message, or becomes the message; no other entry changes |
| DbIndexing.FileToMessagesJoin | commit_analyser/db_index.py:48-53 | starting from no entries, a file has an entry iff some commit touched it, and the entry is those commits' messages, in order, joined by single spaces |
| DbIndexing.MessageIndexHoldsMessages | commit_analyser/db_index.py:45-47 | for distinct hashes, each commit's joined normalised message is stored under its hash |
| DbIndexing.WalksGrowIndex | commit_analyser/db_index.py:43-49 | both walks only grow the token index, and they build the same one |
| DbIndexing.UpdateKeepsFileMessages | commit_analyser/db_index.py:63-68 | the update walk never touches `file_to_messages` |
| DbIndexing.DbIndex.constructor | commit_analyser/db_index.py:21-31 | empty dictionaries and no stats for a bare repository; otherwise the build walk from empty, with head as the last indexed commit |
| DbIndexing.DbIndex.Add | commit_analyser/db_index.py:72-77 | the token index becomes InvertedIndex.Add of the old one; nothing else changes |
| DbIndexing.DbIndex.BuildIndex | commit_analyser/db_index.py:38-57 | the build walk over the history; last updated = start; build time = end − start; last indexed commit = head |
| DbIndexing.DbIndex.WalkRange | commit_analyser/db_index.py:63-68 | the update walk over the range, leaving stats and `file_to_messages` alone |
| DbIndexing.DbIndex.UpdateIndex | commit_analyser/db_index.py:59-70 | records the time; KeyError without a last indexed commit; a rejected range raises; otherwise the update walk over `"<last>..HEAD"`, `file_to_messages` unchanged, last indexed commit = head |
| CommitIndex.Index.constructor | commit_analyser/index.py:9-16 | nothing for a bare repository; otherwise the walk over the history from empty, the stats of a build, and the last yielded commit as the last indexed one |
| CommitIndex.Index.Add | commit_analyser/index.py:48-54 | every token of the tokenised message maps to a set containing `file`; other keys and existing members are unchanged |
| CommitIndex.Index.Search | commit_analyser/index.py:56-60 | the stored set when the query is a key, "No results found" otherwise |
| CommitIndex.Index.WalkCommits | commit_analyser/index.py:28-32 | the walk over the commits; the last indexed commit is the last one yielded, or unchanged when none |
| CommitIndex.Index.BuildIndex | commit_analyser/index.py:23-35 | the walk over the history, only growing the index; last indexed = last yielded; last updated = start, build time = end − start |
| CommitIndex.Index.UpdateIndex | commit_analyser/index.py:37-46 | KeyError without a last indexed commit; a rejected range raises; otherwise the walk over `"<last>..HEAD"`, the last indexed commit unchanged when none is yielded, then the time |
| CommitIndex.BuildThenUpdate | commit_analyser/index.py:31-44 | an update after a build indexes as one walk over the history and then the range, and only grows the index |
| SpacyIndex.NonStop | commit_analyser/spacy_similarity_index.py:78-80 | the positions of the non-stop tokens, increasing, and all of them |
| SpacyIndex.LemmasOfNonStopTokens | commit_analyser/spacy_similarity_index.py:75-81 | the lemmas are those of exactly the non-stop tokens, in order, never more than the tokens |
| SpacyIndex.ProcessMessage | commit_analyser/spacy_similarity_index.py:75-81 | the loop returns the lemmas of the non-stop tokens in order, never more than the tokens |
| SpacyIndex.Index.constructor | commit_analyser/spacy_similarity_index.py:11-18 | nothing for a bare repository; otherwise the lemma walk over the history from empty, with the stats of a build |
| SpacyIndex.Index.Add | commit_analyser/spacy_similarity_index.py:52-57 | `file` joins the set of every token; the keys grow by the tokens; nothing else changes |
| SpacyIndex.Index.Search | commit_analyser/spacy_similarity_index.py:59-68 | exactly one entry per query lemma, in order: the lemma's set, or "empty" when it is not a key |
| SpacyIndex.Index.WalkCommits | commit_analyser/spacy_similarity_index.py:30-35 | the lemma walk; the last indexed commit is the last one yielded, or unchanged when none |
| SpacyIndex.Index.BuildIndex | commit_analyser/spacy_similarity_index.py:25-38 | the lemma walk over the history, only growing the index, with the build's stats |
| SpacyIndex.Index.UpdateIndex | commit_analyser/spacy_similarity_index.py:40-50 | KeyError without a last indexed commit; a rejected range raises; otherwise the lemma walk over `"<last>..HEAD"`, the last indexed commit unchanged when none is yielded, then the time |

## Left out

- I/O: SQLite connections and commits, pickle `save_index`/`load_index`, tqdm, `print`, file paths (`normpath`, `repo_stub`, `db_location`). None of these affects the modelled state.
- Git is not modelled beyond its records: a repository is its bare flag, the head's hexsha, the history `iter_commits()` yields and a function for `iter_commits(range)`.
- NLTK, spaCy, gensim `remove_stopwords`, SQLite `LIKE`, `math.log2`, regex character classes and `hash` are uninterpreted parameters. `str.lower` is modelled over ASCII only.
- Floating point: tf-idf scores are kept as their exact counts; `FileResult` sums are exact reals.
- Timestamps are integers (the isoformat strings order like the instants they denote). `datetime.now()` and `time.time()` readings are parameters.
- uuid4 randomness: fresh ids come from a counter.
- SQLite leaves some row orders unspecified: the two id look-ups of `insert_into_tokens_files`, the rows of `get_all_tokens`, and which row `GROUP BY f.filepath` keeps in `get_files_for_token`. The model fixes one order for the look-ups, promises no order for `get_all_tokens`, and takes the first matching row per path.
- RosettaDatabase.Database.GetFilesForToken: when several rows of a path match, SQLite's bare-column choice may score a different one of them; the contract only promises the score of some matching row of that path.
- `Database.get_all_commits` returns a cursor over a closed connection; it is not modelled.
- `Database.get_last_updated` never returns its value and is not modelled. `RosettaIndex.search_index` calls a `Database.search` that does not exist, and `RosettaIndex.get_last_updated` only forwards to it; neither is modelled.
- RosettaIndexing.RosettaIndex.IndexCommits: a failure of the second insert of an iteration cannot happen after the first succeeded, so it is not checked.
- The `preprocess_message` that semantic_search/index.py imports comes from a module that is not part of this model; SemanticIndex.WalkCalls uses NlpUtils.PreprocessMessage of src/rosetta_search/nlp_utils.py in its place.
- semantic_search/database.py is not part of this model. The store of `semantic_search/index.py` is a log of calls, with `index_is_empty()` and `get_last_indexed_rev()` answers fixed when it is opened.
- The module-level `search` and `save_index` of commit_analyser/db_index.py are not modelled. They take `self` but are not methods, and `search` returns nothing on success.
- `process_query` in commit_analyser/spacy_similarity_index.py has the same body as `process_message`, so both are SpacyIndex.ProcessMessage. `search` as written hands the list `lemmas` to spaCy's `nlp` at line 61, which raises before the loop at lines 63-67; SpacyIndex.Index.Search models that loop and not the failing call. The constant `useful_token` is not modelled.
- DbIndexing.MessageIndexHoldsMessages assumes distinct commit hashes in one walk. With a repeated hash, the later commit's message overwrites the earlier one.
- `lemmatize` and `preprocess` of old_attempts/preprocess.py (spaCy and gensim), `remove_newlines` (it returns None) and the script body are not modelled.
- `FileResult.__eq__` with a non-`FileResult` argument (false by `isinstance`) cannot be expressed with a typed argument.
- Not part of the core: cli.py, utils.py, nlp_server.py, similarity_result.py, tinydb_index.py, get_commits.py, setup.py.
- Concurrency and locking: no code implements them.

## Findings

The `Database` and `RosettaIndex` classes follow the code as written; each corrected definition is proved beside them.

| source | as written | input that shows it | evidently intended | confidence | as-written member | corrected member |
|---|---|---|---|---|---|---|
| src/rosetta_search/database.py:178 | `ORDER BY end_time LIMIT 1` returns the end_rev of the EARLIEST run, so `update_index` keeps re-walking from the first run's head | a ledger with runs ending at 1 on "r1" and at 2 on "r2": the query reports "r1" | the end_rev of the most recent run (`ORDER BY end_time DESC`) | high, not executed | RosettaDatabase.LastIndexedRev, RosettaDatabase.AscendingWatermarkLags, RosettaIndexing.RewalkFails | RosettaDatabase.LatestIndexedRev, RosettaDatabase.LatestWatermarkAdvances |
| src/rosetta_search/database.py:269 | `(SELECT n from n) / ((SELECT df from df) + 1)` divides two integers, so the quotient is 0 whenever df + 1 > N, and `math.log2(0)` raises | one commit touching one file: N = 1, df = 1, the quotient 1/2 becomes 0 | the real quotient N/(df+1), which fails only when there are no files | medium, not executed | RosettaDatabase.IntegerScoreFor, RosettaDatabase.SingleFileIndexFailsAsWritten, RosettaDatabase.RescoreRowsOutcome | RosettaDatabase.ScoreFor, RosettaDatabase.LinkedPairsHaveScores |
