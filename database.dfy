/**
 * The SQLite store of src/rosetta_search/database.py. The six tables are state:
 * `commits` keyed by hash, `tokens` and `files` keyed by their UNIQUE string
 * column (each giving the row's id), and the link tables and the update ledger as
 * sequences of rows in insertion order. Fresh uuids come from the counter
 * `nextId`. `log2` is not modelled: a score is kept as the counts it is
 * computed from.
 */
module RosettaDatabase {
  import opened Wrappers
  import Git

  /** A `uuid4()` string; the model draws fresh ones from a counter. */
  type Id = nat

  datatype CommitRow = CommitRow(hash: string, datetime: string, message: string, author: string, additions: int, deletions: int)

  /** The tf-idf `tf * log2(n / (df + 1))` with real division, log2 left uninterpreted. */
  datatype Score = TfIdf(tf: nat, n: nat, df: nat)
  {
    /** The real number the score denotes, for a given log2. */
    function Value(log2: real -> real): real
    {
      tf as real * log2(n as real / (df + 1) as real)
    }
  }

  /** The tf-idf as the SQL query computes it: `tf * log2(quotient)` with an integer quotient. */
  datatype IntegerScore = IntegerTfIdf(tf: nat, quotient: nat)
  {
    function Value(log2: real -> real): real
    {
      tf as real * log2(quotient as real)
    }
  }

  /** One `tokens_files` row; `tf_idf_score` holds what the query as written computes. */
  datatype TokenFileRow = TokenFileRow(tokenFileId: Id, tokenId: Id, fileId: Id, score: Option<IntegerScore>)
  datatype CommitFileRow = CommitFileRow(commitFileId: Id, commitHash: string, fileId: Id)
  /** One `updates` row; times are the instants the isoformat strings denote. */
  datatype UpdateRow = UpdateRow(updateId: Id, startTime: int, endTime: int, startRev: string, endRev: string, numberOfCommits: int)

  /** `no such table` (OperationalError), a PRIMARY KEY violation (IntegrityError), `math.log2(0)` (ValueError). */
  datatype DbError = NoSuchTable | UniqueConstraint | MathDomainError

  /** The database file: whether `create_tables` has run, and the six tables. */
  datatype Tables = Tables(
    created: bool,
    commits: map<string, CommitRow>,
    tokens: map<string, Id>,
    files: map<string, Id>,
    tokensFiles: seq<TokenFileRow>,
    commitsFiles: seq<CommitFileRow>,
    updates: seq<UpdateRow>,
    nextId: Id)

  ghost predicate Injective(m: map<string, Id>)
  {
    forall a, b :: a in m && b in m && a != b ==> m[a] != m[b]
  }

  ghost predicate IdsBelow(m: map<string, Id>, n: Id)
  {
    forall k :: k in m ==> m[k] < n
  }

  /** Every `tokens_files` row links a existing token and file, with an id below `next`. */
  ghost predicate TokenLinksValid(rows: seq<TokenFileRow>, tokens: set<Id>, files: set<Id>, next: Id)
  {
    forall i :: 0 <= i < |rows| ==> rows[i].tokenId in tokens && rows[i].fileId in files && rows[i].tokenFileId < next
  }

  /** `tokens_files` ids increase along the table, so none repeats. */
  ghost predicate IdsIncrease(rows: seq<TokenFileRow>)
  {
    forall i, j :: 0 <= i < j < |rows| ==> rows[i].tokenFileId < rows[j].tokenFileId
  }

  ghost predicate CommitLinksValid(rows: seq<CommitFileRow>, files: set<Id>, next: Id)
  {
    forall i :: 0 <= i < |rows| ==> rows[i].fileId in files && rows[i].commitFileId < next
  }

  ghost predicate UpdatesBelow(us: seq<UpdateRow>, next: Id)
  {
    forall i :: 0 <= i < |us| ==> us[i].updateId < next
  }

  /** The invariant every database file reachable through this module satisfies. */
  ghost predicate Consistent(t: Tables)
  {
    && (!t.created ==>
          && t.commits == map[] && t.tokens == map[] && t.files == map[]
          && t.tokensFiles == [] && t.commitsFiles == [] && t.updates == [])
    && (forall h :: h in t.commits ==> t.commits[h].hash == h)
    && IdsBelow(t.tokens, t.nextId) && IdsBelow(t.files, t.nextId)
    && Injective(t.tokens) && Injective(t.files)
    && TokenLinksValid(t.tokensFiles, t.tokens.Values, t.files.Values, t.nextId)
    && IdsIncrease(t.tokensFiles)
    && CommitLinksValid(t.commitsFiles, t.files.Values, t.nextId)
    && UpdatesBelow(t.updates, t.nextId)
  }

  // ---------------------------------------------------------------- inserts

  /** `INSERT INTO commits ... VALUES (?,?,?,?,?,?)` for one commit and its normalised message. */
  function InsertCommit(t: Tables, c: Git.Commit, message: string): (r: Result<Tables, DbError>)
    ensures !t.created ==> r == Failure(NoSuchTable)
    ensures t.created && c.hexsha in t.commits ==> r == Failure(UniqueConstraint)
    ensures r.Success? ==> r.value.commits.Keys == t.commits.Keys + {c.hexsha} && c.hexsha !in t.commits
    ensures r.Success? ==> r.value == t.(commits := r.value.commits)
    ensures r.Success? ==> r.value.commits[c.hexsha] == CommitRow(c.hexsha, c.datetime, message, c.author, c.insertions, c.deletions)
  {
    if !t.created then Failure(NoSuchTable)
    else if c.hexsha in t.commits then Failure(UniqueConstraint)
    else Success(t.(commits := t.commits[c.hexsha := CommitRow(c.hexsha, c.datetime, message, c.author, c.insertions, c.deletions)]))
  }

  /**
   * `executemany("INSERT OR IGNORE INTO <table> (<id>, <unique column>) ...", [(uuid(), v) for v in values])`:
   * a value already present (also earlier in `values`) is ignored; one uuid is drawn per value.
   */
  function InsertOrIgnore(table: map<string, Id>, values: seq<string>, next: Id): (r: (map<string, Id>, Id))
    ensures r.0.Keys == table.Keys + set v | v in values
    ensures forall k :: k in table ==> r.0[k] == table[k]
    ensures forall k :: k in r.0 && k !in table ==> next <= r.0[k] < r.1
    ensures r.1 == next + |values|
    decreases |values|
  {
    if |values| == 0 then (table, next)
    else if values[0] in table then InsertOrIgnore(table, values[1..], next + 1)
    else InsertOrIgnore(table[values[0] := next], values[1..], next + 1)
  }

  /** Re-inserting values that are all present leaves the table as it is: INSERT OR IGNORE is a no-op, not an error. */
  lemma {:induction false} InsertOrIgnorePresent(table: map<string, Id>, values: seq<string>, next: Id)
    requires forall v :: v in values ==> v in table
    ensures InsertOrIgnore(table, values, next).0 == table
  {
    if |values| > 0 {
      assert values[0] in values;
      forall v | v in values[1..] ensures v in table { assert v in values; }
      InsertOrIgnorePresent(table, values[1..], next + 1);
    }
  }

  /** Inserting the same values twice gives the table of inserting them once: INSERT OR IGNORE is idempotent. */
  lemma InsertOrIgnoreIdempotent(table: map<string, Id>, values: seq<string>, next: Id, next': Id)
    ensures var once := InsertOrIgnore(table, values, next).0;
      InsertOrIgnore(once, values, next').0 == once
  {
    InsertOrIgnorePresent(InsertOrIgnore(table, values, next).0, values, next');
  }

  /** Values stay unique and ids stay below the counter across an INSERT OR IGNORE. */
  lemma {:induction false} InsertOrIgnoreInjective(table: map<string, Id>, values: seq<string>, next: Id)
    requires Injective(table) && IdsBelow(table, next)
    ensures Injective(InsertOrIgnore(table, values, next).0)
    ensures IdsBelow(InsertOrIgnore(table, values, next).0, next + |values|)
    decreases |values|, 1
  {
    if |values| > 0 {
      if values[0] in table {
        InsertOrIgnoreSkips(table, values, next);
      } else {
        InsertOrIgnoreAdds(table, values, next);
      }
    }
  }

  /** A value already present draws an id and is skipped. */
  lemma {:induction false} InsertOrIgnoreSkips(table: map<string, Id>, values: seq<string>, next: Id)
    requires Injective(table) && IdsBelow(table, next)
    requires |values| > 0 && values[0] in table
    ensures Injective(InsertOrIgnore(table, values, next).0)
    ensures IdsBelow(InsertOrIgnore(table, values, next).0, next + |values|)
    decreases |values|, 0
  {
    assert IdsBelow(table, next + 1) by {
      forall k | k in table ensures table[k] < next + 1 { }
    }
    InsertOrIgnoreInjective(table, values[1..], next + 1);
  }

  /** A new value gets the drawn id, above every id in use. */
  lemma {:induction false} InsertOrIgnoreAdds(table: map<string, Id>, values: seq<string>, next: Id)
    requires Injective(table) && IdsBelow(table, next)
    requires |values| > 0 && values[0] !in table
    ensures Injective(InsertOrIgnore(table, values, next).0)
    ensures IdsBelow(InsertOrIgnore(table, values, next).0, next + |values|)
    decreases |values|, 0
  {
    FreshKeyInjective(table, values[0], next);
    InsertOrIgnoreInjective(table[values[0] := next], values[1..], next + 1);
  }

  /** Giving a new key an id above every id in use keeps ids unique. */
  lemma FreshKeyInjective(table: map<string, Id>, v: string, next: Id)
    requires Injective(table) && v !in table && IdsBelow(table, next)
    ensures Injective(table[v := next]) && IdsBelow(table[v := next], next + 1)
  {
    var t1 := table[v := next];
    forall a, b | a in t1 && b in t1 && a != b ensures t1[a] != t1[b] {
      if a != v && b != v {
        assert t1[a] == table[a] && t1[b] == table[b];
      }
    }
  }

  /** The distinct elements of `s` (last occurrences, in order). */
  function Distinct(s: seq<string>): (r: seq<string>)
    ensures Git.NoDuplicates(r)
    ensures forall v :: v in r <==> v in s
  {
    if |s| == 0 then []
    else if s[0] in s[1..] then Distinct(s[1..])
    else [s[0]] + Distinct(s[1..])
  }

  /** `SELECT <id> FROM <table> WHERE <unique column> in (keys)`: one id per distinct key. */
  function IdsOf(table: map<string, Id>, keys: seq<string>): (ids: seq<Id>)
    requires forall k :: k in keys ==> k in table
    ensures |ids| == |keys|
    ensures forall i :: 0 <= i < |keys| ==> ids[i] == table[keys[i]]
  {
    seq(|keys|, i requires 0 <= i < |keys| => table[keys[i]])
  }

  /** The rows `(uuid(), tokenId, f)` for every `f` in `fileIds`, with consecutive fresh ids. */
  function RowsFor(tokenId: Id, fileIds: seq<Id>, next: Id): (rows: seq<TokenFileRow>)
    ensures |rows| == |fileIds|
    ensures forall k :: 0 <= k < |rows| ==> rows[k] == TokenFileRow(next + k, tokenId, fileIds[k], None)
  {
    if |fileIds| == 0 then [] else [TokenFileRow(next, tokenId, fileIds[0], None)] + RowsFor(tokenId, fileIds[1..], next + 1)
  }

  /** `[(uuid(), t, f) for t in token_ids for f in file_ids]`. */
  function Cross(tokenIds: seq<Id>, fileIds: seq<Id>, next: Id): (rows: seq<TokenFileRow>)
    ensures |rows| == |tokenIds| * |fileIds|
    ensures forall k :: 0 <= k < |rows| ==> next <= rows[k].tokenFileId < next + |rows|
    ensures forall k :: 0 <= k < |rows| ==> rows[k].tokenId in tokenIds && rows[k].fileId in fileIds && rows[k].score.None?
    ensures forall i, j :: 0 <= i < j < |rows| ==> rows[i].tokenFileId < rows[j].tokenFileId
    decreases |tokenIds|
  {
    if |tokenIds| == 0 then []
    else
      var rest := Cross(tokenIds[1..], fileIds, next + |fileIds|);
      assert |rest| == (|tokenIds| - 1) * |fileIds|;
      RowsFor(tokenIds[0], fileIds, next) + rest
  }

  /** `[(uuid(), commit.hexsha, f) for f in file_ids]`. */
  function CommitLinks(hash: string, fileIds: seq<Id>, next: Id): (rows: seq<CommitFileRow>)
    ensures |rows| == |fileIds|
    ensures forall k :: 0 <= k < |rows| ==> rows[k] == CommitFileRow(next + k, hash, fileIds[k])
  {
    seq(|fileIds|, k requires 0 <= k < |fileIds| => CommitFileRow(next + k, hash, fileIds[k]))
  }

  /** What one `insert_into_tokens_files` call writes: the new token and file tables, the looked-up ids and the new rows. */
  datatype LinkPlan = LinkPlan(
    files: map<string, Id>,
    tokens: map<string, Id>,
    fileIds: seq<Id>,
    tokenIds: seq<Id>,
    links: seq<TokenFileRow>,
    commitLinks: seq<CommitFileRow>,
    next: Id)

  /**
   * The statements of `insert_into_tokens_files(commit, tokens)` in order:
   * insert-or-ignore the changed files, look up their ids, insert-or-ignore the
   * tokens, look up their ids, then one `tokens_files` row per (token id, file
   * id) pair and one `commits_files` row per file id. SQLite promises no order
   * for the two look-ups; the model takes them in the order of `Distinct`.
   */
  function PlanLinks(t: Tables, c: Git.Commit, tokens: seq<string>): (p: LinkPlan)
  {
    var fileIns := InsertOrIgnore(t.files, c.files, t.nextId);
    var fileIds := IdsOf(fileIns.0, Distinct(c.files));
    var tokenIns := InsertOrIgnore(t.tokens, tokens, fileIns.1);
    var tokenIds := IdsOf(tokenIns.0, Distinct(tokens));
    var links := Cross(tokenIds, fileIds, tokenIns.1);
    var n3 := tokenIns.1 + |links|;
    LinkPlan(fileIns.0, tokenIns.0, fileIds, tokenIds, links, CommitLinks(c.hexsha, fileIds, n3), n3 + |fileIds|)
  }

  /** `insert_into_tokens_files(commit, tokens)`; it fails only when there are no tables. */
  function InsertLinks(t: Tables, c: Git.Commit, tokens: seq<string>): (r: Result<Tables, DbError>)
    ensures !t.created <==> r == Failure(NoSuchTable)
    ensures r.Success? ==> r.value.commits == t.commits && r.value.updates == t.updates && r.value.created
    ensures r.Success? ==> r.value.files.Keys == t.files.Keys + (set p | p in c.files)
    ensures r.Success? ==> r.value.tokens.Keys == t.tokens.Keys + (set w | w in tokens)
    ensures r.Success? ==> forall p :: p in t.files ==> r.value.files[p] == t.files[p]
    ensures r.Success? ==> forall w :: w in t.tokens ==> r.value.tokens[w] == t.tokens[w]
  {
    if !t.created then Failure(NoSuchTable)
    else
      var p := PlanLinks(t, c, tokens);
      Success(t.(
        files := p.files,
        tokens := p.tokens,
        tokensFiles := t.tokensFiles + p.links,
        commitsFiles := t.commitsFiles + p.commitLinks,
        nextId := p.next))
  }

  /** `meta_update(...)`: one `updates` row with a fresh id. */
  function MetaUpdate(t: Tables, startTime: int, endTime: int, startRev: string, endRev: string, n: int): (r: Result<Tables, DbError>)
    ensures !t.created <==> r == Failure(NoSuchTable)
    ensures r.Success? ==> r.value == t.(updates := t.updates + [UpdateRow(t.nextId, startTime, endTime, startRev, endRev, n)], nextId := t.nextId + 1)
  {
    if !t.created then Failure(NoSuchTable)
    else Success(t.(updates := t.updates + [UpdateRow(t.nextId, startTime, endTime, startRev, endRev, n)], nextId := t.nextId + 1))
  }

  // ---------------------------------------------------------------- the invariant is kept

  lemma IdsBelowMono(m: map<string, Id>, n: Id, n': Id)
    requires IdsBelow(m, n) && n <= n'
    ensures IdsBelow(m, n')
  {
  }

  lemma InsertCommitConsistent(t: Tables, c: Git.Commit, message: string)
    requires Consistent(t)
    ensures InsertCommit(t, c, message).Success? ==> Consistent(InsertCommit(t, c, message).value)
  {
  }

  lemma MetaUpdateConsistent(t: Tables, startTime: int, endTime: int, startRev: string, endRev: string, n: int)
    requires Consistent(t)
    ensures MetaUpdate(t, startTime, endTime, startRev, endRev, n).Success? ==>
      Consistent(MetaUpdate(t, startTime, endTime, startRev, endRev, n).value)
  {
    IdsBelowMono(t.tokens, t.nextId, t.nextId + 1);
    IdsBelowMono(t.files, t.nextId, t.nextId + 1);
  }

  /** A look-up through `IdsOf` yields an id that is a value of the table. */
  lemma IdsOfValues(table: map<string, Id>, keys: seq<string>)
    requires forall k :: k in keys ==> k in table
    ensures forall i :: 0 <= i < |keys| ==> IdsOf(table, keys)[i] in table.Values
  {
  }

  lemma TokenLinksAppend(a: seq<TokenFileRow>, b: seq<TokenFileRow>, tokens: set<Id>, files: set<Id>, n: Id,
                         tokens': set<Id>, files': set<Id>, n': Id)
    requires TokenLinksValid(a, tokens, files, n) && tokens <= tokens' && files <= files' && n <= n'
    requires TokenLinksValid(b, tokens', files', n')
    ensures TokenLinksValid(a + b, tokens', files', n')
  {
    forall i | 0 <= i < |a + b| ensures (a + b)[i].tokenId in tokens' && (a + b)[i].fileId in files' && (a + b)[i].tokenFileId < n' {
      if i >= |a| { assert (a + b)[i] == b[i - |a|]; }
    }
  }

  lemma IdsIncreaseAppend(a: seq<TokenFileRow>, b: seq<TokenFileRow>, n: Id)
    requires IdsIncrease(a) && IdsIncrease(b)
    requires forall i :: 0 <= i < |a| ==> a[i].tokenFileId < n
    requires forall i :: 0 <= i < |b| ==> n <= b[i].tokenFileId
    ensures IdsIncrease(a + b)
  {
    forall i, j | 0 <= i < j < |a + b| ensures (a + b)[i].tokenFileId < (a + b)[j].tokenFileId {
      if j >= |a| {
        assert (a + b)[j] == b[j - |a|];
        if i >= |a| { assert (a + b)[i] == b[i - |a|]; }
      }
    }
  }

  lemma CommitLinksAppend(a: seq<CommitFileRow>, b: seq<CommitFileRow>, files: set<Id>, n: Id, files': set<Id>, n': Id)
    requires CommitLinksValid(a, files, n) && files <= files' && n <= n'
    requires CommitLinksValid(b, files', n')
    ensures CommitLinksValid(a + b, files', n')
  {
    forall i | 0 <= i < |a + b| ensures (a + b)[i].fileId in files' && (a + b)[i].commitFileId < n' {
      if i >= |a| { assert (a + b)[i] == b[i - |a|]; }
    }
  }

  /** Entries kept by an insert keep their values. */
  lemma ValuesGrow(m: map<string, Id>, m': map<string, Id>)
    requires forall k :: k in m ==> k in m' && m'[k] == m[k]
    ensures m.Values <= m'.Values
  {
    forall v | v in m.Values ensures v in m'.Values {
      var k :| k in m && m[k] == v;
      assert m'[k] == v;
    }
  }

  lemma {:induction false} InsertLinksConsistent(t: Tables, c: Git.Commit, tokens: seq<string>)
    requires Consistent(t) && t.created
    ensures Consistent(InsertLinks(t, c, tokens).value)
  {
    var fileIns := InsertOrIgnore(t.files, c.files, t.nextId);
    InsertOrIgnoreInjective(t.files, c.files, t.nextId);
    IdsOfValues(fileIns.0, Distinct(c.files));
    IdsBelowMono(t.tokens, t.nextId, fileIns.1);
    var tokenIns := InsertOrIgnore(t.tokens, tokens, fileIns.1);
    InsertOrIgnoreInjective(t.tokens, tokens, fileIns.1);
    IdsOfValues(tokenIns.0, Distinct(tokens));
    var p := PlanLinks(t, c, tokens);
    var r := InsertLinks(t, c, tokens).value;
    assert p.files == fileIns.0 && p.tokens == tokenIns.0;
    ValuesGrow(t.files, p.files);
    ValuesGrow(t.tokens, p.tokens);
    IdsBelowMono(p.files, fileIns.1, p.next);
    IdsBelowMono(p.tokens, tokenIns.1, p.next);
    assert TokenLinksValid(p.links, p.tokens.Values, p.files.Values, p.next);
    TokenLinksAppend(t.tokensFiles, p.links, t.tokens.Values, t.files.Values, t.nextId, p.tokens.Values, p.files.Values, p.next);
    IdsIncreaseAppend(t.tokensFiles, p.links, t.nextId);
    assert CommitLinksValid(p.commitLinks, p.files.Values, p.next);
    CommitLinksAppend(t.commitsFiles, p.commitLinks, t.files.Values, t.nextId, p.files.Values, p.next);
  }

  /** A token string is among the looked-up ids exactly when it was among the inserted tokens. */
  lemma IdsOfMembership(table: map<string, Id>, values: seq<string>, w: string)
    requires Injective(table) && w in table
    requires forall k :: k in values ==> k in table
    ensures table[w] in IdsOf(table, Distinct(values)) <==> w in values
  {
    var keys := Distinct(values);
    var ids := IdsOf(table, keys);
    if table[w] in ids {
      var i :| 0 <= i < |ids| && ids[i] == table[w];
      assert table[keys[i]] == table[w];
      assert keys[i] == w;
    }
    if w in values {
      var i :| 0 <= i < |keys| && keys[i] == w;
      assert ids[i] == table[w];
    }
  }

  /**
   * The cross-product linkage of `insert_into_tokens_files`: for every token
   * string `w` and file path `p` in the new tables, the number of `tokens_files`
   * rows linking them grows by exactly one when `w` is among the commit's tokens
   * and `p` among its changed files, and by zero otherwise (repeated tokens
   * collapse).
   */
  lemma {:induction false} InsertLinksAddsCrossProduct(t: Tables, c: Git.Commit, tokens: seq<string>, w: string, p: string)
    requires Consistent(t) && t.created
    requires var r := InsertLinks(t, c, tokens).value; w in r.tokens && p in r.files
    ensures var r := InsertLinks(t, c, tokens).value;
      Tf(r.tokensFiles, r.tokens[w], r.files[p])
        == Tf(t.tokensFiles, r.tokens[w], r.files[p]) + (if w in tokens && p in c.files then 1 else 0)
  {
    var fileIns := InsertOrIgnore(t.files, c.files, t.nextId);
    InsertOrIgnoreInjective(t.files, c.files, t.nextId);
    IdsBelowMono(t.tokens, t.nextId, fileIns.1);
    var tokenIns := InsertOrIgnore(t.tokens, tokens, fileIns.1);
    InsertOrIgnoreInjective(t.tokens, tokens, fileIns.1);
    var plan := PlanLinks(t, c, tokens);
    var r := InsertLinks(t, c, tokens).value;
    assert plan.files == fileIns.0 && plan.tokens == tokenIns.0;
    IdsOfNoDuplicates(plan.files, Distinct(c.files));
    IdsOfNoDuplicates(plan.tokens, Distinct(tokens));
    IdsOfMembership(plan.files, c.files, p);
    IdsOfMembership(plan.tokens, tokens, w);
    TfAppend(t.tokensFiles, plan.links, plan.tokens[w], plan.files[p]);
    TfCross(plan.tokenIds, plan.fileIds, tokenIns.1, plan.tokens[w], plan.files[p]);
  }

  // ---------------------------------------------------------------- the three counts of the tf-idf query

  /** `tf`: `SELECT COUNT(token_id) FROM tokens_files WHERE token_id = :token_id and file_id = :file_id`. */
  function Tf(rows: seq<TokenFileRow>, tokenId: Id, fileId: Id): nat
  {
    if |rows| == 0 then 0
    else (if rows[0].tokenId == tokenId && rows[0].fileId == fileId then 1 else 0) + Tf(rows[1..], tokenId, fileId)
  }

  /** The distinct `file_id`s linked to a token (the groups of `... WHERE token_id = :token_id GROUP BY file_id`). */
  function LinkedFiles(rows: seq<TokenFileRow>, tokenId: Id): set<Id>
  {
    set i | 0 <= i < |rows| && rows[i].tokenId == tokenId :: rows[i].fileId
  }

  /** `df`: the number of those groups. */
  function Df(rows: seq<TokenFileRow>, tokenId: Id): nat
  {
    |LinkedFiles(rows, tokenId)|
  }

  /** Two row sequences that agree on every row's token and file (they may differ in ids and scores). */
  predicate SameLinks(a: seq<TokenFileRow>, b: seq<TokenFileRow>)
  {
    |a| == |b| && forall i :: 0 <= i < |a| ==> a[i].tokenId == b[i].tokenId && a[i].fileId == b[i].fileId
  }

  /** tf and df read only the token and file columns. */
  lemma {:induction false} SameLinksSameCounts(a: seq<TokenFileRow>, b: seq<TokenFileRow>, tokenId: Id, fileId: Id)
    requires SameLinks(a, b)
    ensures Tf(a, tokenId, fileId) == Tf(b, tokenId, fileId)
    ensures LinkedFiles(a, tokenId) == LinkedFiles(b, tokenId)
  {
    if |a| > 0 {
      SameLinksSameCounts(a[1..], b[1..], tokenId, fileId);
    }
  }

  lemma {:induction false} TfAppend(a: seq<TokenFileRow>, b: seq<TokenFileRow>, tokenId: Id, fileId: Id)
    ensures Tf(a + b, tokenId, fileId) == Tf(a, tokenId, fileId) + Tf(b, tokenId, fileId)
  {
    if |a| == 0 {
      assert a + b == b;
    } else {
      assert (a + b)[0] == a[0];
      assert (a + b)[1..] == a[1..] + b;
      TfAppend(a[1..], b, tokenId, fileId);
    }
  }

  lemma {:induction false} TfRowsFor(t: Id, fileIds: seq<Id>, next: Id, tokenId: Id, fileId: Id)
    requires Git.NoDuplicates(fileIds)
    ensures Tf(RowsFor(t, fileIds, next), tokenId, fileId) == if t == tokenId && fileId in fileIds then 1 else 0
  {
    if |fileIds| > 0 {
      var rows := RowsFor(t, fileIds, next);
      assert rows[1..] == RowsFor(t, fileIds[1..], next + 1);
      TfRowsFor(t, fileIds[1..], next + 1, tokenId, fileId);
      assert fileId in fileIds <==> fileId == fileIds[0] || fileId in fileIds[1..];
      assert fileIds[0] !in fileIds[1..];
    }
  }

  /** Each (token, file) pair of the cross product is linked by exactly one new row, and no other pair is. */
  lemma {:induction false} TfCross(tokenIds: seq<Id>, fileIds: seq<Id>, next: Id, tokenId: Id, fileId: Id)
    requires Git.NoDuplicates(tokenIds) && Git.NoDuplicates(fileIds)
    ensures Tf(Cross(tokenIds, fileIds, next), tokenId, fileId) == if tokenId in tokenIds && fileId in fileIds then 1 else 0
    decreases |tokenIds|
  {
    if |tokenIds| > 0 {
      var t0, tail := tokenIds[0], tokenIds[1..];
      var head := RowsFor(t0, fileIds, next);
      var rest := Cross(tail, fileIds, next + |fileIds|);
      assert Cross(tokenIds, fileIds, next) == head + rest;
      TfAppend(head, rest, tokenId, fileId);
      var total := Tf(head, tokenId, fileId) + Tf(rest, tokenId, fileId);
      assert Tf(Cross(tokenIds, fileIds, next), tokenId, fileId) == total;
      TfRowsFor(t0, fileIds, next, tokenId, fileId);
      Git.NoDuplicatesTail(tokenIds);
      TfCross(tail, fileIds, next + |fileIds|, tokenId, fileId);
      var here := fileId in fileIds;
      if tokenId == t0 {
        assert tokenIds[0] == tokenId;
        assert Tf(head, tokenId, fileId) == if here then 1 else 0;
        assert Tf(rest, tokenId, fileId) == 0;
        assert total == if here then 1 else 0;
      } else {
        assert Tf(head, tokenId, fileId) == 0;
        assert tokenId in tokenIds <==> tokenId in tail by {
          assert tokenIds == [t0] + tail;
        }
      }
    }
  }

  /** Ids looked up through an injective table for distinct keys are distinct. */
  lemma IdsOfNoDuplicates(table: map<string, Id>, keys: seq<string>)
    requires Injective(table) && Git.NoDuplicates(keys)
    requires forall k :: k in keys ==> k in table
    ensures Git.NoDuplicates(IdsOf(table, keys))
  {
  }

  /** Every subset of a finite set is at most as large. */
  lemma SubsetCard<T>(a: set<T>, b: set<T>)
    requires a <= b
    ensures |a| <= |b|
  {
    assert b == a + (b - a);
  }

  /** A map has no more distinct values than keys. */
  lemma {:induction false} ValuesCard(m: map<string, Id>)
    ensures |m.Values| <= |m.Keys|
    decreases |m.Keys|
  {
    if |m.Keys| > 0 {
      var k :| k in m.Keys;
      var m' := m - {k};
      assert m'.Keys == m.Keys - {k};
      ValuesCard(m');
      assert m.Values <= m'.Values + {m[k]} by {
        forall v | v in m.Values ensures v in m'.Values + {m[k]} {
          var j :| j in m && m[j] == v;
          if j != k { assert j in m'; }
        }
      }
      SubsetCard(m.Values, m'.Values + {m[k]});
    }
  }

  /** `df <= N`: a token is linked to at most every file row. */
  lemma DfAtMostN(t: Tables, tokenId: Id)
    requires Consistent(t)
    ensures Df(t.tokensFiles, tokenId) <= |t.files|
  {
    var linked := LinkedFiles(t.tokensFiles, tokenId);
    assert linked <= t.files.Values;
    SubsetCard(linked, t.files.Values);
    ValuesCard(t.files);
  }

  // ---------------------------------------------------------------- tf-idf

  /** The integer argument of `log`: SQLite divides the two integer counts. */
  function Quotient(n: nat, df: nat): nat
  {
    n / (df + 1)
  }

  /**
   * The tf-idf query of `get_tf_idf_for_token_file` and `update_all_tf_idf` as
   * written: `tf * log2(N / (df + 1))` where SQLite divides the integer counts,
   * failing when there are no tables or when `math.log2` is handed 0.
   */
  function IntegerScoreFor(t: Tables, tokenId: Id, fileId: Id): (r: Result<IntegerScore, DbError>)
    ensures !t.created <==> r == Failure(NoSuchTable)
    ensures r.Success? ==> r.value == IntegerTfIdf(Tf(t.tokensFiles, tokenId, fileId), Quotient(|t.files|, Df(t.tokensFiles, tokenId)))
    ensures t.created ==> (r == Failure(MathDomainError) <==> |t.files| < Df(t.tokensFiles, tokenId) + 1)
  {
    if !t.created then Failure(NoSuchTable)
    else
      var q := Quotient(|t.files|, Df(t.tokensFiles, tokenId));
      if q == 0 then Failure(MathDomainError) else Success(IntegerTfIdf(Tf(t.tokensFiles, tokenId, fileId), q))
  }

  /** As written, the quotient is 0, and the score fails, exactly when the token is linked to every file. */
  lemma IntegerScoreFailsIffLinkedToEveryFile(t: Tables, tokenId: Id, fileId: Id)
    requires Consistent(t) && t.created
    ensures IntegerScoreFor(t, tokenId, fileId) == Failure(MathDomainError) <==> Df(t.tokensFiles, tokenId) == |t.files|
  {
    DfAtMostN(t, tokenId);
  }

  /** As written, scoring every row succeeds exactly when no linked token is linked to every file. */
  lemma {:induction false} IntegerRescoreSucceedsIff(t: Tables)
    requires Consistent(t) && t.created
    ensures (forall i :: 0 <= i < |t.tokensFiles| ==> IntegerScoreFor(t, t.tokensFiles[i].tokenId, t.tokensFiles[i].fileId).Success?)
        <==> (forall i :: 0 <= i < |t.tokensFiles| ==> Df(t.tokensFiles, t.tokensFiles[i].tokenId) < |t.files|)
  {
    forall i | 0 <= i < |t.tokensFiles|
      ensures IntegerScoreFor(t, t.tokensFiles[i].tokenId, t.tokensFiles[i].fileId).Success?
          <==> Df(t.tokensFiles, t.tokensFiles[i].tokenId) < |t.files|
    {
      IntegerScoreFailsIffLinkedToEveryFile(t, t.tokensFiles[i].tokenId, t.tokensFiles[i].fileId);
    }
  }

  /**
   * The index of one commit touching one file: its one token is linked to every
   * file, so the query as written takes `log2(1 / 2) = log2(0)` and fails, while
   * the real quotient 1/2 gives a score.
   */
  lemma SingleFileIndexFailsAsWritten()
    ensures var t := Tables(true, map[], map["fix" := 0], map["a.py" := 1], [TokenFileRow(2, 0, 1, None)], [], [], 3);
      && Consistent(t)
      && IntegerScoreFor(t, 0, 1) == Failure(MathDomainError)
      && ScoreFor(t, 0, 1) == Success(TfIdf(1, 1, 1))
  {
    var t := Tables(true, map[], map["fix" := 0], map["a.py" := 1], [TokenFileRow(2, 0, 1, None)], [], [], 3);
    assert t.tokensFiles[0].fileId == 1;
    forall x | x in LinkedFiles(t.tokensFiles, 0)
      ensures x == 1
    {
    }
    assert LinkedFiles(t.tokensFiles, 0) == {1};
    assert Tf(t.tokensFiles, 0, 1) == 1 by {
      assert t.tokensFiles[1..] == [];
    }
  }

  /**
   * `get_tf_idf_for_token_file(token_id, file_id)` with the division the formula
   * intends: `tf * log2(N / (df + 1))` over the reals. It fails only when there
   * are no tables or no files, where log2 is handed 0.
   */
  function ScoreFor(t: Tables, tokenId: Id, fileId: Id): (r: Result<Score, DbError>)
    ensures !t.created <==> r == Failure(NoSuchTable)
    ensures t.created ==> (r == Failure(MathDomainError) <==> |t.files| == 0)
    ensures r.Success? ==> r.value == TfIdf(Tf(t.tokensFiles, tokenId, fileId), |t.files|, Df(t.tokensFiles, tokenId))
  {
    if !t.created then Failure(NoSuchTable)
    else if |t.files| == 0 then Failure(MathDomainError)
    else Success(TfIdf(Tf(t.tokensFiles, tokenId, fileId), |t.files|, Df(t.tokensFiles, tokenId)))
  }

  /** Every linked (token, file) pair of consistent tables has a score: its file exists. */
  lemma LinkedPairsHaveScores(t: Tables, i: nat)
    requires Consistent(t) && t.created && i < |t.tokensFiles|
    ensures ScoreFor(t, t.tokensFiles[i].tokenId, t.tokensFiles[i].fileId).Success?
  {
    assert t.tokensFiles[i].fileId in t.files.Values;
  }

  /** Where the integer quotient is exact, the query as written gives the intended value. */
  lemma ScoresAgreeOnExactQuotient(t: Tables, tokenId: Id, fileId: Id, log2: real -> real)
    requires t.created && |t.files| > 0
    requires |t.files| % (Df(t.tokensFiles, tokenId) + 1) == 0
    requires Quotient(|t.files|, Df(t.tokensFiles, tokenId)) > 0
    ensures IntegerScoreFor(t, tokenId, fileId).Success? && ScoreFor(t, tokenId, fileId).Success?
    ensures IntegerScoreFor(t, tokenId, fileId).value.Value(log2) == ScoreFor(t, tokenId, fileId).value.Value(log2)
  {
    var n, d := |t.files|, Df(t.tokensFiles, tokenId) + 1;
    var q := n / d;
    assert n == q * d;
    assert n as real == q as real * d as real;
    assert n as real / d as real == q as real;
  }

  /** `row` holds the score the query as written gives its (token, file) pair on `t`. */
  ghost predicate Rescored(t: Tables, row: TokenFileRow)
  {
    IntegerScoreFor(t, row.tokenId, row.fileId).Success? && row.score == Some(IntegerScoreFor(t, row.tokenId, row.fileId).value)
  }

  /**
   * The first row at or after `i` whose tf-idf the query as written cannot
   * compute, or the number of rows when every one of them can be scored.
   */
  function FirstUnscorable(t: Tables, i: nat): (k: nat)
    requires i <= |t.tokensFiles|
    ensures i <= k <= |t.tokensFiles|
    ensures forall j :: i <= j < k ==> IntegerScoreFor(t, t.tokensFiles[j].tokenId, t.tokensFiles[j].fileId).Success?
    ensures k < |t.tokensFiles| ==> IntegerScoreFor(t, t.tokensFiles[k].tokenId, t.tokensFiles[k].fileId).Failure?
    decreases |t.tokensFiles| - i
  {
    if i == |t.tokensFiles| || IntegerScoreFor(t, t.tokensFiles[i].tokenId, t.tokensFiles[i].fileId).Failure? then i
    else FirstUnscorable(t, i + 1)
  }

  /** `a` is `b` with possibly different scores: same rows, same ids, same links. */
  predicate ScoresOnlyDiffer(a: seq<TokenFileRow>, b: seq<TokenFileRow>)
  {
    |a| == |b| && forall j :: 0 <= j < |a| ==> a[j] == b[j].(score := a[j].score)
  }

  /** Sequences that agree from position `k` on have equal suffixes from `k`. */
  lemma SameSuffix<T>(a: seq<T>, b: seq<T>, k: nat)
    requires |a| == |b| && k <= |a|
    requires forall j :: k <= j < |a| ==> a[j] == b[j]
    ensures a[k..] == b[k..]
  {
    assert forall j :: 0 <= j < |a| - k ==> a[k..][j] == a[k + j] && b[k..][j] == b[k + j];
  }

  /** Rewriting scores keeps the tables consistent and leaves every tf-idf as it was. */
  lemma RescoreKeepsTables(t: Tables, rows: seq<TokenFileRow>, tokenId: Id, fileId: Id)
    requires Consistent(t) && ScoresOnlyDiffer(rows, t.tokensFiles)
    ensures SameLinks(rows, t.tokensFiles)
    ensures Consistent(t.(tokensFiles := rows))
    ensures ScoreFor(t.(tokensFiles := rows), tokenId, fileId) == ScoreFor(t, tokenId, fileId)
    ensures IntegerScoreFor(t.(tokensFiles := rows), tokenId, fileId) == IntegerScoreFor(t, tokenId, fileId)
  {
    assert forall j :: 0 <= j < |rows| ==> rows[j].tokenId == t.tokensFiles[j].tokenId && rows[j].fileId == t.tokensFiles[j].fileId && rows[j].tokenFileId == t.tokensFiles[j].tokenFileId;
    SameLinksSameCounts(rows, t.tokensFiles, tokenId, fileId);
  }

  /** After a full rescoring pass every row holds the score of its (token, file) pair on the table as it is. */
  ghost predicate ScoresCurrent(t: Tables)
  {
    forall i :: 0 <= i < |t.tokensFiles| ==> Rescored(t, t.tokensFiles[i])
  }

  /** Rows sharing a (token, file) pair carry equal scores once the scores are current. */
  lemma EqualPairsEqualScores(t: Tables, i: nat, j: nat)
    requires ScoresCurrent(t)
    requires i < |t.tokensFiles| && j < |t.tokensFiles|
    requires t.tokensFiles[i].tokenId == t.tokensFiles[j].tokenId && t.tokensFiles[i].fileId == t.tokensFiles[j].fileId
    ensures t.tokensFiles[i].score == t.tokensFiles[j].score
  {
  }

  /**
   * The loop of `update_all_tf_idf()` on the tables `t`: for each row in turn,
   * its tf-idf with the query as written on the tables as they are by then is
   * written into its `tf_idf_score`. The first row whose score raises stops the
   * pass, with the earlier rows already rewritten and the later ones untouched.
   */
  method RescoreRows(t: Tables) returns (rows: seq<TokenFileRow>, out: Outcome<DbError>)
    requires Consistent(t) && t.created
    ensures ScoresOnlyDiffer(rows, t.tokensFiles)
    ensures var k := FirstUnscorable(t, 0);
      && (out == Pass <==> k == |t.tokensFiles|)
      && (out != Pass ==> out == Fail(MathDomainError))
      && (forall j :: 0 <= j < k ==> Rescored(t, rows[j]))
      && rows[k..] == t.tokensFiles[k..]
  {
    rows := t.tokensFiles;
    var i := 0;
    while i < |rows|
      invariant 0 <= i <= |rows|
      invariant i <= FirstUnscorable(t, 0)
      invariant ScoresOnlyDiffer(rows, t.tokensFiles)
      invariant forall j :: i <= j < |rows| ==> rows[j] == t.tokensFiles[j]
      invariant forall j :: 0 <= j < i ==> Rescored(t, rows[j])
    {
      var row := rows[i];
      assert row == t.tokensFiles[i];
      RescoreKeepsTables(t, rows, row.tokenId, row.fileId);
      var score := IntegerScoreFor(t.(tokensFiles := rows), row.tokenId, row.fileId);
      if score.Failure? {
        SameSuffix(rows, t.tokensFiles, i);
        return rows, Fail(score.error);
      }
      assert i != FirstUnscorable(t, 0) by {
        assert IntegerScoreFor(t, t.tokensFiles[i].tokenId, t.tokensFiles[i].fileId).Success?;
      }
      rows := rows[i := row.(score := Some(score.value))];
      i := i + 1;
    }
    return rows, Pass;
  }

  /** What a rescoring pass leaves: consistent tables, success exactly when no linked token is linked to every file, and current scores after a full pass. */
  lemma RescoreRowsOutcome(t: Tables, rows: seq<TokenFileRow>, out: Outcome<DbError>)
    requires Consistent(t) && t.created
    requires ScoresOnlyDiffer(rows, t.tokensFiles)
    requires var k := FirstUnscorable(t, 0);
      && (out == Pass <==> k == |t.tokensFiles|)
      && (forall j :: 0 <= j < k ==> Rescored(t, rows[j]))
    ensures Consistent(t.(tokensFiles := rows))
    ensures out == Pass <==> forall i :: 0 <= i < |t.tokensFiles| ==> Df(t.tokensFiles, t.tokensFiles[i].tokenId) < |t.files|
    ensures out == Pass ==> ScoresCurrent(t.(tokensFiles := rows))
  {
    IntegerRescoreSucceedsIff(t);
    RescoreKeepsTables(t, rows, 0, 0);
    if out == Pass {
      forall j | 0 <= j < |rows|
        ensures Rescored(t.(tokensFiles := rows), rows[j])
      {
        RescoreKeepsTables(t, rows, rows[j].tokenId, rows[j].fileId);
      }
    } else {
      var k := FirstUnscorable(t, 0);
      assert IntegerScoreFor(t, t.tokensFiles[k].tokenId, t.tokensFiles[k].fileId).Failure?;
    }
  }

  // ---------------------------------------------------------------- token lookup

  /** Row `i` of `tokens_files` links the token `w`, which matches `pattern` under `like`, to the file `path`. */
  ghost predicate Matches(t: Tables, like: (string, string) -> bool, pattern: string, i: int, w: string, path: string)
  {
    && 0 <= i < |t.tokensFiles|
    && w in t.tokens && t.tokens[w] == t.tokensFiles[i].tokenId && like(w, pattern)
    && path in t.files && t.files[path] == t.tokensFiles[i].fileId
  }

  /** `group` is the path of a matching row together with that row. */
  ghost predicate Grouped(t: Tables, like: (string, string) -> bool, pattern: string, group: (string, TokenFileRow))
  {
    exists i, w :: Matches(t, like, pattern, i, w, group.0) && t.tokensFiles[i] == group.1
  }

  /** `entry` is the path of a matching row together with that row's tf-idf as the query as written computes it. */
  ghost predicate Justified(t: Tables, like: (string, string) -> bool, pattern: string, entry: (string, IntegerScore))
  {
    exists i, w :: Matches(t, like, pattern, i, w, entry.0) && IntegerScoreFor(t, t.tokensFiles[i].tokenId, t.tokensFiles[i].fileId) == Success(entry.1)
  }

  /** Row `i` matches, and its token is linked to every file, so the query as written cannot score it. */
  ghost predicate MatchesSaturated(t: Tables, like: (string, string) -> bool, pattern: string, i: int, w: string, path: string)
  {
    Matches(t, like, pattern, i, w, path) && Df(t.tokensFiles, t.tokensFiles[i].tokenId) == |t.files|
  }

  /** Every path of a matching row among the first `bound` rows has an entry. */
  ghost predicate Covers<E>(t: Tables, like: (string, string) -> bool, pattern: string, entries: seq<(string, E)>, bound: int)
  {
    forall j, w, path :: Matches(t, like, pattern, j, w, path) && j < bound ==> exists k :: 0 <= k < |entries| && entries[k].0 == path
  }

  /** Row `i` either was covered through its path already or is covered by the entry now appended for it. */
  lemma CoversStep<E>(t: Tables, like: (string, string) -> bool, pattern: string, prior: seq<(string, E)>, entries: seq<(string, E)>, i: nat, w: string, path: string)
    requires Consistent(t) && i < |t.tokensFiles| && Covers(t, like, pattern, prior, i)
    requires w in t.tokens && t.tokens[w] == t.tokensFiles[i].tokenId
    requires path in t.files && t.files[path] == t.tokensFiles[i].fileId
    requires |prior| <= |entries| && entries[..|prior|] == prior
    requires like(w, pattern) ==> exists k :: 0 <= k < |entries| && entries[k].0 == path
    ensures Covers(t, like, pattern, entries, i + 1)
  {
    forall j, w', path' | Matches(t, like, pattern, j, w', path') && j < i + 1
      ensures exists k :: 0 <= k < |entries| && entries[k].0 == path'
    {
      if j == i {
        assert w' == w by { assert t.tokens[w'] == t.tokens[w]; }
        assert path' == path by { assert t.files[path'] == t.files[path]; }
      } else {
        var k :| 0 <= k < |prior| && prior[k].0 == path';
        assert entries[k] == prior[k];
      }
    }
  }

  /**
   * The grouped join of `get_files_for_token` on the tables `t`: the rows of
   * `tokens_files` in order, keeping the first matching row of each path.
   */
  method GroupByPath(t: Tables, like: (string, string) -> bool, pattern: string) returns (groups: seq<(string, TokenFileRow)>)
    requires Consistent(t)
    ensures forall k, m :: 0 <= k < m < |groups| ==> groups[k].0 != groups[m].0
    ensures forall k :: 0 <= k < |groups| ==> Grouped(t, like, pattern, groups[k])
    ensures Covers(t, like, pattern, groups, |t.tokensFiles|)
  {
    groups := [];
    var i := 0;
    while i < |t.tokensFiles|
      invariant 0 <= i <= |t.tokensFiles|
      invariant forall k, m :: 0 <= k < m < |groups| ==> groups[k].0 != groups[m].0
      invariant forall k :: 0 <= k < |groups| ==> Grouped(t, like, pattern, groups[k])
      invariant Covers(t, like, pattern, groups, i)
    {
      var row := t.tokensFiles[i];
      assert row.tokenId in t.tokens.Values && row.fileId in t.files.Values;
      var w :| w in t.tokens && t.tokens[w] == row.tokenId;
      var path :| path in t.files && t.files[path] == row.fileId;
      ghost var prior := groups;
      if like(w, pattern) && (forall k :: 0 <= k < |groups| ==> groups[k].0 != path) {
        assert Matches(t, like, pattern, i, w, path);
        groups := groups + [(path, row)];
        assert groups[..|prior|] == prior;
        assert groups[|prior|].0 == path;
      }
      CoversStep(t, like, pattern, prior, groups, i, w, path);
      i := i + 1;
    }
  }

  /**
   * The loop of `get_files_for_token` over the grouped rows: each row's tf-idf
   * with the query as written, the first failing computation propagating.
   */
  method ScoreGroups(t: Tables, groups: seq<(string, TokenFileRow)>) returns (r: Result<seq<(string, IntegerScore)>, DbError>)
    ensures r.Success? <==> forall k :: 0 <= k < |groups| ==> IntegerScoreFor(t, groups[k].1.tokenId, groups[k].1.fileId).Success?
    ensures r.Failure? ==> exists k :: 0 <= k < |groups| && IntegerScoreFor(t, groups[k].1.tokenId, groups[k].1.fileId) == Failure(r.error)
    ensures r.Success? ==> |r.value| == |groups|
    ensures r.Success? ==> forall k :: 0 <= k < |groups| ==>
      r.value[k] == (groups[k].0, IntegerScoreFor(t, groups[k].1.tokenId, groups[k].1.fileId).value)
  {
    var files: seq<(string, IntegerScore)> := [];
    var i := 0;
    while i < |groups|
      invariant 0 <= i <= |groups| && |files| == i
      invariant forall k :: 0 <= k < i ==> IntegerScoreFor(t, groups[k].1.tokenId, groups[k].1.fileId).Success?
      invariant forall k :: 0 <= k < i ==> files[k] == (groups[k].0, IntegerScoreFor(t, groups[k].1.tokenId, groups[k].1.fileId).value)
    {
      var score := IntegerScoreFor(t, groups[i].1.tokenId, groups[i].1.fileId);
      if score.Failure? {
        return Failure(score.error);
      }
      files := files + [(groups[i].0, score.value)];
      i := i + 1;
    }
    return Success(files);
  }

  /** A grouped row whose score fails on created tables raises `log2(0)`: its token is linked to every file. */
  lemma FailingGroupSaturated(t: Tables, like: (string, string) -> bool, pattern: string, groups: seq<(string, TokenFileRow)>, e: DbError)
    requires Consistent(t) && t.created
    requires forall k :: 0 <= k < |groups| ==> Grouped(t, like, pattern, groups[k])
    requires exists k :: 0 <= k < |groups| && IntegerScoreFor(t, groups[k].1.tokenId, groups[k].1.fileId) == Failure(e)
    ensures e == MathDomainError
    ensures exists i, w, path :: MatchesSaturated(t, like, pattern, i, w, path)
  {
    var k :| 0 <= k < |groups| && IntegerScoreFor(t, groups[k].1.tokenId, groups[k].1.fileId) == Failure(e);
    assert Grouped(t, like, pattern, groups[k]);
    var i, w :| Matches(t, like, pattern, i, w, groups[k].0) && t.tokensFiles[i] == groups[k].1;
    IntegerScoreFailsIffLinkedToEveryFile(t, groups[k].1.tokenId, groups[k].1.fileId);
    assert MatchesSaturated(t, like, pattern, i, w, groups[k].0);
  }

  /** When every grouped row scores, each scored entry is the path of a matching row with that row's score. */
  lemma ScoredGroupsJustified(t: Tables, like: (string, string) -> bool, pattern: string, groups: seq<(string, TokenFileRow)>, entries: seq<(string, IntegerScore)>)
    requires forall k :: 0 <= k < |groups| ==> Grouped(t, like, pattern, groups[k])
    requires |entries| == |groups|
    requires forall k :: 0 <= k < |groups| ==> IntegerScoreFor(t, groups[k].1.tokenId, groups[k].1.fileId).Success?
    requires forall k :: 0 <= k < |groups| ==> entries[k] == (groups[k].0, IntegerScoreFor(t, groups[k].1.tokenId, groups[k].1.fileId).value)
    ensures forall k :: 0 <= k < |entries| ==> Justified(t, like, pattern, entries[k])
  {
    forall k | 0 <= k < |entries|
      ensures Justified(t, like, pattern, entries[k])
    {
      assert Grouped(t, like, pattern, groups[k]);
      var i, w :| Matches(t, like, pattern, i, w, groups[k].0) && t.tokensFiles[i] == groups[k].1;
      assert entries[k] == (groups[k].0, IntegerScoreFor(t, t.tokensFiles[i].tokenId, t.tokensFiles[i].fileId).value);
    }
  }

  /** When every grouped row scores and some row matches, some matching row is not saturated. */
  lemma ScoredGroupsUnsaturated(t: Tables, like: (string, string) -> bool, pattern: string, groups: seq<(string, TokenFileRow)>, i: int, w: string, path: string)
    requires Consistent(t) && t.created
    requires forall k :: 0 <= k < |groups| ==> Grouped(t, like, pattern, groups[k])
    requires Covers(t, like, pattern, groups, |t.tokensFiles|)
    requires forall k :: 0 <= k < |groups| ==> IntegerScoreFor(t, groups[k].1.tokenId, groups[k].1.fileId).Success?
    requires Matches(t, like, pattern, i, w, path)
    ensures exists i', w', path' :: Matches(t, like, pattern, i', w', path') && !MatchesSaturated(t, like, pattern, i', w', path')
  {
    var k :| 0 <= k < |groups| && groups[k].0 == path;
    assert Grouped(t, like, pattern, groups[k]);
    var i', w' :| Matches(t, like, pattern, i', w', groups[k].0) && t.tokensFiles[i'] == groups[k].1;
    IntegerScoreFailsIffLinkedToEveryFile(t, groups[k].1.tokenId, groups[k].1.fileId);
    assert !MatchesSaturated(t, like, pattern, i', w', groups[k].0);
  }

  /** Scored entries that keep the grouped paths, position by position, cover what the groups covered. */
  lemma GroupCoversPaths(t: Tables, like: (string, string) -> bool, pattern: string, groups: seq<(string, TokenFileRow)>, entries: seq<(string, IntegerScore)>)
    requires |entries| == |groups| && forall k :: 0 <= k < |groups| ==> entries[k].0 == groups[k].0
    requires Covers(t, like, pattern, groups, |t.tokensFiles|)
    ensures Covers(t, like, pattern, entries, |t.tokensFiles|)
  {
    forall j, w, path | Matches(t, like, pattern, j, w, path) && j < |t.tokensFiles|
      ensures exists k :: 0 <= k < |entries| && entries[k].0 == path
    {
      var k :| 0 <= k < |groups| && groups[k].0 == path;
      assert entries[k].0 == path;
    }
  }

  // ---------------------------------------------------------------- the update ledger

  /** The position of the first row with the smallest `end_time` (`ORDER BY end_time LIMIT 1`). */
  function EarliestIndex(us: seq<UpdateRow>): (k: nat)
    requires |us| > 0
    ensures k < |us|
    ensures forall j :: 0 <= j < |us| ==> us[k].endTime <= us[j].endTime
    ensures forall j :: 0 <= j < k ==> us[j].endTime > us[k].endTime
  {
    if |us| == 1 then 0
    else
      var k := EarliestIndex(us[..|us| - 1]);
      if us[|us| - 1].endTime < us[k].endTime then |us| - 1 else k
  }

  /**
   * `get_last_indexed_rev()`: None for an empty ledger, otherwise the `end_rev`
   * of the row that ends EARLIEST, because the query sorts ascending.
   */
  function LastIndexedRev(t: Tables): (r: Result<Option<string>, DbError>)
    ensures !t.created <==> r == Failure(NoSuchTable)
    ensures r == Success(None) <==> t.created && |t.updates| == 0
    ensures r.Success? && r.value.Some? ==>
      exists k :: 0 <= k < |t.updates| && t.updates[k].endRev == r.value.value
        && forall j :: 0 <= j < |t.updates| ==> t.updates[k].endTime <= t.updates[j].endTime
  {
    if !t.created then Failure(NoSuchTable)
    else if |t.updates| == 0 then Success(None)
    else Success(Some(t.updates[EarliestIndex(t.updates)].endRev))
  }

  /** A record that ends no earlier than every record already there leaves the result unchanged. */
  lemma WatermarkIgnoresLaterRecords(t: Tables, u: UpdateRow)
    requires t.created && |t.updates| > 0
    requires forall j :: 0 <= j < |t.updates| ==> t.updates[j].endTime <= u.endTime
    ensures LastIndexedRev(t.(updates := t.updates + [u])) == LastIndexedRev(t)
  {
    assert (t.updates + [u])[..|t.updates|] == t.updates;
  }

  /** The position of the last row with the greatest `end_time` (`ORDER BY end_time DESC LIMIT 1`). */
  function LatestIndex(us: seq<UpdateRow>): (k: nat)
    requires |us| > 0
    ensures k < |us|
    ensures forall j :: 0 <= j < |us| ==> us[j].endTime <= us[k].endTime
    ensures forall j :: k < j < |us| ==> us[j].endTime < us[k].endTime
  {
    if |us| == 1 then 0
    else
      var k := LatestIndex(us[..|us| - 1]);
      if us[|us| - 1].endTime >= us[k].endTime then |us| - 1 else k
  }

  /** The watermark as the ledger intends it: the `end_rev` of the most recently completed run. */
  function LatestIndexedRev(t: Tables): (r: Result<Option<string>, DbError>)
    ensures !t.created <==> r == Failure(NoSuchTable)
    ensures r == Success(None) <==> t.created && |t.updates| == 0
    ensures r.Success? && r.value.Some? ==>
      exists k :: 0 <= k < |t.updates| && t.updates[k].endRev == r.value.value
        && forall j :: 0 <= j < |t.updates| ==> t.updates[j].endTime <= t.updates[k].endTime
  {
    if !t.created then Failure(NoSuchTable)
    else if |t.updates| == 0 then Success(None)
    else Success(Some(t.updates[LatestIndex(t.updates)].endRev))
  }

  /**
   * After a build ending at time 1 on revision "r1" and an update ending at time
   * 2 on "r2", the query as written still reports "r1", so the next update
   * starts from "r1" again; the intended watermark is "r2".
   */
  lemma AscendingWatermarkLags()
    ensures var t := Tables(true, map[], map[], map[], [], [], [UpdateRow(0, 0, 1, "r0", "r1", 1), UpdateRow(1, 1, 2, "r1", "r2", 1)], 2);
      && Consistent(t)
      && LastIndexedRev(t) == Success(Some("r1"))
      && LatestIndexedRev(t) == Success(Some("r2"))
  {
    var us := [UpdateRow(0, 0, 1, "r0", "r1", 1), UpdateRow(1, 1, 2, "r1", "r2", 1)];
    assert us[..1] == [us[0]];
  }

  /** With the intended ordering, the watermark moves to the record just appended. */
  lemma LatestWatermarkAdvances(t: Tables, u: UpdateRow)
    requires t.created
    requires forall j :: 0 <= j < |t.updates| ==> t.updates[j].endTime <= u.endTime
    ensures LatestIndexedRev(t.(updates := t.updates + [u])) == Success(Some(u.endRev))
  {
    if |t.updates| > 0 {
      assert (t.updates + [u])[..|t.updates|] == t.updates;
    }
  }

  // ---------------------------------------------------------------- the Database object

  /** `Database`: the tables of one database file, changed in place by the SQL statements. */
  class Database {
    var created: bool
    var commits: map<string, CommitRow>
    var tokens: map<string, Id>
    var files: map<string, Id>
    var tokensFiles: seq<TokenFileRow>
    var commitsFiles: seq<CommitFileRow>
    var updates: seq<UpdateRow>
    var nextId: Id

    /** The tables as one value. */
    function State(): Tables
      reads this
    {
      Tables(created, commits, tokens, files, tokensFiles, commitsFiles, updates, nextId)
    }

    ghost predicate Valid()
      reads this
    {
      Consistent(State())
    }

    /** Overwrites every table with those of `t`. */
    method Store(t: Tables)
      modifies this
      ensures State() == t
    {
      created, commits, tokens, files := t.created, t.commits, t.tokens, t.files;
      tokensFiles, commitsFiles, updates, nextId := t.tokensFiles, t.commitsFiles, t.updates, t.nextId;
    }

    /**
     * `Database(db_path)` on the file `file`: the tables are created when the
     * `commits` table is missing or has no rows.
     */
    constructor (file: Tables)
      requires Consistent(file)
      ensures Valid()
      ensures State() == file.(created := true)
    {
      created, commits, tokens, files := file.created, file.commits, file.tokens, file.files;
      tokensFiles, commitsFiles, updates, nextId := file.tokensFiles, file.commitsFiles, file.updates, file.nextId;
      new;
      var empty := DbIsEmpty();
      if !empty {
        var count := IndexIsEmpty();
        empty := count == Success(true);
      }
      if empty {
        CreateTables();
      }
    }

    /** `db_is_empty()`: true exactly when there is no `commits` table. */
    function DbIsEmpty(): (r: bool)
      reads this
      ensures r <==> !created
    {
      !created
    }

    /** `index_is_empty()`: `SELECT COUNT(*) FROM commits` compared with 0. */
    function IndexIsEmpty(): (r: Result<bool, DbError>)
      reads this
      ensures !created <==> r == Failure(NoSuchTable)
      ensures r == Success(true) <==> created && |commits| == 0
    {
      if !created then Failure(NoSuchTable) else Success(|commits| == 0)
    }

    /** `create_tables()`: six `CREATE TABLE IF NOT EXISTS`, so rows already there are kept. */
    method CreateTables()
      requires Valid()
      modifies this
      ensures Valid()
      ensures State() == old(State()).(created := true)
    {
      created := true;
    }

    /** `insert_into_commits(commit, message)`. */
    method InsertIntoCommits(c: Git.Commit, message: string) returns (out: Outcome<DbError>)
      requires Valid()
      modifies this
      ensures Valid()
      ensures match InsertCommit(old(State()), c, message)
        case Success(t) => out == Pass && State() == t
        case Failure(e) => out == Fail(e) && State() == old(State())
    {
      InsertCommitConsistent(State(), c, message);
      var r := InsertCommit(State(), c, message);
      if r.Success? {
        Store(r.value);
        out := Pass;
      } else {
        out := Fail(r.error);
      }
    }

    /** `insert_into_tokens_files(commit, tokens)`. */
    method InsertIntoTokensFiles(c: Git.Commit, tokens: seq<string>) returns (out: Outcome<DbError>)
      requires Valid()
      modifies this
      ensures Valid()
      ensures match InsertLinks(old(State()), c, tokens)
        case Success(t) => out == Pass && State() == t
        case Failure(e) => out == Fail(e) && State() == old(State())
    {
      var r := InsertLinks(State(), c, tokens);
      if r.Success? {
        InsertLinksConsistent(State(), c, tokens);
        Store(r.value);
        out := Pass;
      } else {
        out := Fail(r.error);
      }
    }

    /** `meta_update(start_time, end_time, start_rev, end_rev, number_of_commits)`. */
    method InsertUpdate(startTime: int, endTime: int, startRev: string, endRev: string, n: int) returns (out: Outcome<DbError>)
      requires Valid()
      modifies this
      ensures Valid()
      ensures match MetaUpdate(old(State()), startTime, endTime, startRev, endRev, n)
        case Success(t) => out == Pass && State() == t
        case Failure(e) => out == Fail(e) && State() == old(State())
    {
      MetaUpdateConsistent(State(), startTime, endTime, startRev, endRev, n);
      var r := MetaUpdate(State(), startTime, endTime, startRev, endRev, n);
      if r.Success? {
        Store(r.value);
        out := Pass;
      } else {
        out := Fail(r.error);
      }
    }

    /** `get_last_indexed_rev()`: the `end_rev` of the run that ends earliest, since the query sorts ascending. */
    function GetLastIndexedRev(): (r: Result<Option<string>, DbError>)
      reads this
      ensures r == LastIndexedRev(State())
    {
      LastIndexedRev(State())
    }

    /**
     * `get_tf_idf_for_token_file(token_id, file_id)`: the query as written, which
     * raises on `log2(0)` exactly when the token is linked to every file.
     */
    function GetTfIdf(tokenId: Id, fileId: Id): (r: Result<IntegerScore, DbError>)
      reads this
      ensures r == IntegerScoreFor(State(), tokenId, fileId)
      ensures Valid() && created ==> (r == Failure(MathDomainError) <==> Df(tokensFiles, tokenId) == |files|)
    {
      assert Valid() && created ==> (IntegerScoreFor(State(), tokenId, fileId) == Failure(MathDomainError) <==> Df(tokensFiles, tokenId) == |files|) by {
        if Valid() && created {
          IntegerScoreFailsIffLinkedToEveryFile(State(), tokenId, fileId);
        }
      }
      IntegerScoreFor(State(), tokenId, fileId)
    }

    /** `get_vocab_size()`: `SELECT COUNT(*) FROM main.tokens`. */
    function GetVocabSize(): (r: Result<nat, DbError>)
      reads this
      ensures !created <==> r == Failure(NoSuchTable)
      ensures r.Success? ==> r.value == |tokens|
    {
      if !created then Failure(NoSuchTable) else Success(|tokens|)
    }

    /**
     * `get_all_tokens()`: one (token_id, token_string) pair per `tokens` row, in
     * no promised order.
     */
    method GetAllTokens() returns (r: Result<seq<(Id, string)>, DbError>)
      requires Valid()
      ensures !created <==> r == Failure(NoSuchTable)
      ensures r.Success? ==> |r.value| == |tokens|
      ensures r.Success? ==> forall k :: 0 <= k < |r.value| ==> r.value[k].1 in tokens && tokens[r.value[k].1] == r.value[k].0
      ensures r.Success? ==> forall w :: w in tokens ==> (tokens[w], w) in r.value
      ensures r.Success? ==> forall k, m :: 0 <= k < m < |r.value| ==> r.value[k].1 != r.value[m].1
    {
      if !created {
        return Failure(NoSuchTable);
      }
      var result: seq<(Id, string)> := [];
      var remaining := tokens.Keys;
      while remaining != {}
        invariant remaining <= tokens.Keys
        invariant |result| + |remaining| == |tokens|
        invariant forall k :: 0 <= k < |result| ==> result[k].1 in tokens && result[k].1 !in remaining && tokens[result[k].1] == result[k].0
        invariant forall w :: w in tokens && w !in remaining ==> (tokens[w], w) in result
        invariant forall k, m :: 0 <= k < m < |result| ==> result[k].1 != result[m].1
        decreases |remaining|
      {
        var w :| w in remaining;
        result := result + [(tokens[w], w)];
        remaining := remaining - {w};
      }
      return Success(result);
    }

    /**
     * `get_files_for_token(token)`. The join of tokens, tokens_files and files
     * filtered by `token_string LIKE :query` and grouped by file path gives one
     * row per path holding the path's file_id and the token_id of one of the
     * group's rows (SQLite chooses which); each row's tf-idf is then computed with
     * the query as written, and the first failing computation propagates. `like`
     * stands for SQLite's LIKE.
     */
    method GetFilesForToken(like: (string, string) -> bool, pattern: string) returns (r: Result<seq<(string, IntegerScore)>, DbError>)
      requires Valid()
      ensures !created ==> r == Failure(NoSuchTable)
      ensures created && r.Failure? ==> r.error == MathDomainError && exists i, w, path :: MatchesSaturated(State(), like, pattern, i, w, path)
      ensures created && (forall i, w, path :: Matches(State(), like, pattern, i, w, path) ==> !MatchesSaturated(State(), like, pattern, i, w, path)) ==> r.Success?
      ensures ((exists i, w, path :: Matches(State(), like, pattern, i, w, path))
        && (forall i, w, path :: Matches(State(), like, pattern, i, w, path) ==> MatchesSaturated(State(), like, pattern, i, w, path)))
        ==> r.Failure?
      ensures r.Success? ==> forall k, m :: 0 <= k < m < |r.value| ==> r.value[k].0 != r.value[m].0
      ensures r.Success? ==> forall k :: 0 <= k < |r.value| ==> Justified(State(), like, pattern, r.value[k])
      ensures r.Success? ==> Covers(State(), like, pattern, r.value, |tokensFiles|)
    {
      if !created {
        return Failure(NoSuchTable);
      }
      var t := State();
      var groups := GroupByPath(t, like, pattern);
      r := ScoreGroups(t, groups);
      if r.Failure? {
        FailingGroupSaturated(t, like, pattern, groups, r.error);
        ghost var i, w, path :| MatchesSaturated(t, like, pattern, i, w, path);
        assert MatchesSaturated(State(), like, pattern, i, w, path);
      } else {
        ScoredGroupsJustified(t, like, pattern, groups, r.value);
        GroupCoversPaths(t, like, pattern, groups, r.value);
        if exists i, w, path :: Matches(t, like, pattern, i, w, path) {
          ghost var i, w, path :| Matches(t, like, pattern, i, w, path);
          ScoredGroupsUnsaturated(t, like, pattern, groups, i, w, path);
        }
      }
    }

    /**
     * `update_all_tf_idf()`: rescores the rows as RescoreRows does, committing
     * row by row, so a pass stopped by `log2(0)` keeps the rows it rewrote.
     */
    method UpdateAllTfIdf() returns (out: Outcome<DbError>)
      requires Valid()
      modifies this
      ensures Valid()
      ensures State() == old(State()).(tokensFiles := tokensFiles)
      ensures ScoresOnlyDiffer(tokensFiles, old(tokensFiles))
      ensures !created ==> out == Fail(NoSuchTable) && tokensFiles == old(tokensFiles)
      ensures out == Pass <==> created && forall i :: 0 <= i < |old(tokensFiles)| ==> Df(old(tokensFiles), old(tokensFiles)[i].tokenId) < |files|
      ensures created ==> var k := FirstUnscorable(old(State()), 0);
        && (out != Pass ==> out == Fail(MathDomainError))
        && (forall j :: 0 <= j < k ==> Rescored(old(State()), tokensFiles[j]))
        && tokensFiles[k..] == old(tokensFiles)[k..]
      ensures out == Pass ==> ScoresCurrent(State())
    {
      if !created {
        return Fail(NoSuchTable);
      }
      ghost var before := State();
      var rows;
      rows, out := RescoreRows(State());
      RescoreRowsOutcome(before, rows, out);
      tokensFiles := rows;
    }
  }
}
