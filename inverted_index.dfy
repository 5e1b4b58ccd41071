/**
 * The dict-of-sets index the prototype indexers of commit_analyser/ keep: each
 * token maps to the set of files whose commits mention it. `Add` is what one
 * `add(tokens, file)` call does to the dictionary, one token at a time.
 */
module InvertedIndex {
  import Git

  type Index = map<string, set<string>>

  /** One `try: index[token].add(file) except KeyError: index[token] = {file}`. */
  function AddOne(index: Index, token: string, file: string): Index
  {
    index[token := if token in index then index[token] + {file} else {file}]
  }

  /** `add(tokens, file)`: the loop over `tokens`. */
  function Add(index: Index, tokens: seq<string>, file: string): Index
    decreases |tokens|
  {
    if |tokens| == 0 then index
    else AddOne(Add(index, tokens[..|tokens| - 1], file), tokens[|tokens| - 1], file)
  }

  /** The set a token has before any file is added for it. */
  function Files(index: Index, token: string): set<string>
  {
    if token in index then index[token] else {}
  }

  /**
   * After `add(tokens, file)` the keys are the old keys plus the tokens; each
   * token's set is its old set plus `file`; every other key keeps its set.
   */
  lemma {:induction false} AddSpec(index: Index, tokens: seq<string>, file: string)
    ensures Add(index, tokens, file).Keys == index.Keys + (set t | t in tokens)
    ensures forall w :: w in Add(index, tokens, file) ==>
      Add(index, tokens, file)[w] == if w in tokens then Files(index, w) + {file} else index[w]
    decreases |tokens|
  {
    if |tokens| > 0 {
      var init := tokens[..|tokens| - 1];
      var last := tokens[|tokens| - 1];
      AddSpec(index, init, file);
      assert tokens == init + [last];
      assert (set t | t in tokens) == (set t | t in init) + {last};
    }
  }

  /** Repeating the same call leaves the index unchanged. */
  lemma AddIdempotent(index: Index, tokens: seq<string>, file: string)
    ensures Add(Add(index, tokens, file), tokens, file) == Add(index, tokens, file)
  {
    var once := Add(index, tokens, file);
    AddSpec(index, tokens, file);
    AddSpec(once, tokens, file);
    assert Add(once, tokens, file).Keys == once.Keys;
    forall w | w in once
      ensures Add(once, tokens, file)[w] == once[w]
    {
      if w in tokens {
        assert Files(once, w) + {file} == once[w];
      }
    }
  }

  /** Every key of `a` is a key of `b` with at least its files. */
  ghost predicate Grows(a: Index, b: Index)
  {
    forall w :: w in a ==> w in b && a[w] <= b[w]
  }

  lemma GrowsTransitive(a: Index, b: Index, c: Index)
    requires Grows(a, b) && Grows(b, c)
    ensures Grows(a, c)
  {
  }

  /** `add` only adds: no key disappears and no file leaves a set. */
  lemma AddGrows(index: Index, tokens: seq<string>, file: string)
    ensures Grows(index, Add(index, tokens, file))
    ensures forall t :: t in tokens ==> t in Add(index, tokens, file) && file in Add(index, tokens, file)[t]
  {
    AddSpec(index, tokens, file);
  }

  /** `for file in files: add(tokens, file)`. */
  function AddToFiles(index: Index, tokens: seq<string>, files: seq<string>): Index
    decreases |files|
  {
    if |files| == 0 then index
    else Add(AddToFiles(index, tokens, files[..|files| - 1]), tokens, files[|files| - 1])
  }

  /** Adding a commit's tokens to each of its files only grows the index, and links every token to every file. */
  lemma {:induction false} AddToFilesSpec(index: Index, tokens: seq<string>, files: seq<string>)
    ensures Grows(index, AddToFiles(index, tokens, files))
    ensures forall t, f :: t in tokens && f in files ==> t in AddToFiles(index, tokens, files) && f in AddToFiles(index, tokens, files)[t]
    decreases |files|
  {
    if |files| > 0 {
      var init := files[..|files| - 1];
      var last := files[|files| - 1];
      var before := AddToFiles(index, tokens, init);
      AddToFilesSpec(index, tokens, init);
      AddGrows(before, tokens, last);
      GrowsTransitive(index, before, Add(before, tokens, last));
      forall t, f | t in tokens && f in files
        ensures t in AddToFiles(index, tokens, files) && f in AddToFiles(index, tokens, files)[t]
      {
        if f != last {
          assert f in init by { assert files == init + [last]; }
        }
      }
    }
  }

  /**
   * The loop of `build_index`/`update_index` in commit_analyser/index.py and
   * commit_analyser/spacy_similarity_index.py: each commit's message, turned
   * into tokens by `tokensOf`, is added for each of its files.
   */
  function Walk(index: Index, tokensOf: string -> seq<string>, cs: seq<Git.Commit>): Index
    decreases |cs|
  {
    if |cs| == 0 then index
    else AddToFiles(Walk(index, tokensOf, cs[..|cs| - 1]), tokensOf(cs[|cs| - 1].message), cs[|cs| - 1].files)
  }

  /**
   * A walk only grows the index, and afterwards every token of every walked
   * commit is linked to every file that commit touched.
   */
  lemma {:induction false} WalkSpec(index: Index, tokensOf: string -> seq<string>, cs: seq<Git.Commit>)
    ensures Grows(index, Walk(index, tokensOf, cs))
    ensures forall i, t, f :: 0 <= i < |cs| && t in tokensOf(cs[i].message) && f in cs[i].files ==>
      t in Walk(index, tokensOf, cs) && f in Walk(index, tokensOf, cs)[t]
    decreases |cs|
  {
    if |cs| > 0 {
      var init := cs[..|cs| - 1];
      var c := cs[|cs| - 1];
      var before := Walk(index, tokensOf, init);
      WalkSpec(index, tokensOf, init);
      AddToFilesSpec(before, tokensOf(c.message), c.files);
      GrowsTransitive(index, before, Walk(index, tokensOf, cs));
      forall i, t, f | 0 <= i < |init| && t in tokensOf(init[i].message) && f in init[i].files
        ensures t in Walk(index, tokensOf, cs) && f in Walk(index, tokensOf, cs)[t]
      {
      }
      assert forall i :: 0 <= i < |init| ==> cs[i] == init[i];
    }
  }

  /** Walking `a` and then `b` is walking `a + b`: an update continues where the build stopped. */
  lemma {:induction false} WalkAppend(index: Index, tokensOf: string -> seq<string>, a: seq<Git.Commit>, b: seq<Git.Commit>)
    ensures Walk(Walk(index, tokensOf, a), tokensOf, b) == Walk(index, tokensOf, a + b)
    decreases |b|
  {
    if |b| > 0 {
      WalkAppend(index, tokensOf, a, b[..|b| - 1]);
      assert (a + b)[..|a + b| - 1] == a + b[..|b| - 1];
    } else {
      assert a + b == a;
    }
  }

  /** What a dictionary lookup `index[query]` produces, with the KeyError branch as Missing. */
  datatype Lookup = Found(files: set<string>) | Missing

  function Search(index: Index, query: string): (r: Lookup)
    ensures r.Found? <==> query in index
    ensures r.Found? ==> r.files == index[query]
  {
    if query in index then Found(index[query]) else Missing
  }

  /** After `add(tokens, file)` every token is found with `file` among its files; other queries answer as before. */
  lemma SearchAfterAdd(index: Index, tokens: seq<string>, file: string, query: string)
    ensures query in tokens ==> Search(Add(index, tokens, file), query).Found? && file in Search(Add(index, tokens, file), query).files
    ensures query !in tokens ==> Search(Add(index, tokens, file), query) == Search(index, query)
  {
    AddSpec(index, tokens, file);
  }
}
