/**
 * Keyword retrieval over the stored chunks (`DocumentProcessor.get_document_context`): every
 * chunk is scored by how many query tokens occur in it, the chunks that score are ranked by a
 * stable sort on the score, highest first, and the best ones are rendered as text blocks.
 */
module Retrieval {
  import opened Text
  import opened Records
  import opened OrderedDict

  /** A chunk that scored, with the document it belongs to. */
  datatype Hit = Hit(docId: string, filename: string, chunk: Chunk, score: nat)

  /* ---------------------------------------------------------------------------------------- */
  /* Scoring                                                                                   */

  /** `query.lower().split()`. */
  function Tokens(query: string): (ws: seq<string>)
    ensures forall k :: 0 <= k < |ws| ==> IsWord(ws[k])
  {
    Words(Lower(query))
  }

  /** The lower-cased query is its tokens, in order, with runs of whitespace between them. */
  lemma TokensOfQuery(query: string)
    ensures exists gaps :: AreGaps(gaps, |Tokens(query)|) && Weave(gaps, Tokens(query)) == Lower(query)
  {
    var gaps := Gaps(Lower(query));
    GapsWeave(Lower(query));
    assert AreGaps(gaps, |Tokens(query)|) && Weave(gaps, Tokens(query)) == Lower(query);
  }

  /** ... and no other sequence of tokens takes the lower-cased query apart like that. */
  lemma TokensUnique(query: string, gaps: seq<string>, words: seq<string>)
    requires AreGaps(gaps, |words|) && forall k :: 0 <= k < |words| ==> IsWord(words[k])
    requires Weave(gaps, words) == Lower(query)
    ensures words == Tokens(query)
  {
    WordsOfWeave(gaps, words);
  }

  /** How many of `tokens`, repetitions included, occur in `lowered`. */
  function Score(tokens: seq<string>, lowered: string): (n: nat)
    ensures n <= |tokens|
  {
    if tokens == [] then 0
    else Score(tokens[..|tokens| - 1], lowered) + (if Contains(lowered, tokens[|tokens| - 1]) then 1 else 0)
  }

  /** A chunk scores nothing exactly when none of the tokens occurs in it. */
  lemma {:induction false} ScoreZero(tokens: seq<string>, lowered: string)
    ensures Score(tokens, lowered) == 0 <==> forall k :: 0 <= k < |tokens| ==> !Contains(lowered, tokens[k])
  {
    if tokens != [] {
      var init := tokens[..|tokens| - 1];
      ScoreZero(init, lowered);
      assert forall k :: 0 <= k < |init| ==> init[k] == tokens[k];
    }
  }

  /** The score counts token by token, so a token repeated in the query counts each time. */
  lemma {:induction false} ScoreAppend(a: seq<string>, b: seq<string>, lowered: string)
    ensures Score(a + b, lowered) == Score(a, lowered) + Score(b, lowered)
    decreases |b|
  {
    if b == [] {
      assert a + b == a;
    } else {
      var b' := b[..|b| - 1];
      ScoreAppend(a, b', lowered);
      assert (a + b)[..|a + b| - 1] == a + b';
    }
  }

  /** A chunk in which every token occurs scores the full number of tokens. */
  lemma {:induction false} ScoreFull(tokens: seq<string>, lowered: string)
    requires forall k :: 0 <= k < |tokens| ==> Contains(lowered, tokens[k])
    ensures Score(tokens, lowered) == |tokens|
  {
    if tokens != [] {
      var init := tokens[..|tokens| - 1];
      assert forall k :: 0 <= k < |init| ==> init[k] == tokens[k];
      ScoreFull(init, lowered);
    }
  }

  /* ---------------------------------------------------------------------------------------- */
  /* Candidates                                                                                */

  /** The file name shown for a document: its metadata's, or "Unknown" without metadata. */
  function FilenameOf(documents: Dict<string, DocRecord>, docId: string): string {
    if docId in documents.entries then documents.entries[docId].filename else "Unknown"
  }

  /** The chunk's score against the tokens, after lower-casing the chunk. */
  function ChunkScore(tokens: seq<string>, c: Chunk): nat {
    Score(tokens, Lower(c.text))
  }

  /** The hits among the chunks of one document, in chunk order. */
  function HitsOf(tokens: seq<string>, docId: string, filename: string, chunks: seq<Chunk>): (hs: seq<Hit>)
    ensures |hs| <= |chunks|
  {
    if chunks == [] then []
    else
      var c := chunks[|chunks| - 1];
      var s := ChunkScore(tokens, c);
      HitsOf(tokens, docId, filename, chunks[..|chunks| - 1]) + (if s > 0 then [Hit(docId, filename, c, s)] else [])
  }

  /** The hits over the documents listed in `ids`, document by document. */
  function HitsOver(documents: Dict<string, DocRecord>, docChunks: Dict<string, seq<Chunk>>,
                    tokens: seq<string>, ids: seq<string>): seq<Hit>
    requires forall i :: 0 <= i < |ids| ==> ids[i] in docChunks.entries
  {
    if ids == [] then []
    else
      var id := ids[|ids| - 1];
      HitsOver(documents, docChunks, tokens, ids[..|ids| - 1])
        + HitsOf(tokens, id, FilenameOf(documents, id), docChunks.entries[id])
  }

  /** Going through one more document appends its hits. */
  lemma HitsOverStep(documents: Dict<string, DocRecord>, docChunks: Dict<string, seq<Chunk>>,
                     tokens: seq<string>, ids: seq<string>, i: nat)
    requires i < |ids| && forall k :: 0 <= k < |ids| ==> ids[k] in docChunks.entries
    ensures HitsOver(documents, docChunks, tokens, ids[..i + 1]) ==
      HitsOver(documents, docChunks, tokens, ids[..i])
        + HitsOf(tokens, ids[i], FilenameOf(documents, ids[i]), docChunks.entries[ids[i]])
  {
    assert ids[..i + 1][..i] == ids[..i];
  }

  /** The chunks that score, in `document_chunks` order and then chunk order. */
  function Candidates(documents: Dict<string, DocRecord>, docChunks: Dict<string, seq<Chunk>>,
                      tokens: seq<string>): seq<Hit>
    requires docChunks.Valid()
  {
    HitsOver(documents, docChunks, tokens, docChunks.keys)
  }

  /** What a hit of one document is. */
  predicate IsHitOf(tokens: seq<string>, docId: string, filename: string, chunks: seq<Chunk>, h: Hit) {
    && h.docId == docId && h.filename == filename && h.chunk in chunks
    && h.score == ChunkScore(tokens, h.chunk) && h.score > 0
  }

  lemma {:induction false} HitsOfMembers(tokens: seq<string>, docId: string, filename: string, chunks: seq<Chunk>)
    ensures forall h :: h in HitsOf(tokens, docId, filename, chunks) <==> IsHitOf(tokens, docId, filename, chunks, h)
  {
    if chunks != [] {
      var init := chunks[..|chunks| - 1];
      HitsOfMembers(tokens, docId, filename, init);
      assert chunks == init + [chunks[|chunks| - 1]];
    }
  }

  /** What a hit among several documents is. */
  predicate IsCandidate(documents: Dict<string, DocRecord>, docChunks: Dict<string, seq<Chunk>>,
                        tokens: seq<string>, h: Hit) {
    && h.docId in docChunks.entries
    && IsHitOf(tokens, h.docId, FilenameOf(documents, h.docId), docChunks.entries[h.docId], h)
  }

  lemma {:induction false} HitsOverMembers(documents: Dict<string, DocRecord>, docChunks: Dict<string, seq<Chunk>>,
                                           tokens: seq<string>, ids: seq<string>)
    requires forall i :: 0 <= i < |ids| ==> ids[i] in docChunks.entries
    ensures forall h :: h in HitsOver(documents, docChunks, tokens, ids) <==>
      h.docId in ids && IsCandidate(documents, docChunks, tokens, h)
  {
    if ids != [] {
      var init := ids[..|ids| - 1];
      var id := ids[|ids| - 1];
      HitsOverMembers(documents, docChunks, tokens, init);
      HitsOfMembers(tokens, id, FilenameOf(documents, id), docChunks.entries[id]);
      assert ids == init + [id];
    }
  }

  /**
   * A hit is a candidate exactly when its chunk is one of its document's chunks, its score is
   * that chunk's score, the score is positive, and its file name is the document's.
   */
  lemma CandidateMembers(documents: Dict<string, DocRecord>, docChunks: Dict<string, seq<Chunk>>, tokens: seq<string>)
    requires docChunks.Valid()
    ensures forall h :: h in Candidates(documents, docChunks, tokens) <==> IsCandidate(documents, docChunks, tokens, h)
  {
    HitsOverMembers(documents, docChunks, tokens, docChunks.keys);
  }

  /** A scoring chunk of a document just stored is a candidate. */
  lemma PutCandidate(documents: Dict<string, DocRecord>, docChunks: Dict<string, seq<Chunk>>,
                     id: string, cs: seq<Chunk>, tokens: seq<string>, c: Chunk)
    requires docChunks.Valid()
    requires c in cs && ChunkScore(tokens, c) > 0
    ensures Hit(id, FilenameOf(documents, id), c, ChunkScore(tokens, c)) in Candidates(documents, Put(docChunks, id, cs), tokens)
  {
    var stored := Put(docChunks, id, cs);
    CandidateMembers(documents, stored, tokens);
    assert IsCandidate(documents, stored, tokens, Hit(id, FilenameOf(documents, id), c, ChunkScore(tokens, c)));
  }

  /** Once a document's chunks are deleted, none of its chunks can be retrieved. */
  lemma RemovedNotRetrieved(documents: Dict<string, DocRecord>, docChunks: Dict<string, seq<Chunk>>,
                            tokens: seq<string>, docId: string)
    requires docChunks.Valid()
    ensures forall h :: h in Candidates(documents, Remove(docChunks, docId), tokens) ==> h.docId != docId
  {
    CandidateMembers(documents, Remove(docChunks, docId), tokens);
  }

  /* ---------------------------------------------------------------------------------------- */
  /* Ranking: `list.sort(key=score, reverse=True)`, which is stable                             */

  predicate Descending(hs: seq<Hit>) {
    forall i, j :: 0 <= i < j < |hs| ==> hs[i].score >= hs[j].score
  }

  /** Put `h` in front of the first hit that does not score more. */
  function Insert(h: Hit, hs: seq<Hit>): (r: seq<Hit>)
    ensures multiset(r) == multiset(hs) + multiset{h}
  {
    if hs == [] || hs[0].score <= h.score then [h] + hs
    else
      assert hs == [hs[0]] + hs[1..];
      [hs[0]] + Insert(h, hs[1..])
  }

  /** A hit scoring at least every hit of a ranking can head it. */
  lemma ConsDescending(x: Hit, rest: seq<Hit>)
    requires Descending(rest)
    requires forall y :: y in rest ==> y.score <= x.score
    ensures Descending([x] + rest)
  {
    var r := [x] + rest;
    forall i, j | 0 <= i < j < |r|
      ensures r[i].score >= r[j].score
    {
      assert r[j] == rest[j - 1] && r[j] in rest;
      if 0 < i {
        assert r[i] == rest[i - 1];
      }
    }
  }

  /** Inserting a hit under a bound into hits under that bound keeps them under it. */
  lemma InsertBounded(h: Hit, hs: seq<Hit>, bound: nat)
    requires h.score <= bound && forall y :: y in hs ==> y.score <= bound
    ensures forall y :: y in Insert(h, hs) ==> y.score <= bound
  {
    forall y | y in Insert(h, hs)
      ensures y.score <= bound
    {
      assert y in multiset(Insert(h, hs));
      if y != h {
        assert y in multiset(hs);
      }
    }
  }

  /** Inserting into a ranking keeps it ranked. */
  lemma {:induction false} InsertDescending(h: Hit, hs: seq<Hit>)
    requires Descending(hs)
    ensures Descending(Insert(h, hs))
    decreases |hs|
  {
    if !(hs == [] || hs[0].score <= h.score) {
      DescendingTail(hs);
      InsertDescending(h, hs[1..]);
      forall y | y in hs[1..]
        ensures y.score <= hs[0].score
      {
        var j :| 0 <= j < |hs[1..]| && hs[1..][j] == y;
        assert hs[j + 1] == y;
      }
      InsertBounded(h, hs[1..], hs[0].score);
      ConsDescending(hs[0], Insert(h, hs[1..]));
    } else if hs != [] {
      ConsDescending(h, hs);
    }
  }

  /** The hits ranked by score, highest first; equal scores keep their order. */
  function Ranked(hs: seq<Hit>): (r: seq<Hit>)
    ensures multiset(r) == multiset(hs)
    ensures Descending(r)
  {
    if hs == [] then []
    else
      assert hs == [hs[0]] + hs[1..];
      InsertDescending(hs[0], Ranked(hs[1..]));
      Insert(hs[0], Ranked(hs[1..]))
  }

  /** The hits that score exactly `v`, in order. */
  function WithScore(hs: seq<Hit>, v: nat): seq<Hit> {
    if hs == [] then [] else (if hs[0].score == v then [hs[0]] else []) + WithScore(hs[1..], v)
  }

  lemma {:induction false} WithScoreCons(h: Hit, hs: seq<Hit>, v: nat)
    ensures WithScore([h] + hs, v) == (if h.score == v then [h] else []) + WithScore(hs, v)
  {
    assert ([h] + hs)[1..] == hs;
  }

  lemma {:induction false} InsertStable(h: Hit, hs: seq<Hit>, v: nat)
    requires Descending(hs)
    ensures WithScore(Insert(h, hs), v) == WithScore([h] + hs, v)
    decreases |hs|
  {
    if !(hs == [] || hs[0].score <= h.score) {
      var rest := hs[1..];
      DescendingTail(hs);
      InsertStable(h, rest, v);
      InsertPastHead(h, hs[0], rest, Insert(h, rest), v);
      assert Insert(h, hs) == [hs[0]] + Insert(h, rest);
      assert hs == [hs[0]] + rest;
    }
  }

  /** Moving `h` past a head that outscores it keeps the hits of each score in order. */
  lemma InsertPastHead(h: Hit, h0: Hit, rest: seq<Hit>, inserted: seq<Hit>, v: nat)
    requires h0.score > h.score
    requires WithScore(inserted, v) == WithScore([h] + rest, v)
    ensures WithScore([h0] + inserted, v) == WithScore([h] + ([h0] + rest), v)
  {
    WithScoreCons(h0, inserted, v);
    WithScoreCons(h0, rest, v);
    WithScoreCons(h, rest, v);
    WithScoreCons(h, [h0] + rest, v);
    if h.score == v {
      assert WithScore([h0] + inserted, v) == [h] + WithScore(rest, v);
    } else {
      assert WithScore([h0] + inserted, v) == WithScore([h0] + rest, v);
    }
  }

  /** The sort is stable: for every score, the hits with that score stay in their order. */
  lemma {:induction false} RankedStable(hs: seq<Hit>, v: nat)
    ensures WithScore(Ranked(hs), v) == WithScore(hs, v)
  {
    if hs != [] {
      RankedStable(hs[1..], v);
      InsertStable(hs[0], Ranked(hs[1..]), v);
      WithScoreCons(hs[0], Ranked(hs[1..]), v);
      WithScoreCons(hs[0], hs[1..], v);
      assert hs == [hs[0]] + hs[1..];
    }
  }

  /** Some hit scores `v` exactly when the hits that score `v` are not none. */
  lemma {:induction false} WithScoreEmpty(hs: seq<Hit>, v: nat)
    ensures WithScore(hs, v) == [] <==> forall i :: 0 <= i < |hs| ==> hs[i].score != v
  {
    if hs != [] {
      WithScoreEmpty(hs[1..], v);
      assert forall i :: 1 <= i < |hs| ==> hs[i] == hs[1..][i - 1];
    }
  }

  /** Two descending sequences with the same hits of each score start with the same score. */
  lemma HeadScores(t: seq<Hit>, u: seq<Hit>)
    requires Descending(t) && Descending(u) && t != []
    requires WithScore(t, t[0].score) == WithScore(u, t[0].score)
    requires u != [] ==> WithScore(t, u[0].score) == WithScore(u, u[0].score)
    ensures u != [] && u[0].score == t[0].score
  {
    WithScoreEmpty(t, t[0].score);
    WithScoreEmpty(u, t[0].score);
    var i :| 0 <= i < |u| && u[i].score == t[0].score;
    WithScoreEmpty(u, u[0].score);
    WithScoreEmpty(t, u[0].score);
    var j :| 0 <= j < |t| && t[j].score == u[0].score;
  }

  /** Removing the same first hit from both sides keeps the hits of each score equal. */
  lemma TailsAgree(t: seq<Hit>, u: seq<Hit>, v: nat)
    requires t != [] && u != [] && t[0] == u[0]
    requires WithScore(t, v) == WithScore(u, v)
    ensures WithScore(t[1..], v) == WithScore(u[1..], v)
  {
    var a := if t[0].score == v then [t[0]] else [];
    assert WithScore(t, v) == a + WithScore(t[1..], v);
    assert WithScore(u, v) == a + WithScore(u[1..], v);
    assert (a + WithScore(t[1..], v))[|a|..] == WithScore(t[1..], v);
    assert (a + WithScore(u[1..], v))[|a|..] == WithScore(u[1..], v);
  }

  lemma DescendingTail(hs: seq<Hit>)
    requires Descending(hs) && hs != []
    ensures Descending(hs[1..])
  {
    forall i, j | 0 <= i < j < |hs| - 1
      ensures hs[1..][i].score >= hs[1..][j].score
    {
      assert hs[1..][i] == hs[i + 1] && hs[1..][j] == hs[j + 1];
    }
  }

  /**
   * A ranking is determined by its hits of each score: two descending sequences that agree on
   * the hits of every score, in order, are the same.
   */
  lemma {:induction false} RankingUnique(t: seq<Hit>, u: seq<Hit>)
    requires Descending(t) && Descending(u)
    requires forall v :: WithScore(t, v) == WithScore(u, v)
    ensures t == u
    decreases |t|
  {
    if t == [] {
      if u != [] {
        HeadScores(u, t);
      }
    } else {
      HeadScores(t, u);
      var m := t[0].score;
      assert t[0] == u[0] by {
        assert WithScore(t, m)[0] == t[0] && WithScore(u, m)[0] == u[0];
      }
      forall v
        ensures WithScore(t[1..], v) == WithScore(u[1..], v)
      {
        TailsAgree(t, u, v);
      }
      DescendingTail(t);
      DescendingTail(u);
      RankingUnique(t[1..], u[1..]);
      assert t == [t[0]] + t[1..] && u == [u[0]] + u[1..];
    }
  }

  /**
   * `Ranked` is Python's stable sort by score, descending, and nothing else: any descending
   * arrangement that keeps the order of equal scores is it.
   */
  lemma StableSortIsRanked(hs: seq<Hit>, t: seq<Hit>)
    requires Descending(t) && forall v :: WithScore(t, v) == WithScore(hs, v)
    ensures t == Ranked(hs)
  {
    forall v
      ensures WithScore(t, v) == WithScore(Ranked(hs), v)
    {
      RankedStable(hs, v);
    }
    RankingUnique(t, Ranked(hs));
  }

  /* ---------------------------------------------------------------------------------------- */
  /* Rendering                                                                                 */

  /** Python's `s[:n]`, where a negative `n` counts from the end. */
  function Take<T>(s: seq<T>, n: int): (r: seq<T>)
    ensures |r| == if 0 <= n then (if n < |s| then n else |s|) else (if 0 < |s| + n then |s| + n else 0)
    ensures r == s[..|r|]
  {
    if 0 <= n then (if n < |s| then s[..n] else s)
    else if 0 < |s| + n then s[..|s| + n]
    else []
  }

  /** One rendered context block. */
  function Block(h: Hit): string {
    "From document '" + h.filename + "':\n" + h.chunk.text + "\n"
  }

  function Blocks(hs: seq<Hit>): (bs: seq<string>)
    ensures |bs| == |hs|
    ensures forall i :: 0 <= i < |hs| ==> bs[i] == Block(hs[i])
  {
    if hs == [] then [] else [Block(hs[0])] + Blocks(hs[1..])
  }

  /** The hits `get_document_context` renders: the first `maxChunks` of the ranking. */
  function Selected(documents: Dict<string, DocRecord>, docChunks: Dict<string, seq<Chunk>>,
                    query: string, maxChunks: int): seq<Hit>
    requires docChunks.Valid()
  {
    Take(Ranked(Candidates(documents, docChunks, Tokens(query))), maxChunks)
  }

  /** `get_document_context(query, max_chunks)`. */
  function Context(documents: Dict<string, DocRecord>, docChunks: Dict<string, seq<Chunk>>,
                   query: string, maxChunks: int): string
    requires docChunks.Valid()
  {
    if documents.IsEmpty() then ""
    else Join(Blocks(Selected(documents, docChunks, query, maxChunks)), "\n")
  }

  /** The rendered hits are candidates: real chunks of real documents, with a positive score. */
  lemma SelectedAreCandidates(documents: Dict<string, DocRecord>, docChunks: Dict<string, seq<Chunk>>,
                              query: string, maxChunks: int)
    requires docChunks.Valid()
    ensures forall h :: h in Selected(documents, docChunks, query, maxChunks) ==>
      IsCandidate(documents, docChunks, Tokens(query), h)
  {
    var tokens := Tokens(query);
    var r := Ranked(Candidates(documents, docChunks, tokens));
    CandidateMembers(documents, docChunks, tokens);
    forall h | h in Selected(documents, docChunks, query, maxChunks)
      ensures IsCandidate(documents, docChunks, tokens, h)
    {
      assert h in r;
      assert h in multiset(r);
    }
  }

  /**
   * At most `maxChunks` hits are rendered (when `maxChunks` is not negative), they open the
   * ranking, and no candidate left out outscores one that was rendered.
   */
  lemma SelectedAreTop(documents: Dict<string, DocRecord>, docChunks: Dict<string, seq<Chunk>>,
                       query: string, maxChunks: int)
    requires docChunks.Valid()
    ensures var r := Ranked(Candidates(documents, docChunks, Tokens(query)));
            var sel := Selected(documents, docChunks, query, maxChunks);
      && (0 <= maxChunks ==> |sel| <= maxChunks)
      && sel == r[..|sel|]
      && forall i, j :: 0 <= i < |sel| <= j < |r| ==> r[i].score >= r[j].score
  {
  }

  /** Every rendered block has text. */
  lemma BlockNonEmpty(h: Hit)
    ensures |Block(h)| > 0
  {
  }

  /** Joining texts that are not empty, when there is at least one, is not empty. */
  lemma JoinNonEmpty(parts: seq<string>, sep: string)
    requires |parts| > 0 && forall i :: 0 <= i < |parts| ==> |parts[i]| > 0
    ensures |Join(parts, sep)| > 0
  {
  }

  /**
   * `get_document_context` returns the empty string exactly when there are no documents or
   * nothing is selected: no chunk scores, or `max_chunks` selects none.
   */
  lemma ContextEmpty(documents: Dict<string, DocRecord>, docChunks: Dict<string, seq<Chunk>>,
                     query: string, maxChunks: int)
    requires docChunks.Valid()
    ensures Context(documents, docChunks, query, maxChunks) == "" <==>
      documents.IsEmpty() || Selected(documents, docChunks, query, maxChunks) == []
  {
    var sel := Selected(documents, docChunks, query, maxChunks);
    if !documents.IsEmpty() && sel != [] {
      var bs := Blocks(sel);
      forall i | 0 <= i < |bs|
        ensures |bs[i]| > 0
      {
        BlockNonEmpty(sel[i]);
      }
      JoinNonEmpty(bs, "\n");
    }
  }
}
