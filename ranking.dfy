/**
 * `find_relevant_chunks`: chunk every document, score every chunk against the question,
 * sort by score (highest first, stably) and keep the first `top_k`.
 *
 * The score of a chunk is an abstract integer: `similarity(i)` stands for the cosine
 * similarity between the question's embedding and the embedding of the i-th chunk.
 */
module Ranking {
  import opened Text
  import opened Chunking
  import opened Schema

  /** An entry of `chunk_metadata`: a chunk and the title of its document. */
  datatype Passage = Passage(title: string, chunk: string)

  /** An entry of `similarities`: `(doc_title, chunk_text, similarity_score)`. */
  datatype Scored = Scored(title: string, chunk: string, score: int)

  function DocumentPassages(doc: Document): seq<Passage> {
    var chunks := Chunks(doc.content, DefaultChunkSize);
    seq(|chunks|, k requires 0 <= k < |chunks| => Passage(doc.title, chunks[k]))
  }

  /** `chunk_metadata` for a list of documents: each document's chunks, document after document. */
  function Passages(docs: seq<Document>): seq<Passage> {
    if docs == [] then [] else Passages(docs[..|docs| - 1]) + DocumentPassages(docs[|docs| - 1])
  }

  function Score(passages: seq<Passage>, similarity: nat -> int): seq<Scored> {
    seq(|passages|, i requires 0 <= i < |passages| => Scored(passages[i].title, passages[i].chunk, similarity(i)))
  }

  /** The chunk `chunk`, under the title `title`, comes from one of `docs`: a document with that title whose content yields that chunk. */
  predicate FromDocument(title: string, chunk: string, docs: seq<Document>) {
    exists k :: 0 <= k < |docs| && title == docs[k].title && chunk in Chunks(docs[k].content, DefaultChunkSize)
  }

  predicate SortedDesc(s: seq<Scored>) {
    forall i, j :: 0 <= i < j < |s| ==> s[j].score <= s[i].score
  }

  /** The entries of `s` scoring exactly `v`, in their order in `s`. */
  function Ties(s: seq<Scored>, v: int): seq<Scored> {
    if s == [] then [] else (if s[0].score == v then [s[0]] else []) + Ties(s[1..], v)
  }

  /** Places `x` after every entry scoring at least as much as it. */
  function Insert(x: Scored, s: seq<Scored>): seq<Scored> {
    if s == [] || s[0].score < x.score then [x] + s else [s[0]] + Insert(x, s[1..])
  }

  /** `s.sort(key=score, reverse=True)`: a stable sort, highest score first. */
  function SortDesc(s: seq<Scored>): seq<Scored> {
    if s == [] then [] else Insert(s[|s| - 1], SortDesc(s[..|s| - 1]))
  }

  /** Python's slice `s[:k]`, where a negative `k` counts from the end. */
  function PrefixSlice(s: seq<Scored>, k: int): seq<Scored> {
    if k >= 0 then s[..if k <= |s| then k else |s|]
    else s[..if |s| + k >= 0 then |s| + k else 0]
  }

  /** Every scored chunk of the documents, in document-then-chunk order. */
  function AllScored(docs: seq<Document>, similarity: nat -> int): seq<Scored> {
    Score(Passages(docs), similarity)
  }

  /** What `find_relevant_chunks(client, documents, question, top_k)` returns. */
  function Ranked(docs: seq<Document>, similarity: nat -> int, topK: int): seq<Scored> {
    PrefixSlice(SortDesc(AllScored(docs, similarity)), topK)
  }

  // ---------------------------------------------------------------------------
  // The loops of `find_relevant_chunks`

  method FindRelevantChunks(documents: seq<Document>, similarity: nat -> int, topK: int) returns (ranked: seq<Scored>)
    ensures ranked == Ranked(documents, similarity, topK)
  {
    var allChunks: seq<string> := [];
    var chunkMetadata: seq<Passage> := [];
    for d := 0 to |documents|
      invariant chunkMetadata == Passages(documents[..d])
      invariant |allChunks| == |chunkMetadata|
      invariant forall i :: 0 <= i < |allChunks| ==> allChunks[i] == chunkMetadata[i].chunk
    {
      var doc := documents[d];
      var chunks := ChunkText(doc.content, DefaultChunkSize);
      ghost var before := chunkMetadata;
      for c := 0 to |chunks|
        invariant chunkMetadata == before + DocumentPassages(doc)[..c]
        invariant |allChunks| == |chunkMetadata|
        invariant forall i :: 0 <= i < |allChunks| ==> allChunks[i] == chunkMetadata[i].chunk
      {
        PrefixSnoc(DocumentPassages(doc), c);
        AppendAssoc(before, DocumentPassages(doc)[..c], [Passage(doc.title, chunks[c])]);
        allChunks := allChunks + [chunks[c]];
        chunkMetadata := chunkMetadata + [Passage(doc.title, chunks[c])];
      }
      assert DocumentPassages(doc)[..|chunks|] == DocumentPassages(doc);
      PassagesSnoc(documents, d);
    }
    assert documents[..|documents|] == documents;

    // One embedding per chunk of all_chunks; similarity(i) is the score of the i-th.
    // all_chunks is read only by the embeddings call, which `similarity` stands for, so `allChunks`
    // is kept solely to show it lines up with `chunkMetadata` entry by entry.
    var similarities: seq<Scored> := [];
    for i := 0 to |chunkMetadata|
      invariant |similarities| == i
      invariant forall j :: 0 <= j < i ==>
        similarities[j] == Scored(chunkMetadata[j].title, chunkMetadata[j].chunk, similarity(j))
    {
      similarities := similarities + [Scored(chunkMetadata[i].title, chunkMetadata[i].chunk, similarity(i))];
    }
    assert similarities == AllScored(documents, similarity);

    similarities := SortDesc(similarities);
    ranked := PrefixSlice(similarities, topK);
  }

  lemma PassagesSnoc(documents: seq<Document>, d: nat)
    requires d < |documents|
    ensures Passages(documents[..d + 1]) == Passages(documents[..d]) + DocumentPassages(documents[d])
  {
    assert documents[..d + 1][..d] == documents[..d];
  }

  // ---------------------------------------------------------------------------
  // The sort

  lemma {:induction false} TiesAppend(a: seq<Scored>, b: seq<Scored>, v: int)
    ensures Ties(a + b, v) == Ties(a, v) + Ties(b, v)
  {
    if a == [] {
      assert a + b == b;
    } else {
      var head := if a[0].score == v then [a[0]] else [];
      assert (a + b)[0] == a[0];
      assert (a + b)[1..] == a[1..] + b;
      assert Ties(a + b, v) == head + Ties(a[1..] + b, v);
      TiesAppend(a[1..], b, v);
      assert Ties(a, v) == head + Ties(a[1..], v);
    }
  }

  lemma {:induction false} TiesNone(s: seq<Scored>, v: int)
    requires forall i :: 0 <= i < |s| ==> s[i].score != v
    ensures Ties(s, v) == []
  {
    if s != [] {
      TiesNone(s[1..], v);
    }
  }

  lemma {:induction false} InsertKeeps(x: Scored, s: seq<Scored>)
    ensures multiset(Insert(x, s)) == multiset(s) + multiset{x}
    ensures |Insert(x, s)| == |s| + 1
  {
    if s != [] && s[0].score >= x.score {
      InsertKeeps(x, s[1..]);
      assert s == [s[0]] + s[1..];
    }
  }

  lemma {:induction false} InsertElements(x: Scored, s: seq<Scored>)
    ensures forall e :: e in Insert(x, s) ==> e == x || e in s
  {
    if s != [] && s[0].score >= x.score {
      InsertElements(x, s[1..]);
    }
  }

  lemma {:induction false} InsertSorted(x: Scored, s: seq<Scored>)
    requires SortedDesc(s)
    ensures SortedDesc(Insert(x, s))
  {
    if s != [] && s[0].score >= x.score {
      var r := Insert(x, s[1..]);
      InsertSorted(x, s[1..]);
      InsertElements(x, s[1..]);
      forall j | 0 <= j < |r| ensures r[j].score <= s[0].score {
        assert r[j] in r;
        if r[j] != x {
          var k :| 0 <= k < |s[1..]| && s[1..][k] == r[j];
          assert s[k + 1] == r[j];
        }
      }
      assert Insert(x, s) == [s[0]] + r;
    }
  }

  /** Inserting keeps the order among equal scores: `x` comes after the entries that tie with it. */
  lemma {:induction false} InsertTies(x: Scored, s: seq<Scored>, v: int)
    requires SortedDesc(s)
    ensures Ties(Insert(x, s), v) == Ties(s, v) + (if x.score == v then [x] else [])
  {
    if s == [] || s[0].score < x.score {
      assert Insert(x, s) == [x] + s;
      TiesAppend([x], s, v);
      if x.score == v {
        TiesNone(s, v);
      }
    } else {
      InsertTies(x, s[1..], v);
      assert Insert(x, s)[1..] == Insert(x, s[1..]);
    }
  }

  /** The sort returns a permutation of its input, non-increasing, with tied entries in their input order. */
  lemma {:induction false} SortDescCorrect(s: seq<Scored>)
    ensures multiset(SortDesc(s)) == multiset(s)
    ensures |SortDesc(s)| == |s|
    ensures SortedDesc(SortDesc(s))
    ensures forall v :: Ties(SortDesc(s), v) == Ties(s, v)
  {
    if s != [] {
      var init, last := s[..|s| - 1], s[|s| - 1];
      SortDescCorrect(init);
      InsertKeeps(last, SortDesc(init));
      InsertSorted(last, SortDesc(init));
      assert s == init + [last];
      forall v ensures Ties(SortDesc(s), v) == Ties(s, v) {
        InsertTies(last, SortDesc(init), v);
        TiesAppend(init, [last], v);
      }
    }
  }

  lemma {:induction false} TiesPrefix(s: seq<Scored>, m: nat, v: int)
    requires m <= |s|
    ensures Ties(s[..m], v) <= Ties(s, v)
  {
    assert s == s[..m] + s[m..];
    TiesAppend(s[..m], s[m..], v);
  }

  lemma {:induction false} TiesHas(s: seq<Scored>, v: int)
    ensures Ties(s, v) != [] <==> exists i :: 0 <= i < |s| && s[i].score == v
    ensures Ties(s, v) != [] && s != [] && s[0].score == v ==> Ties(s, v)[0] == s[0]
  {
    if s != [] {
      TiesHas(s[1..], v);
      if s[0].score != v && exists i :: 0 <= i < |s| && s[i].score == v {
        var i :| 0 <= i < |s| && s[i].score == v;
        assert s[1..][i - 1].score == v;
      }
    }
  }

  /**
   * A sorted sequence is determined by its ties: two non-increasing sequences that hold the same
   * entries of every score, in the same order, are equal.  So the guarantees of `SortDescCorrect`
   * single out one result, the one a stable sort must return.
   */
  lemma {:induction false} SortedByTiesUnique(a: seq<Scored>, b: seq<Scored>)
    requires SortedDesc(a) && SortedDesc(b)
    requires forall v :: Ties(a, v) == Ties(b, v)
    ensures a == b
    decreases |a|
  {
    if a == [] || b == [] {
      if a != [] {
        TiesHas(a, a[0].score);
        TiesHas(b, a[0].score);
      } else if b != [] {
        TiesHas(a, b[0].score);
        TiesHas(b, b[0].score);
      }
    } else {
      var va, vb := a[0].score, b[0].score;
      TiesHas(a, va); TiesHas(b, va);
      TiesHas(a, vb); TiesHas(b, vb);
      var j :| 0 <= j < |b| && b[j].score == va;
      var k :| 0 <= k < |a| && a[k].score == vb;
      assert va == vb;
      assert a[0] == b[0];
      forall v ensures Ties(a[1..], v) == Ties(b[1..], v) {
        var head := if va == v then [a[0]] else [];
        assert Ties(a, v) == head + Ties(a[1..], v);
        assert Ties(b, v) == head + Ties(b[1..], v);
        assert Ties(a[1..], v) == Ties(a, v)[|head|..];
        assert Ties(b[1..], v) == Ties(b, v)[|head|..];
      }
      SortedByTiesUnique(a[1..], b[1..]);
    }
  }

  /** Any non-increasing rearrangement that keeps tied entries in input order is `SortDesc`'s result. */
  lemma SortDescUnique(s: seq<Scored>, t: seq<Scored>)
    requires SortedDesc(t)
    requires forall v :: Ties(t, v) == Ties(s, v)
    ensures t == SortDesc(s)
  {
    SortDescCorrect(s);
    SortedByTiesUnique(t, SortDesc(s));
  }

  // ---------------------------------------------------------------------------
  // What `find_relevant_chunks` promises

  /** Each chunk's metadata carries the title of the document whose content produced it. */
  lemma {:induction false} PassagesFromDocuments(docs: seq<Document>)
    ensures forall j :: 0 <= j < |Passages(docs)| ==> FromDocument(Passages(docs)[j].title, Passages(docs)[j].chunk, docs)
  {
    if docs != [] {
      var init := docs[..|docs| - 1];
      var last := |docs| - 1;
      PassagesFromDocuments(init);
      var ps := Passages(docs);
      var before := Passages(init);
      forall j | 0 <= j < |ps| ensures FromDocument(ps[j].title, ps[j].chunk, docs) {
        if j < |before| {
          assert FromDocument(before[j].title, before[j].chunk, init);
          var k :| 0 <= k < |init| && before[j].title == init[k].title &&
            before[j].chunk in Chunks(init[k].content, DefaultChunkSize);
          assert init[k] == docs[k];
        } else {
          var chunks := Chunks(docs[last].content, DefaultChunkSize);
          assert ps[j] == Passage(docs[last].title, chunks[j - |before|]);
        }
      }
    }
  }

  /** `min(top_k, total chunks)` entries for a non-negative `top_k`; a negative one drops that many from the end. */
  lemma RankedLength(docs: seq<Document>, similarity: nat -> int, topK: int)
    ensures var n := |Passages(docs)|;
      |Ranked(docs, similarity, topK)| ==
        if topK >= 0 then (if topK <= n then topK else n) else (if n + topK >= 0 then n + topK else 0)
  {
    SortDescCorrect(AllScored(docs, similarity));
  }

  /** The entries come highest score first. */
  lemma RankedOrdered(docs: seq<Document>, similarity: nat -> int, topK: int)
    ensures SortedDesc(Ranked(docs, similarity, topK))
  {
    SortDescCorrect(AllScored(docs, similarity));
  }

  /** The entries are chunks of the documents, and no chunk left out scores higher than one kept. */
  lemma RankedBest(docs: seq<Document>, similarity: nat -> int, topK: int)
    ensures multiset(Ranked(docs, similarity, topK)) <= multiset(AllScored(docs, similarity))
    ensures forall x: Scored, i ::
      (x in multiset(AllScored(docs, similarity)) - multiset(Ranked(docs, similarity, topK)) &&
       0 <= i < |Ranked(docs, similarity, topK)|) ==> x.score <= Ranked(docs, similarity, topK)[i].score
  {
    var all := AllScored(docs, similarity);
    SortDescCorrect(all);
    PrefixBest(all, SortDesc(all), |Ranked(docs, similarity, topK)|);
  }

  /** A prefix of a sorted rearrangement of `all` holds entries of `all`, and none left out of it scores higher than one in it. */
  lemma PrefixBest(all: seq<Scored>, sorted: seq<Scored>, m: nat)
    requires multiset(sorted) == multiset(all) && SortedDesc(sorted) && m <= |sorted|
    ensures multiset(sorted[..m]) <= multiset(all)
    ensures forall x: Scored, i :: (x in multiset(all) - multiset(sorted[..m]) && 0 <= i < m) ==> x.score <= sorted[..m][i].score
  {
    var r, rest := sorted[..m], sorted[m..];
    assert sorted == r + rest;
    assert multiset(all) == multiset(r) + multiset(rest);
    forall x: Scored, i | x in multiset(all) - multiset(r) && 0 <= i < m ensures x.score <= r[i].score {
      assert x in rest;
      var j :| 0 <= j < |rest| && rest[j] == x;
      assert sorted[m + j] == x;
    }
  }

  /** Tied entries keep their document-then-chunk order: for each score, the kept ones are the first ones. */
  lemma RankedTiesInOrder(docs: seq<Document>, similarity: nat -> int, topK: int)
    ensures forall v :: Ties(Ranked(docs, similarity, topK), v) <= Ties(AllScored(docs, similarity), v)
  {
    var all := AllScored(docs, similarity);
    SortDescCorrect(all);
    var r := Ranked(docs, similarity, topK);
    forall v ensures Ties(r, v) <= Ties(all, v) {
      TiesPrefix(SortDesc(all), |r|, v);
    }
  }

  /** Each entry's title is the title of the document whose content produced its chunk. */
  lemma RankedFromDocuments(docs: seq<Document>, similarity: nat -> int, topK: int)
    ensures forall i :: 0 <= i < |Ranked(docs, similarity, topK)| ==>
      FromDocument(Ranked(docs, similarity, topK)[i].title, Ranked(docs, similarity, topK)[i].chunk, docs)
  {
    var all := AllScored(docs, similarity);
    var r := Ranked(docs, similarity, topK);
    RankedBest(docs, similarity, topK);
    PassagesFromDocuments(docs);
    forall i | 0 <= i < |r| ensures FromDocument(r[i].title, r[i].chunk, docs) {
      assert r[i] in multiset(r);
      assert r[i] in multiset(all);
      var j :| 0 <= j < |all| && all[j] == r[i];
      assert Passages(docs)[j].title == r[i].title;
    }
  }

  /**
   * When every chunk scores the same (as with identical embeddings), the stable sort moves nothing:
   * the result is the first `topK` chunks in document-then-chunk order.
   */
  lemma RankedUniformScores(docs: seq<Document>, similarity: nat -> int, topK: int)
    requires forall i: nat :: similarity(i) == similarity(0)
    ensures Ranked(docs, similarity, topK) == PrefixSlice(AllScored(docs, similarity), topK)
  {
    var all := AllScored(docs, similarity);
    assert forall i :: 0 <= i < |all| ==> all[i].score == similarity(0);
    SortDescUnique(all, all);
  }
}
