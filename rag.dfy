/** Top-K retrieval (backend/utils/rag.js): every chunk of every document of
    the user is scored against the query's vector, the candidates are sorted
    by similarity, largest first, with a stable sort, and the first `topK`
    are returned. The documents are the list `Document.find({ userId })`
    returns, passed in. */
module Rag {
  import opened Models
  import opened Sorting
  import opened Embeddings

  /** `topK` when the caller gives none. */
  const DefaultTopK: int := 2

  /** One scored chunk, as pushed onto `allChunks`. */
  datatype Candidate = Candidate(
    text: string,
    similarity: Similarity,
    docType: DocType,
    docId: DocId,
    chunkIndex: nat)

  /** The candidate for chunk `i` of `d`, scored against the query vector `qv`. */
  function Score(d: Document, i: nat, qv: seq<int>): Candidate
    requires i < |d.chunks|
  {
    Candidate(d.chunks[i].text, CosineSimilarity(qv, d.chunks[i].embedding), d.docType, d.id, i)
  }

  /** The candidates of one document, in chunk order. */
  function DocCandidates(d: Document, qv: seq<int>): seq<Candidate> {
    seq(|d.chunks|, i requires 0 <= i < |d.chunks| => Score(d, i, qv))
  }

  /** All candidates, document by document. */
  function Candidates(docs: seq<Document>, qv: seq<int>): seq<Candidate> {
    if docs == [] then []
    else Candidates(docs[..|docs| - 1], qv) + DocCandidates(docs[|docs| - 1], qv)
  }

  /** The number of chunks of `docs`. */
  function TotalChunks(docs: seq<Document>): nat {
    if docs == [] then 0 else TotalChunks(docs[..|docs| - 1]) + |docs[|docs| - 1].chunks|
  }

  /** Where the candidates of `docs[k]` start. */
  function Offset(docs: seq<Document>, k: nat): nat
    requires k <= |docs|
  {
    TotalChunks(docs[..k])
  }

  /** The sort key: the similarity's `SignedSquare`, which orders candidates
      as their real similarity values do (`SignedSquareOrder`). */
  function SimKey(c: Candidate): real {
    SignedSquare(c.similarity)
  }

  /** What `retrieveRelevantChunks` returns for query vector `qv`. */
  function Retrieval(docs: seq<Document>, qv: seq<int>, topK: int): seq<Candidate> {
    Slice(SortDesc(Candidates(docs, qv), SimKey), topK)
  }

  /** The nested `forEach` loops that fill `allChunks`. */
  method CollectCandidates(docs: seq<Document>, qv: seq<int>) returns (allChunks: seq<Candidate>)
    ensures allChunks == Candidates(docs, qv)
  {
    allChunks := [];
    var k := 0;
    while k < |docs|
      invariant 0 <= k <= |docs|
      invariant allChunks == Candidates(docs[..k], qv)
    {
      var doc := docs[k];
      var index := 0;
      while index < |doc.chunks|
        invariant 0 <= index <= |doc.chunks|
        invariant allChunks == Candidates(docs[..k], qv) + DocCandidates(doc, qv)[..index]
      {
        var similarity := CosineSimilarity(qv, doc.chunks[index].embedding);
        allChunks := allChunks + [Candidate(doc.chunks[index].text, similarity, doc.docType, doc.id, index)];
        assert DocCandidates(doc, qv)[..index + 1] == DocCandidates(doc, qv)[..index] + [Score(doc, index, qv)];
        index := index + 1;
      }
      assert DocCandidates(doc, qv)[..index] == DocCandidates(doc, qv);
      assert docs[..k + 1][..k] == docs[..k];
      k := k + 1;
    }
    assert docs[..k] == docs;
  }

  /** `retrieveRelevantChunks(userId, query, topK = 2)`: the query is embedded
      once, every chunk is scored against that vector, and the top `topK`
      candidates of the stable sort are returned. */
  method RetrieveRelevantChunks(docs: seq<Document>, query: string, topK: int := DefaultTopK)
    returns (result: seq<Candidate>)
    ensures result == Retrieval(docs, Embedding(query), topK)
  {
    var queryEmbedding := GenerateEmbedding(query);
    var allChunks := CollectCandidates(docs, queryEmbedding);
    result := Slice(SortDesc(allChunks, SimKey), topK);
  }

  // ---------------------------------------------------------------------------
  // The candidate list

  lemma {:induction false} CandidatesLength(docs: seq<Document>, qv: seq<int>)
    ensures |Candidates(docs, qv)| == TotalChunks(docs)
  {
    if docs != [] {
      CandidatesLength(docs[..|docs| - 1], qv);
    }
  }

  /** Adding a document leaves the offsets of the earlier ones alone. */
  lemma OffsetPrefix(docs: seq<Document>, n: nat, k: nat)
    requires k <= n <= |docs|
    ensures Offset(docs[..n], k) == Offset(docs, k)
  {
    assert docs[..n][..k] == docs[..k];
  }

  /** Exactly one candidate per chunk, document after document and chunk
      after chunk: the candidates of `docs[k]` are the positions from
      `Offset(docs, k)` to `Offset(docs, k + 1)`, scored in chunk order, and
      there are no other candidates. */
  lemma {:induction false} CandidatesLayout(docs: seq<Document>, qv: seq<int>)
    ensures Offset(docs, 0) == 0 && |Candidates(docs, qv)| == TotalChunks(docs) == Offset(docs, |docs|)
    ensures forall k :: 0 <= k < |docs| ==>
              Offset(docs, k + 1) == Offset(docs, k) + |docs[k].chunks| <= |Candidates(docs, qv)|
              && Candidates(docs, qv)[Offset(docs, k)..Offset(docs, k + 1)] == DocCandidates(docs[k], qv)
  {
    CandidatesLength(docs, qv);
    assert docs[..|docs|] == docs;
    assert docs[..0] == [];
    forall k | 0 <= k < |docs|
      ensures Offset(docs, k + 1) == Offset(docs, k) + |docs[k].chunks| <= |Candidates(docs, qv)|
              && Candidates(docs, qv)[Offset(docs, k)..Offset(docs, k + 1)] == DocCandidates(docs[k], qv)
    {
      CandidatesOfDoc(docs, qv, k);
    }
  }

  /** Candidate `i` of a document is the score of its chunk `i`: the chunk's
      text, the document's type and id, `chunkIndex == i`, and the cosine
      similarity of the query vector with the chunk's embedding. */
  lemma DocCandidatesShape(d: Document, qv: seq<int>)
    ensures |DocCandidates(d, qv)| == |d.chunks|
    ensures forall i :: 0 <= i < |d.chunks| ==>
              DocCandidates(d, qv)[i].text == d.chunks[i].text
              && DocCandidates(d, qv)[i].similarity == CosineSimilarity(qv, d.chunks[i].embedding)
              && DocCandidates(d, qv)[i].docType == d.docType
              && DocCandidates(d, qv)[i].docId == d.id
              && DocCandidates(d, qv)[i].chunkIndex == i
  {
  }

  /** The candidates of `docs[k]` sit between its offset and the next. */
  lemma {:induction false} CandidatesOfDoc(docs: seq<Document>, qv: seq<int>, k: nat)
    requires k < |docs|
    ensures Offset(docs, k + 1) == Offset(docs, k) + |docs[k].chunks| <= |Candidates(docs, qv)|
    ensures Candidates(docs, qv)[Offset(docs, k)..Offset(docs, k + 1)] == DocCandidates(docs[k], qv)
  {
    var n := |docs| - 1;
    var init := docs[..n];
    var all := Candidates(docs, qv);
    assert all == Candidates(init, qv) + DocCandidates(docs[n], qv);
    CandidatesLength(init, qv);
    assert docs[..k + 1][..k] == docs[..k];
    if k < n {
      CandidatesOfDoc(init, qv, k);
      OffsetPrefix(docs, n, k);
      OffsetPrefix(docs, n, k + 1);
      assert init[k] == docs[k];
      assert all[Offset(docs, k)..Offset(docs, k + 1)] == Candidates(init, qv)[Offset(docs, k)..Offset(docs, k + 1)];
    } else {
      assert Offset(docs, n) == TotalChunks(init) == |Candidates(init, qv)|;
      assert docs[..n + 1] == docs;
    }
  }

  lemma {:induction false} OffsetMonotone(docs: seq<Document>, k: nat, n: nat)
    requires k <= n <= |docs|
    ensures Offset(docs, k) <= Offset(docs, n)
    decreases n
  {
    if k < n {
      OffsetMonotone(docs, k, n - 1);
      assert docs[..n][..n - 1] == docs[..n - 1];
    }
  }

  /** Every candidate is the score of an existing chunk: its text, type and
      document id are that chunk's and document's. */
  lemma CandidateOrigin(docs: seq<Document>, qv: seq<int>, c: Candidate)
    requires c in Candidates(docs, qv)
    ensures exists k, i :: 0 <= k < |docs| && 0 <= i < |docs[k].chunks| && c == Score(docs[k], i, qv)
  {
    var j :| 0 <= j < |Candidates(docs, qv)| && Candidates(docs, qv)[j] == c;
    var k, i := Locate(docs, qv, j);
  }

  /** The document and chunk a candidate position belongs to. */
  lemma {:induction false} Locate(docs: seq<Document>, qv: seq<int>, j: nat) returns (k: nat, i: nat)
    requires j < |Candidates(docs, qv)|
    ensures k < |docs| && i < |docs[k].chunks|
    ensures Candidates(docs, qv)[j] == Score(docs[k], i, qv)
  {
    var n := |docs| - 1;
    var init := docs[..n];
    CandidatesLength(init, qv);
    assert Candidates(docs, qv) == Candidates(init, qv) + DocCandidates(docs[n], qv);
    if j < |Candidates(init, qv)| {
      k, i := Locate(init, qv, j);
      assert init[k] == docs[k];
    } else {
      k, i := n, j - |Candidates(init, qv)|;
    }
  }

  // ---------------------------------------------------------------------------
  // The result

  /** The result has `min(topK, number of chunks)` entries for a non-negative
      `topK`; with the default that is at most 2. */
  lemma RetrievalLength(docs: seq<Document>, qv: seq<int>, topK: int)
    requires topK >= 0
    ensures |Retrieval(docs, qv, topK)| == if topK < TotalChunks(docs) then topK else TotalChunks(docs)
  {
    var all := Candidates(docs, qv);
    CandidatesLength(docs, qv);
    assert |SortDesc(all, SimKey)| == |multiset(SortDesc(all, SimKey))| == |multiset(all)| == |all|;
  }

  /** The result is ordered by non-increasing similarity value. */
  lemma RetrievalSorted(docs: seq<Document>, qv: seq<int>, topK: int)
    ensures forall i, j, v, w ::
              (0 <= i < j < |Retrieval(docs, qv, topK)|
               && HasValue(Retrieval(docs, qv, topK)[i].similarity, v)
               && HasValue(Retrieval(docs, qv, topK)[j].similarity, w)) ==> v >= w
  {
    var r := Retrieval(docs, qv, topK);
    var sorted := SortDesc(Candidates(docs, qv), SimKey);
    forall i, j, v, w | 0 <= i < j < |r| && HasValue(r[i].similarity, v) && HasValue(r[j].similarity, w)
      ensures v >= w
    {
      assert r[i] == sorted[i] && r[j] == sorted[j];
      SignedSquareOrder(r[j].similarity, r[i].similarity, w, v);
    }
  }

  /** Stability: the returned candidates of any one similarity are the first
      candidates of that similarity in discovery order. */
  lemma RetrievalStable(docs: seq<Document>, qv: seq<int>, topK: int, k: real)
    ensures WithKey(Retrieval(docs, qv, topK), SimKey, k)
            <= WithKey(Candidates(docs, qv), SimKey, k)
  {
    var sorted := SortDesc(Candidates(docs, qv), SimKey);
    var e := SliceEnd(|sorted|, topK);
    assert sorted == sorted[..e] + sorted[e..];
    WithKeyAppend(sorted[..e], sorted[e..], SimKey, k);
    SortDescStable(Candidates(docs, qv), SimKey, k);
  }

  /** Equal keys are equal similarity values, so `RetrievalStable` speaks of
      candidates of equal similarity. */
  lemma SameKeySameValue(s: Similarity, t: Similarity, v: real, w: real)
    requires HasValue(s, v) && HasValue(t, w)
    ensures SignedSquare(s) == SignedSquare(t) <==> v == w
  {
    SignedSquareOrder(s, t, v, w);
    SignedSquareOrder(t, s, w, v);
  }

  /** Top-K: the result is drawn from the candidates, and every candidate left
      out has a similarity no larger than any returned one. */
  lemma RetrievalIsTop(docs: seq<Document>, qv: seq<int>, topK: int)
    ensures multiset(Retrieval(docs, qv, topK)) <= multiset(Candidates(docs, qv))
    ensures forall x, y :: x in Retrieval(docs, qv, topK)
              && y in multiset(Candidates(docs, qv)) - multiset(Retrieval(docs, qv, topK))
              ==> SimKey(x) >= SimKey(y)
  {
    var sorted := SortDesc(Candidates(docs, qv), SimKey);
    var e := SliceEnd(|sorted|, topK);
    assert sorted == sorted[..e] + sorted[e..];
    assert multiset(sorted) == multiset(sorted[..e]) + multiset(sorted[e..]);
    SortedPrefixIsTop(sorted, e, SimKey);
    forall x, y | x in sorted[..e] && y in multiset(Candidates(docs, qv)) - multiset(sorted[..e])
      ensures SimKey(x) >= SimKey(y)
    {
      assert y in multiset(sorted[e..]);
    }
  }

  /** Every returned item is the score of an existing chunk of the documents. */
  lemma RetrievalFromChunks(docs: seq<Document>, qv: seq<int>, topK: int)
    ensures forall c :: c in Retrieval(docs, qv, topK) ==>
              exists k, i :: 0 <= k < |docs| && 0 <= i < |docs[k].chunks| && c == Score(docs[k], i, qv)
  {
    var sorted := SortDesc(Candidates(docs, qv), SimKey);
    forall c | c in Retrieval(docs, qv, topK)
      ensures exists k, i :: 0 <= k < |docs| && 0 <= i < |docs[k].chunks| && c == Score(docs[k], i, qv)
    {
      assert c in multiset(sorted);
      CandidateOrigin(docs, qv, c);
    }
  }

  /** No documents, or documents without chunks, give an empty result. */
  lemma RetrievalWithoutChunks(docs: seq<Document>, qv: seq<int>, topK: int)
    requires forall k :: 0 <= k < |docs| ==> docs[k].chunks == []
    ensures Retrieval(docs, qv, topK) == []
  {
    NoChunksNoCandidates(docs, qv);
  }

  lemma {:induction false} NoChunksNoCandidates(docs: seq<Document>, qv: seq<int>)
    requires forall k :: 0 <= k < |docs| ==> docs[k].chunks == []
    ensures Candidates(docs, qv) == []
  {
    if docs != [] {
      NoChunksNoCandidates(docs[..|docs| - 1], qv);
    }
  }
}
