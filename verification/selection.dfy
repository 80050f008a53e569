/**
 Context selection of the document-search tool: when the documents fit the
 deployment's token budget they are all used with the single-pass "stuff"
 chain; otherwise at most `chunksLimit` of them are embedded, a similarity
 search narrows them down, and the chain type is chosen from the token count
 of what the search returned.

 The embedding model and the FAISS similarity search are foreign code; the
 search enters as the parameter `search(documents, query, k)`, about which
 nothing is assumed.
 */
module Selection {
  import opened Tokens

  /** The two question-answering chain types the tool uses: LangChain's "stuff" and "map_reduce". */
  datatype ChainType = Stuff | MapReduce

  /** Outcome of selection: no documents at all, or the documents to answer from and the chain type. */
  datatype Selection = NoDocuments | Selected(docs: seq<Document>, chainType: ChainType)

  /**
   Python's `s[:n]`: the first `n` elements, or all of them when there are
   fewer; a negative `n` drops `-n` elements from the end.
   */
  function PrefixSlice<T>(s: seq<T>, n: int): (r: seq<T>)
    ensures r <= s
    ensures 0 <= n <= |s| ==> |r| == n
    ensures n > |s| ==> r == s
    ensures n < 0 ==> |r| == if |s| + n > 0 then |s| + n else 0
  {
    if n >= 0 then (if n <= |s| then s[..n] else s)
    else if |s| + n > 0 then s[..|s| + n]
    else []
  }

  /**
   The truncation in `embed_docs`: the documents that get embedded, i.e. the
   first `chunksLimit` of them (Python slicing, so a negative limit drops
   documents from the end).
   */
  function TruncateChunks(docs: seq<Document>, chunksLimit: int): (r: seq<Document>)
    ensures r <= docs
    ensures 0 <= chunksLimit ==> |r| == if |docs| <= chunksLimit then |docs| else chunksLimit
    ensures chunksLimit < 0 ==> |r| == if |docs| + chunksLimit > 0 then |docs| + chunksLimit else 0
  {
    if |docs| > chunksLimit then PrefixSlice(docs, chunksLimit) else docs
  }

  /** The chain type for documents counting `numTokens` against a budget of `tokensLimit`. */
  function ChainTypeFor(numTokens: nat, tokensLimit: nat): (c: ChainType)
    ensures c == MapReduce <==> numTokens > tokensLimit
  {
    if numTokens > tokensLimit then MapReduce else Stuff
  }

  /**
   The selection in the document-search tool for the deployment named
   `deployment`. No documents gives `NoDocuments`. Documents within the
   budget are passed through unchanged with "stuff". Otherwise the result is
   whatever the similarity search returns for the truncated documents, and
   the chain type is "map_reduce" exactly when THAT result exceeds the
   budget. In every case the chain type is "map_reduce" exactly when the
   selected documents exceed the budget.
   */
  function SelectContext(docs: seq<Document>, deployment: string, query: string,
                         chunksLimit: int, similarityK: int, tok: string -> nat,
                         search: (seq<Document>, string, int) -> seq<Document>): (r: Selection)
    ensures r.NoDocuments? <==> docs == []
    ensures r.Selected? ==>
              (r.chainType == MapReduce <==> NumTokensFromDocs(r.docs, tok) > ModelTokensLimit(deployment))
    ensures docs != [] && NumTokensFromDocs(docs, tok) <= ModelTokensLimit(deployment) ==>
              r == Selected(docs, Stuff)
    ensures docs != [] && NumTokensFromDocs(docs, tok) > ModelTokensLimit(deployment) ==>
              r.Selected? && r.docs == search(TruncateChunks(docs, chunksLimit), query, similarityK)
  {
    var tokensLimit := ModelTokensLimit(deployment);
    if |docs| == 0 then NoDocuments
    else
      var numTokens := NumTokensFromDocs(docs, tok);
      if numTokens > tokensLimit then
        var topDocs := search(TruncateChunks(docs, chunksLimit), query, similarityK);
        Selected(topDocs, ChainTypeFor(NumTokensFromDocs(topDocs, tok), tokensLimit))
      else
        Selected(docs, Stuff)
  }

  /**
   Over budget, documents past the first `chunksLimit` have no influence on
   the selection: two document lists that agree on that prefix and both
   exceed the budget select the same documents with the same chain type.
   */
  lemma SelectionIgnoresDocsBeyondLimit(docs1: seq<Document>, docs2: seq<Document>, deployment: string,
                                        query: string, chunksLimit: nat, similarityK: int,
                                        tok: string -> nat,
                                        search: (seq<Document>, string, int) -> seq<Document>)
    requires |docs1| >= chunksLimit && |docs2| >= chunksLimit
    requires docs1[..chunksLimit] == docs2[..chunksLimit]
    requires NumTokensFromDocs(docs1, tok) > ModelTokensLimit(deployment)
    requires NumTokensFromDocs(docs2, tok) > ModelTokensLimit(deployment)
    ensures SelectContext(docs1, deployment, query, chunksLimit, similarityK, tok, search)
         == SelectContext(docs2, deployment, query, chunksLimit, similarityK, tok, search)
  {
    assert TruncateChunks(docs1, chunksLimit) == docs1[..chunksLimit];
    assert TruncateChunks(docs2, chunksLimit) == docs2[..chunksLimit];
  }
}
