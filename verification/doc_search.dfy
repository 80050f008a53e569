/**
 `DocSearchTool._run`: rank the search hits, turn every page chunk of every
 ranked hit into a document citing the hit's storage location, answer the
 fixed "no results" message when there are no documents, otherwise select
 the context and chain type, generate an answer, and add citation links.

 The search request itself is not modelled: its responses are the input
 `batches`. The tokenizer, the similarity search and the language-model
 chain are the parameters `tok`, `search` and `generate`.
 */
module DocSearch {
  import opened Wrappers
  import opened Tokens
  import opened Ranking
  import opened Selection
  import opened Citations

  /** The answer when no document is left to answer from. */
  const NoResultsMessage: string := "No Results Found in my knowledge base"

  /** The tool's settings. */
  datatype Config = Config(deployment: string, rerankerThreshold: real, chunksLimit: int,
                           similarityK: int, responseLanguage: string)

  /** The tool's default settings for a deployment. */
  function DefaultConfig(deployment: string): (c: Config)
    ensures c.rerankerThreshold == 1.0 && c.chunksLimit == 100 && c.similarityK == 4
    ensures c.responseLanguage == "English" && c.deployment == deployment
  {
    Config(deployment, 1.0, 100, 4, "English")
  }

  /** The documents of one ranked hit: one per page chunk, citing the hit's location. */
  function HitDocuments(h: Hit): (r: seq<Document>)
    ensures |r| == |h.pages|
    ensures forall k :: 0 <= k < |r| ==> r[k] == Document(h.pages[k], h.location)
  {
    seq(|h.pages|, k requires 0 <= k < |h.pages| => Document(h.pages[k], h.location))
  }

  /** The documents of all ranked hits, hit by hit and chunk by chunk. */
  function HitsToDocuments(ranked: seq<Hit>): (r: seq<Document>)
    ensures r == [] <==> forall i :: 0 <= i < |ranked| ==> ranked[i].pages == []
    ensures forall d :: d in r ==> exists i :: 0 <= i < |ranked| && d.source == ranked[i].location &&
                                                d.pageContent in ranked[i].pages
  {
    if |ranked| == 0 then []
    else
      var rest := HitsToDocuments(ranked[1..]);
      var r := HitDocuments(ranked[0]) + rest;
      forall d | d in rest ensures exists i :: 0 <= i < |ranked| && d.source == ranked[i].location &&
                                               d.pageContent in ranked[i].pages {
        var i :| 0 <= i < |ranked[1..]| && d.source == ranked[1..][i].location && d.pageContent in ranked[1..][i].pages;
        assert ranked[i + 1] == ranked[1..][i];
      }
      assert (forall i :: 0 <= i < |ranked| ==> ranked[i].pages == []) <==>
             ranked[0].pages == [] && forall i :: 0 <= i < |ranked[1..]| ==> ranked[1..][i].pages == [] by {
        if ranked[0].pages == [] && forall i :: 0 <= i < |ranked[1..]| ==> ranked[1..][i].pages == [] {
          forall i | 1 <= i < |ranked| ensures ranked[i].pages == [] {
            assert ranked[i] == ranked[1..][i - 1];
          }
        }
      }
      r
  }

  /** Turning hits into documents distributes over concatenation of the ranked lists. */
  lemma {:induction false} HitsToDocumentsAppend(a: seq<Hit>, b: seq<Hit>)
    ensures HitsToDocuments(a + b) == HitsToDocuments(a) + HitsToDocuments(b)
    decreases |a|
  {
    if |a| == 0 {
      assert a + b == b;
    } else {
      assert (a + b)[1..] == a[1..] + b;
      HitsToDocumentsAppend(a[1..], b);
    }
  }

  /**
   The documents of one ranked hit are that hit's page chunks, in page order;
   with `HitsToDocumentsAppend` this fixes the documents of every ranking.
   */
  lemma HitsToDocumentsSingle(h: Hit)
    ensures HitsToDocuments([h]) == HitDocuments(h)
  {
    assert [h][1..] == [];
    assert HitDocuments(h) + [] == HitDocuments(h);
  }

  /** `DocSearchTool._run` for a query, given the search responses of all indexes. */
  function DocSearchRun(cfg: Config, query: string, batches: seq<seq<Hit>>,
                        tok: string -> nat,
                        search: (seq<Document>, string, int) -> seq<Document>,
                        generate: (seq<Document>, string, ChainType, string) -> string,
                        sasToken: Option<string>): (r: string)
    ensures var docs := HitsToDocuments(OrderSearchResults(batches, cfg.rerankerThreshold));
            docs == [] ==> r == NoResultsMessage
    ensures var docs := HitsToDocuments(OrderSearchResults(batches, cfg.rerankerThreshold));
            docs != [] && NumTokensFromDocs(docs, tok) <= ModelTokensLimit(cfg.deployment) ==>
              r == AddCitations(generate(docs, query, Stuff, cfg.responseLanguage), sasToken)
    ensures var docs := HitsToDocuments(OrderSearchResults(batches, cfg.rerankerThreshold));
            var top := search(TruncateChunks(docs, cfg.chunksLimit), query, cfg.similarityK);
            docs != [] && NumTokensFromDocs(docs, tok) > ModelTokensLimit(cfg.deployment) ==>
              r == AddCitations(generate(top, query, ChainTypeFor(NumTokensFromDocs(top, tok), ModelTokensLimit(cfg.deployment)),
                                         cfg.responseLanguage), sasToken)
  {
    var ranked := OrderSearchResults(batches, cfg.rerankerThreshold);
    var docs := HitsToDocuments(ranked);
    match SelectContext(docs, cfg.deployment, query, cfg.chunksLimit, cfg.similarityK, tok, search)
    case NoDocuments => NoResultsMessage
    case Selected(topDocs, chainType) =>
      AddCitations(generate(topDocs, query, chainType, cfg.responseLanguage), sasToken)
  }

  /** When no hit of any batch scores above the threshold, the tool answers "no results". */
  lemma NoQualifyingHitsMeansNoResults(cfg: Config, query: string, batches: seq<seq<Hit>>,
                                       tok: string -> nat,
                                       search: (seq<Document>, string, int) -> seq<Document>,
                                       generate: (seq<Document>, string, ChainType, string) -> string,
                                       sasToken: Option<string>)
    requires forall b, h :: 0 <= b < |batches| && h in batches[b] ==> h.score <= cfg.rerankerThreshold
    ensures DocSearchRun(cfg, query, batches, tok, search, generate, sasToken) == NoResultsMessage
  {
    NoQualifyingHitsRankEmpty(batches, cfg.rerankerThreshold);
  }

  /** Without the SAS token the generated answer is returned as it is. */
  lemma NoTokenKeepsAnswer(cfg: Config, query: string, batches: seq<seq<Hit>>,
                           tok: string -> nat,
                           search: (seq<Document>, string, int) -> seq<Document>,
                           generate: (seq<Document>, string, ChainType, string) -> string)
    requires HitsToDocuments(OrderSearchResults(batches, cfg.rerankerThreshold)) != []
    ensures var docs := HitsToDocuments(OrderSearchResults(batches, cfg.rerankerThreshold));
            var sel := SelectContext(docs, cfg.deployment, query, cfg.chunksLimit, cfg.similarityK, tok, search);
            sel.Selected? &&
            DocSearchRun(cfg, query, batches, tok, search, generate, None)
              == generate(sel.docs, query, sel.chainType, cfg.responseLanguage)
  {
  }

  /**
   With the default settings, documents over budget are narrowed by handing
   the similarity search the first 100 of them (all of them when there are
   fewer) and asking it for 4.
   */
  lemma DefaultSelectionSearchesFirstHundred(deployment: string, query: string, docs: seq<Document>,
                                             tok: string -> nat,
                                             search: (seq<Document>, string, int) -> seq<Document>)
    requires docs != [] && NumTokensFromDocs(docs, tok) > ModelTokensLimit(deployment)
    ensures var cfg := DefaultConfig(deployment);
            var top := search(docs[..if |docs| < 100 then |docs| else 100], query, 4);
            SelectContext(docs, cfg.deployment, query, cfg.chunksLimit, cfg.similarityK, tok, search)
              == Selected(top, ChainTypeFor(NumTokensFromDocs(top, tok), ModelTokensLimit(deployment)))
  {
    var n := if |docs| < 100 then |docs| else 100;
    assert TruncateChunks(docs, 100) == docs[..n];
  }
}
