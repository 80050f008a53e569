/**
 The token budget of a chat deployment and the token count of a list of
 documents. The `cl100k_base` tokenizer is a foreign library; it enters the
 model as the parameter `tok`, about which nothing is assumed beyond giving a
 natural number for every string.
 */
module Tokens {

  /** A LangChain document: its text and the `source` entry of its metadata. */
  datatype Document = Document(pageContent: string, source: string)

  /** Default budget for every deployment the table does not name. */
  const DefaultTokensLimit: nat := 3000

  /**
   The context budget of a deployment. The lookup is total: the three known
   deployments get their own budget and every other name gets the default.
   */
  function ModelTokensLimit(model: string): (r: nat)
    ensures r >= DefaultTokensLimit
    ensures r == 7000 <==> model == "gpt-4"
    ensures r == 31000 <==> model == "gpt-4-32k"
    ensures r == 3000 <==> model != "gpt-4" && model != "gpt-4-32k"
  {
    if model == "gpt-35-turbo" then 3000
    else if model == "gpt-4" then 7000
    else if model == "gpt-4-32k" then 31000
    else DefaultTokensLimit
  }

  /** The token count of every document's text, added up. */
  function NumTokensFromDocs(docs: seq<Document>, tok: string -> nat): (r: nat)
    ensures forall i :: 0 <= i < |docs| ==> tok(docs[i].pageContent) <= r
  {
    if |docs| == 0 then 0
    else
      var prefix := docs[..|docs| - 1];
      assert forall i :: 0 <= i < |prefix| ==> prefix[i] == docs[i];
      NumTokensFromDocs(prefix, tok) + tok(docs[|docs| - 1].pageContent)
  }

  /** The count of a concatenation is the sum of the counts of its parts. */
  lemma {:induction false} NumTokensAppend(a: seq<Document>, b: seq<Document>, tok: string -> nat)
    ensures NumTokensFromDocs(a + b, tok) == NumTokensFromDocs(a, tok) + NumTokensFromDocs(b, tok)
    decreases |b|
  {
    if |b| == 0 {
      assert a + b == a;
    } else {
      var b' := b[..|b| - 1];
      assert (a + b)[..|a + b| - 1] == a + b';
      NumTokensAppend(a, b', tok);
    }
  }

  /** The count of one document is the token count of its text, and an empty list counts zero. */
  lemma NumTokensSingleton(d: Document, tok: string -> nat)
    ensures NumTokensFromDocs([], tok) == 0
    ensures NumTokensFromDocs([d], tok) == tok(d.pageContent)
  {
    assert [d][..0] == [];
  }

  /** A prefix never counts more than the whole list. */
  lemma NumTokensPrefix(docs: seq<Document>, n: nat, tok: string -> nat)
    requires n <= |docs|
    ensures NumTokensFromDocs(docs[..n], tok) <= NumTokensFromDocs(docs, tok)
  {
    assert docs == docs[..n] + docs[n..];
    NumTokensAppend(docs[..n], docs[n..], tok);
  }
}
