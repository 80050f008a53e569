# Document search core of the GPT smart search engine

This project is a Dafny model of the document-search path of `common/utils.py`.
The document-search tool (`DocSearchTool._run`) answers a question from the
hits that one or more Azure Cognitive Search indexes return:

- **Ranking** (`order_search_results`): hits are merged into a dictionary
  keyed by hit id. Only hits whose reranker score is strictly above the
  threshold are inserted, and a later hit overwrites an earlier one. The
  dictionary is then stably sorted by descending score.
- **Documents**: every page chunk of every ranked hit becomes one document
  whose `source` is the hit's storage location.
- **Context selection**:
  - with no documents, the tool answers "No Results Found in my knowledge base";
  - documents within the deployment's token budget (`model_tokens_limit`,
    `num_tokens_from_docs`) are all answered from with the "stuff" chain;
  - otherwise the first `chunks_limit` documents, taken with Python slicing,
    are embedded (`embed_docs`).
    A similarity search picks the top ones, and the chain is "map_reduce"
    exactly when those still exceed the budget.
- **Citations**: the generated answer is split with the case-insensitive
  pattern `sources?:?\W*`. Only the second piece, the text between the first
  match and the next one (or the end), is read as a comma-separated citation
  list. Each citation becomes a numbered link carrying the storage SAS token.
- **Helpers**: `get_sources` picks the documents an answer cites, and
  `wrap_text_in_html` renders text as `<p>` paragraphs.

The modules follow that structure:

- `Tokens`: documents, token budget and token count.
- `Ranking`: hits, the merge and the sort.
- `Selection`: truncation, chain type and context selection.
- `Citations`: the marker pattern, `re.split` and the links.
- `Sources`: `get_sources`.
- `Html`: `wrap_text_in_html`.
- `DocSearch`: the whole tool run.
- `Strings` and `Wrappers`: general helpers for `str.split`, `join`, decimal
  rendering and `Option`.

Foreign code enters as function parameters about which nothing is assumed:

- the `cl100k_base` tokenizer is `tok`;
- the embedding plus FAISS similarity search is `search`;
- the LangChain question-answering chain is `generate`;
- the `DATASOURCE_SAS_TOKEN` environment variable is an `Option<string>`.

The search responses are the input `batches`.

The answer body keeps everything before the match, including a trailing
space. "No results" is also answered when every qualifying hit has an empty
`pages` list, because the tool tests the document list, not the ranking.

## Model

| member | source | states |
|---|---|---|
| Tokens.ModelTokensLimit | common/utils.py:178-188 | The budget is 7000 exactly for "gpt-4" and 31000 exactly for "gpt-4-32k". Every other name, "gpt-35-turbo" included, gets 3000. The budget is never below the 3000 default. |
| Tokens.NumTokensFromDocs | common/utils.py:191-195 | The count of a document list is at least the token count of each single document's text. |
| Tokens.NumTokensAppend | common/utils.py:191-195 | The count is additive: the count of a concatenation is the sum of the counts of its parts. |
| Tokens.NumTokensSingleton | common/utils.py:191-195 | An empty list counts 0; one document counts the tokens of its text. |
| Tokens.NumTokensPrefix | common/utils.py:191-195 | A prefix of a document list never counts more than the whole list. |
| Ranking.Flatten | common/utils.py:233-234 | A hit is visited exactly when it is in some batch. With `FlattenSingle` and `FlattenAppend`, the order is batch by batch and, within a batch, hit by hit, each hit as often as it occurs. |
| Ranking.FlattenSingle | common/utils.py:233-234 | The hits of one batch are visited in the order the batch lists them. |
| Ranking.FlattenAppend | common/utils.py:233-234 | All hits of earlier batches are visited, in order, before any hit of a later batch. |
| Ranking.LastQualifying | common/utils.py:235-236 | The value the dictionary holds for an id is a hit with that id above the threshold; there is none exactly when no such hit exists. |
| Ranking.LastQualifyingIsLast | common/utils.py:233-244 | No hit for the same id above the threshold comes after the one kept (later writes win). |
| Ranking.FirstQualifying | common/utils.py:235-236 | Gives the position where an id is first inserted: the first hit for it above the threshold. |
| Ranking.Upsert | common/utils.py:236-244 | Assigning `content[id]`: the new hit is in the dictionary, nothing else is added, every key keeps its position, every other entry is unchanged, and the dictionary grows exactly when the key is new. |
| Ranking.MergeSpec | common/utils.py:230-244 | Of `Merge`, the filtering loop: each merged entry is the last hit for its id above the threshold. Every id with such a hit has an entry. Entries stand in the order of each id's first qualifying hit. Ids are distinct. |
| Ranking.MergeNoneQualify | common/utils.py:235 | Hits none of which scores above the threshold give an empty dictionary. |
| Ranking.MergeOfDictionary | common/utils.py:230-244 | Re-merging a dictionary of entries above the threshold rebuilds it unchanged. |
| Ranking.SortByScore | common/utils.py:246-247 | The sort is a permutation of its input (same multiset) in descending score order. |
| Ranking.SortKeepsTies | common/utils.py:246-247 | Elements with equal scores keep their relative order: the sort is stable. |
| Ranking.SortKeepsUniqueIds | common/utils.py:246-247 | Sorting a dictionary keeps its ids distinct. |
| Ranking.SortOfSorted | common/utils.py:246-247 | A list already in descending order is left unchanged. |
| Ranking.OrderSearchResults | common/utils.py:226-249 | Every ranked entry scores strictly above the threshold and is a hit of some batch. Entries are in descending score order with distinct ids. |
| Ranking.OrderSearchResultsComplete | common/utils.py:233-244 | Every id with a hit above the threshold in any batch has an entry in the result. |
| Ranking.OrderSearchResultsLastWins | common/utils.py:233-244 | Each entry is the last hit for its id above the threshold, in arrival order. |
| Ranking.OrderSearchResultsStable | common/utils.py:230-247 | Entries with equal scores stand in the order in which their ids were first inserted. |
| Ranking.OrderSearchResultsIdempotent | common/utils.py:226-249 | Ranking a ranked result again, with the same threshold, changes nothing. |
| Ranking.NoQualifyingHitsRankEmpty | common/utils.py:233-249 | When no hit scores above the threshold, the ranking is empty. |
| Selection.PrefixSlice | common/utils.py:129 | Python's `s[:n]` is a prefix of `s`: the first `n` elements; all of `s` when `n` exceeds its length; `\|s\|+n` elements (at least 0) when `n` is negative. |
| Selection.TruncateChunks | common/utils.py:128-129 | The embedded documents are a prefix of the documents, with exactly `min(len, chunks_limit)` of them for a non-negative limit. A negative limit drops documents from the end. |
| Selection.ChainTypeFor | common/utils.py:364 | The chain is "map_reduce" exactly when the token count exceeds the budget. |
| Selection.SelectContext | common/utils.py:343-369 | No documents exactly when there are none to select from. Within the budget, all documents are selected with "stuff". Over budget, the documents are the search result over the truncated documents. "map_reduce" is chosen exactly when the selected documents exceed the budget. |
| Selection.SelectionIgnoresDocsBeyondLimit | common/utils.py:128-129 | Over budget, documents past the first `chunks_limit` have no influence on the selection. |
| Citations.SkipNonWord | common/utils.py:379 | `\W*` stops at the first word character, or at the end of the text. |
| Citations.MarkerEnd | common/utils.py:379 | A match starts at a position exactly when "source" (any case) starts there. It ends at a word character or the end of the text. Everything it covers after "source" is non-word, except an `s` right after "source", which it always takes. |
| Citations.FirstMarker | common/utils.py:379-381 | Gives the leftmost match at or after a position. There is no occurrence of "source" before it, and none at all when there is no match. |
| Citations.MarkerSplitPiecesHaveNoMatch | common/utils.py:380-381 | Of `MarkerSplit`, `re.split` with the pattern: no piece contains a match. |
| Citations.MarkerSplitFirstPieces | common/utils.py:380-381 | `re.split` returns the whole text when nothing matches. Otherwise the first piece is the text before the leftmost match and the second runs from its end to the next match. |
| Citations.CitationList | common/utils.py:381 | The citations, rejoined with commas, give the segment with its spaces removed. No citation contains a space or a comma. |
| Citations.NumberedLinks | common/utils.py:384-386 | The `i`-th `Link` (0-based) points at the `i`-th citation followed by the SAS token and carries the number `n+i`. |
| Citations.CitationLinksNumbering | common/utils.py:383-386 | `CitationLinks`, the links appended after the header, are the numbered links, one per citation, in order. |
| Citations.AddCitations | common/utils.py:378-393 | The answer is kept unchanged exactly when nothing matches or the SAS token is unset. Otherwise it becomes the text before the first match, the header and the links for the citation list. |
| Citations.AddCitationsOfMarkedAnswer | common/utils.py:378-388 | A body without a match, a marker and a list without a match render as the body, the header and the links of the list. |
| Citations.CitationListOfJoin | common/utils.py:381 | Citations without spaces or commas, listed with ", ", are read back as exactly those citations in order. |
| Citations.AddCitationsRoundTrip | common/utils.py:378-388 | A body, "SOURCES: " and citations listed with ", " render as the body, the header and one link per citation, numbered from 1. |
| Citations.AddCitationsExample | common/utils.py:378-388 | "The answer is X. SOURCES: a-1, b-2" renders as its body, trailing space included, the header, and links [1] to "a-1" and [2] to "b-2". |
| Citations.MarkerMatchesInsideWord | common/utils.py:379-381 | The pattern also matches inside a word: "All resources here" is cut after "All re", and "here" becomes a citation. |
| Sources.LastPiece | common/utils.py:150 | `split(sep)[-1]` is the whole text when the separator does not occur. Otherwise it is a separator-free suffix that directly follows an occurrence: the text after the last one. |
| Sources.SourceKeys | common/utils.py:150 | The keys, rejoined with ", ", give the text after the last "SOURCES: ". There is at least one key, and none contains ", ". |
| Sources.FilterBySource | common/utils.py:152-155 | Keeps the documents whose source is a key, each as many times as it occurs, in their original order, and no other document. |
| Sources.GetSources | common/utils.py:146-157 | Returns the documents whose source is cited after the last "SOURCES: ", each as many times as it occurs, as a subsequence of the documents, and no other document. |
| Sources.SourceKeysAfterMarker | common/utils.py:150 | With a single "SOURCES: " in the answer, the keys are the text after it split on ", ". |
| Html.Paragraphs | common/utils.py:166 | One paragraph per line: the `i`-th is `<p>` + line `i` + `</p>`. |
| Html.ParagraphsOf | common/utils.py:166 | A text has one paragraph more than it has newlines. |
| Html.WrapTextInHtml | common/utils.py:161-166 | The result holds no newline. A text with `n` newlines, after joining pages with rules, gives a result `6n + 7` characters longer: each of its `n + 1` lines gains `<p>` and `</p>`, and the newlines are dropped. |
| Html.PageSeparatorParts | common/utils.py:165 | The page separator is a newline, the rule `<hr/>`, and a newline. |
| Html.WrapSingleLine | common/utils.py:161-166 | A text without a newline becomes exactly one paragraph. |
| Html.WrapAppend | common/utils.py:166 | Two texts joined by a newline wrap to the wrapping of each, in order. |
| Html.WrapFewPages | common/utils.py:163-166 | An empty page list gives one empty paragraph; one page wraps like its own text. |
| Html.WrapPagesCons | common/utils.py:163-166 | Consecutive pages are separated by the paragraph `<p><hr/></p>`. |
| DocSearch.DefaultSelectionSearchesFirstHundred | common/utils.py:325-364 | With the defaults (threshold 1, 100 chunks, 4 similar documents), documents over budget are narrowed by a similarity search over the first `min(len(docs), 100)` documents with `k = 4`, and the chain is chosen from what it returns. |
| DocSearch.HitDocuments | common/utils.py:339-340 | Each page chunk of a hit becomes one document citing the hit's location, in page order. |
| DocSearch.HitsToDocuments | common/utils.py:337-340 | The list is empty exactly when every ranked hit has no pages. Each document is a page of some hit, citing that hit's location. |
| DocSearch.HitsToDocumentsSingle | common/utils.py:338-340 | The documents of a single ranked hit are its page chunks in page order, all citing its location. |
| DocSearch.HitsToDocumentsAppend | common/utils.py:338-340 | Documents of concatenated rankings are the concatenated documents. |
| DocSearch.DocSearchRun | common/utils.py:332-393 | No documents gives "No Results Found in my knowledge base". Within the budget, the answer is generated from all documents with "stuff". Over budget, it is generated from the search result with the chain its token count selects. Either way the citation links are then added. |
| DocSearch.NoQualifyingHitsMeansNoResults | common/utils.py:345-352 | When no hit scores above the threshold, the tool answers "No Results Found in my knowledge base". |
| DocSearch.NoTokenKeepsAnswer | common/utils.py:385-393 | Without the SAS token the generated answer is returned unchanged. |
| Strings.Split | common/utils.py:150 | `str.split`: the pieces rejoined with the separator give the text, and no piece contains the separator. |
| Strings.SplitJoinChar | common/utils.py:381 | Splitting on a character after joining parts that lack it gives the parts back. |
| Strings.RemoveChar | common/utils.py:381 | `replace(" ", "")`: no space is left, every other character of the text is kept, and the result is shorter by the number of spaces. |
| Strings.RemoveCharAppend | common/utils.py:381 | Removing spaces distributes over concatenation. |
| Strings.DecimalRoundTrip | common/utils.py:386 | `str(n)` is a digit string that reads back as `n`. |

## Left out

- `get_search_results` (common/utils.py:198-223): an HTTP request per index, configured from environment variables. Its responses are the input `batches`, one sequence of hits per index.
- `num_tokens_from_string` and the `cl100k_base` tokenizer: foreign code. The count is the parameter `tok`.
- `embed_docs` beyond its truncation, and `search_docs`: the embedding model and FAISS index are foreign code. Both are the parameter `search`, applied to the truncated documents.
- `get_answer`: the LangChain question-answering chain is the parameter `generate`. Its branch for an unsupported chain type cannot be reached from the tool, which only passes "stuff" or "map_reduce".
- The outer `except` of `_run`, which prints the error and returns `None`. This includes the `IndexError` when a hit has no captions (the model keeps the first caption as a plain string).
- The inner `except`: its printout is left out. Its effect, keeping the answer unchanged, is modelled.
- The `verbose` printouts, the asynchronous `_arun`, and the retrieval count `k` (10 by default), which only shapes the HTTP request.
- `run_agent`, the other tools and agents, `parse_pdf`, `text_to_docs` and the prompt templates: outside the document-search core.
- Ranking.Hit: `reranker_th` is an `int` in the tool and the score is a float. The model uses `real` for both, so floating-point rounding is not modelled.
- Citations.IsWordChar: `\w` is taken as ASCII letters, digits and `_`. Python's Unicode `\w` also counts non-ASCII letters and digits as word characters.
- Citations.FoldsToS: of Python's case-insensitive matching, only the fold of the long s (U+017F) to `s` is modelled. It is the only non-ASCII fold that affects the letters of "source".
