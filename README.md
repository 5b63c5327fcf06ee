# NoteSearch indexing and phrase search, modelled in Dafny

NoteSearch indexes the text files of a directory tree into an inverted index.
The index maps each term (a lowered, lemmatized word) to the documents holding
it, and for each document to the ascending token offsets where it occurs.
A search answers a phrase with the paths of the documents that contain every
query term, where each successive term lies within fewer than 5 tokens of an
occurrence of the previous one.

The model covers the core of `Search.py`:

- `text.dfy` (module `Text`): the tokenizer `tokenize` (the regex
  `\b[a-zA-Z]+\b` under Python's Unicode word boundaries), the stopword test,
  the term key `lemmatize(lower(token))`, and the query-term filter. The
  libraries the engine calls are fields of a `Normalizer` value: the stopword
  set, the lemmatizer, `contractions.fix`, the text half of `extract_links`,
  and Python's `\w` on non-ASCII characters. The model does not fix their
  behaviour.
- `postings.dfy` (module `Postings`): the `for word_pos` loop of `index_file`,
  which builds one document's posting map. The method `BuildPostings` is
  proved against the specification function `PostingsOf`.
- `inverted_index.dfy` (module `InvertedIndex`): the shared index
  `merged_dictionary` and the document registry (the sources shelf). They are
  fields of the class `Index`, whose method `Merge` is
  `add_file_to_global_dict`. `IndexFile` and `IndexFiles` are `index_file` and
  the indexing run. Lemmas prove what a merge changes, that merges are
  idempotent and commute for distinct ids, and that the order of documents
  does not matter.
- `query.dfy` (module `Query`): `search_in_dir`. It covers the two guards, the
  query terms, the candidate intersection, the in-place proximity filter over
  `common_files`, and the registry lookup. The filter is proved to keep a
  candidate exactly when its positions hold a chain of pairwise-near
  positions, one per term.
- `scenarios.dfy` (module `Scenarios`): facts proved about the model for two
  small texts and two phrases with a concrete normaliser (stopword "the").
  The documents and the phrases are tokenized by `Tokenize` from their text.

The file id (`xxhash.xxh32_hexdigest` of the path) is a function parameter
`hash`. The directory test `os.path.isdir` is a boolean parameter. The two
shelves are in-memory maps.

Points where the code's behaviour is easy to misread:

- Indexing strips links before tokenizing (Search.py:100-106). A query phrase
  is only contraction-expanded and tokenized (Search.py:160).
  `DocumentTokens` and `PhraseTokens` keep the two paths apart.
- A phrase with no query terms left after filtering is not answered with a
  marker. `next(iter(word_indexes.values()))` raises `StopIteration`
  (Search.py:172), which `Query.Search` returns as the outcome `StopIteration`.
- An unregistered id in the result list yields `{}`, not a path
  (Search.py:202). This is `Item.EmptyDict`.

## Model

| member | source | states |
|---|---|---|
| Text.Tokenize | Search.py:69-74 | every token is non-empty and made only of ASCII letters, so the `!= ''` test never fails |
| Text.TokenizeIsRegexFindall | Search.py:69-74 | the tokens are exactly the regex matches, left to right: each is a maximal run of word characters made only of `[a-zA-Z]`, the matches do not overlap, and none is missed |
| Text.SpansWellFormed | Search.py:71-73 | every span the scan reports is a non-empty run of ASCII letters with a non-word character or the scan's edge on each side, and the spans come in strictly increasing order |
| Text.SpansComplete | Search.py:71-73 | every match at or after a word boundary is among the spans the scan reports from there |
| Text.WordEnd | Search.py:71 | the run of `\w` characters from a position ends at a non-word character or at the end of the text |
| Text.Terms | Search.py:160-164 | there are no more terms than phrase tokens, and a string is a term iff some non-empty, non-stopword token has it as its key |
| Text.TermsFollowTokens | Search.py:161-164 | the terms are the keys of the kept tokens, one per kept token and in token order: some strictly ascending list of exactly the kept offsets gives, position by position, the tokens whose keys are the terms |
| Text.FilterPhrase | Search.py:161-164 | the `for word in phrase_array` loop, appending the lowered lemma of each non-empty, non-stopword token, ends with exactly `Terms` of the tokens |
| Postings.OccurrencesSound | Search.py:109-114 | every listed offset is below the bound, belongs to a kept token with that key, and the list is strictly ascending |
| Postings.OccurrencesComplete | Search.py:109-114 | every kept token with that key has its offset listed |
| Postings.OccurrencesExact | Search.py:108-114 | the offsets listed for a key are in range, strictly ascending, belong to kept tokens with that key, and include every such token |
| Postings.PostingsOf | Search.py:108-114 | every kept token's key is present; no list is empty; lists are strictly ascending; an offset is in a key's list iff its token is kept and has that key; offsets count stopwords too |
| Postings.PostingsStep | Search.py:110-114 | one loop turn appends the offset of a kept token under its key and leaves everything else unchanged |
| Postings.BuildPostings | Search.py:108-114 | the loop builds exactly `PostingsOf` of the token array |
| Postings.QueryTermsAreIndexKeys | Search.py:160-164 | query normalisation and index normalisation agree: a string is a term of a token sequence iff it is a key of that sequence's posting map |
| InvertedIndex.MergeEffect | Search.py:34-39 | the term set becomes the old terms plus the document's terms; each of those maps the file id to the document's list; every other (term, id) entry and every term the document lacks is unchanged |
| InvertedIndex.MergeIdempotent | Search.py:34-39 | merging the same document twice gives the same index as merging it once |
| InvertedIndex.MergeCommutes | Search.py:34-39 | merges of two documents with different ids commute |
| InvertedIndex.MergeAllCovers | Search.py:132-134 | merging documents with distinct ids in sequence gives each term the row of the old index extended by exactly those documents' lists |
| InvertedIndex.MergeOrderIrrelevant | Search.py:132-134 | any two orderings of the same documents with distinct ids produce the same index |
| InvertedIndex.ReindexIdempotent | Search.py:127-139 | indexing the same documents a second time leaves the index unchanged |
| InvertedIndex.MergePreservesWellFormed | Search.py:34-39 | merging a well-formed posting map keeps every list non-empty and strictly ascending |
| InvertedIndex.MergeAllWellFormed | Search.py:132-134 | merging any number of well-formed posting maps keeps the index well formed |
| InvertedIndex.DocumentsWellFormed | Search.py:106-116 | every document produced by indexing has a well-formed posting map |
| InvertedIndex.IndexedTermsBelongToOneDocument | Search.py:166-181 | with distinct ids, an id present in every query term's row is one document holding all the terms, and its rows are that document's lists |
| InvertedIndex.Index.constructor | Search.py:29 | the index and the registry start empty |
| InvertedIndex.Index.Merge | Search.py:34-39 | the key-by-key loop leaves the index equal to `Merged(old index, posting map, file id)` |
| InvertedIndex.Index.IndexFile | Search.py:92-116 | an unread file changes nothing; a read file registers its path under its id and merges the postings of its link-stripped, contraction-expanded tokens |
| InvertedIndex.Index.IndexFiles | Search.py:127-134 | after the run, the index is the fold of the merges of the read files' documents, and the registry maps each read file's id to its path |
| Query.CommonFiles | Search.py:166-174 | an id is in the candidate set iff every query term's row holds it; a term absent from the index empties the set |
| Query.ListOf | Search.py:176 | the list holds each element of the set exactly once |
| Query.WithinMembers | Search.py:186-188 | the positions kept for one active position are the current term's positions strictly closer than 5 to it |
| Query.NearMembers | Search.py:184-188 | `next_positions` holds exactly the current term's positions strictly closer than 5 to some active position |
| Query.NearPositions | Search.py:184-188 | the nested loops build exactly `Near(last_positions, positions_in_current_file)` |
| Query.ChainIffExists | Search.py:180-192 | the filter's walk succeeds from an active set iff a chain of pairwise-near positions, one per term, starts in that set |
| Query.ChainGivesWitness | Search.py:182-192 | a walk that succeeds yields a chain |
| Query.WitnessGivesChain | Search.py:182-192 | a chain makes the walk succeed |
| Query.SurvivesIffChain | Search.py:179-192 | a candidate is suitable iff the query has one term or its positions hold a chain |
| Query.IsSuitable | Search.py:179-192 | the loop with early `break` computes exactly `Survives` of the candidate's position lists |
| Query.SurvivorsMembers | Search.py:177-196 | an id survives iff it is a candidate in the list and is suitable |
| Query.SurvivorsExactly | Search.py:177-196 | an id survives iff it is in the list and the query has one term or its positions hold a chain |
| Query.SurvivorsKeepOrder | Search.py:193-196 | the survivors keep their relative order in `common_files` |
| Query.SingleTermKeepsAll | Search.py:182 | with a single query term every candidate survives, in order |
| Query.RemoveAfterPrefix | Search.py:194 | `list.remove` of a candidate that does not occur among the survivors before it deletes that candidate and nothing else |
| Query.ListStep | Search.py:193-196 | with the survivors so far followed by the unexamined candidates, keeping the candidate at the cursor advances `i` over the same list, and `remove` deletes it at the cursor |
| Query.FilterStep | Search.py:177-196 | one turn of the loop carries the list from the survivors of the first n candidates to those of the first n + 1, followed by the rest |
| Query.ProximityFilter | Search.py:177-196 | removing unsuitable files in place while walking `common_files` leaves exactly `Survivors` of the original list |
| Query.ResolvePaths | Search.py:198-202 | one registry lookup per survivor, in order, giving the path or `{}` for an unregistered id |
| Query.Search | Search.py:146-211 | a missing or empty phrase returns the empty-query message before the directory is checked; a path of length at most 3 or a non-directory returns the invalid-directory message; no query terms raises `StopIteration`; otherwise the result is the registry lookup of the survivors of some listing of the candidate set |
| Query.SurvivorsAreMatchingDocuments | Search.py:166-196 | over an index built from documents with distinct ids, an id is returned iff it is the id of a document that holds every query term and whose positions hold a chain (any chain when the query has one term) |
| Scenarios.Text1Tokens | Search.py:69-74 | the text "the quick brown fox" tokenizes to its four words |
| Scenarios.Text2Tokens | Search.py:69-74 | the text "the quick red fox runs" tokenizes to its five words |
| Scenarios.QuickFoxTokens | Search.py:160 | the phrase "quick fox" tokenizes to `quick`, `fox` |
| Scenarios.BrownRunsTokens | Search.py:160 | the phrase "brown runs" tokenizes to `brown`, `runs` |
| Scenarios.QuickFoxTerms | Search.py:161-164 | with stopword "the", the tokens `quick`, `fox` give the terms `quick`, `fox` |
| Scenarios.BrownRunsTerms | Search.py:161-164 | the tokens `brown`, `runs` give the terms `brown`, `runs` |
| Scenarios.QuickFoxMatches | Search.py:179-192 | a document with "quick" at offset 1 and "fox" at offset 3 matches "quick fox" |
| Scenarios.QuickFoxReturnsBoth | Search.py:160-196 | over the index of the texts "the quick brown fox" and "the quick red fox runs", a phrase tokenizing to `quick fox` returns both documents, whatever the listing order |
| Scenarios.BrownRunsReturnsNone | Search.py:160-196 | over the same index, a phrase tokenizing to `brown runs` returns neither document |

## Left out

- `read_file` (Search.py:42-59): file reading and `.docx` extraction are I/O. A file's content is an `Option<string>` input, and `None` is a file that could not be read.
- `extract_links` and `index_link` (Search.py:62-89): link stripping is the opaque `stripLinks` transform. `index_link` only prints, so the links it receives are dropped.
- `os.walk` and `dir_names.remove(APP_DIR)` (Search.py:129-130): the directory traversal is I/O, so the files of a run arrive as one sequence. The `ValueError` that `remove` raises in a subdirectory without `.NoteSearch` is not modelled.
- `shelve` persistence (Search.py:127, 137-139, 168-170, 200-202): the shelves are in-memory maps. Writing the index back and reading it again is assumed to return the same map. `merged_dictionary` is a process-wide variable that is never cleared (Search.py:29, 116, 137-139). A second directory indexed in the same process therefore gets the first directory's postings written to its shelf. Those ids are not in its registry, so they come back as `{}`. `IndexFiles` merges into the index as it stands, so it keeps this behaviour.
- The lazy build when no `.dat` file exists, and the `mkdir` of the application folder (Search.py:151-157): these are filesystem effects. `Search` takes the index and registry as they stand.
- Threads and locks (Search.py:26-27, 35, 97, 132-134): concurrency is not modelled. Merges run one after another, and `MergeCommutes` and `MergeOrderIrrelevant` stand in for the freedom of interleaving.
- InvertedIndex.Index.IndexFiles: it processes the files in the given order. It does not model the interleaving of worker threads, which the order lemmas cover only when the file ids are distinct.
- `xxhash.xxh32_hexdigest` (Search.py:96): the file id is the `hash` parameter. Hash collisions are not excluded by the model, so the lemmas about several documents require distinct ids.
- `simplemma.lemmatize` and `contractions.fix`: foreign libraries, modelled as the uninterpreted `lemmatize` and `fixContractions` fields.
- Python's Unicode `\w` beyond ASCII: a parameter, `unicodeWord`. `str.lower` is modelled on ASCII letters only, which is all a token can hold.
- Query.Search: the order of the candidate list comes from iterating a Python set, which is unspecified. The contract therefore says the result belongs to some listing of the candidate set rather than naming one order.
- Query.CommonFiles: the source intersects over the distinct keys of `word_indexes`, while the model intersects over the query terms in order. Both give the same set, since a repeated term adds the same row again.
- `search_` configuration loading, timing and `print` calls (Search.py:123, 141-143, 204-205, 214-228): I/O with no effect on the result.
